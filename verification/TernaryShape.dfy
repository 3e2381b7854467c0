/** The C strings that key the index: characters are signed, and a key carries its
    terminating NUL as its last character. */
module CStrings {
  type CChar = c: int | -128 <= c < 128

  type Key = seq<CChar>

  const NUL: CChar := 0

  /** NUL occurs in `k` exactly once, at the end. */
  predicate IsKey(k: Key) {
    && |k| > 0
    && k[|k| - 1] == NUL
    && forall i | 0 <= i < |k| - 1 :: k[i] != NUL
  }

  /** A key is the characters of a C string with the zero that ends it. */
  lemma KeyMeans(k: Key)
    ensures IsKey(k) <==> exists s: Key :: k == s + [0] && 0 !in s
  {
    if IsKey(k) {
      var s := k[..|k| - 1];
      assert k == s + [0] && 0 !in s;
    }
  }

  lemma KeyTail(k: Key)
    requires IsKey(k) && k[0] != NUL
    ensures |k| > 1 && IsKey(k[1..])
  {
    assert k[1..][|k| - 2] == NUL;
  }

  /** No key is a proper prefix of another. */
  lemma KeyPrefix(p: Key, k: Key)
    requires IsKey(p) && IsKey(k) && p <= k
    ensures p == k
  {
    assert k[|p| - 1] == NUL;
  }
}

/** The shape of a ternary search tree as a value. `N` is the type of cell identities, so a
    shape also says which heap cell holds which node. */
module TernaryShape {
  import opened CStrings
  import opened Options

  datatype Tree<N, V(==)> =
    | Nil
    | Node(cell: N, c: CChar, values: set<V>, lo: Tree<N, V>, eq: Tree<N, V>, hi: Tree<N, V>)

  /** What a tree records for one prefix: the cell that stands for it and the value set there. */
  datatype Entry<N, V(==)> = Entry(cell: N, values: set<V>)

  // ---------------------------------------------------------------- meaning of a shape

  /** The entry for the non-empty prefix `p`, by the descent that every operation makes. */
  function At<N, V>(t: Tree<N, V>, p: Key): Option<Entry<N, V>>
    requires |p| > 0
    decreases t
  {
    match t
    case Nil => None
    case Node(cell, c, values, lo, eq, hi) =>
      if p[0] < c then At(lo, p)
      else if p[0] > c then At(hi, p)
      else if |p| == 1 then Some(Entry(cell, values))
      else At(eq, p[1..])
  }

  ghost function Cells<N, V>(t: Tree<N, V>): set<N> {
    match t
    case Nil => {}
    case Node(cell, _, _, lo, eq, hi) => {cell} + Cells(lo) + Cells(eq) + Cells(hi)
  }

  /** No cell occurs twice: the tree is acyclic and nothing in it is shared. */
  ghost predicate Distinct<N, V>(t: Tree<N, V>) {
    match t
    case Nil => true
    case Node(cell, _, _, lo, eq, hi) =>
      && cell !in Cells(lo) + Cells(eq) + Cells(hi)
      && Cells(lo) !! Cells(eq) !! Cells(hi)
      && Distinct(lo) && Distinct(eq) && Distinct(hi)
  }

  /** The characters of the level that `t` is the root of. */
  function Chars<N, V>(t: Tree<N, V>): set<CChar> {
    match t
    case Nil => {}
    case Node(_, c, _, lo, _, hi) => {c} + Chars(lo) + Chars(hi)
  }

  /** Each level is ordered, exactly the NUL nodes hold values, and exactly the others go on. */
  ghost predicate WellFormed<N, V>(t: Tree<N, V>) {
    match t
    case Nil => true
    case Node(_, c, values, lo, eq, hi) =>
      && (forall x | x in Chars(lo) :: x < c)
      && (forall x | x in Chars(hi) :: c < x)
      && (c == NUL <==> eq == Nil)
      && (c == NUL <==> values != {})
      && WellFormed(lo) && WellFormed(eq) && WellFormed(hi)
  }

  lemma {:induction false} OffLevel<N, V>(t: Tree<N, V>, p: Key)
    requires |p| > 0 && p[0] !in Chars(t)
    ensures At(t, p) == None
    decreases t
  {
    if t.Node? {
      OffLevel(t.lo, p);
      OffLevel(t.hi, p);
    }
  }

  /** Every non-empty tree holds a key; the path of `eq` links from any node ends in one. */
  lemma {:induction false} SomeKey<N, V>(t: Tree<N, V>) returns (k: Key)
    requires WellFormed(t) && t != Nil
    ensures IsKey(k) && At(t, k).Some?
    decreases t
  {
    if t.c == NUL {
      k := [NUL];
    } else {
      var rest := SomeKey(t.eq);
      k := [t.c] + rest;
      assert k[1..] == rest;
    }
  }

  /** The prefixes that have a node are exactly the non-empty prefixes of the stored keys. */
  lemma {:induction false} NodesArePrefixes<N, V>(t: Tree<N, V>, p: Key)
    requires WellFormed(t) && |p| > 0
    ensures At(t, p).Some? <==> exists k :: IsKey(k) && p <= k && At(t, k).Some?
    decreases t
  {
    if At(t, p).Some? {
      var k := KeyThrough(t, p);
    }
    if k :| IsKey(k) && p <= k && At(t, k).Some? {
      PrefixHasNode(t, p, k);
    }
  }

  lemma {:induction false} KeyThrough<N, V>(t: Tree<N, V>, p: Key) returns (k: Key)
    requires WellFormed(t) && |p| > 0 && At(t, p).Some?
    ensures IsKey(k) && p <= k && At(t, k).Some?
    decreases t
  {
    if p[0] < t.c {
      k := KeyThrough(t.lo, p);
    } else if p[0] > t.c {
      k := KeyThrough(t.hi, p);
    } else if t.c == NUL {
      k := p;
    } else {
      var rest: Key;
      if |p| == 1 {
        rest := SomeKey(t.eq);
      } else {
        rest := KeyThrough(t.eq, p[1..]);
        assert p == [t.c] + p[1..];
      }
      k := [t.c] + rest;
      assert k[1..] == rest;
    }
  }

  lemma {:induction false} PrefixHasNode<N, V>(t: Tree<N, V>, p: Key, k: Key)
    requires |p| > 0 && p <= k && At(t, k).Some?
    ensures At(t, p).Some?
    decreases t
  {
    if p[0] < t.c {
      PrefixHasNode(t.lo, p, k);
    } else if p[0] > t.c {
      PrefixHasNode(t.hi, p, k);
    } else if |p| > 1 {
      PrefixHasNode(t.eq, p[1..], k[1..]);
    }
  }

  /** Only keys hold values, and every stored key holds some. */
  lemma {:induction false} ValuesAtKeys<N, V>(t: Tree<N, V>, p: Key)
    requires WellFormed(t) && |p| > 0 && At(t, p).Some?
    ensures p[|p| - 1] == NUL <==> At(t, p).value.values != {}
    decreases t
  {
    if p[0] < t.c {
      ValuesAtKeys(t.lo, p);
    } else if p[0] > t.c {
      ValuesAtKeys(t.hi, p);
    } else if |p| > 1 {
      ValuesAtKeys(t.eq, p[1..]);
    }
  }

  /** Every cell of the tree stands for some prefix ... */
  lemma {:induction false} CellHasPrefix<N, V>(t: Tree<N, V>, cell: N) returns (p: Key)
    requires WellFormed(t) && cell in Cells(t)
    ensures |p| > 0 && p[0] in Chars(t) && At(t, p).Some? && At(t, p).value.cell == cell
    decreases t
  {
    if cell == t.cell {
      p := [t.c];
    } else if cell in Cells(t.lo) {
      p := CellHasPrefix(t.lo, cell);
    } else if cell in Cells(t.hi) {
      p := CellHasPrefix(t.hi, cell);
    } else {
      var rest := CellHasPrefix(t.eq, cell);
      p := [t.c] + rest;
      assert p[1..] == rest;
    }
  }

  lemma {:induction false} EntryIsCell<N, V>(t: Tree<N, V>, p: Key)
    requires |p| > 0 && At(t, p).Some?
    ensures At(t, p).value.cell in Cells(t)
    decreases t
  {
    if p[0] < t.c {
      EntryIsCell(t.lo, p);
    } else if p[0] > t.c {
      EntryIsCell(t.hi, p);
    } else if |p| > 1 {
      EntryIsCell(t.eq, p[1..]);
    }
  }

  /** ... and no cell stands for two. */
  lemma {:induction false} OnePrefixPerCell<N, V>(t: Tree<N, V>, p: Key, q: Key)
    requires Distinct(t) && |p| > 0 && |q| > 0
    requires At(t, p).Some? && At(t, q).Some? && At(t, p).value.cell == At(t, q).value.cell
    ensures p == q
    decreases t
  {
    EntryInBranch(t, p);
    EntryInBranch(t, q);
    if p[0] < t.c {
      OnePrefixPerCell(t.lo, p, q);
    } else if p[0] > t.c {
      OnePrefixPerCell(t.hi, p, q);
    } else if |p| > 1 {
      OnePrefixPerCell(t.eq, p[1..], q[1..]);
      assert p == [t.c] + p[1..] && q == [t.c] + q[1..];
    }
  }

  lemma EntryInBranch<N, V>(t: Tree<N, V>, p: Key)
    requires |p| > 0 && At(t, p).Some?
    ensures p[0] < t.c ==> At(t, p).value.cell in Cells(t.lo)
    ensures p[0] > t.c ==> At(t, p).value.cell in Cells(t.hi)
    ensures p[0] == t.c && |p| > 1 ==> At(t, p).value.cell in Cells(t.eq)
    ensures p[0] == t.c && |p| == 1 ==> At(t, p).value.cell == t.cell
  {
    if p[0] < t.c {
      EntryIsCell(t.lo, p);
    } else if p[0] > t.c {
      EntryIsCell(t.hi, p);
    } else if |p| > 1 {
      EntryIsCell(t.eq, p[1..]);
    }
  }

  // ---------------------------------------------------------------- insert

  /** A branchless run of nodes for the characters of `k`, ending in the value. */
  function Chain<N, V>(k: Key, v: V, cells: seq<N>): Tree<N, V>
    requires |k| == |cells| > 0
  {
    if |k| == 1 then Node(cells[0], k[0], {v}, Nil, Nil, Nil)
    else Node(cells[0], k[0], {}, Nil, Chain(k[1..], v, cells[1..]), Nil)
  }

  /** How many characters at the end of `k` have no node yet. */
  function Missing<N, V>(t: Tree<N, V>, k: Key): (n: nat)
    requires |k| > 0
    ensures n <= |k|
    decreases t
  {
    match t
    case Nil => |k|
    case Node(_, c, _, lo, eq, hi) =>
      if k[0] < c then Missing(lo, k)
      else if k[0] > c then Missing(hi, k)
      else if |k| == 1 then 0
      else Missing(eq, k[1..])
  }

  function Inserted<N, V>(t: Tree<N, V>, k: Key, v: V, cells: seq<N>): Tree<N, V>
    requires |k| > 0 && |cells| == Missing(t, k)
    decreases t
  {
    match t
    case Nil => Chain(k, v, cells)
    case Node(_, c, values, lo, eq, hi) =>
      if k[0] < c then t.(lo := Inserted(lo, k, v, cells))
      else if k[0] > c then t.(hi := Inserted(hi, k, v, cells))
      else if |k| == 1 then t.(values := values + {v})
      else t.(eq := Inserted(eq, k[1..], v, cells))
  }

  /** The cell that the new nodes give to the prefix of `k` that has length `n`. */
  function NewCell<N>(k: Key, cells: seq<N>, n: nat): N
    requires |cells| <= |k| && |k| - |cells| < n <= |k|
  {
    cells[n - 1 - (|k| - |cells|)]
  }

  /** `insert` adds the value at `k`, gives a node to exactly the prefixes of `k` that had none,
      and touches nothing else. */
  lemma {:induction false} InsertEffect<N, V>(t: Tree<N, V>, k: Key, v: V, cells: seq<N>, p: Key)
    requires IsKey(k) && |cells| == Missing(t, k) && |p| > 0
    ensures At(t, p).Some? && p != k ==> At(Inserted(t, k, v, cells), p) == At(t, p)
    ensures At(t, p).Some? && p == k ==>
              At(Inserted(t, k, v, cells), p) == Some(At(t, p).value.(values := At(t, p).value.values + {v}))
    ensures At(t, p) == None && p <= k ==>
              && |p| > |k| - |cells|
              && At(Inserted(t, k, v, cells), p)
                 == Some(Entry(NewCell(k, cells, |p|), if p == k then {v} else {}))
    ensures At(t, p) == None && !(p <= k) ==> At(Inserted(t, k, v, cells), p) == None
    decreases t
  {
    if t == Nil {
      ChainEffect(k, v, cells, p);
    } else if k[0] < t.c {
      InsertEffect(t.lo, k, v, cells, p);
    } else if k[0] > t.c {
      InsertEffect(t.hi, k, v, cells, p);
    } else if |k| > 1 {
      KeyTail(k);
      if p[0] == t.c && |p| > 1 {
        InsertEffect(t.eq, k[1..], v, cells, p[1..]);
        assert p == [t.c] + p[1..] && k == [t.c] + k[1..];
      }
    }
  }

  lemma {:induction false} ChainEffect<N, V>(k: Key, v: V, cells: seq<N>, p: Key)
    requires IsKey(k) && |cells| == |k| && |p| > 0
    ensures p <= k ==> At(Chain(k, v, cells), p) == Some(Entry(cells[|p| - 1], if p == k then {v} else {}))
    ensures !(p <= k) ==> At(Chain(k, v, cells), p) == None
    decreases |k|
  {
    if |k| > 1 {
      KeyTail(k);
      if p[0] == k[0] && |p| > 1 {
        ChainEffect(k[1..], v, cells[1..], p[1..]);
        assert p == [k[0]] + p[1..] && k == [k[0]] + k[1..];
      }
    }
  }

  lemma {:induction false} InsertKeeps<N, V>(t: Tree<N, V>, k: Key, v: V, cells: seq<N>)
    requires WellFormed(t) && IsKey(k) && |cells| == Missing(t, k)
    ensures WellFormed(Inserted(t, k, v, cells))
    ensures Chars(Inserted(t, k, v, cells)) == Chars(t) + {k[0]}
    decreases t
  {
    if t == Nil {
      ChainKeeps(k, v, cells);
    } else if k[0] < t.c {
      InsertKeeps(t.lo, k, v, cells);
    } else if k[0] > t.c {
      InsertKeeps(t.hi, k, v, cells);
    } else if |k| > 1 {
      KeyTail(k);
      InsertKeeps(t.eq, k[1..], v, cells);
    }
  }

  lemma {:induction false} ChainKeeps<N, V>(k: Key, v: V, cells: seq<N>)
    requires IsKey(k) && |cells| == |k|
    ensures WellFormed(Chain(k, v, cells)) && Chars(Chain(k, v, cells)) == {k[0]}
    decreases |k|
  {
    if |k| > 1 {
      KeyTail(k);
      ChainKeeps(k[1..], v, cells[1..]);
    }
  }

  // ---------------------------------------------------------------- erase

  /** Hang `lo` under the leftmost node of `hi`. */
  function Graft<N, V>(hi: Tree<N, V>, lo: Tree<N, V>): Tree<N, V>
    requires hi != Nil
  {
    if hi.lo == Nil then hi.(lo := lo) else hi.(lo := Graft(hi.lo, lo))
  }

  /** What takes the place of a node that goes away. */
  function Join<N, V>(lo: Tree<N, V>, hi: Tree<N, V>): Tree<N, V> {
    if lo == Nil then hi else if hi == Nil then lo else Graft(hi, lo)
  }

  /** Reference definition of both forms of `erase`: give `k` the value set `vs`; when that is
      empty its node goes, and so does, from the bottom up, every node left without an `eq`. */
  function Assigned<N, V>(t: Tree<N, V>, k: Key, vs: set<V>): Tree<N, V>
    requires |k| > 0
    decreases t
  {
    match t
    case Nil => Nil
    case Node(_, c, _, lo, eq, hi) =>
      if k[0] < c then t.(lo := Assigned(lo, k, vs))
      else if k[0] > c then t.(hi := Assigned(hi, k, vs))
      else if |k| == 1 then
        if vs == {} then Join(lo, hi) else t.(values := vs)
      else
        var e := Assigned(eq, k[1..], vs);
        if e == Nil then Join(lo, hi) else t.(eq := e)
  }

  ghost predicate Apart<N, V>(lo: Tree<N, V>, hi: Tree<N, V>) {
    forall x, y | x in Chars(lo) && y in Chars(hi) :: x < y
  }

  lemma {:induction false} GraftKeeps<N, V>(hi: Tree<N, V>, lo: Tree<N, V>)
    requires WellFormed(lo) && WellFormed(hi) && hi != Nil && Apart(lo, hi)
    ensures WellFormed(Graft(hi, lo))
    ensures Chars(Graft(hi, lo)) == Chars(lo) + Chars(hi)
    decreases hi
  {
    assert hi.c in Chars(hi) && Chars(hi.lo) <= Chars(hi);
    if hi.lo != Nil {
      GraftKeeps(hi.lo, lo);
    }
  }

  lemma {:induction false} GraftEffect<N, V>(hi: Tree<N, V>, lo: Tree<N, V>, p: Key)
    requires WellFormed(hi) && hi != Nil && Apart(lo, hi) && |p| > 0
    ensures At(Graft(hi, lo), p) == if p[0] in Chars(lo) then At(lo, p) else At(hi, p)
    decreases hi
  {
    assert hi.c in Chars(hi) && Chars(hi.lo) <= Chars(hi);
    if hi.lo != Nil {
      GraftEffect(hi.lo, lo, p);
    } else if p[0] !in Chars(lo) {
      OffLevel(lo, p);
    }
  }

  lemma JoinKeeps<N, V>(lo: Tree<N, V>, hi: Tree<N, V>)
    requires WellFormed(lo) && WellFormed(hi) && Apart(lo, hi)
    ensures WellFormed(Join(lo, hi))
    ensures Chars(Join(lo, hi)) == Chars(lo) + Chars(hi)
  {
    if lo != Nil && hi != Nil {
      GraftKeeps(hi, lo);
    }
  }

  lemma JoinEffect<N, V>(lo: Tree<N, V>, hi: Tree<N, V>, p: Key)
    requires WellFormed(hi) && Apart(lo, hi) && |p| > 0
    ensures At(Join(lo, hi), p) == if p[0] in Chars(lo) then At(lo, p) else At(hi, p)
  {
    if p[0] !in Chars(lo) {
      OffLevel(lo, p);
    } else if p[0] !in Chars(hi) {
      OffLevel(hi, p);
    }
    if lo != Nil && hi != Nil {
      GraftEffect(hi, lo, p);
    }
  }

  lemma {:induction false} AssignKeeps<N, V>(t: Tree<N, V>, k: Key, vs: set<V>)
    requires WellFormed(t) && IsKey(k)
    ensures WellFormed(Assigned(t, k, vs))
    ensures Chars(Assigned(t, k, vs)) <= Chars(t)
    decreases t
  {
    if t != Nil {
      JoinKeeps(t.lo, t.hi);
      if k[0] < t.c {
        AssignKeeps(t.lo, k, vs);
      } else if k[0] > t.c {
        AssignKeeps(t.hi, k, vs);
      } else if |k| > 1 {
        KeyTail(k);
        AssignKeeps(t.eq, k[1..], vs);
      }
    }
  }

  /** Erasing one key changes no other key, whichever way the tree was relinked, and every node
      that stays keeps its cell. */
  lemma {:induction false} AssignEffect<N, V>(t: Tree<N, V>, k: Key, vs: set<V>, p: Key)
    requires WellFormed(t) && IsKey(k) && |p| > 0
    ensures p != k && IsKey(p) ==> At(Assigned(t, k, vs), p) == At(t, p)
    ensures p != k && At(Assigned(t, k, vs), p).Some? ==> At(Assigned(t, k, vs), p) == At(t, p)
    ensures At(Assigned(t, k, vs), k)
         == if vs == {} || At(t, k) == None then None else Some(At(t, k).value.(values := vs))
    decreases t
  {
    if t == Nil {
    } else if k[0] < t.c {
      AssignEffect(t.lo, k, vs, p);
    } else if k[0] > t.c {
      AssignEffect(t.hi, k, vs, p);
    } else {
      JoinEffect(t.lo, t.hi, p);
      JoinEffect(t.lo, t.hi, k);
      OffLevel(t.hi, k);
      if p[0] in Chars(t.lo) {
        assert p[0] < t.c;
      } else if p[0] <= t.c {
        OffLevel(t.lo, p);
        OffLevel(t.hi, p);
      }
      if |k| > 1 {
        KeyTail(k);
        if p[0] == t.c && |p| > 1 {
          AssignEffect(t.eq, k[1..], vs, p[1..]);
          assert p == [t.c] + p[1..] && k == [t.c] + k[1..];
          if IsKey(p) { KeyTail(p); }
        } else {
          AssignEffect(t.eq, k[1..], vs, k[1..]);
        }
      }
    }
  }
}
