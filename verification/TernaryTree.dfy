/** The index itself: linked nodes in the heap, changed in place. */
module TernaryTrees {
  import opened CStrings
  import opened Options
  import opened TernaryShape
  import opened TernaryZipper

  class TreeNode<V(==)> {
    var c: CChar
    var lo: TreeNode?<V>
    var eq: TreeNode?<V>
    var hi: TreeNode?<V>
    var values: set<V>

    constructor ()
      ensures c == 32 && lo == null && eq == null && hi == null && values == {}
    {
      c, lo, eq, hi, values := 32, null, null, null, {};
    }
  }

  type Shape<V(==)> = Tree<TreeNode<V>, V>
  type Hole<V(==)> = Ctx<TreeNode<V>, V>

  /** The heap below `p` is laid out as `t` says. */
  ghost predicate Rep<V>(p: TreeNode?<V>, t: Shape<V>)
    reads Cells(t)
  {
    match t
    case Nil => p == null
    case Node(n, c, values, lo, eq, hi) =>
      p == n && n.c == c && n.values == values && Rep(n.lo, lo) && Rep(n.eq, eq) && Rep(n.hi, hi)
  }

  /** The heap around the link that `x` is the surroundings of is laid out as `x` says, and that
      link holds `p`. */
  ghost predicate CtxRep<V>(x: Hole<V>, root: TreeNode?<V>, p: TreeNode?<V>)
    reads CtxCells(x)
    decreases x
  {
    match x
    case Top => root == p
    case InLo(n, c, values, eq, hi, up) =>
      n.c == c && n.values == values && n.lo == p && Rep(n.eq, eq) && Rep(n.hi, hi) && CtxRep(up, root, n)
    case InEq(n, c, values, lo, hi, up) =>
      n.c == c && n.values == values && Rep(n.lo, lo) && n.eq == p && Rep(n.hi, hi) && CtxRep(up, root, n)
    case InHi(n, c, values, lo, eq, up) =>
      n.c == c && n.values == values && Rep(n.lo, lo) && Rep(n.eq, eq) && n.hi == p && CtxRep(up, root, n)
  }

  lemma {:induction false} PlugRep<V>(x: Hole<V>, root: TreeNode?<V>, p: TreeNode?<V>, t: Shape<V>)
    requires CtxRep(x, root, p) && Rep(p, t)
    ensures Rep(root, Plug(x, t))
    decreases x
  {
    match x
    case Top =>
    case InLo(n, c, values, eq, hi, up) => PlugRep(up, root, n, Node(n, c, values, t, eq, hi));
    case InEq(n, c, values, lo, hi, up) => PlugRep(up, root, n, Node(n, c, values, lo, t, hi));
    case InHi(n, c, values, lo, eq, up) => PlugRep(up, root, n, Node(n, c, values, lo, eq, t));
  }

  /** The `eq` links from `p` on are those of `t`. */
  ghost predicate EqChain<V>(p: TreeNode?<V>, t: Shape<V>)
    reads Cells(t)`eq
  {
    match t
    case Nil => p == null
    case Node(n, _, _, _, eq, _) => p == n && EqChain(n.eq, eq)
  }

  lemma {:induction false} RepChain<V>(p: TreeNode?<V>, t: Shape<V>)
    requires Rep(p, t)
    ensures EqChain(p, t)
    decreases t
  {
    if t != Nil {
      RepChain(p.eq, t.eq);
    }
  }

  /** A pointer to a link: the tree's root or one of a node's three. */
  datatype Link<V(==)> = Root | Lo(n: TreeNode<V>) | Eq(n: TreeNode<V>) | Hi(n: TreeNode<V>) {
    ghost function Owner(): set<TreeNode<V>> {
      if Root? then {} else {n}
    }
  }

  function LinkOf<V>(x: Hole<V>): Link<V> {
    match x
    case Top => Root
    case InLo(n, _, _, _, _, _) => Lo(n)
    case InEq(n, _, _, _, _, _) => Eq(n)
    case InHi(n, _, _, _, _, _) => Hi(n)
  }

  /** The node that a hole belongs to; `null` at the root. */
  function OwnerOf<V>(x: Hole<V>): TreeNode?<V> {
    if x == Top then null else x.cell
  }

  /** A plain map from keys to the non-empty value sets stored there. */
  type Index<V(==)> = map<Key, set<V>>

  function Lookup<V>(m: Index<V>, k: Key): set<V> {
    if k in m then m[k] else {}
  }

  /** `k` with no values is not in the map at all. */
  function Put<V>(m: Index<V>, k: Key, vs: set<V>): Index<V> {
    if vs == {} then m - {k} else m[k := vs]
  }

  /** What an `erase` of `key` leaves there. */
  function Left<V>(m: Index<V>, key: Key, valuep: Option<V>): set<V> {
    if valuep == None then {} else Lookup(m, key) - {valuep.value}
  }

  ghost predicate Holds<V>(t: Shape<V>, m: Index<V>) {
    && (forall k | k in m :: IsKey(k) && m[k] != {})
    && (forall k | IsKey(k) :: At(t, k).Some? <==> k in m)
    && (forall k | k in m :: At(t, k).value.values == m[k])
  }

  class TernaryTree<V(==)> {
    var root: TreeNode?<V>

    ghost var shape: Shape<V>
    ghost var heap: set<TreeNode<V>>  // the nodes allocated and not yet deleted
    ghost var index: Index<V>

    ghost predicate Valid()
      reads this, heap
    {
      Linked() && WellFormed(shape) && Holds(shape, index)
    }

    /** The allocated nodes are linked up as `shape` says. */
    ghost predicate Linked()
      reads this, heap
    {
      heap == Cells(shape) && Distinct(shape) && Rep(root, shape)
    }

    constructor ()
      ensures Valid() && index == map[] && heap == {}
    {
      root := null;
      shape, heap, index := Nil, {}, map[];
    }

    method Find(s: Key) returns (r: Option<set<V>>)
      requires Valid() && IsKey(s)
      ensures r == if s in index then Some(index[s]) else None
    {
      var p, i := root, 0;
      ghost var t := shape;
      assert s[0..] == s;
      while p != null
        invariant 0 <= i < |s|
        invariant Rep(p, t) && At(shape, s) == At(t, s[i..])
        decreases t
      {
        var pc := p.c;
        if s[i] < pc {
          p, t := p.lo, t.lo;
        } else if s[i] == pc {
          i := i + 1;
          if s[i - 1] == NUL {
            return Some(p.values);
          }
          assert s[i - 1..][1..] == s[i..];
          p, t := p.eq, t.eq;
        } else {
          p, t := p.hi, t.hi;
        }
      }
      return None;
    }

    /** `l` is the empty link that all the nodes in the heap are around. */
    ghost predicate OpenAt(l: Link<V>, x: Hole<V>)
      reads this, heap
    {
      heap == CtxCells(x) && LinkOf(x) == l && CtxDistinct(x) && CtxRep(x, root, null)
    }

    method SetLink(l: Link<V>, q: TreeNode?<V>, ghost x: Hole<V>, ghost p: TreeNode?<V>)
      requires LinkOf(x) == l && CtxDistinct(x) && CtxRep(x, root, p)
      modifies this`root, l.Owner()
      ensures CtxRep(x, root, q)
      ensures l != Root ==> root == old(root)
    {
      match l {
        case Root => root := q;
        case Lo(n) => n.lo := q;
        case Eq(n) => n.eq := q;
        case Hi(n) => n.hi := q;
      }
    }

    /** Walk to the link where `s` is, or would be. */
    method Descend(s: Key) returns (l: Link<V>, p: TreeNode?<V>, i: nat, ghost x: Hole<V>, ghost t: Shape<V>)
      requires Valid() && IsKey(s)
      ensures i < |s| && Descends(x, s, i) && Plug(x, t) == shape
      ensures LinkOf(x) == l && CtxRep(x, root, p) && Rep(p, t)
      ensures p == null || (p.c == s[i] == NUL)
    {
      l, p, i := Root, root, 0;
      x, t := Top, shape;
      while p != null
        invariant i < |s| && Descends(x, s, i) && Plug(x, t) == shape
        invariant LinkOf(x) == l && CtxRep(x, root, p) && Rep(p, t)
        decreases t
      {
        var d := s[i] - p.c;
        if d == 0 {
          if s[i] == NUL {
            return;
          }
          l, p, i := Eq(p), p.eq, i + 1;
          x, t := InEq(t.cell, t.c, t.values, t.lo, t.hi, x), t.eq;
        } else if d < 0 {
          l, p := Lo(p), p.lo;
          x, t := InLo(t.cell, t.c, t.values, t.eq, t.hi, x), t.lo;
        } else {
          l, p := Hi(p), p.hi;
          x, t := InHi(t.cell, t.c, t.values, t.lo, t.eq, x), t.hi;
        }
      }
    }

    /** Hang one new node, with no value and no links, at the empty link `l`. */
    method AddNode(l: Link<V>, c: CChar, ghost x: Hole<V>) returns (p: TreeNode<V>)
      requires OpenAt(l, x)
      modifies this`root, this`heap, l.Owner()
      ensures fresh(p) && heap == old(heap) + {p}
      ensures OpenAt(Eq(p), InEq(p, c, {}, Nil, Nil, x))
    {
      hide CtxDistinct, CtxCells;
      p := new TreeNode();
      p.c := c;
      heap := heap + {p};
      assert CtxRep(x, root, null);
      NewStep(p, c, x);
      SetLink(l, p, x, null);
      assert CtxRep(x, root, p);
    }

    /** Put the first value into the node that the new nodes end with. */
    method AddValue(p: TreeNode<V>, value: V, ghost x: Hole<V>)
      requires OpenAt(Eq(p), InEq(p, NUL, {}, Nil, Nil, x))
      modifies p`values
      ensures var t := Plug(x, Chain([NUL], value, [p]));
              Rep(root, t) && Distinct(t) && Cells(t) == heap
    {
      p.values := p.values + {value};
      ghost var t := Chain([NUL], value, [p]);
      assert Rep(p, t);
      PlugRep(x, root, p, t);
      PlugCells(x, t);
    }

    /** Hang new nodes for the characters of `s` from `i` on below the empty link `l`; `p` is the
        last of them and `cells` the others. */
    method AddChain(s: Key, i: nat, l: Link<V>, ghost x: Hole<V>)
      returns (p: TreeNode<V>, ghost cells: seq<TreeNode<V>>)
      requires IsKey(s) && i < |s|
      requires OpenAt(l, x)
      modifies this`root, this`heap, l.Owner()
      ensures |cells| == |s| - 1 - i && fresh(p) && fresh(heap - old(heap)) && heap >= old(heap)
      ensures OpenAt(Eq(p), InEq(p, NUL, {}, Nil, Nil, Extend(x, s[i..|s| - 1], cells)))
    {
      hide OpenAt, CtxRep, CtxDistinct, CtxCells, Plug;
      var j, link := i, l;
      ghost var y := x;
      cells := [];
      while true
        invariant i <= j < |s| && |cells| == j - i
        invariant y == Extend(x, s[i..j], cells)
        invariant OpenAt(link, y)
        invariant link == l || fresh(link.Owner())
        invariant fresh(heap - old(heap)) && heap >= old(heap)
        decreases |s| - j
      {
        p := AddNode(link, s[j], y);
        link := Eq(p);
        if s[j] == NUL {
          break;
        }
        ExtendOne(x, s, i, j, cells, p, y);
        y := InEq(p, s[j], {}, Nil, Nil, y);
        cells := cells + [p];
        j := j + 1;
      }
    }

    /** Give the node found at `x` another value set. */
    method SetValues(p: TreeNode<V>, vs: set<V>, ghost x: Hole<V>, ghost t: Shape<V>)
      requires Linked() && Plug(x, t) == shape && CtxRep(x, root, p) && Rep(p, t)
      modifies p`values, this`shape
      ensures shape == Plug(x, t.(values := vs)) && Linked()
    {
      hide Plug, CtxCells, CtxDistinct;
      PlugCells(x, t);
      p.values := vs;
      ghost var t' := t.(values := vs);
      assert Rep(p, t');
      PlugRep(x, root, p, t');
      PlugCells(x, t');
      shape := Plug(x, t');
    }

    method AddBelow(s: Key, i: nat, l: Link<V>, value: V, ghost x: Hole<V>) returns (ghost cells: seq<TreeNode<V>>)
      requires IsKey(s) && i < |s|
      requires OpenAt(l, x)
      modifies this`root, this`heap, this`shape, l.Owner()
      ensures |cells| == |s| - i && shape == Plug(x, Chain(s[i..], value, cells)) && Linked()
      ensures fresh(heap - old(heap)) && heap >= old(heap)
    {
      var p, most := AddChain(s, i, l, x);
      AddValue(p, value, Extend(x, s[i..|s| - 1], most));
      ExtendEnd(x, s, i, most, value, p);
      cells := most + [p];
      shape := Plug(x, Chain(s[i..], value, cells));
    }

    method Insert(s: Key, value: V)
      requires Valid() && IsKey(s)
      modifies this, heap
      ensures Valid() && index == Put(old(index), s, Lookup(old(index), s) + {value})
      ensures fresh(heap - old(heap)) && heap >= old(heap)
      ensures Keeps(old(shape), shape)
    {
      ghost var was := shape;
      ghost var cells := InsertNodes(s, value);
      InsertHolds(was, index, s, value, cells);
      index := Put(index, s, Lookup(index, s) + {value});
    }

    method InsertNodes(s: Key, value: V) returns (ghost cells: seq<TreeNode<V>>)
      requires Valid() && IsKey(s)
      modifies this`root, this`heap, this`shape, heap
      ensures Linked() && fresh(heap - old(heap)) && heap >= old(heap)
      ensures |cells| == Missing(old(shape), s) && shape == Inserted(old(shape), s, value, cells)
    {
      hide Plug, CtxDistinct, Distinct, Inserted, Missing, Holds, Chain, Descends, WellFormed;
      var l, p, i, x, t := Descend(s);
      PlugCells(x, t);
      if p != null {
        InsertHere(x, t, s, i, value);
        SetValues(p, p.values + {value}, x, t);
        cells := [];
      } else {
        cells := AddBelow(s, i, l, value, x);
        InsertBelow(x, s, i, value, cells);
      }
    }

    /** Walk to the node of `key`, keeping track of the last node on the way that branches or is
        a branch (`lb`, below `lbp`). */
    method FindBranch(key: Key)
      returns (p: TreeNode?<V>, lb: TreeNode?<V>, lbp: TreeNode?<V>,
               ghost x: Hole<V>, ghost t: Shape<V>, ghost xb: Hole<V>, ghost tb: Shape<V>, i: nat)
      requires Valid() && IsKey(key)
      ensures i < |key| && Descends(x, key, i) && Plug(x, t) == shape && CtxRep(x, root, p) && Rep(p, t)
      ensures p != null ==>
                && t.c == key[i] == NUL && t.eq == Nil
                && IsBranch(lb, lbp, xb, tb)
                && (if t.lo == Nil && t.hi == Nil then LastBranch(x, t, xb, tb) else xb == x && tb == t)
    {
      hide LastBranch, Plug, CtxCells, Cells, Distinct, Holds;
      var pp: TreeNode?<V> := null;
      p, lb, lbp := root, null, null;
      x, t, xb, tb := Top, shape, Top, Nil;
      LastBranchStart(t);
      i := 0;
      while p != null
        invariant i < |key| && Descends(x, key, i)
        invariant Plug(x, t) == shape && CtxRep(x, root, p) && Rep(p, t) && WellFormed(t)
        invariant pp == OwnerOf(x)
        invariant p != null ==> IsBranch(lb, lbp, xb, tb) && LastBranch(x, t, xb, tb)
        decreases t
      {
        var compare := key[i] - p.c;
        if compare == 0 {
          LastBranchEq(x, t, xb, tb);
          if p.lo != null || p.hi != null {
            lb, lbp := p, pp;
            xb, tb := x, t;
          }
          if key[i] == NUL {
            break;
          }
          pp, p, i := p, p.eq, i + 1;
          x, t := InEq(t.cell, t.c, t.values, t.lo, t.hi, x), t.eq;
        } else {
          LastBranchSide(x, t);
          pp, lbp := p, p;
          if compare < 0 {
            p, lb := p.lo, p.lo;
            x, t := InLo(t.cell, t.c, t.values, t.eq, t.hi, x), t.lo;
          } else {
            p, lb := p.hi, p.hi;
            x, t := InHi(t.cell, t.c, t.values, t.lo, t.eq, x), t.hi;
          }
          xb, tb := x, t;
        }
      }
    }

    /** `lb` is the node recorded as `tb` in the surroundings `xb`. */
    ghost predicate IsBranch(lb: TreeNode?<V>, lbp: TreeNode?<V>, xb: Hole<V>, tb: Shape<V>)
      reads this, CtxCells(xb), Cells(tb)
    {
      if tb == Nil then lb == null
      else CtxRep(xb, root, lb) && Rep(lb, tb) && lbp == OwnerOf(xb)
    }

    /** What cutting at the recorded branch relies on; the values below it no longer matter. */
    ghost predicate Cuttable(lb: TreeNode<V>, lbp: TreeNode?<V>, xb: Hole<V>, tb: Shape<V>)
      reads this, CtxCells(xb), lb, Cells(tb)
    {
      tb != Nil && tb.cell == lb && lbp == OwnerOf(xb) && CtxRep(xb, root, lb) && Beside(lb, tb)
    }

    ghost predicate Beside(lb: TreeNode<V>, tb: Shape<V>)
      requires tb != Nil
      reads lb, Cells(tb)
    {
      Rep(lb.lo, tb.lo) && Rep(lb.hi, tb.hi) && EqChain(lb.eq, tb.eq)
    }

    /** Take the recorded branch out of its parent's link, putting `lbr` there; `lbdc` is what
        `lbr` does not bring along. */
    method Relink(lb: TreeNode<V>, lbp: TreeNode?<V>, ghost xb: Hole<V>, ghost tb: Shape<V>)
      returns (lbr: TreeNode?<V>, lbdc: TreeNode?<V>)
      requires Cuttable(lb, lbp, xb, tb)
      requires CtxDistinct(xb) && CtxCells(xb) !! Cells(tb)
      requires tb.lo == Nil && tb.hi == Nil ==> IsSide(xb)
      modifies this`root, if lbp == null then {} else {lbp}
      ensures CtxRep(xb, root, lbr)
      ensures lbr == (if lb.hi == null then lb.lo else lb.hi) && lbdc == (if lb.hi == null then null else lb.lo)
      ensures Beside(lb, tb)
    {
      EmptyRep(lb.lo, tb.lo);
      EmptyRep(lb.hi, tb.hi);
      assert lb in Cells(tb) && allocated(Cells(tb));
      hide Rep, EqChain, CtxRep, CtxDistinct, Plug;
      lbr, lbdc := null, null;
      if lb.lo == null && lb.hi == null {
        Unlink(lb, lbp, xb);
      } else {
        if lb.lo != null && lb.hi != null {
          lbr := lb.hi;
          lbdc := lb.lo;
        } else if lb.hi != null {
          lbr := lb.hi;
        } else {
          lbr := lb.lo;
        }
        Replace(lb, lbp, lbr, xb);
      }
    }

    /** Put the null pointer into the side link that holds `lb`. */
    method Unlink(lb: TreeNode<V>, lbp: TreeNode?<V>, ghost xb: Hole<V>)
      requires CtxRep(xb, root, lb) && CtxDistinct(xb) && lb !in CtxCells(xb) && lbp == OwnerOf(xb) && IsSide(xb)
      modifies this`root, lbp
      ensures CtxRep(xb, root, null)
    {
      SideLink(xb, root, lb);
      hide CtxRep, CtxDistinct;
      if lbp.lo == lb {
        SetLink(Lo(lbp), null, xb, lb);
      } else {
        SetLink(Hi(lbp), null, xb, lb);
      }
    }

    /** Put `q` into the link that holds `lb`. */
    method Replace(lb: TreeNode<V>, lbp: TreeNode?<V>, q: TreeNode?<V>, ghost xb: Hole<V>)
      requires CtxRep(xb, root, lb) && CtxDistinct(xb) && lb !in CtxCells(xb) && lbp == OwnerOf(xb)
      modifies this`root, if lbp == null then {} else {lbp}
      ensures CtxRep(xb, root, q)
    {
      WhichLink(xb, root, lb);
      hide CtxRep, CtxDistinct;
      if lbp == null {
        SetLink(Root, q, xb, lb);
      } else if lbp.lo == lb {
        SetLink(Lo(lbp), q, xb, lb);
      } else if lbp.hi == lb {
        SetLink(Hi(lbp), q, xb, lb);
      } else {
        SetLink(Eq(lbp), q, xb, lb);
      }
    }

    /** Hang `lbdc` under the leftmost node of `lbr`. */
    method HangLeft(lbr: TreeNode<V>, lbdc: TreeNode<V>, ghost xb: Hole<V>, ghost hi: Shape<V>, ghost lo: Shape<V>)
      requires hi != Nil && CtxRep(xb, root, lbr) && Rep(lbr, hi) && Rep(lbdc, lo)
      requires Distinct(Plug(xb, hi)) && Cells(Plug(xb, hi)) !! Cells(lo)
      modifies Cells(hi)`lo
      ensures Rep(root, Plug(xb, Graft(hi, lo)))
    {
      var p := lbr;
      ghost var x, t := xb, hi;
      while p.lo != null
        invariant t != Nil && CtxRep(x, root, p) && Rep(p, t) && p in Cells(hi)
        invariant Cells(t) <= Cells(hi)
        invariant Plug(x, t) == Plug(xb, hi) && Plug(x, Graft(t, lo)) == Plug(xb, Graft(hi, lo))
        decreases t
      {
        x, t := InLo(t.cell, t.c, t.values, t.eq, t.hi, x), t.lo;
        p := p.lo;
      }
      HangHere(p, lbdc, x, t, lo);
    }

    method HangHere(p: TreeNode<V>, lbdc: TreeNode<V>, ghost x: Hole<V>, ghost t: Shape<V>, ghost lo: Shape<V>)
      requires t != Nil && t.lo == Nil && CtxRep(x, root, p) && Rep(p, t) && Rep(lbdc, lo)
      requires Distinct(Plug(x, t)) && Cells(Plug(x, t)) !! Cells(lo)
      modifies p`lo
      ensures Rep(root, Plug(x, Graft(t, lo)))
    {
      PlugCells(x, t);
      p.lo := lbdc;
      assert Rep(p, Graft(t, lo));
      PlugRep(x, root, p, Graft(t, lo));
    }

    /** Delete the detached nodes. */
    method DeleteChain(d: TreeNode<V>, ghost t: Shape<V>)
      requires OnlyEq(t) && EqChain(d.eq, t) && d !in Cells(t) && Distinct(t)
      requires {d} + Cells(t) <= heap
      modifies this`heap
      ensures heap == old(heap) - ({d} + Cells(t))
    {
      var dt: TreeNode?<V> := d;
      ghost var e := t;
      while true
        invariant dt != null && OnlyEq(e) && EqChain(dt.eq, e) && dt !in Cells(e) && Distinct(e)
        invariant {dt} + Cells(e) <= heap
        invariant heap - ({dt} + Cells(e)) == old(heap) - ({d} + Cells(t))
        decreases e
      {
        var p := dt;
        dt := p.eq;
        assert p in heap;  // never a node that was deleted before
        heap := heap - {p};
        if dt == null {
          break;
        }
        e := e.eq;
      }
    }

    /** Relink the tree around the recorded branch. */
    method Detach(lb: TreeNode<V>, lbp: TreeNode?<V>, ghost xb: Hole<V>, ghost tb: Shape<V>)
      requires Cuttable(lb, lbp, xb, tb) && Distinct(Plug(xb, tb))
      requires tb.lo == Nil && tb.hi == Nil ==> IsSide(xb)
      modifies this`root, CtxCells(xb), Cells(tb.hi)`lo
      ensures Rep(root, Plug(xb, Join(tb.lo, tb.hi)))
      ensures EqChain(lb.eq, tb.eq)
    {
      CutCells(xb, tb);
      EmptyRep(lb.lo, tb.lo);
      EmptyRep(lb.hi, tb.hi);
      assert lb in Cells(tb);
      hide Plug, Distinct, CtxCells, CtxDistinct, CtxRep, Rep, EqChain, Cells, Join, Graft;
      assert allocated(Cells(tb.hi)) && allocated(Cells(tb.lo)) && allocated(Cells(tb.eq));
      var lbr, lbdc := Relink(lb, lbp, xb, tb);
      assert Rep(lb.hi, tb.hi) && Rep(lb.lo, tb.lo) && EqChain(lb.eq, tb.eq);
      if lbdc != null {
        HangLeft(lbr, lbdc, xb, tb.hi, tb.lo);
      } else {
        PlugRep(xb, root, lbr, Join(tb.lo, tb.hi));
      }
    }

    method DetachWithin(lb: TreeNode<V>, lbp: TreeNode?<V>, ghost xb: Hole<V>, ghost tb: Shape<V>)
      requires Cuttable(lb, lbp, xb, tb) && Distinct(Plug(xb, tb)) && heap == Cells(Plug(xb, tb))
      requires tb.lo == Nil && tb.hi == Nil ==> IsSide(xb)
      modifies this`root, heap
      ensures Rep(root, Plug(xb, Join(tb.lo, tb.hi)))
      ensures EqChain(lb.eq, tb.eq)
    {
      CutCells(xb, tb);
      hide Plug, Distinct, CtxCells, Cells, EqChain, OnlyEq, Join, Rep;
      Detach(lb, lbp, xb, tb);
    }

    /** Cut at the recorded branch and delete what that detaches. */
    method CutBranch(lb: TreeNode<V>, lbp: TreeNode?<V>, ghost xb: Hole<V>, ghost tb: Shape<V>)
      requires Cuttable(lb, lbp, xb, tb) && OnlyEq(tb.eq)
      requires shape == Plug(xb, tb) && Distinct(shape) && heap == Cells(shape)
      requires tb.lo == Nil && tb.hi == Nil ==> IsSide(xb)
      modifies this`root, this`heap, this`shape, heap
      ensures shape == Plug(xb, Join(tb.lo, tb.hi)) && Linked() && heap <= old(heap)
    {
      DetachWithin(lb, lbp, xb, tb);
      CutCells(xb, tb);
      hide Plug, Distinct, CtxCells, Cells, EqChain, OnlyEq, Join;
      shape := Plug(xb, Join(tb.lo, tb.hi));
      DeleteChain(lb, tb.eq);
    }

    /** Delete the whole tree when it is a single chain. */
    method CutRoot()
      requires shape != Nil && shape.cell == root && EqChain(root, shape) && OnlyEq(shape)
      requires Distinct(shape) && heap == Cells(shape)
      modifies this`root, this`heap, this`shape
      ensures shape == Nil && Linked() && heap <= old(heap)
    {
      var dt := root;
      root := null;
      DeleteChain(dt, shape.eq);
      shape := Nil;
    }

    /** Remove the node found at `x`, with everything that is only there for its sake. */
    method RemoveNode(p: TreeNode<V>, lb: TreeNode?<V>, lbp: TreeNode?<V>,
                      ghost x: Hole<V>, ghost t: Shape<V>, ghost xb: Hole<V>, ghost tb: Shape<V>)
      requires Linked() && Plug(x, t) == shape && Rep(p, t) && t.eq == Nil && IsBranch(lb, lbp, xb, tb)
      requires if t.lo == Nil && t.hi == Nil then LastBranch(x, t, xb, tb) else xb == x && tb == t
      modifies this`root, this`heap, this`shape, heap
      ensures shape == Rebuild(x, Join(t.lo, t.hi)) && Linked() && heap <= old(heap)
    {
      LastBranchCut(x, t, xb, tb);
      CutTarget(x, t, xb, tb);
      hide LastBranch, Plug, Rebuild, OnlyEq, Cells, CtxCells, Distinct, Join;
      if lb == null {
        RepChain(root, shape);
        p.values := {};
        CutRoot();
      } else {
        ClearValues(p, lb, lbp, xb, tb);
        CutBranch(lb, lbp, xb, tb);
      }
    }

    /** Empty a value set whose node is about to go. */
    method ClearValues(p: TreeNode<V>, lb: TreeNode<V>, lbp: TreeNode?<V>, ghost xb: Hole<V>, ghost tb: Shape<V>)
      requires tb != Nil && IsBranch(lb, lbp, xb, tb)
      requires p !in CtxCells(xb) + Cells(tb.lo) + Cells(tb.hi)
      modifies p`values
      ensures Cuttable(lb, lbp, xb, tb)
    {
      RepChain(lb.eq, tb.eq);
      hide CtxRep, EqChain;
      p.values := {};
    }

    method EraseNodes(key: Key, valuep: Option<V>)
      requires Valid() && IsKey(key)
      modifies this`root, this`heap, this`shape, heap
      ensures Linked() && heap <= old(heap)
      ensures shape == if key in index then Assigned(old(shape), key, Left(index, key, valuep)) else old(shape)
    {
      var p, lb, lbp, x, t, xb, tb, i := FindBranch(key);
      FoundOrNot(x, t, key, i, index);
      if p == null {
        return;
      }
      var rest := if valuep == None then {} else p.values - {valuep.value};
      FoundAssign(x, t, key, i, rest);
      hide Plug, Rebuild, WellFormed, Cells, Distinct, LastBranch, Holds, Assigned;
      if rest != {} {
        SetValues(p, rest, x, t);
      } else {
        RemoveNode(p, lb, lbp, x, t, xb, tb);
      }
    }

    /** Take one value (or, with none given, all of them) away from `key`. */
    method Erase(key: Key, valuep: Option<V>)
      requires Valid() && IsKey(key)
      modifies this, heap
      ensures Valid() && index == Put(old(index), key, Left(old(index), key, valuep))
      ensures heap <= old(heap) && Keeps(old(shape), shape)
    {
      ghost var was := shape;
      EraseNodes(key, valuep);
      if key in index {
        AssignHolds(was, index, key, Left(index, key, valuep));
      }
      index := Put(index, key, Left(index, key, valuep));
    }
  }

  lemma FoundOrNot<V>(x: Hole<V>, t: Shape<V>, key: Key, i: nat, m: Index<V>)
    requires IsKey(key) && i < |key| && Descends(x, key, i) && Holds(Plug(x, t), m)
    requires t == Nil || t.c == key[i] == NUL
    ensures t == Nil <==> key !in m
    ensures t != Nil ==> t.values == m[key] && t.cell in Cells(Plug(x, t))
  {
    DescendAt(x, t, key, i);
    PlugCells(x, t);
  }

  lemma FoundAssign<V>(x: Hole<V>, t: Shape<V>, key: Key, i: nat, vs: set<V>)
    requires IsKey(key) && i < |key| && Descends(x, key, i) && t != Nil && t.c == key[i] == NUL
    ensures Assigned(Plug(x, t), key, vs)
         == if vs == {} then Rebuild(x, Join(t.lo, t.hi)) else Plug(x, t.(values := vs))
  {
    DescendAssign(x, t, key, i, vs);
  }

  lemma AssignHolds<V>(t: Shape<V>, m: Index<V>, k: Key, vs: set<V>)
    requires WellFormed(t) && Holds(t, m) && k in m
    ensures var t' := Assigned(t, k, vs);
            WellFormed(t') && Keeps(t, t') && Holds(t', Put(m, k, vs))
  {
    hide Assigned, At, WellFormed, Chars;
    AssignKeeps(t, k, vs);
    forall p: Key | |p| > 0
      ensures p != k && IsKey(p) ==> At(Assigned(t, k, vs), p) == At(t, p)
      ensures p != k && At(Assigned(t, k, vs), p).Some? ==> At(Assigned(t, k, vs), p) == At(t, p)
    {
      AssignEffect(t, k, vs, p);
    }
    AssignEffect(t, k, vs, k);
  }

  lemma CutTarget<V>(x: Hole<V>, t: Shape<V>, xb: Hole<V>, tb: Shape<V>)
    requires t != Nil && Distinct(Plug(x, t))
    requires tb != Nil ==> Plug(xb, tb) == Plug(x, t) && t.cell in {tb.cell} + Cells(tb.eq)
    ensures t.cell in Cells(Plug(x, t)) && (tb == Nil ==> Plug(x, t) != Nil)
    ensures tb != Nil ==> t.cell !in CtxCells(xb) + Cells(tb.lo) + Cells(tb.hi)
  {
    PlugCells(x, t);
    PlugCells(xb, tb);
  }

  /** The link that leads to `p` can be told by comparing pointers. */
  lemma WhichLink<V>(x: Hole<V>, root: TreeNode?<V>, p: TreeNode<V>)
    requires CtxRep(x, root, p) && p !in SideCells(x)
    ensures var n := OwnerOf(x);
            LinkOf(x) == if n == null then Root
            else if n.lo == p then Lo(n)
            else if n.hi == p then Hi(n)
            else Eq(n)
  {
  }

  lemma SideLink<V>(x: Hole<V>, root: TreeNode?<V>, p: TreeNode<V>)
    requires CtxRep(x, root, p) && p !in SideCells(x) && IsSide(x)
    ensures OwnerOf(x) != null && LinkOf(x) == if OwnerOf(x).lo == p then Lo(OwnerOf(x)) else Hi(OwnerOf(x))
  {
  }

  lemma EmptyRep<V>(p: TreeNode?<V>, t: Shape<V>)
    requires Rep(p, t)
    ensures p == null <==> t == Nil
  {
  }

  lemma JoinCells<V>(lo: Shape<V>, hi: Shape<V>)
    requires Distinct(lo) && Distinct(hi) && Cells(lo) !! Cells(hi)
    ensures Distinct(Join(lo, hi)) && Cells(Join(lo, hi)) == Cells(lo) + Cells(hi)
  {
    if lo != Nil && hi != Nil {
      GraftCells(hi, lo);
    }
  }

  /** Cutting at `tb` detaches it and its chain of `eq` nodes, and nothing else. */
  lemma CutCells<V>(xb: Hole<V>, tb: Shape<V>)
    requires tb != Nil && Distinct(Plug(xb, tb))
    ensures CtxDistinct(xb) && CtxCells(xb) !! Cells(tb)
    ensures tb.cell !in Cells(tb.eq) && Distinct(tb.eq)
    ensures {tb.cell} + Cells(tb.eq) <= Cells(Plug(xb, tb))
    ensures Distinct(Plug(xb, Join(tb.lo, tb.hi)))
    ensures Cells(Plug(xb, Join(tb.lo, tb.hi))) == Cells(Plug(xb, tb)) - ({tb.cell} + Cells(tb.eq))
    ensures Distinct(Plug(xb, tb.hi)) && Cells(Plug(xb, tb.hi)) !! Cells(tb.lo)
    ensures Cells(Plug(xb, tb)) == CtxCells(xb) + Cells(tb)
    ensures OwnerOf(xb) != null ==> OwnerOf(xb) in CtxCells(xb)
    ensures Cells(tb.hi) <= Cells(tb) && Cells(tb.lo) <= Cells(tb) && Cells(tb.eq) <= Cells(tb)
  {
    PlugCells(xb, tb);
    JoinCells(tb.lo, tb.hi);
    PlugCells(xb, Join(tb.lo, tb.hi));
    PlugCells(xb, tb.hi);
    hide Plug, Join, CtxDistinct;
  }

  lemma InsertHere<V>(x: Hole<V>, t: Shape<V>, s: Key, i: nat, v: V)
    requires IsKey(s) && i < |s| && Descends(x, s, i) && t != Nil && t.c == s[i] == NUL
    ensures Missing(Plug(x, t), s) == 0
    ensures Inserted(Plug(x, t), s, v, []) == Plug(x, t.(values := t.values + {v}))
  {
    DescendInsert(x, t, s, i, v, []);
  }

  lemma InsertBelow<V>(x: Hole<V>, s: Key, i: nat, v: V, cells: seq<TreeNode<V>>)
    requires i < |s| && Descends(x, s, i) && |cells| == |s| - i
    ensures Missing(Plug(x, Nil), s) == |cells|
    ensures Inserted(Plug(x, Nil), s, v, cells) == Plug(x, Chain(s[i..], v, cells))
  {
    DescendInsert(x, Nil, s, i, v, cells);
  }

  /** Every prefix that has a node in both shapes has it in the same cell. */
  ghost predicate Keeps<V>(t: Shape<V>, t': Shape<V>) {
    forall p | |p| > 0 && At(t, p).Some? && At(t', p).Some? :: At(t, p).value.cell == At(t', p).value.cell
  }

  lemma InsertHolds<V>(t: Shape<V>, m: Index<V>, k: Key, v: V, cells: seq<TreeNode<V>>)
    requires WellFormed(t) && Holds(t, m) && IsKey(k) && |cells| == Missing(t, k)
    ensures var t' := Inserted(t, k, v, cells);
            WellFormed(t') && Keeps(t, t') && Holds(t', Put(m, k, Lookup(m, k) + {v}))
  {
    hide Inserted, At, WellFormed, Missing, Chars;
    InsertKeeps(t, k, v, cells);
    forall p: Key | |p| > 0
      ensures p != k && At(t, p).Some? ==> At(Inserted(t, k, v, cells), p) == At(t, p)
      ensures p == k ==> At(Inserted(t, k, v, cells), k).Some?
      ensures p == k ==> At(Inserted(t, k, v, cells), k).value.values == Lookup(m, k) + {v}
      ensures p == k && At(t, k).Some? ==>
                At(Inserted(t, k, v, cells), k).value.cell == At(t, k).value.cell
      ensures p != k && IsKey(p) ==> At(Inserted(t, k, v, cells), p) == At(t, p)
    {
      InsertEffect(t, k, v, cells, p);
      if p != k && IsKey(p) && p <= k { KeyPrefix(p, k); }
    }
  }

  lemma NewStep<V>(p: TreeNode<V>, c: CChar, x: Hole<V>)
    requires CtxDistinct(x) && p !in CtxCells(x)
    ensures var y := InEq(p, c, {}, Nil, Nil, x);
            CtxDistinct(y) && CtxCells(y) == CtxCells(x) + {p}
  {
  }

  lemma ExtendEnd<V>(x: Hole<V>, s: Key, i: nat, cells: seq<TreeNode<V>>, value: V, p: TreeNode<V>)
    requires IsKey(s) && i < |s| && |cells| == |s| - 1 - i
    ensures Plug(Extend(x, s[i..|s| - 1], cells), Chain([NUL], value, [p]))
         == Plug(x, Chain(s[i..], value, cells + [p]))
  {
    ExtendChain(x, s[i..|s| - 1], cells, [NUL], value, [p]);
    assert s[i..|s| - 1] + [NUL] == s[i..];
  }

  lemma ExtendOne<V>(x: Hole<V>, s: Key, i: nat, j: nat, cells: seq<TreeNode<V>>, p: TreeNode<V>, y: Hole<V>)
    requires i <= j < |s| && |cells| == j - i && y == Extend(x, s[i..j], cells)
    ensures Extend(x, s[i..j + 1], cells + [p]) == InEq(p, s[j], {}, Nil, Nil, y)
  {
    assert s[i..j + 1][..j - i] == s[i..j] && (cells + [p])[..j - i] == cells;
  }
}
