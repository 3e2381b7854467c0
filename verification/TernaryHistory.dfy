/** What a ternary tree is for: after any history of operations it is the plain map that the same
    history builds, held in one node for each distinct prefix. */
module TernaryHistory {
  import opened CStrings
  import opened Options
  import opened TernaryShape
  import opened TernaryTrees

  datatype Op<V> = Ins(k: Key, v: V) | Del(k: Key, v: V) | DelKey(k: Key)

  ghost predicate Keyed<V>(ops: seq<Op<V>>) {
    forall i | 0 <= i < |ops| :: IsKey(ops[i].k)
  }

  function Apply<V>(m: Index<V>, op: Op<V>): Index<V> {
    match op
    case Ins(k, v) => Put(m, k, Lookup(m, k) + {v})
    case Del(k, v) => Put(m, k, Left(m, k, Some(v)))
    case DelKey(k) => Put(m, k, {})
  }

  /** The plain map after `ops`. */
  function Run<V>(ops: seq<Op<V>>): Index<V> {
    if ops == [] then map[] else Apply(Run(ops[..|ops| - 1]), ops[|ops| - 1])
  }

  predicate Removes<V(==)>(op: Op<V>, k: Key, v: V) {
    op == Del(k, v) || op == DelKey(k)
  }

  /** Somewhere `v` was put under `k`, and nothing took it away later. */
  ghost predicate Present<V>(ops: seq<Op<V>>, k: Key, v: V) {
    exists i | 0 <= i < |ops| ::
      ops[i] == Ins(k, v) && forall j | i < j < |ops| :: !Removes(ops[j], k, v)
  }

  lemma PresentStep<V>(ops: seq<Op<V>>, k: Key, v: V)
    requires ops != []
    ensures var n := |ops| - 1;
            Present(ops, k, v) <==> ops[n] == Ins(k, v) || (Present(ops[..n], k, v) && !Removes(ops[n], k, v))
  {
    var n := |ops| - 1;
    if Present(ops[..n], k, v) && !Removes(ops[n], k, v) {
      PresentStays(ops, k, v);
    }
    if Present(ops, k, v) && ops[n] != Ins(k, v) {
      PresentBefore(ops, k, v);
    }
  }

  lemma PresentStays<V>(ops: seq<Op<V>>, k: Key, v: V)
    requires ops != [] && Present(ops[..|ops| - 1], k, v) && !Removes(ops[|ops| - 1], k, v)
    ensures Present(ops, k, v)
  {
    var n, before := |ops| - 1, ops[..|ops| - 1];
    hide Removes;
    var i :| 0 <= i < n && before[i] == Ins(k, v) && forall j | i < j < n :: !Removes(before[j], k, v);
    assert ops[i] == Ins(k, v);
    forall j | i < j < |ops|
      ensures !Removes(ops[j], k, v)
    {
      if j < n { assert before[j] == ops[j]; }
    }
  }

  lemma PresentBefore<V>(ops: seq<Op<V>>, k: Key, v: V)
    requires ops != [] && Present(ops, k, v) && ops[|ops| - 1] != Ins(k, v)
    ensures Present(ops[..|ops| - 1], k, v) && !Removes(ops[|ops| - 1], k, v)
  {
    var n, before := |ops| - 1, ops[..|ops| - 1];
    hide Removes;
    var i :| 0 <= i < |ops| && ops[i] == Ins(k, v) && forall j | i < j < |ops| :: !Removes(ops[j], k, v);
    assert before[i] == Ins(k, v);
    assert forall j | i < j < n :: before[j] == ops[j];
  }

  /** The plain map is right about every key and value. */
  lemma {:induction false} RunIsHistory<V>(ops: seq<Op<V>>, k: Key, v: V)
    ensures v in Lookup(Run(ops), k) <==> Present(ops, k, v)
    ensures k in Run(ops) ==> Run(ops)[k] != {}
    decreases |ops|
  {
    if ops != [] {
      RunIsHistory(ops[..|ops| - 1], k, v);
      PresentStep(ops, k, v);
    }
  }

  /** The tree built by a history answers every `find` as the plain map would. */
  method Replay<V(==)>(ops: seq<Op<V>>) returns (tree: TernaryTree<V>)
    requires Keyed(ops)
    ensures fresh(tree) && fresh(tree.heap) && tree.Valid() && tree.index == Run(ops)
  {
    tree := new TernaryTree();
    hide TernaryTree.Valid, Apply;
    var n := 0;
    while n < |ops|
      invariant 0 <= n <= |ops|
      invariant fresh(tree) && fresh(tree.heap) && tree.Valid() && tree.index == Run(ops[..n])
    {
      Perform(tree, ops[n]);
      n := n + 1;
      assert ops[..n][..n - 1] == ops[..n - 1];
    }
    assert ops[..n] == ops;
  }

  // ---------------------------------------------------------------- the node set

  /** The distinct non-empty prefixes of the stored keys. */
  ghost function Prefixes<V>(m: Index<V>): set<Key> {
    set k, n | k in m && 0 < n <= |k| :: k[..n]
  }

  lemma InPrefixes<V>(m: Index<V>, p: Key)
    ensures p in Prefixes(m) <==> |p| > 0 && exists k | k in m :: p <= k
  {
    if |p| > 0 {
      if k :| k in m && p <= k {
        assert p == k[..|p|];
      }
    }
  }

  /** The tree is empty exactly when the map is. */
  lemma RootIsNull<V>(t: Shape<V>, m: Index<V>)
    requires WellFormed(t) && Holds(t, m)
    ensures t == Nil <==> m == map[]
  {
    if t != Nil {
      var k := SomeKey(t);
      assert k in m;
    }
  }

  lemma PrefixNode<V>(t: Shape<V>, m: Index<V>, p: Key)
    requires WellFormed(t) && Holds(t, m) && |p| > 0
    ensures At(t, p).Some? <==> p in Prefixes(m)
  {
    NodesArePrefixes(t, p);
    InPrefixes(m, p);
  }

  ghost predicate HaveNodes<V>(t: Shape<V>, ps: set<Key>) {
    forall p | p in ps :: |p| > 0 && At(t, p).Some?
  }

  ghost function CellsFor<V>(t: Shape<V>, ps: set<Key>): set<TreeNode<V>>
    requires HaveNodes(t, ps)
  {
    set p | p in ps :: At(t, p).value.cell
  }

  /** No two prefixes share a node. */
  lemma {:induction false} AsManyCells<V>(t: Shape<V>, ps: set<Key>)
    requires Distinct(t) && HaveNodes(t, ps)
    ensures |CellsFor(t, ps)| == |ps|
    decreases |ps|
  {
    if p :| p in ps {
      var rest := ps - {p};
      AsManyCells(t, rest);
      var c := At(t, p).value.cell;
      forall q | q in rest
        ensures At(t, q).value.cell != c
      {
        if At(t, q).value.cell == c { OnePrefixPerCell(t, p, q); }
      }
      assert CellsFor(t, ps) == CellsFor(t, rest) + {c};
    }
  }

  /** The nodes of a tree are those of the distinct non-empty prefixes of its keys, one for each. */
  lemma NodePerPrefix<V>(t: Shape<V>, m: Index<V>)
    requires WellFormed(t) && Distinct(t) && Holds(t, m)
    ensures HaveNodes(t, Prefixes(m))
    ensures Cells(t) == CellsFor(t, Prefixes(m)) && |Cells(t)| == |Prefixes(m)|
  {
    hide WellFormed, Distinct, Holds, Prefixes, At, Cells;
    forall p | p in Prefixes(m)
      ensures |p| > 0 && At(t, p).Some? && At(t, p).value.cell in Cells(t)
    {
      InPrefixes(m, p);
      PrefixNode(t, m, p);
      EntryIsCell(t, p);
    }
    forall c | c in Cells(t)
      ensures c in CellsFor(t, Prefixes(m))
    {
      var p := CellHasPrefix(t, c);
      PrefixNode(t, m, p);
    }
    AsManyCells(t, Prefixes(m));
  }

  /** `more` has just the nodes that `t` has for `ps` besides those of `less`. */
  ghost predicate Differ<V>(more: set<TreeNode<V>>, less: set<TreeNode<V>>, t: Shape<V>, ps: set<Key>) {
    HaveNodes(t, ps) && more - less == CellsFor(t, ps)
  }

  /** Of two trees that agree on the nodes they share, the one with more keys has more nodes just
      by those of the prefixes that the other lacks. */
  lemma NodesDiffer<V>(t: Shape<V>, m: Index<V>, t': Shape<V>, m': Index<V>)
    requires WellFormed(t) && Distinct(t) && Holds(t, m)
    requires WellFormed(t') && Distinct(t') && Holds(t', m')
    requires Keeps(t, t') && forall k | k in m :: k in m'
    ensures Differ(Cells(t'), Cells(t), t', Prefixes(m') - Prefixes(m))
  {
    NodePerPrefix(t, m);
    NodePerPrefix(t', m');
    assert Prefixes(m) <= Prefixes(m');
    hide WellFormed, Holds, Prefixes, Cells, HaveNodes, CellsFor, Keeps;
    SameCells(t, t', Prefixes(m), Prefixes(m'));
    CellsOfRest(t', Prefixes(m'), Prefixes(m));
  }

  lemma SameCells<V>(t: Shape<V>, t': Shape<V>, ps: set<Key>, all: set<Key>)
    requires HaveNodes(t, ps) && HaveNodes(t', all) && ps <= all && Keeps(t, t')
    ensures HaveNodes(t', ps) && CellsFor(t, ps) == CellsFor(t', ps)
  {
    hide At;
    assert forall p | p in ps :: At(t, p).value.cell == At(t', p).value.cell;
  }

  lemma CellsOfRest<V>(t: Shape<V>, all: set<Key>, ps: set<Key>)
    requires Distinct(t) && HaveNodes(t, all) && ps <= all
    ensures HaveNodes(t, all - ps) && CellsFor(t, all) - CellsFor(t, ps) == CellsFor(t, all - ps)
  {
    hide At, Distinct;
    forall p, q | p in all - ps && q in ps
      ensures At(t, p).value.cell != At(t, q).value.cell
    {
      if At(t, p).value.cell == At(t, q).value.cell { OnePrefixPerCell(t, p, q); }
    }
  }

  // ---------------------------------------------------------------- every operation

  /** One operation: besides the map, it changes just the nodes of the prefixes that it adds to
      the stored keys or takes away from them. */
  method Perform<V(==)>(tree: TernaryTree<V>, op: Op<V>)
    requires tree.Valid() && IsKey(op.k)
    modifies tree, tree.heap
    ensures tree.Valid() && tree.index == Apply(old(tree.index), op) && fresh(tree.heap - old(tree.heap))
    ensures op.Ins? ==>
              && old(tree.heap) <= tree.heap
              && Differ(tree.heap, old(tree.heap), tree.shape, Prefixes(tree.index) - Prefixes(old(tree.index)))
    ensures !op.Ins? ==>
              && tree.heap <= old(tree.heap)
              && Differ(old(tree.heap), tree.heap, old(tree.shape), Prefixes(old(tree.index)) - Prefixes(tree.index))
  {
    ghost var t, m := tree.shape, tree.index;
    match op {
      case Ins(k, v) => tree.Insert(k, v);
      case Del(k, v) => tree.Erase(k, Some(v));
      case DelKey(k) => tree.Erase(k, None);
    }
    hide WellFormed, Distinct, Holds, Cells, Prefixes, Differ, CellsFor, HaveNodes, Keeps;
    if op.Ins? {
      NodesDiffer(t, m, tree.shape, tree.index);
    } else {
      KeepsBoth(t, tree.shape);
      NodesDiffer(tree.shape, tree.index, t, m);
    }
  }

  lemma KeepsBoth<V>(t: Shape<V>, t': Shape<V>)
    requires Keeps(t, t')
    ensures Keeps(t', t)
  {
  }
}
