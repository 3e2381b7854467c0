/** A shape taken apart at the link that an operation has walked to. */
module TernaryZipper {
  import opened CStrings
  import opened Options
  import opened TernaryShape

  /** Everything of a tree except the subtree behind one link; the innermost step comes first. */
  datatype Ctx<N, V(==)> =
    | Top
    | InLo(cell: N, c: CChar, values: set<V>, eq: Tree<N, V>, hi: Tree<N, V>, up: Ctx<N, V>)
    | InEq(cell: N, c: CChar, values: set<V>, lo: Tree<N, V>, hi: Tree<N, V>, up: Ctx<N, V>)
    | InHi(cell: N, c: CChar, values: set<V>, lo: Tree<N, V>, eq: Tree<N, V>, up: Ctx<N, V>)

  function Plug<N, V>(x: Ctx<N, V>, t: Tree<N, V>): Tree<N, V>
    decreases x
  {
    match x
    case Top => t
    case InLo(cell, c, values, eq, hi, up) => Plug(up, Node(cell, c, values, t, eq, hi))
    case InEq(cell, c, values, lo, hi, up) => Plug(up, Node(cell, c, values, lo, t, hi))
    case InHi(cell, c, values, lo, eq, up) => Plug(up, Node(cell, c, values, lo, eq, t))
  }

  /** The subtrees beside the hole of the innermost step. */
  ghost function SideCells<N, V>(x: Ctx<N, V>): set<N> {
    match x
    case Top => {}
    case InLo(_, _, _, eq, hi, _) => Cells(eq) + Cells(hi)
    case InEq(_, _, _, lo, hi, _) => Cells(lo) + Cells(hi)
    case InHi(_, _, _, lo, eq, _) => Cells(lo) + Cells(eq)
  }

  ghost predicate SidesDistinct<N, V>(x: Ctx<N, V>) {
    match x
    case Top => true
    case InLo(_, _, _, eq, hi, _) => Distinct(eq) && Distinct(hi) && Cells(eq) !! Cells(hi)
    case InEq(_, _, _, lo, hi, _) => Distinct(lo) && Distinct(hi) && Cells(lo) !! Cells(hi)
    case InHi(_, _, _, lo, eq, _) => Distinct(lo) && Distinct(eq) && Cells(lo) !! Cells(eq)
  }

  ghost function CtxCells<N, V>(x: Ctx<N, V>): set<N> {
    if x == Top then {} else {x.cell} + SideCells(x) + CtxCells(x.up)
  }

  ghost predicate CtxDistinct<N, V>(x: Ctx<N, V>) {
    x == Top ||
    (&& SidesDistinct(x)
     && x.cell !in SideCells(x) + CtxCells(x.up)
     && SideCells(x) !! CtxCells(x.up)
     && CtxDistinct(x.up))
  }

  lemma {:induction false} PlugHasCells<N, V>(x: Ctx<N, V>, t: Tree<N, V>)
    ensures Cells(Plug(x, t)) == CtxCells(x) + Cells(t)
    decreases x
  {
    match x
    case Top =>
    case InLo(cell, c, values, eq, hi, up) => PlugHasCells(up, Node(cell, c, values, t, eq, hi));
    case InEq(cell, c, values, lo, hi, up) => PlugHasCells(up, Node(cell, c, values, lo, t, hi));
    case InHi(cell, c, values, lo, eq, up) => PlugHasCells(up, Node(cell, c, values, lo, eq, t));
  }

  lemma {:induction false} PlugIsDistinct<N, V>(x: Ctx<N, V>, t: Tree<N, V>)
    ensures Distinct(Plug(x, t)) <==> CtxDistinct(x) && Distinct(t) && CtxCells(x) !! Cells(t)
    decreases x
  {
    match x
    case Top =>
    case InLo(cell, c, values, eq, hi, up) => PlugIsDistinct(up, Node(cell, c, values, t, eq, hi));
    case InEq(cell, c, values, lo, hi, up) => PlugIsDistinct(up, Node(cell, c, values, lo, t, hi));
    case InHi(cell, c, values, lo, eq, up) => PlugIsDistinct(up, Node(cell, c, values, lo, eq, t));
  }

  lemma PlugCells<N, V>(x: Ctx<N, V>, t: Tree<N, V>)
    ensures Cells(Plug(x, t)) == CtxCells(x) + Cells(t)
    ensures Distinct(Plug(x, t)) <==> CtxDistinct(x) && Distinct(t) && CtxCells(x) !! Cells(t)
  {
    PlugHasCells(x, t);
    PlugIsDistinct(x, t);
  }

  /** The descent for `k` has gone through `x` and consumed the first `i` characters. */
  ghost predicate Descends<N, V>(x: Ctx<N, V>, k: Key, i: nat)
    decreases x
  {
    match x
    case Top => i == 0
    case InLo(_, c, _, _, _, up) => i < |k| && k[i] < c && Descends(up, k, i)
    case InEq(_, c, _, _, _, up) => 0 < i < |k| && k[i - 1] == c && Descends(up, k, i - 1)
    case InHi(_, c, _, _, _, up) => i < |k| && k[i] > c && Descends(up, k, i)
  }

  lemma {:induction false} DescendAt<N, V>(x: Ctx<N, V>, t: Tree<N, V>, k: Key, i: nat)
    requires i < |k| && Descends(x, k, i)
    ensures At(Plug(x, t), k) == At(t, k[i..])
    decreases x
  {
    match x
    case Top => assert k[0..] == k;
    case InLo(cell, c, values, eq, hi, up) => DescendAt(up, Node(cell, c, values, t, eq, hi), k, i);
    case InEq(cell, c, values, lo, hi, up) =>
      DescendAt(up, Node(cell, c, values, lo, t, hi), k, i - 1);
      assert k[i - 1..][1..] == k[i..];
    case InHi(cell, c, values, lo, eq, up) => DescendAt(up, Node(cell, c, values, lo, eq, t), k, i);
  }

  lemma {:induction false} DescendInsert<N, V>(x: Ctx<N, V>, t: Tree<N, V>, k: Key, i: nat, v: V, cells: seq<N>)
    requires i < |k| && Descends(x, k, i) && |cells| == Missing(t, k[i..])
    ensures Missing(Plug(x, t), k) == |cells|
    ensures Inserted(Plug(x, t), k, v, cells) == Plug(x, Inserted(t, k[i..], v, cells))
    decreases x
  {
    match x
    case Top => assert k[0..] == k;
    case InLo(cell, c, values, eq, hi, up) =>
      DescendInsert(up, Node(cell, c, values, t, eq, hi), k, i, v, cells);
    case InEq(cell, c, values, lo, hi, up) =>
      assert k[i - 1..][1..] == k[i..];
      DescendInsert(up, Node(cell, c, values, lo, t, hi), k, i - 1, v, cells);
    case InHi(cell, c, values, lo, eq, up) =>
      DescendInsert(up, Node(cell, c, values, lo, eq, t), k, i, v, cells);
  }

  /** What becomes of the whole tree when `t` comes back from the recursive call at the hole:
      an `eq` link must not become empty. */
  function Rebuild<N, V>(x: Ctx<N, V>, t: Tree<N, V>): Tree<N, V>
    decreases x
  {
    if x.InEq? && t == Nil then Rebuild(x.up, Join(x.lo, x.hi)) else Plug(x, t)
  }

  lemma {:induction false} DescendAssign<N, V>(x: Ctx<N, V>, t: Tree<N, V>, k: Key, i: nat, vs: set<V>)
    requires i < |k| && Descends(x, k, i)
    ensures Assigned(Plug(x, t), k, vs) == Rebuild(x, Assigned(t, k[i..], vs))
    decreases x
  {
    match x
    case Top => assert k[0..] == k;
    case InLo(cell, c, values, eq, hi, up) =>
      DescendAssign(up, Node(cell, c, values, t, eq, hi), k, i, vs);
    case InEq(cell, c, values, lo, hi, up) =>
      assert k[i - 1..][0] == c && k[i - 1..][1..] == k[i..];
      DescendAssign(up, Node(cell, c, values, lo, t, hi), k, i - 1, vs);
      var e := Assigned(t, k[i..], vs);
      assert Assigned(Node(cell, c, values, lo, t, hi), k[i - 1..], vs)
          == if e == Nil then Join(lo, hi) else Node(cell, c, values, lo, e, hi);
    case InHi(cell, c, values, lo, eq, up) =>
      DescendAssign(up, Node(cell, c, values, lo, eq, t), k, i, vs);
  }

  /** `x` with one new branchless node for each character of `ks` below its hole. */
  function Extend<N, V>(x: Ctx<N, V>, ks: Key, cells: seq<N>): Ctx<N, V>
    requires |ks| == |cells|
  {
    if |ks| == 0 then x
    else InEq(cells[|ks| - 1], ks[|ks| - 1], {}, Nil, Nil, Extend(x, ks[..|ks| - 1], cells[..|ks| - 1]))
  }

  lemma {:induction false} ExtendChain<N, V>(x: Ctx<N, V>, ks: Key, cells: seq<N>, k: Key, v: V, last: seq<N>)
    requires |ks| == |cells| && |k| == |last| > 0
    ensures Plug(Extend(x, ks, cells), Chain(k, v, last)) == Plug(x, Chain(ks + k, v, cells + last))
    decreases |ks|
  {
    if |ks| == 0 {
      assert ks + k == k && cells + last == last;
    } else {
      var n := |ks| - 1;
      var k', last' := [ks[n]] + k, [cells[n]] + last;
      assert k'[1..] == k && last'[1..] == last;
      ExtendChain(x, ks[..n], cells[..n], k', v, last');
      assert ks[..n] + k' == ks + k && cells[..n] + last' == cells + last;
    }
  }

  // ---------------------------------------------------------------- the branch that erase remembers

  /** A run of `eq` links with nothing hanging off it. */
  ghost predicate OnlyEq<N, V>(t: Tree<N, V>) {
    t == Nil || (t.lo == Nil && t.hi == Nil && OnlyEq(t.eq))
  }

  ghost predicate IsSide<N, V>(x: Ctx<N, V>) {
    x.InLo? || x.InHi?
  }

  /** `tb`, found at `xb`, is the place to cut should everything below `x` go away: cutting there
      gives what the reference definition rebuilds link by link. `tb == Nil`: nothing recorded. */
  ghost predicate LastBranch<N, V>(x: Ctx<N, V>, t: Tree<N, V>, xb: Ctx<N, V>, tb: Tree<N, V>) {
    if tb == Nil then
      && Rebuild(x, Nil) == Nil
      && (OnlyEq(t) ==> OnlyEq(Plug(x, t)))
    else
      && Plug(xb, tb) == Plug(x, t)
      && (|| (x == xb && t == tb && IsSide(x))
          || (&& Rebuild(x, Nil) == Plug(xb, Join(tb.lo, tb.hi))
              && (OnlyEq(t) ==> OnlyEq(tb.eq))
              && (tb.lo == Nil && tb.hi == Nil ==> IsSide(xb))
              && Cells(t) <= Cells(tb.eq)))
  }

  lemma LastBranchStart<N, V>(t: Tree<N, V>)
    ensures Plug(Top, t) == t && LastBranch(Top, t, Top, Nil)
  {
  }

  /** Going on through `eq` keeps the record right, moved to `t` if `t` branches. */
  lemma LastBranchEq<N, V>(x: Ctx<N, V>, t: Tree<N, V>, xb: Ctx<N, V>, tb: Tree<N, V>)
    requires t != Nil && LastBranch(x, t, xb, tb)
    ensures var x' := InEq(t.cell, t.c, t.values, t.lo, t.hi, x);
            && Plug(x', t.eq) == Plug(x, t)
            && (if t.lo == Nil && t.hi == Nil then LastBranch(x', t.eq, xb, tb) else LastBranch(x', t.eq, x, t))
  {
  }

  lemma LastBranchSide<N, V>(x: Ctx<N, V>, t: Tree<N, V>)
    requires t != Nil
    ensures var x' := InLo(t.cell, t.c, t.values, t.eq, t.hi, x);
            Plug(x', t.lo) == Plug(x, t) && (t.lo != Nil ==> LastBranch(x', t.lo, x', t.lo))
    ensures var x' := InHi(t.cell, t.c, t.values, t.lo, t.eq, x);
            Plug(x', t.hi) == Plug(x, t) && (t.hi != Nil ==> LastBranch(x', t.hi, x', t.hi))
  {
  }

  /** At the node to erase, the record gives the reference result. */
  lemma LastBranchCut<N, V>(x: Ctx<N, V>, t: Tree<N, V>, xb: Ctx<N, V>, tb: Tree<N, V>)
    requires t != Nil && t.eq == Nil
    requires if t.lo == Nil && t.hi == Nil then LastBranch(x, t, xb, tb) else xb == x && tb == t
    ensures tb == Nil ==> Rebuild(x, Join(t.lo, t.hi)) == Nil && OnlyEq(Plug(x, t))
    ensures tb != Nil ==>
              && Rebuild(x, Join(t.lo, t.hi)) == Plug(xb, Join(tb.lo, tb.hi))
              && OnlyEq(tb.eq)
              && (tb.lo == Nil && tb.hi == Nil ==> IsSide(xb))
              && t.cell in {tb.cell} + Cells(tb.eq)
  {
    assert OnlyEq(t.eq);
  }

  lemma {:induction false} GraftCells<N, V>(hi: Tree<N, V>, lo: Tree<N, V>)
    requires hi != Nil && Distinct(hi) && Distinct(lo) && Cells(hi) !! Cells(lo)
    ensures Cells(Graft(hi, lo)) == Cells(hi) + Cells(lo) && Distinct(Graft(hi, lo))
    decreases hi
  {
    if hi.lo != Nil {
      GraftCells(hi.lo, lo);
    }
  }
}
