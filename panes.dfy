/**
 * The pane arena of the tiling layout engine and its sizing recursion.
 *
 * Panes live in a sequence indexed by a handle (their allocation order). A
 * pane is a leaf or has exactly two children; every child points back at its
 * parent, and a child is always allocated after its parent. `Sized` is the
 * recursive `Window.prototype.size`: it pushes a pixel delta down a subtree,
 * proportionally along the split axis, in full across it, and entirely to the
 * flexible child when its sibling is fixed.
 */
module Panes {

  datatype Option<T> = None | Some(value: T)

  /** An axis: the `'width'` or `'height'` of a pane. */
  datatype Dim = Width | Height

  /** Where a new pane is placed against its target. */
  datatype Position = Top | Bottom | Left | Right

  /** Thickness in pixels of the bar a divider inserts between two siblings. */
  const DividerThickness: real := 5.0

  /** Index of a pane in the arena. */
  type Handle = nat

  /**
   * The configuration object a pane carries (`window.options`). `kind` is the
   * `type` key; `divider` is false only when the configuration says
   * `divider: false`.
   */
  datatype Options = Options(
    id: Option<int>,
    kind: Option<string>,
    permanent: bool,
    fixed: bool,
    noadd: bool,
    divider: bool,
    size: Option<real>,
    position: Option<Position>)

  /**
   * One `WindowManager.Window`. `id` is the window's own `id` field, which is
   * not always `options.id`. `liner` says whether the window still holds its
   * content element; `floating` is its `float: left` style; `width` and
   * `height` are its rendered extents.
   */
  datatype Pane = Pane(
    id: Option<int>,
    options: Options,
    parent: Option<Handle>,
    children: seq<Handle>,
    dimension: Option<Dim>,
    liner: bool,
    floating: bool,
    width: real,
    height: real)

  function Other(d: Dim): Dim
  {
    if d == Width then Height else Width
  }

  function Extent(p: Pane, d: Dim): real
  {
    if d == Width then p.width else p.height
  }

  /** Everything about a pane except its extents. */
  function Skeleton(p: Pane): Pane
  {
    p.(width := 0.0, height := 0.0)
  }

  /** `p` with its extent along `d` set to `v`. */
  function WithExtent(p: Pane, d: Dim, v: real): (q: Pane)
    ensures Extent(q, d) == v
    ensures Extent(q, Other(d)) == Extent(p, Other(d))
    ensures Skeleton(q) == Skeleton(p)
  {
    if d == Width then p.(width := v) else p.(height := v)
  }

  /** The local shape of pane `h`: binary, children allocated later and pointing back, parent allocated earlier. */
  ghost predicate Linked(ps: seq<Pane>, h: Handle)
    requires h < |ps|
  {
    var p := ps[h];
    && (|p.children| == 0 || |p.children| == 2)
    && (forall i :: 0 <= i < |p.children| ==> h < p.children[i] < |ps| && ps[p.children[i]].parent == Some(h))
    && (|p.children| == 2 ==> p.children[0] != p.children[1])
    && (p.parent.Some? ==> p.parent.value < h)
  }

  ghost predicate WellFormed(ps: seq<Pane>)
  {
    forall h :: 0 <= h < |ps| ==> Linked(ps, h)
  }

  /** Child `i` of pane `h`. */
  ghost function Child(ps: seq<Pane>, h: Handle, i: nat): (c: Handle)
    requires WellFormed(ps) && h < |ps| && i < |ps[h].children|
    ensures h < c < |ps| && ps[c].parent == Some(h)
  {
    assert Linked(ps, h);
    ps[h].children[i]
  }

  /** Two arenas that differ at most in the extents of their panes. */
  ghost predicate SameShape(ps: seq<Pane>, qs: seq<Pane>)
  {
    |qs| == |ps| && forall i :: 0 <= i < |ps| ==> Skeleton(qs[i]) == Skeleton(ps[i])
  }

  /** `x` lies in the subtree of `c`: following parent links up from `x` reaches `c`. */
  ghost predicate Under(ps: seq<Pane>, x: Handle, c: Handle)
    decreases x
  {
    x < |ps| && (x == c || (ps[x].parent.Some? && ps[x].parent.value < x && Under(ps, ps[x].parent.value, c)))
  }

  /**
   * From pane `lo` on, the first child of every split pane floats exactly
   * when the pane is split along `'width'`: the `float: left` that puts the
   * two children side by side, which is also how `load` reads the axis back.
   */
  ghost predicate FloatsFrom(ps: seq<Pane>, lo: Handle)
  {
    forall x :: lo <= x < |ps| && |ps[x].children| == 2 && ps[x].children[0] < |ps| ==>
      ps[ps[x].children[0]].floating == (ps[x].dimension == Some(Width))
  }

  /** Changing extents only keeps the float flags in line with the split axes. */
  lemma SameShapeFloats(ps: seq<Pane>, qs: seq<Pane>, lo: Handle)
    requires SameShape(ps, qs) && FloatsFrom(ps, lo)
    ensures FloatsFrom(qs, lo)
  {
    forall x | lo <= x < |qs| && |qs[x].children| == 2 && qs[x].children[0] < |qs|
      ensures qs[qs[x].children[0]].floating == (qs[x].dimension == Some(Width))
    {
      var c := qs[x].children[0];
      assert Skeleton(qs[x]) == Skeleton(ps[x]);
      assert Skeleton(qs[c]) == Skeleton(ps[c]);
    }
  }

  lemma SameShapeWellFormed(ps: seq<Pane>, qs: seq<Pane>)
    requires SameShape(ps, qs)
    ensures forall i :: 0 <= i < |ps| ==> qs[i].parent == ps[i].parent && qs[i].children == ps[i].children
    ensures forall i :: 0 <= i < |ps| ==> qs[i].options == ps[i].options && qs[i].dimension == ps[i].dimension
    ensures WellFormed(ps) ==> WellFormed(qs)
  {
    forall i | 0 <= i < |ps|
      ensures qs[i].parent == ps[i].parent && qs[i].children == ps[i].children
      ensures qs[i].options == ps[i].options && qs[i].dimension == ps[i].dimension
    {
      assert Skeleton(qs[i]) == Skeleton(ps[i]);
    }
    if WellFormed(ps) {
      forall h | 0 <= h < |qs| ensures Linked(qs, h) {
        assert Linked(ps, h);
      }
    }
  }
  /** A new leaf hung from an existing pane (or from none) keeps the arena well-formed. */
  lemma PushLeafWellFormed(ps: seq<Pane>, q: Pane)
    requires WellFormed(ps) && q.children == [] && (q.parent.Some? ==> q.parent.value < |ps|)
    ensures WellFormed(ps + [q])
  {
    var r := ps + [q];
    forall h | 0 <= h < |r| ensures Linked(r, h) {
      if h < |ps| {
        assert Linked(ps, h);
      }
    }
  }

  /** Rewriting a pane without touching its links keeps the arena well-formed. */
  lemma RelabelWellFormed(ps: seq<Pane>, h: Handle, q: Pane)
    requires WellFormed(ps) && h < |ps| && q.parent == ps[h].parent && q.children == ps[h].children
    ensures WellFormed(ps[h := q])
  {
    var r := ps[h := q];
    forall x | 0 <= x < |r| ensures Linked(r, x) {
      assert Linked(ps, x);
    }
  }

  /** A childless pane adopting two later panes that already name it as parent. */
  lemma AdoptWellFormed(ps: seq<Pane>, h: Handle, c0: Handle, c1: Handle)
    requires WellFormed(ps) && h < c0 < c1 < |ps| && ps[h].children == []
    requires ps[c0].parent == Some(h) && ps[c1].parent == Some(h)
    ensures WellFormed(ps[h := ps[h].(children := [c0, c1])])
  {
    var r := ps[h := ps[h].(children := [c0, c1])];
    forall x | 0 <= x < |r| ensures Linked(r, x) {
      assert Linked(ps, x);
    }
  }


  lemma {:induction false} UnderAbove(ps: seq<Pane>, x: Handle, c: Handle)
    requires Under(ps, x, c)
    ensures c <= x
    decreases x
  {
    if x != c {
      UnderAbove(ps, ps[x].parent.value, c);
    }
  }

  /** A pane allocated before `c` is not in the subtree of `c`. */
  lemma NotUnderLater(ps: seq<Pane>, x: Handle, c: Handle)
    requires x < c
    ensures !Under(ps, x, c)
  {
    if Under(ps, x, c) {
      UnderAbove(ps, x, c);
    }
  }

  /** The subtree of a child is part of the subtree of its parent. */
  lemma SubtreeOfChild(ps: seq<Pane>, h: Handle, k: Handle)
    requires WellFormed(ps) && h < |ps| && k in ps[h].children
    ensures forall x :: Under(ps, x, k) ==> Under(ps, x, h)
  {
    forall x | Under(ps, x, k) ensures Under(ps, x, h) {
      UnderChild(ps, x, h, k);
    }
  }

  lemma {:induction false} UnderChild(ps: seq<Pane>, x: Handle, h: Handle, k: Handle)
    requires WellFormed(ps) && h < |ps| && k in ps[h].children && Under(ps, x, k)
    ensures Under(ps, x, h)
    decreases x
  {
    assert Linked(ps, h);
    if x == k {
      assert ps[k].parent == Some(h);
      assert Under(ps, h, h);
    } else {
      UnderChild(ps, ps[x].parent.value, h, k);
    }
  }

  /** The subtrees of two siblings are disjoint. */
  lemma {:induction false} UnderDisjoint(ps: seq<Pane>, x: Handle, h: Handle, i: nat)
    requires WellFormed(ps) && h < |ps| && |ps[h].children| == 2 && i < 2
    requires Under(ps, x, ps[h].children[i])
    ensures !Under(ps, x, ps[h].children[1 - i])
    decreases x
  {
    assert Linked(ps, h);
    var a, b := ps[h].children[i], ps[h].children[1 - i];
    if Under(ps, x, b) {
      if x == a {
        assert Linked(ps, a);
        UnderAbove(ps, h, b);
      } else if x == b {
        assert Linked(ps, b);
        UnderAbove(ps, h, a);
      } else {
        UnderDisjoint(ps, ps[x].parent.value, h, i);
      }
    }
  }

  /** Membership in the subtree of `c` does not depend on the parent of `c` itself. */
  lemma {:induction false} UnderSameParents(ps: seq<Pane>, qs: seq<Pane>, x: Handle, c: Handle)
    requires |qs| == |ps| && forall i :: 0 <= i < |ps| && i != c ==> qs[i].parent == ps[i].parent
    ensures Under(qs, x, c) == Under(ps, x, c)
    decreases x
  {
    if x < |ps| && x != c && ps[x].parent.Some? && ps[x].parent.value < x {
      UnderSameParents(ps, qs, ps[x].parent.value, c);
    }
  }

  lemma SubtreeSameParents(ps: seq<Pane>, qs: seq<Pane>, c: Handle)
    requires |qs| == |ps| && forall i :: 0 <= i < |ps| && i != c ==> qs[i].parent == ps[i].parent
    ensures forall x :: Under(qs, x, c) == Under(ps, x, c)
  {
    forall x ensures Under(qs, x, c) == Under(ps, x, c) {
      UnderSameParents(ps, qs, x, c);
    }
  }

  /**
   * The child the sizing rule treats as fixed. The source keeps the index of
   * the LAST child whose options say `fixed`, so when both are fixed it is 1.
   */
  ghost function FixedChild(ps: seq<Pane>, h: Handle): Option<nat>
    requires WellFormed(ps) && h < |ps| && |ps[h].children| == 2
  {
    assert Linked(ps, h);
    if ps[ps[h].children[1]].options.fixed then Some(1)
    else if ps[ps[h].children[0]].options.fixed then Some(0)
    else None
  }

  /**
   * `Window.prototype.size(pixels, dimension)` applied to pane `h`: the new
   * arena. Only extents change, only inside the subtree of `h`, and only along
   * `dim`; the pane's own extent grows by `pixels` unless it is fixed.
   */
  ghost function Sized(ps: seq<Pane>, h: Handle, pixels: real, dim: Dim): (r: seq<Pane>)
    requires WellFormed(ps) && h < |ps|
    ensures SameShape(ps, r) && WellFormed(r)
    ensures Extent(r[h], dim) == Extent(ps[h], dim) + (if ps[h].options.fixed then 0.0 else pixels)
    ensures forall x :: 0 <= x < |ps| ==> Extent(r[x], Other(dim)) == Extent(ps[x], Other(dim))
    ensures forall x :: 0 <= x < |ps| && !Under(ps, x, h) ==> r[x] == ps[x]
    decreases |ps| - h, 2
  {
    var inner := SizedChildren(ps, h, pixels, dim);
    assert Under(ps, h, h);
    var grown := inner[h := WithExtent(inner[h], dim, Extent(ps[h], dim) + pixels)];
    SameShapeWellFormed(ps, grown);
    if ps[h].options.fixed then inner else grown
  }

  /**
   * The part of `pixels` child `i` of `h` receives when neither child is fixed:
   * `ratio[i] * pixels` along the split axis, the whole of `pixels` across it.
   * Along the split axis the ratio needs the children's total to be non-zero.
   */
  ghost function Share(ps: seq<Pane>, h: Handle, i: nat, pixels: real, dim: Dim): real
    requires WellFormed(ps) && h < |ps| && |ps[h].children| == 2 && i < 2
    requires ps[h].dimension == Some(dim) ==>
      Extent(ps[Child(ps, h, 0)], dim) + Extent(ps[Child(ps, h, 1)], dim) != 0.0
  {
    var total := Extent(ps[Child(ps, h, 0)], dim) + Extent(ps[Child(ps, h, 1)], dim);
    if ps[h].dimension == Some(dim) then Portion(Extent(ps[Child(ps, h, i)], dim), total, pixels) else pixels
  }

  /** `ratio[i] * pixels`, with `ratio[i] = dims[i] / total`. */
  function Portion(d: real, total: real, pixels: real): real
    requires total != 0.0
  {
    d / total * pixels
  }

  /**
   * The recursive part of `size`: the arena after the children of `h` have
   * been sized, before `h` itself grows. When the children's total along the
   * split axis is zero, the ratios are `0 / 0`, every extent the recursion
   * would assign below `h` is not a number, and jQuery ignores such an
   * assignment: the children's subtrees stay as they are.
   */
  ghost function SizedChildren(ps: seq<Pane>, h: Handle, pixels: real, dim: Dim): (r: seq<Pane>)
    requires WellFormed(ps) && h < |ps|
    ensures SameShape(ps, r) && WellFormed(r)
    ensures forall x :: 0 <= x < |ps| ==> Extent(r[x], Other(dim)) == Extent(ps[x], Other(dim))
    ensures forall x :: 0 <= x < |ps| && (x == h || !Under(ps, x, h)) ==> r[x] == ps[x]
    decreases |ps| - h, 1
  {
    assert Linked(ps, h);
    var p := ps[h];
    if |p.children| != 2 then ps
    else if FixedChild(ps, h).Some? then
      var k := p.children[1 - FixedChild(ps, h).value];
      SubtreeOfChild(ps, h, k);
      NotUnderLater(ps, h, k);
      Sized(ps, k, pixels, dim)
    else if p.dimension == Some(dim) && Extent(ps[p.children[0]], dim) + Extent(ps[p.children[1]], dim) == 0.0 then ps
    else
      var s0, s1 := Share(ps, h, 0, pixels, dim), Share(ps, h, 1, pixels, dim);
      SubtreeOfChild(ps, h, p.children[0]);
      SubtreeOfChild(ps, h, p.children[1]);
      NotUnderLater(ps, h, p.children[0]);
      NotUnderLater(ps, h, p.children[1]);
      SizedPair(ps, h, s0, s1, dim)
  }

  /**
   * Both children of `h` sized in turn, the first by `s0` and the second by
   * `s1`: what the sizing recursion does with a shared delta, and what a
   * divider drag does with `+changed` and `-changed`.
   */
  ghost function SizedPair(ps: seq<Pane>, h: Handle, s0: real, s1: real, dim: Dim): (r: seq<Pane>)
    requires WellFormed(ps) && h < |ps| && |ps[h].children| == 2
    ensures SameShape(ps, r) && WellFormed(r)
    ensures var c0 := Child(ps, h, 0);
      Extent(r[c0], dim) == Extent(ps[c0], dim) + (if ps[c0].options.fixed then 0.0 else s0)
    ensures var c1 := Child(ps, h, 1);
      Extent(r[c1], dim) == Extent(ps[c1], dim) + (if ps[c1].options.fixed then 0.0 else s1)
    ensures forall x :: 0 <= x < |ps| ==> Extent(r[x], Other(dim)) == Extent(ps[x], Other(dim))
    ensures forall x ::
      0 <= x < |ps| && !Under(ps, x, ps[h].children[0]) && !Under(ps, x, ps[h].children[1]) ==> r[x] == ps[x]
    decreases |ps| - h, 0
  {
    assert Linked(ps, h);
    var c0, c1 := ps[h].children[0], ps[h].children[1];
    var r1 := Sized(ps, c0, s0, dim);
    SiblingUntouched(ps, r1, h);
    SameShapeWellFormed(ps, r1);
    SubtreeSameParents(ps, r1, c1);
    assert Under(ps, c1, c1);
    assert Under(ps, c0, c0);
    UnderDisjoint(ps, c0, h, 0);
    Sized(r1, c1, s1, dim)
  }

  /** `SizedChildren` with a fixed child: the other child takes the whole delta. */
  lemma SizedChildrenFixed(ps: seq<Pane>, h: Handle, pixels: real, dim: Dim)
    requires WellFormed(ps) && h < |ps| && |ps[h].children| == 2 && FixedChild(ps, h).Some?
    ensures SizedChildren(ps, h, pixels, dim) == Sized(ps, Child(ps, h, 1 - FixedChild(ps, h).value), pixels, dim)
  {
  }

  /** `SizedChildren` with no fixed child and a non-zero total along the split axis: both shares. */
  lemma SizedChildrenShared(ps: seq<Pane>, h: Handle, pixels: real, dim: Dim)
    requires WellFormed(ps) && h < |ps| && |ps[h].children| == 2 && FixedChild(ps, h).None?
    requires ps[h].dimension == Some(dim) ==> Extent(ps[Child(ps, h, 0)], dim) + Extent(ps[Child(ps, h, 1)], dim) != 0.0
    ensures SizedChildren(ps, h, pixels, dim) == SizedPair(ps, h, Share(ps, h, 0, pixels, dim), Share(ps, h, 1, pixels, dim), dim)
  {
  }

  /** `SizedPair` unfolded: the first child sized, then the second in the result. */
  lemma SizedPairSteps(ps: seq<Pane>, h: Handle, s0: real, s1: real, dim: Dim)
    requires WellFormed(ps) && h < |ps| && |ps[h].children| == 2
    ensures var r1 := Sized(ps, Child(ps, h, 0), s0, dim);
      Child(ps, h, 1) < |r1| && SizedPair(ps, h, s0, s1, dim) == Sized(r1, Child(ps, h, 1), s1, dim)
  {
  }

  /** A share computed from extents read beforehand. */
  lemma ShareFrom(ps: seq<Pane>, h: Handle, i: nat, pixels: real, dim: Dim, d: real, total: real)
    requires WellFormed(ps) && h < |ps| && |ps[h].children| == 2 && i < 2
    requires total == Extent(ps[Child(ps, h, 0)], dim) + Extent(ps[Child(ps, h, 1)], dim)
    requires ps[h].dimension == Some(dim) ==> total != 0.0
    requires d == Extent(ps[Child(ps, h, i)], dim)
    ensures Share(ps, h, i, pixels, dim) == if ps[h].dimension == Some(dim) then Portion(d, total, pixels) else pixels
  {
  }

  /** What the first child's resize leaves untouched: the second child's subtree. */
  lemma SiblingUntouched(ps: seq<Pane>, r1: seq<Pane>, h: Handle)
    requires WellFormed(ps) && h < |ps| && |ps[h].children| == 2 && |r1| == |ps|
    requires forall x :: 0 <= x < |ps| && !Under(ps, x, ps[h].children[0]) ==> r1[x] == ps[x]
    ensures forall x :: 0 <= x < |ps| && Under(ps, x, ps[h].children[1]) ==> r1[x] == ps[x]
  {
    forall x | 0 <= x < |ps| && Under(ps, x, ps[h].children[1]) ensures r1[x] == ps[x] {
      UnderDisjoint(ps, x, h, 1);
    }
  }

  /** Sizing a leaf only moves its own extent, and not even that when it is fixed. */
  lemma SizedLeaf(ps: seq<Pane>, h: Handle, pixels: real, dim: Dim)
    requires WellFormed(ps) && h < |ps| && |ps[h].children| == 0
    ensures Sized(ps, h, pixels, dim) == Grown(ps, h, pixels, dim)
  {
    assert SizedChildren(ps, h, pixels, dim) == ps;
  }

  /** One pane growing by `pixels` along `dim`, unless it is fixed: sizing a leaf. */
  function Grown(ps: seq<Pane>, h: Handle, pixels: real, dim: Dim): (r: seq<Pane>)
    requires h < |ps|
    ensures SameShape(ps, r)
    ensures forall x :: 0 <= x < |ps| && x != h ==> r[x] == ps[x]
  {
    if ps[h].options.fixed then ps else ps[h := WithExtent(ps[h], dim, Extent(ps[h], dim) + pixels)]
  }

  /** The delta `resize` and `remove` hand to `size`; the ensures is a proof step for its callers. */
  function Growth(was: real, now: real): (d: real)
    ensures was + d == now
  {
    now - was
  }
}
