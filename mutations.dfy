/**
 * The structural operations on the pane arena as values: what `append`
 * (called by `add`) and `remove` leave behind, and what a divider drag does
 * to the two panes it separates. The `Manager` class performs these steps in
 * place; the lemmas here state what the resulting arenas look like.
 */
module TreeMutator {
  import opened Panes
  import opened SizingLaws

  /** `top` and `bottom` split along `'height'`; anything else along `'width'`. */
  function SplitDim(position: Option<Position>): Dim
  {
    if position == Some(Top) || position == Some(Bottom) then Height else Width
  }

  /** `left` and `top` put the new pane before the wrapped content. */
  predicate NewFirst(position: Option<Position>)
  {
    position == Some(Left) || position == Some(Top)
  }

  /**
   * The delta `append` moves from the wrap to the new pane. Without a `size`
   * the source computes with `undefined`, every extent it assigns is not a
   * number and jQuery ignores it, which on the two leaves involved is the same
   * as moving nothing.
   */
  function AddSize(opts: Options): real
  {
    if opts.size.Some? then opts.size.value else 0.0
  }

  /** What the wrap gives up to the new pane: `-size` (the ensures is a proof step). */
  function Yielded(opts: Options): (r: real)
    ensures r + AddSize(opts) == 0.0
  {
    -AddSize(opts)
  }

  /** The target's configuration once `append` has retyped it: a `container` without an `id`. */
  function Retyped(o: Options): Options
  {
    o.(kind := Some("container"), id := None)
  }

  /**
   * The wrap's configuration: a copy of the target's, with `position` deleted
   * and `size` deleted when it is truthy (a size of 0 stays).
   */
  function Unsized(o: Options): Options
  {
    o.(size := if o.size == Some(0.0) then o.size else None, position := None)
  }

  /**
   * The arena once `append` has retyped the target `t` and created, still
   * unlinked, the new pane (handle `|ps|`) from `opts` and the wrap (handle
   * `|ps| + 1`) holding the target's content, with the fresh counter id and
   * the target's former extents. The new pane is 0 along the split axis and
   * spans the target across it.
   */
  ghost function Detached(ps: seq<Pane>, opts: Options, t: Handle, wrapId: int): seq<Pane>
    requires t < |ps|
  {
    var tp := ps[t];
    var dim := SplitDim(opts.position);
    var added := Pane(opts.id, opts, None, [], None, true, false,
                      if dim == Width then 0.0 else tp.width, if dim == Height then 0.0 else tp.height);
    var wrap := Pane(Some(wrapId), Unsized(tp.options), None, [], None, true, false, tp.width, tp.height);
    ps[t := tp.(options := Retyped(tp.options))] + [added, wrap]
  }

  /**
   * The linking half of `append`: new pane `n` and wrap `w` float when the
   * split is along `'width'` and get `t` as parent; `t` is split along `dim`,
   * lists them (the new pane first when `newFirst`) and loses its liner.
   */
  function Hung(qs: seq<Pane>, t: Handle, n: Handle, w: Handle, dim: Dim, newFirst: bool): seq<Pane>
    requires t < |qs| && n < |qs| && w < |qs|
  {
    var float := dim == Width;
    var q1 := qs[w := qs[w].(floating := float, parent := Some(t))];
    var q2 := q1[n := q1[n].(floating := float, parent := Some(t))];
    q2[t := q2[t].(dimension := Some(dim), children := if newFirst then [n, w] else [w, n], liner := false)]
  }

  /** The arena right after `append` has rewired the target `t`, before any sizing. */
  ghost function Wired(ps: seq<Pane>, opts: Options, t: Handle, wrapId: int): seq<Pane>
    requires t < |ps|
  {
    Hung(Detached(ps, opts, t, wrapId), t, |ps|, |ps| + 1, SplitDim(opts.position), NewFirst(opts.position))
  }

  /**
   * Sizing the two unlinked leaves before linking them, as `append` does,
   * gives the arena that linking first and sizing afterwards gives.
   */
  lemma GrowBeforeHanging(qs: seq<Pane>, t: Handle, n: Handle, w: Handle, dim: Dim, newFirst: bool, a: real, b: real)
    requires t < |qs| && n < |qs| && w < |qs| && t != n && t != w && n != w
    ensures Hung(Grown(Grown(qs, w, a, dim), n, b, dim), t, n, w, dim, newFirst)
         == Grown(Grown(Hung(qs, t, n, w, dim, newFirst), w, a, dim), n, b, dim)
  {
    var left := Hung(Grown(Grown(qs, w, a, dim), n, b, dim), t, n, w, dim, newFirst);
    var right := Grown(Grown(Hung(qs, t, n, w, dim, newFirst), w, a, dim), n, b, dim);
    var float := dim == Width;
    forall x | 0 <= x < |qs| ensures left[x] == right[x] {
      if x == w {
        assert left[x] == Grown(qs, w, a, dim)[w].(floating := float, parent := Some(t));
      } else if x == n {
        assert left[x] == Grown(Grown(qs, w, a, dim), n, b, dim)[n].(floating := float, parent := Some(t));
      } else if x == t {
        assert left[x] == qs[t].(dimension := Some(dim), children := if newFirst then [n, w] else [w, n], liner := false);
      } else {
        assert left[x] == qs[x];
      }
    }
  }

  lemma WiredWellFormed(ps: seq<Pane>, opts: Options, t: Handle, wrapId: int)
    requires WellFormed(ps) && t < |ps|
    ensures WellFormed(Wired(ps, opts, t, wrapId))
  {
    var r := Wired(ps, opts, t, wrapId);
    forall h | 0 <= h < |r| ensures Linked(r, h) {
      if h < |ps| && h != t {
        assert Linked(ps, h);
        assert r[h] == ps[h];
        forall i | 0 <= i < |r[h].children| ensures r[r[h].children[i]].parent == Some(h) {
          var c := r[h].children[i];
          if c == t {
            assert r[c].parent == ps[c].parent;
          } else {
            assert r[c] == ps[c];
          }
        }
      } else if h == t {
        assert Linked(ps, t);
      }
    }
  }

  /**
   * The arena once the wrap has shrunk by `size` and the new pane (which
   * starts at 0) has grown by `size`, both linked under the target. Both are
   * leaves, on which `size` is `Grown` (lemma `SizedLeaf`).
   */
  ghost function Spread(ps: seq<Pane>, opts: Options, t: Handle, wrapId: int): (r: seq<Pane>)
    requires t < |ps|
    ensures |r| == |ps| + 2
  {
    var dim := SplitDim(opts.position);
    Grown(Grown(Wired(ps, opts, t, wrapId), |ps| + 1, Yielded(opts), dim), |ps|, AddSize(opts), dim)
  }

  /** The pane the new divider shrinks: whichever of the new pane and the wrap comes first. */
  function FirstOfSplit(ps: seq<Pane>, opts: Options): Handle
  {
    if NewFirst(opts.position) then |ps| else |ps| + 1
  }

  /**
   * `add(opts, target)` on a target that still has its content: the wiring
   * above, the wrap and the new pane sized as in `Spread`, and the new
   * divider's 5 px taken from the first child.
   */
  ghost function Appended(ps: seq<Pane>, opts: Options, t: Handle, wrapId: int): (r: seq<Pane>)
    requires t < |ps|
    ensures |r| == |ps| + 2
  {
    Grown(Spread(ps, opts, t, wrapId), FirstOfSplit(ps, opts), -DividerThickness, SplitDim(opts.position))
  }

  /** Sizing and the divider change extents only: `Spread` and `Appended` have `Wired`'s shape. */
  lemma SpreadShape(ps: seq<Pane>, opts: Options, t: Handle, wrapId: int)
    requires WellFormed(ps) && t < |ps|
    ensures SameShape(Wired(ps, opts, t, wrapId), Spread(ps, opts, t, wrapId))
    ensures SameShape(Wired(ps, opts, t, wrapId), Appended(ps, opts, t, wrapId))
    ensures WellFormed(Spread(ps, opts, t, wrapId)) && WellFormed(Appended(ps, opts, t, wrapId))
  {
    var dim := SplitDim(opts.position);
    var r1 := Wired(ps, opts, t, wrapId);
    WiredWellFormed(ps, opts, t, wrapId);
    var r2 := Grown(r1, |ps| + 1, Yielded(opts), dim);
    var r3 := Grown(r2, |ps|, AddSize(opts), dim);
    var r4 := Grown(r3, FirstOfSplit(ps, opts), -DividerThickness, dim);
    SameShapeWellFormed(r1, r2);
    SameShapeWellFormed(r2, r3);
    SameShapeWellFormed(r3, r4);
  }

  /**
   * The structure `append` leaves in `r`: the target holds the new pane and
   * the wrap, the new pane first exactly for `left`/`top`; both point back at
   * the target; the target is split along the position's axis, is typed
   * `container`, has lost its configured id and its content but keeps its
   * extents and float flag; both children float exactly for a `'width'`
   * split; the wrap carries the target's old configuration minus `size` and
   * `position` and the fresh counter id; the rest of the arena is untouched.
   */
  ghost predicate SplitInto(ps: seq<Pane>, r: seq<Pane>, opts: Options, t: Handle, wrapId: int)
    requires t < |ps| && |r| == |ps| + 2
  {
    var n, w := |ps|, |ps| + 1;
    && r[t].children == (if NewFirst(opts.position) then [n, w] else [w, n])
    && r[t].dimension == Some(SplitDim(opts.position))
    && r[t].options == Retyped(ps[t].options)
    && r[t].parent == ps[t].parent && r[t].id == ps[t].id && !r[t].liner && r[t].floating == ps[t].floating
    && r[t].width == ps[t].width && r[t].height == ps[t].height
    && r[n].parent == Some(t) && r[w].parent == Some(t)
    && r[n].children == [] && r[w].children == []
    && r[n].options == opts && r[n].id == opts.id
    && r[n].floating == (SplitDim(opts.position) == Width) && r[w].floating == r[n].floating
    && r[w].options == Unsized(ps[t].options) && r[w].id == Some(wrapId)
    && (forall x :: 0 <= x < |ps| && x != t ==> r[x] == ps[x])
  }

  /** `add` on a target with content leaves the structure `SplitInto` describes. */
  lemma AppendShape(ps: seq<Pane>, opts: Options, t: Handle, wrapId: int)
    requires WellFormed(ps) && t < |ps|
    ensures WellFormed(Appended(ps, opts, t, wrapId))
    ensures SplitInto(ps, Appended(ps, opts, t, wrapId), opts, t, wrapId)
  {
    SpreadShape(ps, opts, t, wrapId);
  }

  /**
   * `add` keeps every split pane's first child floating exactly for a
   * `'width'` split: the two new children float as the new axis asks, and
   * the target keeps its own float flag under its parent.
   */
  lemma AppendFloats(ps: seq<Pane>, opts: Options, t: Handle, wrapId: int)
    requires WellFormed(ps) && t < |ps| && FloatsFrom(ps, 0)
    ensures FloatsFrom(Appended(ps, opts, t, wrapId), 0)
  {
    var r := Appended(ps, opts, t, wrapId);
    AppendShape(ps, opts, t, wrapId);
    forall x | 0 <= x < |r| && |r[x].children| == 2 && r[x].children[0] < |r|
      ensures r[r[x].children[0]].floating == (r[x].dimension == Some(Width))
    {
      if x < |ps| && x != t {
        assert Linked(ps, x);
        var c := ps[x].children[0];
        if c != t {
          assert r[c] == ps[c];
        }
      }
    }
  }

  /**
   * The extents `append` leaves when neither the new pane nor the target is
   * fixed: the new pane has `size` and the wrap the rest of the target, less
   * the divider bar on whichever comes first, so the target stays tiled along
   * the split axis and both children span it across.
   */
  lemma AppendGeometry(ps: seq<Pane>, opts: Options, t: Handle, wrapId: int)
    requires WellFormed(ps) && t < |ps|
    requires !opts.fixed && !ps[t].options.fixed
    ensures var r := Appended(ps, opts, t, wrapId);
      var n, w := |ps|, |ps| + 1;
      var dim := SplitDim(opts.position);
      && |r[t].children| == 2 && WellFormed(r)
      && Extent(r[n], dim) == AddSize(opts) - (if NewFirst(opts.position) then DividerThickness else 0.0)
      && Extent(r[w], dim)
         == Extent(ps[t], dim) - AddSize(opts) - (if NewFirst(opts.position) then 0.0 else DividerThickness)
      && Tiled(r, t, dim)
      && Stacked(r, t, Other(dim))
  {
    var r := Appended(ps, opts, t, wrapId);
    SpreadShape(ps, opts, t, wrapId);
    assert Child(r, t, 0) == r[t].children[0] && Child(r, t, 1) == r[t].children[1];
  }

  /** The parent of a pane that has one. */
  ghost function ParentOf(ps: seq<Pane>, w: Handle): (p: Handle)
    requires WellFormed(ps) && w < |ps| && ps[w].parent.Some?
    ensures p < w && ps[w].parent == Some(p)
  {
    assert Linked(ps, w);
    ps[w].parent.value
  }

  /**
   * `remove(w)` does something only for a pane with a parent, and gets past
   * reading that parent's first child only when the parent still lists two.
   */
  ghost predicate Splices(ps: seq<Pane>, w: Handle)
    requires WellFormed(ps) && w < |ps|
  {
    ps[w].parent.Some? && |ps[ParentOf(ps, w)].children| == 2
  }

  /**
   * The sibling `remove` unwraps: the parent's second child when the first
   * has `w`'s id, the first child otherwise (ids are compared, not panes).
   */
  ghost function Sibling(ps: seq<Pane>, w: Handle): (s: Handle)
    requires WellFormed(ps) && w < |ps| && Splices(ps, w)
    ensures ParentOf(ps, w) < s < |ps| && ps[s].parent == Some(ParentOf(ps, w))
    ensures s in ps[ParentOf(ps, w)].children
  {
    var p := ParentOf(ps, w);
    var cs := ps[p].children;
    assert Linked(ps, p);
    if ps[cs[0]].id == ps[w].id then Child(ps, p, 1) else Child(ps, p, 0)
  }

  /**
   * The links `remove` rewrites: the sibling's parent becomes the
   * grandparent, whose child slot holding the parent (found by id) now holds
   * the sibling; the sibling floats exactly when the grandparent is split
   * along `'width'`; the parent loses its children.
   */
  ghost function Rewired(ps: seq<Pane>, w: Handle): (r: seq<Pane>)
    requires WellFormed(ps) && w < |ps| && Splices(ps, w)
    ensures |r| == |ps|
  {
    var p, s := ParentOf(ps, w), Sibling(ps, w);
    var g := ps[p].parent;
    assert Linked(ps, p);
    var r1 := ps[s := ps[s].(parent := g, floating := g.Some? && ps[g.value].dimension == Some(Width))];
    var r2 := if g.Some? && |ps[g.value].children| > 0 then
        assert Linked(ps, g.value);
        var gc := ps[g.value].children;
        var pos := if ps[gc[0]].id == ps[p].id then 0 else 1;
        r1[g.value := ps[g.value].(children := gc[pos := s])]
      else r1;
    r2[p := r2[p].(children := [])]
  }

  lemma RewiredWellFormed(ps: seq<Pane>, w: Handle)
    requires WellFormed(ps) && w < |ps| && Splices(ps, w)
    ensures WellFormed(Rewired(ps, w))
    ensures forall x :: 0 <= x < |ps| && x != Sibling(ps, w) ==> Rewired(ps, w)[x].parent == ps[x].parent
  {
    var p, s := ParentOf(ps, w), Sibling(ps, w);
    var r := Rewired(ps, w);
    RewiredPanes(ps, w);
    forall h | 0 <= h < |r| ensures Linked(r, h) {
      RelinkedLinked(ps, r, p, s, h);
    }
  }

  /**
   * `r` is `ps` with sibling `s` hung from the grandparent, the parent `p`
   * emptied and the grandparent's listed children either kept or updated in
   * one slot to `s`.
   */
  ghost predicate Relinked(ps: seq<Pane>, r: seq<Pane>, p: Handle, s: Handle)
    requires WellFormed(ps) && p < |ps| && s < |ps| && |r| == |ps|
  {
    var g := ps[p].parent;
    && r[s].parent == g && r[s].children == ps[s].children
    && r[p] == ps[p].(children := [])
    && (g.Some? ==>
          && g.value < |ps| && r[g.value].parent == ps[g.value].parent
          && |r[g.value].children| == |ps[g.value].children|
          && (forall i :: 0 <= i < |r[g.value].children| ==>
                r[g.value].children[i] == ps[g.value].children[i] || r[g.value].children[i] == s)
          && (|r[g.value].children| == 2 ==> r[g.value].children[0] != r[g.value].children[1]))
    && (forall x :: 0 <= x < |ps| && x != s && x != p && g != Some(x) ==> r[x] == ps[x])
  }

  lemma RelinkedLinked(ps: seq<Pane>, r: seq<Pane>, p: Handle, s: Handle, h: Handle)
    requires WellFormed(ps) && p < s < |ps| && |r| == |ps| && ps[s].parent == Some(p)
    requires Relinked(ps, r, p, s) && h < |ps|
    ensures Linked(r, h)
  {
    var g := ps[p].parent;
    assert Linked(ps, h);
    assert Linked(ps, p);
    assert Linked(ps, s);
    if h == p {
    } else if h == s {
      forall i | 0 <= i < |r[h].children| ensures r[r[h].children[i]].parent == Some(h) {
        var c := r[h].children[i];
        assert c != p && c != s && g != Some(c);
      }
    } else if g == Some(h) {
      forall i | 0 <= i < |r[h].children| ensures r[r[h].children[i]].parent == Some(h) {
        var c := r[h].children[i];
        if c != s {
          assert c in ps[h].children;
        }
      }
    } else {
      forall i | 0 <= i < |r[h].children| ensures r[r[h].children[i]].parent == Some(h) {
        var c := r[h].children[i];
        assert c != s;
      }
    }
  }

  /**
   * `remove(w)` on the arena: the links above, then the sibling grows by the
   * parent's extent minus its own, height first and then width, so that it
   * fills the space the parent had. Nothing changes for a pane without a
   * parent, nor when the parent has no children left (the source stops there
   * with an exception).
   */
  ghost function RemoveArena(ps: seq<Pane>, w: Handle): (r: seq<Pane>)
    requires WellFormed(ps) && w < |ps|
    ensures WellFormed(r) && |r| == |ps|
  {
    if !Splices(ps, w) then ps
    else
      RewiredWellFormed(ps, w);
      var p := ParentOf(ps, w);
      Refit(Rewired(ps, w), Sibling(ps, w), ps[p].width, ps[p].height)
  }

  /**
   * Pane `s` sized to `width` by `height`: the height delta first, then the
   * width delta, as `remove` does for the sibling.
   */
  ghost function Refit(ps: seq<Pane>, s: Handle, width: real, height: real): (r: seq<Pane>)
    requires WellFormed(ps) && s < |ps|
    ensures SameShape(ps, r) && WellFormed(r)
    ensures !ps[s].options.fixed ==> r[s].width == width && r[s].height == height
    ensures forall x :: 0 <= x < |ps| && !Under(ps, x, s) ==> r[x] == ps[x]
  {
    var r1 := Sized(ps, s, Growth(ps[s].height, height), Height);
    SameShapeWellFormed(ps, r1);
    SubtreeSameParents(ps, r1, s);
    var r := Sized(r1, s, Growth(r1[s].width, width), Width);
    SameShapeWellFormed(r1, r);
    r
  }

  /** The slot of the grandparent `g` that `remove` overwrites: the first when its id is the parent's. */
  ghost function Slot(ps: seq<Pane>, g: Handle, p: Handle): nat
    requires WellFormed(ps) && g < |ps| && p < |ps| && |ps[g].children| == 2
  {
    if ps[Child(ps, g, 0)].id == ps[p].id then 0 else 1
  }

  /** `Rewired` pane by pane. */
  lemma RewiredPanes(ps: seq<Pane>, w: Handle)
    requires WellFormed(ps) && w < |ps| && Splices(ps, w)
    ensures var r, p, s := Rewired(ps, w), ParentOf(ps, w), Sibling(ps, w);
      var g := ps[p].parent;
      && r[s] == ps[s].(parent := g, floating := g.Some? && ps[ParentOf(ps, p)].dimension == Some(Width))
      && r[p] == ps[p].(children := [])
      && (g.Some? && |ps[g.value].children| == 2 ==>
            r[g.value] == ps[g.value].(children := ps[g.value].children[Slot(ps, g.value, p) := s]))
      && (g.Some? && |ps[g.value].children| == 0 ==> r[g.value] == ps[g.value])
      && (forall x :: 0 <= x < |ps| && x != s && x != p && g != Some(x) ==> r[x] == ps[x])
      && Relinked(ps, r, p, s)
  {
    var p := ParentOf(ps, w);
    assert Linked(ps, p);
    if ps[p].parent.Some? {
      assert Linked(ps, ps[p].parent.value);
    }
  }

  /**
   * What `remove(w)` leaves: the sibling hangs from the grandparent, in the
   * parent's slot when the grandparent lists two children, floats as the
   * grandparent's split demands, and (unless it is fixed) has exactly the
   * parent's extents; the parent is childless.
   */
  lemma RemoveSplice(ps: seq<Pane>, w: Handle)
    requires WellFormed(ps) && w < |ps| && Splices(ps, w)
    ensures var r := RemoveArena(ps, w);
      var p, s := ParentOf(ps, w), Sibling(ps, w);
      var g := ps[p].parent;
      && r[s].parent == g
      && r[s].floating == (g.Some? && ps[ParentOf(ps, p)].dimension == Some(Width))
      && r[s].options == ps[s].options && r[s].children == ps[s].children
      && (!ps[s].options.fixed ==> r[s].width == ps[p].width && r[s].height == ps[p].height)
      && r[p].children == [] && r[p].parent == g && r[p].options == ps[p].options
      && (g.Some? && |ps[g.value].children| == 2 ==>
            r[g.value].children == ps[g.value].children[Slot(ps, g.value, p) := s])
  {
    var p, s := ParentOf(ps, w), Sibling(ps, w);
    RewiredWellFormed(ps, w);
    RewiredPanes(ps, w);
    var rw := Rewired(ps, w);
    var r := Refit(rw, s, ps[p].width, ps[p].height);
    SameShapeWellFormed(rw, r);
    assert Skeleton(r[s]) == Skeleton(rw[s]);
    NotUnderLater(rw, p, s);
    if ps[p].parent.Some? {
      NotUnderLater(rw, ps[p].parent.value, s);
    }
  }

  /**
   * `remove(w)` changes no split axis, only ever empties a child list, and
   * re-parents the sibling alone.
   */
  lemma RemoveKeepsAxes(ps: seq<Pane>, w: Handle)
    requires WellFormed(ps) && w < |ps| && Splices(ps, w)
    ensures var r, s := RemoveArena(ps, w), Sibling(ps, w);
      forall x :: 0 <= x < |ps| ==>
        && r[x].dimension == ps[x].dimension
        && (|r[x].children| == 2 ==> |ps[x].children| == 2)
        && (x != s ==> r[x].parent == ps[x].parent)
  {
    var p, s := ParentOf(ps, w), Sibling(ps, w);
    RewiredWellFormed(ps, w);
    RewiredPanes(ps, w);
    var rw := Rewired(ps, w);
    var r := Refit(rw, s, ps[p].width, ps[p].height);
    SameShapeWellFormed(rw, r);
  }

  /**
   * `remove(w)` keeps every split pane's first child floating exactly for a
   * `'width'` split: the sibling floats as the grandparent's axis asks, and
   * a grandparent slot left alone keeps its old first child.
   */
  lemma RemoveFloats(ps: seq<Pane>, w: Handle)
    requires WellFormed(ps) && w < |ps| && FloatsFrom(ps, 0)
    ensures FloatsFrom(RemoveArena(ps, w), 0)
  {
    if Splices(ps, w) {
      var p, s := ParentOf(ps, w), Sibling(ps, w);
      RewiredWellFormed(ps, w);
      RewiredPanes(ps, w);
      var rw := Rewired(ps, w);
      var g := ps[p].parent;
      assert Linked(ps, p);
      forall x | 0 <= x < |rw| && |rw[x].children| == 2 && rw[x].children[0] < |rw|
        ensures rw[rw[x].children[0]].floating == (rw[x].dimension == Some(Width))
      {
        assert Linked(ps, x);
        if g == Some(x) {
          var gc := ps[x].children;
          if Slot(ps, x, p) == 1 {
            assert gc[0] != p && gc[0] != s && gc[0] != x;
          }
        } else if x == s {
          var c := ps[s].children[0];
          assert c != p && g != Some(c);
        } else {
          var c := ps[x].children[0];
          assert c != s;
        }
      }
      SameShapeFloats(rw, RemoveArena(ps, w), 0);
    }
  }

  /**
   * `remove(w)` touches nothing but the sibling's subtree, the parent and the
   * grandparent.
   */
  lemma RemoveFrame(ps: seq<Pane>, w: Handle)
    requires WellFormed(ps) && w < |ps| && Splices(ps, w)
    ensures var r, p, s := RemoveArena(ps, w), ParentOf(ps, w), Sibling(ps, w);
      forall x :: 0 <= x < |ps| && x != p && ps[p].parent != Some(x) && !Under(ps, x, s) ==> r[x] == ps[x]
  {
    var p, s := ParentOf(ps, w), Sibling(ps, w);
    RewiredWellFormed(ps, w);
    RewiredPanes(ps, w);
    var rw := Rewired(ps, w);
    var r := Refit(rw, s, ps[p].width, ps[p].height);
    SubtreeSameParents(ps, rw, s);
    forall x | 0 <= x < |ps| && x != p && ps[p].parent != Some(x) && !Under(ps, x, s) ensures r[x] == ps[x] {
      assert x != s by { assert Under(ps, s, s); }
    }
  }

  /**
   * Pane `w` of `r` stands where pane `t` of `ps` stood: same parent, the
   * same slot among the grandparent's children (when the grandparent lists
   * `t`), the configuration of `t` less `size` and `position`, no children,
   * and the extents of `t` unless it is fixed; `t` itself is childless.
   */
  ghost predicate StandsIn(ps: seq<Pane>, r: seq<Pane>, t: Handle, w: Handle)
    requires WellFormed(ps) && t < |ps| && |ps| <= |r| && w < |r|
  {
    && r[w].parent == ps[t].parent
    && r[w].options == Unsized(ps[t].options)
    && r[w].children == []
    && (!ps[t].options.fixed ==> r[w].width == ps[t].width && r[w].height == ps[t].height)
    && r[t].children == []
    && (ps[t].parent.Some? && |ps[ParentOf(ps, t)].children| == 2 && t in ps[ParentOf(ps, t)].children ==>
          var g := ParentOf(ps, t);
          |r[g].children| == 2 &&
          forall i :: 0 <= i < 2 ==> r[g].children[i] == if ps[g].children[i] == t then w else ps[g].children[i])
  }

  /**
   * Removing the pane `add` has just created undoes the split: the wrap,
   * which holds the target's content and configuration, takes the target's
   * place. The ids must tell the panes apart, as `remove` finds panes by id.
   */
  lemma AddThenRemove(ps: seq<Pane>, opts: Options, t: Handle, wrapId: int)
    requires WellFormed(ps) && t < |ps| && |ps[t].children| == 0
    requires opts.id != Some(wrapId)
    requires ps[t].parent.Some? && |ps[ParentOf(ps, t)].children| == 2 ==>
      var g := ParentOf(ps, t);
      ps[Child(ps, g, 0)].id != ps[Child(ps, g, 1)].id
    ensures var a := Appended(ps, opts, t, wrapId);
      && WellFormed(a) && Splices(a, |ps|) && ParentOf(a, |ps|) == t && Sibling(a, |ps|) == |ps| + 1
      && StandsIn(ps, RemoveArena(a, |ps|), t, |ps| + 1)
  {
    AppendShape(ps, opts, t, wrapId);
    RemoveAfterSplit(ps, Appended(ps, opts, t, wrapId), opts, t, wrapId);
  }

  /** `AddThenRemove` for any arena `a` split as `add` splits. */
  lemma RemoveAfterSplit(ps: seq<Pane>, a: seq<Pane>, opts: Options, t: Handle, wrapId: int)
    requires WellFormed(ps) && t < |ps| && |ps[t].children| == 0
    requires WellFormed(a) && |a| == |ps| + 2 && SplitInto(ps, a, opts, t, wrapId)
    requires opts.id != Some(wrapId)
    requires ps[t].parent.Some? && |ps[ParentOf(ps, t)].children| == 2 ==>
      var g := ParentOf(ps, t);
      ps[Child(ps, g, 0)].id != ps[Child(ps, g, 1)].id
    ensures Splices(a, |ps|) && ParentOf(a, |ps|) == t && Sibling(a, |ps|) == |ps| + 1
    ensures StandsIn(ps, RemoveArena(a, |ps|), t, |ps| + 1)
  {
    var n, w := |ps|, |ps| + 1;
    SplitSibling(ps, a, opts, t, wrapId);
    UnwrapFacts(a, n, t, w);
    var r := RemoveArena(a, n);
    assert a[t].parent == ps[t].parent && a[w].options == Unsized(ps[t].options);
    assert a[t].width == ps[t].width && a[t].height == ps[t].height && a[w].children == [];
    if ps[t].parent.Some? && |ps[ParentOf(ps, t)].children| == 2 && t in ps[ParentOf(ps, t)].children {
      SplitSlot(ps, a, opts, t, wrapId);
    }
  }

  /** After the split, `remove` on the new pane finds the target as parent and the wrap as sibling. */
  lemma SplitSibling(ps: seq<Pane>, a: seq<Pane>, opts: Options, t: Handle, wrapId: int)
    requires WellFormed(ps) && t < |ps|
    requires WellFormed(a) && |a| == |ps| + 2 && SplitInto(ps, a, opts, t, wrapId)
    requires opts.id != Some(wrapId)
    ensures Splices(a, |ps|) && ParentOf(a, |ps|) == t && Sibling(a, |ps|) == |ps| + 1
  {
  }

  /** After the split, the grandparent still lists the target, in the slot `remove` picks by id. */
  lemma SplitSlot(ps: seq<Pane>, a: seq<Pane>, opts: Options, t: Handle, wrapId: int)
    requires WellFormed(ps) && t < |ps|
    requires WellFormed(a) && |a| == |ps| + 2 && SplitInto(ps, a, opts, t, wrapId)
    requires ps[t].parent.Some? && |ps[ParentOf(ps, t)].children| == 2 && t in ps[ParentOf(ps, t)].children
    requires var g := ParentOf(ps, t); ps[Child(ps, g, 0)].id != ps[Child(ps, g, 1)].id
    ensures var g := ParentOf(ps, t);
      && a[t].parent == Some(g) && ParentOf(a, t) == g && a[g] == ps[g]
      && ps[g].children[Slot(a, g, t)] == t
      && forall i :: 0 <= i < 2 ==>
           ps[g].children[Slot(a, g, t) := |ps| + 1][i] == if ps[g].children[i] == t then |ps| + 1 else ps[g].children[i]
  {
    var g := ParentOf(ps, t);
    assert Linked(ps, g);
    assert Child(a, g, 0) == Child(ps, g, 0);
  }

  /** `RemoveSplice` for a pane `n` whose parent is `t` and whose sibling is `w`. */
  lemma UnwrapFacts(a: seq<Pane>, n: Handle, t: Handle, w: Handle)
    requires WellFormed(a) && n < |a| && Splices(a, n) && ParentOf(a, n) == t && Sibling(a, n) == w
    ensures var r := RemoveArena(a, n);
      && r[w].parent == a[t].parent && r[w].options == a[w].options && r[w].children == a[w].children
      && (!a[w].options.fixed ==> r[w].width == a[t].width && r[w].height == a[t].height)
      && r[t].children == []
      && (a[t].parent.Some? && |a[ParentOf(a, t)].children| == 2 ==>
            r[ParentOf(a, t)].children == a[ParentOf(a, t)].children[Slot(a, ParentOf(a, t), t) := w])
  {
    RemoveSplice(a, n);
  }

  /**
   * The end of a divider drag: with `changed = result - first`, the first
   * child grows by `changed` and the second by `-changed`, so an unfixed first
   * child ends exactly at the pointer position `result`, two unfixed children
   * keep their total and therefore the tiling, and the parent is untouched.
   */
  lemma DragMovesDivider(ps: seq<Pane>, h: Handle, result: real)
    requires WellFormed(ps) && h < |ps| && |ps[h].children| == 2 && ps[h].dimension.Some?
    ensures var dim := ps[h].dimension.value;
      var c0, c1 := Child(ps, h, 0), Child(ps, h, 1);
      var r := SizedPair(ps, h, result - Extent(ps[c0], dim), -(result - Extent(ps[c0], dim)), dim);
      && (!ps[c0].options.fixed ==> Extent(r[c0], dim) == result)
      && (!ps[c0].options.fixed && !ps[c1].options.fixed ==>
            Extent(r[c0], dim) + Extent(r[c1], dim) == Extent(ps[c0], dim) + Extent(ps[c1], dim))
      && r[h] == ps[h]
      && (!ps[c0].options.fixed && !ps[c1].options.fixed && Tiled(ps, h, dim) ==> Tiled(r, h, dim))
  {
    var dim := ps[h].dimension.value;
    var c0, c1 := Child(ps, h, 0), Child(ps, h, 1);
    NotUnderLater(ps, h, c0);
    NotUnderLater(ps, h, c1);
  }
}
