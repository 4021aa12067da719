/**
 * The window manager: the pane arena with the list of windows in creation
 * order, the id counter, the current window, the last known container size,
 * the dividers of the split panes and the hooks fired so far, together with
 * the operations that change them in place.
 */
module Layout {
  import opened Panes
  import opened Codec
  import opened TreeMutator
  import opened Loading
  import opened SizingLaws

  /** The permanent root window is always the first pane allocated. */
  const Root: Handle := 0

  /** A call of the `onAdd` or `onDrag` hook; a drag without a pointer position reports no number. */
  datatype Event = Added(pane: Handle) | Dragged(pane: Handle, changed: Option<real>)

  /** Why an operation stopped part-way: the exception the source throws there. */
  datatype Fault =
    | NotAnElement     // `append` handed a window where it reads an element's data
    | NoLiner          // `append` on a target whose content was already wrapped
    | Dissolved        // the first child is read of a pane that lists none
    | NoDivider        // `remove` under a parent loaded with `divider: false`

  datatype Result<T> = Ok(value: T) | Err(fault: Fault)

  /** The handles `lo`, `lo + 1`, ..., `hi - 1`. */
  function Span(lo: nat, hi: nat): (s: seq<Handle>)
    requires lo <= hi
    ensures |s| == hi - lo && forall i :: 0 <= i < |s| ==> s[i] == lo + i
    decreases hi - lo
  {
    if lo == hi then [] else [lo] + Span(lo + 1, hi)
  }

  /** One `onAdd` call per handle, in order. */
  function Announced(hs: seq<Handle>): (es: seq<Event>)
    ensures |es| == |hs| && forall i :: 0 <= i < |hs| ==> es[i] == Added(hs[i])
  {
    if hs == [] then [] else [Added(hs[0])] + Announced(hs[1..])
  }

  lemma SpanSplit(lo: nat, mid: nat, hi: nat)
    requires lo <= mid <= hi
    ensures Span(lo, mid) + Span(mid, hi) == Span(lo, hi)
  {
    assert (Span(lo, mid) + Span(mid, hi))[..] == Span(lo, hi);
  }

  /** Proof step: sequence concatenation regrouped. */
  lemma Regroup<T>(a: seq<T>, b: seq<T>, c: seq<T>)
    ensures (a + b) + c == a + (b + c)
  {
  }

  /**
   * Registering window `h` and then the windows `h + 1 .. n` registers the
   * windows `h .. n`, with one `onAdd` each, in order.
   */
  lemma Registered(ws: seq<Handle>, es: seq<Event>, h: nat, n: nat)
    requires h < n
    ensures (ws + [h]) + Span(h + 1, n) == ws + Span(h, n)
    ensures (es + [Added(h)]) + Announced(Span(h + 1, n)) == es + Announced(Span(h, n))
    ensures n == h + 1 ==> ws + [h] == ws + Span(h, n) && es + [Added(h)] == es + Announced(Span(h, n))
  {
    assert Span(h, h + 1) == [h];
    SpanSplit(h, h + 1, n);
    AnnouncedSplit(Span(h, h + 1), Span(h + 1, n));
    Regroup(ws, [h], Span(h + 1, n));
    Regroup(es, [Added(h)], Announced(Span(h + 1, n)));
  }

  lemma AnnouncedSplit(a: seq<Handle>, b: seq<Handle>)
    ensures Announced(a + b) == Announced(a) + Announced(b)
  {
  }

  /**
   * `getMain`: the first window, in creation order, that has children, or the
   * first window when none has.
   */
  function MainFrom(ps: seq<Pane>, ws: seq<Handle>, i: nat): (m: Handle)
    requires 0 < |ws| && i <= |ws| && forall j :: 0 <= j < |ws| ==> ws[j] < |ps|
    ensures m < |ps|
    decreases |ws| - i
  {
    if i == |ws| then ws[0]
    else if |ps[ws[i]].children| > 0 then ws[i]
    else MainFrom(ps, ws, i + 1)
  }

  function MainOf(ps: seq<Pane>, ws: seq<Handle>): (m: Handle)
    requires 0 < |ws| && forall j :: 0 <= j < |ws| ==> ws[j] < |ps|
    ensures m < |ps|
  {
    MainFrom(ps, ws, 0)
  }

  /** Windows `ws[i..j]` have no children. */
  ghost predicate LeavesBetween(ps: seq<Pane>, ws: seq<Handle>, i: nat, j: nat)
    requires j <= |ws| && forall x :: 0 <= x < |ws| ==> ws[x] < |ps|
  {
    forall l :: i <= l < j ==> |ps[ws[l]].children| == 0
  }

  /**
   * The main window is one of the windows; it is the first split window when
   * there is one, and the first window otherwise.
   */
  lemma {:induction false} MainIsFirstSplit(ps: seq<Pane>, ws: seq<Handle>, i: nat)
    requires 0 < |ws| && i <= |ws| && forall j :: 0 <= j < |ws| ==> ws[j] < |ps|
    ensures var m := MainFrom(ps, ws, i);
      && m in ws
      && (LeavesBetween(ps, ws, i, |ws|) ==> m == ws[0])
      && (!LeavesBetween(ps, ws, i, |ws|) ==>
            exists j :: i <= j < |ws| && m == ws[j] && |ps[m].children| > 0 && LeavesBetween(ps, ws, i, j))
    decreases |ws| - i
  {
    var m := MainFrom(ps, ws, i);
    if i == |ws| {
      assert m == ws[0];
    } else if |ps[ws[i]].children| > 0 {
      assert m == ws[i] && LeavesBetween(ps, ws, i, i);
    } else {
      MainIsFirstSplit(ps, ws, i + 1);
      assert m == MainFrom(ps, ws, i + 1);
      if !LeavesBetween(ps, ws, i, |ws|) {
        assert !LeavesBetween(ps, ws, i + 1, |ws|);
        var j :| i + 1 <= j < |ws| && m == ws[j] && |ps[m].children| > 0 && LeavesBetween(ps, ws, i + 1, j);
        assert LeavesBetween(ps, ws, i, j);
      }
    }
  }

  /** `r` is the arena `add` leaves after splitting `t` of `ps` for a pane configured by `opts`. */
  ghost predicate Appends(ps: seq<Pane>, r: seq<Pane>, opts: Options, t: Handle, wrapId: int)
  {
    t < |ps| && r == Appended(ps, opts, t, wrapId)
  }

  /** Every pane with two children has a split axis. */
  ghost predicate Oriented(ps: seq<Pane>)
  {
    forall h :: 0 <= h < |ps| && |ps[h].children| == 2 ==> ps[h].dimension.Some?
  }

  /**
   * What holds of the manager between operations: a well-formed arena whose
   * first pane is the parentless root, split panes with an axis whose first
   * child floats exactly for a `'width'` split, and windows and current
   * window that are panes of the arena.
   */
  ghost predicate ValidArena(ps: seq<Pane>, ws: seq<Handle>, current: Handle)
  {
    && WellFormed(ps) && Oriented(ps) && FloatsFrom(ps, 0)
    && Root < |ps| && ps[Root].parent.None?
    && 0 < |ws| && (forall i :: 0 <= i < |ws| ==> ws[i] < |ps|)
    && current < |ps|
  }

  /**
   * The arena `load` leaves behind for record `rec` scaled by `sx` and `sy`:
   * the manager stays valid with the new windows registered, the panes that
   * were there are untouched, and the new top window hangs from the root.
   */
  lemma LoadedArena(ps: seq<Pane>, ws: seq<Handle>, current: Handle, rec: Record, sx: real, sy: real)
    requires ValidArena(ps, ws, current) && Binary(rec)
    ensures var t := Rebuilt(rec, sx, sy);
      var r := Unpacked(ps, Root, t);
      && |r| == |ps| + Nodes(rec)
      && ValidArena(r, ws + Span(|ps|, |r|), current)
      && (forall x :: 0 <= x < |ps| ==> r[x] == ps[x])
      && r[|ps|].parent == Some(Root)
  {
    var t := Rebuilt(rec, sx, sy);
    UnpackedPrefix(ps, Root, t);
    UnpackedShape(ps, Root, t);
    UnpackedOriented(ps, Root, t);
    UnpackedFloats(ps, Root, t);
    RebuiltNodes(rec, sx, sy);
    GrownValid(ps, ws, current, Unpacked(ps, Root, t));
  }

  /**
   * A valid arena extended by well-formed panes with axes, the old panes
   * untouched, is valid with the new panes registered as windows.
   */
  lemma GrownValid(ps: seq<Pane>, ws: seq<Handle>, current: Handle, r: seq<Pane>)
    requires ValidArena(ps, ws, current) && |ps| <= |r| && WellFormed(r) && OrientedFrom(r, |ps|) && FloatsFrom(r, |ps|)
    requires forall x :: 0 <= x < |ps| ==> r[x] == ps[x]
    ensures ValidArena(r, ws + Span(|ps|, |r|), current)
  {
    forall x | 0 <= x < |r| && |r[x].children| == 2 ensures r[x].dimension.Some? {
      if x < |ps| {
        assert r[x] == ps[x];
      }
    }
    forall x | 0 <= x < |ps| && |r[x].children| == 2 && r[x].children[0] < |r|
      ensures r[r[x].children[0]].floating == (r[x].dimension == Some(Width))
    {
      assert Linked(ps, x);
    }
  }

  /** The windows `load` gives a divider are the split windows of the new part of the arena. */
  lemma LoadedDividers(ps: seq<Pane>, rec: Record, sx: real, sy: real)
    requires Binary(rec)
    ensures forall k :: DividerAt(rec, |ps|, k) <==> Divided(Unpacked(ps, Root, Rebuilt(rec, sx, sy)), |ps|, k)
  {
    var t := Rebuilt(rec, sx, sy);
    RebuiltSameTree(rec, sx, sy);
    forall k ensures DividerAt(rec, |ps|, k) <==> Divided(Unpacked(ps, Root, t), |ps|, k) {
      UnpackedDividers(ps, Root, t, k);
      DividerAtSameTree(t, rec, |ps|, k);
    }
  }

  /** Changing extents only keeps the manager valid. */
  lemma SameShapeValid(ps: seq<Pane>, qs: seq<Pane>, ws: seq<Handle>, current: Handle)
    requires ValidArena(ps, ws, current) && SameShape(ps, qs)
    ensures ValidArena(qs, ws, current)
  {
    SameShapeWellFormed(ps, qs);
    SameShapeFloats(ps, qs, 0);
  }

  /**
   * The pane `add` splits: the window given as target, or else the current
   * window. This is the evidently intended reading of
   * `target ? target.container : this.current`; see `TargetAsWritten`.
   */
  function Placement(target: Option<Handle>, current: Handle): Handle
  {
    if target.Some? then target.value else current
  }

  /**
   * The element `add` hands to `append`, as written: the given target's
   * container, or `this.current`, which after `initRoot` is the root window
   * object rather than an element, so `append`'s `element.data` call fails.
   */
  function TargetAsWritten(target: Option<Handle>): (r: Result<Handle>)
    ensures r.Ok? <==> target.Some?
  {
    if target.Some? then Ok(target.value) else Err(NotAnElement)
  }

  /** Retyping a pane touches no link: the manager stays valid. */
  lemma RetypedValid(ps: seq<Pane>, ws: seq<Handle>, current: Handle, t: Handle)
    requires ValidArena(ps, ws, current) && t < |ps|
    ensures ValidArena(ps[t := ps[t].(options := Retyped(ps[t].options))], ws, current)
  {
    var r := ps[t := ps[t].(options := Retyped(ps[t].options))];
    forall h | 0 <= h < |r| ensures Linked(r, h) {
      assert Linked(ps, h);
    }
    forall h | 0 <= h < |r| && |r[h].children| == 2 && r[h].children[0] < |r|
      ensures r[r[h].children[0]].floating == (r[h].dimension == Some(Width))
    {
    }
  }

  /** The two unlinked leaves `append` creates leave the arena well formed. */
  lemma DetachedWellFormed(ps: seq<Pane>, opts: Options, t: Handle, wrapId: int)
    requires WellFormed(ps) && t < |ps|
    ensures WellFormed(Detached(ps, opts, t, wrapId))
    ensures var r := Detached(ps, opts, t, wrapId);
      |r| == |ps| + 2 && r[|ps|].children == [] && r[|ps| + 1].children == []
  {
    var r := Detached(ps, opts, t, wrapId);
    forall h | 0 <= h < |r| ensures Linked(r, h) {
      if h < |ps| {
        assert Linked(ps, h);
      }
    }
  }

  /** `Spread` is what sizing the two unlinked leaves and then linking them gives, as `append` does. */
  lemma SpreadByParts(ps: seq<Pane>, opts: Options, t: Handle, wrapId: int)
    requires t < |ps|
    ensures var dim := SplitDim(opts.position);
      var d := Detached(ps, opts, t, wrapId);
      Spread(ps, opts, t, wrapId)
      == Hung(Grown(Grown(d, |ps| + 1, Yielded(opts), dim), |ps|, AddSize(opts), dim), t, |ps|, |ps| + 1, dim, NewFirst(opts.position))
  {
    GrowBeforeHanging(Detached(ps, opts, t, wrapId), t, |ps|, |ps| + 1, SplitDim(opts.position),
                      NewFirst(opts.position), Yielded(opts), AddSize(opts));
  }

  /**
   * Right before `append` builds the divider: the wrap and the new pane are
   * sized and linked, the wrap is registered, and the divider's 5 px taken
   * from the first child (a leaf) complete `Appended`.
   */
  lemma SplitReady(ps: seq<Pane>, opts: Options, t: Handle, wrapId: int)
    requires WellFormed(ps) && t < |ps|
    ensures var r := Spread(ps, opts, t, wrapId);
      && WellFormed(r)
      && |r[t].children| == 2 && r[t].dimension == Some(SplitDim(opts.position))
      && Sized(r, Child(r, t, 0), -DividerThickness, SplitDim(opts.position)) == Appended(ps, opts, t, wrapId)
  {
    var r1 := Wired(ps, opts, t, wrapId);
    var r := Spread(ps, opts, t, wrapId);
    WiredWellFormed(ps, opts, t, wrapId);
    SpreadShape(ps, opts, t, wrapId);
    SameShapeWellFormed(r1, r);
    SizedLeaf(r, Child(r, t, 0), -DividerThickness, SplitDim(opts.position));
  }

  /**
   * What the manager looks like after `add` splits `t`: valid, with the wrap
   * and then the new pane registered and the new pane current.
   */
  lemma AppendValid(ps: seq<Pane>, ws: seq<Handle>, current: Handle, opts: Options, t: Handle, wrapId: int)
    requires ValidArena(ps, ws, current) && t < |ps|
    ensures ValidArena(Appended(ps, opts, t, wrapId), ws + [|ps| + 1] + [|ps|], |ps|)
  {
    var r := Appended(ps, opts, t, wrapId);
    AppendShape(ps, opts, t, wrapId);
    AppendFloats(ps, opts, t, wrapId);
    assert r[Root].parent.None? by {
      if t != Root {
        assert r[Root] == ps[Root];
      }
    }
    forall h | 0 <= h < |r| && |r[h].children| == 2 ensures r[h].dimension.Some? {
      if h < |ps| && h != t {
        assert r[h] == ps[h];
      }
    }
  }

  /**
   * `remove` keeps the manager valid: the root stays first and parentless,
   * every split pane keeps its axis, and no window is dropped.
   */
  lemma RemoveValid(ps: seq<Pane>, ws: seq<Handle>, current: Handle, w: Handle)
    requires ValidArena(ps, ws, current) && w < |ps|
    ensures ValidArena(RemoveArena(ps, w), ws, current)
  {
    if Splices(ps, w) {
      RemoveKeepsAxes(ps, w);
    }
    RemoveFloats(ps, w);
  }

  /**
   * The split axes survive `save` and `load`: in a valid manager, whatever
   * window `save` starts from, every split pane it writes out is read back by
   * `load` (which takes the axis from the first child's float flag) with the
   * axis it had.
   */
  lemma SavedAxes(ps: seq<Pane>, ws: seq<Handle>, current: Handle)
    requires ValidArena(ps, ws, current)
    ensures forall x :: 0 <= x < |ps| && |ps[x].children| == 2 ==>
      ps[x].dimension.Some? && LoadAxis(Encode(ps, x)) == ps[x].dimension.value
  {
    forall x | 0 <= x < |ps| && |ps[x].children| == 2
      ensures ps[x].dimension.Some? && LoadAxis(Encode(ps, x)) == ps[x].dimension.value
    {
      assert Linked(ps, x);
    }
  }

  /**
   * The bars in `d1` are those of `d0` and one at each window of the subtree
   * loaded from `rec` at window `h` that `rec` says is divided; the bars of
   * `d0` elsewhere are kept.
   */
  ghost predicate BarsAdded(d0: map<Handle, Divider>, d1: map<Handle, Divider>, rec: Record, h: Handle)
  {
    && (forall k :: k in d1 <==> k in d0 || DividerAt(rec, h, k))
    && (forall k :: k in d0 && !DividerAt(rec, h, k) ==> d1[k] == d0[k])
  }

  /**
   * The bars `load` builds while loading `rec` from window `h` on: those its
   * two children's loads built, and one at `h` unless `h` is configured
   * `divider: false`; bars built before are kept.
   */
  lemma JoinedDividers(d0: map<Handle, Divider>, d2: map<Handle, Divider>, d3: map<Handle, Divider>,
                       rec: Record, cs: seq<Record>, sx: real, sy: real, h: Handle, c0: Handle, c1: Handle)
    requires Binary(rec) && |rec.children| == 2 && cs == LoadedChildren(rec, sx, sy)
    requires c0 == h + 1 && c1 == c0 + Nodes(cs[0])
    requires forall k :: k in d2 <==> k in d0 || DividerAt(cs[0], c0, k) || DividerAt(cs[1], c1, k)
    requires forall k :: (k in d0 && !DividerAt(cs[0], c0, k) && !DividerAt(cs[1], c1, k)) ==> d2[k] == d0[k]
    requires forall k :: k in d3 <==> k in d2 || (k == h && rec.options.divider)
    requires forall k :: k in d2 && (k != h || !rec.options.divider) ==> d3[k] == d2[k]
    ensures BarsAdded(d0, d3, rec, h)
  {
    DividerAtPinned(rec, sx, sy, h);
  }

  /**
   * The delta a divider drag of split window `h` to pointer position
   * `result` applies: from the first child's extent to `result`, or none
   * without a position.
   */
  ghost function Change(ps: seq<Pane>, h: Handle, result: Option<real>): Option<real>
    requires WellFormed(ps) && h < |ps| && |ps[h].children| == 2 && ps[h].dimension.Some?
  {
    if result.Some? then Some(result.value - Extent(ps[Child(ps, h, 0)], ps[h].dimension.value)) else None
  }

  /** The arena after a divider drag of split window `h` to pointer position `result`. */
  ghost function Dropped(ps: seq<Pane>, h: Handle, result: Option<real>): seq<Pane>
    requires WellFormed(ps) && h < |ps| && |ps[h].children| == 2 && ps[h].dimension.Some?
  {
    match Change(ps, h, result)
    case None => ps
    case Some(c) => SizedPair(ps, h, c, -c, ps[h].dimension.value)
  }

  /**
   * What a drag promises: an unfixed first child ends exactly at the pointer
   * position, two unfixed children keep their total and so the tiling, the
   * owner and the cross axis are untouched, and without a position nothing
   * changes.
   */
  lemma DropLaws(ps: seq<Pane>, h: Handle, result: Option<real>)
    requires WellFormed(ps) && h < |ps| && |ps[h].children| == 2 && ps[h].dimension.Some?
    ensures var dim := ps[h].dimension.value;
      var c0, c1 := Child(ps, h, 0), Child(ps, h, 1);
      var r := Dropped(ps, h, result);
      && (result.None? ==> r == ps)
      && (result.Some? && !ps[c0].options.fixed ==> Extent(r[c0], dim) == result.value)
      && (result.Some? && !ps[c0].options.fixed && !ps[c1].options.fixed ==>
            Extent(r[c0], dim) + Extent(r[c1], dim) == Extent(ps[c0], dim) + Extent(ps[c1], dim))
      && r[h] == ps[h]
      && (forall x :: 0 <= x < |ps| ==> Extent(r[x], Other(dim)) == Extent(ps[x], Other(dim)))
      && (!ps[c0].options.fixed && !ps[c1].options.fixed && Tiled(ps, h, dim) ==> Tiled(r, h, dim))
  {
    if result.Some? {
      DragMovesDivider(ps, h, result.value);
    }
  }

  class Manager {
    var panes: seq<Pane>
    /** `windows`: every window created, in order (wraps included, none ever dropped). */
    var windows: seq<Handle>
    /** `this.id`: the next id handed to a wrap. */
    var counter: int
    var current: Handle
    /** The container size `resize` last recorded. */
    var width: real
    var height: real
    var events: seq<Event>
    /** The `divider` of each split window that has one. */
    var dividers: map<Handle, Divider>

    /** The manager's invariant: a valid arena, and bars only on panes of it. */
    ghost predicate Valid()
      reads this
    {
      ValidArena(panes, windows, current) && forall k :: k in dividers ==> k < |panes|
    }

    /**
     * `init` without a saved layout: the permanent root window (id 0, type
     * `root`) fills the container, is the only window and the current one,
     * and `onAdd` is told about it unless a layout is about to be loaded.
     */
    constructor (containerWidth: real, containerHeight: real, loading: bool)
      ensures Valid()
      ensures panes == [Pane(Some(0), RootOptions(), None, [], None, true, false, containerWidth, containerHeight)]
      ensures windows == [Root] && current == Root && counter == 1
      ensures events == (if loading then [] else [Added(Root)])
      ensures dividers == map[] && width == containerWidth && height == containerHeight
    {
      panes := [Pane(Some(0), RootOptions(), None, [], None, true, false, containerWidth, containerHeight)];
      windows := [Root];
      counter := 1;
      current := Root;
      events := if loading then [] else [Added(Root)];
      dividers := map[];
      width := containerWidth;
      height := containerHeight;
    }

    /** `getMain`: the first window, in creation order, that has children, else the first window. */
    method GetMain() returns (m: Handle)
      requires Valid()
      ensures m == MainOf(panes, windows)
    {
      var i := 0;
      while i < |windows|
        invariant 0 <= i <= |windows|
        invariant MainFrom(panes, windows, i) == MainOf(panes, windows)
      {
        if |panes[windows[i]].children| > 0 {
          return windows[i];
        }
        i := i + 1;
      }
      return windows[0];
    }

    /**
     * `resize`: the main window takes the change of the container's height,
     * then of its width, and the new size is recorded.
     */
    method Resize(newWidth: real, newHeight: real)
      requires Valid()
      modifies this`panes, this`width, this`height
      ensures Valid()
      ensures var m := MainOf(old(panes), windows);
        panes == Sized(Sized(old(panes), m, Growth(old(height), newHeight), Height), m, Growth(old(width), newWidth), Width)
      ensures width == newWidth && height == newHeight
    {
      var main := GetMain();
      ghost var ps := panes;
      Size(main, Growth(height, newHeight), Height);
      SameShapeValid(ps, panes, windows, current);
      ghost var ps1 := panes;
      Size(main, Growth(width, newWidth), Width);
      SameShapeValid(ps1, panes, windows, current);
      height := newHeight;
      width := newWidth;
    }

    /**
     * `save`: the layout from the main window down, as the record that
     * `JSON.stringify` writes out.
     */
    method Save() returns (rec: Record)
      requires Valid()
      ensures rec == Encode(panes, MainOf(panes, windows))
    {
      var main := GetMain();
      rec := Traverse(main);
    }

    /**
     * The `traverse` of `save` from pane `h`: its configuration, extents and
     * float flag, then one record per child, in order.
     */
    method Traverse(h: Handle) returns (rec: Record)
      requires WellFormed(panes) && h < |panes|
      ensures rec == Encode(panes, h)
      decreases |panes| - h
    {
      var p := panes[h];
      assert Linked(panes, h);
      var children: seq<Record> := [];
      for i := 0 to |p.children|
        invariant |children| == i
        invariant forall j :: 0 <= j < i ==> children[j] == Encode(panes, p.children[j])
      {
        var child := Traverse(p.children[i]);
        children := children + [child];
      }
      rec := Record(p.options, p.width, p.height, p.floating, None, children);
      assert |p.children| == 2 ==> children == [Encode(panes, p.children[0]), Encode(panes, p.children[1])];
    }

    /**
     * `load(json)` for the parsed record `rec` into a container of the given
     * size: the record's top-level extents are scaled to the container, and
     * the whole tree is rebuilt under the root window (which does not list it
     * as a child) and registered, one `onAdd` per window in pre-order.
     */
    method Load(rec: Record, containerWidth: real, containerHeight: real)
      requires Valid() && Binary(rec) && rec.width != 0.0 && rec.height != 0.0
      modifies this`panes, this`windows, this`events, this`dividers
      ensures Valid()
      ensures var top := |old(panes)|;
        var t := Rebuilt(rec, containerWidth / rec.width, containerHeight / rec.height);
        && panes == Unpacked(old(panes), Root, t)
        && |panes| == top + Nodes(rec) && (forall x :: 0 <= x < top ==> panes[x] == old(panes)[x])
        && panes[top].parent == Some(Root)
        && Encode(panes, top) == t
        && (forall x :: top <= x < |panes| ==> panes[x].liner)
        && windows == old(windows) + Span(top, |panes|)
        && events == old(events) + Announced(Span(top, |panes|))
      ensures forall k :: k in dividers <==> k in old(dividers) || Divided(panes, |old(panes)|, k)
      ensures forall k :: k in old(dividers) ==> dividers[k] == old(dividers)[k]
    {
      ghost var ps, ws := panes, windows;
      var top := LoadNode(Root, rec, containerWidth / rec.width, containerHeight / rec.height);
      LoadedArena(ps, ws, current, rec, containerWidth / rec.width, containerHeight / rec.height);
      UnpackedEncodes(ps, Root, Rebuilt(rec, containerWidth / rec.width, containerHeight / rec.height));
      UnpackedLined(ps, Root, Rebuilt(rec, containerWidth / rec.width, containerHeight / rec.height));
      LoadedDividers(ps, rec, containerWidth / rec.width, containerHeight / rec.height);
    }

    /**
     * The `traverse` of `load` for record `rec` under window `parent`: a new
     * window with the record's configuration, float flag and extents (scaled
     * unless pinned with `exact`) is hung from `parent`, announced and
     * registered, and then its children are loaded.
     */
    method LoadNode(parent: Handle, rec: Record, sx: real, sy: real) returns (h: Handle)
      requires WellFormed(panes) && parent < |panes| && Binary(rec)
      modifies this`panes, this`windows, this`events, this`dividers
      ensures h == |old(panes)| && panes == Unpacked(old(panes), parent, Rebuilt(rec, sx, sy)) && WellFormed(panes)
      ensures windows == old(windows) + Span(h, |panes|)
      ensures events == old(events) + Announced(Span(h, |panes|))
      ensures BarsAdded(old(dividers), dividers, rec, h)
      decreases Depth(rec), 3
    {
      h := |panes|;
      ghost var ps := panes;
      ghost var t := Rebuilt(rec, sx, sy);
      var width, height := LoadedExtent(rec, Width, sx), LoadedExtent(rec, Height, sy);
      var p := Pane(rec.options.id, rec.options, Some(parent), [], None, true, rec.floating, width, height);
      assert p == Opened(t, parent);
      PushLeafWellFormed(panes, p);
      panes := panes + [p];
      events := events + [Added(h)];
      windows := windows + [h];
      if |rec.children| > 0 {
        LoadChildren(h, rec, sx, sy, ps, parent);
      } else {
        UnpackedLeaf(ps, parent, t);
      }
      Registered(old(windows), old(events), h, |panes|);
    }

    /**
     * The part of `load`'s `traverse` for a record with children: window `h`
     * (whose liner is detached from the page but stays its field) takes the
     * split axis the first child's float flag gives, its children are pinned
     * by the fixed-sibling rule and loaded in order, and the bar is built
     * without resizing unless the configuration says `divider: false`.
     */
    method LoadChildren(h: Handle, rec: Record, sx: real, sy: real, ghost ps: seq<Pane>, ghost parent: Handle)
      requires WellFormed(panes) && Binary(rec) && |rec.children| == 2
      requires h == |ps| && parent < |ps| && panes == ps + [Opened(Rebuilt(rec, sx, sy), parent)]
      modifies this`panes, this`windows, this`events, this`dividers
      ensures panes == Unpacked(ps, parent, Rebuilt(rec, sx, sy)) && WellFormed(panes)
      ensures windows == old(windows) + Span(h + 1, |panes|)
      ensures events == old(events) + Announced(Span(h + 1, |panes|))
      ensures BarsAdded(old(dividers), dividers, rec, h)
      decreases Depth(rec), 2
    {
      var dim := LoadAxis(rec);
      RelabelWellFormed(panes, h, panes[h].(dimension := Some(dim)));
      panes := panes[h := panes[h].(dimension := Some(dim))];
      var total := if dim == Width then panes[h].width else panes[h].height;
      PinnedKeepsShape(rec.children, dim, total);
      var cs := PinFixed(rec.children, dim, total);
      assert cs == LoadedChildren(rec, sx, sy);
      Descend(h, rec, cs, sx, sy, ps, parent);
    }

    /**
     * `traverse` below split window `h` once its children `cs` are pinned:
     * both are loaded in order, `h` lists them and gets its bar.
     */
    method Descend(h: Handle, rec: Record, cs: seq<Record>, sx: real, sy: real, ghost ps: seq<Pane>, ghost parent: Handle)
      requires WellFormed(panes) && Binary(rec) && |rec.children| == 2 && cs == LoadedChildren(rec, sx, sy)
      requires h == |ps| && parent < |ps|
      requires var q := ps + [Opened(Rebuilt(rec, sx, sy), parent)];
        panes == q[h := q[h].(dimension := Some(LoadAxis(rec)))]
      modifies this`panes, this`windows, this`events, this`dividers
      ensures panes == Unpacked(ps, parent, Rebuilt(rec, sx, sy)) && WellFormed(panes)
      ensures windows == old(windows) + Span(h + 1, |panes|)
      ensures events == old(events) + Announced(Span(h + 1, |panes|))
      ensures BarsAdded(old(dividers), dividers, rec, h)
      decreases Depth(rec), 1
    {
      RebuiltNode(rec, sx, sy);
      ghost var q1 := panes;
      var c0, c1 := LoadPair(h, cs, sx, sy, Depth(rec));
      ghost var d2 := dividers;
      Join(h, c0, c1);
      JoinedDividers(old(dividers), d2, dividers, rec, cs, sx, sy, h, c0, c1);
    }

    /**
     * The two recursive calls of `load`'s `traverse` for the pinned children
     * `cs` of window `h`, first child first.
     */
    method LoadPair(h: Handle, cs: seq<Record>, sx: real, sy: real, ghost depth: nat) returns (c0: Handle, c1: Handle)
      requires WellFormed(panes) && |panes| == h + 1 && |cs| == 2 && Binary(cs[0]) && Binary(cs[1])
      requires Depth(cs[0]) < depth && Depth(cs[1]) < depth
      modifies this`panes, this`windows, this`events, this`dividers
      ensures var p1 := Unpacked(old(panes), h, Rebuilt(cs[0], sx, sy));
        && c0 == h + 1 && c1 == |p1| && c1 == c0 + Nodes(cs[0])
        && panes == Unpacked(p1, h, Rebuilt(cs[1], sx, sy)) && WellFormed(panes)
      ensures panes[h] == old(panes)[h] && panes[c0].parent == Some(h) && panes[c1].parent == Some(h)
      ensures windows == old(windows) + Span(c0, |panes|)
      ensures events == old(events) + Announced(Span(c0, |panes|))
      ensures forall k :: k in dividers <==>
        k in old(dividers) || DividerAt(cs[0], c0, k) || DividerAt(cs[1], c1, k)
      ensures forall k :: (k in old(dividers) && !DividerAt(cs[0], c0, k) &&
        !DividerAt(cs[1], c1, k)) ==> dividers[k] == old(dividers)[k]
      decreases depth, 0
    {
      ghost var p0 := panes;
      c0 := LoadNode(h, cs[0], sx, sy);
      RebuiltNodes(cs[0], sx, sy);
      UnpackedPrefix(p0, h, Rebuilt(cs[0], sx, sy));
      ghost var p1 := panes;
      ghost var w1 := windows;
      assert w1 == old(windows) + Span(c0, |panes|);
      c1 := LoadNode(h, cs[1], sx, sy);
      UnpackedPrefix(p1, h, Rebuilt(cs[1], sx, sy));
      assert windows == w1 + Span(c1, |panes|);
      SpanSplit(c0, c1, |panes|);
      AnnouncedSplit(Span(c0, c1), Span(c1, |panes|));
      Regroup(old(windows), Span(c0, c1), Span(c1, |panes|));
      Regroup(old(events), Announced(Span(c0, c1)), Announced(Span(c1, |panes|)));
    }

    /**
     * The end of `load`'s `traverse` for a split window: `h` lists its two
     * loaded children and, unless configured `divider: false`, gets a bar
     * built without resizing.
     */
    method Join(h: Handle, c0: Handle, c1: Handle)
      requires WellFormed(panes) && h < c0 < c1 < |panes| && panes[h].children == [] && panes[h].dimension.Some?
      requires panes[c0].parent == Some(h) && panes[c1].parent == Some(h)
      modifies this`panes, this`dividers
      ensures panes == old(panes)[h := old(panes)[h].(children := [c0, c1])] && WellFormed(panes) && |panes| == |old(panes)|
      ensures !panes[h].options.divider ==> dividers == old(dividers)
      ensures panes[h].options.divider ==> h in dividers && fresh(dividers[h]) && dividers == old(dividers)[h := dividers[h]]
      ensures forall k :: k in dividers <==> k in old(dividers) || (k == h && panes[h].options.divider)
      ensures forall k :: k in old(dividers) && (k != h || !panes[h].options.divider) ==> dividers[k] == old(dividers)[k]
    {
      AdoptWellFormed(panes, h, c0, c1);
      panes := panes[h := panes[h].(children := [c0, c1])];
      if panes[h].options.divider {
        var d := new Divider(this, h, true);
        dividers := dividers[h := d];
      }
    }

    /**
     * `add(options, target, silent)`: `append` splits the target (the current
     * window when none is given), then the new pane becomes current and is
     * registered, and `onAdd` fires unless `silent`.
     */
    method Add(opts: Options, target: Option<Handle>, silent: bool) returns (r: Result<Handle>)
      requires Valid() && (target.Some? ==> target.value < |panes|)
      modifies this`panes, this`counter, this`windows, this`dividers, this`current, this`events
      ensures Valid()
      ensures counter == old(counter) + 1
      ensures var t := Placement(target, old(current));
        var tp := old(panes)[t];
        if !tp.liner then
          && r == Err(NoLiner)
          && panes == old(panes)[t := tp.(options := Retyped(tp.options))]
          && windows == old(windows) && current == old(current)
          && events == old(events) && dividers == old(dividers)
        else
          var n, w := |old(panes)|, |old(panes)| + 1;
          && r == Ok(n)
          && Appends(old(panes), panes, opts, t, old(counter))
          && windows == old(windows) + [w] + [n] && current == n
          && events == old(events) + (if silent then [] else [Added(n)])
          && t in dividers && fresh(dividers[t]) && dividers == old(dividers)[t := dividers[t]]
    {
      var t := Placement(target, current);
      var n := |panes|;
      r := Append(opts, t);
      if r.Ok? {
        current := n;
        windows := windows + [n];
        if !silent {
          events := events + [Added(n)];
        }
      }
    }

    /**
     * `append(window, target)`: the target's content moves into a wrap window
     * (taking the next id), the target is retyped as a container, the wrap
     * gives up `size` along the split axis to the new pane, both are hung under
     * the target in the order `position` asks for, the wrap is registered, and
     * the divider takes its 5 px from the first child. A target whose content
     * was already wrapped makes it fail after the id is spent and the target
     * retyped.
     */
    method Append(opts: Options, t: Handle) returns (r: Result<Handle>)
      requires Valid() && t < |panes|
      modifies this`panes, this`counter, this`windows, this`dividers
      ensures counter == old(counter) + 1
      ensures var tp := old(panes)[t];
        if !tp.liner then
          && Valid()
          && r == Err(NoLiner)
          && panes == old(panes)[t := tp.(options := Retyped(tp.options))]
          && windows == old(windows) && dividers == old(dividers)
        else
          && r == Ok(|old(panes)|)
          && Appends(old(panes), panes, opts, t, old(counter))
          && windows == old(windows) + [|old(panes)| + 1]
          && ValidArena(panes, windows + [|old(panes)|], |old(panes)|)
          && t in dividers && fresh(dividers[t]) && dividers == old(dividers)[t := dividers[t]]
    {
      var before := panes[t];
      var wrapId := counter;
      counter := counter + 1;
      panes := panes[t := before.(options := Retyped(before.options))];
      if !before.liner {
        RetypedValid(old(panes), windows, current, t);
        return Err(NoLiner);
      }
      var n := |panes|;
      Split(opts, t, wrapId, before, old(panes));
      AppendValid(old(panes), old(windows), old(current), opts, t, wrapId);
      return Ok(n);
    }

    /**
     * The rest of `append` once the target `t` (formerly `before`) is retyped:
     * the new pane and the wrap (built from the target's configuration as it
     * was) are created, sized, hung under `t`, the wrap is registered and the
     * divider is built.
     */
    method Split(opts: Options, t: Handle, wrapId: int, before: Pane, ghost ps: seq<Pane>)
      requires WellFormed(ps) && t < |ps| && before == ps[t]
      requires panes == ps[t := before.(options := Retyped(before.options))]
      modifies this`panes, this`windows, this`dividers
      ensures Appends(ps, panes, opts, t, wrapId)
      ensures windows == old(windows) + [|ps| + 1]
      ensures t in dividers && fresh(dividers[t]) && dividers == old(dividers)[t := dividers[t]]
    {
      SplitReady(ps, opts, t, wrapId);
      var w := Branch(opts, t, wrapId, before, ps);
      windows := windows + [w];
      Divide(t);
    }

    /**
     * `append` from creating the new pane and the wrap to linking them under
     * the target: the arena becomes `Spread`; returns the wrap.
     */
    method Branch(opts: Options, t: Handle, wrapId: int, before: Pane, ghost ps: seq<Pane>) returns (w: Handle)
      requires WellFormed(ps) && t < |ps| && before == ps[t]
      requires panes == ps[t := before.(options := Retyped(before.options))]
      modifies this`panes
      ensures panes == Spread(ps, opts, t, wrapId) && w == |ps| + 1
    {
      var n;
      n, w := Create(opts, t, wrapId, before, ps);
      Link(t, n, w, SplitDim(opts.position), NewFirst(opts.position));
      SpreadByParts(ps, opts, t, wrapId);
    }

    /**
     * The creating half of `append`: the new pane `n` (zero-sized along the
     * split axis) and the wrap `w` (a copy of the target's extents) are
     * pushed, then the wrap gives up what the new pane will take and the new
     * pane takes it.
     */
    method Create(opts: Options, t: Handle, wrapId: int, before: Pane, ghost ps: seq<Pane>) returns (n: Handle, w: Handle)
      requires WellFormed(ps) && t < |ps| && before == ps[t]
      requires panes == ps[t := before.(options := Retyped(before.options))]
      modifies this`panes
      ensures n == |ps| && w == |ps| + 1
      ensures var dim := SplitDim(opts.position);
        panes == Grown(Grown(Detached(ps, opts, t, wrapId), w, Yielded(opts), dim), n, AddSize(opts), dim)
    {
      var dim := SplitDim(opts.position);
      n := |panes|;
      w := |panes| + 1;
      assert n == |ps| && w == |ps| + 1;
      var added := Pane(opts.id, opts, None, [], None, true, false,
                        if dim == Width then 0.0 else before.width, if dim == Height then 0.0 else before.height);
      var wrap := Pane(Some(wrapId), Unsized(before.options), None, [], None, true, false, before.width, before.height);
      panes := panes + [added, wrap];
      assert panes == Detached(ps, opts, t, wrapId);
      DetachedWellFormed(ps, opts, t, wrapId);
      SizedLeaf(panes, w, Yielded(opts), dim);
      Size(w, Yielded(opts), dim);
      ghost var g1 := panes;
      assert g1 == Grown(Detached(ps, opts, t, wrapId), w, Yielded(opts), dim);
      SameShapeWellFormed(Detached(ps, opts, t, wrapId), panes);
      SizedLeaf(panes, n, AddSize(opts), dim);
      Size(n, AddSize(opts), dim);
    }

    /**
     * What `end` does to the layout: with `changed` the distance from the
     * first child's extent to the pointer position `result`, the first child
     * grows by `changed` and the second shrinks by it along `h`'s axis, and
     * `onDrag` reports `changed`. Without a pointer position there is no
     * number: the setters ignore it, so nothing is resized, and the hook gets
     * none.
     */
    method Drag(h: Handle, result: Option<real>) returns (changed: Option<real>)
      requires Valid() && h < |panes| && |panes[h].children| == 2
      modifies this`panes, this`events
      ensures Valid()
      ensures changed == Change(old(panes), h, result)
      ensures panes == Dropped(old(panes), h, result)
      ensures events == old(events) + [Dragged(h, changed)]
    {
      assert Linked(panes, h);
      var dim := panes[h].dimension.value;
      changed := if result.Some? then Some(result.value - Extent(panes[panes[h].children[0]], dim)) else None;
      events := events + [Dragged(h, changed)];
      if changed.Some? {
        SizePair(h, changed.value, -changed.value, dim);
      }
    }

    /** Both children of split window `h` resized in turn: the first by `s0`, then the second by `s1`. */
    method SizePair(h: Handle, s0: real, s1: real, dim: Dim)
      requires Valid() && h < |panes| && |panes[h].children| == 2
      modifies this`panes
      ensures Valid() && panes == SizedPair(old(panes), h, s0, s1, dim)
    {
      ghost var ps := panes;
      assert Linked(panes, h);
      SizedPairSteps(ps, h, s0, s1, dim);
      Size(panes[h].children[0], s0, dim);
      SameShapeWellFormed(ps, panes);
      Size(panes[h].children[1], s1, dim);
      SameShapeValid(ps, panes, windows, current);
    }

    /**
     * `target.divider = new Divider(target)`: the split window `t` gets its
     * divider, which takes its 5 px from the first child.
     */
    method Divide(t: Handle)
      requires WellFormed(panes) && t < |panes| && |panes[t].children| == 2 && panes[t].dimension.Some?
      modifies this`panes, this`dividers
      ensures panes == Sized(old(panes), Child(old(panes), t, 0), -DividerThickness, old(panes)[t].dimension.value)
      ensures t in dividers && fresh(dividers[t]) && dividers == old(dividers)[t := dividers[t]]
    {
      var d := new Divider(this, t, false);
      dividers := dividers[t := d];
    }

    /**
     * The linking half of `append`: new pane `n` and wrap `w` get `t` as
     * parent (floating for a `'width'` split), and `t` lists them, is split
     * along `dim` and gives up its liner.
     */
    method Link(t: Handle, n: Handle, w: Handle, dim: Dim, newFirst: bool)
      requires t < |panes| && n < |panes| && w < |panes|
      modifies this`panes
      ensures panes == Hung(old(panes), t, n, w, dim, newFirst)
    {
      var float := dim == Width;
      panes := panes[w := panes[w].(floating := float, parent := Some(t))];
      panes := panes[n := panes[n].(floating := float, parent := Some(t))];
      panes := panes[t := panes[t].(dimension := Some(dim), children := if newFirst then [n, w] else [w, n], liner := false)];
    }

    /**
     * `remove(w)`: a pane with a parent is dropped from the layout, its
     * sibling takes the parent's place under the grandparent and is sized to
     * the parent's extents (height first, then width), and the parent's
     * divider goes. A parent that lists no children makes it stop before any
     * change, and a parent without a divider after the panes were rewired.
     */
    method Remove(w: Handle) returns (r: Result<()>)
      requires Valid() && w < |panes|
      modifies this`panes, this`dividers
      ensures Valid()
      ensures panes == RemoveArena(old(panes), w)
      ensures if old(panes)[w].parent.None? then r == Ok(()) && dividers == old(dividers)
        else if !Splices(old(panes), w) then r == Err(Dissolved) && dividers == old(dividers)
        else var p := ParentOf(old(panes), w);
          if p in old(dividers) then r == Ok(()) && dividers == old(dividers) - {p}
          else r == Err(NoDivider) && dividers == old(dividers)
    {
      ghost var ps := panes;
      if panes[w].parent.None? {
        return Ok(());
      }
      var p := panes[w].parent.value;
      assert Linked(panes, w) && Linked(panes, p);
      if |panes[p].children| == 0 {
        return Err(Dissolved);
      }
      Splice(w);
      RemoveValid(ps, windows, current, w);
      if p in dividers {
        dividers := dividers - {p};
        return Ok(());
      }
      return Err(NoDivider);
    }

    /**
     * The arena half of `remove(w)`: the parent's extents are read, the
     * sibling is relinked and then sized to them, height first.
     */
    method Splice(w: Handle)
      requires WellFormed(panes) && w < |panes| && Splices(panes, w)
      modifies this`panes
      ensures panes == RemoveArena(old(panes), w)
    {
      ghost var ps := panes;
      var p := panes[w].parent.value;
      var outerWidth, outerHeight := panes[p].width, panes[p].height;
      var s := Unwrap(w);
      RewiredWellFormed(ps, w);
      ghost var rw := panes;
      Size(s, Growth(panes[s].height, outerHeight), Height);
      SameShapeWellFormed(rw, panes);
      Size(s, Growth(panes[s].width, outerWidth), Width);
      assert panes == Refit(rw, s, outerWidth, outerHeight);
    }

    /**
     * The relinking half of `remove(w)`: the sibling (found by id) hangs from
     * the grandparent and floats as its split asks, takes the parent's slot
     * (found by id) when the grandparent lists children, and the parent
     * loses its children; returns the sibling.
     */
    method Unwrap(w: Handle) returns (s: Handle)
      requires WellFormed(panes) && w < |panes| && Splices(panes, w)
      modifies this`panes
      ensures panes == Rewired(old(panes), w) && s == Sibling(old(panes), w)
    {
      var p := panes[w].parent.value;
      assert Linked(panes, w) && Linked(panes, p);
      var cs := panes[p].children;
      s := if panes[cs[0]].id == panes[w].id then cs[1] else cs[0];
      var g := panes[p].parent;
      if g.Some? {
        assert Linked(panes, g.value);
      }
      var float := g.Some? && panes[g.value].dimension == Some(Width);
      panes := panes[s := panes[s].(parent := g, floating := float)];
      if g.Some? && |panes[g.value].children| > 0 {
        var gc := panes[g.value].children;
        var pos := if panes[gc[0]].id == panes[p].id then 0 else 1;
        panes := panes[g.value := panes[g.value].(children := gc[pos := s])];
      }
      panes := panes[p := panes[p].(children := [])];
    }

    /**
     * `Window.prototype.size(pixels, dimension)` on pane `h`: pass the delta
     * on to the children, then grow `h` itself unless it is fixed.
     */
    method Size(h: Handle, pixels: real, dim: Dim)
      requires WellFormed(panes) && h < |panes|
      modifies this`panes
      ensures panes == Sized(old(panes), h, pixels, dim)
      decreases |panes| - h, 2
    {
      ghost var ps := panes;
      var original := Extent(panes[h], dim);
      SizeChildren(h, pixels, dim);
      if !panes[h].options.fixed {
        panes := panes[h := WithExtent(panes[h], dim, original + pixels)];
      }
      SameShapeWellFormed(ps, panes);
    }

    /**
     * The first half of `size`: read the children's extents and note the last
     * fixed child, then size the other child by the whole delta, or both by
     * their shares; with a zero total along the split axis nothing changes.
     */
    method SizeChildren(h: Handle, pixels: real, dim: Dim)
      requires WellFormed(panes) && h < |panes|
      modifies this`panes
      ensures panes == SizedChildren(old(panes), h, pixels, dim)
      decreases |panes| - h, 1
    {
      ghost var ps := panes;
      var children := panes[h].children;
      assert Linked(panes, h);
      if |children| == 2 {
        var fixed, dims := Survey(h, dim);
        if fixed.Some? {
          SizedChildrenFixed(ps, h, pixels, dim);
          Size(children[1 - fixed.value], pixels, dim);
        } else {
          ShareOut(h, pixels, dim, dims);
        }
      } else {
        assert SizedChildren(ps, h, pixels, dim) == ps;
      }
    }

    /**
     * The first `forEach` of `size` over the two children of `h`: their
     * extents along `dim`, in order, and the LAST child configured `fixed`.
     */
    method Survey(h: Handle, dim: Dim) returns (fixed: Option<nat>, dims: seq<real>)
      requires WellFormed(panes) && h < |panes| && |panes[h].children| == 2
      ensures |dims| == 2
      ensures dims[0] == Extent(panes[Child(panes, h, 0)], dim) && dims[1] == Extent(panes[Child(panes, h, 1)], dim)
      ensures fixed.Some? <==> panes[Child(panes, h, 0)].options.fixed || panes[Child(panes, h, 1)].options.fixed
      ensures fixed.Some? ==> fixed.value < 2 && panes[Child(panes, h, fixed.value)].options.fixed
      ensures fixed == Some(0) ==> !panes[Child(panes, h, 1)].options.fixed
      ensures fixed == FixedChild(panes, h)
    {
      var children := panes[h].children;
      assert Linked(panes, h);
      fixed := None;
      dims := [];
      for i := 0 to 2
        invariant |dims| == i
        invariant forall j :: 0 <= j < i ==> dims[j] == Extent(panes[children[j]], dim)
        invariant fixed.Some? ==> fixed.value < i && panes[children[fixed.value]].options.fixed
        invariant forall j :: 0 <= j < i && panes[children[j]].options.fixed ==> fixed.Some? && j <= fixed.value
      {
        if panes[children[i]].options.fixed {
          fixed := Some(i);
        }
        dims := dims + [Extent(panes[children[i]], dim)];
      }
    }

    /**
     * The second `forEach` of `size`, over the two children of `h` when neither
     * is fixed: each child is sized by its ratio of `pixels` along the split
     * axis and by all of `pixels` across it; `dims` are the extents read first.
     * With a zero total along the split axis both ratios are `0 / 0`, every
     * extent below `h` would be set to NaN, and jQuery ignores that.
     */
    method ShareOut(h: Handle, pixels: real, dim: Dim, dims: seq<real>)
      requires WellFormed(panes) && h < |panes| && |panes[h].children| == 2 && FixedChild(panes, h).None? && |dims| == 2
      requires dims[0] == Extent(panes[Child(panes, h, 0)], dim) && dims[1] == Extent(panes[Child(panes, h, 1)], dim)
      modifies this`panes
      ensures panes == SizedChildren(old(panes), h, pixels, dim)
      decreases |panes| - h, 0
    {
      ghost var ps := panes;
      var children := panes[h].children;
      var split := panes[h].dimension == Some(dim);
      var total := dims[0] + dims[1];
      if split && total == 0.0 {
        assert SizedChildren(ps, h, pixels, dim) == ps;
        return;
      }
      SizedChildrenShared(ps, h, pixels, dim);
      ghost var shares := [Share(ps, h, 0, pixels, dim), Share(ps, h, 1, pixels, dim)];
      ghost var first := Sized(ps, children[0], shares[0], dim);
      SizedPairSteps(ps, h, shares[0], shares[1], dim);
      for i := 0 to 2
        invariant WellFormed(panes) && |panes| == |ps|
        invariant i == 0 ==> panes == ps
        invariant i == 1 ==> panes == first
        invariant i == 2 ==> panes == Sized(first, children[1], shares[1], dim)
      {
        var newSize := if split then Portion(dims[i], total, pixels) else pixels;
        ShareFrom(ps, h, i, pixels, dim, dims[i], total);
        Size(children[i], newSize, dim);
      }
    }
  }

  /** The configuration `initRoot` gives the root window. */
  function RootOptions(): Options
  {
    Options(Some(0), Some("root"), true, false, false, true, None, None)
  }

  /**
   * `WindowManager.Window.Divider`: the bar between the two children of a
   * split window and the state of a drag on it.
   */
  class Divider {
    /** The split window whose children the bar separates. */
    var owner: Handle
    /** Whether the bar stands between side-by-side children (a `'width'` split). */
    var vertical: bool
    /** The first child's extent when the bar was built; the owner's page offset from `startDrag` on. */
    var offset: real
    /** The pointer position relative to the owner at the last `move`, if any. */
    var result: Option<real>
    /** Where the drag indicator stands while it is shown. */
    var overlay: Option<real>
    /** Whether the owner's `mousemove` handler is bound; `end` unbinds it from the bar instead, so it stays. */
    var tracking: bool
    /** Whether the owner's `mouseup` handler is bound: from `startDrag` to `end`. */
    var dragging: bool

    /**
     * The bar of split window `h`: it records the first child's extent and,
     * unless `noresize` (as when loading), takes its 5 px from the first child.
     */
    constructor (m: Manager, h: Handle, noresize: bool)
      requires WellFormed(m.panes) && h < |m.panes| && |m.panes[h].children| == 2 && m.panes[h].dimension.Some?
      modifies m`panes
      ensures var ps := old(m.panes);
        var dim := ps[h].dimension.value;
        var first := Child(ps, h, 0);
        && owner == h && vertical == (dim == Width) && offset == Extent(ps[first], dim)
        && m.panes == (if noresize then ps else Sized(ps, first, -DividerThickness, dim))
      ensures result.None? && overlay.None? && !tracking && !dragging
    {
      assert Linked(m.panes, h);
      var dim := m.panes[h].dimension.value;
      var first := m.panes[h].children[0];
      owner := h;
      vertical := dim == Width;
      offset := Extent(m.panes[first], dim);
      result := None;
      overlay := None;
      tracking := false;
      dragging := false;
      new;
      if !noresize {
        m.Size(first, -DividerThickness, dim);
      }
    }

    /**
     * `startDrag`: the owner's page offset along the bar's axis replaces
     * `offset`, the drag indicator is shown at the pointer, and the owner's
     * `mousemove` and `mouseup` handlers are bound.
     */
    method StartDrag(ownerOffset: real, pointer: real)
      modifies this`offset, this`overlay, this`tracking, this`dragging
      ensures offset == ownerOffset && overlay == Some(pointer - ownerOffset)
      ensures tracking && dragging
    {
      offset := ownerOffset;
      overlay := Some(pointer - ownerOffset);
      tracking := true;
      dragging := true;
    }

    /**
     * `move`, run by the bound `mousemove` handler: the pointer position
     * relative to the owner becomes `result`, and the indicator, while shown,
     * follows it.
     */
    method Move(pointer: real)
      requires tracking
      modifies this`result, this`overlay
      ensures result == Some(pointer - offset)
      ensures overlay == if old(overlay).Some? then result else None
    {
      result := Some(pointer - offset);
      if overlay.Some? {
        overlay := result;
      }
    }

    /**
     * `end`, run by the bound `mouseup` handler: the owner's children are
     * resized by the drag (see `Manager.Drag`), the indicator goes and
     * `mouseup` is unbound. An owner that was dissolved lists no children,
     * and reading the first one fails before anything changes.
     */
    method End(m: Manager) returns (r: Result<Option<real>>)
      requires m.Valid() && owner < |m.panes| && dragging
      modifies m`panes, m`events, this`overlay, this`dragging
      ensures m.Valid()
      ensures |old(m.panes)[owner].children| != 2 ==>
        && r == Err(Dissolved) && m.panes == old(m.panes) && m.events == old(m.events)
        && overlay == old(overlay) && dragging
      ensures |old(m.panes)[owner].children| == 2 ==>
        && r.Ok? && r.value == Change(old(m.panes), owner, result)
        && m.panes == Dropped(old(m.panes), owner, result)
        && m.events == old(m.events) + [Dragged(owner, r.value)]
        && overlay.None? && !dragging
    {
      if |m.panes[owner].children| != 2 {
        return Err(Dissolved);
      }
      var changed := m.Drag(owner, result);
      overlay := None;
      dragging := false;
      r := Ok(changed);
    }
  }
}
