/**
 * What `load` builds, as a value: the arena after the `traverse` of a parsed
 * record, the windows it gives dividers, and what is proved about them.
 */
module Loading {
  import opened Panes
  import opened Codec

  /**
   * The window `load` creates for a node of the rebuilt record `t` under
   * `parent`: the node's configuration, float flag and extents, no children
   * yet, its liner in place.
   */
  function Opened(t: Record, parent: Handle): (p: Pane)
    ensures p.parent == Some(parent) && p.children == [] && p.liner && p.dimension.None?
    ensures p.options == t.options && p.floating == t.floating && p.width == t.width && p.height == t.height
  {
    Pane(t.options.id, t.options, Some(parent), [], None, true, t.floating, t.width, t.height)
  }

  /**
   * The arena after `load`'s `traverse` of the rebuilt record `t` under
   * `parent` from `ps`, in `traverse`'s pre-order: the node's window is
   * allocated first; when the node has children it takes the split axis, its
   * children are loaded in order, and it lists them. Its liner element is only
   * detached from the page, so the window keeps its `liner` field and a later
   * `add` can still split it.
   */
  ghost function Unpacked(ps: seq<Pane>, parent: Handle, t: Record): (r: seq<Pane>)
    requires Plain(t)
    ensures |r| == |ps| + Nodes(t)
    decreases t
  {
    var h := |ps|;
    var q := ps + [Opened(t, parent)];
    if |t.children| == 0 then q
    else
      var q1 := q[h := q[h].(dimension := Some(LoadAxis(t)))];
      var q2 := Unpacked(q1, h, t.children[0]);
      var q3 := Unpacked(q2, h, t.children[1]);
      q3[h := q3[h].(children := [|q1|, |q2|])]
  }

  /** Proof step: `Unpacked` at a leaf, unfolded. */
  lemma UnpackedLeaf(ps: seq<Pane>, parent: Handle, t: Record)
    requires Plain(t) && |t.children| == 0
    ensures Unpacked(ps, parent, t) == ps + [Opened(t, parent)]
  {
  }

  /** Pane `k`, allocated from `lo` on, is split and configured to have a divider bar. */
  ghost predicate Divided(ps: seq<Pane>, lo: Handle, k: Handle)
  {
    lo <= k < |ps| && |ps[k].children| == 2 && ps[k].options.divider
  }

  /** Every split pane allocated from `lo` on has an axis. */
  ghost predicate OrientedFrom(ps: seq<Pane>, lo: Handle)
  {
    forall x :: lo <= x < |ps| && |ps[x].children| == 2 ==> ps[x].dimension.Some?
  }

  /**
   * Window `k` is one that `load` gives a divider when record `rec` is
   * loaded from handle `lo` on: a node with children whose configuration
   * does not say `divider: false`.
   */
  ghost predicate DividerAt(rec: Record, lo: Handle, k: Handle)
    decreases rec
  {
    && |rec.children| == 2
    && (|| (k == lo && rec.options.divider)
        || DividerAt(rec.children[0], lo + 1, k)
        || DividerAt(rec.children[1], lo + 1 + Nodes(rec.children[0]), k))
  }

  /** Pinning leaves configurations and branching alone, so the divider windows too. */
  lemma DividerAtPinned(rec: Record, sx: real, sy: real, lo: Handle)
    requires Binary(rec) && |rec.children| == 2
    ensures var cs := LoadedChildren(rec, sx, sy);
      forall k :: DividerAt(rec, lo, k) <==>
        || (k == lo && rec.options.divider)
        || DividerAt(cs[0], lo + 1, k) || DividerAt(cs[1], lo + 1 + Nodes(cs[0]), k)
  {
    var cs := LoadedChildren(rec, sx, sy);
    assert Nodes(cs[0]) == Nodes(rec.children[0]);
    forall k ensures DividerAt(rec, lo, k) <==>
        || (k == lo && rec.options.divider)
        || DividerAt(cs[0], lo + 1, k) || DividerAt(cs[1], lo + 1 + Nodes(cs[0]), k)
    {
      assert DividerAt(cs[0], lo + 1, k) == DividerAt(rec.children[0], lo + 1, k);
      assert DividerAt(cs[1], lo + 1 + Nodes(cs[0]), k) == DividerAt(rec.children[1], lo + 1 + Nodes(cs[0]), k);
    }
  }

  /** Records with the same configurations and branching have the same divider windows. */
  lemma {:induction false} DividerAtSameTree(a: Record, b: Record, lo: Handle, k: Handle)
    requires SameTree(a, b)
    ensures DividerAt(a, lo, k) <==> DividerAt(b, lo, k)
    decreases a
  {
    if |a.children| == 2 {
      DividerAtSameTree(a.children[0], b.children[0], lo + 1, k);
      SameTreeNodes(a.children[0], b.children[0]);
      DividerAtSameTree(a.children[1], b.children[1], lo + 1 + Nodes(a.children[0]), k);
    }
  }

  /** Loading never touches a pane allocated before it, and hangs the new window from `parent`. */
  lemma {:induction false} UnpackedPrefix(ps: seq<Pane>, parent: Handle, t: Record)
    requires Plain(t)
    ensures var r := Unpacked(ps, parent, t);
      forall x :: 0 <= x < |ps| ==> r[x] == ps[x]
    ensures var r := Unpacked(ps, parent, t);
      && r[|ps|].parent == Some(parent) && r[|ps|].options == t.options
      && r[|ps|].floating == t.floating && |r[|ps|].children| == |t.children|
    decreases t
  {
    var h := |ps|;
    if |t.children| == 2 {
      var q := ps + [Opened(t, parent)];
      var q1 := q[h := q[h].(dimension := Some(LoadAxis(t)))];
      var q2 := Unpacked(q1, h, t.children[0]);
      UnpackedPrefix(q1, h, t.children[0]);
      UnpackedPrefix(q2, h, t.children[1]);
    }
  }

  /** Loading under an existing pane of a well-formed arena keeps it well-formed. */
  lemma {:induction false} UnpackedShape(ps: seq<Pane>, parent: Handle, t: Record)
    requires WellFormed(ps) && parent < |ps| && Plain(t)
    ensures WellFormed(Unpacked(ps, parent, t))
    decreases t
  {
    var h := |ps|;
    var q := ps + [Opened(t, parent)];
    PushLeafWellFormed(ps, Opened(t, parent));
    if |t.children| == 2 {
      var q1 := q[h := q[h].(dimension := Some(LoadAxis(t)))];
      RelabelWellFormed(q, h, q1[h]);
      var q2 := Unpacked(q1, h, t.children[0]);
      UnpackedShape(q1, h, t.children[0]);
      UnpackedShape(q2, h, t.children[1]);
      UnpackedPrefix(q1, h, t.children[0]);
      UnpackedPrefix(q2, h, t.children[1]);
      AdoptWellFormed(Unpacked(q2, h, t.children[1]), h, |q1|, |q2|);
    }
  }

  /** Every split window `load` creates has an axis. */
  lemma {:induction false} UnpackedOriented(ps: seq<Pane>, parent: Handle, t: Record)
    requires Plain(t)
    ensures OrientedFrom(Unpacked(ps, parent, t), |ps|)
    decreases t
  {
    var h := |ps|;
    if |t.children| == 2 {
      var q := ps + [Opened(t, parent)];
      var q1 := q[h := q[h].(dimension := Some(LoadAxis(t)))];
      var q2 := Unpacked(q1, h, t.children[0]);
      var r := Unpacked(ps, parent, t);
      UnpackedOriented(q1, h, t.children[0]);
      UnpackedOriented(q2, h, t.children[1]);
      UnpackedPrefix(q1, h, t.children[0]);
      UnpackedPrefix(q2, h, t.children[1]);
      assert r[h].dimension == q1[h].dimension;
      forall x | h < x < |r| && |r[x].children| == 2 ensures r[x].dimension.Some? {
        if x < |q2| {
          assert r[x] == q2[x];
        }
      }
    }
  }

  /**
   * Every window `load` creates keeps its liner: a split window's liner is
   * only detached from the page, so `add` can still split any of them.
   */
  lemma {:induction false} UnpackedLined(ps: seq<Pane>, parent: Handle, t: Record)
    requires Plain(t)
    ensures var r := Unpacked(ps, parent, t);
      forall x :: |ps| <= x < |r| ==> r[x].liner
    decreases t
  {
    var h := |ps|;
    if |t.children| == 2 {
      var q := ps + [Opened(t, parent)];
      var q1 := q[h := q[h].(dimension := Some(LoadAxis(t)))];
      var q2 := Unpacked(q1, h, t.children[0]);
      var q3 := Unpacked(q2, h, t.children[1]);
      UnpackedLined(q1, h, t.children[0]);
      UnpackedLined(q2, h, t.children[1]);
      UnpackedPrefix(q1, h, t.children[0]);
      UnpackedPrefix(q2, h, t.children[1]);
      UnpackedSplit(ps, parent, t);
      assert q3[h].liner;
      forall x | h < x < |q3| ensures q3[x].liner {
        if x < |q2| {
          assert q3[x] == q2[x];
        }
      }
    }
  }

  /**
   * In every split window `load` creates, the first child floats exactly
   * when the window is split along `'width'`: the axis is read from that very
   * child's float flag.
   */
  lemma {:induction false} UnpackedFloats(ps: seq<Pane>, parent: Handle, t: Record)
    requires WellFormed(ps) && parent < |ps| && Plain(t)
    ensures FloatsFrom(Unpacked(ps, parent, t), |ps|)
    decreases t
  {
    var h := |ps|;
    if |t.children| == 2 {
      var q := ps + [Opened(t, parent)];
      var q1 := q[h := q[h].(dimension := Some(LoadAxis(t)))];
      PushLeafWellFormed(ps, Opened(t, parent));
      RelabelWellFormed(q, h, q1[h]);
      var q2 := Unpacked(q1, h, t.children[0]);
      var q3 := Unpacked(q2, h, t.children[1]);
      UnpackedShape(q1, h, t.children[0]);
      UnpackedShape(q2, h, t.children[1]);
      UnpackedFloats(q1, h, t.children[0]);
      UnpackedFloats(q2, h, t.children[1]);
      UnpackedPrefix(q1, h, t.children[0]);
      UnpackedPrefix(q2, h, t.children[1]);
      UnpackedSplit(ps, parent, t);
      FloatsJoined(q2, q3, Unpacked(ps, parent, t), h, LoadAxis(t));
    }
  }

  /**
   * Listing the two loaded children at `h`, split along `axis`, keeps the
   * float flags in line when the first child floats exactly for `'width'`.
   */
  lemma FloatsJoined(q2: seq<Pane>, q3: seq<Pane>, r: seq<Pane>, h: Handle, axis: Dim)
    requires WellFormed(q2) && WellFormed(q3) && h + 1 < |q2| <= |q3|
    requires FloatsFrom(q2, h + 1) && FloatsFrom(q3, |q2|)
    requires forall x :: 0 <= x < |q2| ==> q3[x] == q2[x]
    requires q2[h].dimension == Some(axis) && q2[h + 1].floating == (axis == Width)
    requires r == q3[h := q3[h].(children := [h + 1, |q2|])]
    ensures FloatsFrom(r, h)
  {
    forall x | h <= x < |r| && |r[x].children| == 2 && r[x].children[0] < |r|
      ensures r[r[x].children[0]].floating == (r[x].dimension == Some(Width))
    {
      if x == h {
      } else if x < |q2| {
        assert Linked(q2, x);
      } else {
        assert Linked(q3, x);
      }
    }
  }

  /**
   * `save` after `load`: the record written for the loaded window is the
   * very record it was loaded from.
   */
  lemma {:induction false} UnpackedEncodes(ps: seq<Pane>, parent: Handle, t: Record)
    requires WellFormed(ps) && parent < |ps| && Plain(t)
    ensures var r := Unpacked(ps, parent, t);
      WellFormed(r) && |ps| < |r| && Encode(r, |ps|) == t
    decreases t
  {
    UnpackedShape(ps, parent, t);
    var h := |ps|;
    var q := ps + [Opened(t, parent)];
    PushLeafWellFormed(ps, Opened(t, parent));
    if |t.children| == 2 {
      var q1 := q[h := q[h].(dimension := Some(LoadAxis(t)))];
      RelabelWellFormed(q, h, q1[h]);
      var q2 := Unpacked(q1, h, t.children[0]);
      var q3 := Unpacked(q2, h, t.children[1]);
      UnpackedEncodes(q1, h, t.children[0]);
      UnpackedEncodes(q2, h, t.children[1]);
      UnpackedPrefix(q1, h, t.children[0]);
      UnpackedPrefix(q2, h, t.children[1]);
      EncodeAgree(q2, q3, |q1|);
      JoinedEncodes(q3, Unpacked(ps, parent, t), h, |q1|, |q2|, t.children[0], t.children[1]);
      PlainNode(t);
    } else {
      assert Linked(q, h);
    }
  }

  /**
   * A window whose two children encode as `t0` and `t1` encodes, once it
   * lists them, as its own fields over `[t0, t1]`.
   */
  lemma JoinedEncodes(q3: seq<Pane>, r: seq<Pane>, h: Handle, c0: Handle, c1: Handle, t0: Record, t1: Record)
    requires WellFormed(q3) && WellFormed(r) && h < c0 < c1 < |q3|
    requires r == q3[h := q3[h].(children := [c0, c1])]
    requires Encode(q3, c0) == t0 && Encode(q3, c1) == t1
    ensures Encode(r, h) == Record(q3[h].options, q3[h].width, q3[h].height, q3[h].floating, None, [t0, t1])
  {
    EncodeAgree(q3, r, c0);
    EncodeAgree(q3, r, c1);
    EncodeNode(r, h, c0, c1);
  }

  /** Proof step: `Unpacked` at a node with children, one level unfolded. */
  lemma UnpackedSplit(ps: seq<Pane>, parent: Handle, t: Record)
    requires Plain(t) && |t.children| == 2
    ensures var h := |ps|;
      var q := ps + [Opened(t, parent)];
      var q1 := q[h := q[h].(dimension := Some(LoadAxis(t)))];
      var q2 := Unpacked(q1, h, t.children[0]);
      var q3 := Unpacked(q2, h, t.children[1]);
      Unpacked(ps, parent, t) == q3[h := q3[h].(children := [h + 1, |q2|])]
  {
  }

  /** One pane allocated before a load, untouched by it. */
  lemma UnpackedKeeps(ps: seq<Pane>, parent: Handle, t: Record, x: Handle)
    requires Plain(t) && x < |ps|
    ensures Unpacked(ps, parent, t)[x] == ps[x]
  {
    UnpackedPrefix(ps, parent, t);
  }

  /**
   * Listing the two loaded children at `h` makes `h` split, and leaves each
   * child's windows divided exactly where they were.
   */
  lemma DividedJoined(q2: seq<Pane>, q3: seq<Pane>, h: Handle, k: Handle)
    requires h < |q2| <= |q3| && q3[h] == q2[h]
    requires h < k < |q2| ==> q3[k] == q2[k]
    ensures Divided(q3[h := q3[h].(children := [h + 1, |q2|])], h, k) <==>
      || (k == h && q2[h].options.divider) || Divided(q2, h + 1, k) || Divided(q3, |q2|, k)
  {
  }

  /**
   * The windows of the loaded tree that end up with a divider are exactly
   * the split ones configured for a bar.
   */
  lemma {:induction false} UnpackedDividers(ps: seq<Pane>, parent: Handle, t: Record, k: Handle)
    requires Plain(t)
    ensures DividerAt(t, |ps|, k) <==> Divided(Unpacked(ps, parent, t), |ps|, k)
    decreases t
  {
    var h := |ps|;
    if |t.children| == 2 {
      var q := ps + [Opened(t, parent)];
      var q1 := q[h := q[h].(dimension := Some(LoadAxis(t)))];
      var q2 := Unpacked(q1, h, t.children[0]);
      var q3 := Unpacked(q2, h, t.children[1]);
      UnpackedDividers(q1, h, t.children[0], k);
      UnpackedDividers(q2, h, t.children[1], k);
      UnpackedKeeps(q1, h, t.children[0], h);
      UnpackedKeeps(q2, h, t.children[1], h);
      if h < k < |q2| {
        UnpackedKeeps(q2, h, t.children[1], k);
      }
      UnpackedSplit(ps, parent, t);
      DividersCombine(t, h, k, |q1|, q2, q3, Unpacked(ps, parent, t));
    } else {
      assert !Divided(Unpacked(ps, parent, t), h, k);
    }
  }

  lemma DividersCombine(t: Record, h: Handle, k: Handle, lo: Handle, q2: seq<Pane>, q3: seq<Pane>, r: seq<Pane>)
    requires |t.children| == 2 && lo == h + 1 && |q2| == lo + Nodes(t.children[0])
    requires DividerAt(t.children[0], lo, k) <==> Divided(q2, lo, k)
    requires DividerAt(t.children[1], |q2|, k) <==> Divided(q3, |q2|, k)
    requires h < |q2| <= |q3| && q3[h] == q2[h] && q2[h].options == t.options
    requires h < k < |q2| ==> q3[k] == q2[k]
    requires r == q3[h := q3[h].(children := [h + 1, |q2|])]
    ensures DividerAt(t, h, k) <==> Divided(r, h, k)
  {
    DividedJoined(q2, q3, h, k);
  }
}
