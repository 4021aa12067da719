/**
 * The layout codec: the record `save` writes for a pane subtree and the
 * tree `load` rebuilds from such a record, both as values. The JSON text
 * itself is not modelled; a `Record` is the object before `JSON.stringify`
 * and after `JSON.parse`.
 */
module Codec {
  import opened Panes

  /**
   * One node of a saved layout: the pane's configuration, its
   * `dimensions` `[width, height]`, whether it floats, the `exact` axis a
   * fixed sibling pins during loading, and its children.
   */
  datatype Record = Record(
    options: Options,
    width: real,
    height: real,
    floating: bool,
    exact: Option<Dim>,
    children: seq<Record>)

  function RecExtent(r: Record, d: Dim): real
  {
    if d == Width then r.width else r.height
  }

  function WithRecExtent(r: Record, d: Dim, v: real): (q: Record)
    ensures RecExtent(q, d) == v && RecExtent(q, Other(d)) == RecExtent(r, Other(d))
    ensures q.options == r.options && q.floating == r.floating && q.exact == r.exact && q.children == r.children
  {
    if d == Width then r.(width := v) else r.(height := v)
  }

  /** Every node has no children or exactly two: the records `load` can read. */
  ghost predicate Binary(r: Record)
  {
    && (|r.children| == 0 || |r.children| == 2)
    && forall i :: 0 <= i < |r.children| ==> Binary(r.children[i])
  }

  /** A binary record with no `exact` pin anywhere: what `save` writes. */
  ghost predicate Plain(r: Record)
  {
    && r.exact.None?
    && (|r.children| == 0 || |r.children| == 2)
    && forall i :: 0 <= i < |r.children| ==> Plain(r.children[i])
  }

  /** No child anywhere in the record is configured `fixed`. */
  ghost predicate Unpinned(r: Record)
  {
    && (|r.children| == 2 ==> !r.children[0].options.fixed && !r.children[1].options.fixed)
    && forall i :: 0 <= i < |r.children| ==> Unpinned(r.children[i])
  }

  /** Same configurations, float flags and branching, node for node. */
  ghost predicate SameTree(a: Record, b: Record)
  {
    && a.options == b.options
    && a.floating == b.floating
    && |a.children| == |b.children|
    && forall i :: 0 <= i < |a.children| ==> SameTree(a.children[i], b.children[i])
  }

  function Depth(r: Record): nat
  {
    if |r.children| == 2 then 1 + Max(Depth(r.children[0]), Depth(r.children[1])) else 0
  }

  function Max(a: nat, b: nat): nat
  {
    if a < b then b else a
  }

  /**
   * The split axis `load` gives a node with children: `'width'` when its
   * first child's record floats, `'height'` otherwise.
   */
  function LoadAxis(r: Record): Dim
    requires |r.children| > 0
  {
    if r.children[0].floating then Width else Height
  }

  /**
   * `save`'s traversal from pane `h`: configuration, extents, float flag
   * and, for an internal pane, its two children in order. The result is
   * always a record `load` accepts.
   */
  ghost function Encode(ps: seq<Pane>, h: Handle): (r: Record)
    requires WellFormed(ps) && h < |ps|
    ensures Plain(r)
    ensures r.options == ps[h].options && r.width == ps[h].width && r.height == ps[h].height
    ensures |r.children| == |ps[h].children|
    decreases |ps| - h
  {
    assert Linked(ps, h);
    var p := ps[h];
    Record(p.options, p.width, p.height, p.floating, None,
      if |p.children| == 2 then [Encode(ps, p.children[0]), Encode(ps, p.children[1])] else [])
  }

  /** Proof step: `Encode` at a pane with two children, one level unfolded. */
  lemma EncodeNode(ps: seq<Pane>, h: Handle, c0: Handle, c1: Handle)
    requires WellFormed(ps) && h < |ps| && ps[h].children == [c0, c1]
    ensures c0 < |ps| && c1 < |ps|
    ensures Encode(ps, h) == Record(ps[h].options, ps[h].width, ps[h].height, ps[h].floating, None, [Encode(ps, c0), Encode(ps, c1)])
  {
    assert Linked(ps, h);
  }

  /**
   * `Encode` from `c` reads only panes allocated from `c` on, so an arena that
   * agrees with `ps` there encodes `c` identically.
   */
  lemma {:induction false} EncodeAgree(ps: seq<Pane>, qs: seq<Pane>, c: Handle)
    requires WellFormed(ps) && WellFormed(qs) && c < |ps| <= |qs|
    requires forall x :: c <= x < |ps| ==> qs[x] == ps[x]
    ensures Encode(qs, c) == Encode(ps, c)
    decreases |ps| - c
  {
    assert Linked(ps, c);
    if |ps[c].children| == 2 {
      EncodeAgree(ps, qs, ps[c].children[0]);
      EncodeAgree(ps, qs, ps[c].children[1]);
    }
  }

  /** Number of nodes in a record: the windows `load` creates for it. */
  function Nodes(r: Record): (n: nat)
    ensures n >= 1
    decreases r
  {
    1 + (if |r.children| == 2 then Nodes(r.children[0]) + Nodes(r.children[1]) else 0)
  }

  /**
   * The two `forEach` passes `load` makes over a node's children: once a
   * child is seen to be fixed, the OTHER child's extent along `pos` becomes
   * `total` minus this child's; then, if any child was fixed, both are pinned
   * to their literal extent along `pos` with `exact`.
   */
  function Pinned(cs: seq<Record>, pos: Dim, total: real): (out: seq<Record>)
    requires |cs| == 2
    ensures |out| == 2
    ensures forall i :: 0 <= i < 2 ==>
      && out[i].options == cs[i].options && out[i].floating == cs[i].floating
      && out[i].children == cs[i].children && RecExtent(out[i], Other(pos)) == RecExtent(cs[i], Other(pos))
  {
    var f0, f1 := cs[0].options.fixed, cs[1].options.fixed;
    if !f0 && !f1 then cs
    else
      var second := if f0 then WithRecExtent(cs[1], pos, total - RecExtent(cs[0], pos)) else cs[1];
      var first := WithRecExtent(cs[0], pos, total - RecExtent(second, pos));
      [first.(exact := Some(pos)), second.(exact := Some(pos))]
  }

  /**
   * The two `forEach` passes as `load` runs them over the parsed children:
   * the first carries the sticky `fixed` flag and rewrites the sibling's
   * extent along `pos` at each child once the flag is up; the second stamps
   * `exact`.
   */
  method PinFixed(cs: seq<Record>, pos: Dim, total: real) returns (out: seq<Record>)
    requires |cs| == 2
    ensures out == Pinned(cs, pos, total)
  {
    out := cs;
    var fixed := false;
    for i := 0 to 2
      invariant |out| == 2
      invariant fixed == ((i >= 1 && cs[0].options.fixed) || (i == 2 && cs[1].options.fixed))
      invariant i == 0 ==> out == cs && !fixed
      invariant i == 1 ==> out[0] == cs[0]
      invariant i == 1 ==> out[1] == if cs[0].options.fixed then WithRecExtent(cs[1], pos, total - RecExtent(cs[0], pos)) else cs[1]
      invariant i == 2 && fixed ==> out[0] == WithRecExtent(cs[0], pos, total - RecExtent(out[1], pos))
      invariant i == 2 && !fixed ==> out == cs
      invariant i == 2 ==> out[1] == if cs[0].options.fixed then WithRecExtent(cs[1], pos, total - RecExtent(cs[0], pos)) else cs[1]
    {
      var sibling := if i == 0 then 1 else 0;
      fixed := fixed || out[i].options.fixed;
      if fixed {
        out := out[sibling := WithRecExtent(out[sibling], pos, total - RecExtent(out[i], pos))];
      }
    }
    if fixed {
      var shared := out;
      for i := 0 to 2
        invariant |out| == 2
        invariant forall j :: 0 <= j < 2 ==> out[j] == if j < i then shared[j].(exact := Some(pos)) else shared[j]
      {
        out := out[i := out[i].(exact := Some(pos))];
      }
    }
  }

  /**
   * The fixed-sibling rule of `load`: with a fixed child, the pair exactly
   * fills `total` along `pos` (no room is left for the divider bar), the fixed
   * child keeps its saved extent, and both children are pinned with `exact`.
   */
  lemma PinnedRule(cs: seq<Record>, pos: Dim, total: real)
    requires |cs| == 2
    ensures var out := Pinned(cs, pos, total);
      && (!cs[0].options.fixed && !cs[1].options.fixed ==> out == cs)
      && (cs[0].options.fixed || cs[1].options.fixed ==>
            && RecExtent(out[0], pos) + RecExtent(out[1], pos) == total
            && out[0].exact == Some(pos) && out[1].exact == Some(pos))
      && (cs[0].options.fixed ==> RecExtent(out[0], pos) == RecExtent(cs[0], pos))
      && (!cs[0].options.fixed && cs[1].options.fixed ==> RecExtent(out[1], pos) == RecExtent(cs[1], pos))
  {
  }

  /** The pinned children are still binary and no deeper than before. */
  lemma PinnedKeepsShape(cs: seq<Record>, pos: Dim, total: real)
    requires |cs| == 2 && Binary(cs[0]) && Binary(cs[1])
    ensures var out := Pinned(cs, pos, total);
      forall i :: 0 <= i < 2 ==> Binary(out[i]) && Depth(out[i]) == Depth(cs[i])
  {
    var out := Pinned(cs, pos, total);
    forall i | 0 <= i < 2 ensures Binary(out[i]) && Depth(out[i]) == Depth(cs[i]) {
      assert out[i].children == cs[i].children;
    }
  }

  /** Extent of a node as `load` sizes it: scaled, unless `exact` pins that axis. */
  function LoadedExtent(r: Record, d: Dim, scale: real): real
  {
    if r.exact == Some(d) then RecExtent(r, d) else RecExtent(r, d) * scale
  }

  /**
   * The children `load` recurses into: the record's children with the
   * fixed-sibling rule applied along the node's split axis, against the
   * extent the node itself was given on that axis.
   */
  function LoadedChildren(rec: Record, sx: real, sy: real): (cs: seq<Record>)
    requires Binary(rec) && |rec.children| == 2
    ensures |cs| == 2
    ensures forall i :: 0 <= i < 2 ==>
      && Binary(cs[i]) && Depth(cs[i]) == Depth(rec.children[i])
      && cs[i].options == rec.children[i].options && cs[i].floating == rec.children[i].floating
      && cs[i].children == rec.children[i].children
  {
    var pos := LoadAxis(rec);
    var total := if pos == Width then LoadedExtent(rec, Width, sx) else LoadedExtent(rec, Height, sy);
    PinnedKeepsShape(rec.children, pos, total);
    Pinned(rec.children, pos, total)
  }

  /**
   * The tree `load` builds from `rec` with per-axis scale factors, written
   * back as the record `save` would produce for it.
   */
  ghost function Rebuilt(rec: Record, sx: real, sy: real): (r: Record)
    requires Binary(rec)
    ensures Plain(r)
    decreases Depth(rec)
  {
    Record(rec.options, LoadedExtent(rec, Width, sx), LoadedExtent(rec, Height, sy), rec.floating, None,
      if |rec.children| == 2 then
        var cs := LoadedChildren(rec, sx, sy);
        [Rebuilt(cs[0], sx, sy), Rebuilt(cs[1], sx, sy)]
      else [])
  }

  /** Proof step: `Rebuilt` at a record with two children, one level unfolded. */
  lemma RebuiltNode(rec: Record, sx: real, sy: real)
    requires Binary(rec) && |rec.children| == 2
    ensures var cs := LoadedChildren(rec, sx, sy);
      Rebuilt(rec, sx, sy) == Record(rec.options, LoadedExtent(rec, Width, sx), LoadedExtent(rec, Height, sy), rec.floating, None,
        [Rebuilt(cs[0], sx, sy), Rebuilt(cs[1], sx, sy)])
  {
  }

  /** Loading keeps every configuration, float flag and branching of the record. */
  lemma {:induction false} RebuiltSameTree(rec: Record, sx: real, sy: real)
    requires Binary(rec)
    ensures SameTree(Rebuilt(rec, sx, sy), rec)
    decreases Depth(rec)
  {
    if |rec.children| == 2 {
      var cs := LoadedChildren(rec, sx, sy);
      RebuiltSameTree(cs[0], sx, sy);
      RebuiltSameTree(cs[1], sx, sy);
      SameTreeSameChildren(Rebuilt(cs[0], sx, sy), cs[0], rec.children[0]);
      SameTreeSameChildren(Rebuilt(cs[1], sx, sy), cs[1], rec.children[1]);
    }
  }

  /** A record `save` writes, with two children, spelled out field by field. */
  lemma PlainNode(t: Record)
    requires Plain(t) && |t.children| == 2
    ensures t == Record(t.options, t.width, t.height, t.floating, None, [t.children[0], t.children[1]])
  {
    assert t.children == [t.children[0], t.children[1]];
  }

  /** Records with the same branching have the same number of nodes. */
  lemma {:induction false} SameTreeNodes(a: Record, b: Record)
    requires SameTree(a, b)
    ensures Nodes(a) == Nodes(b)
    decreases a
  {
    if |a.children| == 2 {
      SameTreeNodes(a.children[0], b.children[0]);
      SameTreeNodes(a.children[1], b.children[1]);
    }
  }

  /** `load` creates one window per node of the record. */
  lemma RebuiltNodes(rec: Record, sx: real, sy: real)
    requires Binary(rec)
    ensures Nodes(Rebuilt(rec, sx, sy)) == Nodes(rec)
  {
    RebuiltSameTree(rec, sx, sy);
    SameTreeNodes(Rebuilt(rec, sx, sy), rec);
  }

  lemma SameTreeSameChildren(a: Record, b: Record, c: Record)
    requires SameTree(a, b)
    requires b.options == c.options && b.floating == c.floating && b.children == c.children
    ensures SameTree(a, c)
  {
  }

  /**
   * Saving and loading into a container of the record's own size gives back
   * the very same record when no child is fixed.
   */
  lemma {:induction false} RoundTripUnscaled(rec: Record)
    requires Plain(rec) && Unpinned(rec)
    ensures Binary(rec) && Rebuilt(rec, 1.0, 1.0) == rec
    decreases Depth(rec)
  {
    PlainIsBinary(rec);
    if |rec.children| == 2 {
      RoundTripUnscaled(rec.children[0]);
      RoundTripUnscaled(rec.children[1]);
      assert [rec.children[0], rec.children[1]] == rec.children;
    }
  }

  lemma {:induction false} PlainIsBinary(r: Record)
    requires Plain(r)
    ensures Binary(r)
    decreases r
  {
    forall i | 0 <= i < |r.children| ensures Binary(r.children[i]) {
      PlainIsBinary(r.children[i]);
    }
  }

  /**
   * The top node of a loaded layout fills the container: its record's own
   * `dimensions` times the container-to-record scale.
   */
  lemma LoadFillsContainer(rec: Record, containerWidth: real, containerHeight: real)
    requires Binary(rec) && rec.exact.None? && rec.width != 0.0 && rec.height != 0.0
    ensures var r := Rebuilt(rec, containerWidth / rec.width, containerHeight / rec.height);
      r.width == containerWidth && r.height == containerHeight
  {
  }
}
