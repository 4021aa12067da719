/**
 * The value computations of `WindowManager.prototype.edit`: which windows are
 * offered for selection, and which side of a window a pointer position
 * chooses for the new pane, with the size the new pane is given.
 *
 * A window's content box is cut by its two diagonals (scaled to the box's
 * aspect ratio) into four triangles; the triangle the mouse is in names
 * the side, and the pointer's distance from that side is the size. The
 * half-extents are rounded the way JavaScript's `Math.round` rounds.
 */
module EditMode {
  import opened Panes

  /** The `mode` argument of `edit`: adding a pane or deleting one. */
  datatype Mode = Add | Delete

  /** The side chosen for the new pane and its size in pixels. */
  datatype Choice = Choice(position: Position, size: real)

  /** JavaScript's `Math.round`: the nearest integer, halves upward. */
  function Round(v: real): (r: int)
    ensures r as real <= v + 0.5 < r as real + 1.0
  {
    (v + 0.5).Floor
  }

  /**
   * A window takes part in a selection unless deletion is asked for and it
   * is permanent, its options forbid adding, or it has children.
   */
  predicate Eligible(p: Pane, mode: Mode)
  {
    !(mode == Delete && p.options.permanent) && !p.options.noadd && |p.children| == 0
  }

  /** `a` is `b` with some elements left out, the rest in their order. */
  predicate Subsequence(a: seq<Handle>, b: seq<Handle>)
    decreases |b|
  {
    a == [] || (b != [] && if a[0] == b[0] then Subsequence(a[1..], b[1..]) else Subsequence(a, b[1..]))
  }

  /** The windows, in order, over which the selection overlays are laid. */
  function Candidates(ps: seq<Pane>, ws: seq<Handle>, mode: Mode): (r: seq<Handle>)
    requires forall i :: 0 <= i < |ws| ==> ws[i] < |ps|
    ensures |r| <= |ws| && Subsequence(r, ws)
    ensures forall h :: h in r <==> h in ws && Eligible(ps[h], mode)
  {
    if ws == [] then []
    else
      var rest := Candidates(ps, ws[1..], mode);
      if Eligible(ps[ws[0]], mode) then [ws[0]] + rest else rest
  }

  /** Half of a pane's extent, rounded, as `edit` computes it. */
  function Half(extent: real): real
  {
    Round(extent / 2.0) as real
  }

  /** The pointer's distance from side `p` of a box of half-extents `w` by `h`. */
  function EdgeDistance(w: real, h: real, x: real, y: real, p: Position): real
  {
    match p
    case Top => y
    case Bottom => 2.0 * h - y
    case Left => x
    case Right => 2.0 * w - x
  }

  /**
   * The same distance with horizontal offsets scaled by the aspect ratio
   * `h / w`, so that the box becomes a square and its diagonals meet the
   * corners.
   */
  function ScaledDistance(w: real, h: real, x: real, y: real, p: Position): real
    requires w != 0.0
  {
    match p
    case Top => y
    case Bottom => 2.0 * h - y
    case Left => x * (h / w)
    case Right => (2.0 * w - x) * (h / w)
  }

  /** `(2w - x) * (h / w)` is `2h - x * (h / w)`. */
  lemma ScaledRight(w: real, h: real, x: real)
    requires w != 0.0
    ensures (2.0 * w - x) * (h / w) == 2.0 * h - x * (h / w)
  {
    calc {
      (2.0 * w - x) * (h / w);
      2.0 * (w * (h / w)) - x * (h / w);
      { assert w * (h / w) == h; }
      2.0 * h - x * (h / w);
    }
  }

  /**
   * The triangle classifier: the side whose scaled distance from the pointer
   * at `(x, y)` (relative to the window's top-left corner) is smallest, and
   * the pointer's distance from it. A pointer inside the window gives a size
   * that is not negative.
   */
  function Classify(width: real, height: real, x: real, y: real): (r: Choice)
    requires Half(width) != 0.0
    ensures r.size == EdgeDistance(Half(width), Half(height), x, y, r.position)
    ensures forall q :: ScaledDistance(Half(width), Half(height), x, y, r.position)
                        <= ScaledDistance(Half(width), Half(height), x, y, q)
    ensures 0.0 <= x <= 2.0 * Half(width) && 0.0 <= y <= 2.0 * Half(height) ==> 0.0 <= r.size
  {
    var h := Half(height);
    var w := Half(width);
    var aspect := h / w;
    var a := x * aspect > y;
    var b := h * 2.0 - x * aspect > y;
    ScaledRight(w, h, x);
    if a && b then Choice(Top, y)
    else if a && !b then Choice(Right, w * 2.0 - x)
    else if !a && b then Choice(Left, x)
    else Choice(Bottom, h * 2.0 - y)
  }

  /**
   * The new pane never takes more than half of the target along the split
   * axis (half measured by the rounded half-extents).
   */
  lemma ClassifyAtMostHalf(width: real, height: real, x: real, y: real)
    requires Half(width) > 0.0 && Half(height) > 0.0
    ensures var r := Classify(width, height, x, y);
      r.size <= (if r.position == Top || r.position == Bottom then Half(height) else Half(width))
  {
    var h, w := Half(height), Half(width);
    var r := Classify(width, height, x, y);
    var other := match r.position
      case Top => Bottom
      case Bottom => Top
      case Left => Right
      case Right => Left;
    assert ScaledDistance(w, h, x, y, r.position) <= ScaledDistance(w, h, x, y, other);
    ScaledRight(w, h, x);
    if r.position == Left {
      ScaledBelow(w, h, x);
    } else if r.position == Right {
      ScaledBelow(w, h, 2.0 * w - x);
    }
  }

  /** With a positive aspect ratio, `x * (h / w) <= h` bounds `x` by `w`. */
  lemma ScaledBelow(w: real, h: real, x: real)
    requires w > 0.0 && h > 0.0 && x * (h / w) <= h
    ensures x <= w
  {
    var k := h / w;
    assert k > 0.0;
    assert w * k == h;
    assert (x - w) * k <= 0.0;
  }
}
