/**
 * What the sizing recursion promises about one internal pane and its two
 * children: how a delta is shared along the split axis, forwarded across it,
 * and diverted around a fixed child, and that the tiling equation
 * `first + second + divider == parent` survives each of these.
 */
module SizingLaws {
  import opened Panes

  /** The split-axis equation of an internal pane: its two children and the divider fill it. */
  ghost predicate Tiled(ps: seq<Pane>, h: Handle, dim: Dim)
    requires WellFormed(ps) && h < |ps| && |ps[h].children| == 2
  {
    Extent(ps[Child(ps, h, 0)], dim) + Extent(ps[Child(ps, h, 1)], dim) + DividerThickness == Extent(ps[h], dim)
  }

  /** The cross-axis equation: both children span the whole parent. */
  ghost predicate Stacked(ps: seq<Pane>, h: Handle, dim: Dim)
    requires WellFormed(ps) && h < |ps| && |ps[h].children| == 2
  {
    Extent(ps[Child(ps, h, 0)], dim) == Extent(ps[h], dim) && Extent(ps[Child(ps, h, 1)], dim) == Extent(ps[h], dim)
  }

  /**
   * Along the split axis, with no fixed child and a non-zero total, each child
   * receives its share `extent / total * pixels` of the delta.
   */
  lemma ShareAlongSplit(ps: seq<Pane>, h: Handle, pixels: real, dim: Dim)
    requires WellFormed(ps) && h < |ps|
    requires |ps[h].children| == 2 && ps[h].dimension == Some(dim) && FixedChild(ps, h).None?
    requires Extent(ps[Child(ps, h, 0)], dim) + Extent(ps[Child(ps, h, 1)], dim) != 0.0
    ensures var r := Sized(ps, h, pixels, dim);
      var c0, c1 := Child(ps, h, 0), Child(ps, h, 1);
      var d0, d1 := Extent(ps[c0], dim), Extent(ps[c1], dim);
      && Extent(r[c0], dim) == d0 + d0 / (d0 + d1) * pixels
      && Extent(r[c1], dim) == d1 + d1 / (d0 + d1) * pixels
  {
    SharedChildren(ps, h, pixels, dim);
    SplitShares(ps, h, pixels, dim);
  }

  /** The two children's shares add up to the whole delta. */
  lemma SharesSumToDelta(ps: seq<Pane>, h: Handle, pixels: real, dim: Dim)
    requires WellFormed(ps) && h < |ps|
    requires |ps[h].children| == 2 && ps[h].dimension == Some(dim) && FixedChild(ps, h).None?
    requires Extent(ps[Child(ps, h, 0)], dim) + Extent(ps[Child(ps, h, 1)], dim) != 0.0
    ensures var r := Sized(ps, h, pixels, dim);
      var c0, c1 := Child(ps, h, 0), Child(ps, h, 1);
      (Extent(r[c0], dim) - Extent(ps[c0], dim)) + (Extent(r[c1], dim) - Extent(ps[c1], dim)) == pixels
  {
    SharedChildren(ps, h, pixels, dim);
    SharesSum(ps, h, pixels, dim);
  }

  /** The shares of the two children of a split add up to the delta. */
  lemma SharesSum(ps: seq<Pane>, h: Handle, pixels: real, dim: Dim)
    requires WellFormed(ps) && h < |ps| && |ps[h].children| == 2 && ps[h].dimension == Some(dim)
    requires Extent(ps[Child(ps, h, 0)], dim) + Extent(ps[Child(ps, h, 1)], dim) != 0.0
    ensures Share(ps, h, 0, pixels, dim) + Share(ps, h, 1, pixels, dim) == pixels
  {
    SplitShares(ps, h, pixels, dim);
    RatioSplit(Extent(ps[Child(ps, h, 0)], dim), Extent(ps[Child(ps, h, 1)], dim), pixels);
  }

  /** Hence a non-fixed pane that was tiled along its split axis stays tiled. */
  lemma ShareKeepsTiling(ps: seq<Pane>, h: Handle, pixels: real, dim: Dim)
    requires WellFormed(ps) && h < |ps|
    requires |ps[h].children| == 2 && ps[h].dimension == Some(dim) && FixedChild(ps, h).None?
    requires Extent(ps[Child(ps, h, 0)], dim) + Extent(ps[Child(ps, h, 1)], dim) != 0.0
    requires !ps[h].options.fixed && Tiled(ps, h, dim)
    ensures Tiled(Sized(ps, h, pixels, dim), h, dim)
  {
    var c0, c1 := Child(ps, h, 0), Child(ps, h, 1);
    var r := Sized(ps, h, pixels, dim);
    SharesSumToDelta(ps, h, pixels, dim);
    assert Child(r, h, 0) == c0 && Child(r, h, 1) == c1;
  }

  /** The children's extents after a shared delta, before the ratios are summed. */
  lemma SharedChildren(ps: seq<Pane>, h: Handle, pixels: real, dim: Dim)
    requires WellFormed(ps) && h < |ps|
    requires |ps[h].children| == 2 && ps[h].dimension == Some(dim) && FixedChild(ps, h).None?
    requires Extent(ps[Child(ps, h, 0)], dim) + Extent(ps[Child(ps, h, 1)], dim) != 0.0
    ensures var r := Sized(ps, h, pixels, dim);
      var c0, c1 := Child(ps, h, 0), Child(ps, h, 1);
      && Extent(r[c0], dim) == Extent(ps[c0], dim) + Share(ps, h, 0, pixels, dim)
      && Extent(r[c1], dim) == Extent(ps[c1], dim) + Share(ps, h, 1, pixels, dim)
  {
    var c0, c1 := Child(ps, h, 0), Child(ps, h, 1);
    var s0, s1 := Share(ps, h, 0, pixels, dim), Share(ps, h, 1, pixels, dim);
    var inner := SizedPair(ps, h, s0, s1, dim);
    assert SizedChildren(ps, h, pixels, dim) == inner;
    var r := Sized(ps, h, pixels, dim);
    assert r[c0] == inner[c0] && r[c1] == inner[c1];
  }

  /**
   * Along the split axis, with no fixed child and children of total extent
   * zero, the shares are not numbers: only the pane itself grows.
   */
  lemma ZeroTotalKeepsChildren(ps: seq<Pane>, h: Handle, pixels: real, dim: Dim)
    requires WellFormed(ps) && h < |ps|
    requires |ps[h].children| == 2 && ps[h].dimension == Some(dim) && FixedChild(ps, h).None?
    requires Extent(ps[Child(ps, h, 0)], dim) + Extent(ps[Child(ps, h, 1)], dim) == 0.0
    ensures var r := Sized(ps, h, pixels, dim);
      && (forall x :: 0 <= x < |ps| && x != h ==> r[x] == ps[x])
      && Extent(r[h], dim) == Extent(ps[h], dim) + (if ps[h].options.fixed then 0.0 else pixels)
  {
    assert SizedChildren(ps, h, pixels, dim) == ps;
  }

  /** The shares along the split axis are the children's ratios of the delta. */
  lemma SplitShares(ps: seq<Pane>, h: Handle, pixels: real, dim: Dim)
    requires WellFormed(ps) && h < |ps| && |ps[h].children| == 2 && ps[h].dimension == Some(dim)
    requires Extent(ps[Child(ps, h, 0)], dim) + Extent(ps[Child(ps, h, 1)], dim) != 0.0
    ensures var d0, d1 := Extent(ps[Child(ps, h, 0)], dim), Extent(ps[Child(ps, h, 1)], dim);
      && Share(ps, h, 0, pixels, dim) == d0 / (d0 + d1) * pixels
      && Share(ps, h, 1, pixels, dim) == d1 / (d0 + d1) * pixels
  {
  }

  /** The two ratios of a split add up to one, so the two shares add up to the delta. */
  lemma RatioSplit(d0: real, d1: real, pixels: real)
    requires d0 + d1 != 0.0
    ensures d0 / (d0 + d1) * pixels + d1 / (d0 + d1) * pixels == pixels
  {
    var t := d0 + d1;
    assert d0 / t + d1 / t == t / t == 1.0;
    assert d0 / t * pixels + d1 / t * pixels == (d0 / t + d1 / t) * pixels;
  }

  /**
   * Across the split axis, with no fixed child, both children receive the whole
   * delta, so a non-fixed pane whose children span it keeps that property.
   */
  lemma StackAcrossSplit(ps: seq<Pane>, h: Handle, pixels: real, dim: Dim)
    requires WellFormed(ps) && h < |ps|
    requires |ps[h].children| == 2 && ps[h].dimension != Some(dim) && FixedChild(ps, h).None?
    ensures var r := Sized(ps, h, pixels, dim);
      var c0, c1 := Child(ps, h, 0), Child(ps, h, 1);
      && Extent(r[c0], dim) == Extent(ps[c0], dim) + pixels
      && Extent(r[c1], dim) == Extent(ps[c1], dim) + pixels
      && (!ps[h].options.fixed && Stacked(ps, h, dim) ==> Stacked(r, h, dim))
  {
    var c0, c1 := Child(ps, h, 0), Child(ps, h, 1);
    var inner := SizedPair(ps, h, pixels, pixels, dim);
    assert SizedChildren(ps, h, pixels, dim) == inner;
    var r := Sized(ps, h, pixels, dim);
    assert r[c0] == inner[c0] && r[c1] == inner[c1];
  }

  /**
   * With a fixed child, that child's whole subtree is left as it was and the
   * other child takes the entire delta; along the split axis a non-fixed,
   * tiled pane whose other child is flexible stays tiled.
   */
  lemma FixedSiblingAbsorbs(ps: seq<Pane>, h: Handle, pixels: real, dim: Dim)
    requires WellFormed(ps) && h < |ps|
    requires |ps[h].children| == 2 && FixedChild(ps, h).Some?
    ensures var r := Sized(ps, h, pixels, dim);
      var f := Child(ps, h, FixedChild(ps, h).value);
      var k := Child(ps, h, 1 - FixedChild(ps, h).value);
      && (forall x :: 0 <= x < |ps| && Under(ps, x, f) ==> r[x] == ps[x])
      && Extent(r[k], dim) == Extent(ps[k], dim) + (if ps[k].options.fixed then 0.0 else pixels)
      && (ps[h].dimension == Some(dim) && !ps[h].options.fixed && !ps[k].options.fixed && Tiled(ps, h, dim)
          ==> Tiled(r, h, dim))
  {
    var i := FixedChild(ps, h).value;
    var k := Child(ps, h, 1 - i);
    var inner := Sized(ps, k, pixels, dim);
    assert SizedChildren(ps, h, pixels, dim) == inner;
    var r := Sized(ps, h, pixels, dim);
    assert r[k] == inner[k];
    forall x | 0 <= x < |ps| && Under(ps, x, Child(ps, h, i)) ensures r[x] == ps[x] {
      UnderDisjoint(ps, x, h, i);
      UnderAbove(ps, x, Child(ps, h, i));
      assert inner[x] == ps[x];
    }
  }
}
