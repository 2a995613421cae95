/**
  Colour ranges of the frame handler (`initView`): the lower and upper colour
  configured for the table, and again for the ball, become an OpenCV threshold
  pair in HSV with hue in half degrees, plus a flag saying whether the range
  is to be applied to the hue-rotated copy of the frame.

  The selection a range makes is modelled on single HSV pixels: `Core.inRange`
  keeps a pixel when every channel lies between the two bounds, inclusive. The
  hue-rotated copy is obtained in the source by inverting the frame in RGB
  before converting to HSV; inverting every channel turns a hue by 180 degrees,
  which this model takes to be exactly `(h + 90) % 180` in half degrees.
 */
module ColorRanges {
  import opened JavaInt

  /** A configured colour as the settings hand it over: hue in degrees, in
      [0, 360), saturation and value already on OpenCV's integer scale. */
  datatype HsvColor = HsvColor(hue: real, saturation: int, value: int)

  /** One OpenCV `Scalar` threshold in HSV, hue in half degrees. */
  datatype Bound = Bound(hue: int, saturation: int, value: int)

  /** The thresholds for one object, and whether they apply to the hue-rotated frame. */
  datatype ColorRange = ColorRange(lower: Bound, upper: Bound, inverted: bool)

  /** One pixel of an OpenCV 8-bit HSV frame. */
  datatype Pixel = Pixel(hue: int, saturation: int, value: int)

  predicate ValidHue(c: HsvColor) {
    0.0 <= c.hue < 360.0
  }

  predicate ValidPixel(p: Pixel) {
    0 <= p.hue < 180
  }

  /** `(int) (hue / 2)`: a hue in degrees on OpenCV's half-degree scale. */
  function HalfDegrees(hue: real): (h: int)
    requires 0.0 <= hue < 360.0
    ensures 0 <= h < 180
  {
    Trunc(hue / 2.0)
  }

  /** The rule `initView` applies to the table colours and, identically, to the
      ball colours: equal hues mean "any hue", a lower hue above the upper one
      means a range wrapping through 0 degrees, which is shifted by 90 half
      degrees and flagged for the hue-rotated frame; otherwise the hues are
      halved. Saturation and value bounds are copied from the lower and upper
      colour respectively. */
  function DeriveRange(lo: HsvColor, hi: HsvColor): (r: ColorRange)
    requires ValidHue(lo) && ValidHue(hi)
    ensures r.inverted <==> lo.hue > hi.hue
    ensures r.lower.saturation == lo.saturation && r.lower.value == lo.value
    ensures r.upper.saturation == hi.saturation && r.upper.value == hi.value
  {
    if lo.hue == hi.hue then
      ColorRange(Bound(0, lo.saturation, lo.value), Bound(179, hi.saturation, hi.value), false)
    else if lo.hue > hi.hue then
      ColorRange(Bound(HalfDegrees(lo.hue) - 90, lo.saturation, lo.value),
                 Bound(HalfDegrees(hi.hue) + 90, hi.saturation, hi.value), true)
    else
      ColorRange(Bound(HalfDegrees(lo.hue), lo.saturation, lo.value),
                 Bound(HalfDegrees(hi.hue), hi.saturation, hi.value), false)
  }

  /** Hue of a pixel after the frame has been inverted in RGB. */
  function RotatedHue(h: int): int
    requires 0 <= h < 180
  {
    (h + 90) % 180
  }

  /** The hue test of `Core.inRange` against the frame the range is meant for. */
  predicate HueSelected(r: ColorRange, h: int)
    requires 0 <= h < 180
  {
    var h' := if r.inverted then RotatedHue(h) else h;
    r.lower.hue <= h' <= r.upper.hue
  }

  /** `Core.inRange` on one pixel of the normal or the hue-rotated frame. */
  predicate Selects(r: ColorRange, p: Pixel)
    requires ValidPixel(p)
  {
    && HueSelected(r, p.hue)
    && r.lower.saturation <= p.saturation <= r.upper.saturation
    && r.lower.value <= p.value <= r.upper.value
  }

  /** The hues the user means by a lower and an upper colour: the arc from the
      lower hue up to the upper hue, wrapping through 0 degrees when the lower
      hue is the larger, and the whole circle when the two are equal. */
  predicate HueInArc(lo: HsvColor, hi: HsvColor, h: int)
    requires ValidHue(lo) && ValidHue(hi)
  {
    var l, u := HalfDegrees(lo.hue), HalfDegrees(hi.hue);
    if lo.hue == hi.hue then true
    else if lo.hue < hi.hue then l <= h <= u
    else l <= h || h <= u
  }

  /** The pixels the user means by a lower and an upper colour. */
  predicate Intended(lo: HsvColor, hi: HsvColor, p: Pixel)
    requires ValidHue(lo) && ValidHue(hi)
  {
    && HueInArc(lo, hi, p.hue)
    && lo.saturation <= p.saturation <= hi.saturation
    && lo.value <= p.value <= hi.value
  }

  /** Equal hues select every hue, gated by saturation and value alone; a lower
      hue below the upper one selects exactly the hues between them. */
  lemma NotInvertedSelectsArc(lo: HsvColor, hi: HsvColor, p: Pixel)
    requires ValidHue(lo) && ValidHue(hi) && ValidPixel(p)
    requires lo.hue <= hi.hue
    ensures !DeriveRange(lo, hi).inverted
    ensures Selects(DeriveRange(lo, hi), p) <==> Intended(lo, hi, p)
  {
  }

  /** The half-degree hue bounds of a wrap-around range, as `HalfDegrees`
      gives them, are such that the inverted encoding reproduces the arc. */
  predicate WrapEncodable(l: int, u: int) {
    || (u < 90 <= l)
    || (l == u == 89)
    || (l == u == 90)
  }

  /** The inverted encoding `[l - 90, u + 90]` on rotated hues, against the
      wrap-around arc `h >= l || h <= u`, for half-degree bounds `u <= l`. The
      two agree on every hue exactly when `WrapEncodable(l, u)`. */
  lemma {:induction false} WrapEncodingIff(l: int, u: int)
    requires 0 <= u <= l < 180
    ensures (forall h | 0 <= h < 180 :: (l - 90 <= RotatedHue(h) <= u + 90) == (l <= h || h <= u))
        <==> WrapEncodable(l, u)
  {
    if WrapEncodable(l, u) {
      forall h | 0 <= h < 180
        ensures (l - 90 <= RotatedHue(h) <= u + 90) == (l <= h || h <= u)
      {
        if h >= 90 {
          assert RotatedHue(h) == h - 90;
        } else {
          assert RotatedHue(h) == h + 90;
        }
      }
    } else {
      // a hue inside the arc that the encoding misses
      var h := if u >= 90 then 90 else if l > u then l else u + 1;
      if h >= 90 {
        assert RotatedHue(h) == h - 90;
      } else {
        assert RotatedHue(h) == h + 90;
      }
      assert (l - 90 <= RotatedHue(h) <= u + 90) != (l <= h || h <= u);
    }
  }

  /** A lower hue above the upper one gives an inverted range whose selection on
      the hue-rotated frame is the intended wrap-around arc exactly when the
      half-degree bounds are `WrapEncodable`: when the lower hue is at least 180
      degrees and the upper one below, and in two single-value corner cases. */
  lemma InvertedSelectsArcIff(lo: HsvColor, hi: HsvColor)
    requires ValidHue(lo) && ValidHue(hi)
    requires lo.hue > hi.hue
    ensures DeriveRange(lo, hi).inverted
    ensures (forall h | 0 <= h < 180 :: HueSelected(DeriveRange(lo, hi), h) == HueInArc(lo, hi, h))
        <==> WrapEncodable(HalfDegrees(lo.hue), HalfDegrees(hi.hue))
  {
    var l, u := HalfDegrees(lo.hue), HalfDegrees(hi.hue);
    var r := DeriveRange(lo, hi);
    TruncMonotone(hi.hue / 2.0, lo.hue / 2.0);
    WrapEncodingIff(l, u);
    assert forall h | 0 <= h < 180 ::
      && HueSelected(r, h) == (l - 90 <= RotatedHue(h) <= u + 90)
      && HueInArc(lo, hi, h) == (l <= h || h <= u);
  }

  /** What an inverted range does select: on the upper half of the hue axis
      the hues from the lower bound up, on the lower half the hues up to the
      upper bound. So it never selects a hue outside the wrap-around arc, and
      what it misses is the part of the arc on the wrong half. */
  lemma InvertedSelection(lo: HsvColor, hi: HsvColor, h: int)
    requires ValidHue(lo) && ValidHue(hi) && lo.hue > hi.hue && 0 <= h < 180
    ensures HueSelected(DeriveRange(lo, hi), h) <==>
      if h >= 90 then h >= HalfDegrees(lo.hue) else h <= HalfDegrees(hi.hue)
    ensures HueSelected(DeriveRange(lo, hi), h) ==> HueInArc(lo, hi, h)
  {
    if h >= 90 {
      assert RotatedHue(h) == h - 90;
    } else {
      assert RotatedHue(h) == h + 90;
    }
  }

  /** Lower 160 and upper 20 degrees select half-degree hues 0..10 and 90..179,
      and miss 80..89 (160 up to 180 degrees) of the intended arc. */
  lemma WrapExample(h: int)
    requires 0 <= h < 180
    ensures var lo, hi := HsvColor(160.0, 0, 0), HsvColor(20.0, 255, 255);
      && (HueSelected(DeriveRange(lo, hi), h) <==> h <= 10 || 90 <= h)
      && (HueInArc(lo, hi, h) <==> h <= 10 || 80 <= h)
  {
    var lo, hi := HsvColor(160.0, 0, 0), HsvColor(20.0, 255, 255);
    assert HalfDegrees(lo.hue) == 80 && HalfDegrees(hi.hue) == 10;
    InvertedSelection(lo, hi, h);
  }

  /** Membership of the wrap-around arc with half-degree bounds `l` and `u`. */
  predicate InWrap(l: int, u: int, h: int) {
    l <= h || h <= u
  }

  /** When the half-degree bounds are at most one apart, the wrap-around arc is
      the whole circle. */
  lemma AdjacentIsWholeCircle(l: int, u: int, h: int)
    requires 0 <= u && l <= u + 1 && 0 <= h < 180
    ensures InWrap(l, u, h)
  {
  }

  /** When the bounds are further apart and not `WrapEncodable`, the arc is one
      interval on neither hue axis: for every candidate interval `[a, b]` some
      hue is treated differently, on the normal axis and on the rotated one. */
  lemma NoSingleInterval(l: int, u: int, a: int, b: int)
    requires 0 <= u && u + 1 < l < 180 && !WrapEncodable(l, u)
    ensures exists h | 0 <= h < 180 :: (a <= h <= b) != InWrap(l, u, h)
    ensures exists h | 0 <= h < 180 :: (a <= RotatedHue(h) <= b) != InWrap(l, u, h)
  {
    NotOneNormalInterval(l, u, a, b);
    NotOneRotatedInterval(l, u, a, b);
  }

  /** The arc holds hues 0 and 179 but not `u + 1`, which lies between them. */
  lemma NotOneNormalInterval(l: int, u: int, a: int, b: int)
    requires 0 <= u && u + 1 < l < 180
    ensures exists h | 0 <= h < 180 :: (a <= h <= b) != InWrap(l, u, h)
  {
    var g := u + 1;
    if a <= g <= b {
      assert (a <= g <= b) != InWrap(l, u, g);
    } else if a > 0 {
      assert (a <= 0 <= b) != InWrap(l, u, 0);
    } else {
      assert (a <= 179 <= b) != InWrap(l, u, 179);
    }
  }

  /** Rotated, the hues 90 and 89 of the arc sit at 0 and 179, and the missing
      `u + 1` between them. */
  lemma NotOneRotatedInterval(l: int, u: int, a: int, b: int)
    requires 0 <= u && u + 1 < l < 180 && !WrapEncodable(l, u)
    ensures exists h | 0 <= h < 180 :: (a <= RotatedHue(h) <= b) != InWrap(l, u, h)
  {
    var g := u + 1;
    assert RotatedHue(90) == 0 && RotatedHue(89) == 179;
    assert 0 < RotatedHue(g) < 179;
    if a <= RotatedHue(g) <= b {
      assert (a <= RotatedHue(g) <= b) != InWrap(l, u, g);
    } else if a > 0 {
      var r := RotatedHue(90);
      assert (a <= r <= b) != InWrap(l, u, 90);
    } else {
      assert (a <= RotatedHue(89) <= b) != InWrap(l, u, 89);
    }
  }
}
