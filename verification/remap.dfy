/**
  The Arduino-style `map` helper of the frame handler
  (`(value - in_min) * (out_max - out_min) / (in_max - in_min) + out_min` on Java
  `int`s), with the promise of its documentation comment: the lower end of the
  input range goes to the lower end of the output range, the upper end to the
  upper end, and values in between to values in between.
 */
module Remap {
  import opened JavaInt

  /** Every operand and intermediate value of `map` is a Java `int`, so the
      model need not describe 32-bit wrap-around. */
  predicate Representable(value: int, inMin: int, inMax: int, outMin: int, outMax: int) {
    && IsInt(value) && IsInt(inMin) && IsInt(inMax) && IsInt(outMin) && IsInt(outMax)
    && IsInt(value - inMin) && IsInt(outMax - outMin) && IsInt(inMax - inMin)
    && IsInt((value - inMin) * (outMax - outMin))
    && (inMax != inMin ==> IsInt(Div((value - inMin) * (outMax - outMin), inMax - inMin) + outMin))
  }

  /** `map(value, in_min, in_max, out_min, out_max)`. An empty input range makes
      Java throw `ArithmeticException`; callers decide what that means. */
  function Map(value: int, inMin: int, inMax: int, outMin: int, outMax: int): (r: int)
    requires inMax != inMin
    requires Representable(value, inMin, inMax, outMin, outMax)
    // the offset from `out_min` is the scaled value divided with Java's
    // truncation, and the result is itself a Java `int`
    ensures IsQuotient((value - inMin) * (outMax - outMin), inMax - inMin, r - outMin)
    ensures IsInt(r)
  {
    Div((value - inMin) * (outMax - outMin), inMax - inMin) + outMin
  }

  /** The ends of the input range go to the ends of the output range, whichever
      way round the ranges are given. */
  lemma MapEndpoints(inMin: int, inMax: int, outMin: int, outMax: int)
    requires inMax != inMin
    requires Representable(inMin, inMin, inMax, outMin, outMax)
    requires Representable(inMax, inMin, inMax, outMin, outMax)
    ensures Map(inMin, inMin, inMax, outMin, outMax) == outMin
    ensures Map(inMax, inMin, inMax, outMin, outMax) == outMax
  {
    MapAtLower(inMin, inMax, outMin, outMax);
    MapAtUpper(inMin, inMax, outMin, outMax);
  }

  /** The lower end of the input range goes to the lower end of the output range. */
  lemma MapAtLower(inMin: int, inMax: int, outMin: int, outMax: int)
    requires inMax != inMin
    requires Representable(inMin, inMin, inMax, outMin, outMax)
    ensures Map(inMin, inMin, inMax, outMin, outMax) == outMin
  {
    var d, e := inMax - inMin, outMax - outMin;
    DivExact(0, d);
    ScaledAt(0, e, d);
  }

  /** The upper end of the input range goes to the upper end of the output range. */
  lemma MapAtUpper(inMin: int, inMax: int, outMin: int, outMax: int)
    requires inMax != inMin
    requires Representable(inMax, inMin, inMax, outMin, outMax)
    ensures Map(inMax, inMin, inMax, outMin, outMax) == outMax
  {
    var d, e := inMax - inMin, outMax - outMin;
    DivExact(e, d);
    ScaledAt(d, e, d);
  }

  /** The scaled offset `v * e` at `v == 0` or `v == d` is an exact multiple of `d`. */
  lemma ScaledAt(v: int, e: int, d: int)
    requires v == 0 || v == d
    ensures v == 0 ==> v * e == 0 * d
    ensures v == d ==> v * e == e * d
  {
  }

  /** Over increasing ranges, `map` never reverses the order of two values,
      even though the quotient is truncated toward zero. */
  lemma MapMonotone(v1: int, v2: int, inMin: int, inMax: int, outMin: int, outMax: int)
    requires inMin < inMax && outMin <= outMax && v1 <= v2
    requires Representable(v1, inMin, inMax, outMin, outMax)
    requires Representable(v2, inMin, inMax, outMin, outMax)
    ensures Map(v1, inMin, inMax, outMin, outMax) <= Map(v2, inMin, inMax, outMin, outMax)
  {
    MulMonotone(v1 - inMin, v2 - inMin, outMax - outMin);
    DivMonotone((v1 - inMin) * (outMax - outMin), (v2 - inMin) * (outMax - outMin), inMax - inMin);
  }

  /** Values in between go to values in between. */
  lemma MapWithinRange(value: int, inMin: int, inMax: int, outMin: int, outMax: int)
    requires inMin < inMax && outMin <= outMax && inMin <= value <= inMax
    requires Representable(value, inMin, inMax, outMin, outMax)
    ensures outMin <= Map(value, inMin, inMax, outMin, outMax) <= outMax
  {
    var d, e := inMax - inMin, outMax - outMin;
    var n := (value - inMin) * e;
    MulMonotone(0, value - inMin, e);
    MulMonotone(value - inMin, d, e);
    DivSign(n, d);
    DivMonotone(n, e * d, d);
    DivExact(e, d);
  }

  /** When the output range is at least as wide as the input range, the mapped
      value lands inside the output range exactly when the value lies inside the
      input range: truncation toward zero cannot pull a value from just outside
      the input range back inside. */
  lemma MapInsideIff(value: int, inMin: int, inMax: int, outMin: int, outMax: int)
    requires inMin < inMax && inMax - inMin <= outMax - outMin
    requires Representable(value, inMin, inMax, outMin, outMax)
    ensures outMin <= Map(value, inMin, inMax, outMin, outMax) <= outMax
        <==> inMin <= value <= inMax
  {
    var d, e := inMax - inMin, outMax - outMin;
    var n := (value - inMin) * e;
    if value < inMin {
      // n <= -e <= -d, so the quotient is at most -1
      MulMonotone(value - inMin, -1, e);
      DivSign(n, d);
    } else if value > inMax {
      // n >= (d + 1) * e >= d * e + d = (e + 1) * d, so the quotient exceeds e
      MulMonotone(d + 1, value - inMin, e);
      assert (d + 1) * e == d * e + e;
      assert (e + 1) * d == e * d + d;
      DivMonotone((e + 1) * d, n, d);
      DivExact(e + 1, d);
    } else {
      MapWithinRange(value, inMin, inMax, outMin, outMax);
    }
  }
}
