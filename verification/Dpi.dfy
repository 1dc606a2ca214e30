/** DPI rescaling (`src/settings.rs`) in checked 64-bit arithmetic. */
module Dpi {
  import opened Base

  newtype I32 = x: int | -0x8000_0000 <= x < 0x8000_0000
  newtype U32 = x: int | 0 <= x < 0x1_0000_0000
  newtype I64 = x: int | -0x8000_0000_0000_0000 <= x < 0x8000_0000_0000_0000

  const BASE_DPI: U32 := 96

  function AtLeastBase(dpi: U32): (d: U32)
    ensures d as int == Max(96, dpi as int)
  {
    if dpi < BASE_DPI then BASE_DPI else dpi
  }

  /** `/` on signed integers rounds toward zero. */
  function TruncatingDivision(a: I64, b: I64): I64
    requires b > 0 && a > -0x8000_0000_0000_0000
  {
    QuotientBound(if a >= 0 then a as int else -(a as int), b as int);
    if a >= 0 then a / b else -((-a) / b)
  }

  lemma QuotientBound(a: int, b: int)
    requires a >= 0 && b > 0
    ensures 0 <= a / b <= a
  {
    var q := a / b;
    if q > a {
      MultiplyBoth(1, b, q);
    }
  }

  /** `i32::try_from`, falling back on the bound the sign points to. */
  function Saturated(quotient: I64, negative: bool): I32 {
    if -0x8000_0000 <= quotient < 0x8000_0000 then quotient as I32
    else if negative then -0x8000_0000 else 0x7FFF_FFFF
  }

  lemma ProductBound(value: I32, dpi: U32)
    ensures -0x8000_0000 * (dpi as int) <= value as int * dpi as int <= 0x7FFF_FFFF * (dpi as int)
  {
    MultiplyBoth(-0x8000_0000, value as int, dpi as int);
    MultiplyBoth(value as int, 0x7FFF_FFFF, dpi as int);
  }

  lemma MultiplyBoth(a: int, b: int, factor: int)
    requires a <= b && factor >= 0
    ensures a * factor <= b * factor
  {
    assert (b - a) * factor >= 0;
  }

  /** The type of every subexpression is `I64`: none overflows, the lowest possible one being -2^63 + 1. */
  function Rounded(value: I32, sourceDpi: U32, targetDpi: U32): (rounded: I64)
    requires sourceDpi >= BASE_DPI
    ensures rounded > -0x8000_0000_0000_0000
    ensures rounded as int == value as int * targetDpi as int
                              + if value as int * targetDpi as int >= 0 then sourceDpi as int / 2
                                else -(sourceDpi as int / 2)
  {
    ProductBound(value, targetDpi);
    var numerator: I64 := value as I64 * targetDpi as I64;
    var half: I64 := sourceDpi as I64 / 2;
    if numerator >= 0 then numerator + half else numerator - half
  }

  function ScaleBetweenDpi(value: I32, sourceDpi: U32, targetDpi: U32): I32 {
    var source, target := AtLeastBase(sourceDpi), AtLeastBase(targetDpi);
    var rounded := Rounded(value, source, target);
    Saturated(TruncatingDivision(rounded, source as I64), rounded < 0)
  }

  function ScaleLogical(value: I32, dpi: U32): I32 {
    var numerator: I64 := (ProductBound(value, AtLeastBase(dpi)); value as I64 * AtLeastBase(dpi) as I64);
    var rounded := if numerator >= 0 then numerator + 48 else numerator - 48;
    Saturated(TruncatingDivision(rounded, 96), rounded < 0)
  }

  /** The margin is exactly one: this input reaches -2^63 + 1. */
  lemma LowestIntermediate()
    ensures Rounded(-0x8000_0000, 0xFFFF_FFFF, 0xFFFF_FFFF) == -0x8000_0000_0000_0000 + 1
  {
  }

  /* ----- What is computed ----- */

  /** `n` is the integer nearest to `num / den`, ties going away from zero. */
  predicate IsNearest(n: int, num: int, den: int) {
    && -den <= 2 * (num - n * den) <= den
    && (2 * (num - n * den) == den ==> num < 0)
    && (2 * (num - n * den) == -den ==> num > 0)
  }

  function Clamped(n: int): I32 {
    if n < -0x8000_0000 then -0x8000_0000 else if n > 0x7FFF_FFFF then 0x7FFF_FFFF else n as I32
  }

  lemma NearestApart(m: int, n: int, num: int, den: int)
    requires den > 0 && m < n && IsNearest(m, num, den)
    ensures !IsNearest(n, num, den)
  {
    MultiplyBoth(m + 1, n, den);
  }

  lemma NearestIsUnique(m: int, n: int, num: int, den: int)
    requires den > 0 && IsNearest(m, num, den) && IsNearest(n, num, den)
    ensures m == n
  {
    if m < n {
      NearestApart(m, n, num, den);
    } else if n < m {
      NearestApart(n, m, num, den);
    }
  }

  lemma HalfUp(a: int, den: int)
    requires a >= 0 && den > 0
    ensures IsNearest((a + den / 2) / den, a, den) && (a + den / 2) / den >= 0
  {
    var q := (a + den / 2) / den;
    assert q * den <= a + den / 2 < q * den + den;
  }

  lemma NearestMirrored(n: int, num: int, den: int)
    requires IsNearest(n, num, den)
    ensures IsNearest(-n, -num, den)
  {
    assert (-n) * den == -(n * den);
  }

  /** Half is added away from zero and the division truncates: that is rounding to nearest. */
  lemma DivisionRounds(value: I32, source: U32, target: U32)
    requires source >= BASE_DPI
    ensures IsNearest(TruncatingDivision(Rounded(value, source, target), source as I64) as int,
                      value as int * target as int, source as int)
  {
    var num, den := value as int * target as int, source as int;
    if num >= 0 {
      HalfUp(num, den);
    } else {
      HalfUp(-num, den);
      NearestMirrored((-num + den / 2) / den, -num, den);
    }
  }

  /** For all values and all resolutions: the nearest integer, ties away from zero, or the bound it passed. */
  lemma ScaleIsNearest(value: I32, sourceDpi: U32, targetDpi: U32) returns (n: int)
    ensures IsNearest(n, value as int * Max(96, targetDpi as int), Max(96, sourceDpi as int))
    ensures ScaleBetweenDpi(value, sourceDpi, targetDpi) == Clamped(n)
  {
    var source, target := AtLeastBase(sourceDpi), AtLeastBase(targetDpi);
    DivisionRounds(value, source, target);
    n := TruncatingDivision(Rounded(value, source, target), source as I64) as int;
  }

  /** Logical scaling is rescaling from the base resolution. */
  lemma LogicalIsFromBase(value: I32, dpi: U32)
    ensures ScaleLogical(value, dpi) == ScaleBetweenDpi(value, BASE_DPI, dpi)
  {
  }

  /* ----- There and back ----- */

  const LOW: int := -0x8000_0000
  const HIGH: int := 0x7FFF_FFFF

  /**
   `excess` is what the first result, scaled back without rounding, overshoots the
   value by, in units of one target pixel. It may be half a pixel, a tie only away
   from zero; at a bound, overshooting it does no harm.
   */
  predicate Returns(value: int, excess: int, target: int) {
    && (value < HIGH ==> 2 * excess < target || (2 * excess == target && value < 0))
    && (value > LOW ==> 2 * excess > -target || (2 * excess == -target && value > 0))
  }

  /** Saturating at a bound loses only what lies beyond the bound. */
  lemma ClampedIs(m: int, value: I32)
    ensures Clamped(m) == value <==>
            && (value as int < HIGH ==> m <= value as int)
            && (value as int > LOW ==> m >= value as int)
  {
  }

  /** The nearest integer is at most `value` exactly when half a step beyond it is not reached. */
  lemma NearestAtMost(m: int, value: int, num: int, den: int)
    requires den > 0 && IsNearest(m, num, den)
    ensures m <= value <==> 2 * (num - value * den) < den || (2 * (num - value * den) == den && num < 0)
  {
    if m < value {
      MultiplyBoth(m + 1, value, den);
    } else if m > value {
      MultiplyBoth(value + 1, m, den);
    }
  }

  lemma NearestAtLeast(m: int, value: int, num: int, den: int)
    requires den > 0 && IsNearest(m, num, den)
    ensures m >= value <==> 2 * (num - value * den) > -den || (2 * (num - value * den) == -den && num > 0)
  {
    NearestMirrored(m, num, den);
    NearestAtMost(-m, -value, -num, den);
    assert (-value) * den == -(value * den);
  }

  /** At half a step from `value`, the sign of the numerator is the sign of `value`. */
  lemma TieSign(value: int, num: int, den: int)
    requires den > 0
    ensures 2 * (num - value * den) == den ==> (num < 0 <==> value < 0)
    ensures 2 * (num - value * den) == -den ==> (num > 0 <==> value > 0)
  {
    if value < 0 {
      MultiplyBoth(value, -1, den);
    } else {
      MultiplyBoth(0, value, den);
    }
    if value > 0 {
      MultiplyBoth(1, value, den);
    } else {
      MultiplyBoth(value, 0, den);
    }
  }

  /**
   Exactly when scaling there and back returns the value, for every value and every
   pair of resolutions, saturating or not: the error of the first step decides.
   */
  lemma ReturnsExactly(value: I32, sourceDpi: U32, targetDpi: U32)
    ensures
      var source, target := Max(96, sourceDpi as int), Max(96, targetDpi as int);
      var first := ScaleBetweenDpi(value, sourceDpi, targetDpi);
      ScaleBetweenDpi(first, targetDpi, sourceDpi) == value
      <==> Returns(value as int, first as int * source - value as int * target, target)
  {
    var source, target := Max(96, sourceDpi as int), Max(96, targetDpi as int);
    var first := ScaleBetweenDpi(value, sourceDpi, targetDpi);
    var m := ScaleIsNearest(first, targetDpi, sourceDpi);
    var num := first as int * source;
    hide ScaleBetweenDpi, IsNearest, AtLeastBase;
    NearestAtMost(m, value as int, num, target);
    NearestAtLeast(m, value as int, num, target);
    TieSign(value as int, num, target);
    ClampedIs(m, value);
  }

  lemma PositiveFactor(value: int, t: int)
    requires t > 0 && value * t > 0
    ensures value > 0
  {
    if value <= 0 {
      MultiplyBoth(value, 0, t);
    }
  }

  lemma NearestBack(value: int, n: int, s: int, t: int)
    requires 0 < s <= t && IsNearest(n, value * t, s)
    ensures IsNearest(value, n * s, t)
  {
    if s == t {
      if value < n {
        MultiplyBoth(value + 1, n, t);
      } else if value > n {
        MultiplyBoth(n + 1, value, t);
      }
    }
  }

  /** The last clause of the exact condition when the way goes up: no more than half a target pixel past a bound. */
  predicate StaysNear(value: int, s: int, t: int) {
    2 * LOW * s - t <= 2 * (value * t) <= 2 * HIGH * s + t
  }

  lemma UpReturns(value: int, n: int, s: int, t: int)
    requires 0 < s <= t && IsNearest(n, value * t, s)
    ensures Returns(value, (if n < LOW then LOW else if n > HIGH then HIGH else n) * s - value * t, t)
            <==> StaysNear(value, s, t)
  {
    if LOW <= n <= HIGH {
      NearestBack(value, n, s, t);
      TieSign(value, n * s, t);
      MultiplyBoth(LOW, n, s);
      MultiplyBoth(n, HIGH, s);
    } else if n > HIGH {
      MultiplyBoth(HIGH + 1, n, s);
      PositiveFactor(value, t);
    } else {
      MultiplyBoth(n, LOW - 1, s);
      assert (-value) * t == -(value * t);
      PositiveFactor(-value, t);
    }
  }

  /**
   Up and back down: the value returns if and only if it is not scaled past a bound
   by more than half a target pixel. Rounding alone never loses it.
   */
  lemma UpAndBackExactly(value: I32, source: U32, target: U32)
    requires BASE_DPI <= source <= target
    ensures ScaleBetweenDpi(ScaleBetweenDpi(value, source, target), target, source) == value
            <==> StaysNear(value as int, source as int, target as int)
  {
    var n := ScaleIsNearest(value, source, target);
    ReturnsExactly(value, source, target);
    UpReturns(value as int, n, source as int, target as int);
  }

  /** The first step of the way down leaves `rest` of the product over, below or above the result. */
  predicate RoundsDown(value: int, rest: int, s: int) {
    2 * rest < s || (2 * rest == s && value < 0)
  }

  predicate SmallRest(value: int, rest: int, s: int, t: int) {
    if RoundsDown(value, rest, s) then value == LOW || 2 * rest < t || (2 * rest == t && value > 0)
    else value == HIGH || 2 * (s - rest) < t || (2 * (s - rest) == t && value < 0)
  }

  lemma DownFits(value: int, n: int, s: int, t: int)
    requires 0 < t < s && LOW <= value <= HIGH && IsNearest(n, value * t, s)
    ensures LOW <= n <= HIGH
  {
    MultiplyBoth(LOW, value, t);
    MultiplyBoth(value, HIGH, t);
    if n > HIGH {
      MultiplyBoth(HIGH + 1, n, s);
    } else if n < LOW {
      MultiplyBoth(n, LOW - 1, s);
    }
  }

  lemma DownRest(value: int, n: int, s: int, t: int)
    requires 0 < t < s && IsNearest(n, value * t, s)
    ensures
      var rest := value * t % s;
      n * s - value * t == if RoundsDown(value, rest, s) then -rest else s - rest
  {
    var q, rest := value * t / s, value * t % s;
    assert value * t == q * s + rest;
    if value < 0 {
      MultiplyBoth(value, -1, t);
    } else {
      MultiplyBoth(0, value, t);
    }
    var m := if RoundsDown(value, rest, s) then q else q + 1;
    assert m * s == q * s + if RoundsDown(value, rest, s) then 0 else s;
    NearestIsUnique(m, n, value * t, s);
  }

  /** Down and back up: the remainder of the first division decides, at the bounds only on one side. */
  lemma DownAndBackExactly(value: I32, source: U32, target: U32)
    requires BASE_DPI <= target < source
    ensures ScaleBetweenDpi(ScaleBetweenDpi(value, source, target), target, source) == value
            <==> SmallRest(value as int, value as int * target as int % source as int, source as int, target as int)
  {
    var n := ScaleIsNearest(value, source, target);
    ReturnsExactly(value, source, target);
    DownFits(value as int, n, source as int, target as int);
    DownRest(value as int, n, source as int, target as int);
  }

  /** The first step stays clear of the bounds. */
  ghost predicate Fits(value: I32, source: U32, target: U32) {
    exists n :: LOW <= n <= HIGH && IsRescaled(n, value, source, target)
  }

  predicate IsRescaled(n: int, value: I32, source: U32, target: U32) {
    IsNearest(n, value as int * target as int, source as int)
  }

  /** In particular, up and back down is the identity whenever the way up does not saturate. */
  lemma RoundTrip(value: I32, source: U32, target: U32)
    requires BASE_DPI <= source <= target && Fits(value, source, target)
    ensures ScaleBetweenDpi(ScaleBetweenDpi(value, source, target), target, source) == value
  {
    var n :| LOW <= n <= HIGH && IsRescaled(n, value, source, target);
    MultiplyBoth(LOW, n, source as int);
    MultiplyBoth(n, HIGH, source as int);
    UpAndBackExactly(value, source, target);
  }

  /** One pixel at 192 has a remainder of half a division and comes back from 96 as two. */
  lemma DownAndUpLoses()
    ensures !SmallRest(1, 1 * 96 % 192, 192, 96)
    ensures ScaleBetweenDpi(ScaleBetweenDpi(1, 192, 96), 96, 192) == 2 != 1
  {
    DownAndBackExactly(1, 192, 96);
  }

  /** The other sides: not every way down loses, and not every saturation does. */
  lemma BothSidesOccur()
    ensures ScaleBetweenDpi(ScaleBetweenDpi(2, 192, 96), 96, 192) == 2
    ensures !Fits(0x4000_0000, 96, 192)
            && ScaleBetweenDpi(ScaleBetweenDpi(0x4000_0000, 96, 192), 192, 96) == 0x4000_0000
    ensures ScaleBetweenDpi(ScaleBetweenDpi(0x4000_0001, 96, 192), 192, 96) != 0x4000_0001
  {
    DownAndBackExactly(2, 192, 96);
    UpAndBackExactly(0x4000_0000, 96, 192);
    UpAndBackExactly(0x4000_0001, 96, 192);
    assert forall n :: IsRescaled(n, 0x4000_0000, 96, 192) ==> n > HIGH;
  }
}
