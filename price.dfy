/**
 * Price derivation from a Q64 fixed-point square-root price (`calcPriceFromSqrt`).
 *
 * The chain stores `sqrtPriceX64 = sqrt(price) * 2^64` as an unsigned integer. The
 * price of token0 in token1 is `(sqrtPriceX64 / 2^64)^2`, rescaled by
 * `10^(decimals0 - decimals1)` and optionally reciprocated. Arithmetic here is exact
 * (`real`); the final `toFixed(10)` is modelled as rounding half away from zero to ten
 * decimal places.
 */
module PriceMath {

  /** 2^64, the fixed-point scale of the square-root price. */
  const Q64: real := 18446744073709551616.0

  /** Ten decimal places, the precision of the reported price. */
  const Scale: real := 10000000000.0

  /**
   * A reported price. Reciprocating a zero price yields the decimal library's
   * positive infinity, which survives `toFixed` and `parseFloat` unchanged.
   */
  datatype Quote = Finite(value: real) | PosInfinity

  /** b^n for a natural exponent. */
  function Pow(b: real, n: nat): (r: real)
    ensures b > 0.0 ==> r > 0.0
  {
    if n == 0 then 1.0 else b * Pow(b, n - 1)
  }

  /** 10^e for any integer exponent. */
  function Pow10(e: int): (r: real)
    ensures r > 0.0
  {
    if e >= 0 then Pow(10.0, e) else 1.0 / Pow(10.0, -e)
  }

  lemma Pow10Negate(e: int)
    ensures Pow10(-e) * Pow10(e) == 1.0
  {
    if e > 0 {
      assert Pow10(-e) == 1.0 / Pow10(e);
    } else if e < 0 {
      assert Pow10(e) == 1.0 / Pow10(-e);
    }
  }

  lemma {:induction false} Pow10Succ(e: int)
    ensures Pow10(e + 1) == 10.0 * Pow10(e)
  {
    if e < -1 {
      var p := Pow(10.0, -e - 1);
      assert Pow(10.0, -e) == 10.0 * p;
      assert p > 0.0;
      assert Pow10(e + 1) == 1.0 / p;
      assert Pow10(e) == 1.0 / (10.0 * p);
    } else if e == -1 {
      assert Pow(10.0, 1) == 10.0 * Pow(10.0, 0);
    }
  }

  /** The square-root price as a plain ratio: `sqrtPriceX64 / 2^64`. */
  function Ratio(sqrtPriceX64: nat): real
  {
    sqrtPriceX64 as real / Q64
  }

  /** The exact, un-inverted price: `(sqrtPriceX64 / 2^64)^2 * 10^(decimals0 - decimals1)`. */
  function RawPrice(sqrtPriceX64: nat, decimals0: int, decimals1: int): (r: real)
    ensures r >= 0.0
    ensures r == 0.0 <==> sqrtPriceX64 == 0
  {
    var ratio := Ratio(sqrtPriceX64);
    assert ratio >= 0.0;
    assert sqrtPriceX64 > 0 ==> ratio > 0.0 && ratio * ratio > 0.0;
    ratio * ratio * Pow10(decimals0 - decimals1)
  }

  /** The exact price before rounding, reciprocated when `invert` is set. */
  function ExactPrice(sqrtPriceX64: nat, decimals0: int, decimals1: int, invert: bool): Quote
  {
    var p := RawPrice(sqrtPriceX64, decimals0, decimals1);
    if !invert then Finite(p)
    else if p == 0.0 then PosInfinity
    else Finite(1.0 / p)
  }

  /**
   * `toFixed(10)`: the multiple of 1e-10 nearest to `x`, a tie going away from
   * zero (the decimal library's default rounding, half up).
   */
  function ToFixed10(x: real): (r: real)
    ensures (r * Scale).Floor as real == r * Scale
    ensures x >= 0.0 ==> r * Scale - 0.5 <= x * Scale < r * Scale + 0.5
    ensures x < 0.0 ==> r * Scale - 0.5 < x * Scale <= r * Scale + 0.5
    ensures -1.0 / (2.0 * Scale) <= r - x <= 1.0 / (2.0 * Scale)
    ensures x >= 0.0 ==> r >= 0.0
  {
    var k := if x >= 0.0 then (x * Scale + 0.5).Floor else -(-x * Scale + 0.5).Floor;
    GridPoint(k);
    RoundingError(k as real / Scale, x);
    k as real / Scale
  }

  /** A whole number of ten-billionths scales back to that whole number. */
  lemma GridPoint(k: int)
    ensures (k as real / Scale) * Scale == k as real
  {
  }

  /** Half a unit of the scaled grid is an error of at most 5e-11. */
  lemma RoundingError(r: real, x: real)
    requires r * Scale - 0.5 <= x * Scale <= r * Scale + 0.5
    ensures -1.0 / (2.0 * Scale) <= r - x <= 1.0 / (2.0 * Scale)
  {
  }

  /** `calcPriceFromSqrt`: the exact price, reported to ten decimal places. */
  function CalcPriceFromSqrt(sqrtPriceX64: nat, decimals0: int, decimals1: int, invert: bool): (q: Quote)
    ensures q.Finite? ==> q.value >= 0.0
    ensures q.PosInfinity? <==> invert && sqrtPriceX64 == 0
    ensures q.Finite? ==>
              && ExactPrice(sqrtPriceX64, decimals0, decimals1, invert).Finite?
              && -1.0 / (2.0 * Scale) <= q.value - ExactPrice(sqrtPriceX64, decimals0, decimals1, invert).value <= 1.0 / (2.0 * Scale)
  {
    match ExactPrice(sqrtPriceX64, decimals0, decimals1, invert)
    case Finite(p) => Finite(ToFixed10(p))
    case PosInfinity => PosInfinity
  }

  // ---- properties of the exact formula ----

  /** With inversion the price is exactly the reciprocal of the plain price. */
  lemma InvertIsReciprocal(sqrtPriceX64: nat, decimals0: int, decimals1: int)
    requires sqrtPriceX64 > 0
    ensures ExactPrice(sqrtPriceX64, decimals0, decimals1, true).Finite?
    ensures ExactPrice(sqrtPriceX64, decimals0, decimals1, true).value
          * ExactPrice(sqrtPriceX64, decimals0, decimals1, false).value == 1.0
  {
  }

  /** The reciprocal of a scaled square is the square of the reciprocal, scaled by the reciprocal factor. */
  lemma ReciprocalOfScaledSquare(x: real, y: real, u: real, v: real)
    requires x * y == 1.0 && u * v == 1.0
    ensures x * x * u != 0.0 && 1.0 / (x * x * u) == y * y * v
  {
    calc {
      (x * x * u) * (y * y * v);
      (x * y) * (x * y) * (u * v);
    }
  }

  /**
   * The inverted price is the squared inverse ratio rescaled by the opposite
   * decimal difference: inverting swaps the roles of the two tokens.
   */
  lemma {:induction false} InvertedPriceFormula(sqrtPriceX64: nat, decimals0: int, decimals1: int)
    requires sqrtPriceX64 > 0
    ensures ExactPrice(sqrtPriceX64, decimals0, decimals1, true)
         == Finite((Q64 / sqrtPriceX64 as real) * (Q64 / sqrtPriceX64 as real) * Pow10(decimals1 - decimals0))
  {
    RatioInverse(sqrtPriceX64 as real);
    Pow10Negate(decimals0 - decimals1);
    assert decimals1 - decimals0 == -(decimals0 - decimals1);
    ReciprocalOfScaledSquare(Ratio(sqrtPriceX64), Q64 / sqrtPriceX64 as real,
                             Pow10(decimals0 - decimals1), Pow10(decimals1 - decimals0));
  }

  lemma RatioInverse(s: real)
    requires s > 0.0
    ensures (s / Q64) * (Q64 / s) == 1.0
  {
  }

  /** One more decimal on token0 multiplies the price by ten. */
  lemma DecimalShift(sqrtPriceX64: nat, decimals0: int, decimals1: int)
    ensures RawPrice(sqrtPriceX64, decimals0 + 1, decimals1) == 10.0 * RawPrice(sqrtPriceX64, decimals0, decimals1)
  {
    Pow10Succ(decimals0 - decimals1);
    assert decimals0 + 1 - decimals1 == (decimals0 - decimals1) + 1;
  }

  /** A larger square-root price gives a strictly larger plain price and a strictly smaller inverted one. */
  lemma {:induction false} PriceMonotone(s: nat, t: nat, decimals0: int, decimals1: int)
    requires s < t
    ensures RawPrice(s, decimals0, decimals1) < RawPrice(t, decimals0, decimals1)
    ensures s > 0 ==> ExactPrice(t, decimals0, decimals1, true).value < ExactPrice(s, decimals0, decimals1, true).value
  {
    var a, b := Ratio(s), Ratio(t);
    assert 0.0 <= a < b;
    assert a * a < b * b by {
      assert a * a <= a * b;
      assert a * b < b * b;
    }
    var d := Pow10(decimals0 - decimals1);
    assert a * a * d < b * b * d;
    if s > 0 {
      var p, q := RawPrice(s, decimals0, decimals1), RawPrice(t, decimals0, decimals1);
      assert 0.0 < p < q;
      assert 1.0 / q < 1.0 / p by {
        assert (1.0 / q) * q == 1.0;
        assert (1.0 / p) * p == 1.0;
      }
    }
  }

  /** A non-negative number whose square is 1 is 1. */
  lemma UnitSquare(x: real)
    requires x >= 0.0
    ensures x * x == 1.0 <==> x == 1.0
  {
    if x < 1.0 {
      assert x * x <= x;
    } else if x > 1.0 {
      assert x * x > x;
    }
  }

  /**
   * With equal decimals the price is the 1:1 peg, inverted or not, exactly when
   * the square-root price is 2^64.
   */
  lemma PegPrice(sqrtPriceX64: nat, decimals: int, invert: bool)
    ensures ExactPrice(sqrtPriceX64, decimals, decimals, invert) == Finite(1.0)
            <==> sqrtPriceX64 == 18446744073709551616
  {
    var ratio := Ratio(sqrtPriceX64);
    assert RawPrice(sqrtPriceX64, decimals, decimals) == ratio * ratio;
    UnitSquare(ratio);
    if invert && sqrtPriceX64 > 0 {
      var p := ratio * ratio;
      assert p > 0.0 && (1.0 / p) * p == 1.0;
      assert 1.0 / p == 1.0 <==> p == 1.0;
    }
  }

  // ---- properties of the rounding ----

  /** Rounding to ten decimals reports zero exactly for the non-negative prices below 5e-11. */
  lemma ToFixedZero(x: real)
    requires x >= 0.0
    ensures ToFixed10(x) == 0.0 <==> x < 1.0 / (2.0 * Scale)
  {
  }

  /** A whole number of ten-billionths is its own rounding. */
  lemma ToFixedOnGrid(k: nat)
    ensures ToFixed10(k as real / Scale) == k as real / Scale
    ensures k > 0 ==> ToFixed10(-(k as real / Scale)) == -(k as real / Scale)
  {
    var g := k as real / Scale;
    assert g * Scale == k as real;
    assert (g * Scale + 0.5).Floor == k;
    if k > 0 {
      assert -(-g) * Scale == k as real;
    }
  }

  /** A value already at ten decimals is reported unchanged. */
  lemma ToFixedIdempotent(x: real)
    ensures ToFixed10(ToFixed10(x)) == ToFixed10(x)
  {
    if x >= 0.0 {
      var k := (x * Scale + 0.5).Floor;
      ToFixedOnGrid(k);
    } else {
      var k := (-x * Scale + 0.5).Floor;
      ToFixedOnGrid(k);
      if k == 0 {
        assert ToFixed10(x) == 0.0;
      }
    }
  }
}
