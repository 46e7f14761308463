/**
 * Decimal rounding as the calculator performs it: `Math.round(x * 100) / 100` and
 * `Math.round(x * 10000) / 10000`, where JavaScript's `Math.round` rounds to the
 * nearest integer and sends ties towards +infinity. Numbers are exact reals;
 * IEEE-754 effects are not modelled.
 */
module Rounding {

  /** `Math.round`: the integer nearest to `x`, ties going up. */
  function MathRound(x: real): (k: int)
    ensures x - 0.5 < k as real <= x + 0.5
  {
    (x + 0.5).Floor
  }

  /** Only one integer lies in `(x - 1/2, x + 1/2]`, so the interval defines `MathRound`. */
  lemma MathRoundUnique(x: real, k: int)
    requires x - 0.5 < k as real <= x + 0.5
    ensures k == MathRound(x)
  {
  }

  /** `Math.round` is monotone. */
  lemma MathRoundMonotone(x: real, y: real)
    requires x <= y
    ensures MathRound(x) <= MathRound(y)
  {
  }

  /** `Math.round` commutes with adding a whole number. */
  lemma MathRoundShift(x: real, n: int)
    ensures MathRound(x + n as real) == MathRound(x) + n
  {
    MathRoundUnique(x + n as real, MathRound(x) + n);
  }

  /** True when `r` has at most two decimals. */
  predicate TwoDecimals(r: real) {
    (r * 100.0).Floor as real == r * 100.0
  }

  /** True when `r` has at most four decimals. */
  predicate FourDecimals(r: real) {
    (r * 10000.0).Floor as real == r * 10000.0
  }

  /**
   * Rounding to two decimals, used for kilograms, percentages and prices: the
   * two-decimal value in `(x - 0.005, x + 0.005]`.
   */
  function Round2(x: real): (r: real)
    ensures TwoDecimals(r)
    ensures x - 0.005 < r <= x + 0.005
  {
    MathRound(x * 100.0) as real / 100.0
  }

  /** Rounding to four decimals, used for carbon credits: the four-decimal value in `(x - 0.00005, x + 0.00005]`. */
  function Round4(x: real): (r: real)
    ensures FourDecimals(r)
    ensures x - 0.00005 < r <= x + 0.00005
  {
    MathRound(x * 10000.0) as real / 10000.0
  }

  /** The two-decimal value within half a cent of `x` is unique, so the contract of `Round2` defines it. */
  lemma Round2Unique(x: real, r: real)
    requires TwoDecimals(r)
    requires x - 0.005 < r <= x + 0.005
    ensures r == Round2(x)
  {
    var k := (r * 100.0).Floor;
    MathRoundUnique(x * 100.0, k);
  }

  /** The four-decimal value within half a unit of the fourth decimal of `x` is unique. */
  lemma Round4Unique(x: real, r: real)
    requires FourDecimals(r)
    requires x - 0.00005 < r <= x + 0.00005
    ensures r == Round4(x)
  {
    var k := (r * 10000.0).Floor;
    MathRoundUnique(x * 10000.0, k);
  }

  /** A value that already has two decimals is left unchanged. */
  lemma Round2OnGrid(x: real)
    requires TwoDecimals(x)
    ensures Round2(x) == x
  {
    Round2Unique(x, x);
  }

  /** Rounding to two decimals twice is rounding once. */
  lemma Round2Idempotent(x: real)
    ensures Round2(Round2(x)) == Round2(x)
  {
    Round2OnGrid(Round2(x));
  }

  /** Rounding to two decimals is monotone. */
  lemma Round2Monotone(x: real, y: real)
    requires x <= y
    ensures Round2(x) <= Round2(y)
  {
    MathRoundMonotone(x * 100.0, y * 100.0);
  }

  /** Rounding to four decimals is monotone. */
  lemma Round4Monotone(x: real, y: real)
    requires x <= y
    ensures Round4(x) <= Round4(y)
  {
    MathRoundMonotone(x * 10000.0, y * 10000.0);
  }

  /** Rounding a non-negative value to two decimals never gives a negative one. */
  lemma Round2NonNegative(x: real)
    requires x >= 0.0
    ensures Round2(x) >= 0.0
  {
    Round2Monotone(0.0, x);
    Round2OnGrid(0.0);
  }

  /** Rounding a non-negative value to four decimals never gives a negative one. */
  lemma Round4NonNegative(x: real)
    requires x >= 0.0
    ensures Round4(x) >= 0.0
  {
    Round4Monotone(0.0, x);
    Round4Unique(0.0, 0.0);
  }

  /** Rounding to two decimals gives a positive value exactly when `x` reaches half a cent. */
  lemma Round2PositiveIff(x: real)
    ensures Round2(x) > 0.0 <==> x >= 0.005
  {
    if x >= 0.005 {
      Round2Monotone(0.005, x);
      Round2Unique(0.005, 0.01);
    } else {
      var r := Round2(x);
      var k := (r * 100.0).Floor;
      assert k as real <= x * 100.0 + 0.5 < 1.0;
    }
  }

  /** Rounding to two decimals gives a negative value exactly when `x` is below minus half a cent. */
  lemma Round2NegativeIff(x: real)
    ensures Round2(x) < 0.0 <==> x < -0.005
  {
    if x < -0.005 {
      var r := Round2(x);
      var k := (r * 100.0).Floor;
      assert k as real <= x * 100.0 + 0.5 < 0.0;
    } else {
      Round2Monotone(-0.005, x);
      Round2Unique(-0.005, 0.0);
    }
  }

  /** Adding one cent before rounding adds one cent after rounding. */
  lemma Round2AddCent(x: real)
    ensures Round2(x + 0.01) == Round2(x) + 0.01
  {
    MathRoundShift(x * 100.0, 1);
    assert (x + 0.01) * 100.0 == x * 100.0 + 1 as real;
  }

  /** Differences of two-decimal values have two decimals. */
  lemma TwoDecimalsSub(a: real, b: real)
    requires TwoDecimals(a) && TwoDecimals(b)
    ensures TwoDecimals(a - b)
  {
    var ka := (a * 100.0).Floor;
    var kb := (b * 100.0).Floor;
    assert (a - b) * 100.0 == (ka - kb) as real;
  }
}
