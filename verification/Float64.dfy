/** Rounding to float64, as IEEE 754 does it: to the nearest multiple of the unit in the last
    place, which is 2^-52 of the power of two below the number, and to the even one of two that
    are equally near. Magnitudes from 2^-30 up to 2^34 are rounded; the others do not occur. */
module Float64 {
  function Pow2(k: nat): (p: nat)
    ensures p >= 1
  {
    if k == 0 then 1 else 2 * Pow2(k - 1)
  }

  /** The exponent of the greatest power of two that is not above n. */
  function Log2(n: nat): (k: nat)
    requires n >= 1
    ensures Pow2(k) <= n < Pow2(k + 1)
  {
    if n == 1 then 0 else Log2(n / 2) + 1
  }

  function NearestInteger(y: real): (n: int)
    ensures -1.0 <= 2.0 * (n as real - y) <= 1.0
    ensures 2.0 * (n as real - y) in {-1.0, 1.0} ==> n % 2 == 0
  {
    var n := y.Floor;
    var d := y - n as real;
    if d < 0.5 || (d == 0.5 && n % 2 == 0) then n else n + 1
  }

  /** x in units of 2^-30. */
  function Scaled(x: real): real {
    x * 1_073_741_824.0
  }

  predicate InRange(x: real) {
    1.0 <= Scaled(x) < 18_446_744_073_709_551_616.0
  }

  predicate InBinade(x: real, k: nat) {
    Pow2(k) as real <= Scaled(x) < Pow2(k + 1) as real
  }

  /** The binade of x: 2^k <= 2^30 * x < 2^(k + 1). */
  function Binade(x: real): (k: nat)
    requires InRange(x)
    ensures k < 64 && InBinade(x, k)
  {
    var n := Scaled(x).Floor;
    Log2IsSmall(n);
    Log2(n)
  }

  /** How many units in the last place make one. */
  function Units(k: nat): nat
    requires k < 64
  {
    Pow2(82 - k)
  }

  /** The nearest number of units, u of which make one. */
  function Snap(x: real, u: nat): real
    requires u >= 1
  {
    NearestInteger(x * u as real) as real / u as real
  }

  function Round(x: real): real
    decreases x < 0.0
  {
    if x < 0.0 then -Round(-x)
    else if InRange(x) then Snap(x, Units(Binade(x)))
    else x
  }

  // ---------- powers of two ----------

  lemma {:induction false} Pow2Sum(a: nat, b: nat)
    ensures Pow2(a + b) == Pow2(a) * Pow2(b)
  {
    if a > 0 {
      Pow2Sum(a - 1, b);
      assert 2 * (Pow2(a - 1) * Pow2(b)) == (2 * Pow2(a - 1)) * Pow2(b);
    }
  }

  lemma {:induction false} Pow2Grows(a: nat, b: nat)
    requires a <= b
    ensures Pow2(a) <= Pow2(b)
  {
    if a < b {
      Pow2Grows(a, b - 1);
    }
  }

  lemma {:induction false} Pow2Values()
    ensures Pow2(20) == 1_048_576 && Pow2(30) == 1_073_741_824 && Pow2(29) == 536_870_912
    ensures Pow2(24) == 16_777_216 && Pow2(34) == 17_179_869_184
    ensures Pow2(52) == 4_503_599_627_370_496 && Pow2(64) == 18_446_744_073_709_551_616
  {
    assert Pow2(5) == 32;
    Pow2Sum(5, 5);
    Pow2Sum(10, 10);
    Pow2Sum(10, 20);
    Pow2Sum(20, 4);
    Pow2Sum(24, 5);
    Pow2Sum(24, 10);
    Pow2Sum(32, 32);
    Pow2Sum(30, 2);
    Pow2Sum(32, 20);
    assert Pow2(2) == 4 && Pow2(4) == 16;
  }

  lemma {:induction false} Log2IsSmall(n: nat)
    requires 1 <= n < 18_446_744_073_709_551_616
    ensures Log2(n) < 64
  {
    Pow2Values();
    if Log2(n) >= 64 {
      Pow2Grows(64, Log2(n));
    }
  }

  lemma {:induction false} OneBinade(y: real, j: nat, k: nat)
    requires Pow2(j) as real <= y < Pow2(j + 1) as real && Pow2(k) as real <= y < Pow2(k + 1) as real
    ensures j == k
  {
    if j < k {
      Pow2Grows(j + 1, k);
    } else if k < j {
      Pow2Grows(k + 1, j);
    }
  }

  // ---------- what rounding does ----------

  /** u times x, added up; the proofs below stay linear by using it. */
  function Times(x: real, u: nat): real {
    if u == 0 then 0.0 else Times(x, u - 1) + x
  }

  lemma {:induction false} TimesIsProduct(x: real, u: nat)
    ensures Times(x, u) == x * u as real
  {
    if u > 0 {
      TimesIsProduct(x, u - 1);
      assert x * u as real == x * (u - 1) as real + x;
    }
  }

  lemma {:induction false} TimesSum(x: real, y: real, u: nat)
    ensures Times(x + y, u) == Times(x, u) + Times(y, u)
  {
    if u > 0 {
      TimesSum(x, y, u - 1);
    }
  }

  lemma {:induction false} TimesInteger(n: nat, u: nat)
    ensures Times(n as real, u) == (n * u) as real
  {
    if u > 0 {
      TimesInteger(n, u - 1);
      assert n * u == n * (u - 1) + n;
    }
  }

  lemma {:induction false} TimesScaled(x: real, u: nat)
    ensures Times(Scaled(x), u) == Scaled(Times(x, u))
  {
    if u > 0 {
      TimesScaled(x, u - 1);
    }
  }

  lemma {:induction false} TimesMonotonic(x: real, y: real, u: nat)
    requires x <= y
    ensures Times(x, u) <= Times(y, u)
    ensures u >= 1 && x < y ==> Times(x, u) < Times(y, u)
  {
    if u > 0 {
      TimesMonotonic(x, y, u - 1);
    }
  }

  lemma {:induction false} TimesTwo53(x: real, u: nat)
    ensures Times(x * 9_007_199_254_740_992.0, u) == Times(x, u) * 9_007_199_254_740_992.0
  {
    if u > 0 {
      TimesTwo53(x, u - 1);
    }
  }

  /** The snapped number is the nearest whole number of units. */
  lemma SnapIs(x: real, u: nat)
    requires u >= 1
    ensures Times(Snap(x, u), u) == NearestInteger(Times(x, u)) as real
  {
    TimesIsProduct(x, u);
    TimesIsProduct(Snap(x, u), u);
  }

  lemma {:induction false} BinadeIs(x: real, k: nat)
    requires k < 64 && InBinade(x, k)
    ensures InRange(x) && Binade(x) == k
  {
    Pow2Grows(0, k);
    Pow2Grows(k + 1, 64);
    Pow2Values();
    OneBinade(Scaled(x), k, Binade(x));
  }

  lemma {:induction false} RoundIn(x: real, k: nat)
    requires k < 64 && InBinade(x, k)
    ensures Round(x) == Snap(x, Units(k)) && x > 0.0
  {
    BinadeIs(x, k);
  }

  /** Compares a snapped number with a whole number by their units. */
  lemma {:induction false} SnapAgainst(x: real, n: nat, u: nat)
    requires u >= 1
    ensures var m := NearestInteger(Times(x, u));
      && (Snap(x, u) >= n as real <==> m >= n * u)
      && (Snap(x, u) <= n as real <==> m <= n * u)
  {
    SnapIs(x, u);
    TimesInteger(n, u);
    if Snap(x, u) <= n as real {
      TimesMonotonic(Snap(x, u), n as real, u);
    } else {
      TimesMonotonic(n as real, Snap(x, u), u);
    }
    if Snap(x, u) >= n as real {
      TimesMonotonic(n as real, Snap(x, u), u);
    }
  }

  /** Whether adding a fraction to a whole number is lost in rounding: if and only if it is less
      than half a unit. */
  lemma {:induction false} SnapLoses(n: nat, f: real, u: nat)
    requires u >= 1 && 0.0 <= f && 2.0 * Times(f, u) != 1.0
    ensures Snap(n as real + f, u) >= n as real
    ensures Snap(n as real + f, u) == n as real <==> 2.0 * Times(f, u) < 1.0
  {
    TimesSum(n as real, f, u);
    TimesInteger(n, u);
    TimesMonotonic(0.0, f, u);
    TimesInteger(0, u);
    SnapAgainst(n as real + f, n, u);
  }

  /** A whole number is a whole number of units. */
  lemma {:induction false} SnapKeepsInteger(n: nat, u: nat)
    requires u >= 1
    ensures Snap(n as real, u) == n as real
  {
    TimesInteger(n, u);
    SnapAgainst(n as real, n, u);
  }

  /** Nor does rounding pass the next whole number. */
  lemma {:induction false} SnapStaysBelow(n: nat, x: real, u: nat)
    requires u >= 1 && x <= n as real
    ensures Snap(x, u) <= n as real
  {
    TimesInteger(n, u);
    TimesMonotonic(x, n as real, u);
    SnapAgainst(x, n, u);
  }

  lemma {:induction false} UnitsInBinade(x: real, k: nat)
    requires k < 64 && InBinade(x, k)
    ensures Times(x, Units(k)) >= 4_503_599_627_370_496.0
  {
    UnitsTimesPower(k);
    TimesInteger(Pow2(k), Units(k));
    TimesMonotonic(Pow2(k) as real, Scaled(x), Units(k));
    TimesScaled(x, Units(k));
  }

  lemma {:induction false} UnitsTimesPower(k: nat)
    requires k < 64
    ensures Pow2(k) * Units(k) == 4_835_703_278_458_516_698_824_704
  {
    Pow2Sum(k, 82 - k);
    Pow2Sum(30, 52);
    Pow2Values();
  }

  /** The relative error is at most 2^-53. */
  lemma {:induction false} RelativeError(x: real)
    requires InRange(x)
    ensures -x <= (Round(x) - x) * 9_007_199_254_740_992.0 <= x
  {
    var k := Binade(x);
    RoundIn(x, k);
    SnapError(x, Units(k));
    UnitsInBinade(x, k);
    HalfUnit(x, Round(x) - x, Units(k));
  }

  lemma {:induction false} SnapError(x: real, u: nat)
    requires u >= 1
    ensures -1.0 <= 2.0 * Times(Snap(x, u) - x, u) <= 1.0
  {
    SnapIs(x, u);
    TimesSum(Snap(x, u) - x, x, u);
  }

  lemma {:induction false} HalfUnit(x: real, e: real, u: nat)
    requires u >= 1 && Times(x, u) >= 4_503_599_627_370_496.0 && -1.0 <= 2.0 * Times(e, u) <= 1.0
    ensures -x <= e * 9_007_199_254_740_992.0 <= x
  {
    var big := e * 9_007_199_254_740_992.0;
    TimesTwo53(e, u);
    if big > x {
      TimesMonotonic(x, big, u);
    }
    if big < -x {
      TimesMonotonic(big, -x, u);
      TimesSum(x, -x, u);
      TimesInteger(0, u);
    }
  }
}
