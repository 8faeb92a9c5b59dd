/** The Retry-After header of a rejected request. Its seconds come from time.Duration.Seconds(), a
    float64 sum that can swallow the fraction of a second of a very long wait. */
module RetryAfter {
  import opened Float64
  import opened SlidingWindow

  /** The longest time.Duration, in nanoseconds. */
  const LONGEST: int := 0x7fff_ffff_ffff_ffff

  function Ceil(x: real): int {
    -((-x).Floor)
  }

  /** Duration.Seconds on a duration in nanoseconds: whole seconds plus the rest, both
      truncated toward zero. */
  function Seconds(wait: int): real {
    if wait >= 0 then RoundedSum(wait / 1_000_000_000, wait % 1_000_000_000)
    else RealSum(-((-wait / 1_000_000_000) as real), -Fraction(-wait % 1_000_000_000))
  }

  function RoundedSum(whole: nat, rest: nat): real {
    RealSum(whole as real, Fraction(rest))
  }

  function RealSum(w: real, f: real): real {
    Round(Round(w) + Round(f))
  }

  function Fraction(nanos: int): real {
    nanos as real / 1_000_000_000.0
  }

  /** retryAfterSeconds of a wait in nanoseconds: the ceiling of its seconds, at least one. */
  function RetryAfterSeconds(wait: int): (n: int)
    ensures n >= 1
  {
    var n := Ceil(Seconds(wait));
    if n < 1 then 1 else n
  }

  /** The waits whose fraction of a second is swallowed: with j the exponent of the whole seconds,
      the rest is less than half a unit in the last place, which is 2^(j - 52) seconds. */
  predicate LosesFraction(wait: int) {
    wait >= 1_000_000_000 &&
    var whole, rest := wait / 1_000_000_000, wait % 1_000_000_000;
    var j := Log2(whole);
    rest != 0 && j <= 52 && 2 * (rest * Pow2(52 - j)) < 1_000_000_000
  }

  // ---------- the two summands ----------

  lemma {:induction false} BinadeOfSum(n: nat, f: real)
    requires 1 <= n < 17_179_869_184 && 0.0 <= f < 1.0
    ensures Log2(n) < 34 && InBinade(n as real + f, Log2(n) + 30)
  {
    ExponentIsSmall(n);
    Shifted(Log2(n));
    Shifted(Log2(n) + 1);
  }

  lemma {:induction false} ExponentIsSmall(n: nat)
    requires 1 <= n < 17_179_869_184
    ensures Log2(n) < 34
  {
    Pow2Values();
    if Log2(n) >= 34 {
      Pow2Grows(34, Log2(n));
    }
  }

  lemma {:induction false} Shifted(j: nat)
    ensures Pow2(j + 30) == 1_073_741_824 * Pow2(j)
  {
    Pow2Sum(j, 30);
    Pow2Values();
  }

  lemma {:induction false} WholeIsKept(n: nat)
    requires n < 17_179_869_184
    ensures Round(n as real) == n as real
  {
    if n >= 1 {
      BinadeOfSum(n, 0.0);
      RoundIn(n as real, Log2(n) + 30);
      SnapKeepsInteger(n, Units(Log2(n) + 30));
    }
  }

  /** A fraction of a second stays one, close to what it was. */
  lemma {:induction false} FractionIsClose(rest: nat)
    requires 0 < rest < 1_000_000_000
    ensures var f := Fraction(rest); -f <= (Round(f) - f) * 9_007_199_254_740_992.0 <= f
    ensures 0.000_000_000_9 < Round(Fraction(rest)) < 0.999_999_999_9
  {
    RelativeError(Fraction(rest));
  }

  // ---------- the sum ----------

  lemma {:induction false} TimesFraction(rest: nat, u: nat)
    ensures Times(Fraction(rest), u) == Fraction(rest * u)
  {
    if u > 0 {
      TimesFraction(rest, u - 1);
      assert rest * u == rest * (u - 1) + rest;
    }
  }

  /** Rounding the fraction does not move it across half a unit. */
  lemma {:induction false} SameSideOfHalf(rest: nat, u: nat)
    requires 0 < rest < 1_000_000_000 && 2 * (rest * u) != 1_000_000_000
    ensures 2.0 * Times(Round(Fraction(rest)), u) < 1.0 <==> 2 * (rest * u) < 1_000_000_000
    ensures 2.0 * Times(Round(Fraction(rest)), u) != 1.0
  {
    var f, g := Fraction(rest), Round(Fraction(rest));
    FractionIsClose(rest);
    TimesFraction(rest, u);
    TimesSum(g - f, f, u);
    TimesError(f, g - f, u);
    Sides(rest * u, Times(f, u), Times(g - f, u));
  }

  lemma {:induction false} TimesError(f: real, e: real, u: nat)
    requires -f <= e * 9_007_199_254_740_992.0 <= f
    ensures -Times(f, u) <= Times(e, u) * 9_007_199_254_740_992.0 <= Times(f, u)
  {
    TimesTwo53(e, u);
    TimesMonotonic(e * 9_007_199_254_740_992.0, f, u);
    TimesMonotonic(-f, e * 9_007_199_254_740_992.0, u);
    TimesNegative(f, u);
  }

  lemma {:induction false} TimesNegative(x: real, u: nat)
    ensures Times(-x, u) == -Times(x, u)
  {
    if u > 0 {
      TimesNegative(x, u - 1);
    }
  }

  lemma Sides(a: nat, t: real, e: real)
    requires t == Fraction(a) && -t <= e * 9_007_199_254_740_992.0 <= t && 2 * a != 1_000_000_000
    ensures 2.0 * (t + e) < 1.0 <==> 2 * a < 1_000_000_000
    ensures 2.0 * (t + e) != 1.0
  {
  }

  /** The rest never comes to exactly half a unit. */
  lemma {:induction false} NoTie(rest: nat, j: nat)
    requires j <= 33
    ensures 2 * (rest * Pow2(52 - j)) != 1_000_000_000
  {
    Pow2Sum(19, 33 - j);
    Pow2Values();
    Reassociate(rest, Pow2(33 - j));
    assert 1_048_576 * (rest * Pow2(33 - j)) != 1_000_000_000;
  }

  lemma Reassociate(a: nat, b: nat)
    ensures a * (524_288 * b) == 524_288 * (a * b)
  {
  }

  lemma {:induction false} SumIsSnap(whole: nat, rest: nat)
    requires 1 <= whole < 17_179_869_184 && 0 < rest < 1_000_000_000
    ensures Log2(whole) < 34
    ensures RoundedSum(whole, rest) == Snap(whole as real + Round(Fraction(rest)), Pow2(52 - Log2(whole)))
  {
    FractionIsClose(rest);
    WholeIsKept(whole);
    BinadeOfSum(whole, Round(Fraction(rest)));
    RoundIn(whole as real + Round(Fraction(rest)), Log2(whole) + 30);
  }

  /** The sum of whole seconds and a rest: it lies between the whole seconds and the next, and
      falls back on the whole seconds if and only if the rest is below half a unit. */
  lemma {:induction false} SumLostIff(whole: nat, rest: nat)
    requires 1 <= whole < 17_179_869_184 && 0 < rest < 1_000_000_000
    ensures Log2(whole) < 34
    ensures whole as real <= RoundedSum(whole, rest) <= (whole + 1) as real
    ensures RoundedSum(whole, rest) == whole as real <==> 2 * (rest * Pow2(52 - Log2(whole))) < 1_000_000_000
  {
    SumIsSnap(whole, rest);
    FractionIsClose(rest);
    NoTie(rest, Log2(whole));
    SnapOfSum(whole, rest, Pow2(52 - Log2(whole)));
  }

  lemma {:induction false} SnapOfSum(whole: nat, rest: nat, u: nat)
    requires 0 < rest < 1_000_000_000 && u >= 1 && 2 * (rest * u) != 1_000_000_000
    ensures var s := Snap(whole as real + Round(Fraction(rest)), u);
      && whole as real <= s <= (whole + 1) as real
      && (s == whole as real <==> 2 * (rest * u) < 1_000_000_000)
  {
    var g := Round(Fraction(rest));
    FractionIsClose(rest);
    SameSideOfHalf(rest, u);
    SnapLoses(whole, g, u);
    SnapStaysBelow(whole + 1, whole as real + g, u);
  }

  lemma {:induction false} SumOfWhole(whole: nat)
    requires whole < 17_179_869_184
    ensures RoundedSum(whole, 0) == whole as real
  {
    WholeIsKept(whole);
    WholeIsKept(0);
  }

  lemma {:induction false} SumOfRest(rest: nat)
    requires 0 < rest < 1_000_000_000
    ensures 0.0 < RoundedSum(0, rest) <= 1.0
  {
    WholeIsKept(0);
    FractionIsClose(rest);
    RelativeError(Round(Fraction(rest)));
  }

  lemma {:induction false} RoundIsOdd(x: real)
    ensures Round(-x) == -Round(x)
  {
  }

  lemma {:induction false} SumIsOdd(w: real, f: real)
    ensures RealSum(-w, -f) == -RealSum(w, f)
  {
    RoundIsOdd(w);
    RoundIsOdd(f);
    RoundIsOdd(Round(w) + Round(f));
    assert Round(-w) + Round(-f) == -(Round(w) + Round(f));
  }

  // ---------- the announced seconds ----------

  /** What the rounded seconds keep of a wait in nanoseconds: they lie between the whole
      seconds and the next, and are exact when nothing is left over. */
  ghost predicate Approximates(wait: int, seconds: real) {
    if wait < 0 then seconds <= 0.0
    else
      var whole := wait / 1_000_000_000;
      && whole as real <= seconds <= (whole + 1) as real
      && (wait % 1_000_000_000 == 0 ==> seconds == whole as real)
  }

  lemma {:induction false} SumWithin(whole: nat, rest: nat)
    requires whole < 17_179_869_184 && rest < 1_000_000_000
    ensures whole as real <= RoundedSum(whole, rest) <= (whole + 1) as real
    ensures rest == 0 ==> RoundedSum(whole, rest) == whole as real
  {
    if rest == 0 {
      SumOfWhole(whole);
    } else if whole == 0 {
      SumOfRest(rest);
    } else {
      SumLostIff(whole, rest);
    }
  }

  lemma {:induction false} SecondsApproximate(wait: int)
    requires -LONGEST <= wait <= LONGEST
    ensures Approximates(wait, Seconds(wait))
  {
    if wait < 0 {
      NegativeWait(-wait / 1_000_000_000, -wait % 1_000_000_000);
    } else {
      SumWithin(wait / 1_000_000_000, wait % 1_000_000_000);
    }
  }

  lemma {:induction false} NegativeWait(whole: nat, rest: nat)
    requires whole < 17_179_869_184 && rest < 1_000_000_000
    ensures RealSum(-(whole as real), -Fraction(rest)) <= 0.0
  {
    SumWithin(whole, rest);
    SumIsOdd(whole as real, Fraction(rest));
  }

  /** The fraction of a second is gone from the rounded seconds exactly for the waits that
      LosesFraction describes. */
  lemma {:induction false} FractionIsLostIff(wait: int)
    requires 1_000_000_000 <= wait <= LONGEST && wait % 1_000_000_000 != 0
    ensures Seconds(wait) == (wait / 1_000_000_000) as real <==> LosesFraction(wait)
  {
    SumLostIff(wait / 1_000_000_000, wait % 1_000_000_000);
  }

  lemma CeilOf(x: real, n: int)
    requires n as real <= x <= (n + 1) as real
    ensures Ceil(x) == if x == n as real then n else n + 1
  {
  }

  /** The announced seconds, without rounding: the ceiling of the wait, at least one, except that
      a lost fraction is not rounded up. */
  lemma {:induction false} AnnouncedSeconds(wait: int)
    requires -LONGEST <= wait <= LONGEST
    ensures RetryAfterSeconds(wait) ==
      if wait <= 1_000_000_000 then 1
      else if wait % 1_000_000_000 == 0 || LosesFraction(wait) then wait / 1_000_000_000
      else wait / 1_000_000_000 + 1
  {
    SecondsApproximate(wait);
    if wait >= 0 {
      CeilOf(Seconds(wait), wait / 1_000_000_000);
      if wait >= 1_000_000_000 && wait % 1_000_000_000 != 0 {
        FractionIsLostIff(wait);
      }
    }
  }

  /** A client that waits Retry-After seconds (section 10.2.3 of RFC 9110) reaches reset_at if
      and only if its wait is not one that loses its fraction; and it waits less than a second
      too long unless the floor of one second applies. */
  lemma {:induction false} RetryAfterReachesResetIff(now: nat, resetAtMillis: nat)
    requires -LONGEST <= resetAtMillis * 1_000_000 - now <= LONGEST
    ensures var wait := resetAtMillis * 1_000_000 - now;
      var n := RetryAfterSeconds(wait);
      && ((now + n * 1_000_000_000) / 1_000_000 >= resetAtMillis <==> !LosesFraction(wait))
      && (n > 1 ==> (n - 1) * 1_000_000_000 < wait)
  {
    AnnouncedSeconds(resetAtMillis * 1_000_000 - now);
    LosesOnlyFractions(resetAtMillis * 1_000_000 - now);
  }

  lemma LosesOnlyFractions(wait: int)
    ensures LosesFraction(wait) ==> wait > 1_000_000_000 && wait % 1_000_000_000 != 0
  {
  }

  function Nanos(whole: nat, rest: nat): int {
    whole * 1_000_000_000 + rest
  }

  lemma NanosApart(whole: nat, rest: nat)
    requires rest < 1_000_000_000
    ensures Nanos(whole, rest) / 1_000_000_000 == whole && Nanos(whole, rest) % 1_000_000_000 == rest
  {
  }

  /** Whole seconds below 2^24, about 194 days, keep every fraction; all others lose at least that
      of one nanosecond. */
  lemma {:induction false} WholeSecondsLoseIff(whole: nat)
    requires whole < 17_179_869_184
    ensures (exists rest: nat :: rest < 1_000_000_000 && LosesFraction(Nanos(whole, rest))) <==> whole >= 16_777_216
  {
    if whole >= 16_777_216 {
      NanosecondIsLost(whole);
    } else {
      forall rest: nat | rest < 1_000_000_000
        ensures !LosesFraction(Nanos(whole, rest))
      {
        NothingIsLost(whole, rest);
      }
    }
  }

  lemma {:induction false} NanosecondIsLost(whole: nat)
    requires 16_777_216 <= whole < 17_179_869_184
    ensures LosesFraction(Nanos(whole, 1))
  {
    var j := Log2(whole);
    NanosApart(whole, 1);
    BinadeOfSum(whole, 0.0);
    Pow2Values();
    if j < 24 {
      Pow2Grows(j + 1, 24);
    }
    Pow2Grows(52 - j, 28);
    assert Pow2(29) == 2 * Pow2(28);
  }

  lemma {:induction false} NothingIsLost(whole: nat, rest: nat)
    requires whole < 16_777_216 && rest < 1_000_000_000
    ensures !LosesFraction(Nanos(whole, rest))
  {
    NanosApart(whole, rest);
    if whole >= 1 && rest >= 1 {
      var j := Log2(whole);
      Pow2Values();
      if j >= 24 {
        Pow2Grows(24, j);
      }
      Pow2Grows(29, 52 - j);
      AtLeastOnce(rest, Pow2(52 - j));
    }
  }

  lemma AtLeastOnce(a: nat, b: nat)
    requires a >= 1
    ensures a * b >= b
  {
  }

  // ---------- for a client of the limiter ----------

  /** A window can produce a wait that loses its fraction if and only if it is longer than 2^24
      seconds. */
  lemma {:induction false} WindowCanLoseIff(window: nat)
    requires window * 1_000_000 <= LONGEST
    ensures (exists wait: int :: 0 < wait <= window * 1_000_000 && LosesFraction(wait)) <==> window > 16_777_216_000
  {
    if window > 16_777_216_000 {
      NanosecondIsLost(16_777_216);
    } else {
      forall wait: int | 0 < wait <= window * 1_000_000
        ensures !LosesFraction(wait)
      {
        ShortWaitIsKept(wait);
      }
    }
  }

  lemma {:induction false} ShortWaitIsKept(wait: int)
    requires 0 < wait <= 16_777_216_000_000_000
    ensures !LosesFraction(wait)
  {
    if wait < 16_777_216_000_000_000 {
      BelowIsKept(wait);
    } else {
      LosesOnlyFractions(16_777_216_000_000_000);
    }
  }

  lemma {:induction false} BelowIsKept(wait: int)
    requires 0 <= wait < 16_777_216_000_000_000
    ensures !LosesFraction(wait)
  {
    var whole, rest := SplitWait(wait);
    NothingIsLost(whole, rest);
  }

  lemma SplitWait(wait: int) returns (whole: nat, rest: nat)
    requires 0 <= wait < 16_777_216_000_000_000
    ensures wait == Nanos(whole, rest) && whole < 16_777_216 && rest < 1_000_000_000
  {
    whole, rest := wait / 1_000_000_000, wait % 1_000_000_000;
  }

  /** Retry-After keeps its promise: a client rejected at the nanosecond `instant` that comes
      back after the announced seconds is admitted, provided that its wait is not one that loses
      its fraction and that whatever other requests the key saw in between came before
      reset_at. */
  lemma {:induction false} WaitingIsRewarded(
    window: nat, limit: nat, reqs: seq<Request>, instant: nat, member: string, resetAt: nat, early: seq<Request>)
    requires RejectedAt(window, limit, reqs, Request(instant / 1_000_000, member), resetAt)
    requires AllBetween(early, instant / 1_000_000, resetAt)
    requires window * 1_000_000 <= LONGEST && !LosesFraction(resetAt * 1_000_000 - instant)
    ensures var back := (instant + RetryAfterSeconds(resetAt * 1_000_000 - instant) * 1_000_000_000) / 1_000_000;
      Allows(StoredThen(window, limit, reqs, Request(instant / 1_000_000, member), early), back, window, limit)
  {
    var r := Request(instant / 1_000_000, member);
    var back := (instant + RetryAfterSeconds(resetAt * 1_000_000 - instant) * 1_000_000_000) / 1_000_000;
    RejectionIsTight(window, limit, reqs, r, resetAt, [], r.now);
    WaitIsBounded(window, instant, resetAt);
    RetryAfterReachesResetIff(instant, resetAt);
    AdmittedFromReset(window, limit, reqs, r, resetAt, early, back);
  }

  lemma WaitIsBounded(window: nat, instant: nat, resetAt: nat)
    requires instant / 1_000_000 < resetAt <= instant / 1_000_000 + window
    ensures 0 < resetAt * 1_000_000 - instant <= window * 1_000_000
  {
  }
}
