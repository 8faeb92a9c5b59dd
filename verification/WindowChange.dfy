/** When a reload to another failure window is noticed: which changes of settings can make the
    clone of a closed breaker decide otherwise than the full failure history would. */
module WindowChange {
  import opened BreakerCore
  import opened BreakerRuns
  import opened Residues

  /** After these calls the clone made at `now` trips, or does not, against the full history. */
  ghost predicate Differs(prev: Config, cfg: Config, es: seq<Event>, now: nat)
    requires Normal(prev) && Normal(cfg)
  {
    && Ordered(es) && now >= LastNow(es) && Run(prev, FRESH, es).state == Closed
    && ((Clone(prev, cfg, Run(prev, FRESH, es), now).state == Open) !=
        (|Kept(FullRun(prev, FRESH, es).failures, now - cfg.windowSize)| >= cfg.failureThreshold))
  }

  /** Some run and some later instant make it so. */
  ghost predicate CanDiffer(prev: Config, cfg: Config)
    requires Normal(prev) && Normal(cfg)
  {
    exists es, now :: Differs(prev, cfg, es, now)
  }

  /** The most failures that d + 1 successive instants can hold without `narrow` + 1 of them
      holding `threshold`: one less than that in each block of `narrow` + 1 instants. */
  function Most(threshold: int, narrow: int, d: int): int
    requires narrow >= 1
    decreases if d < 0 then 0 else d + 1
  {
    if d < 0 then 0 else threshold - 1 + Most(threshold, narrow, d - (narrow + 1))
  }

  lemma {:induction false} MostIsProduct(threshold: int, narrow: int, d: nat)
    requires narrow >= 1
    ensures Most(threshold, narrow, d) == (threshold - 1) * (d / (narrow + 1) + 1)
    decreases d
  {
    if d < narrow + 1 {
      SmallQuotient(d, narrow + 1);
    } else {
      MostIsProduct(threshold, narrow, d - (narrow + 1));
      NextQuotient(d, narrow + 1);
      Distributes(threshold - 1, (d - (narrow + 1)) / (narrow + 1) + 1);
    }
  }

  lemma SmallQuotient(d: nat, n: nat)
    requires d < n
    ensures d / n == 0
  {
  }

  lemma NextQuotient(d: nat, n: nat)
    requires 1 <= n <= d
    ensures d / n == (d - n) / n + 1
  {
    var q, p := d / n, (d - n) / n + 1;
    assert d == n * q + d % n && d - n == n * (p - 1) + (d - n) % n;
    assert n * (p - 1) == n * p - n;
    MultipleIsFar(q - p, n);
    assert (q - p) * n == n * q - n * p;
  }

  lemma Distributes(a: int, b: int)
    ensures a * (b + 1) == a * b + a
  {
  }

  lemma {:induction false} MostGrows(threshold: int, narrow: int, d: int, e: int)
    requires narrow >= 1 && threshold >= 1 && d <= e
    ensures 0 <= Most(threshold, narrow, d) <= Most(threshold, narrow, e)
    decreases if e < 0 then 0 else e + 1
  {
    if e >= 0 {
      MostGrows(threshold, narrow, d - (narrow + 1), e - (narrow + 1));
    }
  }

  // ---------- counting instants ----------

  lemma {:induction false} KeptSplit(fs: seq<nat>, gs: seq<nat>, cutoff: int)
    ensures Kept(fs + gs, cutoff) == Kept(fs, cutoff) + Kept(gs, cutoff)
  {
    if gs == [] {
      assert fs + gs == fs;
    } else {
      var n := |gs| - 1;
      KeptSplit(fs, gs[..n], cutoff);
      KeptAppend(fs + gs[..n], gs[n], cutoff);
      SplitLast(fs, gs);
    }
  }

  lemma SplitLast(fs: seq<nat>, gs: seq<nat>)
    requires gs != []
    ensures fs + gs[..|gs| - 1] + [gs[|gs| - 1]] == fs + gs
  {
  }

  lemma {:induction false} KeptSplitAt(fs: seq<nat>, m: nat, cutoff: int)
    requires m <= |fs|
    ensures |Kept(fs, cutoff)| <= |Kept(fs[..m], cutoff)| + |fs| - m
  {
    assert fs == fs[..m] + fs[m..];
    KeptSplit(fs[..m], fs[m..], cutoff);
  }

  lemma {:induction false} KeptNone(fs: seq<nat>, cutoff: int)
    requires forall i | 0 <= i < |fs| :: fs[i] < cutoff
    ensures Kept(fs, cutoff) == []
  {
    if fs != [] {
      KeptNone(fs[..|fs| - 1], cutoff);
    }
  }

  lemma {:induction false} KeptAll(fs: seq<nat>, cutoff: int)
    requires forall i | 0 <= i < |fs| :: cutoff <= fs[i]
    ensures Kept(fs, cutoff) == fs
  {
    if fs != [] {
      KeptAll(fs[..|fs| - 1], cutoff);
    }
  }

  /** What lies before the cutoff does not count. */
  lemma {:induction false} KeptFrom(fs: seq<nat>, a: nat, cutoff: int)
    requires a <= |fs| && forall i | 0 <= i < a :: fs[i] < cutoff
    ensures |Kept(fs, cutoff)| <= |fs| - a
    ensures (forall i | a <= i < |fs| :: cutoff <= fs[i]) ==> |Kept(fs, cutoff)| == |fs| - a
  {
    assert fs == fs[..a] + fs[a..];
    KeptSplit(fs[..a], fs[a..], cutoff);
    KeptNone(fs[..a], cutoff);
    if forall i | a <= i < |fs| :: cutoff <= fs[i] {
      KeptAll(fs[a..], cutoff);
    }
  }

  // ---------- a closed breaker's history is sparse ----------

  ghost predicate InOrder(fs: seq<nat>) {
    forall i, j | 0 <= i < j < |fs| :: fs[i] <= fs[j]
  }

  /** The window ending at instant i holds fewer than `threshold` of the instants up to it. */
  ghost predicate SparseAt(fs: seq<nat>, i: nat, window: int, threshold: int)
    requires i < |fs|
  {
    |Kept(fs[..i + 1], fs[i] - window)| < threshold
  }

  ghost predicate Sparse(fs: seq<nat>, window: int, threshold: int) {
    forall i | 0 <= i < |fs| :: SparseAt(fs, i, window, threshold)
  }

  lemma {:induction false} SparseSnoc(fs: seq<nat>, t: nat, window: int, threshold: int)
    requires Sparse(fs, window, threshold) && |Kept(fs + [t], t - window)| < threshold
    ensures Sparse(fs + [t], window, threshold)
  {
    var gs := fs + [t];
    forall i | 0 <= i < |gs|
      ensures SparseAt(gs, i, window, threshold)
    {
      if i < |fs| {
        assert SparseAt(fs, i, window, threshold);
        assert gs[..i + 1] == fs[..i + 1];
      } else {
        assert gs[..i + 1] == gs;
      }
    }
  }

  lemma {:induction false} SparsePrefix(fs: seq<nat>, m: nat, window: int, threshold: int)
    requires Sparse(fs, window, threshold) && m <= |fs|
    ensures Sparse(fs[..m], window, threshold)
  {
    forall i | 0 <= i < m
      ensures SparseAt(fs[..m], i, window, threshold)
    {
      assert SparseAt(fs, i, window, threshold);
      assert fs[..m][..i + 1] == fs[..i + 1];
    }
  }

  /** What one call does to the full history. */
  lemma FullFailures(cfg: Config, c: Core, e: Event)
    requires Normal(cfg)
    ensures var fs := FullStep(cfg, c, e).failures;
      || fs == [] || fs == c.failures
      || (fs == c.failures + [e.now] && |Kept(fs, e.now - cfg.windowSize)| < cfg.failureThreshold)
  {
  }

  /** The full history of a run is in order and sparse. */
  ghost predicate Lawful(cfg: Config, fs: seq<nat>, last: nat) {
    && InOrder(fs) && (forall i | 0 <= i < |fs| :: fs[i] <= last)
    && Sparse(fs, cfg.windowSize, cfg.failureThreshold)
  }

  lemma {:induction false} HistoryIsLawful(cfg: Config, es: seq<Event>)
    requires Normal(cfg) && Ordered(es)
    ensures Lawful(cfg, FullRun(cfg, FRESH, es).failures, LastNow(es))
  {
    if es != [] {
      var front, e := es[..|es| - 1], es[|es| - 1];
      assert Ordered(front) && LastNow(front) <= e.now;
      HistoryIsLawful(cfg, front);
      LawfulStep(cfg, FullRun(cfg, FRESH, front), LastNow(front), e);
    }
  }

  lemma {:induction false} LawfulStep(cfg: Config, c: Core, last: nat, e: Event)
    requires Normal(cfg) && Lawful(cfg, c.failures, last) && last <= e.now
    ensures Lawful(cfg, FullStep(cfg, c, e).failures, e.now)
  {
    FullFailures(cfg, c, e);
    if FullStep(cfg, c, e).failures == c.failures + [e.now] {
      SparseSnoc(c.failures, e.now, cfg.windowSize, cfg.failureThreshold);
    }
  }

  /** The first index whose instant is not before the cutoff. */
  lemma {:induction false} FirstFrom(fs: seq<nat>, cutoff: int) returns (m: nat)
    requires InOrder(fs)
    ensures m <= |fs| && (forall i | 0 <= i < m :: fs[i] < cutoff) && forall i | m <= i < |fs| :: cutoff <= fs[i]
  {
    m := 0;
    while m < |fs| && fs[m] < cutoff
      invariant m <= |fs| && forall i | 0 <= i < m :: fs[i] < cutoff
    {
      m := m + 1;
    }
  }

  /** A sparse history holds at most so many instants in [cutoff, top]. */
  lemma {:induction false} SparseIsBounded(fs: seq<nat>, narrow: int, threshold: int, cutoff: int, top: int)
    requires narrow >= 1 && threshold >= 1 && InOrder(fs) && Sparse(fs, narrow, threshold)
    requires forall i | 0 <= i < |fs| :: fs[i] <= top
    ensures |Kept(fs, cutoff)| <= Most(threshold, narrow, top - cutoff)
    decreases |fs|
  {
    MostGrows(threshold, narrow, top - cutoff, top - cutoff);
    if fs == [] || fs[|fs| - 1] < cutoff {
      KeptNone(fs, cutoff);
    } else {
      var t := fs[|fs| - 1];
      var m := LastBlock(fs, narrow, threshold, cutoff);
      SparsePrefix(fs, m, narrow, threshold);
      SparseIsBounded(fs[..m], narrow, threshold, cutoff, t - narrow - 1);
      assert Most(threshold, narrow, t - cutoff) == threshold - 1 + Most(threshold, narrow, t - cutoff - (narrow + 1));
      MostGrows(threshold, narrow, t - cutoff, top - cutoff);
    }
  }

  /** The instants within a window before the last one are fewer than the threshold. */
  lemma {:induction false} LastBlock(fs: seq<nat>, narrow: int, threshold: int, cutoff: int) returns (m: nat)
    requires narrow >= 1 && fs != [] && InOrder(fs) && Sparse(fs, narrow, threshold)
    ensures m < |fs| && (forall i | 0 <= i < m :: fs[i] <= fs[|fs| - 1] - narrow - 1) && InOrder(fs[..m])
    ensures |Kept(fs, cutoff)| <= |Kept(fs[..m], cutoff)| + threshold - 1
  {
    var n := |fs| - 1;
    m := FirstFrom(fs, fs[n] - narrow);
    assert SparseAt(fs, n, narrow, threshold) && fs[..n + 1] == fs;
    KeptFrom(fs, m, fs[n] - narrow);
    KeptSplitAt(fs, m, cutoff);
  }

  /** So a clone cannot miss more failures than that. */
  lemma {:induction false} DiffersOnlyIf(prev: Config, cfg: Config, es: seq<Event>, now: nat)
    requires Normal(prev) && Normal(cfg) && Differs(prev, cfg, es, now)
    ensures cfg.windowSize > prev.windowSize
    ensures cfg.failureThreshold <= Most(prev.failureThreshold, prev.windowSize, cfg.windowSize)
  {
    if cfg.windowSize <= prev.windowSize {
      NarrowerWindowKeepsHistory(prev, cfg, es, now);
    } else {
      HistoryIsBounded(prev, es, cfg.windowSize, now);
      OnlyTheHistoryTrips(prev, cfg, es, now);
    }
  }

  /** The clone never trips where the full history would not. */
  lemma {:induction false} OnlyTheHistoryTrips(prev: Config, cfg: Config, es: seq<Event>, now: nat)
    requires Normal(prev) && Normal(cfg) && Differs(prev, cfg, es, now)
    ensures |Kept(FullRun(prev, FRESH, es).failures, now - cfg.windowSize)| >= cfg.failureThreshold
  {
    PrunedIsFewer(prev, es, now - cfg.windowSize);
    CloneOfFewer(prev, cfg, Run(prev, FRESH, es), FullRun(prev, FRESH, es), now);
  }

  lemma {:induction false} CloneOfFewer(prev: Config, cfg: Config, c: Core, full: Core, now: nat)
    requires Normal(prev) && Normal(cfg) && c.state == Closed
    requires |Kept(c.failures, now - cfg.windowSize)| <= |Kept(full.failures, now - cfg.windowSize)|
    ensures Clone(prev, cfg, c, now).state == Open ==>
      |Kept(full.failures, now - cfg.windowSize)| >= cfg.failureThreshold
  {
    ClosedCloneTrips(prev, cfg, c, now);
  }

  lemma {:induction false} HistoryIsBounded(cfg: Config, es: seq<Event>, wide: int, now: nat)
    requires Normal(cfg) && Ordered(es) && now >= LastNow(es)
    ensures |Kept(FullRun(cfg, FRESH, es).failures, now - wide)| <= Most(cfg.failureThreshold, cfg.windowSize, wide)
  {
    HistoryIsLawful(cfg, es);
    LawfulIsBounded(cfg, FullRun(cfg, FRESH, es).failures, LastNow(es), wide, now);
  }

  lemma {:induction false} LawfulIsBounded(cfg: Config, fs: seq<nat>, last: nat, wide: int, now: nat)
    requires Normal(cfg) && Lawful(cfg, fs, last) && now >= last
    ensures |Kept(fs, now - wide)| <= Most(cfg.failureThreshold, cfg.windowSize, wide)
  {
    SparseIsBounded(fs, cfg.windowSize, cfg.failureThreshold, now - wide, now);
  }

  /** The pruned list is a part of the full one. */
  lemma {:induction false} PrunedIsFewer(cfg: Config, es: seq<Event>, cutoff: int)
    requires Normal(cfg) && Ordered(es)
    ensures |Kept(Run(cfg, FRESH, es).failures, cutoff)| <= |Kept(FullRun(cfg, FRESH, es).failures, cutoff)|
  {
    if es != [] {
      var front, e := es[..|es| - 1], es[|es| - 1];
      PrunedIsFewer(cfg, front, cutoff);
      PruningIsInvisible(cfg, front);
      PrunedStep(cfg, Run(cfg, FRESH, front), FullRun(cfg, FRESH, front), e, cutoff);
    }
  }

  lemma KeptShrinks(fs: seq<nat>, a: int, b: int)
    ensures |Kept(Kept(fs, a), b)| <= |Kept(fs, b)|
  {
    if fs != [] {
      var n := |fs| - 1;
      KeptShrinks(fs[..n], a, b);
      if fs[n] >= a {
        KeptAppend(Kept(fs[..n], a), fs[n], b);
      } else {
        assert Kept(fs, a) == Kept(fs[..n], a);
      }
    }
  }

  lemma {:induction false} PrunedStep(cfg: Config, c: Core, full: Core, e: Event, cutoff: int)
    requires Normal(cfg) && c == full.(failures := c.failures)
    requires |Kept(c.failures, cutoff)| <= |Kept(full.failures, cutoff)|
    requires Kept(c.failures + [e.now], e.now - cfg.windowSize) == Kept(full.failures + [e.now], e.now - cfg.windowSize)
    ensures |Kept(Step(cfg, c, e).failures, cutoff)| <= |Kept(FullStep(cfg, full, e).failures, cutoff)|
  {
    if c.state == Closed && e.call == Success {
      PrunedOnSuccess(cfg, c, full, e, cutoff);
    } else if c.state == Closed && e.call == Failure {
      PrunedOnFailure(cfg, c, full, e, cutoff);
    } else {
      OtherCallsAlike(cfg, c, full, e);
    }
  }

  lemma {:induction false} PrunedOnSuccess(cfg: Config, c: Core, full: Core, e: Event, cutoff: int)
    requires Normal(cfg) && c == full.(failures := c.failures) && c.state == Closed && e.call == Success
    requires |Kept(c.failures, cutoff)| <= |Kept(full.failures, cutoff)|
    ensures |Kept(Step(cfg, c, e).failures, cutoff)| <= |Kept(FullStep(cfg, full, e).failures, cutoff)|
  {
    KeptShrinks(c.failures, e.now - cfg.windowSize, cutoff);
  }

  lemma {:induction false} PrunedOnFailure(cfg: Config, c: Core, full: Core, e: Event, cutoff: int)
    requires Normal(cfg) && c == full.(failures := c.failures) && c.state == Closed && e.call == Failure
    requires |Kept(c.failures, cutoff)| <= |Kept(full.failures, cutoff)|
    requires Kept(c.failures + [e.now], e.now - cfg.windowSize) == Kept(full.failures + [e.now], e.now - cfg.windowSize)
    ensures |Kept(Step(cfg, c, e).failures, cutoff)| <= |Kept(FullStep(cfg, full, e).failures, cutoff)|
  {
    StepOnFailure(cfg, c, e);
    FullOnFailure(cfg, full, e);
    ListsAfterFailure(c.failures, full.failures, e.now, e.now - cfg.windowSize, cfg.failureThreshold, cutoff,
                      Step(cfg, c, e).failures, FullStep(cfg, full, e).failures);
  }

  lemma {:induction false} ListsAfterFailure(
    fs: seq<nat>, gs: seq<nat>, t: nat, prune: int, threshold: int, cutoff: int, fs': seq<nat>, gs': seq<nat>)
    requires |Kept(fs, cutoff)| <= |Kept(gs, cutoff)| && Kept(fs + [t], prune) == Kept(gs + [t], prune)
    requires fs' == if |Kept(fs + [t], prune)| >= threshold then [] else Kept(fs + [t], prune)
    requires gs' == if |Kept(gs + [t], prune)| >= threshold then [] else gs + [t]
    ensures |Kept(fs', cutoff)| <= |Kept(gs', cutoff)|
  {
    if |Kept(fs + [t], prune)| < threshold {
      PrunedFailure(fs, gs, t, prune, cutoff);
    }
  }

  lemma {:induction false} PrunedFailure(fs: seq<nat>, gs: seq<nat>, t: nat, prune: int, cutoff: int)
    requires |Kept(fs, cutoff)| <= |Kept(gs, cutoff)|
    ensures |Kept(Kept(fs + [t], prune), cutoff)| <= |Kept(gs + [t], cutoff)|
  {
    KeptAppend(fs, t, cutoff);
    KeptAppend(gs, t, cutoff);
    KeptShrinks(fs + [t], prune, cutoff);
  }

  lemma {:induction false} StepOnFailure(cfg: Config, c: Core, e: Event)
    requires Normal(cfg) && c.state == Closed && e.call == Failure
    ensures var kept := Kept(c.failures + [e.now], e.now - cfg.windowSize);
      Step(cfg, c, e).failures == if |kept| >= cfg.failureThreshold then [] else kept
  {
  }

  lemma {:induction false} FullOnFailure(cfg: Config, c: Core, e: Event)
    requires Normal(cfg) && c.state == Closed && e.call == Failure
    ensures var all := c.failures + [e.now]; var kept := Kept(all, e.now - cfg.windowSize);
      FullStep(cfg, c, e).failures == if |kept| >= cfg.failureThreshold then [] else all
  {
  }

  // ---------- runs that are noticed ----------

  /** A run of failures at these instants, in order. */
  function Failures(ts: seq<nat>): (es: seq<Event>)
    ensures |es| == |ts|
  {
    seq(|ts|, i requires 0 <= i < |ts| => Event(Failure, ts[i]))
  }

  lemma {:induction false} TimesOfFailures(ts: seq<nat>)
    ensures FailureTimes(Failures(ts)) == ts
  {
    if ts != [] {
      var n := |ts| - 1;
      TimesOfFailures(ts[..n]);
      assert Failures(ts)[..n] == Failures(ts[..n]);
      assert ts[..n] + [ts[n]] == ts;
    }
  }

  lemma {:induction false} FailuresPrefix(ts: seq<nat>, i: nat)
    requires i <= |ts|
    ensures Failures(ts)[..i] == Failures(ts[..i])
  {
  }

  /** A sparse series of failures trips nothing, and all of it stays in the full history. */
  lemma {:induction false} SparseSeries(cfg: Config, ts: seq<nat>)
    requires Normal(cfg) && Sparse(ts, cfg.windowSize, cfg.failureThreshold)
    ensures NoTripYet(cfg, Failures(ts)) && FullRun(cfg, FRESH, Failures(ts)) == FRESH.(failures := ts)
  {
    forall i | 0 <= i <= |ts|
      ensures !Trips(cfg, Failures(ts)[..i])
    {
      FailuresPrefix(ts, i);
      TimesOfFailures(ts[..i]);
      if i > 0 {
        assert SparseAt(ts, i - 1, cfg.windowSize, cfg.failureThreshold);
        assert ts[..i - 1 + 1] == ts[..i];
      }
    }
    assert Failures(ts)[..|ts|] == Failures(ts);
    TimesOfFailures(ts);
    FullRunUntilTrip(cfg, Failures(ts));
  }

  /** n failures at the start of each block of w + 1 instants. */
  function Blocks(n: nat, w: nat, m: nat): (ts: seq<nat>)
    requires n >= 1
    ensures |ts| == m
  {
    seq(m, i requires 0 <= i => BlockTime(n, w, i))
  }

  function BlockTime(n: nat, w: nat, i: nat): nat
    requires n >= 1
  {
    var q: nat := i / n;
    q * (w + 1)
  }

  lemma BlockTimes(n: nat, w: nat, i: nat, j: nat)
    requires n >= 1 && i <= j
    ensures BlockTime(n, w, i) <= BlockTime(n, w, j)
    ensures i < j / n * n ==> BlockTime(n, w, i) <= BlockTime(n, w, j) - (w + 1)
  {
    var p, q := i / n, j / n;
    QuotientGrows(i, j, n);
    MonotoneIn(p, q, w + 1);
    if i < q * n {
      BelowMultiple(i, q, n);
      MonotoneIn(p, q - 1, w + 1);
      assert (q - 1) * (w + 1) == q * (w + 1) - (w + 1);
    }
  }

  lemma QuotientGrows(i: nat, j: nat, n: nat)
    requires n >= 1 && i <= j
    ensures i / n <= j / n
  {
    var p, q := i / n, j / n;
    assert i == n * p + i % n && j == n * q + j % n;
    MultipleIsFar(q - p, n);
    assert (q - p) * n == n * q - n * p;
  }

  lemma BelowMultiple(i: nat, q: nat, n: nat)
    requires n >= 1 && i < q * n
    ensures i / n <= q - 1
  {
    var p := i / n;
    assert i == n * p + i % n;
    MultipleIsFar(p - q, n);
    assert (p - q) * n == n * p - q * n;
  }

  lemma MonotoneIn(p: nat, q: nat, d: nat)
    requires p <= q
    ensures p * d <= q * d
  {
    assert (q - p) * d >= 0;
  }

  lemma {:induction false} BlocksAreSparse(n: nat, w: nat, m: nat)
    requires n >= 1 && w >= 1
    ensures InOrder(Blocks(n, w, m)) && Sparse(Blocks(n, w, m), w, n + 1)
  {
    var ts, limit := Blocks(n, w, m), n + 1;
    forall i, j | 0 <= i < j < m
      ensures ts[i] <= ts[j]
    {
      BlockTimes(n, w, i, j);
    }
    forall i | 0 <= i < m
      ensures SparseAt(ts, i, w, limit)
    {
      BlockIsSparse(n, w, m, i);
    }
  }

  lemma {:induction false} BlockIsSparse(n: nat, w: nat, m: nat, i: nat)
    requires n >= 1 && i < m
    ensures SparseAt(Blocks(n, w, m), i, w, n + 1)
  {
    var ts, a := Blocks(n, w, m), i / n * n;
    var front := ts[..i + 1];
    assert i == a + i % n;
    forall k | 0 <= k < a
      ensures front[k] < ts[i] - w
    {
      BlockTimes(n, w, k, i);
    }
    KeptFrom(front, a, ts[i] - w);
  }

  /** With at least the old threshold: the fullest history that has not tripped. */
  lemma {:induction false} BlocksDiffer(prev: Config, cfg: Config)
    requires Normal(prev) && Normal(cfg) && prev.failureThreshold >= 2
    requires prev.failureThreshold <= cfg.failureThreshold
    requires cfg.failureThreshold <= Most(prev.failureThreshold, prev.windowSize, cfg.windowSize)
    ensures CanDiffer(prev, cfg)
  {
    var n, w, W := prev.failureThreshold - 1, prev.windowSize, cfg.windowSize;
    var m := n * (W / (w + 1) + 1);
    MostIsProduct(prev.failureThreshold, w, W);
    var ts := Blocks(n, w, m);
    BlocksAreSparse(n, w, m);
    BlocksEndInTime(n, w, W);
    SparseSeries(prev, ts);
    KeptAll(ts, W - W);
    SeriesDiffers(prev, cfg, ts, W);
  }

  lemma {:induction false} BlocksEndInTime(n: nat, w: nat, wide: nat)
    requires n >= 1 && w >= 1
    ensures var ts := Blocks(n, w, n * (wide / (w + 1) + 1)); forall i | 0 <= i < |ts| :: ts[i] <= wide
  {
    var q := wide / (w + 1);
    var ts := Blocks(n, w, n * (q + 1));
    forall i | 0 <= i < |ts|
      ensures ts[i] <= wide
    {
      assert n * (q + 1) == (q + 1) * n;
      BelowMultiple(i, q + 1, n);
      MonotoneIn(i / n, q, w + 1);
      assert wide == (w + 1) * q + wide % (w + 1);
    }
  }

  /** The clone of a breaker that has recorded this series misses it. */
  lemma {:induction false} SeriesDiffers(prev: Config, cfg: Config, ts: seq<nat>, now: nat)
    requires Normal(prev) && Normal(cfg) && InOrder(ts) && (forall i | 0 <= i < |ts| :: ts[i] <= now)
    requires Sparse(ts, prev.windowSize, prev.failureThreshold) && prev.failureThreshold <= cfg.failureThreshold
    requires |Kept(ts, now - cfg.windowSize)| >= cfg.failureThreshold
    ensures CanDiffer(prev, cfg)
  {
    var es := Failures(ts);
    SparseSeries(prev, ts);
    assert Ordered(es);
    PruningIsInvisible(prev, es);
    RunKeepsValid(prev, FRESH, es);
    ClosedCloneTrips(prev, cfg, Run(prev, FRESH, es), now);
    assert Differs(prev, cfg, es, now);
  }

  /** With less than the old threshold: that many failures, pruned by a success after the old
      window. */
  lemma {:induction false} PrunedDiffers(prev: Config, cfg: Config)
    requires Normal(prev) && Normal(cfg)
    requires cfg.windowSize > prev.windowSize && cfg.failureThreshold < prev.failureThreshold
    ensures CanDiffer(prev, cfg)
  {
    var ts: seq<nat> := seq(cfg.failureThreshold, _ => 0);
    var e := Event(Success, prev.windowSize + 1);
    ZerosAreForgotten(prev, ts, e.now - prev.windowSize);
    KeptAll(ts, e.now - cfg.windowSize);
    SuccessDiffers(prev, cfg, Failures(ts), e, ts);
  }

  lemma {:induction false} ZerosAreForgotten(prev: Config, ts: seq<nat>, cutoff: int)
    requires Normal(prev) && cutoff >= 1 && |ts| < prev.failureThreshold && forall i | 0 <= i < |ts| :: ts[i] == 0
    ensures var es := Failures(ts);
      && Ordered(es) && LastNow(es) == 0
      && Run(prev, FRESH, es).state == Closed && FullRun(prev, FRESH, es) == FRESH.(failures := ts)
      && Kept(Run(prev, FRESH, es).failures, cutoff) == []
  {
    ZerosAreSparse(ts, prev.windowSize, prev.failureThreshold);
    SparseSeries(prev, ts);
    PruningIsInvisible(prev, Failures(ts));
    KeptNone(ts, cutoff);
  }

  lemma {:induction false} ZerosAreSparse(ts: seq<nat>, window: int, threshold: int)
    requires |ts| < threshold
    ensures Sparse(ts, window, threshold)
  {
  }

  lemma {:induction false} SuccessDiffers(prev: Config, cfg: Config, es: seq<Event>, e: Event, ts: seq<nat>)
    requires Normal(prev) && Normal(cfg) && Ordered(es) && LastNow(es) <= e.now && e.call == Success
    requires Run(prev, FRESH, es).state == Closed && FullRun(prev, FRESH, es) == FRESH.(failures := ts)
    requires Kept(Run(prev, FRESH, es).failures, e.now - prev.windowSize) == []
    requires |Kept(ts, e.now - cfg.windowSize)| >= cfg.failureThreshold
    ensures CanDiffer(prev, cfg)
  {
    var all := es + [e];
    SuccessForgets(prev, es, e, ts);
    ClosedCloneTrips(prev, cfg, Run(prev, FRESH, all), e.now);
    assert LastNow(all) == e.now && Ordered(all);
    assert Differs(prev, cfg, all, e.now);
  }

  lemma {:induction false} SuccessForgets(prev: Config, es: seq<Event>, e: Event, ts: seq<nat>)
    requires Normal(prev) && e.call == Success
    requires Run(prev, FRESH, es).state == Closed && FullRun(prev, FRESH, es) == FRESH.(failures := ts)
    requires Kept(Run(prev, FRESH, es).failures, e.now - prev.windowSize) == []
    ensures Run(prev, FRESH, es + [e]).state == Closed && Run(prev, FRESH, es + [e]).failures == []
    ensures FullRun(prev, FRESH, es + [e]) == FRESH.(failures := ts)
  {
    RunSnoc(prev, FRESH, es, e);
    assert (es + [e])[..|es|] == es;
  }

  /** Exactly when a change of settings can be noticed: some run of a closed breaker leaves a
      clone that decides otherwise than the full history if and only if the new window is wider
      and the new threshold is one that so many failures, spread over it without tripping the
      old breaker, can reach. */
  lemma {:induction false} NoticedIff(prev: Config, cfg: Config)
    requires Normal(prev) && Normal(cfg)
    ensures CanDiffer(prev, cfg) <==>
      && cfg.windowSize > prev.windowSize
      && cfg.failureThreshold <= (prev.failureThreshold - 1) * (cfg.windowSize / (prev.windowSize + 1) + 1)
  {
    MostIsProduct(prev.failureThreshold, prev.windowSize, cfg.windowSize);
    if CanDiffer(prev, cfg) {
      var es, now :| Differs(prev, cfg, es, now);
      DiffersOnlyIf(prev, cfg, es, now);
    }
    if cfg.windowSize > prev.windowSize
       && cfg.failureThreshold <= Most(prev.failureThreshold, prev.windowSize, cfg.windowSize) {
      NoticedIf(prev, cfg);
    }
  }

  lemma {:induction false} NoticedIf(prev: Config, cfg: Config)
    requires Normal(prev) && Normal(cfg) && cfg.windowSize > prev.windowSize
    requires cfg.failureThreshold <= Most(prev.failureThreshold, prev.windowSize, cfg.windowSize)
    ensures CanDiffer(prev, cfg)
  {
    if cfg.failureThreshold < prev.failureThreshold {
      PrunedDiffers(prev, cfg);
    } else {
      if prev.failureThreshold == 1 {
        NothingFits(prev.windowSize, cfg.windowSize);
      }
      BlocksDiffer(prev, cfg);
    }
  }

  lemma {:induction false} NothingFits(narrow: int, d: int)
    requires narrow >= 1
    ensures Most(1, narrow, d) == 0
    decreases if d < 0 then 0 else d + 1
  {
    if d >= 0 {
      NothingFits(narrow, d - (narrow + 1));
    }
  }
}
