/** Smooth weighted round robin. Select is the in-place scan of the source; a run is a
    chain of its transitions, and the theorems hold of every run. */
module Weighted {
  import opened Common
  import opened Targets
  import opened Residues

  datatype Entry = Entry(target: Target, weight: int, current: int)

  function EffectiveWeight(t: Target): (w: int)
    ensures w >= 1 && (t.weight >= 1 ==> w == t.weight) && (t.weight < 1 ==> w == 1)
  {
    if t.weight <= 0 then 1 else t.weight
  }

  predicate Open(e: Entry, excluded: set<Address>) {
    !IsExcluded(excluded, e.target)
  }

  /** The entry's current weight once the scan has passed it. */
  function Bumped(e: Entry, excluded: set<Address>): int {
    if Open(e, excluded) then e.current + e.weight else e.current
  }

  function TotalWeight(es: seq<Entry>, excluded: set<Address>): int {
    if es == [] then 0
    else TotalWeight(es[..|es| - 1], excluded) + if Open(es[|es| - 1], excluded) then es[|es| - 1].weight else 0
  }

  function CurrentSum(es: seq<Entry>): int {
    if es == [] then 0 else CurrentSum(es[..|es| - 1]) + es[|es| - 1].current
  }

  /** k is the first eligible entry of greatest bumped weight among the first n. */
  predicate BestAmong(es: seq<Entry>, excluded: set<Address>, n: nat, k: nat)
    requires n <= |es|
  {
    && k < n && Open(es[k], excluded)
    && forall j | 0 <= j < n && Open(es[j], excluded) ::
      && Bumped(es[j], excluded) <= Bumped(es[k], excluded)
      && (j < k ==> Bumped(es[j], excluded) < Bumped(es[k], excluded))
  }

  predicate IsPick(es: seq<Entry>, excluded: set<Address>, k: nat) {
    BestAmong(es, excluded, |es|, k)
  }

  /** Every eligible entry gains its own weight; the picked one pays `total`. */
  function Paid(es: seq<Entry>, excluded: set<Address>, k: int, total: int): (r: seq<Entry>)
    ensures |r| == |es|
  {
    seq(|es|, i requires 0 <= i < |es| =>
      es[i].(current := Bumped(es[i], excluded) - if i == k then total else 0))
  }

  function After(es: seq<Entry>, excluded: set<Address>, k: nat): seq<Entry> {
    Paid(es, excluded, k, TotalWeight(es, excluded))
  }

  predicate Fresh(es: seq<Entry>) {
    forall e | e in es :: e.weight >= 1 && e.current == 0
  }

  class Weighted {
    const entries: array<Entry>

    ghost function Configured(): seq<Target>
      reads entries
    {
      seq(entries.Length, i requires 0 <= i < entries.Length reads entries => entries[i].target)
    }

    constructor (targets: seq<Target>)
      ensures fresh(entries) && Fresh(entries[..]) && Configured() == targets
      ensures forall i | 0 <= i < |targets| :: entries[i].weight == EffectiveWeight(targets[i])
    {
      entries := new Entry[|targets|](i requires 0 <= i < |targets| =>
        Entry(targets[i], EffectiveWeight(targets[i]), 0));
    }

    /** Select under the mutex. The ghost result names the picked entry. */
    method Select(excluded: set<Address>) returns (choice: Option<Target>, ghost k: nat)
      modifies entries
      ensures ValidSelection(old(Configured()), excluded, choice)
      ensures Configured() == old(Configured())
      ensures choice.None? ==> entries[..] == old(entries[..])
      ensures choice.Some? ==>
        && IsPick(old(entries[..]), excluded, k)
        && choice.value == old(entries[..])[k].target
        && entries[..] == After(old(entries[..]), excluded, k)
    {
      ghost var was := entries[..];
      var best, total := RaiseWeights(excluded);
      k := 0;
      if best == -1 {
        assert entries[..] == was;
        assert forall t | t in old(Configured()) :: exists j | 0 <= j < |was| :: t == was[j].target;
        return None, 0;
      }
      entries[best] := entries[best].(current := entries[best].current - total);
      k := best;
      assert entries[..] == After(was, excluded, k);
      choice := Some(entries[best].target);
      assert choice.value == old(Configured())[best];
    }

    /** The loop of Select: raises the eligible entries and finds the best of them. */
    method RaiseWeights(excluded: set<Address>) returns (best: int, total: int)
      modifies entries
      ensures -1 <= best < entries.Length && total == TotalWeight(old(entries[..]), excluded)
      ensures Raised(old(entries[..]), excluded, entries[..], entries.Length)
      ensures BestSoFar(old(entries[..]), excluded, entries.Length, best)
    {
      ghost var was := entries[..];
      best, total := -1, 0;
      for i := 0 to entries.Length
        invariant -1 <= best < i && total == TotalWeight(was[..i], excluded)
        invariant Raised(was, excluded, entries[..], i)
        invariant BestSoFar(was, excluded, i, best)
      {
        assert was[..i + 1][..i] == was[..i];
        assert entries[i] == was[i] && (best != -1 ==> entries[best].current == Bumped(was[best], excluded));
        BestStep(was, excluded, i, best);
        if IsExcluded(excluded, entries[i].target) {
          continue;
        }
        entries[i] := entries[i].(current := entries[i].current + entries[i].weight);
        total := total + entries[i].weight;
        if best == -1 || entries[i].current > entries[best].current {
          best := i;
        }
      }
      assert was[..|was|] == was;
    }
  }

  /** The scan has passed the first n entries. */
  predicate Raised(was: seq<Entry>, excluded: set<Address>, es: seq<Entry>, n: nat) {
    |es| == |was| && forall j | 0 <= j < |es| ::
      es[j] == if j < n then was[j].(current := Bumped(was[j], excluded)) else was[j]
  }

  predicate BestSoFar(was: seq<Entry>, excluded: set<Address>, n: nat, best: int)
    requires n <= |was|
  {
    if best < 0 then forall j | 0 <= j < n :: !Open(was[j], excluded) else BestAmong(was, excluded, n, best)
  }

  lemma BestStep(was: seq<Entry>, excluded: set<Address>, i: nat, best: int)
    requires i < |was| && best < i && BestSoFar(was, excluded, i, best)
    ensures
      var wins := Open(was[i], excluded) && (best < 0 || Bumped(was[i], excluded) > Bumped(was[best], excluded));
      BestSoFar(was, excluded, i + 1, if wins then i else best)
  {
  }

  // ---------- conservation under any exclusions ----------

  lemma {:induction false} SumPaid(es: seq<Entry>, excluded: set<Address>, k: int, total: int)
    ensures CurrentSum(Paid(es, excluded, k, total))
         == CurrentSum(es) + TotalWeight(es, excluded) - (if 0 <= k < |es| then total else 0)
  {
    if es != [] {
      var front := es[..|es| - 1];
      SumPaid(front, excluded, k, total);
      assert Paid(es, excluded, k, total)[..|es| - 1] == Paid(front, excluded, k, total);
    }
  }

  /** A chain of selects: states[i] goes to states[i + 1] by picking picks[i]. */
  ghost predicate IsRun(states: seq<seq<Entry>>, excludedAt: seq<set<Address>>, picks: seq<nat>) {
    && |states| == |picks| + 1 && |excludedAt| == |picks|
    && forall i | 0 <= i < |picks| ::
      IsPick(states[i], excludedAt[i], picks[i]) && states[i + 1] == After(states[i], excludedAt[i], picks[i])
  }

  /** Whatever is excluded at each select, the current weights go on summing to what they
      summed to at the start, and an entry excluded at a select is left as it was. */
  lemma {:induction false} RunConserves(states: seq<seq<Entry>>, excludedAt: seq<set<Address>>, picks: seq<nat>, n: nat)
    requires IsRun(states, excludedAt, picks) && n <= |picks|
    ensures |states[n]| == |states[0]| && CurrentSum(states[n]) == CurrentSum(states[0])
    ensures n < |picks| ==> forall j | 0 <= j < |states[0]| ::
      !Open(states[n][j], excludedAt[n]) ==> states[n + 1][j] == states[n][j]
  {
    if n > 0 {
      var es, excluded := states[n - 1], excludedAt[n - 1];
      RunConserves(states, excludedAt, picks, n - 1);
      SumPaid(es, excluded, picks[n - 1], TotalWeight(es, excluded));
      assert states[n - 1 + 1] == After(es, excluded, picks[n - 1]);
    }
  }

  /** The selects among the first n at which entry i was eligible. */
  function EligibleTimes(start: seq<Entry>, excludedAt: seq<set<Address>>, n: nat, i: nat): nat
    requires n <= |excludedAt| && i < |start|
  {
    if n == 0 then 0
    else EligibleTimes(start, excludedAt, n - 1, i) + if Open(start[i], excludedAt[n - 1]) then 1 else 0
  }

  /** The eligible totals of the selects among the first n that picked entry i. */
  function Charged(start: seq<Entry>, excludedAt: seq<set<Address>>, picks: seq<nat>, n: nat, i: nat): int
    requires n <= |excludedAt| == |picks|
  {
    if n == 0 then 0
    else
      Charged(start, excludedAt, picks, n - 1, i)
      + if picks[n - 1] == i then TotalWeight(start, excludedAt[n - 1]) else 0
  }

  /** Entries of two states that differ only in their current weights weigh the same. */
  lemma {:induction false} SameTotal(es: seq<Entry>, fs: seq<Entry>, excluded: set<Address>)
    requires |es| == |fs| && forall i | 0 <= i < |es| :: es[i] == fs[i].(current := es[i].current)
    ensures TotalWeight(es, excluded) == TotalWeight(fs, excluded)
  {
    if es != [] {
      SameTotal(es[..|es| - 1], fs[..|fs| - 1], excluded);
    }
  }

  /** Whatever is excluded at each select, an entry's current weight has gone up by its own
      weight for every select at which it was eligible, and down by the eligible total for every
      select that picked it. */
  lemma {:induction false} CurrentUnderExclusions(
    states: seq<seq<Entry>>, excludedAt: seq<set<Address>>, picks: seq<nat>, n: nat)
    requires IsRun(states, excludedAt, picks) && n <= |picks|
    ensures |states[n]| == |states[0]|
    ensures forall i | 0 <= i < |states[0]| ::
      states[n][i] == states[0][i].(current := states[0][i].current
        + EligibleTimes(states[0], excludedAt, n, i) * states[0][i].weight
        - Charged(states[0], excludedAt, picks, n, i))
  {
    if n > 0 {
      CurrentUnderExclusions(states, excludedAt, picks, n - 1);
      SameTotal(states[n - 1], states[0], excludedAt[n - 1]);
      assert states[n - 1 + 1] == After(states[n - 1], excludedAt[n - 1], picks[n - 1]);
      forall i | 0 <= i < |states[0]| {
        OneMore(EligibleTimes(states[0], excludedAt, n - 1, i), states[0][i].weight);
      }
    }
  }

  lemma OneMore(n: nat, w: int)
    ensures (n + 1) * w == n * w + w
  {
  }

  // ---------- exact proportionality without exclusions ----------

  lemma {:induction false} FreshSums(es: seq<Entry>)
    requires Fresh(es)
    ensures CurrentSum(es) == 0 && TotalWeight(es, {}) >= |es|
  {
    if es != [] {
      FreshSums(es[..|es| - 1]);
    }
  }

  /** When the current weights sum to zero the winner's bumped weight is positive. */
  lemma {:induction false} WinnerIsPositive(es: seq<Entry>, k: nat)
    requires IsPick(es, {}, k) && CurrentSum(es) == 0 && TotalWeight(es, {}) > 0
    ensures Bumped(es[k], {}) >= 1
  {
    if Bumped(es[k], {}) <= 0 {
      SumPaid(es, {}, -1, 0);
      AllNonPositive(Paid(es, {}, -1, 0));
      assert false;
    }
  }

  lemma {:induction false} AllNonPositive(es: seq<Entry>)
    requires forall e | e in es :: e.current <= 0
    ensures CurrentSum(es) <= 0
  {
    if es != [] {
      AllNonPositive(es[..|es| - 1]);
    }
  }

  lemma {:induction false} NonNegativeZeroSum(es: seq<Entry>)
    requires forall e | e in es :: e.current >= 0
    ensures CurrentSum(es) >= 0
    ensures CurrentSum(es) == 0 ==> forall e | e in es :: e.current == 0
  {
    if es != [] {
      NonNegativeZeroSum(es[..|es| - 1]);
      assert es == es[..|es| - 1] + [es[|es| - 1]];
    }
  }

  function NoExclusions(n: nat): seq<set<Address>> {
    seq(n, _ => {})
  }

  /** n copies of x added up. The induction below stays linear by using it. */
  function Times(n: nat, x: int): int {
    if n == 0 then 0 else Times(n - 1, x) + x
  }

  lemma {:induction false} TimesIsProduct(n: nat, x: int)
    ensures Times(n, x) == n * x
  {
    if n > 0 {
      TimesIsProduct(n - 1, x);
    }
  }

  /** How often i is among the first n picks. */
  function PickCount(picks: seq<nat>, n: nat, i: nat): nat
    requires n <= |picks|
  {
    if n == 0 then 0 else PickCount(picks, n - 1, i) + if picks[n - 1] == i then 1 else 0
  }

  ghost predicate Lawful(start: seq<Entry>, es: seq<Entry>, picks: seq<nat>, n: nat)
    requires n <= |picks|
  {
    var T := TotalWeight(start, {});
    |es| == |start| && forall i | 0 <= i < |es| ::
      && es[i] == start[i].(current := Times(n, start[i].weight) - Times(PickCount(picks, n, i), T))
      && es[i].current >= 1 - T
  }

  lemma {:induction false} LawfulEntry(start: seq<Entry>, es: seq<Entry>, picks: seq<nat>, n: nat, i: nat)
    requires n < |picks| && IsPick(es, {}, picks[n]) && i < |es| && Fresh(start) && Lawful(start, es, picks, n)
    requires TotalWeight(es, {}) == TotalWeight(start, {}) && Bumped(es[picks[n]], {}) >= 1
    ensures var T := TotalWeight(start, {}); var e := After(es, {}, picks[n])[i];
      && e == start[i].(current := Times(n + 1, start[i].weight) - Times(PickCount(picks, n + 1, i), T))
      && e.current >= 1 - T
  {
    var T, c := TotalWeight(start, {}), PickCount(picks, n, i);
    assert start[i] in start;
    assert Times(c + 1, T) == Times(c, T) + T;
  }

  lemma {:induction false} LawfulStep(start: seq<Entry>, es: seq<Entry>, picks: seq<nat>, n: nat)
    requires n < |picks| && IsPick(es, {}, picks[n])
    requires Fresh(start) && Lawful(start, es, picks, n) && CurrentSum(es) == 0
    ensures Lawful(start, After(es, {}, picks[n]), picks, n + 1)
  {
    FreshSums(start);
    SameTotal(es, start, {});
    WinnerIsPositive(es, picks[n]);
    forall i | 0 <= i < |es| {
      LawfulEntry(start, es, picks, n, i);
    }
  }

  lemma {:induction false} RunIsLawful(states: seq<seq<Entry>>, picks: seq<nat>, n: nat)
    requires IsRun(states, NoExclusions(|picks|), picks) && Fresh(states[0]) && n <= |picks|
    ensures Lawful(states[0], states[n], picks, n)
  {
    FreshSums(states[0]);
    if n == 0 {
      assert forall i | 0 <= i < |states[0]| :: states[0][i] in states[0];
    } else {
      var es, k := states[n - 1], picks[n - 1];
      RunConserves(states, NoExclusions(|picks|), picks, n - 1);
      RunIsLawful(states, picks, n - 1);
      assert IsPick(es, {}, k) && states[n - 1 + 1] == After(es, {}, k);
      LawfulStep(states[0], es, picks, n - 1);
    }
  }

  /** After n exclusion-free selects from fresh state, with T the total weight: entry i's
      current weight is n * w_i - T * (times i was picked), and never sinks below 1 - T.
      So i has been picked at most ceil(n * w_i / T) times. */
  lemma {:induction false} CurrentWeightLaw(states: seq<seq<Entry>>, picks: seq<nat>, n: nat, i: nat)
    requires IsRun(states, NoExclusions(|picks|), picks) && Fresh(states[0])
    requires n <= |picks| && i < |states[0]|
    ensures var T := TotalWeight(states[0], {});
      && |states[n]| == |states[0]|
      && states[n][i] == states[0][i].(current := n * states[0][i].weight - PickCount(picks, n, i) * T)
      && states[n][i].current >= 1 - T
  {
    RunIsLawful(states, picks, n);
    TimesIsProduct(n, states[0][i].weight);
    TimesIsProduct(PickCount(picks, n, i), TotalWeight(states[0], {}));
  }

  /** The state within a round of equally weighted entries: the first r have been picked. */
  ghost predicate InRound(start: seq<Entry>, es: seq<Entry>, w: int, r: nat) {
    |es| == |start| && forall i | 0 <= i < |es| ::
      es[i] == start[i].(current := Times(r, w) - if i < r then Times(|start|, w) else 0)
  }

  lemma {:induction false} EqualTotal(es: seq<Entry>, w: int)
    requires forall e | e in es :: e.weight == w
    ensures TotalWeight(es, {}) == Times(|es|, w)
  {
    if es != [] {
      EqualTotal(es[..|es| - 1], w);
    }
  }

  lemma {:induction false} TimesPositive(n: nat, w: int)
    requires w >= 1
    ensures Times(n, w) >= 0 && (n >= 1 ==> Times(n, w) >= 1)
  {
    if n > 0 {
      TimesPositive(n - 1, w);
    }
  }

  lemma {:induction false} RoundStep(start: seq<Entry>, es: seq<Entry>, w: int, r: nat, k: nat)
    requires w >= 1 && (forall e | e in start :: e.weight == w) && r < |start| && InRound(start, es, w, r)
    requires IsPick(es, {}, k)
    ensures k == r && InRound(start, After(es, {}, k), w, if r + 1 == |start| then 0 else r + 1)
  {
    WeightsInRound(start, es, w, r);
    FirstOfRound(start, es, w, r, k);
    EqualTotal(es, w);
  }

  lemma {:induction false} WeightsInRound(start: seq<Entry>, es: seq<Entry>, w: int, r: nat)
    requires (forall e | e in start :: e.weight == w) && InRound(start, es, w, r)
    ensures (forall i | 0 <= i < |es| :: es[i].weight == w) && forall e | e in es :: e.weight == w
  {
    assert forall i | 0 <= i < |es| :: start[i] in start && es[i].weight == w;
  }

  /** The first entry of the round not yet picked stands above those that have been. */
  lemma {:induction false} FirstOfRound(start: seq<Entry>, es: seq<Entry>, w: int, r: nat, k: nat)
    requires w >= 1 && (forall i | 0 <= i < |es| :: es[i].weight == w) && r < |start| && InRound(start, es, w, r)
    requires IsPick(es, {}, k)
    ensures k == r
  {
    TimesPositive(|start|, w);
    assert forall i | 0 <= i < r :: Bumped(es[i], {}) == Times(r + 1, w) - Times(|start|, w);
    assert forall i | r <= i < |es| :: Bumped(es[i], {}) == Times(r + 1, w);
    assert Open(es[r], {}) && Bumped(es[r], {}) == Times(r + 1, w);
  }

  /** Equally weighted targets are picked in configured order, round after round. */
  lemma {:induction false} EqualWeightsRotate(states: seq<seq<Entry>>, picks: seq<nat>, w: int, n: nat)
    requires IsRun(states, NoExclusions(|picks|), picks) && Fresh(states[0]) && states[0] != []
    requires w >= 1 && (forall e | e in states[0] :: e.weight == w) && n <= |picks|
    ensures n < |picks| ==> picks[n] == n % |states[0]|
  {
    RoundsHold(states, picks, w, n);
    PlaceIsResidue(n, |states[0]|);
    if n < |picks| {
      PlainSelect(states, picks, n);
      RoundStep(states[0], states[n], w, Place(n, |states[0]|), picks[n]);
    }
  }

  /** How many have been picked in the round that n picks have come to. */
  function Place(n: nat, size: nat): (r: nat)
    requires size >= 1
    ensures r < size
  {
    if n == 0 || Place(n - 1, size) + 1 == size then 0 else Place(n - 1, size) + 1
  }

  lemma {:induction false} PlaceIsResidue(n: nat, size: nat)
    requires size >= 1
    ensures Place(n, size) == n % size
  {
    if n == 0 {
      ResidueOf(0, 0, 0, size);
    } else {
      PlaceIsResidue(n - 1, size);
      NextResidue(n - 1, size);
    }
  }

  lemma {:induction false} RoundsHold(states: seq<seq<Entry>>, picks: seq<nat>, w: int, n: nat)
    requires IsRun(states, NoExclusions(|picks|), picks) && Fresh(states[0]) && states[0] != []
    requires w >= 1 && (forall e | e in states[0] :: e.weight == w) && n <= |picks|
    ensures InRound(states[0], states[n], w, Place(n, |states[0]|))
  {
    if n == 0 {
      RoundStarts(states[0], w);
    } else {
      RoundsHold(states, picks, w, n - 1);
      PlainSelect(states, picks, n - 1);
      RoundStep(states[0], states[n - 1], w, Place(n - 1, |states[0]|), picks[n - 1]);
    }
  }

  lemma {:induction false} RoundStarts(start: seq<Entry>, w: int)
    requires Fresh(start)
    ensures InRound(start, start, w, 0)
  {
    assert forall i | 0 <= i < |start| :: start[i] in start;
  }

  lemma PlainSelect(states: seq<seq<Entry>>, picks: seq<nat>, n: nat)
    requires IsRun(states, NoExclusions(|picks|), picks) && n < |picks|
    ensures IsPick(states[n], {}, picks[n]) && states[n + 1] == After(states[n], {}, picks[n])
  {
  }

  lemma NextResidue(x: nat, n: nat)
    requires n > 0
    ensures (x + 1) % n == if x % n + 1 == n then 0 else x % n + 1
  {
    assert x == n * (x / n) + x % n;
    if x % n + 1 == n {
      assert x + 1 == n * (x / n + 1);
      ResidueOf(x + 1, x / n + 1, 0, n);
    } else {
      ResidueOf(x + 1, x / n, x % n + 1, n);
    }
  }

  /** A multiple of T that exceeds -T is not negative. */
  lemma SignOfMultiple(x: int, T: int)
    requires T >= 1
    ensures x * T >= 1 - T <==> x >= 0
    ensures x * T == 0 <==> x == 0
  {
    if x < 0 {
      assert x * T <= -T;
    } else {
      assert x * T >= 0;
    }
  }

  lemma CycleArithmetic(n: nat, m: nat, T: int, w: int, c: nat, current: int)
    requires T >= 1 && n == m * T && current == n * w - c * T && current >= 1 - T
    ensures current >= 0 && (current == 0 ==> c == m * w)
  {
    assert current == (m * w - c) * T;
    SignOfMultiple(m * w - c, T);
  }

  /** Exact proportionality: after m full cycles of T selects every target was picked
      exactly m * w_i times, and the balancer is back in its fresh state. */
  lemma {:induction false} FullCyclesAreExact(states: seq<seq<Entry>>, picks: seq<nat>, m: nat)
    requires IsRun(states, NoExclusions(|picks|), picks) && Fresh(states[0])
    requires |picks| == m * TotalWeight(states[0], {})
    ensures states[|picks|] == states[0]
    ensures forall i | 0 <= i < |states[0]| :: PickCount(picks, |picks|, i) == m * states[0][i].weight
  {
    var n, end := |picks|, states[|picks|];
    RunConserves(states, NoExclusions(n), picks, n);
    FreshSums(states[0]);
    forall i | 0 <= i < |end|
      ensures end[i] == states[0][i].(current := end[i].current) && end[i].current >= 0
      ensures end[i].current == 0 ==> PickCount(picks, |picks|, i) == m * states[0][i].weight
    {
      CurrentWeightLaw(states, picks, n, i);
      var w, c := states[0][i].weight, PickCount(picks, |picks|, i);
      CycleArithmetic(n, m, TotalWeight(states[0], {}), w, c, end[i].current);
    }
    NonNegativeZeroSum(end);
    forall i | 0 <= i < |end|
      ensures end[i].current == 0 && end[i] == states[0][i]
    {
      assert end[i] in end && states[0][i] in states[0];
    }
  }
}
