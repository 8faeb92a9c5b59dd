/** Fairness of the round robin under a fixed exclusion set. Positions are cursor values that do
    not wrap: the cursor at position v is v mod 2^64. The index at a position below 2^64, or at
    any position when the number of targets divides 2^64, is its residue. */
module RoundRobinFairness {
  import opened Common
  import opened Targets
  import opened Residues
  import opened RoundRobin
  import opened RoundRobinWrap

  predicate EligiblePosition(targets: seq<Target>, excluded: set<Address>, p: nat)
    requires targets != []
  {
    !IsExcluded(excluded, targets[p % |targets|])
  }

  /** p is the least eligible position at or after `from`. */
  ghost predicate NextEligible(targets: seq<Target>, excluded: set<Address>, from: nat, p: nat)
    requires targets != []
  {
    from <= p && EligiblePosition(targets, excluded, p)
    && forall q: nat | from <= q < p :: !EligiblePosition(targets, excluded, q)
  }

  /** The positions of successive picks under one exclusion set. */
  ghost predicate Rotation(targets: seq<Target>, excluded: set<Address>, next: nat, ps: seq<nat>)
    requires targets != []
  {
    forall k | 0 <= k < |ps| :: NextEligible(targets, excluded, if k == 0 then next else ps[k - 1] + 1, ps[k])
  }

  lemma OffsetIsPosition(targets: seq<Target>, excluded: set<Address>, v: nat, o: nat)
    requires targets != [] && (v + o < UINT64 || UINT64 % |targets| == 0)
    ensures IndexAt(v % UINT64, o, |targets|) == (v + o) % |targets|
    ensures EligibleAt(targets, excluded, v % UINT64, o) <==> EligiblePosition(targets, excluded, v + o)
  {
    AddToResidue(v, o, UINT64);
    if v + o < UINT64 {
      SmallResidue(v + o, UINT64);
    } else {
      ResidueOfResidue(v + o, UINT64, |targets|);
    }
  }

  /** A select at position v that succeeds moves to just past the least eligible position from v
      on, provided that this position is below the wrap or the wrap does not matter. */
  lemma SelectMovesToNextEligible(targets: seq<Target>, excluded: set<Address>, v: nat, o: nat)
    requires targets != [] && Scan(targets, excluded, v % UINT64) == Some(o)
    requires v + o < UINT64 || UINT64 % |targets| == 0
    ensures NextEligible(targets, excluded, v, v + o)
    ensures SelectOnce(targets, excluded, v % UINT64) == Some(((v + o) % |targets|, (v + o + 1) % UINT64))
  {
    FoundIsNext(targets, excluded, v, o);
    FoundIsSelected(targets, excluded, v, o);
  }

  lemma FoundIsNext(targets: seq<Target>, excluded: set<Address>, v: nat, o: nat)
    requires targets != [] && IsScan(targets, excluded, v % UINT64, Some(o))
    requires v + o < UINT64 || UINT64 % |targets| == 0
    ensures NextEligible(targets, excluded, v, v + o)
  {
    OffsetIsPosition(targets, excluded, v, o);
    PassedOver(targets, excluded, v, o);
  }

  lemma FoundIsSelected(targets: seq<Target>, excluded: set<Address>, v: nat, o: nat)
    requires targets != [] && Scan(targets, excluded, v % UINT64) == Some(o)
    requires v + o < UINT64 || UINT64 % |targets| == 0
    ensures SelectOnce(targets, excluded, v % UINT64) == Some(((v + o) % |targets|, (v + o + 1) % UINT64))
  {
    OffsetIsPosition(targets, excluded, v, o);
    AddToResidue(v, o + 1, UINT64);
  }

  lemma PassedOver(targets: seq<Target>, excluded: set<Address>, v: nat, o: nat)
    requires targets != [] && (v + o < UINT64 || UINT64 % |targets| == 0)
    requires forall k | 0 <= k < o :: !EligibleAt(targets, excluded, v % UINT64, k)
    ensures forall q: nat | v <= q < v + o :: !EligiblePosition(targets, excluded, q)
  {
    forall q: nat | v <= q < v + o
      ensures !EligiblePosition(targets, excluded, q)
    {
      OffsetIsPosition(targets, excluded, v, q - v);
    }
  }

  /** The position that a run of selects reaches: its cursor, had it not wrapped. */
  function EndOf(targets: seq<Target>, next: nat, exclusions: seq<set<Address>>): nat
    requires targets != []
  {
    if exclusions == [] then next
    else
      var end := EndOf(targets, next, exclusions[..|exclusions| - 1]);
      match Scan(targets, exclusions[|exclusions| - 1], end % UINT64)
      case None => end
      case Some(o) => end + o + 1
  }

  lemma {:induction false} CursorIsEnd(targets: seq<Target>, next: nat, exclusions: seq<set<Address>>)
    requires targets != [] && next < UINT64
    ensures Sequential(targets, next, exclusions).1 == EndOf(targets, next, exclusions) % UINT64
  {
    if exclusions == [] {
      SmallResidue(next, UINT64);
    } else {
      var front, last := exclusions[..|exclusions| - 1], exclusions[|exclusions| - 1];
      CursorIsEnd(targets, next, front);
      var end := EndOf(targets, next, front);
      var found := Scan(targets, last, end % UINT64);
      if found.Some? {
        AddToResidue(end, found.value + 1, UINT64);
      }
    }
  }

  /** The run does not pass the wrap, or the wrap does not matter. */
  predicate WrapIsHarmless(targets: seq<Target>, next: nat, exclusions: seq<set<Address>>)
    requires targets != []
  {
    next < UINT64 && (EndOf(targets, next, exclusions) <= UINT64 || UINT64 % |targets| == 0)
  }

  predicate AllSucceed(targets: seq<Target>, next: nat, exclusions: seq<set<Address>>)
    requires targets != []
  {
    forall k | 0 <= k < |exclusions| :: Sequential(targets, next, exclusions).0[k].Some?
  }

  /** The run without its last select. */
  lemma {:induction false} LastSelect(targets: seq<Target>, next: nat, exclusions: seq<set<Address>>) returns (o: nat)
    requires targets != [] && exclusions != []
    requires WrapIsHarmless(targets, next, exclusions) && AllSucceed(targets, next, exclusions)
    ensures var n := |exclusions| - 1; var front := exclusions[..n]; var end := EndOf(targets, next, front);
      && WrapIsHarmless(targets, next, front) && AllSucceed(targets, next, front)
      && Scan(targets, exclusions[n], end % UINT64) == Some(o)
      && (end + o < UINT64 || UINT64 % |targets| == 0)
      && EndOf(targets, next, exclusions) == end + o + 1
  {
    var n := |exclusions| - 1;
    var front := exclusions[..n];
    CursorIsEnd(targets, next, front);
    SequentialSnoc(targets, next, front, exclusions[n]);
    assert front + [exclusions[n]] == exclusions;
    assert Sequential(targets, next, exclusions).0[n].Some?;
    o := Scan(targets, exclusions[n], EndOf(targets, next, front) % UINT64).value;
    forall k | 0 <= k < n
      ensures Sequential(targets, next, front).0[k].Some?
    {
      assert Sequential(targets, next, exclusions).0[k].Some?;
    }
  }

  /** Repeated selects with one exclusion set walk a rotation. */
  lemma {:induction false} SequentialWalksRotation(
    targets: seq<Target>, excluded: set<Address>, next: nat, same: seq<set<Address>>)
    returns (ps: seq<nat>)
    requires targets != [] && WrapIsHarmless(targets, next, same) && AllSucceed(targets, next, same)
    requires forall i | 0 <= i < |same| :: same[i] == excluded
    ensures |ps| == |same| && Rotation(targets, excluded, next, ps)
    ensures EndOf(targets, next, same) == if ps == [] then next else ps[|ps| - 1] + 1
    ensures forall k | 0 <= k < |ps| :: Sequential(targets, next, same).0[k] == Some(ps[k] % |targets|)
  {
    if same == [] {
      return [];
    }
    var front := same[..|same| - 1];
    var end := EndOf(targets, next, front);
    var o := LastSelect(targets, next, same);
    ps := SequentialWalksRotation(targets, excluded, next, front);
    CursorIsEnd(targets, next, front);
    SelectMovesToNextEligible(targets, excluded, end, o);
    ps := ps + [end + o];
  }

  lemma PickIsEligible(
    targets: seq<Target>, excluded: set<Address>, next: nat, ps: seq<nat>, i: nat)
    requires targets != [] && Rotation(targets, excluded, next, ps) && i < |ps|
    ensures EligiblePosition(targets, excluded, ps[i])
  {
    assert NextEligible(targets, excluded, if i == 0 then next else ps[i - 1] + 1, ps[i]);
  }

  lemma {:induction false} RotationIncreases(
    targets: seq<Target>, excluded: set<Address>, next: nat, ps: seq<nat>, i: nat, j: nat)
    requires targets != [] && Rotation(targets, excluded, next, ps) && i < j < |ps|
    ensures ps[i] < ps[j]
  {
    if i < j - 1 {
      RotationIncreases(targets, excluded, next, ps, i, j - 1);
    }
    assert NextEligible(targets, excluded, ps[j - 1] + 1, ps[j]);
  }

  /** No eligible position between two picks is passed over. */
  lemma {:induction false} RotationCovers(
    targets: seq<Target>, excluded: set<Address>, next: nat, ps: seq<nat>, i: nat, j: nat, p: nat)
    returns (k: nat)
    requires targets != [] && Rotation(targets, excluded, next, ps) && i < j < |ps|
    requires ps[i] < p <= ps[j] && EligiblePosition(targets, excluded, p)
    ensures i < k <= j && ps[k] == p
  {
    if p > ps[j - 1] {
      assert NextEligible(targets, excluded, ps[j - 1] + 1, ps[j]);
      return j;
    }
    k := RotationCovers(targets, excluded, next, ps, i, j - 1, p);
  }

  /** Successive picks of one index are exactly n positions apart. */
  lemma OneRoundApart(
    targets: seq<Target>, excluded: set<Address>, next: nat, ps: seq<nat>, i: nat, j: nat)
    requires targets != [] && Rotation(targets, excluded, next, ps) && i < j < |ps|
    requires ps[i] % |targets| == ps[j] % |targets|
    requires forall m | i < m < j :: ps[m] % |targets| != ps[i] % |targets|
    ensures ps[j] == ps[i] + |targets|
  {
    var n := |targets|;
    RotationIncreases(targets, excluded, next, ps, i, j);
    SameResidueFarApart(ps[i], ps[j], n);
    PickIsEligible(targets, excluded, next, ps, i);
    AddModulus(ps[i], n);
    var m := RotationCovers(targets, excluded, next, ps, i, j, ps[i] + n);
  }

  /** An index occurs at most once within one round. */
  lemma OnceWithinRound(
    targets: seq<Target>, excluded: set<Address>, next: nat, ps: seq<nat>, i: nat, j: nat, k: nat, m: nat)
    requires targets != [] && Rotation(targets, excluded, next, ps) && i < k < j < |ps| && i < m < j
    requires ps[j] == ps[i] + |targets| && ps[k] % |targets| == ps[m] % |targets|
    ensures k == m
  {
    RotationIncreases(targets, excluded, next, ps, i, k);
    RotationIncreases(targets, excluded, next, ps, i, m);
    RotationIncreases(targets, excluded, next, ps, k, j);
    RotationIncreases(targets, excluded, next, ps, m, j);
    if m < k {
      RotationIncreases(targets, excluded, next, ps, m, k);
      SameResidueFarApart(ps[m], ps[k], |targets|);
    } else if k < m {
      RotationIncreases(targets, excluded, next, ps, k, m);
      SameResidueFarApart(ps[k], ps[m], |targets|);
    }
  }

  /** Fairness: between one pick of an index and the next pick of the same index, every
      other eligible index is picked exactly once. */
  lemma EachOtherIndexOnceBetween(
    targets: seq<Target>, excluded: set<Address>, next: nat, ps: seq<nat>, i: nat, j: nat, other: nat)
    returns (k: nat)
    requires targets != [] && Rotation(targets, excluded, next, ps) && i < j < |ps|
    requires ps[i] % |targets| == ps[j] % |targets|
    requires forall m | i < m < j :: ps[m] % |targets| != ps[i] % |targets|
    requires other < |targets| && other != ps[i] % |targets| && !IsExcluded(excluded, targets[other])
    ensures i < k < j && ps[k] % |targets| == other
    ensures forall m | i < m < j && ps[m] % |targets| == other :: m == k
  {
    OneRoundApart(targets, excluded, next, ps, i, j);
    k := RotationCovers(targets, excluded, next, ps, i, j, ps[i] + OffsetTo(ps[i], other, |targets|));
    forall m | i < m < j && ps[m] % |targets| == other
      ensures m == k
    {
      OnceWithinRound(targets, excluded, next, ps, i, j, k, m);
    }
  }

  /** Two successive picks of one index, and another eligible index, among swaps that share an
      exclusion set. */
  ghost predicate Between(targets: seq<Target>, excluded: set<Address>, swaps: seq<Swap>, i: nat, j: nat, other: nat) {
    && (forall m | 0 <= m < |swaps| :: swaps[m].excluded == excluded)
    && i < j < |swaps| && swaps[i].pick == swaps[j].pick
    && (forall m | i < m < j :: swaps[m].pick != swaps[i].pick)
    && other < |targets| && other != swaps[i].pick && !IsExcluded(excluded, targets[other])
  }

  /** The same of any number of concurrent callers that share one exclusion set: in
      compare-and-swap order, between two successive picks of an index every other eligible
      index is picked exactly once. */
  lemma FairUnderAnySchedule(
    targets: seq<Target>, excluded: set<Address>, next: nat, steps: seq<Step>, i: nat, j: nat, other: nat)
    returns (k: nat)
    requires targets != []
    requires var swaps := Exec(targets, next, steps).swaps;
      WrapIsHarmless(targets, next, ExclusionsOf(swaps)) && Between(targets, excluded, swaps, i, j, other)
    ensures var swaps := Exec(targets, next, steps).swaps;
      && i < k < j && swaps[k].pick == other
      && forall m | i < m < j && swaps[m].pick == other :: m == k
  {
    Linearizable(targets, next, steps);
    k := FairInOrder(targets, excluded, next, Exec(targets, next, steps).swaps, i, j, other);
  }

  lemma FairInOrder(
    targets: seq<Target>, excluded: set<Address>, next: nat, swaps: seq<Swap>, i: nat, j: nat, other: nat)
    returns (k: nat)
    requires targets != [] && WrapIsHarmless(targets, next, ExclusionsOf(swaps))
    requires Between(targets, excluded, swaps, i, j, other)
    requires Sequential(targets, next, ExclusionsOf(swaps)).0 == PicksOf(swaps)
    ensures i < k < j && swaps[k].pick == other
    ensures forall m | i < m < j && swaps[m].pick == other :: m == k
  {
    var ps := SwapsWalkRotation(targets, excluded, next, swaps);
    k := EachOtherIndexOnceBetween(targets, excluded, next, ps, i, j, other);
  }

  lemma SwapsWalkRotation(
    targets: seq<Target>, excluded: set<Address>, next: nat, swaps: seq<Swap>)
    returns (ps: seq<nat>)
    requires targets != [] && WrapIsHarmless(targets, next, ExclusionsOf(swaps))
    requires forall m | 0 <= m < |swaps| :: swaps[m].excluded == excluded
    requires Sequential(targets, next, ExclusionsOf(swaps)).0 == PicksOf(swaps)
    ensures |ps| == |swaps| && Rotation(targets, excluded, next, ps)
    ensures forall m | 0 <= m < |swaps| :: swaps[m].pick == ps[m] % |targets|
  {
    assert forall m | 0 <= m < |swaps| :: PicksOf(swaps)[m] == Some(swaps[m].pick);
    ps := SequentialWalksRotation(targets, excluded, next, ExclusionsOf(swaps));
  }

  /** For every other number of targets the wrap is unfair: in a run that crosses it, index
      r - 1, with r = 2^64 mod n, is picked twice and n - 1 not once in between. */
  lemma {:induction false} UnfairAcrossWrap(targets: seq<Target>, plain: seq<set<Address>>)
    requires targets != [] && UINT64 % |targets| != 0 && Plain(plain) && |plain| == UINT64 % |targets| + 1
    ensures var r := UINT64 % |targets|; var picks := Sequential(targets, UINT64 - 1, plain).0;
      && picks[0] == picks[r] == Some(r - 1) && 0 <= r - 1 < |targets| - 1
      && forall k | 0 < k < r :: picks[k] == Some(k - 1)
  {
    var n, r := |targets|, UINT64 % |targets|;
    var picks := Sequential(targets, UINT64 - 1, plain).0;
    PlainRun(targets, UINT64 - 1, plain);
    RemainderAtMost(UINT64, n);
    IndexJustBeforeWrap(n);
    SmallResidue(UINT64 - 1, UINT64);
    forall k: nat | 0 < k <= r
      ensures picks[k] == Some(k - 1)
    {
      AfterWrap(k - 1, n);
    }
  }

  lemma AfterWrap(x: nat, n: nat)
    requires x < n && x < UINT64
    ensures (UINT64 + x) % UINT64 % n == x
  {
    AddModulus(x, UINT64);
    SmallResidue(x, UINT64);
    SmallResidue(x, n);
  }

  lemma IndexJustBeforeWrap(n: nat)
    requires n > 0 && UINT64 % n != 0
    ensures (UINT64 - 1) % n == UINT64 % n - 1
  {
    assert UINT64 == n * (UINT64 / n) + UINT64 % n;
    ResidueOf(UINT64 - 1, UINT64 / n, UINT64 % n - 1, n);
  }
}
