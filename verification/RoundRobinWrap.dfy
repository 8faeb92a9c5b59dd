/** What the wrap of the round robin's uint64 cursor does to its scan. */
module RoundRobinWrap {
  import opened Common
  import opened Targets
  import opened Residues
  import opened RoundRobin

  ghost predicate Seen(next: nat, n: nat, i: nat)
    requires n > 0
  {
    exists o: nat :: o < n && IndexAt(next, o, n) == i
  }

  /** The indices that a scan looks at, in closed form: all of them, unless it crosses the wrap.
      Then, with d positions before the wrap and r = 2^64 mod n, these are the first n - d and
      the d that end, cyclically, just before r. */
  predicate Reached(next: nat, n: nat, i: nat)
    requires n > 0 && next < UINT64
  {
    var d, r := UINT64 - next, UINT64 % n;
    || n <= d
    || (i < n - d && i < UINT64)
    || (if r >= d then r - d <= i < r else i < r || n + r - d <= i)
  }

  /** Counted back from the wrap, the indices looked at before it. */
  lemma IndexBeforeWrap(back: nat, n: nat)
    requires 0 < back < n && back <= UINT64
    ensures var r := UINT64 % n; (UINT64 - back) % n == if back <= r then r - back else r + n - back
  {
    var q, r := UINT64 / n, UINT64 % n;
    assert UINT64 == n * q + r;
    if back <= r {
      ResidueOf(UINT64 - back, q, r - back, n);
    } else {
      assert q >= 1;
      assert n * (q - 1) == n * q - n;
      ResidueOf(UINT64 - back, q - 1, r + n - back, n);
    }
  }

  /** The index at each offset of a scan that crosses the wrap. */
  lemma IndexAcrossWrap(next: nat, n: nat, o: nat)
    requires n > 0 && next < UINT64 < next + n && o < n
    ensures var d, r := UINT64 - next, UINT64 % n;
      IndexAt(next, o, n) ==
        if o >= d then (o - d) % UINT64
        else if d - o <= r then r - (d - o)
        else r + n - (d - o)
  {
    var d := UINT64 - next;
    if o < d {
      IndexBeforeWrap(d - o, n);
      SmallResidue(next + o, UINT64);
      assert next + o == UINT64 - (d - o);
    } else {
      assert next + o == (o - d) + UINT64;
      AddModulus(o - d, UINT64);
      RemainderAtMost(o - d, UINT64);
      SmallResidue((o - d) % UINT64, n);
    }
  }

  lemma {:induction false} SeenIffReached(next: nat, n: nat, i: nat)
    requires n > 0 && next < UINT64 && i < n
    ensures Seen(next, n, i) <==> Reached(next, n, i)
  {
    var d, r := UINT64 - next, UINT64 % n;
    if n <= d {
      var o := OffsetTo(next, i, n);
      SmallResidue(next + o, UINT64);
      assert IndexAt(next, o, n) == i;
    } else {
      if Seen(next, n, i) {
        var o: nat :| o < n && IndexAt(next, o, n) == i;
        SeenIsReached(next, n, o);
      }
      if Reached(next, n, i) {
        ReachedIsSeen(next, n, i);
      }
    }
  }

  lemma SeenIsReached(next: nat, n: nat, o: nat)
    requires n > 0 && next < UINT64 < next + n && o < n
    ensures Reached(next, n, IndexAt(next, o, n))
  {
    IndexAcrossWrap(next, n, o);
    if o >= UINT64 - next {
      RemainderAtMost(o - (UINT64 - next), UINT64);
    }
  }

  lemma ReachedIsSeen(next: nat, n: nat, i: nat)
    requires n > 0 && next < UINT64 < next + n && i < n && Reached(next, n, i)
    ensures Seen(next, n, i)
  {
    var d, r := UINT64 - next, UINT64 % n;
    var o := if i < n - d && i < UINT64 then d + i else if i < r && r - i <= d then d - (r - i) else d - (r + n - i);
    IndexAcrossWrap(next, n, o);
    if i < n - d && i < UINT64 {
      SmallResidue(i, UINT64);
    }
    assert IndexAt(next, o, n) == i;
  }

  /** An index that a scan crossing the wrap does not look at. */
  function Hidden(next: nat, n: nat): (i: nat)
    requires n > 0 && next < UINT64 < next + n && UINT64 % n != 0
    ensures i < n && !Reached(next, n, i)
  {
    var d, r := UINT64 - next, UINT64 % n;
    if r >= d then n - 1 else if r >= n - d then r else n - d
  }

  ghost predicate AddressReached(targets: seq<Target>, next: nat, a: Address)
    requires targets != [] && next < UINT64
  {
    exists i: nat :: i < |targets| && targets[i].address == a && Reached(next, |targets|, i)
  }

  function Chosen(targets: seq<Target>, excluded: set<Address>, next: nat): Option<Target>
    requires targets != []
  {
    match SelectOnce(targets, excluded, next)
    case None => None
    case Some(r) => Some(targets[r.0])
  }

  lemma ChosenIsValid(targets: seq<Target>, excluded: set<Address>, next: nat)
    requires targets != [] && next < UINT64
    requires forall t | t in targets :: AddressReached(targets, next, t.address)
    ensures ValidSelection(targets, excluded, Chosen(targets, excluded, next))
  {
    if Scan(targets, excluded, next).None? {
      forall t | t in targets
        ensures IsExcluded(excluded, t)
      {
        var i: nat :| i < |targets| && targets[i].address == t.address && Reached(next, |targets|, i);
        SeenIffReached(next, |targets|, i);
        var o: nat :| o < |targets| && IndexAt(next, o, |targets|) == i;
        assert !EligibleAt(targets, excluded, next, o);
      }
    }
  }

  /** The failing family: a target whose address stands at no reached index is missed when
      everything else is excluded, and ErrNoTargets is reported although it is eligible. */
  lemma HiddenIsMissed(targets: seq<Target>, next: nat, t: Target)
    requires targets != [] && next < UINT64 && t in targets && !AddressReached(targets, next, t.address)
    ensures var excluded := Addresses(targets) - {t.address};
      !IsExcluded(excluded, t) && SelectOnce(targets, excluded, next).None?
  {
    var excluded := Addresses(targets) - {t.address};
    forall o: nat | o < |targets|
      ensures !EligibleAt(targets, excluded, next, o)
    {
      var i := IndexAt(next, o, |targets|);
      assert Seen(next, |targets|, i);
      SeenIffReached(next, |targets|, i);
      assert targets[i].address in Addresses(targets);
    }
  }

  /** A select misses no eligible target, whatever is excluded, if and only if every address of
      the route stands at some reached index. */
  lemma SelectIsCompleteIff(targets: seq<Target>, next: nat)
    requires targets != [] && next < UINT64
    ensures (forall excluded :: ValidSelection(targets, excluded, Chosen(targets, excluded, next)))
      <==> forall t | t in targets :: AddressReached(targets, next, t.address)
  {
    if forall t | t in targets :: AddressReached(targets, next, t.address) {
      forall excluded
        ensures ValidSelection(targets, excluded, Chosen(targets, excluded, next))
      {
        ChosenIsValid(targets, excluded, next);
      }
    } else {
      var t :| t in targets && !AddressReached(targets, next, t.address);
      HiddenIsMissed(targets, next, t);
      var excluded := Addresses(targets) - {t.address};
      assert !ValidSelection(targets, excluded, Chosen(targets, excluded, next));
    }
  }

  /** For any route that is so when the scan does not cross the wrap, or when the number of
      targets divides 2^64. */
  lemma AllReachedUnlessWrapped(targets: seq<Target>, next: nat)
    requires targets != [] && next < UINT64 && (next + |targets| <= UINT64 || UINT64 % |targets| == 0)
    ensures forall t | t in targets :: AddressReached(targets, next, t.address)
  {
    if UINT64 % |targets| == 0 {
      DividesIsSmaller(UINT64, |targets|);
    }
    forall t | t in targets
      ensures AddressReached(targets, next, t.address)
    {
      var i :| 0 <= i < |targets| && targets[i] == t;
      assert Reached(next, |targets|, i);
    }
  }

  predicate DistinctAddresses(targets: seq<Target>) {
    forall i, j | 0 <= i < j < |targets| :: targets[i].address != targets[j].address
  }

  /** And if no address is listed twice, only then. */
  lemma DistinctIsCompleteIff(targets: seq<Target>, next: nat)
    requires targets != [] && next < UINT64 && DistinctAddresses(targets)
    ensures (forall excluded :: ValidSelection(targets, excluded, Chosen(targets, excluded, next)))
      <==> next + |targets| <= UINT64 || UINT64 % |targets| == 0
  {
    SelectIsCompleteIff(targets, next);
    if next + |targets| <= UINT64 || UINT64 % |targets| == 0 {
      AllReachedUnlessWrapped(targets, next);
    } else {
      HiddenAddress(targets, next);
    }
  }

  lemma HiddenAddress(targets: seq<Target>, next: nat)
    requires targets != [] && next < UINT64 < next + |targets| && UINT64 % |targets| != 0 && DistinctAddresses(targets)
    ensures var t := targets[Hidden(next, |targets|)];
      t in targets && !AddressReached(targets, next, t.address)
  {
  }

  // ---------- runs without exclusions, from the cursor of a new balancer ----------

  /** Selects that exclude nothing. */
  predicate Plain(exclusions: seq<set<Address>>) {
    forall i | 0 <= i < |exclusions| :: exclusions[i] == {}
  }

  lemma PlainSelect(targets: seq<Target>, next: nat)
    requires targets != [] && next < UINT64
    ensures SelectOnce(targets, {}, next) == Some((next % |targets|, (next + 1) % UINT64))
  {
    assert EligibleAt(targets, {}, next, 0);
    SmallResidue(next, UINT64);
  }

  /** A run in which every select succeeds, link by link. */
  lemma {:induction false} Chained(
    targets: seq<Target>, exclusions: seq<set<Address>>, cursors: seq<nat>, picks: seq<nat>)
    requires targets != [] && |cursors| == |exclusions| + 1 && |picks| == |exclusions|
    requires forall k | 0 <= k < |exclusions| ::
      SelectOnce(targets, exclusions[k], cursors[k]) == Some((picks[k], cursors[k + 1]))
    ensures Sequential(targets, cursors[0], exclusions).1 == cursors[|exclusions|]
    ensures forall k | 0 <= k < |exclusions| :: Sequential(targets, cursors[0], exclusions).0[k] == Some(picks[k])
  {
    if exclusions != [] {
      var m := |exclusions| - 1;
      Chained(targets, exclusions[..m], cursors[..|exclusions|], picks[..m]);
      assert exclusions[m] == exclusions[|exclusions| - 1] && cursors[m + 1] == cursors[|exclusions|];
    }
  }

  lemma PlainLink(targets: seq<Target>, x: nat)
    requires targets != []
    ensures SelectOnce(targets, {}, x % UINT64) == Some((x % UINT64 % |targets|, (x + 1) % UINT64))
  {
    PlainSelect(targets, x % UINT64);
    AddToResidue(x, 1, UINT64);
  }

  /** Each of them moves the cursor by one. */
  lemma {:induction false} PlainRun(targets: seq<Target>, next: nat, plain: seq<set<Address>>)
    requires targets != [] && next < UINT64 && Plain(plain)
    ensures Sequential(targets, next, plain).1 == (next + |plain|) % UINT64
    ensures forall k | 0 <= k < |plain| ::
      Sequential(targets, next, plain).0[k] == Some((next + k) % UINT64 % |targets|)
  {
    var cursors, picks := PlainTrace(next, |targets|, |plain|);
    PlainLinks(targets, next, plain, cursors, picks);
    Chained(targets, plain, cursors, picks);
  }

  lemma {:induction false} PlainTrace(next: nat, n: nat, m: nat) returns (cursors: seq<nat>, picks: seq<nat>)
    requires n > 0 && next < UINT64
    ensures |cursors| == m + 1 && |picks| == m && cursors[0] == next
    ensures forall k | 0 <= k < |cursors| :: cursors[k] == (next + k) % UINT64
    ensures forall k | 0 <= k < |picks| :: picks[k] == cursors[k] % n
  {
    SmallResidue(next, UINT64);
    cursors := seq(m + 1, k requires 0 <= k => (next + k) % UINT64);
    picks := seq(m, k requires 0 <= k < m => cursors[k] % n);
  }

  lemma PlainLinks(
    targets: seq<Target>, next: nat, plain: seq<set<Address>>, cursors: seq<nat>, picks: seq<nat>)
    requires targets != [] && Plain(plain) && |cursors| == |plain| + 1 && |picks| == |plain|
    requires forall k | 0 <= k < |cursors| :: cursors[k] == (next + k) % UINT64
    requires forall k | 0 <= k < |picks| :: picks[k] == cursors[k] % |targets|
    ensures forall k | 0 <= k < |plain| ::
      SelectOnce(targets, plain[k], cursors[k]) == Some((picks[k], cursors[k + 1]))
  {
    forall k | 0 <= k < |plain|
      ensures SelectOnce(targets, plain[k], cursors[k]) == Some((picks[k], cursors[k + 1]))
    {
      PlainLink(targets, next + k);
    }
  }

  /** From the cursor 0 of a new balancer every cursor is reached, by as many plain selects; so
      the failing family above does occur, after about 2^64 selects: the select after these
      reports ErrNoTargets although its hidden target is eligible. */
  lemma {:induction false} MissIsReached(targets: seq<Target>, plain: seq<set<Address>>)
    requires targets != [] && Plain(plain) && |plain| < UINT64 < |plain| + |targets|
    requires UINT64 % |targets| != 0 && DistinctAddresses(targets)
    ensures var t := targets[Hidden(|plain|, |targets|)];
      var excluded := Addresses(targets) - {t.address};
      !IsExcluded(excluded, t) && Sequential(targets, 0, plain + [excluded]).0[|plain|] == None
  {
    var t := targets[Hidden(|plain|, |targets|)];
    var excluded := Addresses(targets) - {t.address};
    HiddenAddress(targets, |plain|);
    HiddenIsMissed(targets, |plain|, t);
    CursorIsReached(targets, plain);
    SequentialSnoc(targets, 0, plain, excluded);
  }

  lemma {:induction false} CursorIsReached(targets: seq<Target>, plain: seq<set<Address>>)
    requires targets != [] && Plain(plain) && |plain| < UINT64
    ensures Sequential(targets, 0, plain).1 == |plain|
  {
    PlainRun(targets, 0, plain);
    SmallResidue(|plain|, UINT64);
  }
}
