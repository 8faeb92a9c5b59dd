/** The sliding-window rate limiter of one key: the Redis script against a plain history of
    admitted requests. Instants and durations are milliseconds of one clock. */
module SlidingWindow {
  import opened Common

  /** A sorted set with a time to live: members with their scores. */
  datatype Zset = Zset(scores: map<string, nat>, expireAt: int)

  const EMPTY := Zset(map[], 0)

  /** The key as Redis serves it at `now`: gone once its time to live has run out. */
  function Live(z: Zset, now: nat): map<string, nat> {
    if now >= z.expireAt then map[] else z.scores
  }

  /** ZREMRANGEBYSCORE key -inf bound: the bound itself is removed too. */
  function RemoveUpTo(scores: map<string, nat>, bound: int): (r: map<string, nat>)
    ensures r.Keys <= scores.Keys
  {
    map m | m in scores && scores[m] > bound :: scores[m]
  }

  /** ZRANGE key 0 0 WITHSCORES: the lowest score, if there is one. */
  ghost predicate IsOldest(scores: map<string, nat>, oldest: Option<nat>) {
    match oldest
    case None => scores == map[]
    case Some(s) => (exists m | m in scores :: scores[m] == s) && forall m | m in scores :: s <= scores[m]
  }

  /** reset_at: when the oldest member leaves the window. */
  ghost predicate ResetsAt(scores: map<string, nat>, now: nat, window: nat, resetAt: int) {
    exists oldest: Option<nat> ::
      IsOldest(scores, oldest) && resetAt == (if oldest.Some? then oldest.value else now) + window
  }

  datatype Decision = Decision(allowed: bool, remaining: int, resetAt: int)

  /** The script. */
  function After(z: Zset, now: nat, window: nat, limit: nat, member: string): Zset {
    var pruned := RemoveUpTo(Live(z, now), now - window);
    Zset(if |pruned| < limit then pruned[member := now] else pruned, now + window)
  }

  predicate Allows(z: Zset, now: nat, window: nat, limit: nat) {
    |RemoveUpTo(Live(z, now), now - window)| < limit
  }

  /** What the script reports to remain. */
  function Remaining(z: Zset, now: nat, window: nat, limit: nat): int {
    if Allows(z, now, window, limit) then limit - (|RemoveUpTo(Live(z, now), now - window)| + 1) else 0
  }

  class Store {
    var z: Zset

    constructor ()
      ensures z == EMPTY
    {
      z := EMPTY;
    }

    method Oldest() returns (oldest: Option<nat>)
      ensures IsOldest(z.scores, oldest)
    {
      oldest := None;
      var todo := z.scores.Keys;
      while todo != {}
        invariant todo <= z.scores.Keys
        invariant oldest.None? ==> todo == z.scores.Keys
        invariant oldest.Some? ==>
          && (exists m | m in z.scores :: z.scores[m] == oldest.value)
          && forall m | m in z.scores && m !in todo :: oldest.value <= z.scores[m]
        decreases |todo|
      {
        var m :| m in todo;
        todo := todo - {m};
        if oldest.None? || z.scores[m] < oldest.value {
          oldest := Some(z.scores[m]);
        }
      }
    }

    /** slidingWindowScript, command by command. */
    method Eval(now: nat, window: nat, limit: nat, member: string) returns (d: Decision)
      modifies this
      ensures z == After(old(z), now, window, limit, member)
      ensures d.allowed == Allows(old(z), now, window, limit)
      ensures d.remaining == Remaining(old(z), now, window, limit)
      ensures ResetsAt(z.scores, now, window, d.resetAt)
    {
      z := z.(scores := Live(z, now));
      z := z.(scores := RemoveUpTo(z.scores, now - window));
      var count := |z.scores|;
      if count < limit {
        z := z.(scores := z.scores[member := now]);
        z := z.(expireAt := now + window);
        var oldest := Oldest();
        return Decision(true, limit - (count + 1), (if oldest.Some? then oldest.value else now) + window);
      }
      z := z.(expireAt := now + window);
      var oldest := Oldest();
      return Decision(false, 0, (if oldest.Some? then oldest.value else now) + window);
    }
  }

  // ---------- the script against a plain history ----------

  datatype Request = Request(now: nat, member: string)

  predicate Ordered(reqs: seq<Request>) {
    forall i, j | 0 <= i < j < |reqs| :: reqs[i].now <= reqs[j].now
  }

  /** No request repeats the member of a request still in the window. */
  predicate NoRepeats(window: nat, reqs: seq<Request>) {
    forall i, j | 0 <= i < j < |reqs| && reqs[i].member == reqs[j].member :: reqs[i].now <= reqs[j].now - window
  }

  /** The requests after `bound` have pairwise distinct members. */
  predicate DistinctAfter(h: seq<Request>, bound: int) {
    forall i, j | 0 <= i < j < |h| && bound < h[i].now && bound < h[j].now :: h[i].member != h[j].member
  }

  /** How many of the admissions lie after `bound`. */
  function CountAfter(h: seq<Request>, bound: int): nat {
    if h == [] then 0 else CountAfter(h[..|h| - 1], bound) + if h[|h| - 1].now > bound then 1 else 0
  }

  /** The specification: a request is admitted when fewer than `limit` earlier admissions lie
      in (now - window, now]; the result is the list of admissions. */
  function Admissions(window: nat, limit: nat, reqs: seq<Request>): (h: seq<Request>)
    ensures |h| <= |reqs|
  {
    if reqs == [] then [] else
      var h := Admissions(window, limit, reqs[..|reqs| - 1]);
      var r := reqs[|reqs| - 1];
      if CountAfter(h, r.now - window) < limit then h + [r] else h
  }

  /** The store after running the script on each request, and the requests it let through. */
  function Stored(window: nat, limit: nat, reqs: seq<Request>): Zset {
    if reqs == [] then EMPTY else
      var r := reqs[|reqs| - 1];
      After(Stored(window, limit, reqs[..|reqs| - 1]), r.now, window, limit, r.member)
  }

  function LetThrough(window: nat, limit: nat, reqs: seq<Request>): seq<Request> {
    if reqs == [] then [] else
      var front, r := reqs[..|reqs| - 1], reqs[|reqs| - 1];
      LetThrough(window, limit, front) +
      if Allows(Stored(window, limit, front), r.now, window, limit) then [r] else []
  }

  function AsScores(h: seq<Request>): map<string, nat> {
    if h == [] then map[] else AsScores(h[..|h| - 1])[h[|h| - 1].member := h[|h| - 1].now]
  }

  /** From `since` on, what the script sees of the store is what it would see of the whole
      history: neither pruning nor expiry of the key has lost anything still in the window. */
  ghost predicate SeesHistory(z: Zset, h: seq<Request>, window: nat, since: nat) {
    && (forall m | m in AsScores(h) :: AsScores(h)[m] <= since)
    && forall now: nat | now >= since :: RemoveUpTo(Live(z, now), now - window) == RemoveUpTo(AsScores(h), now - window)
  }

  lemma RemoveTwice(scores: map<string, nat>, a: int, b: int)
    requires a <= b
    ensures RemoveUpTo(RemoveUpTo(scores, a), b) == RemoveUpTo(scores, b)
  {
  }

  lemma RemoveAfterAdd(scores: map<string, nat>, m: string, t: nat, a: int, b: int)
    requires a <= b && a < t
    ensures RemoveUpTo(RemoveUpTo(scores, a)[m := t], b) == RemoveUpTo(scores[m := t], b)
  {
  }

  lemma SeesHistoryStep(z: Zset, h: seq<Request>, window: nat, limit: nat, since: nat, r: Request)
    requires SeesHistory(z, h, window, since) && since <= r.now && window > 0
    ensures var h' := if Allows(z, r.now, window, limit) then h + [r] else h;
      SeesHistory(After(z, r.now, window, limit, r.member), h', window, r.now)
  {
    var h' := if Allows(z, r.now, window, limit) then h + [r] else h;
    var z' := After(z, r.now, window, limit, r.member);
    assert (h + [r])[..|h|] == h;
    forall now: nat | now >= r.now
      ensures RemoveUpTo(Live(z', now), now - window) == RemoveUpTo(AsScores(h'), now - window)
    {
      if now >= z'.expireAt {
        assert RemoveUpTo(AsScores(h'), now - window) == map[];
      } else if Allows(z, r.now, window, limit) {
        RemoveAfterAdd(AsScores(h), r.member, r.now, r.now - window, now - window);
      } else {
        RemoveTwice(AsScores(h), r.now - window, now - window);
      }
    }
  }

  // ---------- members against admissions ----------

  /** The score of a member is the instant of its latest request. */
  lemma {:induction false} ScoreHasRequest(h: seq<Request>, m: string) returns (i: nat)
    requires m in AsScores(h)
    ensures i < |h| && h[i] == Request(AsScores(h)[m], m)
  {
    var n := |h| - 1;
    if h[n].member == m {
      i := n;
    } else {
      i := ScoreHasRequest(h[..n], m);
    }
  }

  lemma {:induction false} RequestHasScore(h: seq<Request>, i: nat)
    requires Ordered(h) && i < |h|
    ensures h[i].member in AsScores(h) && h[i].now <= AsScores(h)[h[i].member]
  {
    var n := |h| - 1;
    if i < n {
      RequestHasScore(h[..n], i);
    }
  }

  /** The members left after removal up to `bound` are those of the requests after it. */
  lemma {:induction false} MemberRemains(h: seq<Request>, bound: int, m: string)
    requires Ordered(h)
    ensures m in RemoveUpTo(AsScores(h), bound) <==> exists i :: 0 <= i < |h| && h[i].member == m && bound < h[i].now
  {
    if m in RemoveUpTo(AsScores(h), bound) {
      var i := ScoreHasRequest(h, m);
      assert h[i].member == m && bound < h[i].now;
    }
    if i :| 0 <= i < |h| && h[i].member == m && bound < h[i].now {
      RequestHasScore(h, i);
    }
  }

  /** What one more request after `bound` adds. */
  lemma AddOne(scores: map<string, nat>, m: string, t: nat, bound: int)
    requires bound < t
    ensures |RemoveUpTo(scores[m := t], bound)|
      == |RemoveUpTo(scores, bound)| + if m in RemoveUpTo(scores, bound) then 0 else 1
  {
    var before := RemoveUpTo(scores, bound);
    assert RemoveUpTo(scores[m := t], bound) == before[m := t];
    if m in before {
      assert before[m := t].Keys == before.Keys;
    } else {
      assert before[m := t].Keys == before.Keys + {m};
    }
  }

  lemma {:induction false} NothingAfter(h: seq<Request>, bound: int)
    requires Ordered(h) && (h == [] || h[|h| - 1].now <= bound)
    ensures CountAfter(h, bound) == 0 && RemoveUpTo(AsScores(h), bound) == map[] && DistinctAfter(h, bound)
  {
    if h != [] {
      var front := h[..|h| - 1];
      if front != [] {
        assert front[|front| - 1] == h[|h| - 2];
      }
      NothingAfter(front, bound);
      forall m | m in RemoveUpTo(AsScores(h), bound)
        ensures false
      {
        var i := ScoreHasRequest(h, m);
      }
    }
  }

  lemma {:induction false} DistinctSnoc(front: seq<Request>, r: Request, bound: int)
    requires bound < r.now && Ordered(front)
    ensures DistinctAfter(front + [r], bound)
      <==> DistinctAfter(front, bound) && r.member !in RemoveUpTo(AsScores(front), bound)
  {
    var h := front + [r];
    MemberRemains(front, bound, r.member);
    if DistinctAfter(h, bound) {
      forall i, j | 0 <= i < j < |front| && bound < front[i].now && bound < front[j].now
        ensures front[i].member != front[j].member
      {
        assert h[i] == front[i] && h[j] == front[j];
      }
      forall i | 0 <= i < |front| && bound < front[i].now
        ensures front[i].member != r.member
      {
        assert h[i] == front[i] && h[|front|] == r;
      }
    }
  }

  /** Counting members never exceeds counting admissions, and equals it exactly when the
      members in the window are distinct. */
  lemma {:induction false} SizeIsCountIff(h: seq<Request>, bound: int)
    requires Ordered(h)
    ensures |RemoveUpTo(AsScores(h), bound)| <= CountAfter(h, bound)
    ensures |RemoveUpTo(AsScores(h), bound)| == CountAfter(h, bound) <==> DistinctAfter(h, bound)
  {
    if h == [] || h[|h| - 1].now <= bound {
      NothingAfter(h, bound);
    } else {
      var front, r := h[..|h| - 1], h[|h| - 1];
      SizeIsCountIff(front, bound);
      AddOne(AsScores(front), r.member, r.now, bound);
      assert h == front + [r];
      DistinctSnoc(front, r, bound);
    }
  }

  /** No member is left exactly when no admission is. */
  lemma {:induction false} EmptyTogether(h: seq<Request>, bound: int)
    requires Ordered(h)
    ensures |RemoveUpTo(AsScores(h), bound)| == 0 <==> CountAfter(h, bound) == 0
  {
    SizeIsCountIff(h, bound);
    if h != [] && bound < h[|h| - 1].now {
      AddOne(AsScores(h[..|h| - 1]), h[|h| - 1].member, h[|h| - 1].now, bound);
    } else {
      NothingAfter(h, bound);
    }
  }

  function LastNow(reqs: seq<Request>): nat {
    if reqs == [] then 0 else reqs[|reqs| - 1].now
  }

  /** What is let through are requests, each at most once and in order. */
  lemma {:induction false} PassedIsRequest(window: nat, limit: nat, reqs: seq<Request>, i: nat) returns (i': nat)
    requires i < |LetThrough(window, limit, reqs)|
    ensures i' < |reqs| && LetThrough(window, limit, reqs)[i] == reqs[i']
  {
    var front := reqs[..|reqs| - 1];
    if i < |LetThrough(window, limit, front)| {
      i' := PassedIsRequest(window, limit, front, i);
    } else {
      i' := |reqs| - 1;
    }
  }

  lemma {:induction false} PassedInOrder(window: nat, limit: nat, reqs: seq<Request>, i: nat, j: nat)
    returns (i': nat, j': nat)
    requires i < j < |LetThrough(window, limit, reqs)|
    ensures i' < j' < |reqs|
    ensures LetThrough(window, limit, reqs)[i] == reqs[i'] && LetThrough(window, limit, reqs)[j] == reqs[j']
  {
    var front := reqs[..|reqs| - 1];
    if j < |LetThrough(window, limit, front)| {
      i', j' := PassedInOrder(window, limit, front, i, j);
    } else {
      i' := PassedIsRequest(window, limit, front, i);
      j' := |reqs| - 1;
    }
  }

  lemma {:induction false} PassedIsOrdered(window: nat, limit: nat, reqs: seq<Request>)
    requires Ordered(reqs)
    ensures Ordered(LetThrough(window, limit, reqs))
  {
    var h := LetThrough(window, limit, reqs);
    forall i, j | 0 <= i < j < |h|
      ensures h[i].now <= h[j].now
    {
      var i', j' := PassedInOrder(window, limit, reqs, i, j);
    }
  }

  lemma {:induction false} PassedIsDistinct(window: nat, limit: nat, reqs: seq<Request>, now: nat)
    requires Ordered(reqs) && NoRepeats(window, reqs) && now >= LastNow(reqs)
    ensures DistinctAfter(LetThrough(window, limit, reqs), now - window)
  {
    var h := LetThrough(window, limit, reqs);
    forall i, j | 0 <= i < j < |h| && now - window < h[i].now && now - window < h[j].now
      ensures h[i].member != h[j].member
    {
      var i', j' := PassedInOrder(window, limit, reqs, i, j);
      assert reqs[j'].now <= now;
    }
  }

  lemma {:induction false} StoreSeesHistory(window: nat, limit: nat, reqs: seq<Request>)
    requires window > 0 && Ordered(reqs)
    ensures SeesHistory(Stored(window, limit, reqs), LetThrough(window, limit, reqs), window, LastNow(reqs))
  {
    if reqs == [] {
      assert forall now: nat :: Live(EMPTY, now) == map[];
    } else {
      var front, r := reqs[..|reqs| - 1], reqs[|reqs| - 1];
      var z, h := Stored(window, limit, front), LetThrough(window, limit, front);
      assert LastNow(front) <= r.now;
      StoreSeesHistory(window, limit, front);
      SeesHistoryStep(z, h, window, limit, LastNow(front), r);
      assert h + [] == h;
    }
  }

  /** Over every run with nondecreasing times, whatever its members: the script never counts
      more than the admissions in (now - window, now], so it never rejects without cause; and
      it counts exactly these if and only if their members are distinct. Expiry of the key
      never changes a decision. */
  lemma {:induction false} CountIsExactIff(window: nat, limit: nat, reqs: seq<Request>, now: nat)
    requires window > 0 && Ordered(reqs) && now >= LastNow(reqs)
    ensures var counted := |RemoveUpTo(Live(Stored(window, limit, reqs), now), now - window)|;
      var h := LetThrough(window, limit, reqs);
      && counted <= CountAfter(h, now - window)
      && (counted == CountAfter(h, now - window) <==> DistinctAfter(h, now - window))
      && (counted == 0 <==> CountAfter(h, now - window) == 0)
  {
    var h := LetThrough(window, limit, reqs);
    StoreSeesHistory(window, limit, reqs);
    PassedIsOrdered(window, limit, reqs);
    SizeIsCountIff(h, now - window);
    EmptyTogether(h, now - window);
    assert RemoveUpTo(Live(Stored(window, limit, reqs), now), now - window) == RemoveUpTo(AsScores(h), now - window);
  }

  lemma {:induction false} DecisionIsExact(window: nat, limit: nat, reqs: seq<Request>, now: nat)
    requires window > 0 && Ordered(reqs) && now >= LastNow(reqs) && (NoRepeats(window, reqs) || limit <= 1)
    ensures Allows(Stored(window, limit, reqs), now, window, limit)
      <==> CountAfter(LetThrough(window, limit, reqs), now - window) < limit
  {
    CountIsExactIff(window, limit, reqs, now);
    if NoRepeats(window, reqs) {
      PassedIsDistinct(window, limit, reqs, now);
    }
  }

  /** One more request, for the script and for the specification. */
  lemma {:induction false} PassedSnoc(window: nat, limit: nat, front: seq<Request>, r: Request)
    ensures Stored(window, limit, front + [r]) == After(Stored(window, limit, front), r.now, window, limit, r.member)
    ensures var h := LetThrough(window, limit, front);
      LetThrough(window, limit, front + [r])
      == if Allows(Stored(window, limit, front), r.now, window, limit) then h + [r] else h
  {
    assert (front + [r])[..|front|] == front;
  }

  lemma {:induction false} AdmissionsSnoc(window: nat, limit: nat, front: seq<Request>, r: Request)
    ensures var h := Admissions(window, limit, front);
      Admissions(window, limit, front + [r]) == if CountAfter(h, r.now - window) < limit then h + [r] else h
  {
    assert (front + [r])[..|front|] == front;
  }

  lemma {:induction false} ScriptMeetsSpecification(window: nat, limit: nat, reqs: seq<Request>)
    requires window > 0 && Ordered(reqs) && (NoRepeats(window, reqs) || limit <= 1)
    ensures LetThrough(window, limit, reqs) == Admissions(window, limit, reqs)
  {
    if reqs != [] {
      var front, r := reqs[..|reqs| - 1], reqs[|reqs| - 1];
      PrefixIsAlike(window, reqs);
      ScriptMeetsSpecification(window, limit, front);
      SpecificationStep(window, limit, front, r);
    }
  }

  lemma PrefixIsAlike(window: nat, reqs: seq<Request>)
    requires Ordered(reqs) && reqs != []
    ensures var front, r := reqs[..|reqs| - 1], reqs[|reqs| - 1];
      && reqs == front + [r]
      && Ordered(front) && LastNow(front) <= r.now && (NoRepeats(window, reqs) ==> NoRepeats(window, front))
  {
    var front := reqs[..|reqs| - 1];
    if front != [] {
      assert front[|front| - 1] == reqs[|reqs| - 2];
    }
  }

  lemma {:induction false} SpecificationStep(window: nat, limit: nat, front: seq<Request>, r: Request)
    requires window > 0 && Ordered(front) && (NoRepeats(window, front) || limit <= 1) && LastNow(front) <= r.now
    requires LetThrough(window, limit, front) == Admissions(window, limit, front)
    ensures LetThrough(window, limit, front + [r]) == Admissions(window, limit, front + [r])
  {
    DecisionIsExact(window, limit, front, r.now);
    PassedSnoc(window, limit, front, r);
    AdmissionsSnoc(window, limit, front, r);
  }

  /** The sliding window is exact: over every run with nondecreasing times in which no request
      repeats a member still in the window, the script admits exactly the requests of the
      specification, and the next one at any later instant just when fewer than `limit`
      admissions lie within the window. With a limit of one members do not matter. */
  lemma {:induction false} SlidingWindowIsExact(window: nat, limit: nat, reqs: seq<Request>, now: nat)
    requires window > 0 && Ordered(reqs) && now >= LastNow(reqs) && (NoRepeats(window, reqs) || limit <= 1)
    ensures LetThrough(window, limit, reqs) == Admissions(window, limit, reqs)
    ensures Allows(Stored(window, limit, reqs), now, window, limit)
      <==> CountAfter(Admissions(window, limit, reqs), now - window) < limit
  {
    ScriptMeetsSpecification(window, limit, reqs);
    DecisionIsExact(window, limit, reqs, now);
  }

  /** The reported remainder is exact: after every request it is the limit less the admissions
      in the window, this one included if it was let through. */
  lemma {:induction false} RemainingIsExact(window: nat, limit: nat, reqs: seq<Request>, now: nat)
    requires window > 0 && Ordered(reqs) && LastNow(reqs) <= now && NoRepeats(window, reqs)
    ensures var z := Stored(window, limit, reqs);
      Remaining(z, now, window, limit) ==
        limit - CountAfter(LetThrough(window, limit, reqs), now - window)
        - if Allows(z, now, window, limit) then 1 else 0
  {
    CountedNow(window, limit, reqs, now);
    RemainingOf(Stored(window, limit, reqs), now, window, limit);
  }

  lemma RemainingOf(z: Zset, now: nat, window: nat, limit: nat)
    requires |RemoveUpTo(Live(z, now), now - window)| <= limit
    ensures Remaining(z, now, window, limit)
         == limit - |RemoveUpTo(Live(z, now), now - window)| - if Allows(z, now, window, limit) then 1 else 0
  {
  }

  lemma {:induction false} CountedNow(window: nat, limit: nat, reqs: seq<Request>, now: nat)
    requires window > 0 && Ordered(reqs) && LastNow(reqs) <= now && NoRepeats(window, reqs)
    ensures var counted := |RemoveUpTo(Live(Stored(window, limit, reqs), now), now - window)|;
      counted == CountAfter(LetThrough(window, limit, reqs), now - window) && counted <= limit
  {
    CountIsExactIff(window, limit, reqs, now);
    PassedIsDistinct(window, limit, reqs, now);
    NeverBeyond(window, limit, reqs, now);
  }

  lemma {:induction false} NeverBeyond(window: nat, limit: nat, reqs: seq<Request>, now: nat)
    requires window > 0 && Ordered(reqs) && now >= LastNow(reqs)
    ensures |RemoveUpTo(Live(Stored(window, limit, reqs), now), now - window)| <= limit
  {
    StoredWithinLimit(window, limit, reqs);
    SubmapSize(RemoveUpTo(Live(Stored(window, limit, reqs), now), now - window), Stored(window, limit, reqs).scores);
  }

  // ---------- repeated members ----------

  /** An admitted request takes a new place if and only if its member is not still in the
      window; if it is, the next request is admitted as well. */
  lemma TakesPlaceIffNewMember(z: Zset, now: nat, window: nat, limit: nat, member: string)
    requires window > 0 && Allows(z, now, window, limit)
    ensures var pruned := RemoveUpTo(Live(z, now), now - window);
      var z' := After(z, now, window, limit, member);
      && (|z'.scores| == |pruned| + 1 <==> member !in pruned)
      && (member in pruned ==> |z'.scores| == |pruned| && Allows(z', now, window, limit))
  {
    var pruned := RemoveUpTo(Live(z, now), now - window);
    var z' := After(z, now, window, limit, member);
    if member in pruned {
      assert pruned[member := now].Keys == pruned.Keys;
      assert RemoveUpTo(Live(z', now), now - window) == pruned[member := now];
    } else {
      assert pruned[member := now].Keys == pruned.Keys + {member};
    }
  }

  function Repeated(r: Request, n: nat): seq<Request> {
    seq(n, _ => r)
  }

  lemma RepeatedSnoc(r: Request, n: nat)
    requires n > 0
    ensures Repeated(r, n)[..n - 1] == Repeated(r, n - 1) && Repeated(r, n) == Repeated(r, n - 1) + [r]
  {
  }

  /** The failing family: under any limit of two or more, requests with one member at one
      instant are all let through, however many they are. */
  lemma {:induction false} RepeatedMemberAlwaysPasses(window: nat, limit: nat, r: Request, n: nat)
    requires window > 0 && limit >= 2
    ensures LetThrough(window, limit, Repeated(r, n)) == Repeated(r, n)
    ensures n > 0 ==> Stored(window, limit, Repeated(r, n)) == Zset(map[r.member := r.now], r.now + window)
  {
    if n > 0 {
      RepeatedMemberAlwaysPasses(window, limit, r, n - 1);
      RepeatedSnoc(r, n);
      PassedSnoc(window, limit, Repeated(r, n - 1), r);
      RepeatedStep(window, limit, r, Stored(window, limit, Repeated(r, n - 1)));
    }
  }

  lemma RepeatedStep(window: nat, limit: nat, r: Request, z: Zset)
    requires window > 0 && limit >= 2 && (z == EMPTY || z == Zset(map[r.member := r.now], r.now + window))
    ensures Allows(z, r.now, window, limit)
    ensures After(z, r.now, window, limit, r.member) == Zset(map[r.member := r.now], r.now + window)
  {
    var pruned := RemoveUpTo(Live(z, r.now), r.now - window);
    assert pruned == if z == EMPTY then map[] else map[r.member := r.now];
    assert pruned[r.member := r.now] == map[r.member := r.now];
  }

  lemma {:induction false} RepeatedCount(r: Request, n: nat, bound: int)
    requires bound < r.now
    ensures CountAfter(Repeated(r, n), bound) == n && CountIn(Repeated(r, n), bound, r.now) == n
  {
    if n > 0 {
      RepeatedSnoc(r, n);
      RepeatedCount(r, n - 1, bound);
    }
  }

  /** One of that family: three requests in one window at a limit of two. */
  lemma ThreePassAtLimitTwo()
    ensures var r := Request(0, "x");
      LetThrough(10, 2, [r, r, r]) == [r, r, r] && CountIn([r, r, r], -10, 0) == 3
  {
    var r := Request(0, "x");
    assert Repeated(r, 3) == [r, r, r];
    RepeatedMemberAlwaysPasses(10, 2, r, 3);
    RepeatedCount(r, 3, -10);
  }

  /** So the script meets the specification on every run, whatever its members, if and only if
      the limit is at most one. */
  lemma ExactForAllMembersIff(window: nat, limit: nat)
    requires window > 0
    ensures (forall reqs | Ordered(reqs) :: LetThrough(window, limit, reqs) == Admissions(window, limit, reqs))
      <==> limit <= 1
  {
    if limit <= 1 {
      forall reqs | Ordered(reqs)
        ensures LetThrough(window, limit, reqs) == Admissions(window, limit, reqs)
      {
        SlidingWindowIsExact(window, limit, reqs, LastNow(reqs));
      }
    } else {
      var reqs := RunThatDiffers(window, limit);
    }
  }

  lemma RunThatDiffers(window: nat, limit: nat) returns (reqs: seq<Request>)
    requires window > 0 && limit >= 2
    ensures Ordered(reqs) && LetThrough(window, limit, reqs) != Admissions(window, limit, reqs)
  {
    var r := Request(0, "");
    reqs := Repeated(r, limit + 1);
    RepeatedMemberAlwaysPasses(window, limit, r, limit + 1);
    TooManyDiffer(window, limit, reqs, 0 - window) by {
      RepeatedCount(r, limit + 1, 0 - window);
    }
  }

  lemma TooManyDiffer(window: nat, limit: nat, reqs: seq<Request>, x: int)
    requires CountIn(LetThrough(window, limit, reqs), x, x + window) > limit
    ensures LetThrough(window, limit, reqs) != Admissions(window, limit, reqs)
  {
    AdmissionsFitWindows(window, limit, reqs, x);
  }

  // ---------- no window holds too much ----------

  /** Admissions in (from, to]. */
  function CountIn(h: seq<Request>, from: int, to: int): nat {
    if h == [] then 0 else CountIn(h[..|h| - 1], from, to) + if from < h[|h| - 1].now <= to then 1 else 0
  }

  lemma {:induction false} CountInWithin(h: seq<Request>, from: int, to: int, bound: int)
    requires bound <= from
    ensures CountIn(h, from, to) <= CountAfter(h, bound)
  {
    if h != [] {
      CountInWithin(h[..|h| - 1], from, to, bound);
    }
  }

  lemma {:induction false} AdmissionsFitWindows(window: nat, limit: nat, reqs: seq<Request>, x: int)
    ensures CountIn(Admissions(window, limit, reqs), x, x + window) <= limit
  {
    if reqs != [] {
      var front, r := reqs[..|reqs| - 1], reqs[|reqs| - 1];
      var h := Admissions(window, limit, front);
      AdmissionsFitWindows(window, limit, front, x);
      assert (h + [r])[..|h|] == h;
      if x < r.now <= x + window {
        CountInWithin(h, x, x + window, r.now - window);
      }
    }
  }

  /** No interval of the window's length, wherever it lies, ever holds more than `limit`
      requests that the script let through. */
  lemma NoWindowExceedsLimit(window: nat, limit: nat, reqs: seq<Request>, x: int)
    requires window > 0 && Ordered(reqs) && (NoRepeats(window, reqs) || limit <= 1)
    ensures CountIn(LetThrough(window, limit, reqs), x, x + window) <= limit
  {
    SlidingWindowIsExact(window, limit, reqs, LastNow(reqs));
    AdmissionsFitWindows(window, limit, reqs, x);
  }

  // ---------- rejections ----------

  predicate WithinLimit(z: Zset, limit: nat) {
    |z.scores| <= limit
  }

  lemma SubmapSize(sub: map<string, nat>, m: map<string, nat>)
    requires sub.Keys <= m.Keys
    ensures |sub| <= |m|
  {
    assert |m.Keys| == |sub.Keys| + |m.Keys - sub.Keys| by {
      assert m.Keys == sub.Keys + (m.Keys - sub.Keys);
    }
  }

  /** With a fixed limit the set never outgrows it. */
  lemma {:induction false} StoredWithinLimit(window: nat, limit: nat, reqs: seq<Request>)
    ensures WithinLimit(Stored(window, limit, reqs), limit)
  {
    if reqs != [] {
      var front, r := reqs[..|reqs| - 1], reqs[|reqs| - 1];
      StoredWithinLimit(window, limit, front);
      var z := Stored(window, limit, front);
      SubmapSize(RemoveUpTo(Live(z, r.now), r.now - window), z.scores);
    }
  }

  /** A rejected script run leaves the full window of `limit` members. */
  lemma RejectedIsFull(z: Zset, now: nat, window: nat, limit: nat, member: string)
    requires WithinLimit(z, limit) && !Allows(z, now, window, limit)
    ensures |After(z, now, window, limit, member).scores| == limit
    ensures forall m | m in After(z, now, window, limit, member).scores ::
      now - window < After(z, now, window, limit, member).scores[m]
  {
    SubmapSize(RemoveUpTo(Live(z, now), now - window), z.scores);
  }

  /** The state of a key between a rejection and its reset_at: full, with the given scores. */
  ghost predicate Blocked(z: Zset, scores: map<string, nat>, window: nat, limit: nat, since: nat, resetAt: int) {
    && z.scores == scores && |scores| == limit && z.expireAt == since + window
    && (forall m | m in scores :: scores[m] + window >= resetAt && scores[m] <= since)
    && (exists m | m in scores :: scores[m] + window == resetAt)
  }

  lemma BlockedStep(z: Zset, scores: map<string, nat>, window: nat, limit: nat, since: nat, resetAt: int, r: Request)
    requires Blocked(z, scores, window, limit, since, resetAt) && since <= r.now
    ensures r.now < resetAt ==>
      && !Allows(z, r.now, window, limit)
      && Blocked(After(z, r.now, window, limit, r.member), scores, window, limit, r.now, resetAt)
    ensures r.now >= resetAt ==> Allows(z, r.now, window, limit)
  {
    var pruned := RemoveUpTo(Live(z, r.now), r.now - window);
    if r.now < resetAt {
      assert pruned == scores;
    } else {
      var m :| m in scores && scores[m] + window == resetAt;
      SubmapSize(pruned, scores - {m});
      assert |scores - {m}| == |scores| - 1 by { assert scores.Keys == (scores - {m}).Keys + {m}; }
    }
  }

  /** A run of requests that all come before reset_at, and the request after them. */
  function Continue(z: Zset, window: nat, limit: nat, reqs: seq<Request>): Zset {
    if reqs == [] then z else
      var r := reqs[|reqs| - 1];
      After(Continue(z, window, limit, reqs[..|reqs| - 1]), r.now, window, limit, r.member)
  }

  lemma {:induction false} StaysBlocked(
    z: Zset, scores: map<string, nat>, window: nat, limit: nat, since: nat, resetAt: int, reqs: seq<Request>)
    requires Blocked(z, scores, window, limit, since, resetAt)
    requires Ordered(reqs) && forall i | 0 <= i < |reqs| :: since <= reqs[i].now < resetAt
    ensures Blocked(Continue(z, window, limit, reqs), scores, window, limit,
                    if reqs == [] then since else reqs[|reqs| - 1].now, resetAt)
  {
    if reqs != [] {
      var front := reqs[..|reqs| - 1];
      StaysBlocked(z, scores, window, limit, since, resetAt, front);
      BlockedStep(Continue(z, window, limit, front), scores, window, limit,
                  if front == [] then since else front[|front| - 1].now, resetAt, reqs[|reqs| - 1]);
    }
  }

  /** After the requests of a run, a request at `now` is rejected and told resetAt. */
  ghost predicate RejectedAt(window: nat, limit: nat, reqs: seq<Request>, r: Request, resetAt: int) {
    && limit > 0 && window > 0 && Ordered(reqs) && LastNow(reqs) <= r.now
    && !Allows(Stored(window, limit, reqs), r.now, window, limit)
    && ResetsAt(After(Stored(window, limit, reqs), r.now, window, limit, r.member).scores, r.now, window, resetAt)
  }

  ghost predicate AllBetween(reqs: seq<Request>, from: int, to: int) {
    Ordered(reqs) && forall i | 0 <= i < |reqs| :: from <= reqs[i].now < to
  }

  /** The store after the run, the rejected request and those that came before resetAt. */
  function StoredThen(window: nat, limit: nat, reqs: seq<Request>, r: Request, early: seq<Request>): Zset {
    Continue(After(Stored(window, limit, reqs), r.now, window, limit, r.member), window, limit, early)
  }

  /** Rejection times are tight. After a rejection that reported resetAt, whatever requests
      come before resetAt are rejected too, and after them a request at t is admitted exactly
      when t has reached resetAt. */
  lemma RejectionIsTight(
    window: nat, limit: nat, reqs: seq<Request>, r: Request, resetAt: int, early: seq<Request>, t: nat)
    requires RejectedAt(window, limit, reqs, r, resetAt) && AllBetween(early, r.now, resetAt)
    requires t >= (if early == [] then r.now else early[|early| - 1].now)
    ensures Allows(StoredThen(window, limit, reqs, r, early), t, window, limit) <==> t >= resetAt
    ensures r.now < resetAt <= r.now + window
  {
    var z := Stored(window, limit, reqs);
    var z' := After(z, r.now, window, limit, r.member);
    StoredWithinLimit(window, limit, reqs);
    RejectedIsFull(z, r.now, window, limit, r.member);
    ScoresArePast(window, limit, reqs);
    assert z'.scores != map[];
    assert Blocked(z', z'.scores, window, limit, r.now, resetAt);
    StaysBlocked(z', z'.scores, window, limit, r.now, resetAt, early);
    BlockedStep(Continue(z', window, limit, early), z'.scores, window, limit,
                if early == [] then r.now else early[|early| - 1].now, resetAt, Request(t, r.member));
  }

  lemma {:induction false} ScoresArePast(window: nat, limit: nat, reqs: seq<Request>)
    requires Ordered(reqs)
    ensures forall m | m in Stored(window, limit, reqs).scores :: Stored(window, limit, reqs).scores[m] <= LastNow(reqs)
  {
    if reqs != [] {
      ScoresArePast(window, limit, reqs[..|reqs| - 1]);
    }
  }

  lemma AdmittedFromReset(
    window: nat, limit: nat, reqs: seq<Request>, r: Request, resetAt: int, early: seq<Request>, t: nat)
    requires RejectedAt(window, limit, reqs, r, resetAt) && AllBetween(early, r.now, resetAt) && t >= resetAt
    ensures Allows(StoredThen(window, limit, reqs, r, early), t, window, limit)
  {
    RejectionIsTight(window, limit, reqs, r, resetAt, [], r.now);
    RejectionIsTight(window, limit, reqs, r, resetAt, early, t);
  }

  /** RedisStore.Allow rounds a window up to whole milliseconds. */
  function WindowMillis(window: nat): (ms: nat)
    ensures ms * 1_000_000 >= window && (ms > 0 ==> (ms - 1) * 1_000_000 < window)
  {
    window / 1_000_000 + if window % 1_000_000 != 0 then 1 else 0
  }
}
