/** How often an IP can be admitted in any run, evictions and late entries included. */
module RateLimiterBounds {
  import opened Arithmetic
  import opened TokenBucket
  import opened TokenWindows
  import opened RateLimiter
  import opened RateLimiterRuns
  import opened RateLimiterLogs

  // ---- buckets of one token, however late requests enter them --------------------------------

  /** After this time since its last request a bucket may be dropped. */
  function Rest(d: int): int { IDLE + 1 - d }

  predicate IsHeld(s: State, call: Call) {
    call.ip in s.table && s.table[call.ip].limiter == call.limiter
  }

  /** A call on a bucket that is not its IP's any more was looked up long before the bucket that is. */
  ghost predicate Placed(c: Config, s: State, call: Call) {
    && call.limiter < |s.slots| && s.slots[call.limiter].ip == call.ip && s.slots[call.limiter].bucket.Valid(c)
    && (if IsHeld(s, call) then IsCurrent(s, call) else call.at + IDLE + 1 <= Since(s, call.ip))
  }

  predicate Ordered(a: Call, b: Call) {
    a.ip == b.ip && a.limiter != b.limiter ==> a.at + IDLE + 1 <= b.at || b.at + IDLE + 1 <= a.at
  }

  /** The bucket is empty since that hit or a later one. */
  predicate Spent(b: Bucket, h: Hit) { b.tokens == 0 && h.at <= b.last }

  /** An admission is long past, or the current bucket is empty since. */
  predicate Past(c: Config, d: int, s: State, ip: string, h: Hit) {
    h.ok ==> h.at + Rest(d) <= Since(s, ip) || (ip in s.table && Spent(Current(c, s, ip), h))
  }

  /** An admission is far from any clock the call can read, or the call's bucket is empty since. */
  predicate Clear(d: int, s: State, call: Call, h: Hit) {
    h.ok ==> h.at + Rest(d) <= call.at || call.at + IDLE + 1 <= h.at
             || (call.limiter < |s.slots| && Spent(s.slots[call.limiter].bucket, h))
  }

  ghost predicate CallsPlaced(c: Config, s: State) {
    && (forall i :: 0 <= i < |s.calls| ==> Placed(c, s, s.calls[i]))
    && (forall i, j :: 0 <= i < |s.calls| && 0 <= j < |s.calls| ==> Ordered(s.calls[i], s.calls[j]))
  }

  ghost predicate HitsOk(c: Config, d: int, s: State, ip: string) {
    && Apart(c, History(s.log, ip))
    && (forall h :: h in History(s.log, ip) ==> Past(c, d, s, ip, h))
    && (forall h, i :: h in History(s.log, ip) && 0 <= i < |s.calls| && s.calls[i].ip == ip ==>
          Clear(d, s, s.calls[i], h))
  }

  ghost predicate LateInv(c: Config, d: int, s: State) {
    TableOk(c, d, s) && CallsPlaced(c, s) && forall ip :: HitsOk(c, d, s, ip)
  }

  lemma SinceGrows(c: Config, d: int, slip: int, s: State, e: Event, ip: string)
    requires TableOk(c, d, s) && Legal(d, slip, s, e)
    ensures Since(s, ip) <= Since(Apply(c, s, e), ip)
    ensures e.Tick? && ip in s.table && ip !in Apply(c, s, e).table ==>
              s.table[ip].lastSeen + IDLE + 1 <= Since(Apply(c, s, e), ip)
  {
  }

  lemma LookupPlaces(c: Config, d: int, slip: int, s: State, e: Event, i: nat)
    requires TableOk(c, d, s) && CallsPlaced(c, s) && e.Lookup? && Legal(d, slip, s, e) && c.Valid()
    requires i < |Apply(c, s, e).calls|
    ensures Placed(c, Apply(c, s, e), Apply(c, s, e).calls[i])
    ensures i < |s.calls| ==> Ordered(s.calls[i], Apply(c, s, e).calls[|s.calls|])
  {
    if i < |s.calls| {
      assert Placed(c, s, s.calls[i]);
      SinceGrows(c, d, slip, s, e, s.calls[i].ip);
    }
  }

  lemma LookupKeepsHits(c: Config, d: int, slip: int, s: State, e: Event, ip: string)
    requires TableOk(c, d, s) && HitsOk(c, d, s, ip) && e.Lookup? && Legal(d, slip, s, e)
    ensures HitsOk(c, d, Apply(c, s, e), ip)
  {
    var s' := Apply(c, s, e);
    SinceGrows(c, d, slip, s, e, ip);
    forall h | h in History(s'.log, ip) ensures Past(c, d, s', ip, h) {
      assert Past(c, d, s, ip, h);
    }
    forall h, i | h in History(s'.log, ip) && 0 <= i < |s'.calls| && s'.calls[i].ip == ip
      ensures Clear(d, s', s'.calls[i], h)
    {
      if i < |s.calls| {
        assert Clear(d, s, s.calls[i], h);
      } else {
        assert Past(c, d, s, ip, h);
      }
    }
  }

  lemma LookupKeepsLate(c: Config, d: int, slip: int, s: State, e: Event)
    requires c.Valid() && 0 <= d && LateInv(c, d, s) && e.Lookup? && Legal(d, slip, s, e)
    ensures LateInv(c, d, Apply(c, s, e))
  {
    var s' := Apply(c, s, e);
    LookupKeepsTable(c, d, s, e.ip, e.at);
    forall i | 0 <= i < |s'.calls|
      ensures Placed(c, s', s'.calls[i]) && (i < |s.calls| ==> Ordered(s.calls[i], s'.calls[|s.calls|]))
    {
      LookupPlaces(c, d, slip, s, e, i);
    }
    forall ip ensures HitsOk(c, d, s', ip) {
      assert HitsOk(c, d, s, ip);
      LookupKeepsHits(c, d, slip, s, e, ip);
    }
  }

  lemma TickPlaces(c: Config, d: int, slip: int, s: State, e: Event, call: Call)
    requires TableOk(c, d, s) && Placed(c, s, call) && e.Tick? && Legal(d, slip, s, e)
    ensures Placed(c, Apply(c, s, e), call)
  {
    SinceGrows(c, d, slip, s, e, call.ip);
  }

  lemma TickKeepsHits(c: Config, d: int, slip: int, s: State, e: Event, ip: string)
    requires TableOk(c, d, s) && HitsOk(c, d, s, ip) && e.Tick? && Legal(d, slip, s, e)
    ensures HitsOk(c, d, Apply(c, s, e), ip)
  {
    var s' := Apply(c, s, e);
    SinceGrows(c, d, slip, s, e, ip);
    forall h | h in History(s'.log, ip) ensures Past(c, d, s', ip, h) {
      assert Past(c, d, s, ip, h);
    }
    forall h, i | h in History(s'.log, ip) && 0 <= i < |s'.calls| && s'.calls[i].ip == ip
      ensures Clear(d, s', s'.calls[i], h)
    {
      assert Clear(d, s, s.calls[i], h);
    }
  }

  lemma TickKeepsLate(c: Config, d: int, slip: int, s: State, e: Event)
    requires c.Valid() && 0 <= d && LateInv(c, d, s) && e.Tick? && Legal(d, slip, s, e)
    ensures LateInv(c, d, Apply(c, s, e))
  {
    var s' := Apply(c, s, e);
    forall i | 0 <= i < |s'.calls| ensures Placed(c, s', s'.calls[i]) {
      TickPlaces(c, d, slip, s, e, s.calls[i]);
    }
    forall ip ensures HitsOk(c, d, s', ip) {
      assert HitsOk(c, d, s, ip);
      TickKeepsHits(c, d, slip, s, e, ip);
    }
  }

  /** What an answer does to the bucket it comes from. */
  lemma OneTokenTake(c: Config, b: Bucket, t: int)
    requires c.Valid() && c.burst == 1 && b.Valid(c)
    ensures var (b', ok) := Take(c, b, t);
            && b'.Valid(c) && (!ok ==> b' == b)
            && (ok ==> b' == Bucket(0, t) && (b.tokens == 0 ==> b.last <= t))
  {
    TakeKeepsValid(c, b, t);
  }

  /** An admission is spaced from all before it. */
  lemma AdmissionIsSpaced(c: Config, d: int, s: State, call: Call, read: int, h: Hit)
    requires c.Valid() && c.burst == 1 && Refilled(c, d) && Placed(c, s, call) && h.ok && Clear(d, s, call, h)
    requires call.at <= read <= call.at + d && Take(c, s.slots[call.limiter].bucket, read).1
    ensures Spaced(c, h.at, read)
  {
    if h.at + Rest(d) <= call.at {
      MulMonotone(c.rpm, Rest(d), read - h.at);
    } else if call.at + IDLE + 1 <= h.at {
      MulMonotone(c.rpm, Rest(d), h.at - read);
    } else {
      EmptyIsSpaced(c, s.slots[call.limiter].bucket, h.at, read);
    }
  }

  /** The state after an Allow of `call`, in the terms of this invariant. */
  ghost predicate Answered(c: Config, s: State, s': State, i: nat, read: int) {
    && i < |s.calls| && s.calls[i].limiter < |s.slots| && |s'.calls| == |s.calls| && |s'.slots| == |s.slots|
    && s'.table == s.table && s.now <= s'.now
    && (forall j :: 0 <= j < |s.calls| ==> s'.calls[j] == s.calls[j].(open := s'.calls[j].open))
    && (forall l :: 0 <= l < |s.slots| ==>
          s'.slots[l] == s.slots[l].(bucket := if l == s.calls[i].limiter then Take(c, s.slots[l].bucket, read).0
                                               else s.slots[l].bucket))
    && s'.log == s.log + [Answer(s.calls[i].ip, Hit(read, Take(c, s.slots[s.calls[i].limiter].bucket, read).1))]
  }

  lemma AllowAnswers(c: Config, d: int, slip: int, s: State, e: Event)
    requires e.Allow? && Legal(d, slip, s, e) && s.calls[e.call].limiter < |s.slots|
    ensures Answered(c, s, Apply(c, s, e), e.call, e.read)
  {
  }

  lemma AnswerPlaces(c: Config, s: State, s': State, i: nat, read: int, j: nat)
    requires c.Valid() && c.burst == 1 && CallsPlaced(c, s) && Answered(c, s, s', i, read) && j < |s.calls|
    ensures Placed(c, s', s'.calls[j])
  {
    assert Placed(c, s, s.calls[i]) && Placed(c, s, s.calls[j]);
    OneTokenTake(c, s.slots[s.calls[i].limiter].bucket, read);
  }

  lemma OldHitStaysPast(c: Config, d: int, s: State, s': State, i: nat, read: int, ip: string, h: Hit)
    requires c.Valid() && c.burst == 1 && TableOk(c, d, s) && CallsPlaced(c, s) && Answered(c, s, s', i, read)
    requires Past(c, d, s, ip, h)
    ensures Past(c, d, s', ip, h)
  {
    assert Placed(c, s, s.calls[i]);
    OneTokenTake(c, s.slots[s.calls[i].limiter].bucket, read);
  }

  lemma OldHitStaysClear(c: Config, d: int, s: State, s': State, i: nat, read: int, j: nat, h: Hit)
    requires c.Valid() && c.burst == 1 && CallsPlaced(c, s) && Answered(c, s, s', i, read) && j < |s.calls|
    requires Clear(d, s, s.calls[j], h)
    ensures Clear(d, s', s'.calls[j], h)
  {
    assert Placed(c, s, s.calls[i]) && Placed(c, s, s.calls[j]);
    OneTokenTake(c, s.slots[s.calls[i].limiter].bucket, read);
  }

  lemma NewHitIsPast(c: Config, d: int, s: State, s': State, i: nat, read: int, h: Hit)
    requires c.Valid() && c.burst == 1 && TableOk(c, d, s) && CallsPlaced(c, s) && Answered(c, s, s', i, read)
    requires s.calls[i].at <= read <= s.calls[i].at + d
    requires h == Hit(read, Take(c, s.slots[s.calls[i].limiter].bucket, read).1)
    ensures Past(c, d, s', s.calls[i].ip, h)
  {
    assert Placed(c, s, s.calls[i]);
    OneTokenTake(c, s.slots[s.calls[i].limiter].bucket, read);
  }

  lemma NewHitIsClear(c: Config, d: int, s: State, s': State, i: nat, read: int, j: nat, h: Hit)
    requires c.Valid() && c.burst == 1 && CallsPlaced(c, s) && Answered(c, s, s', i, read)
    requires s.calls[i].at <= read <= s.calls[i].at + d && j < |s.calls| && s.calls[j].ip == s.calls[i].ip
    requires h == Hit(read, Take(c, s.slots[s.calls[i].limiter].bucket, read).1)
    ensures Clear(d, s', s'.calls[j], h)
  {
    assert Placed(c, s, s.calls[i]) && Ordered(s.calls[i], s.calls[j]);
    OneTokenTake(c, s.slots[s.calls[i].limiter].bucket, read);
  }

  lemma ApartAppend(c: Config, hits: seq<Hit>, h: Hit)
    requires Apart(c, hits) && forall x :: x in hits && x.ok && h.ok ==> Spaced(c, x.at, h.at)
    ensures Apart(c, hits + [h])
  {
    var all := hits + [h];
    forall i, j | 0 <= i < j < |all| && all[i].ok && all[j].ok ensures Spaced(c, all[i].at, all[j].at) {
      if j == |hits| { assert hits[i] in hits; }
    }
  }

  lemma OtherHitsKept(c: Config, d: int, s: State, s': State, i: nat, read: int, ip: string)
    requires c.Valid() && c.burst == 1 && TableOk(c, d, s) && CallsPlaced(c, s) && Answered(c, s, s', i, read)
    requires HitsOk(c, d, s, ip) && ip != s.calls[i].ip
    ensures HitsOk(c, d, s', ip)
  {
    HistoryAppend(s.log, s'.log[|s.log|], ip);
    assert History(s'.log, ip) == History(s.log, ip);
    forall h | h in History(s'.log, ip) ensures Past(c, d, s', ip, h) {
      OldHitStaysPast(c, d, s, s', i, read, ip, h);
    }
    forall h, j | h in History(s'.log, ip) && 0 <= j < |s'.calls| && s'.calls[j].ip == ip
      ensures Clear(d, s', s'.calls[j], h)
    {
      OldHitStaysClear(c, d, s, s', i, read, j, h);
    }
  }

  lemma OwnHitsKept(c: Config, d: int, s: State, s': State, i: nat, read: int)
    requires c.Valid() && c.burst == 1 && Refilled(c, d)
    requires TableOk(c, d, s) && CallsPlaced(c, s) && Answered(c, s, s', i, read)
    requires HitsOk(c, d, s, s.calls[i].ip) && s.calls[i].at <= read <= s.calls[i].at + d
    ensures HitsOk(c, d, s', s.calls[i].ip)
  {
    var ip, h := s.calls[i].ip, s'.log[|s.log|].hit;
    var hits := History(s.log, ip);
    assert Placed(c, s, s.calls[i]);
    HistoryAppend(s.log, s'.log[|s.log|], ip);
    forall x | x in hits && x.ok && h.ok ensures Spaced(c, x.at, h.at) {
      AdmissionIsSpaced(c, d, s, s.calls[i], read, x);
    }
    ApartAppend(c, hits, h);
    forall x | x in hits + [h] ensures Past(c, d, s', ip, x) {
      if x in hits { OldHitStaysPast(c, d, s, s', i, read, ip, x); } else { NewHitIsPast(c, d, s, s', i, read, x); }
    }
    forall x, j | x in hits + [h] && 0 <= j < |s'.calls| && s'.calls[j].ip == ip ensures Clear(d, s', s'.calls[j], x) {
      if x in hits {
        OldHitStaysClear(c, d, s, s', i, read, j, x);
      } else {
        NewHitIsClear(c, d, s, s', i, read, j, x);
      }
    }
  }

  lemma AllowKeepsLate(c: Config, d: int, slip: int, s: State, e: Event)
    requires c.Valid() && 0 <= d && c.burst == 1 && Refilled(c, d)
    requires LateInv(c, d, s) && e.Allow? && Legal(d, slip, s, e)
    ensures LateInv(c, d, Apply(c, s, e))
  {
    var s', call := Apply(c, s, e), s.calls[e.call];
    assert Placed(c, s, call);
    AllowKeepsTable(c, d, slip, s, e);
    AllowAnswers(c, d, slip, s, e);
    forall j | 0 <= j < |s'.calls| ensures Placed(c, s', s'.calls[j]) {
      AnswerPlaces(c, s, s', e.call, e.read, j);
    }
    forall i, j | 0 <= i < |s'.calls| && 0 <= j < |s'.calls| ensures Ordered(s'.calls[i], s'.calls[j]) {
      assert Ordered(s.calls[i], s.calls[j]);
    }
    forall ip ensures HitsOk(c, d, s', ip) {
      assert HitsOk(c, d, s, ip);
      if ip == call.ip {
        OwnHitsKept(c, d, s, s', e.call, e.read);
      } else {
        OtherHitsKept(c, d, s, s', e.call, e.read, ip);
      }
    }
  }

  lemma {:induction false} RunKeepsLate(c: Config, d: int, slip: int, es: seq<Event>)
    requires c.Valid() && 0 <= d && c.burst == 1 && Refilled(c, d) && LegalRun(c, d, slip, es)
    ensures LateInv(c, d, Run(c, es))
  {
    if es != [] {
      var before, e := es[..|es| - 1], es[|es| - 1];
      RunKeepsLate(c, d, slip, before);
      match e
      case Lookup(_, _) => LookupKeepsLate(c, d, slip, Run(c, before), e);
      case Allow(_, _, _) => AllowKeepsLate(c, d, slip, Run(c, before), e);
      case Tick(_, _) => TickKeepsLate(c, d, slip, Run(c, before), e);
    }
  }

  // ---- main results ----------------------------------------------------------------------

  lemma OneTokenIsBounded(c: Config, d: int, slip: int, es: seq<Event>)
    requires c.Valid() && 0 <= d && c.burst == 1 && Refilled(c, d) && LegalRun(c, d, slip, es)
    ensures Bounded(c, Run(c, es))
  {
    RunKeepsLate(c, d, slip, es);
    forall ip, lo, hi | lo <= hi ensures WindowOk(c, History(Run(c, es).log, ip), lo, hi) {
      assert HitsOk(c, d, Run(c, es), ip);
      ApartIsBounded(c, History(Run(c, es).log, ip), lo, hi);
    }
  }

  /** The run in which requests swap until an IP has been admitted too often. */
  lemma SwappingRunIsUnbounded(c: Config, d: int, slip: int) returns (es: seq<Event>)
    requires c.Valid() && 0 <= d && Refilled(c, d) && c.burst >= 2 && 1 <= slip
    ensures LegalRun(c, d, slip, es) && !Bounded(c, Run(c, es))
  {
    var hits, t := SwappedRequestsRefillTwice(c, 1);
    MulMonotone(c.rpm, IDLE + 1 - d, IDLE + 1);
    es := EveryHistoryIsLogged(c, 0, 1, "ip", hits);
    LegalWithMoreTime(c, 0, 1, d, slip, es);
    assert !WindowOk(c, History(Run(c, es).log, "ip"), 0, t);
  }

  /** In every timely run no IP is admitted more than the burst and the refill in any window, exactly
      when buckets are dropped full and either requests enter them as they read the clock or the burst
      is one. */
  lemma RateIsBoundedIff(c: Config, d: int, slip: int)
    requires c.Valid() && 0 <= d && 0 <= slip
    ensures (forall es :: LegalRun(c, d, slip, es) ==> Bounded(c, Run(c, es)))
            <==> Refilled(c, d) && (slip == 0 || c.burst == 1)
  {
    if !Refilled(c, d) {
      var es := ForgedRunIsUnbounded(c, d);
      LegalWithMoreTime(c, d, 0, d, slip, es);
    } else if slip == 0 {
      RefilledBoundsDelay(c, d);
      forall es | LegalRun(c, d, slip, es) ensures Bounded(c, Run(c, es)) {
        SafeRunRefines(c, d, slip, es);
        RefinedAndPromptIsBounded(c, d, es);
      }
    } else if c.burst == 1 {
      forall es | LegalRun(c, d, slip, es) ensures Bounded(c, Run(c, es)) {
        OneTokenIsBounded(c, d, slip, es);
      }
    } else {
      var es := SwappingRunIsUnbounded(c, d, slip);
    }
  }

  /** The window bound with its allowance for late entry. */
  ghost predicate NearlyBounded(c: Config, slip: int, s: State) {
    forall ip, lo, hi :: lo <= hi ==>
      Admitted(History(s.log, ip), lo, hi) * Price(c, slip) <= 2 * (c.Capacity() + c.rpm * (hi - lo))
  }

  lemma PlainImpliesNearly(c: Config, slip: int, n: nat, bound: int)
    requires c.Valid() && 0 <= slip && n * COST <= bound
    ensures n * Price(c, slip) <= 2 * bound
  {
    MulMonotone(c.rpm, 0, slip);
    MulMonotone(n, Price(c, slip), 2 * COST);
  }

  lemma LateEntryIsNearlyBounded(c: Config, d: int, slip: int, es: seq<Event>, ip: string, lo: int, hi: int)
    requires c.Valid() && 0 <= d && 0 <= slip && Refilled(c, d) && LegalRun(c, d, slip, es) && lo <= hi
    ensures Admitted(History(Run(c, es).log, ip), lo, hi) * Price(c, slip) <= 2 * (c.Capacity() + c.rpm * (hi - lo))
  {
    var hits := History(Run(c, es).log, ip);
    if d + slip <= IDLE {
      SafeRunRefines(c, d, slip, es);
      LogIsNearlyMonotone(c, d, slip, es, ip);
      WindowBound(c, slip, hits, lo, hi);
    } else if c.burst == 1 {
      OneTokenIsBounded(c, d, slip, es);
      assert WindowOk(c, hits, lo, hi);
      PlainImpliesNearly(c, slip, Admitted(hits, lo, hi), c.Capacity() + c.rpm * (hi - lo));
    } else {
      MulMonotone(c.rpm, IDLE + 1 - d, slip);
      MulMonotone(Admitted(hits, lo, hi), Price(c, slip), 0);
      MulMonotone(c.rpm, 0, hi - lo);
    }
  }

  /** Whenever buckets are dropped full, no IP is admitted more than the burst and the refill in any
      window, except that every two requests can get back one refill of `slip`. */
  lemma RateIsBounded(c: Config, d: int, slip: int, es: seq<Event>)
    requires c.Valid() && 0 <= d && 0 <= slip && Refilled(c, d) && LegalRun(c, d, slip, es)
    ensures NearlyBounded(c, slip, Run(c, es))
  {
    forall ip, lo, hi | lo <= hi
      ensures Admitted(History(Run(c, es).log, ip), lo, hi) * Price(c, slip)
              <= 2 * (c.Capacity() + c.rpm * (hi - lo))
    {
      LateEntryIsNearlyBounded(c, d, slip, es, ip, lo, hi);
    }
  }
}
