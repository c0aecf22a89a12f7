/** Every interleaving of lookups, Allow calls and sweeps, and what dropping idle buckets does to
    the answers. */
module RateLimiterRuns {
  import opened Arithmetic
  import opened TokenBucket
  import opened TokenWindows
  import opened RateLimiter

  /** A request between its lookup and its Allow holds the index of the bucket it was given. */
  datatype Call = Call(ip: string, limiter: nat, at: int, open: bool)

  /** A bucket, its owner and the time of the lookup that made it. */
  datatype Slot = Slot(ip: string, made: int, bucket: Bucket)
  datatype Answer = Answer(ip: string, hit: Hit)

  /** `slots` holds every bucket ever made, dropped or not; `log` the answers in order. */
  datatype State = State(now: int, table: map<string, Entry<nat>>, slots: seq<Slot>, calls: seq<Call>,
                         log: seq<Answer>)

  /** An Allow call reads the clock at `read` and gets hold of the bucket at `at`. */
  datatype Event =
    | Lookup(ip: string, at: int)
    | Allow(call: nat, read: int, at: int)
    | Tick(clock: Clock, at: int)

  const START := State(0, map[], [], [], [])

  function Apply(c: Config, s: State, e: Event): State {
    match e
    case Lookup(ip, at) =>
      var spare: nat := |s.slots|;
      var table := Seen(s.table, ip, spare, at);
      s.(now := at, table := table,
         slots := if ip in s.table then s.slots else s.slots + [Slot(ip, at, Full(c, at))],
         calls := s.calls + [Call(ip, table[ip].limiter, at, true)])
    case Allow(i, read, at) =>
      if i < |s.calls| && s.calls[i].limiter < |s.slots| then
        var call := s.calls[i];
        var slot := s.slots[call.limiter];
        var (bucket, ok) := Take(c, slot.bucket, read);
        s.(now := at, slots := s.slots[call.limiter := slot.(bucket := bucket)],
           calls := s.calls[i := call.(open := false)],
           log := s.log + [Answer(call.ip, Hit(read, ok))])
      else s
    case Tick(clock, at) => s.(now := at, table := Swept(s.table, clock, at))
  }

  /** Events happen in order; a call asks its bucket once, reads the clock at most `d` after its lookup
      and gets hold of the bucket at most `slip` after that; a sweep reads the clock before it ends. */
  predicate Legal(d: int, slip: int, s: State, e: Event) {
    && s.now <= e.at
    && (e.Allow? ==>
          && e.call < |s.calls| && s.calls[e.call].open
          && s.calls[e.call].at <= e.read <= s.calls[e.call].at + d
          && e.read <= e.at <= e.read + slip)
    && (e.Tick? ==> forall ip :: ip in e.clock ==> s.now <= e.clock[ip] <= e.at)
  }

  function Run(c: Config, es: seq<Event>): State {
    if es == [] then START else Apply(c, Run(c, es[..|es| - 1]), es[|es| - 1])
  }

  predicate LegalRun(c: Config, d: int, slip: int, es: seq<Event>) {
    es == [] || (LegalRun(c, d, slip, es[..|es| - 1]) && Legal(d, slip, Run(c, es[..|es| - 1]), es[|es| - 1]))
  }

  /** What one IP was answered. */
  function History(log: seq<Answer>, ip: string): seq<Hit> {
    if log == [] then []
    else
      var a := log[|log| - 1];
      History(log[..|log| - 1], ip) + if a.ip == ip then [a.hit] else []
  }

  /** An idle bucket is certain to be full again before the sweeper can drop it. */
  predicate Refilled(c: Config, d: int) {
    c.rpm * (IDLE + 1 - d) >= c.Capacity()
  }

  /** Besides, no request is so late that its bucket can be dropped before it gets hold of it. */
  predicate Safe(c: Config, d: int, slip: int) {
    Refilled(c, d) && d + slip <= IDLE
  }

  // ---- the invariant that carries the refinement -----------------------------------------

  function Current(c: Config, s: State, ip: string): Bucket {
    if ip in s.table && s.table[ip].limiter < |s.slots| then s.slots[s.table[ip].limiter].bucket
    else Full(c, s.now)
  }

  /** No request still to be answered from the current bucket reads a clock before this. */
  function Since(s: State, ip: string): int {
    if ip in s.table && s.table[ip].limiter < |s.slots| then s.slots[s.table[ip].limiter].made else s.now
  }

  ghost predicate TableOk(c: Config, d: int, s: State) {
    && 0 <= s.now
    && (forall ip {:trigger s.table[ip]} {:trigger ip in s.table} :: ip in s.table ==>
          && s.table[ip].limiter < |s.slots|
          && s.slots[s.table[ip].limiter].ip == ip
          && s.slots[s.table[ip].limiter].made <= s.table[ip].lastSeen <= s.now
          && s.slots[s.table[ip].limiter].bucket.Valid(c)
          && s.slots[s.table[ip].limiter].bucket.last <= s.table[ip].lastSeen + d)
  }

  /** The call holds the bucket its IP is using now, and was looked up while that was so. */
  ghost predicate IsCurrent(s: State, call: Call) {
    && call.limiter < |s.slots| && s.slots[call.limiter].ip == call.ip
    && call.ip in s.table && s.table[call.ip].limiter == call.limiter
    && s.slots[call.limiter].made <= call.at <= s.table[call.ip].lastSeen
  }

  /** An open call either holds the bucket its IP is using now, or is too late to be served. */
  ghost predicate CallsOk(d: int, slip: int, s: State) {
    forall i :: 0 <= i < |s.calls| ==> CallOk(d, slip, s, s.calls[i])
  }

  ghost predicate CallOk(d: int, slip: int, s: State, call: Call) {
    && call.limiter < |s.slots|
    && s.slots[call.limiter].ip == call.ip
    && (call.open && s.now <= call.at + d + slip ==> IsCurrent(s, call))
  }

  /** From `since` on `bucket` is as full as the never dropped bucket after `hits`. */
  ghost predicate InStep(c: Config, hits: seq<Hit>, bucket: Bucket, since: int) {
    Follows(c, hits) && forall t :: since <= t ==> Level(c, bucket, t) == Level(c, After(c, hits), t)
  }

  ghost predicate Tracks(c: Config, s: State, ip: string) {
    InStep(c, History(s.log, ip), Current(c, s, ip), Since(s, ip))
  }

  ghost predicate Inv(c: Config, d: int, slip: int, s: State) {
    TableOk(c, d, s) && CallsOk(d, slip, s) && forall ip :: Tracks(c, s, ip)
  }

  /** A later start asks for less; a bucket that is full from then on may stand for another. */
  lemma StepsFull(c: Config, hits: seq<Hit>, b: Bucket, since: int, full: Bucket, later: int)
    requires c.Valid() && InStep(c, hits, b, since) && since <= later && full.tokens == c.Capacity()
    requires forall t :: later <= t ==> Level(c, b, t) == c.Capacity()
    ensures InStep(c, hits, full, later)
  {
    forall t | later <= t ensures Level(c, full, t) == Level(c, After(c, hits), t) {
      FullStaysFull(c, full, t);
      assert Level(c, b, t) == c.Capacity();
    }
  }

  lemma FullStaysFull(c: Config, b: Bucket, t: int)
    requires c.Valid() && b.tokens == c.Capacity()
    ensures Level(c, b, t) == c.Capacity()
  {
    if b.last <= t {
      MulMonotone(c.rpm, 0, t - b.last);
    }
  }

  lemma LookupTracks(c: Config, s: State, ip: string, t: int, other: string)
    requires c.Valid() && s.now <= t && Tracks(c, s, other)
    requires other in s.table ==> s.table[other].limiter < |s.slots|
    ensures Tracks(c, Apply(c, s, Lookup(ip, t)), other)
  {
    if other !in s.table {
      forall u ensures Level(c, Full(c, s.now), u) == c.Capacity() { FullStaysFull(c, Full(c, s.now), u); }
      StepsFull(c, History(s.log, other), Full(c, s.now), s.now, Full(c, t), t);
    }
  }

  lemma LookupKeepsTable(c: Config, d: int, s: State, ip: string, t: int)
    requires c.Valid() && 0 <= d && TableOk(c, d, s) && s.now <= t
    ensures TableOk(c, d, Apply(c, s, Lookup(ip, t)))
  {
  }

  lemma AllowKeepsTable(c: Config, d: int, slip: int, s: State, e: Event)
    requires c.Valid() && TableOk(c, d, s) && e.Allow? && Legal(d, slip, s, e)
    requires var call := s.calls[e.call];
             && call.limiter < |s.slots| && s.slots[call.limiter].ip == call.ip
             && s.slots[call.limiter].bucket.Valid(c)
             && (call.ip in s.table && s.table[call.ip].limiter == call.limiter ==> IsCurrent(s, call))
    ensures TableOk(c, d, Apply(c, s, e))
  {
    TakeKeepsValid(c, s.slots[s.calls[e.call].limiter].bucket, e.read);
  }

  lemma LookupKeepsInv(c: Config, d: int, slip: int, s: State, ip: string, t: int)
    requires c.Valid() && 0 <= d && Inv(c, d, slip, s) && s.now <= t
    ensures Inv(c, d, slip, Apply(c, s, Lookup(ip, t)))
  {
    var s' := Apply(c, s, Lookup(ip, t));
    forall other ensures Tracks(c, s', other) {
      assert Tracks(c, s, other);
      LookupTracks(c, s, ip, t, other);
    }
    LookupKeepsTable(c, d, s, ip, t);
    forall i | 0 <= i < |s'.calls| ensures CallOk(d, slip, s', s'.calls[i]) {
      if i < |s.calls| { assert CallOk(d, slip, s, s.calls[i]); }
    }
  }

  lemma HistoryAppend(log: seq<Answer>, a: Answer, ip: string)
    ensures History(log + [a], ip) == History(log, ip) + if a.ip == ip then [a.hit] else []
  {
    assert (log + [a])[..|log|] == log;
  }

  /** Answering a request of another IP leaves this IP's bucket on track. */
  lemma OtherIpTracks(c: Config, s: State, s': State, a: Answer, ip: string)
    requires c.Valid() && s.now <= s'.now && Tracks(c, s, ip) && a.ip != ip
    requires s'.log == s.log + [a] && s'.table == s.table && |s'.slots| == |s.slots|
    requires ip in s.table ==>
               s.table[ip].limiter < |s.slots| && s'.slots[s.table[ip].limiter] == s.slots[s.table[ip].limiter]
    ensures Tracks(c, s', ip)
  {
    HistoryAppend(s.log, a, ip);
    assert History(s'.log, ip) == History(s.log, ip);
    if ip !in s.table {
      forall u ensures Level(c, Full(c, s.now), u) == c.Capacity() { FullStaysFull(c, Full(c, s.now), u); }
      StepsFull(c, History(s.log, ip), Full(c, s.now), s.now, Full(c, s'.now), s'.now);
    }
  }

  /** Buckets at the same level answer alike and, if they let the request pass, become the same. */
  lemma AnswerKeepsStep(c: Config, hits: seq<Hit>, bucket: Bucket, since: int, t: int)
    requires InStep(c, hits, bucket, since) && since <= t
    ensures InStep(c, hits + [Hit(t, Take(c, bucket, t).1)], Take(c, bucket, t).0, since)
  {
    assert Level(c, bucket, t) == Level(c, After(c, hits), t);
    OneMoreHit(c, hits, Hit(t, Take(c, bucket, t).1));
  }

  lemma SameIpTracks(c: Config, s: State, s': State, ip: string, t: int)
    requires Tracks(c, s, ip) && Since(s, ip) == Since(s', ip) <= t
    requires s'.log == s.log + [Answer(ip, Hit(t, Take(c, Current(c, s, ip), t).1))]
    requires Current(c, s', ip) == Take(c, Current(c, s, ip), t).0
    ensures Tracks(c, s', ip)
  {
    AnswerKeepsStep(c, History(s.log, ip), Current(c, s, ip), Since(s, ip), t);
    HistoryAppend(s.log, Answer(ip, Hit(t, Take(c, Current(c, s, ip), t).1)), ip);
  }

  lemma AllowTracks(c: Config, d: int, slip: int, s: State, e: Event, ip: string)
    requires c.Valid() && Inv(c, d, slip, s) && e.Allow? && Legal(d, slip, s, e)
    ensures Tracks(c, Apply(c, s, e), ip)
  {
    var s' := Apply(c, s, e);
    assert CallOk(d, slip, s, s.calls[e.call]) && Tracks(c, s, ip);
    if ip == s.calls[e.call].ip {
      SameIpTracks(c, s, s', ip, e.read);
    } else {
      OtherIpTracks(c, s, s', s'.log[|s.log|], ip);
    }
  }

  lemma AllowKeepsInv(c: Config, d: int, slip: int, s: State, e: Event)
    requires c.Valid() && 0 <= d && Inv(c, d, slip, s) && e.Allow? && Legal(d, slip, s, e)
    ensures Inv(c, d, slip, Apply(c, s, e))
  {
    var s' := Apply(c, s, e);
    assert CallOk(d, slip, s, s.calls[e.call]);
    forall ip ensures Tracks(c, s', ip) {
      AllowTracks(c, d, slip, s, e, ip);
    }
    AllowKeepsTable(c, d, slip, s, e);
    forall k | 0 <= k < |s'.calls| ensures CallOk(d, slip, s', s'.calls[k]) {
      assert CallOk(d, slip, s, s.calls[k]);
    }
  }

  lemma IdleIsFull(c: Config, d: int, b: Bucket, t: int)
    requires c.Valid() && Refilled(c, d) && b.Valid(c) && IDLE + 1 - d <= t - b.last
    ensures Level(c, b, t) == c.Capacity()
  {
    MulMonotone(c.rpm, IDLE + 1 - d, t - b.last);
    RefilledBoundsDelay(c, d);
  }

  lemma TickTracks(c: Config, d: int, slip: int, s: State, e: Event, ip: string)
    requires c.Valid() && Refilled(c, d) && TableOk(c, d, s) && Tracks(c, s, ip)
    requires e.Tick? && Legal(d, slip, s, e)
    ensures Tracks(c, Apply(c, s, e), ip)
  {
    var s' := Apply(c, s, e);
    if ip !in s'.table {
      var b := Current(c, s, ip);
      forall u | e.at <= u ensures Level(c, b, u) == c.Capacity() {
        if ip in s.table { IdleIsFull(c, d, b, u); } else { FullStaysFull(c, b, u); }
      }
      StepsFull(c, History(s.log, ip), b, Since(s, ip), Full(c, e.at), e.at);
    }
  }

  lemma TickKeepsInv(c: Config, d: int, slip: int, s: State, e: Event)
    requires c.Valid() && 0 <= d && Safe(c, d, slip) && Inv(c, d, slip, s) && e.Tick? && Legal(d, slip, s, e)
    ensures Inv(c, d, slip, Apply(c, s, e))
  {
    var s' := Apply(c, s, e);
    forall ip ensures Tracks(c, s', ip) {
      assert Tracks(c, s, ip);
      TickTracks(c, d, slip, s, e, ip);
    }
    forall i | 0 <= i < |s'.calls| ensures CallOk(d, slip, s', s'.calls[i]) {
      assert CallOk(d, slip, s, s.calls[i]);
    }
  }

  lemma RefilledBoundsDelay(c: Config, d: int)
    requires c.Valid() && Refilled(c, d)
    ensures d <= IDLE
  {
    if d > IDLE {
      MulMonotone(c.rpm, IDLE + 1 - d, 0);
    }
  }

  lemma {:induction false} RunKeepsInv(c: Config, d: int, slip: int, es: seq<Event>)
    requires c.Valid() && 0 <= d && Safe(c, d, slip) && LegalRun(c, d, slip, es)
    ensures Inv(c, d, slip, Run(c, es))
  {
    if es == [] {
      forall ip ensures Tracks(c, START, ip) {}
    } else {
      var before, e := es[..|es| - 1], es[|es| - 1];
      RunKeepsInv(c, d, slip, before);
      match e
      case Lookup(ip, at) => LookupKeepsInv(c, d, slip, Run(c, before), ip, at);
      case Allow(_, _, _) => AllowKeepsInv(c, d, slip, Run(c, before), e);
      case Tick(_, _) => TickKeepsInv(c, d, slip, Run(c, before), e);
    }
  }

  // ---- the runs in which dropping a bucket forges tokens ---------------------------------

  lemma Extend(c: Config, d: int, slip: int, es: seq<Event>, e: Event)
    requires LegalRun(c, d, slip, es) && Legal(d, slip, Run(c, es), e)
    ensures LegalRun(c, d, slip, es + [e]) && Run(c, es + [e]) == Apply(c, Run(c, es), e)
  {
    assert (es + [e])[..|es|] == es;
  }

  /** All calls from `k` on are open calls of `ip`, looked up at `t`, on bucket `limiter`. */
  ghost predicate Waiting(s: State, k: nat, ip: string, limiter: nat, t: int) {
    k <= |s.calls| && forall i :: k <= i < |s.calls| ==> s.calls[i] == Call(ip, limiter, t, true)
  }

  /** The first `k` calls and the first `l` slots are as they were. */
  ghost predicate Kept(s: State, s': State, k: nat, l: nat) {
    && k <= |s.calls| && k <= |s'.calls| && (forall i :: 0 <= i < k ==> s'.calls[i] == s.calls[i])
    && l <= |s.slots| && l <= |s'.slots| && (forall i :: 0 <= i < l ==> s'.slots[i] == s.slots[i])
  }

  /** The bucket a lookup of `ip` gives. */
  function Holder(s: State, ip: string): nat { if ip in s.table then s.table[ip].limiter else |s.slots| }

  /** `n` lookups of `ip` at `t`, the first of which made its bucket if there was none. */
  ghost predicate LookedUp(c: Config, s: State, s': State, ip: string, t: int, n: nat) {
    && s'.now == t && s'.log == s.log && Kept(s, s', |s.calls|, |s.slots|)
    && |s'.calls| == |s.calls| + n && Waiting(s', |s.calls|, ip, Holder(s, ip), t)
    && s'.slots == (if ip in s.table then s.slots else s.slots + [Slot(ip, t, Full(c, t))])
    && ip in s'.table && s'.table[ip] == Entry(Holder(s, ip), t)
  }

  lemma LookUpOnce(c: Config, s: State, ip: string, t: int)
    ensures LookedUp(c, s, Apply(c, s, Lookup(ip, t)), ip, t, 1)
  {
  }

  lemma LookUpAgain(c: Config, s: State, s': State, ip: string, t: int, n: nat)
    requires LookedUp(c, s, s', ip, t, n)
    ensures LookedUp(c, s, Apply(c, s', Lookup(ip, t)), ip, t, n + 1)
  {
  }

  lemma {:induction false} LookUpTimes(c: Config, d: int, slip: int, es: seq<Event>, ip: string, t: int, n: nat)
    returns (more: seq<Event>)
    requires LegalRun(c, d, slip, es) && Run(c, es).now <= t && n >= 1
    ensures LegalRun(c, d, slip, more) && LookedUp(c, Run(c, es), Run(c, more), ip, t, n)
    decreases n
  {
    if n == 1 {
      LookUpOnce(c, Run(c, es), ip, t);
      Extend(c, d, slip, es, Lookup(ip, t));
      more := es + [Lookup(ip, t)];
    } else {
      var most := LookUpTimes(c, d, slip, es, ip, t, n - 1);
      LookUpAgain(c, Run(c, es), Run(c, most), ip, t, n - 1);
      Extend(c, d, slip, most, Lookup(ip, t));
      more := most + [Lookup(ip, t)];
    }
  }

  function Copies(h: Hit, n: nat): seq<Hit> { seq(n, _ => h) }

  lemma KeptTwice(s: State, s1: State, s2: State, k: nat, l: nat, k1: nat, l1: nat)
    requires Kept(s, s1, k, l) && Kept(s1, s2, k1, l1) && k <= k1 && l <= l1
    ensures Kept(s, s2, k, l)
  {
  }

  /** Calls from `k` on wait for a bucket that has a token for each of them at time `at`. */
  ghost predicate Served(c: Config, s: State, k: nat, ip: string, limiter: nat, t: int, at: int) {
    && Waiting(s, k, ip, limiter, t) && limiter < |s.slots| && s.slots[limiter].bucket.Valid(c)
    && Level(c, s.slots[limiter].bucket, at) >= (|s.calls| - k) * COST
  }

  lemma AskOne(c: Config, d: int, slip: int, s: State, k: nat, ip: string, limiter: nat, t: int, at: int)
    requires c.Valid() && Served(c, s, k, ip, limiter, t, at) && k < |s.calls|
    requires 0 <= slip && s.now <= at && t <= at <= t + d
    ensures Legal(d, slip, s, Allow(k, at, at))
    ensures var s' := Apply(c, s, Allow(k, at, at));
            && Served(c, s', k + 1, ip, limiter, t, at) && Kept(s, s', k, limiter)
            && s'.now == at && s'.table == s.table && |s'.calls| == |s.calls|
            && History(s'.log, ip) == History(s.log, ip) + [Hit(at, true)]
  {
    TakeKeepsValid(c, s.slots[limiter].bucket, at);
    HistoryAppend(s.log, Answer(ip, Hit(at, true)), ip);
  }

  lemma CopiesStep(hits: seq<Hit>, h: Hit, n: nat)
    ensures hits + [h] + Copies(h, n) == hits + Copies(h, n + 1)
  {
    assert Copies(h, n + 1) == [h] + Copies(h, n);
  }

  /** `n` requests of `ip`, from call `k` on, have been admitted at `at`. */
  ghost predicate Asked(s: State, s': State, k: nat, limiter: nat, ip: string, at: int, n: nat) {
    && s.now <= s'.now <= at && s'.table == s.table && Kept(s, s', k, limiter)
    && History(s'.log, ip) == History(s.log, ip) + Copies(Hit(at, true), n)
  }

  lemma {:induction false} AskAll(c: Config, d: int, slip: int, es: seq<Event>, k: nat, ip: string, limiter: nat,
                                  t: int, at: int)
    returns (more: seq<Event>)
    requires c.Valid() && 0 <= slip && LegalRun(c, d, slip, es) && Run(c, es).now <= at && t <= at <= t + d
    requires Served(c, Run(c, es), k, ip, limiter, t, at)
    ensures LegalRun(c, d, slip, more) && k <= |Run(c, es).calls|
    ensures Asked(Run(c, es), Run(c, more), k, limiter, ip, at, |Run(c, es).calls| - k)
    decreases |Run(c, es).calls| - k
  {
    var s := Run(c, es);
    if k == |s.calls| {
      more := es;
    } else {
      var e := Allow(k, at, at);
      AskOne(c, d, slip, s, k, ip, limiter, t, at);
      Extend(c, d, slip, es, e);
      more := AskAll(c, d, slip, es + [e], k + 1, ip, limiter, t, at);
      KeptTwice(s, Apply(c, s, e), Run(c, more), k, limiter, k + 1, limiter);
      CopiesStep(History(s.log, ip), Hit(at, true), |s.calls| - k - 1);
    }
  }

  /** A whole burst of `ip`, looked up at `t`, has been admitted at `at`. */
  ghost predicate Burst(c: Config, s: State, s': State, ip: string, t: int, at: int) {
    && c.burst >= 0 && t <= s'.now <= at && ip in s'.table && s'.table[ip].lastSeen == t
    && Kept(s, s', |s.calls|, |s.slots|)
    && History(s'.log, ip) == History(s.log, ip) + Copies(Hit(at, true), c.burst)
  }

  /** `burst` lookups at `t` on a bucket that is full at `at`, and all their requests at `at`. */
  lemma {:induction false} FullBurst(c: Config, d: int, slip: int, es: seq<Event>, ip: string, t: int, at: int)
    returns (more: seq<Event>)
    requires c.Valid() && 0 <= slip && LegalRun(c, d, slip, es) && Run(c, es).now <= t <= at <= t + d
    requires ip !in Run(c, es).table
    ensures LegalRun(c, d, slip, more) && Burst(c, Run(c, es), Run(c, more), ip, t, at)
  {
    var s := Run(c, es);
    var asked := LookUpTimes(c, d, slip, es, ip, t, c.burst);
    BurstIsServed(c, s, Run(c, asked), ip, t, at);
    more := AskAll(c, d, slip, asked, |s.calls|, ip, |s.slots|, t, at);
    BurstIsDone(c, s, Run(c, asked), Run(c, more), ip, t, at);
  }

  lemma BurstIsDone(c: Config, s: State, s1: State, s2: State, ip: string, t: int, at: int)
    requires c.Valid() && ip !in s.table && LookedUp(c, s, s1, ip, t, c.burst)
    requires Asked(s1, s2, |s.calls|, |s.slots|, ip, at, c.burst)
    ensures Burst(c, s, s2, ip, t, at)
  {
    KeptTwice(s, s1, s2, |s.calls|, |s.slots|, |s.calls|, |s.slots|);
  }

  lemma BurstIsServed(c: Config, s: State, s': State, ip: string, t: int, at: int)
    requires c.Valid() && ip !in s.table && LookedUp(c, s, s', ip, t, c.burst)
    ensures Served(c, s', |s.calls|, ip, |s.slots|, t, at)
  {
    FullStaysFull(c, Full(c, t), at);
  }

  lemma TickDrops(c: Config, d: int, slip: int, es: seq<Event>, ip: string, t: int)
    requires LegalRun(c, d, slip, es) && Run(c, es).now <= t
    requires ip in Run(c, es).table && t - Run(c, es).table[ip].lastSeen > IDLE
    ensures LegalRun(c, d, slip, es + [Tick(map[], t)])
    ensures var s, s' := Run(c, es), Run(c, es + [Tick(map[], t)]);
            s'.now == t && ip !in s'.table && s'.log == s.log && s'.calls == s.calls && s'.slots == s.slots
  {
    Extend(c, d, slip, es, Tick(map[], t));
  }

  lemma {:induction false} AdmittedCopies(hits: seq<Hit>, h: Hit, n: nat, lo: int, hi: int)
    requires Counts(h, lo, hi)
    ensures Admitted(hits + Copies(h, n), lo, hi) == Admitted(hits, lo, hi) + n
  {
    var all := hits + Copies(h, n);
    if n == 0 {
      assert all == hits;
    } else {
      AdmittedCopies(hits, h, n - 1, lo, hi);
      assert all[..|all| - 1] == hits + Copies(h, n - 1);
    }
  }

  /** If an idle bucket may be dropped before it is full, `burst` requests on each side of the
      drop are all admitted, which is more than the window allows. */
  lemma {:induction false} DroppingForgesTokens(c: Config, d: int, ip: string) returns (es: seq<Event>, lo: int)
    requires c.Valid() && 0 <= d && !Refilled(c, d)
    ensures LegalRun(c, d, 0, es) && 0 <= lo <= IDLE + 1
    ensures Admitted(History(Run(c, es).log, ip), lo, IDLE + 1) == 2 * c.burst
    ensures Admitted(History(Run(c, es).log, ip), lo, IDLE + 1) * COST > c.Capacity() + c.rpm * (IDLE + 1 - lo)
  {
    lo := Min(d, IDLE + 1);
    es := FullBurst(c, d, 0, [], ip, 0, lo);
    TickDrops(c, d, 0, es, ip, IDLE + 1);
    es := FullBurst(c, d, 0, es + [Tick(map[], IDLE + 1)], ip, IDLE + 1, IDLE + 1);
    AdmittedCopies([], Hit(lo, true), c.burst, lo, IDLE + 1);
    AdmittedCopies([] + Copies(Hit(lo, true), c.burst), Hit(IDLE + 1, true), c.burst, lo, IDLE + 1);
    RefillIsShort(c, d, lo);
  }

  lemma RefillIsShort(c: Config, d: int, lo: int)
    requires c.Valid() && 0 <= d && !Refilled(c, d) && lo == Min(d, IDLE + 1)
    ensures c.rpm * (IDLE + 1 - lo) < c.Capacity()
  {
    if d > IDLE + 1 {
      assert c.rpm * 0 == 0;
    }
  }

  /** A bucket that lets a whole burst pass at one time is empty. */
  lemma {:induction false} BurstEmpties(c: Config, t: int, n: nat)
    requires c.Valid() && 0 <= t && 1 <= n <= c.burst
    ensures After(c, Copies(Hit(t, true), n)) == Bucket(c.Capacity() - n * COST, t)
  {
    var hits := Copies(Hit(t, true), n);
    if n == 1 {
      assert hits == [] + [Hit(t, true)];
      FullStaysFull(c, Full(c, 0), t);
    } else {
      BurstEmpties(c, t, n - 1);
      assert hits[..n - 1] == Copies(Hit(t, true), n - 1);
    }
  }

  /** After a whole burst the next request has to wait for the refill of one token: a minute has 60 * 10^9
      nanoseconds, in which `rpm` tokens come back. */
  lemma {:induction false} NextAfterBurst(c: Config, t: int, wait: int, ok: bool)
    requires c.Valid() && 0 <= t && 0 <= wait
    ensures Follows(c, Copies(Hit(t, true), c.burst) + [Hit(t + wait, ok)]) <==>
            (ok <==> c.rpm * wait >= 60_000_000_000)
  {
    BurstFollows(c, t, c.burst);
    BurstEmpties(c, t, c.burst);
    OneMoreHit(c, Copies(Hit(t, true), c.burst), Hit(t + wait, ok));
  }

  lemma {:induction false} BurstFollows(c: Config, t: int, n: nat)
    requires c.Valid() && 0 <= t && n <= c.burst
    ensures Follows(c, Copies(Hit(t, true), n))
  {
    if n > 0 {
      var hits := Copies(Hit(t, true), n);
      BurstFollows(c, t, n - 1);
      assert hits[..n - 1] == Copies(Hit(t, true), n - 1);
      if n == 1 {
        FullStaysFull(c, Full(c, 0), t);
      } else {
        BurstEmpties(c, t, n - 1);
        MulMonotone(COST, 1, c.burst - (n - 1));
        assert c.rpm * 0 == 0;
      }
    }
  }

  /** If a request may be later than five minutes, it is answered from a bucket dropped meanwhile. */
  lemma {:induction false} LateRequestIsForged(c: Config, d: int, slip: int, ip: string) returns (es: seq<Event>)
    requires c.Valid() && 0 <= d <= IDLE && 0 <= slip && d + slip > IDLE
    ensures LegalRun(c, d, slip, es) && !Follows(c, History(Run(c, es).log, ip))
  {
    Extend(c, d, slip, [], Lookup(ip, 0));
    var waiting := [] + [Lookup(ip, 0)];
    TickDrops(c, d, slip, waiting, ip, IDLE + 1);
    var used := FullBurst(c, d, slip, waiting + [Tick(map[], IDLE + 1)], ip, IDLE + 1, IDLE + 1);
    var late := Allow(0, d, IDLE + 1);
    Extend(c, d, slip, used, late);
    es := used + [late];
    BurstEmpties(c, IDLE + 1, c.burst);
    assert [] + Copies(Hit(IDLE + 1, true), c.burst) == Copies(Hit(IDLE + 1, true), c.burst);
    LateAnswer(c, Run(c, used), ip, d);
  }

  /** The dropped bucket lets the late request pass, the one that is never dropped is empty. */
  lemma LateAnswer(c: Config, s: State, ip: string, d: int)
    requires c.Valid() && 0 <= d <= IDLE && s.slots != [] && s.calls != []
    requires s.calls[0] == Call(ip, 0, 0, true) && s.slots[0] == Slot(ip, 0, Full(c, 0))
    requires After(c, History(s.log, ip)) == Bucket(0, IDLE + 1)
    ensures !Follows(c, History(Apply(c, s, Allow(0, d, IDLE + 1)).log, ip))
  {
    FullStaysFull(c, Full(c, 0), d);
    HistoryAppend(s.log, Answer(ip, Hit(d, true)), ip);
    OneMoreHit(c, History(s.log, ip), Hit(d, true));
  }

  lemma {:induction false} LegalWithMoreTime(c: Config, d: int, slip: int, d': int, slip': int, es: seq<Event>)
    requires d <= d' && slip <= slip' && LegalRun(c, d, slip, es)
    ensures LegalRun(c, d', slip', es)
  {
    if es != [] {
      LegalWithMoreTime(c, d, slip, d', slip', es[..|es| - 1]);
    }
  }

  ghost predicate LogOk(slip: int, s: State, ip: string) {
    var hits := History(s.log, ip);
    0 <= s.now && Nearly(slip, hits) && forall i :: 0 <= i < |hits| ==> hits[i].at <= s.now
  }

  /** What `Legal` keeps about calls that is needed to read the log. */
  ghost predicate CallTimesOk(s: State) {
    forall i :: 0 <= i < |s.calls| ==> 0 <= s.calls[i].at
  }

  lemma {:induction false} LogIsNearlyMonotone(c: Config, d: int, slip: int, es: seq<Event>, ip: string)
    requires 0 <= slip && LegalRun(c, d, slip, es)
    ensures LogOk(slip, Run(c, es), ip) && CallTimesOk(Run(c, es))
  {
    if es != [] {
      LogIsNearlyMonotone(c, d, slip, es[..|es| - 1], ip);
      LogStaysOk(c, d, slip, Run(c, es[..|es| - 1]), es[|es| - 1], ip);
    }
  }

  lemma LogAppendOk(slip: int, s: State, s': State, a: Answer, ip: string)
    requires 0 <= slip && LogOk(slip, s, ip) && s'.log == s.log + [a]
    requires 0 <= a.hit.at <= s'.now <= a.hit.at + slip && s.now <= s'.now
    ensures LogOk(slip, s', ip)
  {
    HistoryAppend(s.log, a, ip);
    if a.ip == ip {
      NearlyAppend(slip, History(s.log, ip), a.hit);
    } else {
      assert History(s'.log, ip) == History(s.log, ip);
    }
  }

  lemma AllowAppends(c: Config, d: int, slip: int, s: State, e: Event)
    requires 0 <= slip && CallTimesOk(s) && e.Allow? && Legal(d, slip, s, e) && s.calls[e.call].limiter < |s.slots|
    ensures var s' := Apply(c, s, e);
            && |s'.log| == |s.log| + 1 && s'.log == s.log + [s'.log[|s.log|]] && s'.log[|s.log|].hit.at == e.read
            && s'.now == e.at && 0 <= e.read && CallTimesOk(s')
  {
  }

  lemma LogStaysOk(c: Config, d: int, slip: int, s: State, e: Event, ip: string)
    requires 0 <= slip && LogOk(slip, s, ip) && CallTimesOk(s) && Legal(d, slip, s, e)
    ensures LogOk(slip, Apply(c, s, e), ip) && CallTimesOk(Apply(c, s, e))
  {
    var s' := Apply(c, s, e);
    if e.Allow? && s.calls[e.call].limiter < |s.slots| {
      AllowAppends(c, d, slip, s, e);
      LogAppendOk(slip, s, s', s'.log[|s.log|], ip);
    }
  }

  // ---- main results ----------------------------------------------------------------------

  /** Every answer in the run is the one its IP's own, never dropped bucket would give. */
  ghost predicate Refines(c: Config, s: State) {
    forall ip :: Follows(c, History(s.log, ip))
  }

  /** No IP is admitted more often than one bucket allows, in any window. */
  ghost predicate Bounded(c: Config, s: State) {
    forall ip, lo, hi :: lo <= hi ==> WindowOk(c, History(s.log, ip), lo, hi)
  }

  lemma PromptWindow(c: Config, hits: seq<Hit>, lo: int, hi: int)
    requires c.Valid() && Follows(c, hits) && Nearly(0, hits) && lo <= hi
    ensures WindowOk(c, hits, lo, hi)
  {
    WindowBound(c, 0, hits, lo, hi);
  }

  lemma RefinedAndPromptIsBounded(c: Config, d: int, es: seq<Event>)
    requires c.Valid() && LegalRun(c, d, 0, es) && Refines(c, Run(c, es))
    ensures Bounded(c, Run(c, es))
  {
    forall ip, lo, hi | lo <= hi ensures WindowOk(c, History(Run(c, es).log, ip), lo, hi) {
      LogIsNearlyMonotone(c, d, 0, es, ip);
      PromptWindow(c, History(Run(c, es).log, ip), lo, hi);
    }
  }

  lemma ForgedRunIsUnbounded(c: Config, d: int) returns (es: seq<Event>)
    requires c.Valid() && 0 <= d && !Refilled(c, d)
    ensures LegalRun(c, d, 0, es) && !Bounded(c, Run(c, es)) && !Refines(c, Run(c, es))
  {
    var lo;
    es, lo := DroppingForgesTokens(c, d, "ip");
    assert !WindowOk(c, History(Run(c, es).log, "ip"), lo, IDLE + 1);
    if Refines(c, Run(c, es)) {
      RefinedAndPromptIsBounded(c, d, es);
    }
  }

  lemma SafeRunRefines(c: Config, d: int, slip: int, es: seq<Event>)
    requires c.Valid() && 0 <= d && Safe(c, d, slip) && LegalRun(c, d, slip, es)
    ensures Refines(c, Run(c, es))
  {
    RunKeepsInv(c, d, slip, es);
    forall ip ensures Follows(c, History(Run(c, es).log, ip)) {
      assert Tracks(c, Run(c, es), ip);
    }
  }

  /** Sweeps and other IPs are unobservable in every run exactly when `Safe` holds. */
  lemma EvictionIsInvisibleIff(c: Config, d: int, slip: int)
    requires c.Valid() && 0 <= d && 0 <= slip
    ensures (forall es :: LegalRun(c, d, slip, es) ==> Refines(c, Run(c, es))) <==> Safe(c, d, slip)
  {
    if Safe(c, d, slip) {
      forall es | LegalRun(c, d, slip, es) ensures Refines(c, Run(c, es)) {
        SafeRunRefines(c, d, slip, es);
      }
    } else if Refilled(c, d) {
      RefilledBoundsDelay(c, d);
      var es := LateRequestIsForged(c, d, slip, "ip");
      assert !Refines(c, Run(c, es));
    } else {
      var es := ForgedRunIsUnbounded(c, d);
      LegalWithMoreTime(c, d, 0, d, slip, es);
    }
  }

  /** With Allow right after its lookup the condition reads: the bucket refills in five minutes. */
  lemma {:induction false} SafeInMinutes(c: Config)
    requires c.Valid()
    ensures Safe(c, 0, 0) <==> c.rpm * 300_000_000_001 >= c.burst * 60_000_000_000
    ensures 5 * c.rpm >= c.burst ==> Safe(c, 0, 0)
    ensures c.rpm < COST ==> (Safe(c, 0, 0) <==> 5 * c.rpm >= c.burst)
  {
    if 5 * c.rpm < c.burst {
      assert (5 * c.rpm + 1) * COST <= c.burst * COST;
    } else {
      MulMonotone(COST, c.burst, 5 * c.rpm);
    }
  }
}
