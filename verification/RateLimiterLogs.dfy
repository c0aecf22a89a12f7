/** The logs that the limiter can produce: for every history a never dropped bucket can have, a timely
    run of the limiter with just that history. */
module RateLimiterLogs {
  import opened Arithmetic
  import opened TokenBucket
  import opened TokenWindows
  import opened RateLimiter
  import opened RateLimiterRuns

  ghost predicate SameClocks(a: seq<Hit>, b: seq<Hit>) {
    |a| == |b| && forall i :: 0 <= i < |a| ==> a[i].at == b[i].at
  }

  /** The call that was looked up at time `t` for request `j` of `n`. */
  function CallIndex(n: nat, t: nat, j: nat): nat { t * n + j }

  /** At every instant so far one call was looked up for each of the `n` requests, all on one bucket;
      those of the requests from `k` on are still open. */
  ghost predicate Prepared(s: State, ip: string, n: nat, k: nat) {
    && 0 <= s.now && |s.calls| == CallIndex(n, s.now + 1, 0)
    && ip in s.table && s.table[ip].limiter == 0 && |s.slots| == 1
    && forall t: nat, j: nat {:trigger CallIndex(n, t, j)} :: t <= s.now && k <= j < n ==>
         CallIndex(n, t, j) < |s.calls| && s.calls[CallIndex(n, t, j)] == Call(ip, 0, t, true)
  }

  lemma IndexDiffers(n: nat, t: nat, j: nat, u: nat, k: nat)
    requires j < n && k < n && j != k
    ensures CallIndex(n, t, j) != CallIndex(n, u, k)
  {
    if t < u {
      MulMonotone(n, t + 1, u);
    } else if u < t {
      MulMonotone(n, u + 1, t);
    }
  }

  lemma FirstLookups(c: Config, s: State, ip: string, n: nat)
    requires n >= 1 && LookedUp(c, START, s, ip, 0, n)
    ensures Prepared(s, ip, n, 0)
  {
    forall t: nat, j: nat | t <= s.now && j < n
      ensures CallIndex(n, t, j) < |s.calls| && s.calls[CallIndex(n, t, j)] == Call(ip, 0, t, true)
    {
      assert CallIndex(n, t, j) == j;
    }
  }

  lemma MoreLookups(c: Config, s: State, s': State, ip: string, n: nat, k: nat)
    requires Prepared(s, ip, n, k) && LookedUp(c, s, s', ip, s.now + 1, n)
    ensures Prepared(s', ip, n, k)
  {
    var next: nat := s.now + 1;
    assert CallIndex(n, s'.now + 1, 0) == CallIndex(n, next, 0) + n;
    forall t: nat, j: nat | t <= s'.now && k <= j < n
      ensures CallIndex(n, t, j) < |s'.calls| && s'.calls[CallIndex(n, t, j)] == Call(ip, 0, t, true)
    {
      if t == next {
        assert CallIndex(n, t, j) == |s.calls| + j;
      }
    }
  }

  /** Lets time pass until `t`. */
  lemma {:induction false} AdvanceTo(c: Config, d: int, slip: int, es: seq<Event>, ip: string, n: nat, k: nat, t: int)
    returns (more: seq<Event>)
    requires LegalRun(c, d, slip, es) && Prepared(Run(c, es), ip, n, k) && Run(c, es).now <= t && n >= 1
    ensures LegalRun(c, d, slip, more) && Prepared(Run(c, more), ip, n, k)
    ensures Run(c, more).now == t && Run(c, more).log == Run(c, es).log
    decreases t - Run(c, es).now
  {
    more := es;
    var s := Run(c, es);
    if s.now < t {
      more := LookUpTimes(c, d, slip, es, ip, s.now + 1, n);
      MoreLookups(c, s, Run(c, more), ip, n, k);
      more := AdvanceTo(c, d, slip, more, ip, n, k, t);
    }
  }

  /** Answers request `k` from the call looked up for it at the clock it reads. */
  lemma ServeNext(c: Config, d: int, slip: int, s: State, ip: string, n: nat, k: nat, read: nat)
    requires 0 <= d && Prepared(s, ip, n, k) && k < n && read <= s.now <= read + slip
    ensures var e := Allow(CallIndex(n, read, k), read, s.now);
            var s' := Apply(c, s, e);
            && Legal(d, slip, s, e) && Prepared(s', ip, n, k + 1) && s'.now == s.now
            && exists ok :: History(s'.log, ip) == History(s.log, ip) + [Hit(read, ok)]
  {
    var i := CallIndex(n, read, k);
    var s' := Apply(c, s, Allow(i, read, s.now));
    forall t: nat, j: nat | t <= s'.now && k + 1 <= j < n
      ensures CallIndex(n, t, j) < |s'.calls| && s'.calls[CallIndex(n, t, j)] == Call(ip, 0, t, true)
    {
      IndexDiffers(n, t, j, read, k);
    }
    var ok := Take(c, s.slots[0].bucket, read).1;
    HistoryAppend(s.log, Answer(ip, Hit(read, ok)), ip);
    assert History(s'.log, ip) == History(s.log, ip) + [Hit(read, ok)];
  }

  lemma SameClocksAppend(a: seq<Hit>, b: seq<Hit>, k: nat)
    requires 1 <= k <= |b| && a != [] && SameClocks(a[..|a| - 1], b[..k - 1]) && a[|a| - 1].at == b[k - 1].at
    ensures SameClocks(a, b[..k])
  {
    forall i | 0 <= i < |a| ensures a[i].at == b[..k][i].at {
      if i < |a| - 1 { assert a[..|a| - 1][i].at == b[..k - 1][i].at; }
    }
  }

  /** One more request: waits, if need be, for the clock it reads. */
  lemma {:induction false} ScheduleNext(c: Config, d: int, slip: int, ip: string, hits: seq<Hit>, k: nat,
                                        es: seq<Event>)
    returns (more: seq<Event>)
    requires 0 <= d && 0 <= slip && 1 <= k <= |hits| && 0 <= hits[k - 1].at
    requires LegalRun(c, d, slip, es) && Prepared(Run(c, es), ip, |hits|, k - 1)
    requires Run(c, es).now <= hits[k - 1].at + slip && SameClocks(History(Run(c, es).log, ip), hits[..k - 1])
    ensures LegalRun(c, d, slip, more) && Prepared(Run(c, more), ip, |hits|, k)
    ensures Run(c, more).now == Max(Run(c, es).now, hits[k - 1].at)
    ensures SameClocks(History(Run(c, more).log, ip), hits[..k])
  {
    var read, n: nat := hits[k - 1].at, |hits|;
    var later := AdvanceTo(c, d, slip, es, ip, n, k - 1, Max(Run(c, es).now, read));
    var s := Run(c, later);
    var e := Allow(CallIndex(n, read, k - 1), read, s.now);
    ServeNext(c, d, slip, s, ip, n, k - 1, read);
    Extend(c, d, slip, later, e);
    more := later + [e];
    var ok :| History(Apply(c, s, e).log, ip) == History(s.log, ip) + [Hit(read, ok)];
    SameClocksAppend(History(s.log, ip) + [Hit(read, ok)], hits, k);
  }

  /** A timely run that reads the clocks of the first `k` hits, in their order. */
  lemma {:induction false} Schedule(c: Config, d: int, slip: int, ip: string, hits: seq<Hit>, k: nat)
    returns (es: seq<Event>)
    requires 0 <= d && 0 <= slip && Nearly(slip, hits) && k <= |hits| && hits != []
    ensures LegalRun(c, d, slip, es) && Prepared(Run(c, es), ip, |hits|, k)
    ensures forall j :: k <= j < |hits| ==> Run(c, es).now <= hits[j].at + slip
    ensures SameClocks(History(Run(c, es).log, ip), hits[..k])
  {
    if k == 0 {
      es := LookUpTimes(c, d, slip, [], ip, 0, |hits|);
      FirstLookups(c, Run(c, es), ip, |hits|);
    } else {
      es := Schedule(c, d, slip, ip, hits, k - 1);
      es := ScheduleNext(c, d, slip, ip, hits, k, es);
    }
  }

  /** Whatever a never dropped bucket can answer to nearly ordered requests is the log of a timely run. */
  lemma {:induction false} EveryHistoryIsLogged(c: Config, d: int, slip: int, ip: string, hits: seq<Hit>)
    returns (es: seq<Event>)
    requires c.Valid() && 0 <= d && 0 <= slip && Safe(c, d, slip) && Follows(c, hits) && Nearly(slip, hits)
    ensures LegalRun(c, d, slip, es) && History(Run(c, es).log, ip) == hits
  {
    if hits == [] {
      es := [];
    } else {
      es := Schedule(c, d, slip, ip, hits, |hits|);
      assert hits[..|hits|] == hits;
      SafeRunRefines(c, d, slip, es);
      FollowsIsUnique(c, History(Run(c, es).log, ip), hits);
    }
  }

  ghost predicate IsLogged(c: Config, d: int, slip: int, ip: string, hits: seq<Hit>) {
    exists es :: LegalRun(c, d, slip, es) && History(Run(c, es).log, ip) == hits
  }

  /** Under `Safe` the answers an IP can get in timely runs are exactly those of a bucket that is never
      dropped, to requests that read the clock in nearly the order in which they are served. */
  lemma {:induction false} LogsAreHistoriesIff(c: Config, d: int, slip: int, ip: string, hits: seq<Hit>)
    requires c.Valid() && 0 <= d && 0 <= slip && Safe(c, d, slip)
    ensures IsLogged(c, d, slip, ip, hits) <==> Follows(c, hits) && Nearly(slip, hits)
  {
    if IsLogged(c, d, slip, ip, hits) {
      var es :| LegalRun(c, d, slip, es) && History(Run(c, es).log, ip) == hits;
      SafeRunRefines(c, d, slip, es);
      LogIsNearlyMonotone(c, d, slip, es, ip);
    }
    if Follows(c, hits) && Nearly(slip, hits) {
      var es := EveryHistoryIsLogged(c, d, slip, ip, hits);
    }
  }

  /** When requests enter the bucket as they read the clock, an IP is refused just when admitting it would
      break the bound of some window, sweeps and other IPs included. */
  lemma {:induction false} PromptRunsServeFirstCome(c: Config, d: int, es: seq<Event>, ip: string)
    requires c.Valid() && 0 <= d && Safe(c, d, 0) && LegalRun(c, d, 0, es)
    ensures FirstComeFirstServed(c, History(Run(c, es).log, ip))
  {
    var hits := History(Run(c, es).log, ip);
    assert IsLogged(c, d, 0, ip, hits);
    LogsAreHistoriesIff(c, d, 0, ip, hits);
    BucketIsFirstComeFirstServed(c, hits);
  }
}
