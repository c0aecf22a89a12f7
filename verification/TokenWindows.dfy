/** How many requests one token bucket admits in a window of time, when requests may enter it late and
    in another order than they read the clock. */
module TokenWindows {
  import opened Arithmetic
  import opened TokenBucket

  // ---- the bound with an allowance for late entry ------------------------------------------

  /** What two admitted requests pay at least: two tokens, less one refill of `slip`. The bucket's clock
      has to go forward before it can be set back again. */
  function Price(c: Config, slip: int): int { 2 * COST - c.rpm * slip }

  /** The latest time the bucket's clock has shown. */
  function Latest(hits: seq<Hit>): int {
    if hits == [] then 0
    else
      var h := hits[|hits| - 1];
      if h.ok then Max(Latest(hits[..|hits| - 1]), h.at) else Latest(hits[..|hits| - 1])
  }

  /** The tokens there will be at `horizon` if nobody asks and there is no cap. */
  function Outlook(c: Config, b: Bucket, horizon: int): int { b.tokens + c.rpm * (horizon - b.last) }

  /** Twice the outlook, less the refill of the time by which the clock is behind. */
  function Reserve(c: Config, b: Bucket, latest: int, horizon: int): int {
    2 * Outlook(c, b, horizon) - c.rpm * (latest - b.last)
  }

  lemma {:induction false} LatestIsHit(hits: seq<Hit>)
    ensures Latest(hits) == 0 || exists i :: 0 <= i < |hits| && hits[i].at == Latest(hits)
  {
    if hits != [] {
      var before := hits[..|hits| - 1];
      LatestIsHit(before);
      if Latest(hits) != 0 && Latest(hits) == Latest(before) {
        var i :| 0 <= i < |before| && before[i].at == Latest(before);
        assert hits[i] == before[i];
      }
    }
  }

  /** A request's clock is at most `slip` behind anything the bucket's clock has shown. */
  lemma LatestIsClose(slip: int, hits: seq<Hit>)
    requires 0 <= slip && hits != [] && Nearly(slip, hits)
    ensures Latest(hits[..|hits| - 1]) <= hits[|hits| - 1].at + slip
  {
    var before := hits[..|hits| - 1];
    LatestIsHit(before);
    if Latest(before) != 0 {
      var i :| 0 <= i < |before| && before[i].at == Latest(before);
      assert hits[i] == before[i];
    }
  }

  lemma {:induction false} ClockIsClose(c: Config, slip: int, hits: seq<Hit>)
    requires c.Valid() && 0 <= slip && Follows(c, hits) && Nearly(slip, hits)
    ensures After(c, hits).last <= Latest(hits) <= After(c, hits).last + slip
  {
    if hits != [] {
      NearlyPrefix(slip, hits);
      ClockIsClose(c, slip, hits[..|hits| - 1]);
      LatestIsClose(slip, hits);
    }
  }

  lemma TakeSpends(c: Config, b: Bucket, t: int, horizon: int)
    requires c.Valid() && Take(c, b, t).1
    ensures Outlook(c, Take(c, b, t).0, horizon)
         <= Outlook(c, b, horizon) - COST + if t < b.last then c.rpm * (b.last - t) else 0
  {
    if t < b.last {
      assert c.rpm * (horizon - t) == c.rpm * (horizon - b.last) + c.rpm * (b.last - t);
    } else {
      assert c.rpm * (horizon - b.last) == c.rpm * (horizon - t) + c.rpm * (t - b.last);
    }
  }

  lemma TakePays(c: Config, slip: int, b: Bucket, latest: int, t: int, horizon: int)
    requires c.Valid() && Take(c, b, t).1 && b.last <= latest <= b.last + slip && latest <= t + slip
    ensures Reserve(c, Take(c, b, t).0, Max(latest, t), horizon) <= Reserve(c, b, latest, horizon) - Price(c, slip)
  {
    TakeSpends(c, b, t, horizon);
    if t < b.last {
      assert c.rpm * (latest - t) == c.rpm * (latest - b.last) + c.rpm * (b.last - t);
      MulMonotone(c.rpm, b.last - t, slip);
    } else if t <= latest {
      assert c.rpm * (latest - b.last) == c.rpm * (latest - t) + c.rpm * (t - b.last);
      MulMonotone(c.rpm, t - b.last, slip);
    } else {
      MulMonotone(c.rpm, latest - b.last, slip);
    }
  }

  /** From the first admission since `s` on: what was paid and what is in reserve never exceed twice a
      full bucket and the refill since `s`. */
  predicate SpentOk(c: Config, price: int, hits: seq<Hit>, s: int, horizon: int) {
    var n := Admitted(hits, s, horizon);
    n > 0 ==> n * price + Reserve(c, After(c, hits), Latest(hits), horizon)
              <= 2 * (c.Capacity() + c.rpm * (horizon - s)) - (2 * COST - price)
  }

  lemma FirstIsSpent(c: Config, price: int, hits: seq<Hit>, s: int, horizon: int)
    requires c.Valid() && hits != [] && Follows(c, hits) && Admitted(hits, s, horizon) == 1
    requires Counts(hits[|hits| - 1], s, horizon)
    ensures SpentOk(c, price, hits, s, horizon)
  {
    var before, h := hits[..|hits| - 1], hits[|hits| - 1];
    AfterIsValid(c, before);
    TakeKeepsValid(c, After(c, before), h.at);
    MulMonotone(c.rpm, horizon - h.at, horizon - s);
    MulMonotone(c.rpm, 0, Latest(hits) - h.at);
  }

  lemma PayOnce(n: int, price: int, left: int, leftAfter: int, bound: int)
    requires n * price + left <= bound && leftAfter <= left - price
    ensures (n + 1) * price + leftAfter <= bound
  {
  }

  /** The reserve falls by the price at each admission, and never grows. */
  lemma ReserveFalls(c: Config, slip: int, hits: seq<Hit>, horizon: int)
    requires c.Valid() && 0 <= slip && hits != [] && Follows(c, hits) && Nearly(slip, hits)
    ensures var before := hits[..|hits| - 1];
            Reserve(c, After(c, hits), Latest(hits), horizon)
            <= Reserve(c, After(c, before), Latest(before), horizon) - if hits[|hits| - 1].ok then Price(c, slip) else 0
  {
    var before, h := hits[..|hits| - 1], hits[|hits| - 1];
    if h.ok {
      NearlyPrefix(slip, hits);
      ClockIsClose(c, slip, before);
      LatestIsClose(slip, hits);
      TakePays(c, slip, After(c, before), Latest(before), h.at, horizon);
    }
  }

  lemma NextIsSpent(c: Config, slip: int, hits: seq<Hit>, s: int, horizon: int)
    requires c.Valid() && 0 <= slip && 0 <= Price(c, slip) && hits != [] && Follows(c, hits) && Nearly(slip, hits)
    requires Admitted(hits[..|hits| - 1], s, horizon) > 0
    requires SpentOk(c, Price(c, slip), hits[..|hits| - 1], s, horizon)
    ensures SpentOk(c, Price(c, slip), hits, s, horizon)
  {
    var before, price := hits[..|hits| - 1], Price(c, slip);
    var left, leftAfter := Reserve(c, After(c, before), Latest(before), horizon),
                           Reserve(c, After(c, hits), Latest(hits), horizon);
    ReserveFalls(c, slip, hits, horizon);
    if Counts(hits[|hits| - 1], s, horizon) {
      PayOnce(Admitted(before, s, horizon), price, left, leftAfter,
              2 * (c.Capacity() + c.rpm * (horizon - s)) - (2 * COST - price));
    }
  }

  lemma {:induction false} SpentSince(c: Config, slip: int, hits: seq<Hit>, s: int, horizon: int)
    requires c.Valid() && 0 <= slip && 0 <= Price(c, slip) && Follows(c, hits) && Nearly(slip, hits)
    ensures SpentOk(c, Price(c, slip), hits, s, horizon)
  {
    if hits != [] {
      var before := hits[..|hits| - 1];
      NearlyPrefix(slip, hits);
      SpentSince(c, slip, before, s, horizon);
      if Admitted(before, s, horizon) > 0 {
        NextIsSpent(c, slip, hits, s, horizon);
      } else if Admitted(hits, s, horizon) > 0 {
        FirstIsSpent(c, Price(c, slip), hits, s, horizon);
      }
    }
  }

  /** The bound, at the moment the last request of the window is admitted. */
  lemma {:induction false} WindowClosed(c: Config, slip: int, hits: seq<Hit>, s: int, t: int)
    requires c.Valid() && 0 <= slip && 0 <= Price(c, slip) && Follows(c, hits) && Nearly(slip, hits)
    requires hits != [] && Counts(hits[|hits| - 1], s, t)
    ensures Admitted(hits, s, t) * Price(c, slip) <= 2 * (c.Capacity() + c.rpm * (t - s))
  {
    var b := After(c, hits);
    SpentSince(c, slip, hits, s, t);
    AfterIsValid(c, hits);
    AfterIsValid(c, hits[..|hits| - 1]);
    TakeKeepsValid(c, After(c, hits[..|hits| - 1]), hits[|hits| - 1].at);
    ClockIsClose(c, slip, hits);
    MulMonotone(c.rpm, Latest(hits) - b.last, slip);
    MulMonotone(c.rpm, 0, t - b.last);
  }

  /** In any window a bucket admits no more than `burst` requests and the refill, except that every two
      requests may get back one refill of the `slip` between reading the clock and entering the bucket. */
  lemma {:induction false} WindowBound(c: Config, slip: int, hits: seq<Hit>, s: int, t: int)
    requires c.Valid() && 0 <= slip && Follows(c, hits) && Nearly(slip, hits) && s <= t
    ensures Admitted(hits, s, t) * Price(c, slip) <= 2 * (c.Capacity() + c.rpm * (t - s))
  {
    MulMonotone(c.rpm, 0, t - s);
    if Price(c, slip) < 0 {
      MulMonotone(Admitted(hits, s, t), Price(c, slip), 0);
    } else if hits != [] {
      if Counts(hits[|hits| - 1], s, t) {
        WindowClosed(c, slip, hits, s, t);
      } else {
        NearlyPrefix(slip, hits);
        WindowBound(c, slip, hits[..|hits| - 1], s, t);
      }
    }
  }

  // ---- when the plain bound holds ----------------------------------------------------------

  /** No more than a full bucket and the refill of the window. */
  predicate WindowOk(c: Config, hits: seq<Hit>, s: int, t: int) {
    Admitted(hits, s, t) * COST <= c.Capacity() + c.rpm * (t - s)
  }

  /** Far enough from each other for a token to be refilled. */
  predicate Spaced(c: Config, a: int, b: int) {
    COST <= c.rpm * (a - b) || COST <= c.rpm * (b - a)
  }

  ghost predicate Apart(c: Config, hits: seq<Hit>) {
    forall i, j :: 0 <= i < j < |hits| && hits[i].ok && hits[j].ok ==> Spaced(c, hits[i].at, hits[j].at)
  }

  /** The times at which requests of the window were admitted. */
  function Times(hits: seq<Hit>, s: int, t: int): seq<int> {
    if hits == [] then []
    else
      var h := hits[|hits| - 1];
      Times(hits[..|hits| - 1], s, t) + if Counts(h, s, t) then [h.at] else []
  }

  ghost predicate AllSpaced(c: Config, times: seq<int>) {
    forall i, j :: 0 <= i < j < |times| ==> Spaced(c, times[i], times[j])
  }

  lemma {:induction false} TimesSpec(c: Config, hits: seq<Hit>, s: int, t: int)
    requires Apart(c, hits)
    ensures |Times(hits, s, t)| == Admitted(hits, s, t) && AllSpaced(c, Times(hits, s, t))
    ensures forall x :: x in Times(hits, s, t) ==>
              s <= x <= t && exists i :: 0 <= i < |hits| && hits[i].ok && hits[i].at == x
  {
    if hits != [] {
      var before, h := hits[..|hits| - 1], hits[|hits| - 1];
      TimesSpec(c, before, s, t);
      var times := Times(before, s, t);
      forall x | x in Times(hits, s, t)
        ensures s <= x <= t && exists i :: 0 <= i < |hits| && hits[i].ok && hits[i].at == x
        ensures x in times && Counts(h, s, t) ==> Spaced(c, x, h.at)
      {
        if x in times {
          var i :| 0 <= i < |before| && before[i].ok && before[i].at == x;
          assert hits[i] == before[i];
        } else {
          assert hits[|before|].at == x;
        }
      }
      forall i | 0 <= i < |times| && Counts(h, s, t) ensures Spaced(c, times[i], h.at) {
        assert times[i] in times && times[i] in Times(hits, s, t);
      }
    }
  }

  lemma {:induction false} LatestOf(times: seq<int>) returns (k: nat)
    requires times != []
    ensures k < |times| && forall i :: 0 <= i < |times| ==> times[i] <= times[k]
  {
    k := |times| - 1;
    if |times| > 1 {
      var j := LatestOf(times[..|times| - 1]);
      if times[j] > times[k] { k := j; }
    }
  }

  lemma {:induction false} SpacedFitIn(c: Config, times: seq<int>, s: int, t: int)
    requires c.Valid() && AllSpaced(c, times) && s <= t && forall i :: 0 <= i < |times| ==> s <= times[i] <= t
    ensures (|times| - 1) * COST <= c.rpm * (t - s)
    decreases |times|
  {
    MulMonotone(c.rpm, 0, t - s);
    if |times| > 1 {
      var k := LatestOf(times);
      var rest := times[..k] + times[k + 1..];
      assert AllSpaced(c, rest);
      var next := LatestOf(rest);
      SpacedFitIn(c, rest, s, rest[next]);
      assert Spaced(c, rest[next], times[k]);
      MulMonotone(c.rpm, rest[next] - times[k], 0);
      MulMonotone(c.rpm, times[k] - s, t - s);
      assert c.rpm * (times[k] - s) == c.rpm * (times[k] - rest[next]) + c.rpm * (rest[next] - s);
    }
  }

  lemma {:induction false} ApartIsBounded(c: Config, hits: seq<Hit>, s: int, t: int)
    requires c.Valid() && Apart(c, hits) && s <= t
    ensures WindowOk(c, hits, s, t)
  {
    TimesSpec(c, hits, s, t);
    var times := Times(hits, s, t);
    forall i | 0 <= i < |times| ensures s <= times[i] <= t { assert times[i] in times; }
    SpacedFitIn(c, times, s, t);
  }

  /** A bucket of one token is empty after each admission, so its clock never goes back. */
  lemma {:induction false} BurstOneIsApart(c: Config, hits: seq<Hit>)
    requires c.Valid() && c.burst == 1 && Follows(c, hits)
    ensures Apart(c, hits)
    ensures (forall i :: 0 <= i < |hits| ==> !hits[i].ok)
            || (After(c, hits).tokens == 0
                && forall i :: 0 <= i < |hits| && hits[i].ok ==> hits[i].at <= After(c, hits).last)
  {
    if hits != [] {
      var before, h := hits[..|hits| - 1], hits[|hits| - 1];
      BurstOneIsApart(c, before);
      AfterIsValid(c, before);
      TakeKeepsValid(c, After(c, before), h.at);
      AfterIsValid(c, hits);
      forall i | 0 <= i < |before| && hits[i].ok && h.ok ensures Spaced(c, hits[i].at, h.at) && hits[i].at <= h.at {
        assert before[i] == hits[i];
        EmptyIsSpaced(c, After(c, before), hits[i].at, h.at);
      }
    }
  }

  lemma EmptyIsSpaced(c: Config, b: Bucket, earlier: int, t: int)
    requires c.Valid() && b.tokens == 0 && earlier <= b.last && Take(c, b, t).1
    ensures Spaced(c, earlier, t) && earlier <= t
  {
    MulMonotone(c.rpm, t - b.last, t - earlier);
  }

  /** Pairs of requests that swap: the first of each reads the later clock and enters first. */
  function Swaps(gap: int, n: nat): seq<Hit> {
    if n == 0 then [] else Swaps(gap, n - 1) + [Hit((n - 1) * gap + 1, true)] + [Hit((n - 1) * gap, true)]
  }

  lemma PairPasses(c: Config, hits: seq<Hit>, t: int)
    requires c.Valid() && c.burst >= 2 && Follows(c, hits) && Level(c, After(c, hits), t + 1) == c.Capacity()
    ensures var more := hits + [Hit(t + 1, true)] + [Hit(t, true)];
            Follows(c, more) && After(c, more) == Bucket(c.Capacity() - 2 * COST, t)
  {
    Gives(c, hits, t + 1, true, Bucket(c.Capacity() - COST, t + 1));
    MulMonotone(c.rpm, 0, 0);
    Gives(c, hits + [Hit(t + 1, true)], t, true, Bucket(c.Capacity() - 2 * COST, t));
  }

  /** With two refills from one pair to the next the bucket is full at every pair. */
  lemma {:induction false} SwapsPass(c: Config, gap: int, n: nat)
    requires c.Valid() && c.burst >= 2 && 0 <= gap && 2 * COST <= c.rpm * (gap + 1)
    ensures Follows(c, Swaps(gap, n))
    ensures n > 0 ==> After(c, Swaps(gap, n)) == Bucket(c.Capacity() - 2 * COST, (n - 1) * gap)
  {
    if n > 0 {
      SwapsPass(c, gap, n - 1);
      if n > 1 {
        assert (n - 1) * gap + 1 - (n - 2) * gap == gap + 1;
        MulMonotone(gap, n - 2, n - 1);
      } else {
        MulMonotone(c.rpm, 0, 1);
      }
      PairPasses(c, Swaps(gap, n - 1), (n - 1) * gap);
    }
  }

  lemma NearlyAppend(slip: int, hits: seq<Hit>, h: Hit)
    requires 0 <= slip && Nearly(slip, hits) && 0 <= h.at && forall i :: 0 <= i < |hits| ==> hits[i].at <= h.at + slip
    ensures Nearly(slip, hits + [h])
  {
  }

  lemma {:induction false} SwapsAreNearlyOrdered(gap: int, n: nat, slip: int)
    requires 0 <= gap && 1 <= slip
    ensures Nearly(slip, Swaps(gap, n))
    ensures n > 0 ==> forall i :: 0 <= i < |Swaps(gap, n)| ==> Swaps(gap, n)[i].at <= (n - 1) * gap + 1
  {
    if n > 0 {
      var before, t := Swaps(gap, n - 1), (n - 1) * gap;
      SwapsAreNearlyOrdered(gap, n - 1, slip);
      MulMonotone(gap, 0, n - 1);
      MulMonotone(gap, n - 2, n - 1);
      NearlyAppend(slip, before, Hit(t + 1, true));
      NearlyAppend(slip, before + [Hit(t + 1, true)], Hit(t, true));
    }
  }

  lemma {:induction false} SwapsAreAdmitted(c: Config, gap: int, n: nat, t: int)
    requires 0 <= gap && (n > 0 ==> (n - 1) * gap + 1 <= t)
    ensures Admitted(Swaps(gap, n), 0, t) == 2 * n
  {
    if n > 0 {
      var before, u := Swaps(gap, n - 1), (n - 1) * gap;
      MulMonotone(gap, n - 2, n - 1);
      MulMonotone(gap, 0, n - 1);
      SwapsAreAdmitted(c, gap, n - 1, t);
      OneMoreHit(c, before, Hit(u + 1, true));
      OneMoreHit(c, before + [Hit(u + 1, true)], Hit(u, true));
    }
  }

  /** The longest gap in which less than two tokens are refilled. */
  function Gap(c: Config): int
    requires c.Valid()
  {
    (2 * COST - 1) / c.rpm
  }

  lemma GapIsTight(c: Config)
    requires c.Valid()
    ensures 0 <= Gap(c) && c.rpm * Gap(c) < 2 * COST <= c.rpm * (Gap(c) + 1)
  {
    assert 2 * COST - 1 == c.rpm * Gap(c) + (2 * COST - 1) % c.rpm;
  }

  lemma ManySwapsAreTooMany(c: Config, gap: int, n: nat)
    requires c.Valid() && 0 <= gap && c.rpm * gap < 2 * COST && n == c.Capacity() + c.rpm + 2
    ensures 2 * n * COST > c.Capacity() + c.rpm * ((n - 1) * gap + 1)
  {
    MulMonotone(n - 1, c.rpm * gap, 2 * COST - 1);
    assert c.rpm * ((n - 1) * gap + 1) == (n - 1) * (c.rpm * gap) + c.rpm;
  }

  /** The witness, for any burst of two or more: requests that swap between reading the clock and
      entering the bucket make the same time refill it twice, until more have passed than the window allows. */
  lemma {:induction false} SwappedRequestsRefillTwice(c: Config, slip: int) returns (hits: seq<Hit>, t: int)
    requires c.Valid() && c.burst >= 2 && 1 <= slip
    ensures Follows(c, hits) && Nearly(slip, hits) && 0 <= t && !WindowOk(c, hits, 0, t)
  {
    var n, gap := c.Capacity() + c.rpm + 2, Gap(c);
    GapIsTight(c);
    hits, t := Swaps(gap, n), (n - 1) * gap + 1;
    SwapsPass(c, gap, n);
    SwapsAreNearlyOrdered(gap, n, slip);
    SwapsAreAdmitted(c, gap, n, t);
    ManySwapsAreTooMany(c, gap, n);
    MulMonotone(gap, 0, n - 1);
  }

  /** The plain bound holds for everything a bucket can answer exactly when requests enter it as they read
      the clock, or there is never more than one token to be had. */
  lemma {:induction false} PlainBoundIff(c: Config, slip: int)
    requires c.Valid() && 0 <= slip
    ensures (forall hits, s, t :: Follows(c, hits) && Nearly(slip, hits) && s <= t ==> WindowOk(c, hits, s, t))
            <==> slip == 0 || c.burst == 1
  {
    if slip == 0 || c.burst == 1 {
      forall hits, s, t | Follows(c, hits) && Nearly(slip, hits) && s <= t ensures WindowOk(c, hits, s, t) {
        if slip == 0 {
          WindowBound(c, slip, hits, s, t);
        } else {
          BurstOneIsApart(c, hits);
          ApartIsBounded(c, hits, s, t);
        }
      }
    } else {
      var hits, t := SwappedRequestsRefillTwice(c, slip);
    }
  }

  // ---- requests that enter in the order of their clocks --------------------------------------

  /** The window from `s` to `t` has room for one more request. */
  predicate RoomForOne(c: Config, hits: seq<Hit>, s: int, t: int) {
    (Admitted(hits, s, t) + 1) * COST <= c.Capacity() + c.rpm * (t - s)
  }

  /** What the window from `s` to `t` leaves. */
  function Room(c: Config, hits: seq<Hit>, s: int, t: int): int {
    c.Capacity() + c.rpm * (t - s) - Admitted(hits, s, t) * COST
  }

  lemma {:induction false} AdmittedByThen(hits: seq<Hit>, s: int, t: int, u: int)
    requires t <= u && forall i :: 0 <= i < |hits| ==> hits[i].at <= t
    ensures Admitted(hits, s, u) == Admitted(hits, s, t)
  {
    if hits != [] {
      AdmittedByThen(hits[..|hits| - 1], s, t, u);
    }
  }

  lemma {:induction false} NoneSince(hits: seq<Hit>, s: int, t: int)
    requires forall i :: 0 <= i < |hits| ==> hits[i].at < s
    ensures Admitted(hits, s, t) == 0
  {
    if hits != [] {
      NoneSince(hits[..|hits| - 1], s, t);
    }
  }

  /** The level is what the tightest window leaves: at most what any window does, and just what one does. */
  ghost predicate IsTightest(c: Config, hits: seq<Hit>, t: int, level: int) {
    && (forall s :: s <= t ==> level <= Room(c, hits, s, t))
    && (exists s :: s <= t && level == Room(c, hits, s, t))
  }

  lemma LevelAfterTake(c: Config, b: Bucket, at: int, t: int)
    requires c.Valid() && at <= t && Take(c, b, at).1
    ensures Level(c, Take(c, b, at).0, t) == Min(c.Capacity(), Level(c, b, at) - COST + c.rpm * (t - at))
  {
  }

  lemma AdmissionTightens(c: Config, hits: seq<Hit>, h: Hit, t: int, level: int)
    requires c.Valid() && h.ok && h.at <= t && (forall i :: 0 <= i < |hits| ==> hits[i].at <= h.at)
    requires level <= c.Capacity() && IsTightest(c, hits, h.at, level)
    ensures IsTightest(c, hits + [h], t, Min(c.Capacity(), level - COST + c.rpm * (t - h.at)))
  {
    var next := Min(c.Capacity(), level - COST + c.rpm * (t - h.at));
    forall s | s <= t
      ensures s <= h.at ==> Room(c, hits + [h], s, t) == Room(c, hits, s, h.at) - COST + c.rpm * (t - h.at)
      ensures next <= Room(c, hits + [h], s, t)
    {
      RoomAfter(c, hits, h, s, t);
    }
    var s :| s <= h.at && level == Room(c, hits, s, h.at);
    if next == c.Capacity() {
      RoomAfter(c, hits, h, t, t);
    } else {
      assert next == Room(c, hits + [h], s, t);
    }
  }

  lemma RoomAfter(c: Config, hits: seq<Hit>, h: Hit, s: int, t: int)
    requires c.Valid() && h.ok && s <= t && h.at <= t && (forall i :: 0 <= i < |hits| ==> hits[i].at <= h.at)
    ensures s <= h.at ==> Room(c, hits + [h], s, t) == Room(c, hits, s, h.at) - COST + c.rpm * (t - h.at)
    ensures h.at < s ==> c.Capacity() <= Room(c, hits + [h], s, t)
    ensures h.at < t ==> Room(c, hits + [h], t, t) == c.Capacity()
  {
    OneMoreHit(c, hits, h);
    if s <= h.at {
      AdmittedByThen(hits, s, h.at, t);
      assert c.rpm * (t - s) == c.rpm * (t - h.at) + c.rpm * (h.at - s);
    } else {
      NoneSince(hits, s, t);
      MulMonotone(c.rpm, 0, t - s);
    }
    if h.at < t {
      NoneSince(hits, t, t);
    }
  }

  lemma EmptyIsTightest(c: Config, t: int)
    requires c.Valid() && 0 <= t
    ensures IsTightest(c, [], t, Level(c, After(c, []), t)) && Level(c, After(c, []), t) == c.Capacity()
  {
    MulMonotone(c.rpm, 0, t);
    forall s | s <= t ensures c.Capacity() <= Room(c, [], s, t) { MulMonotone(c.rpm, 0, t - s); }
    assert Room(c, [], t, t) == c.Capacity();
  }

  lemma RefusalTightensNothing(c: Config, hits: seq<Hit>, h: Hit, t: int, level: int)
    requires !h.ok && IsTightest(c, hits, t, level)
    ensures IsTightest(c, hits + [h], t, level)
  {
    forall s ensures Room(c, hits + [h], s, t) == Room(c, hits, s, t) { OneMoreHit(c, hits, h); }
    var s :| s <= t && level == Room(c, hits, s, t);
    assert level == Room(c, hits + [h], s, t);
  }

  lemma {:induction false} LevelIsTightest(c: Config, hits: seq<Hit>, t: int)
    requires c.Valid() && 0 <= t && Follows(c, hits) && Nearly(0, hits)
    requires forall i :: 0 <= i < |hits| ==> hits[i].at <= t
    ensures IsTightest(c, hits, t, Level(c, After(c, hits), t))
  {
    if hits == [] {
      EmptyIsTightest(c, t);
    } else {
      var before, h := hits[..|hits| - 1], hits[|hits| - 1];
      assert hits == before + [h];
      NearlyPrefix(0, hits);
      if h.ok {
        LevelIsTightest(c, before, h.at);
        LevelAfterTake(c, After(c, before), h.at, t);
        AdmissionTightens(c, before, h, t, Level(c, After(c, before), h.at));
      } else {
        LevelIsTightest(c, before, t);
        RefusalTightensNothing(c, before, h, t, Level(c, After(c, before), t));
      }
    }
  }

  /** A request is refused only when admitting it would break the bound of some window, and is refused
      then. */
  lemma {:induction false} AdmittedIffWindowsAllow(c: Config, hits: seq<Hit>, h: Hit)
    requires c.Valid() && Follows(c, hits + [h]) && Nearly(0, hits + [h])
    ensures h.ok <==> forall s :: s <= h.at ==> RoomForOne(c, hits, s, h.at)
  {
    var all := hits + [h];
    assert all[..|hits|] == hits;
    assert forall i :: 0 <= i < |hits| ==> all[i] == hits[i] && all[i].at <= all[|hits|].at;
    NearlyPrefix(0, all);
    OneMoreHit(c, hits, h);
    LevelIsTightest(c, hits, h.at);
    var s :| s <= h.at && Level(c, After(c, hits), h.at) == Room(c, hits, s, h.at);
    forall s ensures RoomForOne(c, hits, s, h.at) <==> COST <= Room(c, hits, s, h.at) {}
  }

  /** First come, first served, as long as every window has room: no bucket is mentioned. */
  ghost predicate FirstComeFirstServed(c: Config, hits: seq<Hit>) {
    hits == [] ||
    var before, h := hits[..|hits| - 1], hits[|hits| - 1];
    FirstComeFirstServed(c, before) && (h.ok <==> forall s :: s <= h.at ==> RoomForOne(c, before, s, h.at))
  }

  /** When requests enter the bucket as they read the clock, its answers are exactly those. */
  lemma {:induction false} BucketIsFirstComeFirstServed(c: Config, hits: seq<Hit>)
    requires c.Valid() && Nearly(0, hits)
    ensures Follows(c, hits) <==> FirstComeFirstServed(c, hits)
  {
    if hits != [] {
      var before, h := hits[..|hits| - 1], hits[|hits| - 1];
      NearlyPrefix(0, hits);
      BucketIsFirstComeFirstServed(c, before);
      if Follows(c, before) {
        var answer := Hit(h.at, Take(c, After(c, before), h.at).1);
        OneMoreHit(c, before, answer);
        assert Nearly(0, before + [answer]);
        AdmittedIffWindowsAllow(c, before, answer);
      }
    }
  }

  // ---- refused requests ----------------------------------------------------------------------

  function Admissions(hits: seq<Hit>): seq<Hit> {
    if hits == [] then []
    else
      var h := hits[|hits| - 1];
      Admissions(hits[..|hits| - 1]) + if h.ok then [h] else []
  }

  /** A refused request leaves no trace: without it the bucket is the same. */
  lemma {:induction false} RefusalsLeaveNoTrace(c: Config, hits: seq<Hit>)
    requires Follows(c, hits)
    ensures Follows(c, Admissions(hits)) && After(c, Admissions(hits)) == After(c, hits)
  {
    if hits != [] {
      var before, h := hits[..|hits| - 1], hits[|hits| - 1];
      RefusalsLeaveNoTrace(c, before);
      if h.ok {
        OneMoreHit(c, Admissions(before), h);
      } else {
        assert Admissions(hits) == Admissions(before);
      }
    }
  }
}
