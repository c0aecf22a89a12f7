/** One token bucket (`rate.Limiter`) in exact integers: time in nanoseconds, tokens scaled by
    60 * 10^9 so that `rpm` requests per minute refill `rpm` units per nanosecond. */
module TokenBucket {
  import opened Arithmetic

  const COST := 60_000_000_000

  datatype Config = Config(rpm: int, burst: int) {
    predicate Valid() { rpm >= 1 && burst >= 1 }

    function Capacity(): int { burst * COST }
  }

  datatype Bucket = Bucket(tokens: int, last: int) {
    predicate Valid(c: Config) { 0 <= tokens <= c.Capacity() }
  }

  /** One Allow call on one IP's bucket: the clock it read and what it answered. */
  datatype Hit = Hit(at: int, ok: bool)

  function Full(c: Config, t: int): Bucket { Bucket(c.Capacity(), t) }

  /** The tokens there are at time `t`; a clock reading before `last` counts as no time passed. */
  function Level(c: Config, b: Bucket, t: int): int {
    Min(c.Capacity(), b.tokens + c.rpm * (if t < b.last then 0 else t - b.last))
  }

  /** `Allow`: a refused request leaves the bucket untouched. */
  function Take(c: Config, b: Bucket, t: int): (Bucket, bool) {
    if Level(c, b, t) >= COST then (Bucket(Level(c, b, t) - COST, t), true) else (b, false)
  }

  /** The bucket after the requests `hits`, had it never been dropped. */
  function After(c: Config, hits: seq<Hit>): Bucket {
    if hits == [] then Full(c, 0) else Take(c, After(c, hits[..|hits| - 1]), hits[|hits| - 1].at).0
  }

  /** Every answer in `hits` is the one a single, never dropped bucket gives to these requests. */
  predicate Follows(c: Config, hits: seq<Hit>) {
    hits == [] ||
    var before := hits[..|hits| - 1];
    Follows(c, before) && hits[|hits| - 1].ok == Take(c, After(c, before), hits[|hits| - 1].at).1
  }

  /** The clock a request read is at most `slip` behind any clock read by a request served before it. */
  predicate Nearly(slip: int, hits: seq<Hit>) {
    && (forall i :: 0 <= i < |hits| ==> 0 <= hits[i].at)
    && (forall i, j :: 0 <= i < j < |hits| ==> hits[i].at <= hits[j].at + slip)
  }

  predicate Counts(h: Hit, s: int, t: int) { h.ok && s <= h.at <= t }

  /** Requests admitted in the closed window from `s` to `t`. */
  function Admitted(hits: seq<Hit>, s: int, t: int): nat {
    if hits == [] then 0
    else
      var h := hits[|hits| - 1];
      Admitted(hits[..|hits| - 1], s, t) + if Counts(h, s, t) then 1 else 0
  }

  // ---- one bucket ------------------------------------------------------------------------

  lemma TakeKeepsValid(c: Config, b: Bucket, t: int)
    requires c.Valid() && b.Valid(c)
    ensures Take(c, b, t).0.Valid(c) && Level(c, b, t) >= 0
    ensures Take(c, b, t).1 ==> Take(c, b, t).0.last == t && Take(c, b, t).0.tokens <= c.Capacity() - COST
  {
    if b.last <= t { MulMonotone(c.rpm, 0, t - b.last); }
  }

  lemma {:induction false} AfterIsValid(c: Config, hits: seq<Hit>)
    requires c.Valid()
    ensures After(c, hits).Valid(c)
    ensures After(c, hits).last == 0 || exists i :: 0 <= i < |hits| && hits[i].at == After(c, hits).last
  {
    if hits != [] {
      var before, h := hits[..|hits| - 1], hits[|hits| - 1];
      AfterIsValid(c, before);
      TakeKeepsValid(c, After(c, before), h.at);
      if After(c, hits) == After(c, before) && After(c, before).last != 0 {
        var i :| 0 <= i < |before| && before[i].at == After(c, before).last;
        assert hits[i] == before[i];
      }
    }
  }

  lemma OneMoreHit(c: Config, hits: seq<Hit>, h: Hit)
    ensures After(c, hits + [h]) == Take(c, After(c, hits), h.at).0
    ensures Follows(c, hits + [h]) <==> Follows(c, hits) && h.ok == Take(c, After(c, hits), h.at).1
    ensures forall s, t :: Admitted(hits + [h], s, t) == Admitted(hits, s, t) + if h.ok && s <= h.at <= t then 1 else 0
  {
    assert (hits + [h])[..|hits|] == hits;
  }

  lemma Gives(c: Config, hits: seq<Hit>, t: int, ok: bool, b: Bucket)
    requires Follows(c, hits) && Take(c, After(c, hits), t) == (b, ok)
    ensures Follows(c, hits + [Hit(t, ok)]) && After(c, hits + [Hit(t, ok)]) == b
  {
    OneMoreHit(c, hits, Hit(t, ok));
  }

  lemma NearlyPrefix(slip: int, hits: seq<Hit>)
    requires hits != [] && Nearly(slip, hits)
    ensures Nearly(slip, hits[..|hits| - 1])
  {
  }

  /** The answers follow from the clocks that were read. */
  lemma {:induction false} FollowsIsUnique(c: Config, a: seq<Hit>, b: seq<Hit>)
    requires Follows(c, a) && Follows(c, b)
    requires |a| == |b| && forall i :: 0 <= i < |a| ==> a[i].at == b[i].at
    ensures a == b
  {
    if a != [] {
      FollowsIsUnique(c, a[..|a| - 1], b[..|b| - 1]);
      assert a == a[..|a| - 1] + [a[|a| - 1]] && b == b[..|b| - 1] + [b[|b| - 1]];
      assert a[|a| - 1] == b[|b| - 1];
    }
  }
}
