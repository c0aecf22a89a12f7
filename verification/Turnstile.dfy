/** The captcha verifier of internal/service/turnstile.go: a lookup under the read lock, the call
    to the remote service, and a store under the write lock are separate steps. */
module Turnstile {
  import opened Wrappers

  /** Five minutes in nanoseconds. */
  const TTL := 300_000_000_000

  datatype Entry = Entry(success: bool, timestamp: int)
  datatype Outcome = Answer(success: bool) | Failure
  type Cache = map<string, Entry>

  /** The text that is hashed into the cache key. */
  function KeyText(token: string, ip: string): string { token + ":" + ip }

  /** A cached answer less than five minutes old. */
  predicate Hit(cache: Cache, key: string, now: int) {
    key in cache && now - cache[key].timestamp < TTL
  }

  /** One uninterrupted call; `upstream` is what the remote service would give, asked only on a miss. */
  function Verified(cache: Cache, key: string, upstream: Outcome, lookedUp: int, stored: int): (Cache, Result<bool>) {
    if Hit(cache, key, lookedUp) then (cache, Ok(cache[key].success))
    else if upstream.Failure? then (cache, Err)
    else (cache[key := Entry(upstream.success, stored)], Ok(upstream.success))
  }

  class TurnstileVerifier {
    const digest: string -> string
    var cache: Cache

    constructor (digest: string -> string)
      ensures this.digest == digest && cache == map[]
    {
      this.digest, cache := digest, map[];
    }

    method Verify(token: string, ip: string, upstream: Outcome, lookedUp: int, stored: int) returns (r: Result<bool>)
      modifies this
      ensures (cache, r) == Verified(old(cache), digest(KeyText(token, ip)), upstream, lookedUp, stored)
    {
      var key := digest(KeyText(token, ip));
      if key in cache {
        var entry := cache[key];
        if lookedUp - entry.timestamp < TTL {
          return Ok(entry.success);
        }
      }
      if upstream.Failure? {
        return Err;
      }
      cache := cache[key := Entry(upstream.success, stored)];
      return Ok(upstream.success);
    }
  }

  // ---- which requests share a key --------------------------------------------------------

  ghost predicate Injective(digest: string -> string) {
    forall a, b {:trigger digest(a), digest(b)} :: digest(a) == digest(b) ==> a == b
  }

  /** `longer` is `shorter` with a colon and the start of the other address moved into the token. */
  ghost predicate Shifted(shorter: string, shorterIp: string, longer: string, longerIp: string) {
    exists middle: string {:trigger KeyText(middle, longerIp)} ::
      longer == shorter + ":" + middle && shorterIp == KeyText(middle, longerIp)
  }

  /** Two requests share a key text exactly when they are equal or one token swallows the colon. */
  lemma SameKeyIff(t1: string, ip1: string, t2: string, ip2: string)
    ensures KeyText(t1, ip1) == KeyText(t2, ip2) <==>
            ((t1 == t2 && ip1 == ip2) || Shifted(t1, ip1, t2, ip2) || Shifted(t2, ip2, t1, ip1))
  {
    if KeyText(t1, ip1) == KeyText(t2, ip2) {
      if |t1| <= |t2| {
        SameKeyShifts(t1, ip1, t2, ip2);
      } else {
        SameKeyShifts(t2, ip2, t1, ip1);
      }
    }
    if Shifted(t1, ip1, t2, ip2) {
      ShiftedSharesKey(t1, ip1, t2, ip2);
    }
    if Shifted(t2, ip2, t1, ip1) {
      ShiftedSharesKey(t2, ip2, t1, ip1);
    }
  }

  lemma ShiftedSharesKey(t1: string, ip1: string, t2: string, ip2: string)
    requires Shifted(t1, ip1, t2, ip2)
    ensures KeyText(t1, ip1) == KeyText(t2, ip2)
  {
    var middle :| t2 == t1 + ":" + middle && ip1 == KeyText(middle, ip2);
    assert t1 + ":" + (middle + ":" + ip2) == t1 + ":" + middle + ":" + ip2;
  }

  lemma SameKeyShifts(t1: string, ip1: string, t2: string, ip2: string)
    requires KeyText(t1, ip1) == KeyText(t2, ip2) && |t1| <= |t2|
    ensures (t1 == t2 && ip1 == ip2) || Shifted(t1, ip1, t2, ip2)
  {
    var key := KeyText(t1, ip1);
    assert t1 == key[..|t1|] && t2 == key[..|t2|] && key[|t1|] == ':' && key[|t2|] == ':';
    assert ip1 == key[|t1| + 1..] && ip2 == key[|t2| + 1..];
    if |t1| < |t2| {
      var middle := key[|t1| + 1..|t2|];
      assert t2 == t1 + ":" + middle && ip1 == KeyText(middle, ip2);
    }
  }

  lemma ShiftedHasColon(t1: string, ip1: string, t2: string, ip2: string)
    requires Shifted(t1, ip1, t2, ip2)
    ensures ':' in t2
  {
    assert t2[|t1|] == ':';
  }

  /** Tokens without a colon keep requests apart, whatever the address contains. */
  lemma ColonFreeTokensKeepKeysApart(t1: string, ip1: string, t2: string, ip2: string)
    requires ':' !in t1 && ':' !in t2 && KeyText(t1, ip1) == KeyText(t2, ip2)
    ensures t1 == t2 && ip1 == ip2
  {
    SameKeyIff(t1, ip1, t2, ip2);
    if Shifted(t1, ip1, t2, ip2) {
      ShiftedHasColon(t1, ip1, t2, ip2);
    } else if Shifted(t2, ip2, t1, ip1) {
      ShiftedHasColon(t2, ip2, t1, ip1);
    }
  }

  // ---- interleaved runs ------------------------------------------------------------------

  /** Where a call stands: asking the remote service, holding its answer, or returned. */
  datatype Stage = Asking | Answered(success: bool) | Returned(result: Result<bool>, own: bool)
  datatype Call = Call(token: string, ip: string, at: int, stage: Stage)
  datatype State = State(cache: Cache, calls: seq<Call>)

  datatype Event =
    | Begin(token: string, ip: string, at: int)
    | Reply(call: nat, outcome: Outcome, at: int)
    | Store(call: nat, at: int)

  const START := State(map[], [])

  function KeyOf(digest: string -> string, call: Call): string { digest(KeyText(call.token, call.ip)) }

  function Apply(digest: string -> string, s: State, e: Event): State {
    match e
    case Begin(token, ip, at) =>
      var key := digest(KeyText(token, ip));
      var stage := if Hit(s.cache, key, at) then Returned(Ok(s.cache[key].success), false) else Asking;
      s.(calls := s.calls + [Call(token, ip, at, stage)])
    case Reply(k, outcome, at) =>
      if k < |s.calls| && s.calls[k].stage.Asking? then
        var stage := if outcome.Failure? then Returned(Err, true) else Answered(outcome.success);
        s.(calls := s.calls[k := s.calls[k].(stage := stage)])
      else s
    case Store(k, at) =>
      if k < |s.calls| && s.calls[k].stage.Answered? then
        var success := s.calls[k].stage.success;
        State(s.cache[KeyOf(digest, s.calls[k]) := Entry(success, at)],
              s.calls[k := s.calls[k].(stage := Returned(Ok(success), true))])
      else s
  }

  /** The three steps of a call, with no other call between them, are `Verify`. */
  lemma {:induction false} StepsAreVerify(digest: string -> string, s: State, token: string, ip: string,
                                          upstream: Outcome, lookedUp: int, replied: int, stored: int)
    ensures var k: nat := |s.calls|;
            var s1 := Apply(digest, s, Begin(token, ip, lookedUp));
            var s2 := Apply(digest, s1, Reply(k, upstream, replied));
            var s3 := Apply(digest, s2, Store(k, stored));
            && s3.calls[k].stage.Returned?
            && (s3.cache, s3.calls[k].stage.result)
               == Verified(s.cache, digest(KeyText(token, ip)), upstream, lookedUp, stored)
  {
  }

  function Run(digest: string -> string, es: seq<Event>): State {
    if es == [] then START else Apply(digest, Run(digest, es[..|es| - 1]), es[|es| - 1])
  }

  predicate Clocked(es: seq<Event>) {
    && (forall i :: 0 <= i < |es| ==> 0 <= es[i].at)
    && (forall i, j :: 0 <= i < j < |es| ==> es[i].at <= es[j].at)
  }

  lemma RunAppend(digest: string -> string, es: seq<Event>, e: Event)
    ensures Run(digest, es + [e]) == Apply(digest, Run(digest, es), e)
  {
    assert (es + [e])[..|es|] == es;
  }

  // ---- where answers come from -----------------------------------------------------------

  /** The stage of call `k` when event `i` happens, if the call has begun by then. */
  function StageAt(digest: string -> string, es: seq<Event>, i: nat, k: nat): Option<Stage>
    requires i <= |es|
  {
    if k < |Run(digest, es[..i]).calls| then Some(Run(digest, es[..i]).calls[k].stage) else None
  }

  /** Event `i` is the reply call `k` was waiting for. */
  predicate ReplyTo(digest: string -> string, es: seq<Event>, i: nat, k: nat, outcome: Outcome) {
    i < |es| && es[i].Reply? && es[i].call == k && es[i].outcome == outcome && StageAt(digest, es, i, k) == Some(Asking)
  }

  ghost predicate WasSent(digest: string -> string, es: seq<Event>, k: nat, outcome: Outcome) {
    exists i :: ReplyTo(digest, es, i, k, outcome)
  }

  /** Event `j` stored the answer that call `k` held. */
  predicate StoreBy(digest: string -> string, es: seq<Event>, j: nat, k: nat, success: bool, at: int) {
    j < |es| && es[j] == Store(k, at) && StageAt(digest, es, j, k) == Some(Answered(success))
  }

  /** Event `m` began call `k`. */
  predicate BeginOf(digest: string -> string, es: seq<Event>, m: nat, k: nat, token: string, ip: string, at: int) {
    m < |es| && es[m] == Begin(token, ip, at) && |Run(digest, es[..m]).calls| == k
  }

  /** What a call has heard from upstream. */
  function Heard(stage: Stage): Option<Outcome> {
    match stage
    case Asking => None
    case Answered(success) => Some(Answer(success))
    case Returned(Ok(success), own) => if own then Some(Answer(success)) else None
    case Returned(Err, _) => Some(Failure)
  }

  lemma {:induction false} CallsStay(digest: string -> string, es: seq<Event>, i: nat, k: nat)
    requires i <= |es| && k < |Run(digest, es[..i]).calls|
    ensures k < |Run(digest, es).calls|
    ensures Run(digest, es).calls[k].token == Run(digest, es[..i]).calls[k].token
    ensures Run(digest, es).calls[k].ip == Run(digest, es[..i]).calls[k].ip
  {
    if i == |es| {
      assert es[..i] == es;
    } else {
      assert es[..|es| - 1][..i] == es[..i];
      CallsStay(digest, es[..|es| - 1], i, k);
    }
  }

  lemma ReplyToPrefix(digest: string -> string, es: seq<Event>, i: nat, k: nat, outcome: Outcome)
    requires es != [] && i < |es| - 1
    ensures ReplyTo(digest, es, i, k, outcome) <==> ReplyTo(digest, es[..|es| - 1], i, k, outcome)
  {
    assert es[..|es| - 1][..i] == es[..i];
  }

  lemma RepliesGrow(digest: string -> string, es: seq<Event>, k: nat, outcome: Outcome)
    requires es != []
    ensures WasSent(digest, es, k, outcome) <==>
            WasSent(digest, es[..|es| - 1], k, outcome) || ReplyTo(digest, es, |es| - 1, k, outcome)
  {
    var before := es[..|es| - 1];
    if i: nat :| ReplyTo(digest, es, i, k, outcome) && i != |es| - 1 {
      ReplyToPrefix(digest, es, i, k, outcome);
      assert ReplyTo(digest, before, i, k, outcome);
    }
    if i: nat :| ReplyTo(digest, before, i, k, outcome) {
      ReplyToPrefix(digest, es, i, k, outcome);
      assert ReplyTo(digest, es, i, k, outcome);
    }
  }

  lemma StepHears(digest: string -> string, s: State, e: Event, k: nat, outcome: Outcome)
    requires k < |s.calls|
    ensures Heard(Apply(digest, s, e).calls[k].stage) == Some(outcome) <==>
            Heard(s.calls[k].stage) == Some(outcome) || (e == Reply(k, outcome, e.at) && s.calls[k].stage.Asking?)
  {
  }

  lemma LastHears(digest: string -> string, es: seq<Event>, k: nat, outcome: Outcome)
    requires es != [] && k < |Run(digest, es[..|es| - 1]).calls|
    ensures k < |Run(digest, es).calls|
    ensures Heard(Run(digest, es).calls[k].stage) == Some(outcome) <==>
            Heard(Run(digest, es[..|es| - 1]).calls[k].stage) == Some(outcome)
            || ReplyTo(digest, es, |es| - 1, k, outcome)
  {
    StepHears(digest, Run(digest, es[..|es| - 1]), es[|es| - 1], k, outcome);
  }

  lemma NewCallHearsNothing(digest: string -> string, es: seq<Event>, k: nat, outcome: Outcome)
    requires es != [] && |Run(digest, es[..|es| - 1]).calls| <= k < |Run(digest, es).calls|
    ensures Heard(Run(digest, es).calls[k].stage).None? && !ReplyTo(digest, es, |es| - 1, k, outcome)
    ensures !WasSent(digest, es[..|es| - 1], k, outcome)
  {
    var before := es[..|es| - 1];
    if i: nat :| ReplyTo(digest, before, i, k, outcome) {
      CallsStay(digest, before, i, k);
    }
  }

  /** A call takes an upstream outcome for its own exactly when it was sent it. */
  lemma {:induction false} HeardIff(digest: string -> string, es: seq<Event>, k: nat, outcome: Outcome)
    requires k < |Run(digest, es).calls|
    ensures Heard(Run(digest, es).calls[k].stage) == Some(outcome) <==> WasSent(digest, es, k, outcome)
  {
    RepliesGrow(digest, es, k, outcome);
    if k < |Run(digest, es[..|es| - 1]).calls| {
      HeardIff(digest, es[..|es| - 1], k, outcome);
      LastHears(digest, es, k, outcome);
    } else {
      NewCallHearsNothing(digest, es, k, outcome);
    }
  }

  /** Event `j` stored, under this key, what call `k` had been answered by event `i`. */
  predicate Stored(digest: string -> string, es: seq<Event>, key: string, entry: Entry, k: nat, i: nat, j: nat) {
    && k < |Run(digest, es).calls| && KeyOf(digest, Run(digest, es).calls[k]) == key && i < j
    && ReplyTo(digest, es, i, k, Answer(entry.success)) && StoreBy(digest, es, j, k, entry.success, entry.timestamp)
  }

  lemma StoredStays(digest: string -> string, es: seq<Event>, key: string, entry: Entry, k: nat, i: nat, j: nat)
    requires es != [] && Stored(digest, es[..|es| - 1], key, entry, k, i, j)
    ensures Stored(digest, es, key, entry, k, i, j)
  {
    CallsStay(digest, es, |es| - 1, k);
    assert es[..|es| - 1][..i] == es[..i] && es[..|es| - 1][..j] == es[..j];
  }

  lemma LastStores(digest: string -> string, es: seq<Event>, k: nat, success: bool, at: int) returns (i: nat)
    requires es != [] && StoreBy(digest, es, |es| - 1, k, success, at)
    ensures Stored(digest, es, KeyOf(digest, Run(digest, es).calls[k]), Entry(success, at), k, i, |es| - 1)
  {
    CallsStay(digest, es, |es| - 1, k);
    HeardIff(digest, es[..|es| - 1], k, Answer(success));
    i :| ReplyTo(digest, es[..|es| - 1], i, k, Answer(success));
    ReplyToPrefix(digest, es, i, k, Answer(success));
  }

  /** Only the store of a held answer changes an entry. */
  lemma EntryChanges(digest: string -> string, s: State, e: Event, key: string)
    requires key in Apply(digest, s, e).cache
    ensures (key in s.cache && Apply(digest, s, e).cache[key] == s.cache[key])
            || (&& e.Store? && e.call < |s.calls| && s.calls[e.call].stage.Answered?
                && KeyOf(digest, s.calls[e.call]) == key
                && Apply(digest, s, e).cache[key] == Entry(s.calls[e.call].stage.success, e.at))
  {
  }

  /** Errors are never stored: every entry holds what some call with that key had been answered, and
      carries the time of that call's store. */
  lemma {:induction false} CacheHoldsReplies(digest: string -> string, es: seq<Event>, key: string)
    returns (k: nat, i: nat, j: nat)
    requires key in Run(digest, es).cache
    ensures Stored(digest, es, key, Run(digest, es).cache[key], k, i, j)
  {
    var before, e := es[..|es| - 1], es[|es| - 1];
    var s := Run(digest, before);
    EntryChanges(digest, s, e, key);
    if key in s.cache && Run(digest, es).cache[key] == s.cache[key] {
      k, i, j := CacheHoldsReplies(digest, before, key);
      StoredStays(digest, es, key, s.cache[key], k, i, j);
    } else {
      k, j := e.call, |before|;
      CallsStay(digest, es, |before|, k);
      i := LastStores(digest, es, k, s.calls[k].stage.success, e.at);
    }
  }

  predicate FromCache(call: Call) { call.stage.Returned? && !call.stage.own }

  lemma {:induction false} CallsBegin(digest: string -> string, es: seq<Event>, k: nat) returns (m: nat)
    requires k < |Run(digest, es).calls|
    ensures var call := Run(digest, es).calls[k];
            && BeginOf(digest, es, m, k, call.token, call.ip, call.at)
            && var cache, key := Run(digest, es[..m]).cache, KeyOf(digest, call);
               && (FromCache(call) <==> Hit(cache, key, call.at))
               && (FromCache(call) ==> call.stage.result == Ok(cache[key].success))
  {
    var before := es[..|es| - 1];
    if k < |Run(digest, before).calls| {
      m := CallsBegin(digest, before, k);
      assert before[..m] == es[..m];
    } else {
      m := |before|;
    }
  }

  // ---- main results ----------------------------------------------------------------------

  /** Call `k`, begun by event `m`, returned the answer that call `w` got from event `i` and stored in
      event `j`, less than five minutes before call `k` looked. */
  ghost predicate AnsweredBy(digest: string -> string, es: seq<Event>, k: nat, w: nat, i: nat, j: nat, m: nat) {
    && w < k < |Run(digest, es).calls| && i < j < m < |es|
    && var call := Run(digest, es).calls[k];
    && call.stage.Returned? && call.stage.result.Ok?
    && ReplyTo(digest, es, i, w, Answer(call.stage.result.value))
    && StoreBy(digest, es, j, w, call.stage.result.value, es[j].at)
    && BeginOf(digest, es, m, k, call.token, call.ip, call.at)
    && 0 <= call.at - es[j].at < TTL
  }

  /** In every interleaving a cached answer is one that an earlier call with the same key text had from
      upstream, stored less than five minutes before. */
  lemma CachedAnswersAreRecent(digest: string -> string, es: seq<Event>, k: nat)
    returns (w: nat, i: nat, j: nat, m: nat)
    requires Injective(digest) && Clocked(es)
    requires k < |Run(digest, es).calls| && FromCache(Run(digest, es).calls[k])
    ensures AnsweredBy(digest, es, k, w, i, j, m)
    ensures var calls := Run(digest, es).calls;
            KeyText(calls[w].token, calls[w].ip) == KeyText(calls[k].token, calls[k].ip)
  {
    m := CallsBegin(digest, es, k);
    var call := Run(digest, es).calls[k];
    w, i, j := CacheHoldsReplies(digest, es[..m], KeyOf(digest, call));
    assert es[..m][..i] == es[..i] && es[..m][..j] == es[..j];
    CallsStay(digest, es, m, w);
  }

  /** Event `j` stored an answer under this key text. */
  predicate Stores(digest: string -> string, es: seq<Event>, j: nat, text: string) {
    j < |es| && es[j].Store? && StoringCall(digest, es, j).Some?
    && KeyText(StoringCall(digest, es, j).value.token, StoringCall(digest, es, j).value.ip) == text
  }

  /** The call whose answer event `j` stores. */
  function StoringCall(digest: string -> string, es: seq<Event>, j: nat): Option<Call>
    requires j < |es| && es[j].Store?
  {
    var calls, k := Run(digest, es[..j]).calls, es[j].call;
    if k < |calls| && calls[k].stage.Answered? then Some(calls[k]) else None
  }

  function StoredEntry(digest: string -> string, es: seq<Event>, j: nat, text: string): Entry
    requires Stores(digest, es, j, text)
  {
    Entry(StoringCall(digest, es, j).value.stage.success, es[j].at)
  }

  /** Nothing was stored under this key text after event `j`. */
  ghost predicate IsLastStore(digest: string -> string, es: seq<Event>, j: nat, text: string) {
    Stores(digest, es, j, text) && forall i :: j < i < |es| ==> !Stores(digest, es, i, text)
  }

  ghost predicate HasStore(digest: string -> string, es: seq<Event>, text: string) {
    exists j: nat :: IsLastStore(digest, es, j, text)
  }

  lemma StoresPrefix(digest: string -> string, es: seq<Event>, j: nat, text: string)
    requires es != [] && j < |es| - 1
    ensures Stores(digest, es, j, text) <==> Stores(digest, es[..|es| - 1], j, text)
    ensures Stores(digest, es, j, text) ==>
              StoredEntry(digest, es, j, text) == StoredEntry(digest, es[..|es| - 1], j, text)
  {
    assert es[..|es| - 1][..j] == es[..j];
  }

  lemma StoreStep(digest: string -> string, s: State, e: Event, text: string)
    requires Injective(digest)
    ensures var after, key := Apply(digest, s, e).cache, digest(text);
            if e.Store? && e.call < |s.calls| && s.calls[e.call].stage.Answered?
               && KeyText(s.calls[e.call].token, s.calls[e.call].ip) == text
            then key in after && after[key] == Entry(s.calls[e.call].stage.success, e.at)
            else (key in after <==> key in s.cache) && (key in s.cache ==> after[key] == s.cache[key])
  {
  }

  /** The last event either stores under the key text, or leaves its entry alone. */
  lemma LastStep(digest: string -> string, es: seq<Event>, text: string)
    requires Injective(digest) && es != []
    ensures var before, after, key := Run(digest, es[..|es| - 1]).cache, Run(digest, es).cache, digest(text);
            if Stores(digest, es, |es| - 1, text)
            then key in after && after[key] == StoredEntry(digest, es, |es| - 1, text)
            else (key in after <==> key in before) && (key in before ==> after[key] == before[key])
  {
    StoreStep(digest, Run(digest, es[..|es| - 1]), es[|es| - 1], text);
  }

  /** The cache is the record of the last stores: an entry is what was last stored under its key text. */
  lemma {:induction false} CacheIsLastStore(digest: string -> string, es: seq<Event>, text: string)
    requires Injective(digest)
    ensures digest(text) in Run(digest, es).cache <==> HasStore(digest, es, text)
    ensures forall j: nat {:trigger IsLastStore(digest, es, j, text)} :: IsLastStore(digest, es, j, text) ==>
              digest(text) in Run(digest, es).cache
              && Run(digest, es).cache[digest(text)] == StoredEntry(digest, es, j, text)
  {
    if es != [] {
      var before, last := es[..|es| - 1], |es| - 1;
      CacheIsLastStore(digest, before, text);
      LastStep(digest, es, text);
      forall j: nat | IsLastStore(digest, es, j, text)
        ensures digest(text) in Run(digest, es).cache
        ensures Run(digest, es).cache[digest(text)] == StoredEntry(digest, es, j, text)
      {
        LastStoreMoves(digest, es, j, text);
        if j < last { StoresPrefix(digest, es, j, text); }
      }
      if Stores(digest, es, last, text) {
        assert IsLastStore(digest, es, last, text);
      } else if j: nat :| IsLastStore(digest, before, j, text) {
        LastStoreMoves(digest, es, j, text);
      }
    }
  }

  lemma LastStoreMoves(digest: string -> string, es: seq<Event>, j: nat, text: string)
    requires es != []
    ensures IsLastStore(digest, es, j, text) <==>
            if Stores(digest, es, |es| - 1, text) then j == |es| - 1
            else IsLastStore(digest, es[..|es| - 1], j, text)
  {
    var before, last := es[..|es| - 1], |es| - 1;
    forall i: nat | i < last ensures Stores(digest, es, i, text) <==> Stores(digest, before, i, text) {
      StoresPrefix(digest, es, i, text);
    }
    if IsLastStore(digest, before, j, text) {
      forall i | j < i < |es| && i != last ensures !Stores(digest, es, i, text) {
        assert !Stores(digest, before, i, text);
      }
    }
    if IsLastStore(digest, es, j, text) && j < last {
      forall i | j < i < last ensures !Stores(digest, before, i, text) {
        assert !Stores(digest, es, i, text);
      }
    }
  }

  /** A call is answered from the cache exactly when an answer for its key text was stored less than five
      minutes before, and then with the one stored last; otherwise the remote service is asked. */
  lemma {:induction false} FromCacheIff(digest: string -> string, es: seq<Event>, k: nat, m: nat)
    requires Injective(digest) && k < |Run(digest, es).calls|
    requires var call := Run(digest, es).calls[k]; BeginOf(digest, es, m, k, call.token, call.ip, call.at)
    ensures var call := Run(digest, es).calls[k];
            var text := KeyText(call.token, call.ip);
            && (FromCache(call) <==> exists j: nat :: IsLastStore(digest, es[..m], j, text)
                                                      && call.at - es[j].at < 300_000_000_000)
            && (FromCache(call) ==> forall j: nat :: IsLastStore(digest, es[..m], j, text) ==>
                  call.stage.result == Ok(StoredEntry(digest, es[..m], j, text).success))
  {
    var call := Run(digest, es).calls[k];
    var n := CallsBegin(digest, es, k);
    BeginsOnce(digest, es, m, n);
    CacheIsLastStore(digest, es[..m], KeyText(call.token, call.ip));
  }

  lemma {:induction false} CallsGrow(digest: string -> string, es: seq<Event>, i: nat, j: nat)
    requires i <= j <= |es|
    ensures |Run(digest, es[..i]).calls| <= |Run(digest, es[..j]).calls|
  {
    if i < j {
      CallsGrow(digest, es, i, j - 1);
      assert es[..j][..j - 1] == es[..j - 1];
    }
  }

  lemma BeginsOnce(digest: string -> string, es: seq<Event>, m: nat, n: nat)
    requires m < |es| && n < |es| && es[m].Begin? && es[n].Begin?
    requires |Run(digest, es[..m]).calls| == |Run(digest, es[..n]).calls|
    ensures m == n
  {
    BeginAddsCall(digest, es, m);
    BeginAddsCall(digest, es, n);
    if m < n {
      CallsGrow(digest, es, m + 1, n);
    } else if n < m {
      CallsGrow(digest, es, n + 1, m);
    }
  }

  lemma BeginAddsCall(digest: string -> string, es: seq<Event>, m: nat)
    requires m < |es| && es[m].Begin?
    ensures |Run(digest, es[..m + 1]).calls| == |Run(digest, es[..m]).calls| + 1
  {
    assert es[..m + 1][..m] == es[..m];
  }

  /** Every Begin in the run is of an allowed token and address. */
  ghost predicate Uses(allowed: (string, string) -> bool, es: seq<Event>) {
    forall i :: 0 <= i < |es| && es[i].Begin? ==> allowed(es[i].token, es[i].ip)
  }

  /** Every cached answer was stored for the very same token and address. */
  ghost predicate SameRequestOnly(digest: string -> string, es: seq<Event>) {
    var calls := Run(digest, es).calls;
    forall k: nat :: k < |calls| && FromCache(calls[k]) ==> SameRequest(digest, es, k)
  }

  ghost predicate SameRequest(digest: string -> string, es: seq<Event>, k: nat)
    requires k < |Run(digest, es).calls|
  {
    var calls := Run(digest, es).calls;
    exists w: nat, i: nat, j: nat, m: nat :: AnsweredBy(digest, es, k, w, i, j, m)
                         && calls[w].token == calls[k].token && calls[w].ip == calls[k].ip
  }

  /** No two allowed requests share a key text. */
  ghost predicate KeysApart(allowed: (string, string) -> bool) {
    forall t1, ip1, t2, ip2 {:trigger allowed(t1, ip1), allowed(t2, ip2)} ::
      allowed(t1, ip1) && allowed(t2, ip2) && KeyText(t1, ip1) == KeyText(t2, ip2) ==> t1 == t2 && ip1 == ip2
  }

  lemma ApartRunsAreOwn(digest: string -> string, allowed: (string, string) -> bool, es: seq<Event>)
    requires Injective(digest) && KeysApart(allowed) && Clocked(es) && Uses(allowed, es)
    ensures SameRequestOnly(digest, es)
  {
    var calls := Run(digest, es).calls;
    forall k: nat | k < |calls| && FromCache(calls[k]) ensures SameRequest(digest, es, k) {
      var w, i, j, m := CachedAnswersAreRecent(digest, es, k);
      var n := CallsBegin(digest, es, w);
      assert allowed(calls[w].token, calls[w].ip) && allowed(calls[k].token, calls[k].ip);
    }
  }

  /** The run in which a request is answered with what another, sharing its key, was told. */
  function Confusion(t1: string, ip1: string, t2: string, ip2: string, success: bool): seq<Event> {
    [Begin(t1, ip1, 0), Reply(0, Answer(success), 0), Store(0, 0), Begin(t2, ip2, 0)]
  }

  lemma ConfusionRun(digest: string -> string, t1: string, ip1: string, t2: string, ip2: string, success: bool)
    requires KeyText(t1, ip1) == KeyText(t2, ip2)
    ensures var es := Confusion(t1, ip1, t2, ip2, success);
            && Run(digest, es[..1]).calls == [Call(t1, ip1, 0, Asking)]
            && Run(digest, es).calls == [Call(t1, ip1, 0, Returned(Ok(success), true)),
                                         Call(t2, ip2, 0, Returned(Ok(success), false))]
  {
    var es := Confusion(t1, ip1, t2, ip2, success);
    RunStep(digest, es, 0);
    RunStep(digest, es, 1);
    RunStep(digest, es, 2);
    RunStep(digest, es, 3);
    assert es[..4] == es;
  }

  lemma RunStep(digest: string -> string, es: seq<Event>, i: nat)
    requires i < |es|
    ensures Run(digest, es[..i + 1]) == Apply(digest, Run(digest, es[..i]), es[i])
  {
    assert es[..i + 1][..i] == es[..i];
  }

  lemma ConfusionIsForeign(digest: string -> string, t1: string, ip1: string, t2: string, ip2: string)
    requires KeyText(t1, ip1) == KeyText(t2, ip2) && !(t1 == t2 && ip1 == ip2)
    ensures var es := Confusion(t1, ip1, t2, ip2, true); Clocked(es) && !SameRequestOnly(digest, es)
  {
    var es := Confusion(t1, ip1, t2, ip2, true);
    ConfusionRun(digest, t1, ip1, t2, ip2, true);
    assert FromCache(Run(digest, es).calls[1]) && !SameRequest(digest, es, 1);
  }

  /** Cached answers are the requester's own in every run over the allowed requests, exactly when no
      two allowed requests share a key text. */
  lemma {:induction false} CachedAnswersAreOwnIff(digest: string -> string, allowed: (string, string) -> bool)
    requires Injective(digest)
    ensures (forall es :: Clocked(es) && Uses(allowed, es) ==> SameRequestOnly(digest, es)) <==> KeysApart(allowed)
  {
    if KeysApart(allowed) {
      forall es | Clocked(es) && Uses(allowed, es) ensures SameRequestOnly(digest, es) {
        ApartRunsAreOwn(digest, allowed, es);
      }
    } else {
      var t1, ip1, t2, ip2 :| && allowed(t1, ip1) && allowed(t2, ip2) && KeyText(t1, ip1) == KeyText(t2, ip2)
                              && !(t1 == t2 && ip1 == ip2);
      var es := Confusion(t1, ip1, t2, ip2, true);
      ConfusionIsForeign(digest, t1, ip1, t2, ip2);
      assert Uses(allowed, es);
    }
  }

  /** Colon-free tokens are enough, whatever the addresses contain. */
  lemma {:induction false} CachedAnswersForColonFreeTokens(digest: string -> string, es: seq<Event>)
    requires Injective(digest) && Clocked(es)
    requires forall i :: 0 <= i < |es| && es[i].Begin? ==> ':' !in es[i].token
    ensures SameRequestOnly(digest, es)
  {
    var allowed := (token: string, ip: string) => ':' !in token;
    assert KeysApart(allowed) by {
      forall t1, ip1, t2, ip2 | allowed(t1, ip1) && allowed(t2, ip2) && KeyText(t1, ip1) == KeyText(t2, ip2)
        ensures t1 == t2 && ip1 == ip2
      {
        ColonFreeTokensKeepKeysApart(t1, ip1, t2, ip2);
      }
    }
    ApartRunsAreOwn(digest, allowed, es);
  }

  /** Entries are only ever replaced by newer ones. */
  lemma TimestampsNeverDecrease(digest: string -> string, es: seq<Event>, e: Event, key: string)
    requires Clocked(es + [e]) && key in Run(digest, es).cache
    ensures key in Run(digest, es + [e]).cache
    ensures Run(digest, es).cache[key].timestamp <= Run(digest, es + [e]).cache[key].timestamp
  {
    var all := es + [e];
    RunAppend(digest, es, e);
    var k, i, j := CacheHoldsReplies(digest, es, key);
    assert all[j].at <= all[|es|].at;
  }

  // ---- transparency ----------------------------------------------------------------------

  /** The remote service always answers `truth` for a given token and address, or fails. */
  ghost predicate Steady(digest: string -> string, truth: (string, string) -> bool, es: seq<Event>) {
    forall i :: 0 <= i < |es| && es[i].Reply? ==> SteadyReply(Run(digest, es[..i]), truth, es[i])
  }

  predicate SteadyReply(s: State, truth: (string, string) -> bool, e: Event)
    requires e.Reply?
  {
    e.call < |s.calls| && e.outcome.Answer? ==> e.outcome.success == truth(s.calls[e.call].token, s.calls[e.call].ip)
  }

  ghost predicate AllTrue(truth: (string, string) -> bool, s: State) {
    forall k :: 0 <= k < |s.calls| ==> TrueCall(truth, s.calls[k])
  }

  predicate TrueCall(truth: (string, string) -> bool, call: Call) {
    match call.stage
    case Asking => true
    case Answered(success) => success == truth(call.token, call.ip)
    case Returned(result, _) => result.Err? || result.value == truth(call.token, call.ip)
  }

  /** Requests that share a key text deserve the same answer. */
  ghost predicate RespectsKeys(truth: (string, string) -> bool) {
    forall t1, ip1, t2, ip2 {:trigger truth(t1, ip1), truth(t2, ip2)} ::
      KeyText(t1, ip1) == KeyText(t2, ip2) ==> truth(t1, ip1) == truth(t2, ip2)
  }

  lemma StepKeepsTrue(digest: string -> string, truth: (string, string) -> bool, es: seq<Event>, e: Event)
    requires Injective(digest) && RespectsKeys(truth) && AllTrue(truth, Run(digest, es))
    requires e.Reply? ==> SteadyReply(Run(digest, es), truth, e)
    ensures AllTrue(truth, Apply(digest, Run(digest, es), e))
  {
    var s, s' := Run(digest, es), Apply(digest, Run(digest, es), e);
    forall k | 0 <= k < |s'.calls| ensures TrueCall(truth, s'.calls[k]) {
      if k < |s.calls| {
        assert TrueCall(truth, s.calls[k]);
      } else if e.Begin? && s'.calls[k].stage.Returned? {
        var key := KeyOf(digest, s'.calls[k]);
        var w, i, j := CacheHoldsReplies(digest, es, key);
        HeardIff(digest, es, w, Answer(s.cache[key].success));
        assert TrueCall(truth, s.calls[w]);
        assert truth(s.calls[w].token, s.calls[w].ip) == truth(e.token, e.ip);
      }
    }
  }

  lemma {:induction false} RunKeepsTrue(digest: string -> string, truth: (string, string) -> bool, es: seq<Event>)
    requires Injective(digest) && RespectsKeys(truth) && Steady(digest, truth, es)
    ensures AllTrue(truth, Run(digest, es))
  {
    if es != [] {
      var before := es[..|es| - 1];
      assert Steady(digest, truth, before) by {
        forall i | 0 <= i < |before| && before[i].Reply?
          ensures SteadyReply(Run(digest, before[..i]), truth, before[i])
        {
          assert before[..i] == es[..i] && before[i] == es[i];
        }
      }
      RunKeepsTrue(digest, truth, before);
      StepKeepsTrue(digest, truth, before, es[|es| - 1]);
    }
  }

  lemma ConfusionIsWrong(digest: string -> string, truth: (string, string) -> bool,
                         t1: string, ip1: string, t2: string, ip2: string)
    requires KeyText(t1, ip1) == KeyText(t2, ip2) && truth(t1, ip1) != truth(t2, ip2)
    ensures var es := Confusion(t1, ip1, t2, ip2, truth(t1, ip1));
            Clocked(es) && Steady(digest, truth, es) && !AllTrue(truth, Run(digest, es))
  {
    var es := Confusion(t1, ip1, t2, ip2, truth(t1, ip1));
    ConfusionRun(digest, t1, ip1, t2, ip2, truth(t1, ip1));
    assert SteadyReply(Run(digest, es[..1]), truth, es[1]);
    assert !TrueCall(truth, Run(digest, es).calls[1]);
  }

  /** The cache is transparent in every run, for a steady service, exactly when requests that share
      a key text deserve the same answer. */
  lemma {:induction false} TransparentIff(digest: string -> string, truth: (string, string) -> bool)
    requires Injective(digest)
    ensures (forall es :: Clocked(es) && Steady(digest, truth, es) ==> AllTrue(truth, Run(digest, es)))
            <==> RespectsKeys(truth)
  {
    if RespectsKeys(truth) {
      forall es | Clocked(es) && Steady(digest, truth, es) ensures AllTrue(truth, Run(digest, es)) {
        RunKeepsTrue(digest, truth, es);
      }
    } else {
      var t1, ip1, t2, ip2 :| KeyText(t1, ip1) == KeyText(t2, ip2) && truth(t1, ip1) != truth(t2, ip2);
      ConfusionIsWrong(digest, truth, t1, ip1, t2, ip2);
    }
  }

  /** What the service answers for the request that a key text reads as, split at its first colon. */
  function ByKey(truth: (string, string) -> bool): (string, string) -> bool {
    (t, ip) => var key := KeyText(t, ip); truth(key[..FirstColon(key)], key[FirstColon(key) + 1..])
  }

  function FirstColon(s: string): (n: nat)
    requires ':' in s
    ensures n < |s| && s[n] == ':' && ':' !in s[..n]
  {
    if s[0] == ':' then 0
    else
      var n := 1 + FirstColon(s[1..]);
      assert s[..n] == [s[0]] + s[1..][..n - 1];
      n
  }

  lemma {:induction false} FirstColonOfKey(t: string, ip: string)
    requires ':' !in t
    ensures FirstColon(KeyText(t, ip)) == |t|
  {
    if t != [] {
      assert KeyText(t, ip)[1..] == KeyText(t[1..], ip);
      FirstColonOfKey(t[1..], ip);
    }
  }

  lemma ByKeyAgrees(truth: (string, string) -> bool, t: string, ip: string)
    requires ':' !in t
    ensures ByKey(truth)(t, ip) == truth(t, ip)
  {
    var key := KeyText(t, ip);
    FirstColonOfKey(t, ip);
    assert key[..|t|] == t && key[|t| + 1..] == ip;
  }

  /** For colon-free tokens the cache is transparent whatever a steady service answers. */
  lemma {:induction false} TransparentForColonFreeTokens(digest: string -> string, truth: (string, string) -> bool,
                                                         es: seq<Event>)
    requires Injective(digest) && Steady(digest, truth, es)
    requires forall i :: 0 <= i < |es| && es[i].Begin? ==> ':' !in es[i].token
    ensures AllTrue(truth, Run(digest, es))
  {
    var byKey := ByKey(truth);
    assert Steady(digest, byKey, es) by {
      forall i | 0 <= i < |es| && es[i].Reply? ensures SteadyReply(Run(digest, es[..i]), byKey, es[i]) {
        assert SteadyReply(Run(digest, es[..i]), truth, es[i]);
        var calls := Run(digest, es[..i]).calls;
        if es[i].call < |calls| {
          var m := CallsBegin(digest, es[..i], es[i].call);
          ByKeyAgrees(truth, calls[es[i].call].token, calls[es[i].call].ip);
        }
      }
    }
    RunKeepsTrue(digest, byKey, es);
    forall k | 0 <= k < |Run(digest, es).calls| ensures TrueCall(truth, Run(digest, es).calls[k]) {
      var call := Run(digest, es).calls[k];
      assert TrueCall(byKey, call);
      var m := CallsBegin(digest, es, k);
      ByKeyAgrees(truth, call.token, call.ip);
    }
  }
}
