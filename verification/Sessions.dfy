/** The admin session table of internal/auth/session.go: entries expire lazily on validation and in
    bulk on the sweeper's tick. */
module Sessions {
  import opened Wrappers

  /** Tokens with the last instant at which each is still accepted. */
  type Table = map<string, int>

  function Created(ttl: int, t: Table, token: string, now: int): Table { t[token := now + ttl] }

  function Validated(t: Table, token: string, now: int): (Table, bool) {
    if token !in t then (t, false)
    else if now > t[token] then (t - {token}, false)
    else (t, true)
  }

  function Swept(t: Table, now: int): Table {
    map token | token in t && now <= t[token] :: t[token]
  }

  class SessionManager {
    const ttl: int
    var sessions: Table

    constructor (ttl: int)
      ensures this.ttl == ttl && sessions == map[]
    {
      this.ttl, sessions := ttl, map[];
    }

    /** `drawn` is the random token, or an error when the random source fails. */
    method CreateSession(drawn: Result<string>, now: int) returns (token: Result<string>)
      modifies this
      ensures token == drawn
      ensures sessions == if drawn.Err? then old(sessions) else Created(ttl, old(sessions), drawn.value, now)
    {
      if drawn.Err? {
        return Err;
      }
      sessions := sessions[drawn.value := now + ttl];
      token := drawn;
    }

    method DeleteSession(token: string)
      modifies this
      ensures sessions == old(sessions) - {token}
    {
      sessions := sessions - {token};
    }

    method ValidateSession(token: string, now: int) returns (ok: bool)
      modifies this
      ensures (sessions, ok) == Validated(old(sessions), token, now)
    {
      if token !in sessions {
        return false;
      }
      if now > sessions[token] {
        sessions := sessions - {token};
        return false;
      }
      return true;
    }

    method Sweep(now: int)
      modifies this
      ensures sessions == Swept(old(sessions), now)
    {
      var todo := sessions.Keys;
      while todo != {}
        invariant sessions.Keys <= old(sessions).Keys && todo <= sessions.Keys
        invariant forall k :: k in sessions ==> sessions[k] == old(sessions)[k]
        invariant forall k :: k in old(sessions) && k !in todo ==> (k in sessions <==> now <= old(sessions)[k])
        decreases |todo|
      {
        var token :| token in todo;
        todo := todo - {token};
        if now > sessions[token] {
          sessions := sessions - {token};
        }
      }
    }
  }

  // ---- runs ------------------------------------------------------------------------------

  datatype Event =
    | Create(token: string, at: int)
    | Delete(token: string, at: int)
    | Validate(token: string, at: int)
    | Sweep(at: int)

  function Apply(ttl: int, t: Table, e: Event): Table {
    match e
    case Create(token, at) => Created(ttl, t, token, at)
    case Delete(token, _) => t - {token}
    case Validate(token, at) => Validated(t, token, at).0
    case Sweep(at) => Swept(t, at)
  }

  function Run(ttl: int, es: seq<Event>): Table {
    if es == [] then map[] else Apply(ttl, Run(ttl, es[..|es| - 1]), es[|es| - 1])
  }

  predicate Monotone(es: seq<Event>) {
    forall i, j :: 0 <= i < j < |es| ==> es[i].at <= es[j].at
  }

  predicate Writes(e: Event, token: string) {
    (e.Create? || e.Delete?) && e.token == token
  }

  /** Event `i` created `token`, and no later event created or deleted it. */
  predicate LiveFrom(es: seq<Event>, token: string, i: nat) {
    i < |es| && es[i].Create? && es[i].token == token && forall j :: i < j < |es| ==> !Writes(es[j], token)
  }

  /** The table-free specification: created, not deleted since, and not past its time. */
  ghost predicate Accepted(ttl: int, es: seq<Event>, token: string, t: int) {
    exists i: nat :: LiveFrom(es, token, i) && t <= es[i].at + ttl
  }

  /** The table lacks only what the history never wrote or what is already past its time. */
  ghost predicate Agrees(ttl: int, t: Table, es: seq<Event>, token: string) {
    && (token in t ==> exists i: nat :: LiveFrom(es, token, i) && t[token] == es[i].at + ttl)
    && (token !in t ==> forall i: nat :: LiveFrom(es, token, i) ==> es[i].at + ttl < es[|es| - 1].at)
  }

  lemma LiveFromIsUnique(es: seq<Event>, token: string, i: nat, j: nat)
    requires LiveFrom(es, token, i) && LiveFrom(es, token, j)
    ensures i == j
  {
    assert Writes(es[i], token) && Writes(es[j], token);
  }

  lemma LiveFromExtends(es: seq<Event>, e: Event, token: string, i: nat)
    requires i < |es|
    ensures LiveFrom(es + [e], token, i) <==> LiveFrom(es, token, i) && !Writes(e, token)
  {
    assert forall j :: 0 <= j < |es| ==> (es + [e])[j] == es[j];
    if LiveFrom(es + [e], token, i) {
      assert !Writes((es + [e])[|es|], token);
      forall j | i < j < |es| ensures !Writes(es[j], token) {
        assert !Writes((es + [e])[j], token);
      }
    }
  }

  lemma StepAgrees(ttl: int, t: Table, es: seq<Event>, e: Event, token: string)
    requires Monotone(es + [e]) && Agrees(ttl, t, es, token)
    ensures Agrees(ttl, Apply(ttl, t, e), es + [e], token)
  {
    var all, t' := es + [e], Apply(ttl, t, e);
    assert all[|all| - 1] == e;
    forall i: nat | i < |es| ensures LiveFrom(all, token, i) <==> LiveFrom(es, token, i) && !Writes(e, token) {
      LiveFromExtends(es, e, token, i);
    }
    if es != [] {
      assert all[|es| - 1].at <= all[|es|].at;
    }
    if token in t' {
      if e.Create? && e.token == token {
        assert LiveFrom(all, token, |es|);
      } else {
        var i: nat :| LiveFrom(es, token, i) && t[token] == es[i].at + ttl;
        assert LiveFrom(all, token, i);
      }
    } else {
      forall i: nat | LiveFrom(all, token, i) ensures all[i].at + ttl < e.at {
        assert i < |es|;
        if token in t {
          var k: nat :| LiveFrom(es, token, k) && t[token] == es[k].at + ttl;
          LiveFromIsUnique(es, token, i, k);
        }
      }
    }
  }

  lemma {:induction false} RunAgrees(ttl: int, es: seq<Event>, token: string)
    requires Monotone(es)
    ensures Agrees(ttl, Run(ttl, es), es, token)
  {
    if es != [] {
      var before := es[..|es| - 1];
      assert es == before + [es[|es| - 1]];
      RunAgrees(ttl, before, token);
      StepAgrees(ttl, Run(ttl, before), before, es[|es| - 1], token);
    }
  }

  // ---- main results ----------------------------------------------------------------------

  /** Wherever sweeps and validations fall, validation answers what the history says. */
  lemma {:induction false} ValidationMatchesHistory(ttl: int, es: seq<Event>, token: string, t: int)
    requires Monotone(es) && (es != [] ==> es[|es| - 1].at <= t)
    ensures Validated(Run(ttl, es), token, t).1 <==> Accepted(ttl, es, token, t)
  {
    RunAgrees(ttl, es, token);
    var table := Run(ttl, es);
    if token in table {
      var i: nat :| LiveFrom(es, token, i) && table[token] == es[i].at + ttl;
      forall j: nat | LiveFrom(es, token, j) ensures j == i { LiveFromIsUnique(es, token, i, j); }
    }
  }

  /** A validation forgets the token it refuses for its age, and no other. */
  lemma ValidationForgets(t: Table, token: string, now: int, other: string)
    ensures var t' := Validated(t, token, now).0;
            && (other in t' <==> other in t && (other == token ==> now <= t[other]))
            && (other in t' ==> t'[other] == t[other])
  {
  }

  /** Tokens are drawn afresh: no two creations share one. */
  predicate Fresh(es: seq<Event>) {
    forall i, j :: 0 <= i < j < |es| && es[i].Create? && es[j].Create? ==> es[i].token != es[j].token
  }

  /** A created token that is refused once is refused ever after. */
  lemma {:induction false} RefusedStaysRefused(ttl: int, es: seq<Event>, more: seq<Event>, token: string, t: int,
                                               u: int, k: nat)
    requires Monotone(es + more) && Fresh(es + more)
    requires k < |es| && es[k].Create? && es[k].token == token
    requires (es != [] ==> es[|es| - 1].at <= t) && (more != [] ==> more[|more| - 1].at <= u) && t <= u
    requires !Validated(Run(ttl, es), token, t).1
    ensures !Validated(Run(ttl, es + more), token, u).1
  {
    var all := es + more;
    assert Monotone(es) by { assert forall i :: 0 <= i < |es| ==> es[i] == all[i]; }
    ValidationMatchesHistory(ttl, es, token, t);
    ValidationMatchesHistory(ttl, all, token, u);
    if Accepted(ttl, all, token, u) {
      var i: nat :| LiveFrom(all, token, i) && u <= all[i].at + ttl;
      assert all[k] == es[k] && i == k;
      assert LiveFrom(es, token, i) by {
        forall j | i < j < |es| ensures !Writes(es[j], token) { assert all[j] == es[j]; }
      }
      assert false;
    }
  }
}
