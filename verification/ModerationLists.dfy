/** Lists that are read while other requests write: what happens between COUNT and SELECT. */
module ModerationLists {
  import opened Comments
  import opened Listing
  import opened Service
  import opened Moderation
  import opened ModerationRows
  import Pagination

  /** The table after these writes. */
  function Replay(t: Table, effects: seq<Effect>): Table {
    if effects == [] then t else Perform(Replay(t, effects[..|effects| - 1]), effects[|effects| - 1].write)
  }

  function One(b: bool): int { if b then 1 else 0 }

  /** How many more rows the query wants after the write. */
  function Gain(t: Table, q: Query, w: Write): int {
    match w
    case Insert(draft, _) => One(Wanted(q, draft))
    case Name(_, _, _) => 0
    case Approve(id, approved, _) =>
      if id in t.rows then One(Wanted(q, t.rows[id].(approved := approved))) - One(Wanted(q, t.rows[id])) else 0
    case Remove(id) => if id in t.rows then 0 - One(Wanted(q, t.rows[id])) else 0
  }

  /** The net gain of all the writes, each on the table it finds. */
  function Gains(t: Table, q: Query, effects: seq<Effect>): int {
    if effects == [] then 0
    else
      var before := effects[..|effects| - 1];
      Gains(t, q, before) + Gain(Replay(t, before), q, effects[|effects| - 1].write)
  }

  lemma IdsAfter(t: Table, q: Query, w: Write)
    requires t.Valid()
    ensures var id := if w.Insert? then t.lastId + 1 else w.id;
            var t' := Perform(t, w);
            && (id !in Ids(t, q) && id !in Ids(t', q) ==> Ids(t', q) == Ids(t, q))
            && (id in Ids(t, q) && id in Ids(t', q) ==> Ids(t', q) == Ids(t, q))
            && (id !in Ids(t, q) && id in Ids(t', q) ==> Ids(t', q) == Ids(t, q) + {id})
            && (id in Ids(t, q) && id !in Ids(t', q) ==> Ids(t', q) == Ids(t, q) - {id})
  {
    var id := if w.Insert? then t.lastId + 1 else w.id;
    forall other | other != id ensures other in Ids(Perform(t, w), q) <==> other in Ids(t, q) {}
  }

  lemma PerformGains(t: Table, q: Query, w: Write)
    requires t.Valid()
    ensures Count(Perform(t, w), q) == Count(t, q) + Gain(t, q, w)
  {
    IdsAfter(t, q, w);
  }

  lemma {:induction false} ReplayGains(t: Table, q: Query, effects: seq<Effect>)
    requires t.Valid()
    ensures Replay(t, effects).Valid() && Count(Replay(t, effects), q) == Count(t, q) + Gains(t, q, effects)
  {
    if effects != [] {
      var before, w := effects[..|effects| - 1], effects[|effects| - 1].write;
      ReplayGains(t, q, before);
      PerformKeepsValid(Replay(t, before), w);
      PerformGains(Replay(t, before), q, w);
    }
  }

  /** What has been written since the log was `n` long. */
  function WrittenSince(s: State, n: nat): seq<Effect>
    requires n <= |s.log|
  {
    s.log[n..]
  }

  /** The later table is the earlier one and what was written in between. */
  ghost predicate Replays(s: State, s': State) {
    |s.log| <= |s'.log| && s'.table == Replay(s.table, WrittenSince(s', |s.log|))
  }

  lemma NothingReplays(s: State)
    ensures Replays(s, s)
  {
    assert WrittenSince(s, |s.log|) == [];
  }

  lemma StepReplays(env: Env, s: State, s1: State, s2: State)
    requires Replays(s, s1) && Logs(env, s1, s2)
    ensures Replays(s, s2)
  {
    if s2.log != s1.log {
      var effects := WrittenSince(s2, |s.log|);
      assert effects[..|effects| - 1] == WrittenSince(s1, |s.log|);
    }
  }

  lemma RunLogs(env: Env, es: seq<Event>, e: Event, all: seq<Event>)
    requires all == es + [e]
    ensures Logs(env, Run(env, es), Run(env, all))
  {
    Extend(env, es, e);
    StepLogs(env, Run(env, es), e);
  }

  lemma {:induction false} RunReplays(env: Env, es: seq<Event>, more: seq<Event>)
    ensures Replays(Run(env, es), Run(env, es + more))
    decreases |more|
  {
    if more == [] {
      assert es + more == es;
      NothingReplays(Run(env, es));
    } else {
      var before, e := es + more[..|more| - 1], more[|more| - 1];
      RunReplays(env, es, more[..|more| - 1]);
      assert es + more == before + [e];
      RunLogs(env, before, e, es + more);
      StepReplays(env, Run(env, es), Run(env, before), Run(env, es + more));
    }
  }

  lemma {:induction false} RunTableIsValid(env: Env, es: seq<Event>)
    ensures Run(env, es).table.Valid()
  {
    RunReplays(env, [], es);
    assert [] + es == es;
    ReplayGains(EMPTY, Query(false, "", false), WrittenSince(Run(env, es), 0));
  }

  /** In any run: the total counted at one instant matches the size of every page selected at a later one
      exactly when the writes that took effect in between gain the query as many rows as they cost it. */
  lemma {:induction false} PagesMatchTotalInRunIff(env: Env, es: seq<Event>, more: seq<Event>, q: Query,
                                                   tie: int -> int, perPage: int)
    requires Injective(tie)
    requires Count(Run(env, es).table, q) < Pagination.TWO53 && Count(Run(env, es + more).table, q) < Pagination.TWO53
    ensures var s, s', n := Run(env, es), Run(env, es + more), Pagination.ClampPerPage(perPage);
            && |s.log| <= |s'.log|
            && ((forall page :: Pagination.OffsetFitsInt64(page, n) ==>
                   |Pagination.PageOf(Select(s'.table, q, tie), page, n)|
                   == Pagination.PageSize(Count(s.table, q), page, n))
                <==> Gains(s.table, q, WrittenSince(s', |s.log|)) == 0)
  {
    var s, s' := Run(env, es), Run(env, es + more);
    RunTableIsValid(env, es);
    RunTableIsValid(env, es + more);
    RunReplays(env, es, more);
    ReplayGains(s.table, q, WrittenSince(s', |s.log|));
    PagesMatchTotalIff(s.table, s'.table, q, tie, perPage);
  }
}
