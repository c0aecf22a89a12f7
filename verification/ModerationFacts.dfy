/** What every interleaving keeps: ids, display ids, approval flags and served text. */
module ModerationFacts {
  import opened Wrappers
  import opened Comments
  import opened Service
  import opened Moderation
  import Listing
  import Sanitizer
  import Text

  /** The display-id library: injective and never empty. */
  ghost predicate GoodGenerator(env: Env) {
    && (forall id: int {:trigger env.generate(id)} :: env.generate(id).Ok? ==> env.generate(id).value != "")
    && (forall a: int, b: int {:trigger env.generate(a), env.generate(b)} ::
          env.generate(a).Ok? && env.generate(a) == env.generate(b) ==> a == b)
  }

  /** The request behind each INSERT that took effect; entry `i` is the creator of id `i + 1`. */
  function Creators(log: seq<Effect>): seq<nat> {
    if log == [] then []
    else
      var e := log[|log| - 1];
      Creators(log[..|log| - 1]) + if e.write.Insert? then [e.thread] else []
  }

  /** How many times the approval flag of `id` has been written. */
  function Flips(log: seq<Effect>, id: int): nat {
    if log == [] then 0
    else
      var w := log[|log| - 1].write;
      Flips(log[..|log| - 1], id) + if w.Approve? && w.id == id then 1 else 0
  }

  lemma LogGrows(log: seq<Effect>, e: Effect, id: int)
    ensures Creators(log + [e]) == Creators(log) + if e.write.Insert? then [e.thread] else []
    ensures Flips(log + [e], id) == Flips(log, id) + if e.write.Approve? && e.write.id == id then 1 else 0
  {
    assert (log + [e])[..|log|] == log;
  }

  // ---- the invariant ---------------------------------------------------------------------

  /** The failures that leave a row behind without a display id: the INSERT is reported as failed
      although it ran, or the id cannot be generated, or the UPDATE does not run. */
  predicate LeavesUnnamed(env: Env, op: Op, id: int) {
    && op.Create? && op.captcha.Passed?
    && (op.insert.Unreported? || (op.insert.Fine? && (env.generate(id).Err? || op.name.Lost?)))
  }

  predicate HasFailed(stage: Stage) {
    stage == Returning(Failed(Internal)) || stage == Done(Failed(Internal))
  }

  /** The creator of `id` is about to name it, or failed in a way that leaves it unnamed. */
  predicate Unnamed(env: Env, s: State, id: int) {
    var creators := Creators(s.log);
    && 1 <= id <= |creators| && creators[id - 1] < |s.threads|
    && var th := s.threads[creators[id - 1]];
       th.stage == Inserted(id) || (HasFailed(th.stage) && LeavesUnnamed(env, th.op, id))
  }

  ghost predicate RowOk(env: Env, s: State, id: int)
    requires id in s.table.rows
  {
    var row := s.table.rows[id];
    && (row.displayId == "" || env.generate(id) == Ok(row.displayId))
    && (row.displayId == "" ==> Unnamed(env, s, id))
    && row.approved == (Flips(s.log, id) % 2 == 1)
    && Text.NUL !in row.author && Text.NUL !in row.body
  }

  ghost predicate TableOk(env: Env, s: State) {
    && s.table.Valid() && |Creators(s.log)| == s.table.lastId
    && (forall id :: s.table.lastId < id ==> Flips(s.log, id) == 0)
    && (forall id :: id in s.table.rows ==> RowOk(env, s, id))
  }

  /** What the request holding the lock relies on from one step to the next. */
  ghost predicate HolderOk(env: Env, s: State, k: nat, op: Op, stage: Stage) {
    match stage
    case Inserted(id) =>
      1 <= id == s.table.lastId == |Creators(s.log)| && id in s.table.rows && !s.table.rows[id].approved
      && Creators(s.log)[id - 1] == k && op.Create? && op.insert.Fine? && IsOwn(env, op, s.table.rows[id])
    case Named(id) =>
      id in s.table.rows && IsNewborn(env, s.table.rows[id]) && s.table.rows[id].id == id
      && IsOwn(env, op, s.table.rows[id])
    case Found(row) => IsNewborn(env, row) && IsOwn(env, op, row)
    case Read(approved) => op.Toggle? && op.id in s.table.rows && approved == !s.table.rows[op.id].approved
    case Flipped =>
      op.Toggle? && op.id in s.table.rows && Effect(k, Approve(op.id, s.table.rows[op.id].approved, op.at)) in s.log
    case Returning(reply) => ReplyOk(env, s, k, op, reply)
    case _ => true
  }

  predicate IsNewborn(env: Env, row: Comment) {
    env.generate(row.id) == Ok(row.displayId) && !row.approved
  }

  /** The row holds what its author sent, sanitized once. */
  predicate IsOwn(env: Env, op: Op, row: Comment) {
    && op.Create? && row.postId == op.input.postId
    && row.author == Sanitizer.Sanitize(env.stages, op.input.author)
    && row.body == Sanitizer.Sanitize(env.stages, op.input.body)
  }

  /** The response is the author's own comment, sanitized twice, named and unapproved. */
  predicate IsOwnResponse(env: Env, input: Input, r: Response) {
    && r.postId == input.postId && r.author == Sanitizer.Served(env.stages, input.author)
    && r.body == Sanitizer.Served(env.stages, input.body)
    && env.generate(r.id) == Ok(r.displayId) && !r.approved
  }

  /** A successful Create returns its own comment; a successful Toggle returns the value it wrote. */
  ghost predicate ReplyOk(env: Env, s: State, k: nat, op: Op, reply: Reply) {
    reply.Success? ==>
      && (op.Create? ==> IsOwnResponse(env, op.input, reply.response))
      && (op.Toggle? ==> reply.response.id == op.id &&
                         Effect(k, Approve(op.id, reply.response.approved, op.at)) in s.log)
  }

  ghost predicate ThreadsOk(env: Env, s: State) {
    forall k :: 0 <= k < |s.threads| ==> ThreadOk(env, s, k)
  }

  ghost predicate ThreadOk(env: Env, s: State, k: nat)
    requires k < |s.threads|
  {
    var th := s.threads[k];
    if th.stage.Done? then ReplyOk(env, s, k, th.op, th.stage.reply)
    else InSection(th.stage) ==> HolderOk(env, s, k, th.op, th.stage)
  }

  ghost predicate FactsInv(env: Env, s: State) {
    LockOk(s) && TableOk(env, s) && ThreadsOk(env, s)
  }

  // ---- one write inside the lock -----------------------------------------------------------

  lemma UnnamedSurvives(env: Env, s: State, s': State, k: nat, stage: Stage, id: int)
    requires k < |s.threads| && s'.threads == s.threads[k := s.threads[k].(stage := stage)]
    requires Creators(s.log) <= Creators(s'.log) && Unnamed(env, s, id)
    requires Creators(s.log)[id - 1] == k ==> HasFailed(stage) && LeavesUnnamed(env, s.threads[k].op, id)
    ensures Unnamed(env, s', id)
  {
    assert Creators(s'.log)[id - 1] == Creators(s.log)[id - 1];
  }

  /** Thread `k` moved to `stage`; row `id` and its flag history did not change. */
  lemma RowUntouched(env: Env, s: State, s': State, k: nat, stage: Stage, id: int)
    requires k < |s.threads| && s'.threads == s.threads[k := s.threads[k].(stage := stage)]
    requires id in s.table.rows && RowOk(env, s, id)
    requires id in s'.table.rows && s'.table.rows[id] == s.table.rows[id]
    requires Creators(s.log) <= Creators(s'.log) && Flips(s'.log, id) == Flips(s.log, id)
    requires s.threads[k].stage == Inserted(id) ==> HasFailed(stage) && LeavesUnnamed(env, s.threads[k].op, id)
    requires HasFailed(s.threads[k].stage) ==> HasFailed(stage)
    requires !s.threads[k].stage.Done?
    ensures RowOk(env, s', id)
  {
    if s.table.rows[id].displayId == "" {
      UnnamedSurvives(env, s, s', k, stage, id);
    }
  }

  /** A section step that sends a write which takes effect. */
  ghost predicate Writes(env: Env, s: State, k: nat, w: Write) {
    k < |s.threads| && Effects(env, s.table, k, s.threads[k].op, s.threads[k].stage) == [Effect(k, w)]
  }

  lemma WriteStep(env: Env, s: State, k: nat, w: Write, id: int)
    requires Writes(env, s, k, w)
    ensures var s' := SectionStep(env, s, k);
            && s'.table == Perform(s.table, w) && Hits(s.table, w) && s'.log == s.log + [Effect(k, w)]
            && Creators(s'.log) == Creators(s.log) + (if w.Insert? then [k] else [])
            && Flips(s'.log, id) == Flips(s.log, id) + (if w.Approve? && w.id == id then 1 else 0)
  {
    LogGrows(s.log, Effect(k, w), id);
  }

  lemma QuietStep(env: Env, s: State, k: nat)
    requires k < |s.threads| && Effects(env, s.table, k, s.threads[k].op, s.threads[k].stage) == []
    ensures SectionStep(env, s, k).table == s.table && SectionStep(env, s, k).log == s.log
  {
    assert s.log + [] == s.log;
  }

  /** A section step by `k`, from a state where everything holds. */
  ghost predicate InsideSection(env: Env, s: State, k: nat) {
    && TableOk(env, s) && k < |s.threads| && ThreadOk(env, s, k)
    && Fits(s.threads[k].op, s.threads[k].stage)
    && InSection(s.threads[k].stage) && !s.threads[k].stage.Returning?
  }

  lemma QuietKeepsRow(env: Env, s: State, k: nat, id: int)
    requires InsideSection(env, s, k) && id in s.table.rows
    requires Effects(env, s.table, k, s.threads[k].op, s.threads[k].stage) == []
    ensures RowOk(env, SectionStep(env, s, k), id)
  {
    QuietStep(env, s, k);
    var s' := SectionStep(env, s, k);
    assert RowOk(env, s, id);
    RowUntouched(env, s, s', k, s'.threads[k].stage, id);
  }

  lemma InsertKeepsRow(env: Env, s: State, k: nat, w: Write, id: int)
    requires InsideSection(env, s, k) && Writes(env, s, k, w) && w.Insert?
    requires id in SectionStep(env, s, k).table.rows
    ensures RowOk(env, SectionStep(env, s, k), id)
  {
    WriteStep(env, s, k, w, id);
    var s' := SectionStep(env, s, k);
    assert s.threads[k].stage == Locked;
    if id in s.table.rows {
      assert RowOk(env, s, id);
      RowUntouched(env, s, s', k, s'.threads[k].stage, id);
    } else {
      assert id == s'.table.lastId && Creators(s'.log)[id - 1] == k;
    }
  }

  lemma NameKeepsRow(env: Env, s: State, k: nat, w: Write, id: int)
    requires GoodGenerator(env) && InsideSection(env, s, k) && Writes(env, s, k, w) && w.Name?
    requires id in SectionStep(env, s, k).table.rows
    ensures RowOk(env, SectionStep(env, s, k), id)
  {
    WriteStep(env, s, k, w, id);
    var s' := SectionStep(env, s, k);
    assert RowOk(env, s, id);
    if id != w.id {
      assert s.threads[k].stage == Inserted(w.id);
      RowUntouched(env, s, s', k, s'.threads[k].stage, id);
    }
  }

  lemma ApproveKeepsRow(env: Env, s: State, k: nat, w: Write, id: int)
    requires InsideSection(env, s, k) && Writes(env, s, k, w) && w.Approve?
    requires id in SectionStep(env, s, k).table.rows
    ensures RowOk(env, SectionStep(env, s, k), id)
  {
    WriteStep(env, s, k, w, id);
    var s' := SectionStep(env, s, k);
    assert RowOk(env, s, id);
    assert s.threads[k].stage == Read(w.approved);
    if id != w.id {
      RowUntouched(env, s, s', k, s'.threads[k].stage, id);
    } else if s.table.rows[id].displayId == "" {
      UnnamedSurvives(env, s, s', k, s'.threads[k].stage, id);
    }
  }

  lemma RemoveKeepsRow(env: Env, s: State, k: nat, w: Write, id: int)
    requires InsideSection(env, s, k) && Writes(env, s, k, w) && w.Remove?
    requires id in SectionStep(env, s, k).table.rows
    ensures RowOk(env, SectionStep(env, s, k), id)
  {
    WriteStep(env, s, k, w, id);
    var s' := SectionStep(env, s, k);
    assert RowOk(env, s, id);
    assert s.threads[k].stage == Locked;
    RowUntouched(env, s, s', k, s'.threads[k].stage, id);
  }

  lemma SectionKeepsRow(env: Env, s: State, k: nat, id: int)
    requires GoodGenerator(env) && InsideSection(env, s, k)
    requires id in SectionStep(env, s, k).table.rows
    ensures RowOk(env, SectionStep(env, s, k), id)
  {
    var effects := Effects(env, s.table, k, s.threads[k].op, s.threads[k].stage);
    if effects == [] {
      QuietStep(env, s, k);
      QuietKeepsRow(env, s, k, id);
    } else {
      var w := effects[0].write;
      match w
      case Insert(_, _) => InsertKeepsRow(env, s, k, w, id);
      case Name(_, _, _) => NameKeepsRow(env, s, k, w, id);
      case Approve(_, _, _) => ApproveKeepsRow(env, s, k, w, id);
      case Remove(_) => RemoveKeepsRow(env, s, k, w, id);
    }
  }

  lemma SectionKeepsTable(env: Env, s: State, k: nat)
    requires GoodGenerator(env) && InsideSection(env, s, k)
    ensures TableOk(env, SectionStep(env, s, k))
  {
    var s' := SectionStep(env, s, k);
    var effects := Effects(env, s.table, k, s.threads[k].op, s.threads[k].stage);
    forall id | id in s'.table.rows ensures RowOk(env, s', id) {
      SectionKeepsRow(env, s, k, id);
    }
    if effects == [] {
      QuietStep(env, s, k);
    } else {
      var w := effects[0].write;
      WriteStep(env, s, k, w, 0);
      PerformKeepsIds(s.table, w);
      PerformKeepsValid(s.table, w);
      forall id | s'.table.lastId < id ensures Flips(s'.log, id) == 0 {
        WriteStep(env, s, k, w, id);
        if w.Approve? { assert w.id in s.table.rows; }
      }
    }
  }

  lemma EffectIsLogged(log: seq<Effect>, e: Effect)
    ensures e in log + [e]
  {
    assert (log + [e])[|log|] == e;
  }

  lemma CreateWritesOn(env: Env, s: State, k: nat, w: Write)
    requires GoodGenerator(env) && InsideSection(env, s, k) && s.threads[k].op.Create? && Writes(env, s, k, w)
    ensures ThreadOk(env, SectionStep(env, s, k), k)
  {
    WriteStep(env, s, k, w, s.table.lastId + 1);
    if s.threads[k].stage.Inserted? { assert RowOk(env, s, s.threads[k].stage.id); }
  }

  lemma CreateMovesOn(env: Env, s: State, k: nat)
    requires GoodGenerator(env) && InsideSection(env, s, k) && s.threads[k].op.Create?
    ensures ThreadOk(env, SectionStep(env, s, k), k)
  {
    var effects := Effects(env, s.table, k, s.threads[k].op, s.threads[k].stage);
    if effects == [] {
      QuietStep(env, s, k);
    } else {
      CreateWritesOn(env, s, k, effects[0].write);
    }
  }

  lemma ToggleMovesOn(env: Env, s: State, k: nat)
    requires InsideSection(env, s, k) && s.threads[k].op.Toggle?
    ensures ThreadOk(env, SectionStep(env, s, k), k)
  {
    var op, stage := s.threads[k].op, s.threads[k].stage;
    var effects := Effects(env, s.table, k, op, stage);
    if effects == [] {
      QuietStep(env, s, k);
    } else {
      WriteStep(env, s, k, effects[0].write, op.id);
      EffectIsLogged(s.log, effects[0]);
    }
  }

  lemma SectionKeepsThreads(env: Env, s: State, k: nat)
    requires GoodGenerator(env) && FactsInv(env, s) && InsideSection(env, s, k)
    ensures ThreadsOk(env, SectionStep(env, s, k))
  {
    var s' := SectionStep(env, s, k);
    if s.threads[k].op.Create? {
      CreateMovesOn(env, s, k);
    } else if s.threads[k].op.Toggle? {
      ToggleMovesOn(env, s, k);
    } else {
      assert ThreadOk(env, s', k);
    }
    forall j | 0 <= j < |s'.threads| ensures ThreadOk(env, s', j) {
      if j != k { assert ThreadOk(env, s, j) && s'.threads[j] == s.threads[j]; }
    }
  }

  /** A step that does not run inside the section. */
  predicate Outside(s: State, e: Event) {
    e.Step? && e.thread < |s.threads| ==> !InSection(s.threads[e.thread].stage) || s.threads[e.thread].stage.Returning?
  }

  lemma OutsideFrame(env: Env, s: State, e: Event)
    requires Outside(s, e)
    ensures var s' := Apply(env, s, e);
            && s'.table == s.table && s'.log == s.log
            && (s'.threads == s.threads
                || (e.Spawn? && |s'.threads| == |s.threads| + 1 && s'.threads[..|s.threads|] == s.threads
                    && !InSection(s'.threads[|s.threads|].stage) && !s'.threads[|s.threads|].stage.Done?)
                || (e.Step? && e.thread < |s.threads| && !s.threads[e.thread].stage.Done?
                    && s'.threads == s.threads[e.thread := s.threads[e.thread].(stage := s'.threads[e.thread].stage)]))
  {
  }

  lemma OutsideKeepsRow(env: Env, s: State, e: Event, id: int)
    requires Outside(s, e) && id in s.table.rows && RowOk(env, s, id)
    ensures Apply(env, s, e).table == s.table && RowOk(env, Apply(env, s, e), id)
  {
    var s' := Apply(env, s, e);
    OutsideFrame(env, s, e);
    if e.Step? && s'.threads != s.threads {
      RowUntouched(env, s, s', e.thread, s'.threads[e.thread].stage, id);
    }
  }

  lemma OutsideKeepsThread(env: Env, s: State, e: Event, j: nat)
    requires Outside(s, e) && j < |Apply(env, s, e).threads| && (j < |s.threads| ==> ThreadOk(env, s, j))
    ensures ThreadOk(env, Apply(env, s, e), j)
  {
    OutsideFrame(env, s, e);
  }

  lemma OutsideKeepsFacts(env: Env, s: State, e: Event)
    requires TableOk(env, s) && ThreadsOk(env, s) && Outside(s, e)
    ensures TableOk(env, Apply(env, s, e)) && ThreadsOk(env, Apply(env, s, e))
  {
    var s' := Apply(env, s, e);
    OutsideFrame(env, s, e);
    forall id | id in s'.table.rows ensures RowOk(env, s', id) {
      OutsideKeepsRow(env, s, e, id);
    }
    forall j | 0 <= j < |s'.threads| ensures ThreadOk(env, s', j) {
      assert j < |s.threads| ==> ThreadOk(env, s, j);
      OutsideKeepsThread(env, s, e, j);
    }
  }

  lemma {:induction false} RunKeepsFacts(env: Env, es: seq<Event>)
    requires GoodGenerator(env)
    ensures FactsInv(env, Run(env, es))
  {
    if es != [] {
      var s, e := Run(env, es[..|es| - 1]), es[|es| - 1];
      RunKeepsFacts(env, es[..|es| - 1]);
      StepKeepsLock(env, s, e);
      if !Outside(s, e) {
        assert ThreadOk(env, s, e.thread);
        SectionKeepsTable(env, s, e.thread);
        SectionKeepsThreads(env, s, e.thread);
      } else {
        OutsideKeepsFacts(env, s, e);
      }
    }
  }

  // ---- main results ----------------------------------------------------------------------

  /** No toggle is lost: in every interleaving a live comment is approved exactly when its flag
      has been written an odd number of times since it was created unapproved. */
  lemma ApprovedIsParity(env: Env, es: seq<Event>, id: int)
    requires GoodGenerator(env) && id in Run(env, es).table.rows
    ensures Run(env, es).table.rows[id].approved <==> Flips(Run(env, es).log, id) % 2 == 1
  {
    RunKeepsFacts(env, es);
    assert RowOk(env, Run(env, es), id);
  }

  /** A successful ToggleApproval returns the value it wrote; a successful Create returns its own
      comment, sanitized twice, named and unapproved. */
  lemma RepliesTellTheTruth(env: Env, es: seq<Event>, k: nat)
    requires GoodGenerator(env) && k < |Run(env, es).threads|
    requires var stage := Run(env, es).threads[k].stage; stage.Done? && stage.reply.Success?
    ensures var s := Run(env, es);
            var op, response := s.threads[k].op, s.threads[k].stage.reply.response;
            && (op.Toggle? ==> response.id == op.id && Effect(k, Approve(op.id, response.approved, op.at)) in s.log)
            && (op.Create? ==> IsOwnResponse(env, op.input, response))
  {
    RunKeepsFacts(env, es);
    assert ThreadOk(env, Run(env, es), k);
  }

  lemma StepKeepsIds(env: Env, s: State, e: Event, id: int)
    ensures s.table.lastId <= Apply(env, s, e).table.lastId
    ensures id <= s.table.lastId && id !in s.table.rows ==> id !in Apply(env, s, e).table.rows
  {
    if !Outside(s, e) {
      var effects := Effects(env, s.table, e.thread, s.threads[e.thread].op, s.threads[e.thread].stage);
      if effects == [] {
        QuietStep(env, s, e.thread);
      } else {
        WriteStep(env, s, e.thread, effects[0].write, id);
        PerformKeepsIds(s.table, effects[0].write);
      }
    } else {
      OutsideFrame(env, s, e);
    }
  }

  /** Ids only grow, and one that has been used and deleted never comes back. */
  lemma {:induction false} IdsAreNeverReused(env: Env, es: seq<Event>, more: seq<Event>, id: int)
    ensures Run(env, es).table.lastId <= Run(env, es + more).table.lastId
    ensures id <= Run(env, es).table.lastId && id !in Run(env, es).table.rows ==> id !in Run(env, es + more).table.rows
    decreases |more|
  {
    if more == [] {
      assert es + more == es;
    } else {
      var before := more[..|more| - 1];
      assert (es + more)[..|es + more| - 1] == es + before;
      IdsAreNeverReused(env, es, before, id);
      StepKeepsIds(env, Run(env, es + before), more[|more| - 1], id);
    }
  }

  /** The request that created `id` failed, and in a way that leaves the row without display id. */
  predicate CreateFailed(env: Env, s: State, id: int) {
    var creators := Creators(s.log);
    && 1 <= id <= |creators| && creators[id - 1] < |s.threads|
    && HasFailed(s.threads[creators[id - 1]].stage) && LeavesUnnamed(env, s.threads[creators[id - 1]].op, id)
  }

  /** While no request holds the lock, a row carries its generated display id, or none because its
      Create failed; display ids that are there are pairwise distinct. */
  lemma DisplayIdsWhenFree(env: Env, es: seq<Event>, a: int, b: int)
    requires GoodGenerator(env) && Run(env, es).lock.Free?
    requires a in Run(env, es).table.rows && b in Run(env, es).table.rows
    ensures var s := Run(env, es);
            var name := s.table.rows[a].displayId;
            && (name != "" ==> env.generate(a) == Ok(name))
            && (name == "" ==> CreateFailed(env, s, a))
            && (a != b && name != "" ==> name != s.table.rows[b].displayId)
  {
    RunKeepsFacts(env, es);
    var s := Run(env, es);
    assert RowOk(env, s, a) && RowOk(env, s, b);
    if s.table.rows[a].displayId == "" {
      assert !InSection(s.threads[Creators(s.log)[a - 1]].stage);
    }
  }

  /** A creator that is about to name its row holds a hidden row. */
  lemma ApprovedUnnamedFailed(env: Env, s: State, id: int)
    requires TableOk(env, s) && ThreadsOk(env, s)
    requires id in s.table.rows && s.table.rows[id].approved && s.table.rows[id].displayId == ""
    ensures CreateFailed(env, s, id)
  {
    assert RowOk(env, s, id);
    var k := Creators(s.log)[id - 1];
    assert ThreadOk(env, s, k);
    assert s.threads[k].stage != Inserted(id);
  }

  /** A comment the public can see is named, unless its Create failed and left it unnamed. */
  lemma PublicRowIsNamedUnlessCreateFailed(env: Env, es: seq<Event>, id: int)
    requires GoodGenerator(env) && id in Run(env, es).table.rows && Run(env, es).table.rows[id].approved
    requires Run(env, es).table.rows[id].displayId == ""
    ensures CreateFailed(env, Run(env, es), id)
  {
    RunKeepsFacts(env, es);
    ApprovedUnnamedFailed(env, Run(env, es), id);
  }

  /** Every request in the run is of an allowed kind. */
  ghost predicate Uses(allowed: Op -> bool, es: seq<Event>) {
    forall i :: 0 <= i < |es| && es[i].Spawn? ==> allowed(es[i].op)
  }

  /** No public read, by id or through any page of any list, shows a comment without display id. */
  ghost predicate PublicIsNamed(t: Table) {
    && (forall id, fails :: FindByIDApproved(t, id, fails).Ok? ==> FindByIDApproved(t, id, fails).value.displayId != "")
    && (forall q: Listing.Query, tie: int -> int, c {:trigger c in Listing.Select(t, q, tie)} ::
          q.approvedOnly && Listing.Injective(tie) && c in Listing.Select(t, q, tie) ==> c.displayId != "")
  }

  lemma {:induction false} ThreadsComeFromEvents(env: Env, allowed: Op -> bool, es: seq<Event>, k: nat)
    requires Uses(allowed, es) && k < |Run(env, es).threads|
    ensures allowed(Run(env, es).threads[k].op)
  {
    if es != [] {
      var before := es[..|es| - 1];
      if k < |Run(env, before).threads| {
        ThreadsComeFromEvents(env, allowed, before, k);
      } else {
        assert es[|es| - 1].Spawn?;
      }
    }
  }

  /** No allowed request can fail between its INSERT and the naming of the row it inserted. */
  ghost predicate NeverLeavesUnnamed(env: Env, allowed: Op -> bool) {
    forall op, id :: allowed(op) && id >= 1 ==> !LeavesUnnamed(env, op, id)
  }

  lemma SafeRunsAreNamed(env: Env, allowed: Op -> bool, es: seq<Event>)
    requires GoodGenerator(env) && Uses(allowed, es)
    requires NeverLeavesUnnamed(env, allowed)
    ensures PublicIsNamed(Run(env, es).table)
  {
    RunKeepsFacts(env, es);
    var s := Run(env, es);
    forall id | id in s.table.rows && s.table.rows[id].approved ensures s.table.rows[id].displayId != "" {
      if s.table.rows[id].displayId == "" {
        PublicRowIsNamedUnlessCreateFailed(env, es, id);
        var k := Creators(s.log)[id - 1];
        ThreadsComeFromEvents(env, allowed, es, k);
      }
    }
    forall q: Listing.Query, tie: int -> int, c
      | q.approvedOnly && Listing.Injective(tie) && c in Listing.Select(s.table, q, tie)
      ensures c.displayId != ""
    {
      Listing.SelectSpec(s.table, q, tie);
    }
  }

  // ---- the run in which an unnamed comment becomes public --------------------------------

  function Flip(id: int): Op { Toggle(id, 0, false, Fine, false) }

  lemma CreateTakesAnId(env: Env, t: Table, op: Op)
    requires op.Create? && !op.insert.Lost?
    ensures Atomic(env, t, op).0.lastId == t.lastId + 1
  {
    FinishInsert(env, t, op);
    if op.insert.Fine? {
      var after := Exec(t, Insert(Draft(env, op.input), op.insertAt), op.insert).0;
      NamingKeepsIds(env, after, op, after.lastId);
    }
  }

  lemma NamingKeepsIds(env: Env, t: Table, op: Op, id: int)
    requires op.Create?
    ensures Finish(env, t, op, Inserted(id)).0.lastId == t.lastId
  {
    FinishName(env, t, op, id);
    if env.generate(id).Ok? {
      var after := Exec(t, Name(id, env.generate(id).value, op.nameAt), op.name).0;
      FinishFind(env, after, op, id);
    }
  }

  /** A hidden row without display id. */
  predicate HiddenUnnamed(t: Table, id: int) {
    id in t.rows && t.rows[id].displayId == "" && !t.rows[id].approved
  }

  lemma FailingCreate(env: Env, t: Table, op: Op)
    requires LeavesUnnamed(env, op, t.lastId + 1)
    ensures Atomic(env, t, op).1 == Failed(Internal) && HiddenUnnamed(Atomic(env, t, op).0, t.lastId + 1)
  {
    FinishInsert(env, t, op);
    if op.insert.Fine? {
      FinishName(env, Exec(t, Insert(Draft(env, op.input), op.insertAt), op.insert).0, op, t.lastId + 1);
    }
  }

  lemma FlipApproves(env: Env, t: Table, id: int)
    requires id in t.rows
    ensures var t' := Atomic(env, t, Flip(id)).0;
            id in t'.rows && t'.rows[id].approved == !t.rows[id].approved
            && t'.rows[id].displayId == t.rows[id].displayId
  {
    var approved := !t.rows[id].approved;
    FinishStep(env, t, Flip(id), Locked);
    FinishStep(env, t, Flip(id), Read(approved));
    FinishStep(env, Perform(t, Approve(id, approved, 0)), Flip(id), Flipped);
  }

  lemma {:induction false} SpawnAndRun(env: Env, es: seq<Event>, op: Op) returns (more: seq<Event>)
    requires Run(env, es).lock.Free? && (op.Create? ==> op.captcha.Passed?)
    ensures forall i :: 0 <= i < |more| && more[i].Spawn? ==> more[i].op == op
    ensures var s, s' := Run(env, es), Run(env, es + more);
            s'.lock.Free? && s'.table == Atomic(env, s.table, op).0
  {
    Extend(env, es, Spawn(op));
    var rest := RunAlone(env, es + [Spawn(op)], |Run(env, es).threads|);
    more := [Spawn(op)] + rest;
    assert es + more == es + [Spawn(op)] + rest;
  }

  /** Runs `op` to reach a table with what its uninterrupted section is known to achieve. */
  lemma {:induction false} SpawnTo(env: Env, es: seq<Event>, op: Op, goal: Table -> bool) returns (all: seq<Event>)
    requires Run(env, es).lock.Free? && (op.Create? ==> op.captcha.Passed?)
    requires goal(Atomic(env, Run(env, es).table, op).0)
    ensures forall i :: 0 <= i < |all| && all[i].Spawn? ==> all[i].op == op || (i < |es| && all[i] == es[i])
    ensures Run(env, all).lock.Free? && goal(Run(env, all).table)
  {
    var more := SpawnAndRun(env, es, op);
    all := es + more;
  }

  /** `n` requests like `op`, one after the other, use up the first `n` ids. */
  lemma {:induction false} UseUpIds(env: Env, op: Op, n: nat) returns (es: seq<Event>)
    requires op.Create? && op.captcha.Passed? && !op.insert.Lost?
    ensures forall i :: 0 <= i < |es| && es[i].Spawn? ==> es[i].op == op
    ensures Run(env, es).lock.Free? && Run(env, es).table.lastId == n
  {
    es := [];
    if n > 0 {
      es := UseUpIds(env, op, n - 1);
      CreateTakesAnId(env, Run(env, es).table, op);
      es := SpawnTo(env, es, op, (t: Table) => t.lastId == n);
    }
  }

  lemma {:induction false} CreateUnnamed(env: Env, op: Op, id: nat) returns (es: seq<Event>)
    requires id >= 1 && LeavesUnnamed(env, op, id)
    ensures forall i :: 0 <= i < |es| && es[i].Spawn? ==> es[i].op == op
    ensures Run(env, es).lock.Free? && HiddenUnnamed(Run(env, es).table, id)
  {
    var before := UseUpIds(env, op, id - 1);
    FailingCreate(env, Run(env, before).table, op);
    es := SpawnTo(env, before, op, t => HiddenUnnamed(t, id));
  }

  lemma FlipShows(env: Env, t: Table, id: int)
    requires HiddenUnnamed(t, id)
    ensures !PublicIsNamed(Atomic(env, t, Flip(id)).0)
  {
    FlipApproves(env, t, id);
    var t' := Atomic(env, t, Flip(id)).0;
    assert FindByIDApproved(t', id, false).Ok? && FindByIDApproved(t', id, false).value.displayId == "";
  }

  /** The run that makes row `id` public without a display id. */
  lemma {:induction false} FailingCreateShows(env: Env, op: Op, id: nat) returns (es: seq<Event>)
    requires id >= 1 && LeavesUnnamed(env, op, id)
    ensures forall i :: 0 <= i < |es| && es[i].Spawn? ==> es[i].op == op || es[i].op == Flip(id)
    ensures !PublicIsNamed(Run(env, es).table)
  {
    var created := CreateUnnamed(env, op, id);
    FlipShows(env, Run(env, created).table, id);
    es := SpawnTo(env, created, Flip(id), t => !PublicIsNamed(t));
  }

  /** Public reads show only named comments, in every run over the allowed requests, exactly when no
      allowed Create can fail after its INSERT took effect and before its display id is set. */
  lemma PublicReadsAreNamedIff(env: Env, allowed: Op -> bool)
    requires GoodGenerator(env) && forall id {:trigger Flip(id)} :: allowed(Flip(id))
    ensures (forall es :: Uses(allowed, es) ==> PublicIsNamed(Run(env, es).table)) <==> NeverLeavesUnnamed(env, allowed)
  {
    if NeverLeavesUnnamed(env, allowed) {
      forall es | Uses(allowed, es) ensures PublicIsNamed(Run(env, es).table) {
        SafeRunsAreNamed(env, allowed, es);
      }
    } else {
      var op, id: nat :| allowed(op) && id >= 1 && LeavesUnnamed(env, op, id);
      var es := FailingCreateShows(env, op, id);
      assert Uses(allowed, es);
    }
  }

  /** Every comment any read can return is served as clean text. */
  lemma {:induction false} ServedTextIsClean(env: Env, es: seq<Event>, id: int)
    requires GoodGenerator(env) && Sanitizer.AddsNoNul(env.stages) && id in Run(env, es).table.rows
    ensures var response := MapToResponse(env, Run(env, es).table.rows[id]);
            Sanitizer.Clean(response.author) && Sanitizer.Clean(response.body)
  {
    RunKeepsFacts(env, es);
    assert RowOk(env, Run(env, es), id);
    var row := Run(env, es).table.rows[id];
    Sanitizer.SanitizedIsClean(env.stages, row.author);
    Sanitizer.SanitizedIsClean(env.stages, row.body);
  }
}
