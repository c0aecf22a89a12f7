/** What every stored comment and every answer is, told by the log of writes and the requests behind it. */
module ModerationRows {
  import opened Wrappers
  import opened Comments
  import opened Service
  import opened Moderation
  import opened ModerationFacts
  import Sanitizer

  // ---- every write is what its request asks for ----------------------------------------------

  predicate Asks(env: Env, op: Op, w: Write) {
    match w
    case Insert(d, at) =>
      && op.Create? && at == op.insertAt && d.postId == op.input.postId
      && d.author == Sanitizer.Sanitize(env.stages, op.input.author)
      && d.body == Sanitizer.Sanitize(env.stages, op.input.body)
      && !d.approved && d.ip == op.input.ip && d.userAgent == op.input.userAgent && d.captchaVerified
    case Name(id, name, at) => op.Create? && at == op.nameAt && env.generate(id) == Ok(name)
    case Approve(id, _, at) => op.Toggle? && id == op.id && at == op.at
    case Remove(id) => op.Delete? && id == op.id
  }

  /** One step: nothing is written, or one write takes effect, on behalf of a request that asks for it. */
  ghost predicate Logs(env: Env, s: State, s': State) {
    && |s.threads| <= |s'.threads| && (forall k :: 0 <= k < |s.threads| ==> s'.threads[k].op == s.threads[k].op)
    && if |s'.log| == |s.log| then s'.log == s.log && s'.table == s.table
       else
         && |s'.log| == |s.log| + 1 && s'.log[..|s.log|] == s.log
         && var e := s'.log[|s.log|];
         && Hits(s.table, e.write) && s'.table == Perform(s.table, e.write)
         && e.thread < |s.threads| && Asks(env, s.threads[e.thread].op, e.write)
  }

  lemma EffectIsAsked(env: Env, s: State, k: nat, w: Write)
    requires Writes(env, s, k, w)
    ensures Asks(env, s.threads[k].op, w)
  {
  }

  lemma SectionLogs(env: Env, s: State, k: nat)
    requires k < |s.threads|
    ensures Logs(env, s, SectionStep(env, s, k))
  {
    var effects := Effects(env, s.table, k, s.threads[k].op, s.threads[k].stage);
    if effects == [] {
      QuietStep(env, s, k);
    } else {
      WriteStep(env, s, k, effects[0].write, 0);
      EffectIsAsked(env, s, k, effects[0].write);
    }
  }

  lemma StepLogs(env: Env, s: State, e: Event)
    ensures Logs(env, s, Apply(env, s, e))
  {
    if !Outside(s, e) {
      SectionLogs(env, s, e.thread);
    } else {
      OutsideFrame(env, s, e);
    }
  }

  // ---- rows told by the log ------------------------------------------------------------------

  /** The request that created `id`. */
  function Creator(s: State, id: int): Op
    requires HasCreator(s, id)
  {
    s.threads[Creators(s.log)[id - 1]].op
  }

  predicate HasCreator(s: State, id: int) {
    && 1 <= id <= |Creators(s.log)| && Creators(s.log)[id - 1] < |s.threads|
    && s.threads[Creators(s.log)[id - 1]].op.Create?
  }

  /** The flag as last written, hidden at first. */
  function Flag(log: seq<Effect>, id: int): bool {
    if log == [] then false
    else
      var w := log[|log| - 1].write;
      if w.Approve? && w.id == id then w.approved else Flag(log[..|log| - 1], id)
  }

  /** The display id as last written, empty at first. */
  function NameOf(log: seq<Effect>, id: int): string {
    if log == [] then ""
    else
      var w := log[|log| - 1].write;
      if w.Name? && w.id == id then w.displayId else NameOf(log[..|log| - 1], id)
  }

  /** When the row was last written. */
  function Touched(log: seq<Effect>, id: int): int {
    if log == [] then 0
    else
      var w := log[|log| - 1].write;
      if w.Insert? && |Creators(log)| == id then w.at
      else if (w.Name? || w.Approve?) && w.id == id then w.at
      else Touched(log[..|log| - 1], id)
  }

  predicate Removed(log: seq<Effect>, id: int) {
    if log == [] then false
    else log[|log| - 1].write == Remove(id) || Removed(log[..|log| - 1], id)
  }

  /** The row that the log and the creating request describe. */
  function Described(env: Env, s: State, id: int): Comment
    requires HasCreator(s, id)
  {
    var op := Creator(s, id);
    Comment(id, NameOf(s.log, id), op.input.postId, Sanitizer.Sanitize(env.stages, op.input.author),
            Sanitizer.Sanitize(env.stages, op.input.body), Flag(s.log, id), op.input.ip, op.input.userAgent, true,
            op.insertAt, Touched(s.log, id))
  }

  lemma HistoryGrows(log: seq<Effect>, e: Effect, id: int)
    ensures Creators(log + [e]) == Creators(log) + if e.write.Insert? then [e.thread] else []
    ensures Flag(log + [e], id) == if e.write.Approve? && e.write.id == id then e.write.approved else Flag(log, id)
    ensures NameOf(log + [e], id) == if e.write.Name? && e.write.id == id then e.write.displayId else NameOf(log, id)
    ensures Removed(log + [e], id) <==> e.write == Remove(id) || Removed(log, id)
    ensures Touched(log + [e], id) ==
            if e.write.Insert? && |Creators(log)| + 1 == id then e.write.at
            else if (e.write.Name? || e.write.Approve?) && e.write.id == id then e.write.at
            else Touched(log, id)
  {
    assert (log + [e])[..|log|] == log;
  }

  /** Nothing is on record about an id that has not been given out. */
  predicate Unwritten(s: State, id: int) {
    !Flag(s.log, id) && NameOf(s.log, id) == "" && !Removed(s.log, id)
  }

  /** Row `id` is there exactly when it was created and not removed, and is the row described. */
  predicate RowIsDescribed(env: Env, s: State, id: int) {
    && (id in s.table.rows <==> 1 <= id <= |Creators(s.log)| && !Removed(s.log, id))
    && (1 <= id <= |Creators(s.log)| ==> HasCreator(s, id))
    && (id in s.table.rows ==> s.table.rows[id] == Described(env, s, id))
  }

  ghost predicate RowsOk(env: Env, s: State) {
    && |Creators(s.log)| == s.table.lastId
    && (forall id {:trigger Unwritten(s, id)} :: s.table.lastId < id ==> Unwritten(s, id))
    && (forall id {:trigger RowIsDescribed(env, s, id)} :: RowIsDescribed(env, s, id))
  }

  lemma CreatorStays(env: Env, s: State, s': State, id: int)
    requires Logs(env, s, s') && HasCreator(s, id)
    ensures HasCreator(s', id) && Creator(s', id) == Creator(s, id)
  {
    if s'.log != s.log {
      HistoryGrows(s.log, s'.log[|s.log|], id);
      assert s'.log == s.log + [s'.log[|s.log|]];
    }
  }

  lemma UnwrittenStays(env: Env, s: State, s': State, id: int)
    requires Logs(env, s, s') && RowsOk(env, s) && |s'.log| == |s.log| + 1
    requires s.table.lastId < id && (s'.log[|s.log|].write.Insert? ==> s.table.lastId + 1 < id)
    ensures Unwritten(s', id)
  {
    var e := s'.log[|s.log|];
    assert s'.log == s.log + [e] && Unwritten(s, id);
    HistoryGrows(s.log, e, id);
    if !e.write.Insert? { assert RowIsDescribed(env, s, e.write.id); }
  }

  lemma NewRowHasCreator(env: Env, s: State, s': State)
    requires Logs(env, s, s') && |Creators(s.log)| == s.table.lastId && |s'.log| == |s.log| + 1
    requires s'.log[|s.log|].write.Insert?
    ensures var id := s.table.lastId + 1;
            && |Creators(s'.log)| == id && Creators(s'.log)[id - 1] == s'.log[|s.log|].thread
            && HasCreator(s', id) && Creator(s', id) == s.threads[s'.log[|s.log|].thread].op
  {
    var e := s'.log[|s.log|];
    assert s'.log == s.log + [e];
    HistoryGrows(s.log, e, 0);
  }

  lemma NewRowIsDescribed(env: Env, s: State, s': State)
    requires Logs(env, s, s') && RowsOk(env, s) && |s'.log| == |s.log| + 1 && s'.log[|s.log|].write.Insert?
    ensures RowIsDescribed(env, s', s.table.lastId + 1)
  {
    var e, id := s'.log[|s.log|], s.table.lastId + 1;
    assert s'.log == s.log + [e] && Unwritten(s, id);
    HistoryGrows(s.log, e, id);
    NewRowHasCreator(env, s, s');
    assert s'.table.rows[id] == Described(env, s', id);
  }

  lemma OldRowIsDescribed(env: Env, s: State, s': State, id: int)
    requires Logs(env, s, s') && RowsOk(env, s) && |s'.log| == |s.log| + 1
    requires s'.log[|s.log|].write.Insert? ==> id != s.table.lastId + 1
    ensures RowIsDescribed(env, s', id)
  {
    var e := s'.log[|s.log|];
    assert s'.log == s.log + [e] && RowIsDescribed(env, s, id);
    HistoryGrows(s.log, e, id);
    if 1 <= id <= |Creators(s.log)| { CreatorStays(env, s, s', id); }
  }

  lemma StepKeepsRows(env: Env, s: State, s': State)
    requires Logs(env, s, s') && RowsOk(env, s)
    ensures RowsOk(env, s')
  {
    if s'.log == s.log {
      forall id ensures RowIsDescribed(env, s', id) {
        assert RowIsDescribed(env, s, id);
        if 1 <= id <= |Creators(s.log)| { CreatorStays(env, s, s', id); }
      }
      forall id | s'.table.lastId < id ensures Unwritten(s', id) { assert Unwritten(s, id); }
    } else {
      var e := s'.log[|s.log|];
      assert s'.log == s.log + [e];
      HistoryGrows(s.log, e, 0);
      forall id ensures RowIsDescribed(env, s', id) {
        if e.write.Insert? && id == s.table.lastId + 1 {
          NewRowIsDescribed(env, s, s');
        } else {
          OldRowIsDescribed(env, s, s', id);
        }
      }
      forall id | s'.table.lastId < id ensures Unwritten(s', id) {
        UnwrittenStays(env, s, s', id);
      }
    }
  }

  lemma {:induction false} RunKeepsRows(env: Env, es: seq<Event>)
    ensures RowsOk(env, Run(env, es))
  {
    if es == [] {
      forall id ensures RowIsDescribed(env, START, id) && Unwritten(START, id) {}
    } else {
      RunKeepsRows(env, es[..|es| - 1]);
      StepLogs(env, Run(env, es[..|es| - 1]), es[|es| - 1]);
      StepKeepsRows(env, Run(env, es[..|es| - 1]), Run(env, es));
    }
  }

  // ---- answers told by the request behind the comment ----------------------------------------

  /** The answer shows the comment of the request that created it: post, texts, sanitized twice, and time. */
  predicate IsOf(env: Env, s: State, r: Response) {
    && HasCreator(s, r.id)
    && var op := Creator(s, r.id);
    && r.postId == op.input.postId && r.createdAt == op.insertAt
    && r.author == Sanitizer.Served(env.stages, op.input.author)
    && r.body == Sanitizer.Served(env.stages, op.input.body)
  }

  predicate RowIsOf(env: Env, s: State, row: Comment) {
    && HasCreator(s, row.id)
    && var op := Creator(s, row.id);
    && row.postId == op.input.postId && row.createdAt == op.insertAt
    && row.author == Sanitizer.Sanitize(env.stages, op.input.author)
    && row.body == Sanitizer.Sanitize(env.stages, op.input.body)
  }

  predicate IsCreatedBy(s: State, id: int, k: nat) {
    HasCreator(s, id) && Creators(s.log)[id - 1] == k
  }

  /** What a request on its way to an answer has in hand. */
  predicate HandOk(env: Env, s: State, k: nat)
    requires k < |s.threads|
  {
    var op, stage := s.threads[k].op, s.threads[k].stage;
    match stage
    case Inserted(id) => op.Create? ==> IsCreatedBy(s, id, k)
    case Named(id) => op.Create? ==> IsCreatedBy(s, id, k)
    case Found(row) => op.Create? ==> IsCreatedBy(s, row.id, k) && RowIsOf(env, s, row)
    case Returning(reply) => AnswerOk(env, s, k, reply)
    case Done(reply) => AnswerOk(env, s, k, reply)
    case _ => true
  }

  predicate AnswerOk(env: Env, s: State, k: nat, reply: Reply)
    requires k < |s.threads|
  {
    reply.Success? ==>
      && IsOf(env, s, reply.response)
      && (s.threads[k].op.Create? ==> IsCreatedBy(s, reply.response.id, k))
      && (s.threads[k].op.Toggle? ==> reply.response.id == s.threads[k].op.id)
  }

  lemma HandStays(env: Env, s: State, s': State, k: nat)
    requires Logs(env, s, s') && k < |s.threads| && HandOk(env, s, k) && s'.threads[k].stage == s.threads[k].stage
    ensures HandOk(env, s', k)
  {
    forall id | HasCreator(s, id) ensures HasCreator(s', id) && Creator(s', id) == Creator(s, id) {
      CreatorStays(env, s, s', id);
    }
    CreatorsStay(env, s, s');
  }

  lemma CreatorsStay(env: Env, s: State, s': State)
    requires Logs(env, s, s')
    ensures Creators(s.log) <= Creators(s'.log)
  {
    if s'.log != s.log {
      HistoryGrows(s.log, s'.log[|s.log|], 0);
      assert s'.log == s.log + [s'.log[|s.log|]];
    }
  }

  lemma FoundRowIsOf(env: Env, s: State, id: int)
    requires RowsOk(env, s) && id in s.table.rows
    ensures s.table.rows[id].id == id && RowIsOf(env, s, s.table.rows[id])
    ensures IsOf(env, s, MapToResponse(env, s.table.rows[id])) && MapToResponse(env, s.table.rows[id]).id == id
  {
    assert RowIsDescribed(env, s, id);
  }

  lemma MappedIsOf(env: Env, s: State, row: Comment)
    requires RowIsOf(env, s, row)
    ensures IsOf(env, s, MapToResponse(env, row)) && MapToResponse(env, row).id == row.id
  {
  }

  /** Steps that write nothing, seen from the state before. */
  lemma QuietHand(env: Env, s: State, k: nat)
    requires RowsOk(env, s) && k < |s.threads| && HandOk(env, s, k) && Fits(s.threads[k].op, s.threads[k].stage)
    requires InSection(s.threads[k].stage) && !s.threads[k].stage.Returning?
    requires Effects(env, s.table, k, s.threads[k].op, s.threads[k].stage) == []
    ensures HandOk(env, SectionStep(env, s, k), k)
  {
    var s', op, stage := SectionStep(env, s, k), s.threads[k].op, s.threads[k].stage;
    QuietStep(env, s, k);
    match stage
    case Named(id) => if id in s.table.rows { FoundRowIsOf(env, s, id); }
    case Found(row) => MappedIsOf(env, s, row);
    case Flipped => if op.id in s.table.rows { FoundRowIsOf(env, s, op.id); }
    case _ =>
  }

  /** Steps that write: only Create goes on with something in hand. */
  lemma WritingHand(env: Env, s: State, k: nat, w: Write)
    requires RowsOk(env, s) && k < |s.threads| && HandOk(env, s, k) && Fits(s.threads[k].op, s.threads[k].stage)
    requires InSection(s.threads[k].stage) && !s.threads[k].stage.Returning? && Writes(env, s, k, w)
    ensures HandOk(env, SectionStep(env, s, k), k)
  {
    var s' := SectionStep(env, s, k);
    WriteStep(env, s, k, w, 0);
    SectionLogs(env, s, k);
    CreatorsStay(env, s, s');
  }

  lemma SectionKeepsHand(env: Env, s: State, k: nat)
    requires RowsOk(env, s) && k < |s.threads| && HandOk(env, s, k) && Fits(s.threads[k].op, s.threads[k].stage)
    requires InSection(s.threads[k].stage) && !s.threads[k].stage.Returning?
    ensures HandOk(env, SectionStep(env, s, k), k)
  {
    var effects := Effects(env, s.table, k, s.threads[k].op, s.threads[k].stage);
    if effects == [] {
      QuietHand(env, s, k);
    } else {
      WritingHand(env, s, k, effects[0].write);
    }
  }

  lemma AnswerStays(env: Env, s: State, s': State, k: nat, reply: Reply)
    requires Logs(env, s, s') && k < |s.threads| && AnswerOk(env, s, k, reply)
    ensures AnswerOk(env, s', k, reply)
  {
    if reply.Success? {
      CreatorStays(env, s, s', reply.response.id);
      CreatorsStay(env, s, s');
    }
  }

  lemma OutsideKeepsHand(env: Env, s: State, k: nat)
    requires k < |s.threads| && HandOk(env, s, k) && Outside(s, Step(k))
    ensures HandOk(env, StepThread(env, s, k), k)
  {
    var s', stage := StepThread(env, s, k), s.threads[k].stage;
    StepLogs(env, s, Step(k));
    if stage.Returning? || stage.Done? {
      assert s'.threads[k].stage == Done(stage.reply);
      AnswerStays(env, s, s', k, stage.reply);
    }
  }

  ghost predicate HandsOk(env: Env, s: State) {
    forall k :: 0 <= k < |s.threads| ==> HandOk(env, s, k)
  }

  lemma StepKeepsHand(env: Env, s: State, e: Event, k: nat)
    requires LockOk(s) && RowsOk(env, s) && HandsOk(env, s) && k < |Apply(env, s, e).threads|
    ensures HandOk(env, Apply(env, s, e), k)
  {
    if k < |s.threads| {
      assert HandOk(env, s, k);
      if e == Step(k) {
        if Outside(s, e) { OutsideKeepsHand(env, s, k); } else { SectionKeepsHand(env, s, k); }
      } else {
        StepLogs(env, s, e);
        OthersStay(env, s, e, k);
        HandStays(env, s, Apply(env, s, e), k);
      }
    }
  }

  lemma OthersStay(env: Env, s: State, e: Event, k: nat)
    requires k < |s.threads| && e != Step(k)
    ensures k < |Apply(env, s, e).threads| && Apply(env, s, e).threads[k] == s.threads[k]
  {
  }

  lemma {:induction false} RunKeepsHands(env: Env, es: seq<Event>)
    ensures HandsOk(env, Run(env, es))
  {
    if es != [] {
      var before, e := es[..|es| - 1], es[|es| - 1];
      RunKeepsHands(env, before);
      RunKeepsRows(env, before);
      LockHolds(env, before);
      forall k | 0 <= k < |Run(env, es).threads| ensures HandOk(env, Run(env, es), k) {
        StepKeepsHand(env, Run(env, before), e, k);
      }
    }
  }

  lemma AnswerInHand(env: Env, s: State, k: nat)
    requires HandsOk(env, s) && k < |s.threads| && s.threads[k].stage.Done?
    ensures AnswerOk(env, s, k, s.threads[k].stage.reply)
  {
    assert HandOk(env, s, k);
  }

  // ---- main results ----------------------------------------------------------------------

  /** At every instant the table is what the log of writes and the creating requests say: a row is there
      exactly when it was created and not removed; it has its author's post, texts sanitized once, address,
      browser and time, and the display id, flag and update time last written. */
  lemma TableIsItsHistory(env: Env, es: seq<Event>, id: int)
    ensures var s := Run(env, es);
            && (id in s.table.rows <==> 1 <= id <= |Creators(s.log)| && !Removed(s.log, id))
            && (id in s.table.rows ==> HasCreator(s, id) && s.table.rows[id] == Described(env, s, id))
  {
    RunKeepsRows(env, es);
    assert RowIsDescribed(env, Run(env, es), id);
  }

  /** Every successful answer shows the comment it is about as its author sent it: a Create its own, a toggle
      the one it was asked for. */
  lemma AnswersShowTheirComment(env: Env, es: seq<Event>, k: nat)
    requires k < |Run(env, es).threads|
    requires var stage := Run(env, es).threads[k].stage; stage.Done? && stage.reply.Success?
    ensures var s := Run(env, es);
            var op, r := s.threads[k].op, s.threads[k].stage.reply.response;
            && IsOf(env, s, r)
            && (op.Create? ==> IsCreatedBy(s, r.id, k))
            && (op.Toggle? ==> r.id == op.id)
  {
    RunKeepsHands(env, es);
    AnswerInHand(env, Run(env, es), k);
  }

  /** A character that tag stripping never lets through, and normalisation does not make, reaches no reader. */
  lemma StrippedNeverServed(env: Env, es: seq<Event>, id: int, c: char)
    requires c != ' ' && Sanitizer.Strips(env.stages, c) && id in Run(env, es).table.rows
    ensures var row := Run(env, es).table.rows[id];
            && c !in row.author && c !in row.body
            && c !in MapToResponse(env, row).author && c !in MapToResponse(env, row).body
  {
    var row := Run(env, es).table.rows[id];
    TableIsItsHistory(env, es, id);
    var input := Creator(Run(env, es), id).input;
    Sanitizer.StrippedIsGone(env.stages, input.author, c);
    Sanitizer.StrippedIsGone(env.stages, input.body, c);
    Sanitizer.StrippedIsGone(env.stages, row.author, c);
    Sanitizer.StrippedIsGone(env.stages, row.body, c);
  }
}
