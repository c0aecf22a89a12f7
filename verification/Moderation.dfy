/** Every interleaving of Create, ToggleApproval and Delete requests: one mutex around their SQL
    statements, none around the captcha check, the counters or the public reads. */
module Moderation {
  import opened Wrappers
  import opened Comments
  import opened Service

  datatype Thread = Thread(op: Op, stage: Stage)
  datatype Lock = Free | Held(thread: nat)

  /** A write that affected a row, and the request that sent it. */
  datatype Effect = Effect(thread: nat, write: Write)

  /** A request that has released the lock. */
  datatype Serve = Serve(thread: nat, op: Op, reply: Reply)

  datatype State = State(table: Table, lock: Lock, threads: seq<Thread>, verifications: nat, failed: nat,
                         created: nat, log: seq<Effect>, served: seq<Serve>)

  const START := State(EMPTY, Free, [], 0, 0, 0, [], [])

  datatype Event = Spawn(op: Op) | Step(thread: nat)

  predicate InSection(stage: Stage) {
    !stage.Verifying? && !stage.Verified? && !stage.Waiting? && !stage.Done?
  }

  function Effects(env: Env, t: Table, k: nat, op: Op, stage: Stage): seq<Effect> {
    match Statement(env, op, stage)
    case Ok((w, f)) => if !f.Lost? && Hits(t, w) then [Effect(k, w)] else []
    case Err => []
  }

  function At(s: State, k: nat, stage: Stage): State
    requires k < |s.threads|
  {
    s.(threads := s.threads[k := s.threads[k].(stage := stage)])
  }

  /** One step inside the locked section. */
  function SectionStep(env: Env, s: State, k: nat): State
    requires k < |s.threads|
  {
    var op, stage := s.threads[k].op, s.threads[k].stage;
    var (after, next) := Advance(env, s.table, op, stage);
    At(s, k, next).(table := after, log := s.log + Effects(env, s.table, k, op, stage),
                    created := s.created + if stage.Found? then 1 else 0)
  }

  /** One step of request `k`; a step that must wait for the lock changes nothing. */
  function StepThread(env: Env, s: State, k: nat): State
    requires k < |s.threads|
  {
    var op, stage := s.threads[k].op, s.threads[k].stage;
    match stage
    case Verifying => At(s, k, Verified).(verifications := s.verifications + 1)
    case Verified =>
      if op.Create? && !op.captcha.Passed? then At(s, k, Done(Failed(CaptchaFailed))).(failed := s.failed + 1)
      else At(s, k, Waiting)
    case Waiting => if s.lock.Free? then At(s, k, Locked).(lock := Held(k)) else s
    case Returning(reply) => At(s, k, Done(reply)).(lock := Free, served := s.served + [Serve(k, op, reply)])
    case Done(_) => s
    case _ => SectionStep(env, s, k)
  }

  function Apply(env: Env, s: State, e: Event): State {
    match e
    case Spawn(op) => s.(threads := s.threads + [Thread(op, if op.Create? then Verifying else Waiting)])
    case Step(k) => if k < |s.threads| then StepThread(env, s, k) else s
  }

  function Run(env: Env, es: seq<Event>): State {
    if es == [] then START else Apply(env, Run(env, es[..|es| - 1]), es[|es| - 1])
  }

  // ---- the lock --------------------------------------------------------------------------

  /** Which stages a request can be in; a Create whose captcha was not passed never gets far. */
  predicate Fits(op: Op, stage: Stage) {
    (op.Create? && !op.captcha.Passed? ==>
       stage.Verifying? || stage.Verified? || stage == Done(Failed(CaptchaFailed))) &&
    match stage
    case Verifying => op.Create?
    case Verified => op.Create?
    case Inserted(_) => op.Create?
    case Named(_) => op.Create?
    case Found(_) => op.Create?
    case Read(_) => op.Toggle?
    case Flipped => op.Toggle?
    case Returning(r) => FitsReply(op, r)
    case Done(r) => FitsReply(op, r) || (op.Create? && !op.captcha.Passed? && r == Failed(CaptchaFailed))
    case _ => true
  }

  /** What a locked section can answer. */
  predicate FitsReply(op: Op, r: Reply) {
    match op
    case Create(_, _, _, _, _, _, _) => r.Success? || r == Failed(Internal)
    case Toggle(_, _, _, _, _) => r.Success? || r == Failed(Internal) || r == Failed(NotFound)
    case Delete(_, _) => r == Deleted || r == Failed(NotFound)
  }

  ghost predicate LockOk(s: State) {
    && (s.lock.Held? ==> s.lock.thread < |s.threads|)
    && (forall k {:trigger s.threads[k]} :: 0 <= k < |s.threads| ==>
          (InSection(s.threads[k].stage) <==> s.lock == Held(k)) && Fits(s.threads[k].op, s.threads[k].stage))
  }

  lemma AdvanceFits(env: Env, t: Table, op: Op, stage: Stage)
    requires Fits(op, stage) && InSection(stage) && !stage.Returning?
    ensures var next := Advance(env, t, op, stage).1; Fits(op, next) && InSection(next)
    ensures Remaining(stage) > 0
  {
  }

  /** The lock is taken by a waiting request and released by a returning one. */
  lemma StepMoves(env: Env, s: State, k: nat)
    requires k < |s.threads| && Fits(s.threads[k].op, s.threads[k].stage)
    ensures var s', stage := StepThread(env, s, k), s.threads[k].stage;
            var taken := stage.Waiting? && s.lock.Free?;
            && s'.lock == (if taken then Held(k) else if stage.Returning? then Free else s.lock)
            && s'.threads == s.threads[k := s.threads[k].(stage := s'.threads[k].stage)]
            && Fits(s.threads[k].op, s'.threads[k].stage)
            && (InSection(s'.threads[k].stage) <==> taken || (InSection(stage) && !stage.Returning?))
  {
    var th := s.threads[k];
    if InSection(th.stage) && !th.stage.Returning? {
      AdvanceFits(env, s.table, th.op, th.stage);
    }
  }

  lemma StepThreadKeepsLock(env: Env, s: State, k: nat)
    requires LockOk(s) && k < |s.threads|
    ensures LockOk(StepThread(env, s, k))
  {
    StepMoves(env, s, k);
  }

  lemma StepKeepsLock(env: Env, s: State, e: Event)
    requires LockOk(s)
    ensures LockOk(Apply(env, s, e))
  {
    if e.Step? && e.thread < |s.threads| {
      StepThreadKeepsLock(env, s, e.thread);
    }
  }

  // ---- serial order ----------------------------------------------------------------------

  /** The table after running whole sections one after the other. */
  function SerialTable(env: Env, served: seq<Serve>): Table {
    if served == [] then EMPTY
    else Atomic(env, SerialTable(env, served[..|served| - 1]), served[|served| - 1].op).0
  }

  ghost predicate RepliesSerial(env: Env, served: seq<Serve>) {
    forall i :: 0 <= i < |served| ==> served[i].reply == Atomic(env, SerialTable(env, served[..i]), served[i].op).1
  }

  predicate Finished(th: Thread) {
    th.stage.Done? && th.stage.reply != Failed(CaptchaFailed)
  }

  ghost predicate IsServed(s: State, k: int) {
    exists i :: 0 <= i < |s.served| && s.served[i].thread == k
  }

  /** Only requests of the run are served, and with the reply they end with. */
  ghost predicate ServedOk(s: State) {
    forall i :: 0 <= i < |s.served| ==>
      s.served[i].thread < |s.threads|
      && s.threads[s.served[i].thread] == Thread(s.served[i].op, Done(s.served[i].reply))
  }

  ghost predicate ServedOnce(s: State) {
    forall i, j :: 0 <= i < j < |s.served| ==> s.served[i].thread != s.served[j].thread
  }

  ghost predicate FinishedOk(s: State) {
    forall k :: 0 <= k < |s.threads| && Finished(s.threads[k]) ==> IsServed(s, k)
  }

  ghost predicate SerialOk(env: Env, s: State) {
    && RepliesSerial(env, s.served)
    && (s.lock.Free? ==> s.table == SerialTable(env, s.served))
    && (s.lock.Held? && s.lock.thread < |s.threads| ==>
          var th := s.threads[s.lock.thread];
          Finish(env, s.table, th.op, th.stage) == Atomic(env, SerialTable(env, s.served), th.op))
  }

  lemma {:induction false} ServeOne(env: Env, served: seq<Serve>, serve: Serve)
    requires RepliesSerial(env, served)
    requires serve.reply == Atomic(env, SerialTable(env, served), serve.op).1
    ensures RepliesSerial(env, served + [serve])
    ensures SerialTable(env, served + [serve]) == Atomic(env, SerialTable(env, served), serve.op).0
  {
    var all := served + [serve];
    assert all[..|served|] == served;
    forall i | 0 <= i < |all| ensures all[i].reply == Atomic(env, SerialTable(env, all[..i]), all[i].op).1 {
      if i < |served| { assert all[..i] == served[..i]; }
    }
  }

  lemma SectionKeepsSerial(env: Env, s: State, k: nat)
    requires SerialOk(env, s) && k < |s.threads| && s.lock == Held(k) && Remaining(s.threads[k].stage) > 0
    ensures SerialOk(env, SectionStep(env, s, k))
  {
    FinishStep(env, s.table, s.threads[k].op, s.threads[k].stage);
  }

  lemma FinishReturning(env: Env, t: Table, op: Op, reply: Reply)
    ensures Finish(env, t, op, Returning(reply)) == (t, reply)
  {
  }

  lemma {:induction false} ReturnServes(env: Env, served: seq<Serve>, t: Table, serve: Serve)
    requires RepliesSerial(env, served)
    requires Finish(env, t, serve.op, Returning(serve.reply)) == Atomic(env, SerialTable(env, served), serve.op)
    ensures RepliesSerial(env, served + [serve]) && t == SerialTable(env, served + [serve])
  {
    FinishReturning(env, t, serve.op, serve.reply);
    ServeOne(env, served, serve);
  }

  lemma ReleasedIsSerial(env: Env, s: State)
    requires s.lock.Free? && RepliesSerial(env, s.served) && s.table == SerialTable(env, s.served)
    ensures SerialOk(env, s)
  {
  }

  lemma ReturnFrame(env: Env, s: State, k: nat)
    requires k < |s.threads| && s.threads[k].stage.Returning?
    ensures var s', th := StepThread(env, s, k), s.threads[k];
            && s'.lock.Free? && s'.table == s.table
            && s'.served == s.served + [Serve(k, th.op, th.stage.reply)]
  {
  }

  lemma ReturnKeepsSerial(env: Env, s: State, k: nat)
    requires SerialOk(env, s) && k < |s.threads| && s.lock == Held(k) && s.threads[k].stage.Returning?
    ensures SerialOk(env, StepThread(env, s, k))
  {
    var th := s.threads[k];
    assert th.stage == Returning(th.stage.reply);
    ReturnServes(env, s.served, s.table, Serve(k, th.op, th.stage.reply));
    ReturnFrame(env, s, k);
    ReleasedIsSerial(env, StepThread(env, s, k));
  }

  lemma AcquireKeepsSerial(env: Env, s: State, k: nat)
    requires SerialOk(env, s) && k < |s.threads| && s.threads[k].stage.Waiting? && s.lock.Free?
    ensures SerialOk(env, StepThread(env, s, k))
  {
    var s' := StepThread(env, s, k);
    assert s'.threads[k] == Thread(s.threads[k].op, Locked) && s'.table == s.table && s'.served == s.served;
  }

  /** Nothing the serial order depends on changed between the two states. */
  predicate SameOrder(s: State, s': State) {
    && s'.table == s.table && s'.served == s.served && s'.lock == s.lock
    && (s.lock.Held? ==> s.lock.thread < |s.threads| && s.lock.thread < |s'.threads|
                         && s'.threads[s.lock.thread] == s.threads[s.lock.thread])
  }

  lemma SameOrderKeepsSerial(env: Env, s: State, s': State)
    requires SerialOk(env, s) && SameOrder(s, s')
    ensures SerialOk(env, s')
  {
  }

  /** A step that neither takes, uses nor releases the lock. */
  predicate Aside(s: State, e: Event) {
    e.Step? && e.thread < |s.threads| ==>
      !InSection(s.threads[e.thread].stage) && !(s.threads[e.thread].stage.Waiting? && s.lock.Free?)
  }

  lemma AsideKeepsOrder(env: Env, s: State, e: Event)
    requires LockOk(s) && Aside(s, e)
    ensures SameOrder(s, Apply(env, s, e))
  {
  }

  lemma InsideKeepsSerial(env: Env, s: State, k: nat)
    requires SerialOk(env, s) && k < |s.threads| && s.lock == Held(k)
    requires InSection(s.threads[k].stage) && Fits(s.threads[k].op, s.threads[k].stage)
    ensures SerialOk(env, StepThread(env, s, k))
  {
    if s.threads[k].stage.Returning? {
      ReturnKeepsSerial(env, s, k);
    } else {
      AdvanceFits(env, s.table, s.threads[k].op, s.threads[k].stage);
      SectionKeepsSerial(env, s, k);
    }
  }

  lemma StepKeepsSerial(env: Env, s: State, e: Event)
    requires LockOk(s) && SerialOk(env, s)
    ensures SerialOk(env, Apply(env, s, e))
  {
    if Aside(s, e) {
      AsideKeepsOrder(env, s, e);
      SameOrderKeepsSerial(env, s, Apply(env, s, e));
    } else if s.threads[e.thread].stage.Waiting? {
      AcquireKeepsSerial(env, s, e.thread);
    } else {
      InsideKeepsSerial(env, s, e.thread);
    }
  }

  lemma StepKeepsServed(env: Env, s: State, e: Event)
    requires ServedOk(s)
    ensures ServedOk(Apply(env, s, e))
  {
  }

  lemma StepServesOnce(env: Env, s: State, e: Event)
    requires ServedOk(s) && ServedOnce(s)
    ensures ServedOnce(Apply(env, s, e))
  {
  }

  lemma StepKeepsFinished(env: Env, s: State, e: Event)
    requires LockOk(s) && FinishedOk(s)
    ensures FinishedOk(Apply(env, s, e))
  {
    var s' := Apply(env, s, e);
    forall k | 0 <= k < |s'.threads| && Finished(s'.threads[k]) ensures IsServed(s', k) {
      if k < |s.threads| && Finished(s.threads[k]) {
        assert IsServed(s, k);
        var i :| 0 <= i < |s.served| && s.served[i].thread == k;
        assert s'.served[i] == s.served[i];
      } else {
        OnlyReturningFinishes(env, s, e, k);
        assert s'.served[|s.served|].thread == k;
      }
    }
  }

  lemma OnlyReturningFinishes(env: Env, s: State, e: Event, k: nat)
    requires LockOk(s) && k < |Apply(env, s, e).threads| && Finished(Apply(env, s, e).threads[k])
    requires k < |s.threads| ==> !Finished(s.threads[k])
    ensures e == Step(k) && k < |s.threads| && s.threads[k].stage.Returning?
  {
    if e.Step? && e.thread < |s.threads| {
      var th := s.threads[e.thread];
      if InSection(th.stage) && !th.stage.Returning? {
        AdvanceFits(env, s.table, th.op, th.stage);
      }
    }
  }

  ghost predicate OrderInv(env: Env, s: State) {
    LockOk(s) && SerialOk(env, s) && ServedOk(s) && ServedOnce(s) && FinishedOk(s)
  }

  lemma {:induction false} RunKeepsOrder(env: Env, es: seq<Event>)
    ensures OrderInv(env, Run(env, es))
  {
    if es != [] {
      var s, e := Run(env, es[..|es| - 1]), es[|es| - 1];
      RunKeepsOrder(env, es[..|es| - 1]);
      StepKeepsLock(env, s, e);
      StepKeepsSerial(env, s, e);
      StepKeepsServed(env, s, e);
      StepServesOnce(env, s, e);
      StepKeepsFinished(env, s, e);
    }
  }

  lemma {:induction false} LockHolds(env: Env, es: seq<Event>)
    ensures LockOk(Run(env, es))
  {
    RunKeepsOrder(env, es);
  }

  /** Every interleaving is equivalent to running the locked sections one at a time, in the order
      in which they released the lock: same table, same replies. The order holds every finished request
      once and nothing else. */
  lemma {:induction false} Serializable(env: Env, es: seq<Event>)
    ensures var s := Run(env, es);
            && (s.lock.Free? ==> s.table == SerialTable(env, s.served))
            && RepliesSerial(env, s.served)
            && ServedOk(s) && ServedOnce(s)
            && (forall k :: 0 <= k < |s.threads| && Finished(s.threads[k]) ==>
                  Serve(k, s.threads[k].op, s.threads[k].stage.reply) in s.served)
  {
    RunKeepsOrder(env, es);
    var s := Run(env, es);
    forall k | 0 <= k < |s.threads| && Finished(s.threads[k])
      ensures Serve(k, s.threads[k].op, s.threads[k].stage.reply) in s.served
    {
      assert IsServed(s, k);
      var i :| 0 <= i < |s.served| && s.served[i].thread == k;
      assert s.served[i] == Serve(k, s.threads[k].op, s.threads[k].stage.reply);
    }
  }

  // ---- a request left to itself ----------------------------------------------------------

  lemma Extend(env: Env, es: seq<Event>, e: Event)
    ensures Run(env, es + [e]) == Apply(env, Run(env, es), e)
  {
    assert (es + [e])[..|es|] == es;
  }

  function Distance(stage: Stage): nat {
    match stage
    case Verifying => 8
    case Verified => 7
    case Waiting => 6
    case Returning(_) => 1
    case Done(_) => 0
    case _ => 1 + Remaining(stage)
  }

  /** What request `k` does if nobody else takes a step. */
  function Alone(env: Env, s: State, k: nat): (Table, Reply)
    requires k < |s.threads|
  {
    if InSection(s.threads[k].stage) then Finish(env, s.table, s.threads[k].op, s.threads[k].stage)
    else Atomic(env, s.table, s.threads[k].op)
  }

  /** The state in which request `k` has run to its end. */
  ghost predicate Completed(env: Env, s: State, k: nat, s': State)
    requires k < |s.threads|
  {
    && s'.lock.Free? && s'.table == Alone(env, s, k).0
    && s'.threads == s.threads[k := s.threads[k].(stage := Done(Alone(env, s, k).1))]
  }

  predicate MayProceed(s: State, k: nat) {
    && k < |s.threads| && !s.threads[k].stage.Done?
    && (s.threads[k].op.Create? ==> s.threads[k].op.captcha.Passed?)
    && (if InSection(s.threads[k].stage) then s.lock == Held(k) else s.lock.Free?)
  }

  lemma AloneStep(env: Env, s: State, k: nat)
    requires LockOk(s) && MayProceed(s, k)
    ensures var s' := StepThread(env, s, k);
            && s'.threads == s.threads[k := s.threads[k].(stage := s'.threads[k].stage)]
            && Distance(s'.threads[k].stage) < Distance(s.threads[k].stage)
            && (if s'.threads[k].stage.Done? then Completed(env, s, k, s')
                else MayProceed(s', k) && Alone(env, s', k) == Alone(env, s, k))
  {
    var th := s.threads[k];
    if InSection(th.stage) && !th.stage.Returning? {
      AdvanceFits(env, s.table, th.op, th.stage);
      FinishStep(env, s.table, th.op, th.stage);
    }
  }

  /** A request that finds the lock free, or holds it, can run to its end, with the outcome of one
      uninterrupted section. */
  lemma {:induction false} RunAlone(env: Env, es: seq<Event>, k: nat) returns (more: seq<Event>)
    requires MayProceed(Run(env, es), k)
    ensures forall i :: 0 <= i < |more| ==> more[i] == Step(k)
    ensures Completed(env, Run(env, es), k, Run(env, es + more))
    decreases Distance(Run(env, es).threads[k].stage)
  {
    var s := Run(env, es);
    LockHolds(env, es);
    Extend(env, es, Step(k));
    AloneStep(env, s, k);
    more := [Step(k)];
    if !Run(env, es + more).threads[k].stage.Done? {
      var rest := RunAlone(env, es + more, k);
      assert es + (more + rest) == es + more + rest;
      more := more + rest;
    }
  }
}
