/** The service's counters, at every instant of every interleaving. */
module ModerationCounts {
  import opened Comments
  import opened Service
  import opened Moderation
  import opened ModerationFacts

  /** How many requests satisfy `p`. */
  function Count(threads: seq<Thread>, p: Thread -> bool): nat {
    if threads == [] then 0
    else Count(threads[..|threads| - 1], p) + if p(threads[|threads| - 1]) then 1 else 0
  }

  predicate IsChecked(th: Thread) { th.op.Create? && !th.stage.Verifying? }

  predicate IsRefused(th: Thread) { th.op.Create? && th.stage == Done(Failed(CaptchaFailed)) }

  predicate IsCreated(th: Thread) {
    th.op.Create? && (th.stage.Returning? || th.stage.Done?) && th.stage.reply.Success?
  }

  predicate IsBroken(th: Thread) { th.op.Create? && HasFailed(th.stage) }

  /** Past the captcha check, not yet refused, created or failed. */
  predicate IsInFlight(th: Thread) {
    th.op.Create? && (th.stage.Verified? || th.stage.Waiting? || th.stage.Locked? || HasFreshRow(th.stage))
  }

  predicate HasFreshRow(stage: Stage) { stage.Inserted? || stage.Named? || stage.Found? }

  /** Certain to have a row inserted on its behalf. */
  predicate HasInserted(th: Thread) { IsCreated(th) || (th.op.Create? && HasFreshRow(th.stage)) }

  lemma CountAppend(threads: seq<Thread>, th: Thread, p: Thread -> bool)
    ensures Count(threads + [th], p) == Count(threads, p) + if p(th) then 1 else 0
  {
    assert (threads + [th])[..|threads|] == threads;
  }

  lemma {:induction false} CountUpdate(threads: seq<Thread>, k: nat, th: Thread, p: Thread -> bool)
    requires k < |threads|
    ensures Count(threads[k := th], p) + (if p(threads[k]) then 1 else 0) == Count(threads, p) + if p(th) then 1 else 0
  {
    var n := |threads| - 1;
    if k == n {
      assert threads[k := th][..n] == threads[..n];
    } else {
      assert threads[k := th][..n] == threads[..n][k := th];
      CountUpdate(threads[..n], k, th, p);
    }
  }

  /** Each request past the check is in exactly one of four situations. */
  lemma {:induction false} CheckedSplits(threads: seq<Thread>)
    requires forall k :: 0 <= k < |threads| ==> Fits(threads[k].op, threads[k].stage)
    ensures Count(threads, IsChecked) == Count(threads, IsRefused) + Count(threads, IsCreated)
                                         + Count(threads, IsInFlight) + Count(threads, IsBroken)
    ensures Count(threads, IsCreated) <= Count(threads, HasInserted)
  {
    if threads != [] {
      var th := threads[|threads| - 1];
      CheckedSplits(threads[..|threads| - 1]);
      assert Fits(th.op, th.stage);
    }
  }

  ghost predicate CountsOk(s: State) {
    && s.verifications == Count(s.threads, IsChecked)
    && s.failed == Count(s.threads, IsRefused)
    && s.created == Count(s.threads, IsCreated)
    && Count(s.threads, HasInserted) <= |Creators(s.log)|
  }

  lemma MovedCounts(s: State, k: nat, stage: Stage, p: Thread -> bool)
    requires k < |s.threads|
    ensures var moved := s.threads[k].(stage := stage);
            Count(s.threads[k := moved], p) + (if p(s.threads[k]) then 1 else 0)
            == Count(s.threads, p) + if p(moved) then 1 else 0
  {
    CountUpdate(s.threads, k, s.threads[k].(stage := stage), p);
  }

  lemma SectionKeepsCounts(env: Env, s: State, k: nat)
    requires LockOk(s) && CountsOk(s) && !Outside(s, Step(k))
    ensures CountsOk(SectionStep(env, s, k))
  {
    var next := SectionStep(env, s, k).threads[k].stage;
    var effects := Effects(env, s.table, k, s.threads[k].op, s.threads[k].stage);
    AdvanceFits(env, s.table, s.threads[k].op, s.threads[k].stage);
    MovedCounts(s, k, next, IsChecked);
    MovedCounts(s, k, next, IsRefused);
    MovedCounts(s, k, next, IsCreated);
    MovedCounts(s, k, next, HasInserted);
    if effects == [] {
      QuietStep(env, s, k);
    } else {
      WriteStep(env, s, k, effects[0].write, 0);
    }
  }

  lemma SpawnKeepsCounts(env: Env, s: State, op: Op)
    requires CountsOk(s)
    ensures CountsOk(Apply(env, s, Spawn(op)))
  {
    var th := Thread(op, if op.Create? then Verifying else Waiting);
    CountAppend(s.threads, th, IsChecked);
    CountAppend(s.threads, th, IsRefused);
    CountAppend(s.threads, th, IsCreated);
    CountAppend(s.threads, th, HasInserted);
  }

  /** A step outside the section counts a captcha check and its refusal as they happen. */
  lemma OutsideCounts(env: Env, s: State, k: nat)
    requires k < |s.threads| && Fits(s.threads[k].op, s.threads[k].stage) && Outside(s, Step(k))
    ensures var s', th := StepThread(env, s, k), s.threads[k];
            var moved := th.(stage := s'.threads[k].stage);
            && s'.threads == s.threads[k := moved] && s'.log == s.log && s'.created == s.created
            && s'.verifications == s.verifications + (if IsChecked(moved) && !IsChecked(th) then 1 else 0)
            && s'.failed == s.failed + (if IsRefused(moved) && !IsRefused(th) then 1 else 0)
            && (IsChecked(th) ==> IsChecked(moved)) && (IsRefused(th) ==> IsRefused(moved))
            && IsCreated(moved) == IsCreated(th) && HasInserted(moved) == HasInserted(th)
  {
  }

  lemma OutsideKeepsCounts(env: Env, s: State, k: nat)
    requires CountsOk(s) && k < |s.threads| && Fits(s.threads[k].op, s.threads[k].stage) && Outside(s, Step(k))
    ensures CountsOk(StepThread(env, s, k))
  {
    var next := StepThread(env, s, k).threads[k].stage;
    OutsideCounts(env, s, k);
    MovedCounts(s, k, next, IsChecked);
    MovedCounts(s, k, next, IsRefused);
    MovedCounts(s, k, next, IsCreated);
    MovedCounts(s, k, next, HasInserted);
  }

  lemma {:induction false} RunKeepsCounts(env: Env, es: seq<Event>)
    ensures LockOk(Run(env, es)) && CountsOk(Run(env, es))
  {
    if es != [] {
      var s, e := Run(env, es[..|es| - 1]), es[|es| - 1];
      RunKeepsCounts(env, es[..|es| - 1]);
      StepKeepsLock(env, s, e);
      match e
      case Spawn(op) => SpawnKeepsCounts(env, s, op);
      case Step(k) =>
        if !Outside(s, e) {
          SectionKeepsCounts(env, s, k);
        } else if k < |s.threads| {
          OutsideKeepsCounts(env, s, k);
        }
    }
  }

  /** Captcha checks are accounted for at every instant: refused, created, in flight, or failed in
      storage; and no comment is counted that was not inserted. */
  lemma CountersBalance(env: Env, es: seq<Event>)
    ensures var s := Run(env, es);
            && s.verifications == s.failed + s.created + Count(s.threads, IsInFlight) + Count(s.threads, IsBroken)
            && s.failed + s.created <= s.verifications
            && s.created <= |Creators(s.log)|
  {
    RunKeepsCounts(env, es);
    CheckedSplits(Run(env, es).threads);
  }
}
