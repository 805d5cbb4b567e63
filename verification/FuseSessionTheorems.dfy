/** What holds in every run of a FUSE channel. */
module FuseSessionTheorems {
  import opened Common
  import opened FuseSession

  // ---------------------------------------------------------------- counting stopped threads

  lemma {:induction false} CountMove(pcs: seq<Pc>, i: nat, pc: Pc)
    requires i < |pcs|
    ensures CountPast(pcs[i := pc]) ==
            CountPast(pcs) - (if Past(pcs[i]) then 1 else 0) + (if Past(pc) then 1 else 0)
  {
    if i == 0 {
      assert pcs[i := pc][1..] == pcs[1..];
    } else {
      assert pcs[i := pc][1..] == pcs[1..][i - 1 := pc];
      CountMove(pcs[1..], i - 1, pc);
    }
  }

  lemma {:induction false} CountSame(a: seq<Pc>, b: seq<Pc>)
    requires |a| == |b| && forall i :: 0 <= i < |a| ==> Past(a[i]) == Past(b[i])
    ensures CountPast(a) == CountPast(b)
  {
    if a == [] {
    } else {
      CountSame(a[1..], b[1..]);
    }
  }

  lemma {:induction false} CountAll(pcs: seq<Pc>)
    ensures CountPast(pcs) <= |pcs|
    ensures CountPast(pcs) == |pcs| <==> forall i :: 0 <= i < |pcs| ==> Past(pcs[i])
  {
    if pcs == [] {
    } else {
      CountAll(pcs[1..]);
      assert forall i :: 0 < i < |pcs| ==> pcs[i] == pcs[1..][i - 1];
    }
  }

  // ---------------------------------------------------------------- the invariant

  predicate AllPast(s: State) {
    forall i :: 0 <= i < |s.pcs| ==> Past(s.pcs[i])
  }

  predicate Working(pc: Pc) {
    pc in {LoopHead, Reading, Exiting, Completing, Stopped}
  }

  predicate AllStarted(s: State) {
    forall i :: 0 <= i < |s.pcs| ==> Working(s.pcs[i])
  }

  predicate InInit(pc: Pc) {
    pc in {InitReading, InitRead, InitFailed}
  }

  /** Only the first thread has been created, and it cannot take a request. */
  predicate OnlyFirst(s: State) {
    && |s.pcs| > 0
    && (forall i :: 1 <= i < |s.pcs| ==> s.pcs[i] == NotStarted)
    && s.pcs[0] != NotStarted && s.pcs[0] != Reading && (InInit(s.pcs[0]) || s.stop)
    && s.requests == {}
  }

  ghost predicate ThreadInv(s: State) {
    && |s.pcs| >= 1
    && (s.stop <==> s.stopReason != RUNNING)
    && s.stoppedThreads == CountPast(s.pcs)
    && (forall i :: 0 <= i < |s.pcs| && s.pcs[i] in {Exiting, Completing, Stopped} ==> s.stop)
    && (forall i :: 1 <= i < |s.pcs| ==> !InInit(s.pcs[i]))
    && (s.startFailed || AllStarted(s) || OnlyFirst(s))
    && (s.startFailed ==> s.stop && s.pcs[0] == InitFailed)
    && (s.pcs[0] != InitReading && s.pcs[0] != InitFailed ==> s.connInfo)
    && (forall id :: id in s.requests ==> id < s.nextRequestId)
  }

  ghost predicate CompletionInv(s: State) {
    && |s.pcs| >= 1
    && s.completions == (if AllPast(s) && s.requests == {} then 1 else 0)
    && (s.completion.Some? <==> s.completions == 1)
    && (forall i, j :: 0 <= i < j < |s.pcs| ==> s.pcs[i] != Completing || s.pcs[j] != Completing)
    && (forall i :: 0 <= i < |s.pcs| && s.pcs[i] == Completing ==>
          s.completion.Some? && !s.completion.value.fulfilled && !s.completion.value.destroy)
    && (s.completion.Some? ==> var c := s.completion.value;
          c.reason == s.stopReason && c.reason != RUNNING && (c.device <==> IsFuseDeviceValid(c.reason)))
  }

  ghost predicate DestroyInv(s: State) {
    && (s.destroy != NotCalled ==> s.stop)
    && (s.destroy in {DeleteNow, LeftToCompletion, Deleted} ==> Joined(s))
    && (s.destroyPending <==> s.destroy == LeftToCompletion)
    && (s.destroy in {DeleteNow, Deleted} ==> s.requests == {})
    && (s.destroy == LeftToCompletion && !s.startFailed ==>
          AllPast(s) && (s.requests != {} || (s.completion.Some? && s.completion.value.destroy)))
    && (s.completion.Some? && s.completion.value.destroy ==> s.destroy == LeftToCompletion)
    && s.deletions == (if s.destroy == Deleted then 1 else 0)
                    + (if s.completion.Some? && s.completion.value.destroy && s.completion.value.fulfilled then 1 else 0)
  }

  ghost predicate Inv(s: State) {
    ThreadInv(s) && CompletionInv(s) && DestroyInv(s)
  }

  lemma InitialInv(n: nat)
    requires n >= 1
    ensures Inv(Initial(n)) && Inv(InitialTakeover(n))
  {
    hide CountPast;
    NonePast(Initial(n).pcs);
    NonePast(InitialTakeover(n).pcs);
    assert !Past(Initial(n).pcs[0]) && !Past(InitialTakeover(n).pcs[0]);
  }

  lemma {:induction false} NonePast(pcs: seq<Pc>)
    requires forall i :: 0 <= i < |pcs| ==> !Past(pcs[i])
    ensures CountPast(pcs) == 0
  {
    if pcs == [] {
    } else {
      NonePast(pcs[1..]);
    }
  }

  /** A step that moves one thread that has not stopped and does not stop in it. */
  predicate IsMove(step: Step) {
    step.ReadInit? || step.FailInit? || step.TestStop? || step.ReadAgain? || step.StopReading? || step.SeeStop? || step.BeginRequest?
  }

  function Mover(step: Step): nat
    requires IsMove(step)
  {
    if step.ReadInit? || step.FailInit? then 0 else step.i
  }

  lemma MoveShape(s: State, step: Step)
    requires Enabled(s, step) && IsMove(step)
    ensures var i, s' := Mover(step), Apply(s, step);
            && i < |s.pcs| == |s'.pcs| && s'.pcs == s.pcs[i := s'.pcs[i]]
            && !Past(s.pcs[i]) && !Past(s'.pcs[i]) && s.pcs[i] !in {NotStarted, InitFailed}
            && s' == s.(pcs := s'.pcs, stopReason := s'.stopReason, stop := s'.stop, requests := s'.requests,
                        nextRequestId := s'.nextRequestId, connInfo := s'.connInfo)
            && (s.stop ==> s'.stop)
  {
  }

  lemma MoveInv(s: State, step: Step)
    requires Inv(s) && Enabled(s, step) && IsMove(step)
    ensures Inv(Apply(s, step))
  {
    hide Apply, Enabled, ThreadInv, CompletionInv, DestroyInv, CountPast;
    MoveShape(s, step);
    CountMove(s.pcs, Mover(step), Apply(s, step).pcs[Mover(step)]);
    MoveThreadInv(s, step);
    MoveOtherInv(s, step);
  }

  lemma MoveThreadInv(s: State, step: Step)
    requires Inv(s) && Enabled(s, step) && IsMove(step)
    requires CountPast(Apply(s, step).pcs) == CountPast(s.pcs)
    ensures ThreadInv(Apply(s, step))
  {
    if step.ReadInit? || step.FailInit? {
      InitMoveThreadInv(s, step);
    } else {
      LoopMoveThreadInv(s, step);
    }
  }

  lemma InitMoveThreadInv(s: State, step: Step)
    requires Inv(s) && Enabled(s, step) && (step.ReadInit? || step.FailInit?)
    requires CountPast(Apply(s, step).pcs) == CountPast(s.pcs)
    ensures ThreadInv(Apply(s, step))
  {
    hide CountPast, CompletionInv, DestroyInv;
  }

  lemma LoopMoveThreadInv(s: State, step: Step)
    requires Inv(s) && Enabled(s, step) && IsMove(step) && !step.ReadInit? && !step.FailInit?
    requires CountPast(Apply(s, step).pcs) == CountPast(s.pcs)
    ensures ThreadInv(Apply(s, step))
  {
    if step.StopReading? || step.BeginRequest? {
      ReadingThreadInv(s, step);
    } else {
      HeadThreadInv(s, step);
    }
  }

  lemma ReadingThreadInv(s: State, step: Step)
    requires Inv(s) && Enabled(s, step) && (step.StopReading? || step.BeginRequest?)
    requires CountPast(Apply(s, step).pcs) == CountPast(s.pcs)
    ensures ThreadInv(Apply(s, step))
  {
    hide CountPast, CompletionInv, DestroyInv, OnlyFirst;
    assert !OnlyFirst(s) by { ReadingIsNotFirst(s, step.i); }
  }

  lemma ReadingIsNotFirst(s: State, i: nat)
    requires At(s, i, Reading)
    ensures !OnlyFirst(s)
  {
  }

  lemma HeadThreadInv(s: State, step: Step)
    requires Inv(s) && Enabled(s, step) && (step.TestStop? || step.ReadAgain? || step.SeeStop?)
    requires CountPast(Apply(s, step).pcs) == CountPast(s.pcs)
    ensures ThreadInv(Apply(s, step))
  {
    hide CountPast, CompletionInv, DestroyInv;
  }

  lemma MoveOtherInv(s: State, step: Step)
    requires Inv(s) && Enabled(s, step) && IsMove(step)
    ensures CompletionInv(Apply(s, step)) && DestroyInv(Apply(s, step))
  {
    hide CountPast, AllStarted, OnlyFirst, Apply, Enabled;
    MoveShape(s, step);
    assert !Past(s.pcs[Mover(step)]) && !Past(Apply(s, step).pcs[Mover(step)]);
  }

  lemma StartInv(s: State, step: Step)
    requires Inv(s) && Enabled(s, step) && (step.StartWorkers? || step.StartWorkersFails?)
    ensures Inv(Apply(s, step))
  {
    hide CountPast;
    var s' := Apply(s, step);
    CountSame(s.pcs, s'.pcs);
    assert !Past(s.pcs[0]) && !Past(s'.pcs[0]);
  }

  lemma FinishRequestInv(s: State, step: Step)
    requires Inv(s) && Enabled(s, step) && step.FinishRequest?
    ensures Inv(Apply(s, step))
  {
    hide CountPast;
    CountAll(s.pcs);
  }

  lemma RecordStoppedInv(s: State, step: Step)
    requires Inv(s) && Enabled(s, step) && step.RecordStopped?
    ensures Inv(Apply(s, step))
  {
    var s' := Apply(s, step);
    CountMove(s.pcs, step.i, s'.pcs[step.i]);
    CountAll(s'.pcs);
    CountAll(s.pcs);
    RecordStoppedThreadInv(s, step);
    RecordStoppedOtherInv(s, step);
  }

  lemma RecordStoppedThreadInv(s: State, step: Step)
    requires Inv(s) && Enabled(s, step) && step.RecordStopped?
    requires CountPast(Apply(s, step).pcs) == CountPast(s.pcs) + 1
    ensures ThreadInv(Apply(s, step))
  {
    hide CountPast, CompletionInv, DestroyInv;
  }

  lemma RecordStoppedOtherInv(s: State, step: Step)
    requires Inv(s) && Enabled(s, step) && step.RecordStopped?
    requires s.stoppedThreads + 1 == |s.pcs| <==> AllPast(Apply(s, step))
    ensures CompletionInv(Apply(s, step)) && DestroyInv(Apply(s, step))
  {
    hide CountPast, AllStarted, OnlyFirst;
    assert !Past(s.pcs[step.i]);
    assert AllPast(Apply(s, step)) ==> Past(Apply(s, step).pcs[0]);
  }

  lemma FulfillInv(s: State, step: Step)
    requires Inv(s) && Enabled(s, step) && (step.Fulfill? || step.FulfillElsewhere?)
    ensures Inv(Apply(s, step))
  {
    hide CountPast;
    CountSame(s.pcs, Apply(s, step).pcs);
  }

  lemma ExitInv(s: State, step: Step)
    requires Inv(s) && Enabled(s, step) && (step.RequestExit? || step.Destroy?)
    ensures Inv(Apply(s, step))
  {
    hide CountPast, AllStarted;
    assert AllPast(s) ==> Past(s.pcs[0]);
    SamePcs(s, Apply(s, step));
  }

  lemma SamePcs(s: State, s': State)
    requires s.pcs == s'.pcs
    ensures AllStarted(s) == AllStarted(s') && AllPast(s) == AllPast(s') && Joined(s) == Joined(s')
  {
  }

  lemma DestroyStepInv(s: State, step: Step)
    requires Inv(s) && Enabled(s, step) && (step.DestroyDecides? || step.DestroyDeletes?)
    ensures Inv(Apply(s, step))
  {
    hide CountPast, AllStarted;
    SamePcs(s, Apply(s, step));
    if step.DestroyDecides? && s.requests != {} && !s.startFailed {
      JoinedAfterStart(s);
    }
  }

  /** Requests can only be outstanding once every thread was created, so joining them all means all are done. */
  lemma JoinedAfterStart(s: State)
    requires ThreadInv(s) && Joined(s) && !s.startFailed && s.requests != {}
    ensures AllPast(s)
  {
  }

  /** Every step keeps the invariant. */
  lemma StepInv(s: State, step: Step)
    requires Inv(s) && Enabled(s, step)
    ensures Inv(Apply(s, step))
  {
    hide Inv, Apply, Enabled;
    match step
    case StartWorkers => StartInv(s, step);
    case StartWorkersFails(_, _) => StartInv(s, step);
    case FinishRequest(_) => FinishRequestInv(s, step);
    case RecordStopped(_) => RecordStoppedInv(s, step);
    case Fulfill(_) => FulfillInv(s, step);
    case FulfillElsewhere => FulfillInv(s, step);
    case RequestExit(_) => ExitInv(s, step);
    case Destroy => ExitInv(s, step);
    case DestroyDecides => DestroyStepInv(s, step);
    case DestroyDeletes => DestroyStepInv(s, step);
    case _ => MoveInv(s, step);
  }

  lemma {:induction false} RunInv(states: seq<State>, steps: seq<Step>, k: nat)
    requires IsRun(states, steps) && k < |states|
    ensures Inv(states[k])
  {
    hide Inv, Apply, Enabled;
    if k == 0 {
      var n :| n >= 1 && (states[0] == Initial(n) || states[0] == InitialTakeover(n));
      InitialInv(n);
    } else {
      RunInv(states, steps, k - 1);
      StepInv(states[k - 1], steps[k - 1]);
    }
  }

  // ---------------------------------------------------------------- completion

  /**
   sessionComplete has run exactly once if every thread has stopped and no request is outstanding, and not at all
   otherwise; in particular never after a failed INIT. What it reports is the recorded reason, which is a real one,
   and it hands the device over exactly when that reason leaves it usable.
   */
  lemma SessionCompletesOnce(states: seq<State>, steps: seq<Step>, k: nat)
    requires IsRun(states, steps) && k < |states|
    ensures var s := states[k];
            && s.completions == (if s.stoppedThreads == |s.pcs| && s.requests == {} then 1 else 0)
            && (s.completion.Some? <==> s.completions == 1)
            && (|s.pcs| > 0 && s.pcs[0] == InitFailed ==> s.completions == 0)
            && (s.completion.Some? ==> var c := s.completion.value;
                  c.reason == s.stopReason && c.reason != RUNNING && (c.device <==> c.reason == TAKEOVER || c.reason == DESTRUCTOR))
  {
    RunInv(states, steps, k);
    CountAll(states[k].pcs);
  }

  /** The first reason wins: once it is set it never changes, and stop_ stays set with it. */
  lemma {:induction false} FirstReasonWins(states: seq<State>, steps: seq<Step>, j: nat, k: nat)
    requires IsRun(states, steps) && j <= k < |states| && states[j].stopReason != RUNNING
    ensures states[k].stopReason == states[j].stopReason && states[k].stop
    decreases k - j
  {
    if j == k {
      RunInv(states, steps, j);
    } else {
      FirstReasonWins(states, steps, j, k - 1);
      ReasonKept(states[k - 1], steps[k - 1]);
    }
  }

  lemma ReasonKept(s: State, step: Step)
    requires Enabled(s, step) && s.stopReason != RUNNING && s.stop
    ensures Apply(s, step).stopReason == s.stopReason && Apply(s, step).stop
  {
  }

  // ---------------------------------------------------------------- deletion

  /**
   The channel is deleted at most once, by destroy() or by sessionComplete() and never by both, and not while a
   request is outstanding. Deletion is only left to completion when no worker runs and none can start.
   */
  lemma DeletedAtMostOnce(states: seq<State>, steps: seq<Step>, k: nat)
    requires IsRun(states, steps) && k < |states|
    ensures var s := states[k];
            && s.deletions <= 1
            && (s.deletions == 1 ==> s.requests == {} && s.destroy in {LeftToCompletion, Deleted})
            && (s.deletions == 1 && s.destroy == LeftToCompletion ==> s.completion.Some? && s.completion.value.destroy)
            && (s.destroyPending ==> Joined(s) && |s.pcs| > 0 && s.pcs[0] in {InitFailed, Stopped})
  {
    hide CountPast;
    RunInv(states, steps, k);
    var s := states[k];
    assert s.destroyPending ==> s.pcs[0] != NotStarted;
  }

  /** Nothing is left to happen on its own. */
  ghost predicate Quiescent(s: State) {
    forall step :: Enabled(s, step) ==> step.RequestExit? || step.Destroy?
  }

  lemma ThreadAtRest(s: State, i: nat)
    requires Inv(s) && Quiescent(s) && i < |s.pcs|
    ensures s.pcs[i] in {NotStarted, InitFailed, Stopped}
  {
    FirstOnly(s, i);
    hide Inv;
    assert !Enabled(s, ReadInit) && !Enabled(s, StartWorkers);
    assert !Enabled(s, TestStop(i)) && !Enabled(s, ReadAgain(i)) && !Enabled(s, RecordStopped(i)) && !Enabled(s, Fulfill(i));
  }

  lemma QuiescentShape(s: State)
    requires Inv(s) && Quiescent(s)
    ensures Joined(s) && s.requests == {} && s.destroy !in {Joining, DeleteNow}
    ensures s.completion.Some? ==> s.completion.value.fulfilled
  {
    hide Inv;
    forall i: nat | i < |s.pcs|
      ensures s.pcs[i] in {NotStarted, InitFailed, Stopped}
    {
      ThreadAtRest(s, i);
    }
    assert forall id :: id in s.requests ==> Enabled(s, FinishRequest(id));
    assert s.requests == {};
    assert !Enabled(s, DestroyDecides) && !Enabled(s, DestroyDeletes) && !Enabled(s, FulfillElsewhere);
  }

  lemma FirstOnly(s: State, i: nat)
    requires Inv(s) && i < |s.pcs|
    ensures s.pcs[i] in {InitReading, InitRead} ==> i == 0
  {
    hide CountPast;
  }

  /**
   When nothing is left to happen, every thread has returned, and the session has been completed, with its promise
   fulfilled, unless initialization failed or the channel was stopped before the other workers were created.
   */
  lemma CompletesUnlessNeverStarted(states: seq<State>, steps: seq<Step>, k: nat)
    requires IsRun(states, steps) && k < |states| && Quiescent(states[k])
    ensures var s := states[k];
            && Joined(s) && s.requests == {} && |s.pcs| > 0
            && (s.completion.Some? <==> s.pcs[0] != InitFailed && (|s.pcs| == 1 || s.pcs[1] != NotStarted))
            && (s.completion.Some? ==> s.completion.value.fulfilled)
  {
    RunInv(states, steps, k);
    QuiescentShape(states[k]);
    hide CountPast, Quiescent, DestroyInv;
    var s := states[k];
    if s.pcs[0] != InitFailed && (|s.pcs| == 1 || s.pcs[1] != NotStarted) {
      assert AllPast(s);
    } else {
      assert !Past(s.pcs[0]) || !Past(s.pcs[1]);
    }
  }

  /**
   After destroy(), when nothing is left to happen, the channel has been deleted exactly once, with one exception:
   thread creation had failed and destroy() had found requests outstanding. Then it is never deleted.
   */
  lemma DeletedExactlyOnceUnlessStartFailed(states: seq<State>, steps: seq<Step>, k: nat)
    requires IsRun(states, steps) && k < |states| && Quiescent(states[k]) && states[k].destroy != NotCalled
    ensures states[k].deletions == (if states[k].startFailed && states[k].destroy == LeftToCompletion then 0 else 1)
  {
    RunInv(states, steps, k);
    QuiescentShape(states[k]);
    hide CountPast, Quiescent;
    var s := states[k];
    if s.startFailed {
      assert !Past(s.pcs[0]);
    }
  }

  lemma RunThen(states: seq<State>, steps: seq<Step>, step: Step, next: State)
    requires IsRun(states, steps) && Enabled(Last(states), step) && next == Apply(Last(states), step)
    ensures IsRun(states + [next], steps + [step]) && Last(states + [next]) == next
  {
    hide Enabled, Apply;
  }

  lemma StartFails() returns (states: seq<State>, steps: seq<Step>)
    ensures states != [] && IsRun(states, steps)
    ensures Last(states) == State([InitFailed, Reading, NotStarted], INIT_FAILED, true, {}, 1, 0, false, true, true, 0, None, NotCalled, 0)
  {
    states, steps := [Initial(3)], [];
    assert IsRun(states, steps);
    var s1 := State([InitRead, NotStarted, NotStarted], RUNNING, false, {}, 1, 0, false, true, false, 0, None, NotCalled, 0);
    assert Apply(Initial(3), ReadInit).pcs == s1.pcs;
    RunThen(states, steps, ReadInit, s1);
    states, steps := states + [s1], steps + [ReadInit];
    var fails := StartWorkersFails(1, {1});
    var s2 := State([InitFailed, Reading, NotStarted], INIT_FAILED, true, {}, 1, 0, false, true, true, 0, None, NotCalled, 0);
    assert Apply(s1, fails).pcs == s2.pcs;
    RunThen(states, steps, fails, s2);
    states, steps := states + [s2], steps + [fails];
  }

  lemma LeavesRequest() returns (states: seq<State>, steps: seq<Step>)
    ensures states != [] && IsRun(states, steps)
    ensures Last(states) == State([InitFailed, Stopped, NotStarted], INIT_FAILED, true, {1}, 2, 1, false, true, true, 0, None, NotCalled, 0)
  {
    hide IsRun;
    states, steps := StartFails();
    var s1 := State([InitFailed, LoopHead, NotStarted], INIT_FAILED, true, {1}, 2, 0, false, true, true, 0, None, NotCalled, 0);
    RunThen(states, steps, BeginRequest(1), s1);
    states, steps := states + [s1], steps + [BeginRequest(1)];
    var s2 := s1.(pcs := [InitFailed, Exiting, NotStarted]);
    RunThen(states, steps, TestStop(1), s2);
    states, steps := states + [s2], steps + [TestStop(1)];
    var s3 := s2.(pcs := [InitFailed, Stopped, NotStarted], stoppedThreads := 1);
    RunThen(states, steps, RecordStopped(1), s3);
    states, steps := states + [s3], steps + [RecordStopped(1)];
  }

  /** The leak happens: the second of three threads takes a request, and creating the third one fails. */
  lemma LeakExample() returns (states: seq<State>, steps: seq<Step>)
    ensures states != [] && IsRun(states, steps)
    ensures Last(states).destroy == LeftToCompletion && Last(states).requests == {} && Last(states).deletions == 0
    ensures Last(states).startFailed && Quiescent(Last(states))
  {
    hide IsRun;
    states, steps := LeavesRequest();
    var s1 := Last(states).(destroy := Joining);
    RunThen(states, steps, Destroy, s1);
    states, steps := states + [s1], steps + [Destroy];
    var s2 := s1.(destroy := LeftToCompletion, destroyPending := true);
    RunThen(states, steps, DestroyDecides, s2);
    states, steps := states + [s2], steps + [DestroyDecides];
    var s3 := s2.(requests := {});
    RunThen(states, steps, FinishRequest(1), s3);
    states, steps := states + [s3], steps + [FinishRequest(1)];
    assert s3.pcs == [InitFailed, Stopped, NotStarted];
    AllOver(s3);
  }

  lemma AllOver(s: State)
    requires Joined(s) && s.requests == {} && s.completion == None && s.destroy == LeftToCompletion
    ensures Quiescent(s)
  {
  }

  // ---------------------------------------------------------------- which reason is kept

  /** A series of exit requests. */
  function WithExits(s: State, reasons: seq<StopReason>): State {
    if reasons == [] then s else WithExit(WithExits(s, Init(reasons)), Last(reasons))
  }

  /** The reason that should be recorded after them, by the rule in the comment of requestSessionExit. */
  function Intended(reasons: seq<StopReason>): StopReason {
    if reasons == [] then RUNNING
    else
      var r, reason := Intended(Init(reasons)), Last(reasons);
      if r == RUNNING then reason
      else if IsFuseDeviceValid(r) && !IsFuseDeviceValid(reason) then reason else r
  }

  predicate AllValid(reasons: seq<StopReason>) {
    forall i :: 0 <= i < |reasons| ==> IsFuseDeviceValid(reasons[i])
  }

  lemma {:induction false} IntendedReason(s: State, reasons: seq<StopReason>)
    requires s.stopReason == RUNNING && reasons != [] && forall i :: 0 <= i < |reasons| ==> reasons[i] != RUNNING
    ensures WithExits(s, reasons) == s.(stopReason := reasons[0], stop := true) && Intended(reasons) != RUNNING
    ensures AllValid(reasons) || !IsFuseDeviceValid(reasons[0]) ==> Intended(reasons) == reasons[0]
    ensures !AllValid(reasons) ==> !IsFuseDeviceValid(Intended(reasons))
  {
    if |reasons| > 1 {
      IntendedReason(s, Init(reasons));
    } else {
      assert Init(reasons) == [];
    }
  }

  /** The code keeps the documented reason exactly when no later reason takes away a device the first one left usable. */
  lemma UpgradeIsNeverMade(s: State, reasons: seq<StopReason>)
    requires s.stopReason == RUNNING && reasons != [] && forall i :: 0 <= i < |reasons| ==> reasons[i] != RUNNING
    ensures WithExits(s, reasons).stopReason == Intended(reasons) <==> !IsFuseDeviceValid(reasons[0]) || AllValid(reasons)
  {
    IntendedReason(s, reasons);
  }
}
