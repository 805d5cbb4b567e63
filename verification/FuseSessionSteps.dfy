/**
 The life of a FUSE channel told by its steps: which reason is recorded, which requests are outstanding, how many
 threads have stopped, and who deletes the channel.
 */
module FuseSessionSteps {
  import opened Common
  import opened FuseSession
  import opened FuseSessionTheorems

  // ---------------------------------------------------------------- counting steps

  /** How many of the first k steps are of a kind, which may depend on the state before the step. */
  ghost function Tally(kind: (State, Step) -> bool, states: seq<State>, steps: seq<Step>, k: nat): nat
    requires k <= |steps| < |states|
  {
    if k == 0 then 0 else Tally(kind, states, steps, k - 1) + (if kind(states[k - 1], steps[k - 1]) then 1 else 0)
  }

  ghost predicate Happened(steps: seq<Step>, k: nat, step: Step) {
    exists j :: 0 <= j < k && j < |steps| && steps[j] == step
  }

  // ---------------------------------------------------------------- the reason

  /** The reason that a step gives for stopping; RUNNING if it gives none. */
  function Asked(step: Step): StopReason {
    match step
    case Destroy => DESTRUCTOR
    case RequestExit(reason) => reason
    case StopReading(_, reason) => reason
    case StartWorkersFails(_, _) => INIT_FAILED
    case _ => RUNNING
  }

  /** What the first step that gives a reason says. */
  function FirstAsked(steps: seq<Step>): StopReason {
    if steps == [] then RUNNING
    else
      var earlier := FirstAsked(Init(steps));
      if earlier != RUNNING then earlier else Asked(Last(steps))
  }

  lemma ReasonStep(s: State, step: Step)
    requires Enabled(s, step)
    ensures Apply(s, step).stopReason == if s.stopReason != RUNNING then s.stopReason else Asked(step)
  {
    hide Joined;
    if IsMove(step) {
    } else if step.FinishRequest? || step.RecordStopped? {
    } else if step.Fulfill? || step.FulfillElsewhere? {
    } else if step.StartWorkers? || step.StartWorkersFails? {
    }
  }

  lemma PrefixStep(steps: seq<Step>, k: nat)
    requires 0 < k <= |steps|
    ensures Init(steps[..k]) == steps[..k - 1] && Last(steps[..k]) == steps[k - 1]
  {
  }

  /** The reason recorded is the one that the first step to ask for a stop gave. */
  lemma {:induction false} ReasonIsFirstAsked(states: seq<State>, steps: seq<Step>, k: nat)
    requires IsRun(states, steps) && k < |states|
    ensures states[k].stopReason == FirstAsked(steps[..k])
  {
    hide Apply, Enabled;
    if k == 0 {
    } else {
      ReasonIsFirstAsked(states, steps, k - 1);
      ReasonStep(states[k - 1], steps[k - 1]);
      PrefixStep(steps, k);
    }
  }

  /**
   What sessionComplete reports is the reason of the first step that asked to stop, and it hands over the device exactly
   if that was a takeover or the destructor.
   */
  lemma ReportsFirstAsked(states: seq<State>, steps: seq<Step>, k: nat)
    requires IsRun(states, steps) && k < |states| && states[k].completion.Some?
    ensures var c := states[k].completion.value;
            && c.reason == FirstAsked(steps[..k]) != RUNNING
            && (c.device <==> FirstAsked(steps[..k]) == TAKEOVER || FirstAsked(steps[..k]) == DESTRUCTOR)
  {
    ReasonIsFirstAsked(states, steps, k);
    SessionCompletesOnce(states, steps, k);
  }

  // ---------------------------------------------------------------- requests and stopped threads

  function Stops(): (State, Step) -> bool {
    (s: State, step: Step) => step.RecordStopped?
  }

  function Begins(): (State, Step) -> bool {
    (s: State, step: Step) => step.BeginRequest?
  }

  lemma TableStep(s: State, step: Step)
    requires Enabled(s, step)
    ensures Apply(s, step).requests == (if step.BeginRequest? then s.requests + {s.nextRequestId}
                                        else if step.FinishRequest? then s.requests - {step.id} else s.requests)
  {
    hide Joined;
    if IsMove(step) {
    } else if step.FinishRequest? || step.RecordStopped? {
    } else if step.Fulfill? || step.FulfillElsewhere? {
    } else if step.StartWorkers? || step.StartWorkersFails? {
    }
  }

  lemma NumberStep(s: State, step: Step)
    requires Enabled(s, step)
    ensures Apply(s, step).nextRequestId == s.nextRequestId + (if step.BeginRequest? then 1 else 0)
  {
    hide Joined;
    if IsMove(step) {
    } else if step.FinishRequest? || step.RecordStopped? {
    } else if step.Fulfill? || step.FulfillElsewhere? {
    } else if step.StartWorkers? || step.StartWorkersFails? {
    }
  }

  lemma ThreadStep(s: State, step: Step)
    requires Enabled(s, step)
    ensures Apply(s, step).stoppedThreads == s.stoppedThreads + (if step.RecordStopped? then 1 else 0)
    ensures |Apply(s, step).pcs| == |s.pcs|
  {
    hide Joined;
    if IsMove(step) {
    } else if step.FinishRequest? || step.RecordStopped? {
    } else if step.Fulfill? || step.FulfillElsewhere? {
    } else if step.StartWorkers? || step.StartWorkersFails? {
    }
  }

  /** The threads counted as stopped are those that recorded it, and requests get the numbers from 1 on as they begin. */
  lemma {:induction false} CountersAreTallies(states: seq<State>, steps: seq<Step>, k: nat)
    requires IsRun(states, steps) && k < |states|
    ensures states[k].stoppedThreads == Tally(Stops(), states, steps, k)
    ensures states[k].nextRequestId == 1 + Tally(Begins(), states, steps, k)
    ensures |states[k].pcs| == |states[0].pcs|
  {
    hide Apply, Enabled;
    if k == 0 {
    } else {
      CountersAreTallies(states, steps, k - 1);
      NumberStep(states[k - 1], steps[k - 1]);
      ThreadStep(states[k - 1], steps[k - 1]);
    }
  }

  /** The table holds exactly the requests that have begun and not finished. */
  lemma {:induction false} OutstandingRequests(states: seq<State>, steps: seq<Step>, k: nat, id: nat)
    requires IsRun(states, steps) && k < |states|
    ensures id in states[k].requests <==> 1 <= id <= Tally(Begins(), states, steps, k) && !Happened(steps, k, FinishRequest(id))
  {
    hide Apply;
    CountersAreTallies(states, steps, k);
    if k == 0 {
    } else {
      var step := steps[k - 1];
      OutstandingRequests(states, steps, k - 1, id);
      CountersAreTallies(states, steps, k - 1);
      TableStep(states[k - 1], step);
      NumberStep(states[k - 1], step);
      assert Happened(steps, k, FinishRequest(id)) <==> Happened(steps, k - 1, FinishRequest(id)) || step == FinishRequest(id);
      if step.BeginRequest? && id == states[k - 1].nextRequestId {
        NotFinishedBefore(states, steps, k - 1, id);
      }
    }
  }

  lemma {:induction false} NotFinishedBefore(states: seq<State>, steps: seq<Step>, k: nat, id: nat)
    requires IsRun(states, steps) && k < |states| && id >= states[k].nextRequestId
    ensures !Happened(steps, k, FinishRequest(id))
    decreases k
  {
    hide Apply;
    if k == 0 {
    } else {
      NumberStep(states[k - 1], steps[k - 1]);
      NotFinishedBefore(states, steps, k - 1, id);
      assert id !in states[k - 1].requests by { KnownRequests(states, steps, k - 1, id); }
    }
  }

  lemma KnownRequests(states: seq<State>, steps: seq<Step>, k: nat, id: nat)
    requires IsRun(states, steps) && k < |states| && id >= states[k].nextRequestId
    ensures id !in states[k].requests
  {
    hide CompletionInv, DestroyInv, CountPast;
    RunInv(states, steps, k);
  }

  /** The step that lets sessionComplete begin: the last thread to stop or the last request to finish. */
  predicate Completes(s: State, step: Step) {
    || (step.RecordStopped? && s.requests == {} && s.stoppedThreads + 1 == |s.pcs|)
    || (step.FinishRequest? && s.requests - {step.id} == {} && s.stoppedThreads == |s.pcs|)
  }

  lemma CompletesStep(s: State, step: Step)
    requires Enabled(s, step)
    ensures Apply(s, step).completions == s.completions + (if Completes(s, step) then 1 else 0)
  {
    hide Joined;
    if IsMove(step) {
    } else if step.FinishRequest? || step.RecordStopped? {
    } else if step.Fulfill? || step.FulfillElsewhere? {
    } else if step.StartWorkers? || step.StartWorkersFails? {
    }
  }

  /** sessionComplete is entered once for each such step, and in a whole run there is one at most. */
  lemma {:induction false} CompletionsAreTally(states: seq<State>, steps: seq<Step>, k: nat)
    requires IsRun(states, steps) && k < |states|
    ensures states[k].completions == Tally(Completes, states, steps, k) <= 1
  {
    hide Apply, Enabled;
    SessionCompletesOnce(states, steps, k);
    if k == 0 {
    } else {
      CompletionsAreTally(states, steps, k - 1);
      CompletesStep(states[k - 1], steps[k - 1]);
    }
  }

  // ---------------------------------------------------------------- starting

  ghost predicate SetUpFailed(steps: seq<Step>, k: nat) {
    exists j :: 0 <= j < k && j < |steps| && (steps[j].FailInit? || steps[j].StartWorkersFails?)
  }

  ghost predicate CreationFailed(steps: seq<Step>, k: nat) {
    exists j :: 0 <= j < k && j < |steps| && steps[j].StartWorkersFails?
  }

  /** The other workers were created: all at once in a takeover, or when nobody had asked to stop before. */
  ghost predicate Created(states: seq<State>, steps: seq<Step>, k: nat)
    requires states != []
  {
    states[0].connInfo || exists j :: 0 <= j < k && j < |steps| && steps[j].StartWorkers? && FirstAsked(steps[..j]) == RUNNING
  }

  lemma SetUpStep(s: State, step: Step)
    requires Enabled(s, step) && |s.pcs| > 0
    ensures |Apply(s, step).pcs| == |s.pcs|
    ensures Apply(s, step).pcs[0] == InitFailed <==> s.pcs[0] == InitFailed || step.FailInit? || step.StartWorkersFails?
  {
    hide Joined;
    if IsMove(step) {
    } else if step.FinishRequest? || step.RecordStopped? {
    } else if step.Fulfill? || step.FulfillElsewhere? {
    } else if step.StartWorkers? || step.StartWorkersFails? {
    }
  }

  lemma FailureStep(s: State, step: Step)
    requires Enabled(s, step)
    ensures Apply(s, step).startFailed <==> s.startFailed || step.StartWorkersFails?
  {
    hide Joined;
    if IsMove(step) {
    } else if step.FinishRequest? || step.RecordStopped? {
    } else if step.Fulfill? || step.FulfillElsewhere? {
    } else if step.StartWorkers? || step.StartWorkersFails? {
    }
  }

  lemma SecondStep(s: State, step: Step)
    requires Enabled(s, step) && |s.pcs| > 1 && !step.StartWorkersFails?
    ensures |Apply(s, step).pcs| == |s.pcs|
    ensures Apply(s, step).pcs[1] != NotStarted <==> s.pcs[1] != NotStarted || (step.StartWorkers? && s.stopReason == RUNNING)
  {
    hide Joined;
    if IsMove(step) {
    } else if step.FinishRequest? || step.RecordStopped? {
    } else if step.Fulfill? || step.FulfillElsewhere? {
    } else if step.StartWorkers? || step.StartWorkersFails? {
    }
  }

  lemma {:induction false} SetUp(states: seq<State>, steps: seq<Step>, k: nat)
    requires IsRun(states, steps) && k < |states|
    ensures var s := states[k];
            && |s.pcs| > 0
            && (s.pcs[0] == InitFailed <==> SetUpFailed(steps, k))
            && (s.startFailed <==> CreationFailed(steps, k))
            && (|s.pcs| > 1 && !SetUpFailed(steps, k) ==> (s.pcs[1] != NotStarted <==> Created(states, steps, k)))
  {
    hide Apply, Enabled, Inv;
    if k == 0 {
    } else {
      SetUp(states, steps, k - 1);
      SetUpStep(states[k - 1], steps[k - 1]);
      FailureStep(states[k - 1], steps[k - 1]);
      if |states[k - 1].pcs| > 1 && !steps[k - 1].StartWorkersFails? {
        SecondStep(states[k - 1], steps[k - 1]);
      }
      ReasonIsFirstAsked(states, steps, k - 1);
      assert SetUpFailed(steps, k) <==> SetUpFailed(steps, k - 1) || steps[k - 1].FailInit? || steps[k - 1].StartWorkersFails?;
      assert CreationFailed(steps, k) <==> CreationFailed(steps, k - 1) || steps[k - 1].StartWorkersFails?;
      assert Created(states, steps, k) <==>
             Created(states, steps, k - 1) || (steps[k - 1].StartWorkers? && FirstAsked(steps[..k - 1]) == RUNNING);
    }
  }

  /**
   When nothing is left to happen, the session has been completed and its promise fulfilled exactly if no step of the
   set-up failed and the other workers, if there are to be any, were created before anybody asked to stop.
   */
  lemma CompletesIfCreated(states: seq<State>, steps: seq<Step>, k: nat)
    requires IsRun(states, steps) && k < |states| && Quiescent(states[k])
    ensures states[k].completion.Some? <==> !SetUpFailed(steps, k) && (|states[0].pcs| == 1 || Created(states, steps, k))
    ensures states[k].completion.Some? ==> states[k].completion.value.fulfilled
  {
    hide Quiescent, IsRun;
    CompletesUnlessNeverStarted(states, steps, k);
    SetUp(states, steps, k);
    CountersAreTallies(states, steps, k);
  }

  // ---------------------------------------------------------------- deletion

  /** A step that deletes the channel. */
  predicate Deletes(s: State, step: Step) {
    || step.DestroyDeletes?
    || ((step.Fulfill? || step.FulfillElsewhere?) && s.completion.Some? && s.completion.value.destroy)
  }

  lemma DeletesStep(s: State, step: Step)
    requires Enabled(s, step)
    ensures Apply(s, step).deletions == s.deletions + (if Deletes(s, step) then 1 else 0)
  {
    hide Joined;
    if IsMove(step) {
    } else if step.FinishRequest? || step.RecordStopped? {
    } else if step.Fulfill? || step.FulfillElsewhere? {
    } else if step.StartWorkers? || step.StartWorkersFails? {
    }
  }

  lemma DestroyStep(s: State, step: Step)
    requires Enabled(s, step)
    ensures Apply(s, step).destroy == LeftToCompletion <==>
              s.destroy == LeftToCompletion || (step.DestroyDecides? && s.requests != {})
    ensures Apply(s, step).destroy != NotCalled <==> s.destroy != NotCalled || step.Destroy?
  {
    hide Joined;
    if IsMove(step) {
    } else if step.FinishRequest? || step.RecordStopped? {
    } else if step.Fulfill? || step.FulfillElsewhere? {
    } else if step.StartWorkers? || step.StartWorkersFails? {
    }
  }

  /** destroy() found requests outstanding when all threads were joined. */
  ghost predicate FoundRequests(states: seq<State>, steps: seq<Step>, k: nat)
    requires k <= |steps| < |states|
  {
    exists j :: 0 <= j < k && steps[j].DestroyDecides? && states[j].requests != {}
  }

  lemma {:induction false} DeletionsAreTally(states: seq<State>, steps: seq<Step>, k: nat)
    requires IsRun(states, steps) && k < |states|
    ensures states[k].deletions == Tally(Deletes, states, steps, k)
    ensures states[k].destroy == LeftToCompletion <==> FoundRequests(states, steps, k)
    ensures states[k].destroy != NotCalled <==> Happened(steps, k, Destroy)
  {
    hide Apply, Enabled;
    if k == 0 {
    } else {
      DeletionsAreTally(states, steps, k - 1);
      DeletesStep(states[k - 1], steps[k - 1]);
      DestroyStep(states[k - 1], steps[k - 1]);
      assert FoundRequests(states, steps, k) <==>
             FoundRequests(states, steps, k - 1) || (steps[k - 1].DestroyDecides? && states[k - 1].requests != {});
      assert Happened(steps, k, Destroy) <==> Happened(steps, k - 1, Destroy) || steps[k - 1] == Destroy;
    }
  }

  /**
   Once destroy() was called and nothing is left to happen, exactly one step has deleted the channel, unless creating a
   thread had failed and destroy() had found requests outstanding: then none has.
   */
  lemma OneStepDeletes(states: seq<State>, steps: seq<Step>, k: nat)
    requires IsRun(states, steps) && k < |states| && Quiescent(states[k]) && Happened(steps, k, Destroy)
    ensures Tally(Deletes, states, steps, k) == if CreationFailed(steps, k) && FoundRequests(states, steps, k) then 0 else 1
  {
    hide Quiescent, IsRun;
    DeletionsAreTally(states, steps, k);
    SetUp(states, steps, k);
    DeletedExactlyOnceUnlessStartFailed(states, steps, k);
  }

  function Alone(pc: Pc, reason: StopReason): State {
    InitialTakeover(1).(pcs := [pc], stopReason := reason, stop := reason != RUNNING)
  }

  lemma LoneThreadStops(reason: StopReason)
    requires reason != RUNNING
    ensures Alone(LoopHead, RUNNING) == InitialTakeover(1)
    ensures var s := Alone(LoopHead, RUNNING); Enabled(s, TestStop(0)) && Apply(s, TestStop(0)) == Alone(Reading, RUNNING)
    ensures var s := Alone(Reading, RUNNING); Enabled(s, StopReading(0, reason)) && Apply(s, StopReading(0, reason)) == Alone(Exiting, reason)
  {
    assert InitialTakeover(1).pcs == [LoopHead];
  }

  lemma LoneThreadReports(reason: StopReason)
    ensures var s := Alone(Exiting, reason);
            Enabled(s, RecordStopped(0)) && Apply(s, RecordStopped(0)).completion.Some? &&
            Apply(s, RecordStopped(0)).completion.value.reason == reason
  {
  }

  /** Every reason can be the one that is reported. */
  lemma AnyReasonIsReported(reason: StopReason) returns (states: seq<State>, steps: seq<Step>)
    requires reason != RUNNING
    ensures IsRun(states, steps) && states != [] && Last(states).completion.Some? && Last(states).completion.value.reason == reason
  {
    hide Apply, Enabled;
    LoneThreadStops(reason);
    LoneThreadReports(reason);
    hide Alone;
    states, steps := [Alone(LoopHead, RUNNING)], [];
    assert IsRun(states, steps);
    hide IsRun;
    RunThen(states, steps, TestStop(0), Alone(Reading, RUNNING));
    states, steps := states + [Alone(Reading, RUNNING)], steps + [TestStop(0)];
    RunThen(states, steps, StopReading(0, reason), Alone(Exiting, reason));
    states, steps := states + [Alone(Exiting, reason)], steps + [StopReading(0, reason)];
    var s := Apply(Alone(Exiting, reason), RecordStopped(0));
    RunThen(states, steps, RecordStopped(0), s);
    states, steps := states + [s], steps + [RecordStopped(0)];
  }
}
