/**
 One FUSE request: the handler, which may try to reply at any moment, the timeout, the three chained error
 handlers, and the two clean-up steps after them, in any interleaving.
 */
module RequestReply {
  import opened Common

  const EIO := 5
  const ETIMEDOUT := 110

  /**
   How a future can end; a system failure carries its error number if it has one, and Foreign is an exception outside
   std::exception, which no error handler catches.
   */
  datatype Outcome = Fine | TimedOut | SystemFailure(errno: Option<int>) | OtherFailure | Foreign

  datatype Message = HandlerMessage | ErrorMessage(errno: int)

  /** The callbacks in the order in which they were chained. */
  datatype Stage = Waiting | TimeoutHandler | SystemHandler | GenericHandler | FinishStats | EraseRequest | Complete

  /**
   header is present while the opcode is not 0; sent are the messages written with this request's id, released counts
   the calls that consumed the header without a message.
   */
  datatype State = State(
    header: bool,
    sent: seq<Message>,
    released: nat,
    handlerRunning: bool,
    stage: Stage,
    outcome: Outcome,
    finished: nat,
    erased: nat)

  datatype Step =
    | HandlerReplies(writeFails: bool)   // sendReply or replyError called from the handler
    | HandlerReleases                    // replyNone
    | HandlerEnds(result: Outcome)
    | Timeout                            // the future gives up waiting; the handler goes on
    | NextCallback(writeFails: bool)

  function Initial(): State {
    State(true, [], 0, true, Waiting, Fine, 0, 0)
  }

  /** stealReq followed by a write: the first caller gets the header, everyone after that an exception. */
  function Reply(s: State, m: Message, writeFails: bool): (r: (State, Outcome)) {
    if !s.header then (s, OtherFailure)
    else (s.(header := false, sent := s.sent + [m]), if writeFails then SystemFailure(None) else Fine)
  }

  predicate Enabled(s: State, step: Step) {
    match step
    case HandlerReplies(_) => s.handlerRunning
    case HandlerReleases => s.handlerRunning
    case HandlerEnds(_) => s.handlerRunning
    case Timeout => s.stage == Waiting
    case NextCallback(_) => s.stage != Waiting && s.stage != Complete
  }

  /** The chain starts with the result of the handler or with the timeout, whichever is first. */
  function Begin(s: State, result: Outcome): State {
    if s.stage != Waiting then s else s.(stage := TimeoutHandler, outcome := result)
  }

  /** The message of the error handler at this place of the chain, if it catches the outcome. */
  function Caught(stage: Stage, outcome: Outcome): Option<Message> {
    match stage
    case TimeoutHandler => if outcome.TimedOut? then Some(ErrorMessage(ETIMEDOUT)) else None
    case SystemHandler =>
      if outcome.SystemFailure? then Some(ErrorMessage(if outcome.errno.Some? then outcome.errno.value else EIO)) else None
    case GenericHandler => if outcome.Fine? || outcome.Foreign? then None else Some(ErrorMessage(EIO))
    case _ => None
  }

  function Next(stage: Stage): Stage {
    match stage
    case Waiting => TimeoutHandler
    case TimeoutHandler => SystemHandler
    case SystemHandler => GenericHandler
    case GenericHandler => FinishStats
    case FinishStats => EraseRequest
    case EraseRequest => Complete
    case Complete => Complete
  }

  function Apply(s: State, step: Step): State
    requires Enabled(s, step)
  {
    match step
    case HandlerReplies(writeFails) => Reply(s, HandlerMessage, writeFails).0
    case HandlerReleases => if s.header then s.(header := false, released := s.released + 1) else s
    case HandlerEnds(result) => Begin(s.(handlerRunning := false), result)
    case Timeout => Begin(s, TimedOut)
    case NextCallback(writeFails) =>
      var s1 :=
        match Caught(s.stage, s.outcome)
        case Some(m) => var r := Reply(s, m, writeFails); r.0.(outcome := r.1)
        case None =>
          if s.stage == FinishStats then s.(finished := s.finished + 1)
          else if s.stage == EraseRequest then s.(erased := s.erased + 1)
          else s;
      s1.(stage := Next(s.stage))
  }

  ghost predicate IsRun(states: seq<State>, steps: seq<Step>) {
    && |states| == |steps| + 1 && states[0] == Initial()
    && forall k :: 0 <= k < |steps| ==> Enabled(states[k], steps[k]) && states[k + 1] == Apply(states[k], steps[k])
  }

  function Position(stage: Stage): nat {
    match stage
    case Waiting => 0
    case TimeoutHandler => 1
    case SystemHandler => 2
    case GenericHandler => 3
    case FinishStats => 4
    case EraseRequest => 5
    case Complete => 6
  }

  // ---------------------------------------------------------------- at most one message

  /** The header is consumed once, and each clean-up callback runs when the chain comes to it. */
  predicate Inv(s: State) {
    && |s.sent| + s.released == (if s.header then 0 else 1)
    && s.finished == (if Position(s.stage) > 4 then 1 else 0)
    && s.erased == (if Position(s.stage) > 5 then 1 else 0)
  }

  lemma StepInv(s: State, step: Step)
    requires Inv(s) && Enabled(s, step)
    ensures Inv(Apply(s, step))
  {
  }

  lemma {:induction false} RunInv(states: seq<State>, steps: seq<Step>, k: nat)
    requires IsRun(states, steps) && k < |states|
    ensures Inv(states[k])
  {
    if k == 0 {
    } else {
      RunInv(states, steps, k - 1);
      StepInv(states[k - 1], steps[k - 1]);
    }
  }

  /** Nothing more is written once the header is gone. */
  lemma {:induction false} SilentAfterReply(states: seq<State>, steps: seq<Step>, j: nat, k: nat)
    requires IsRun(states, steps) && j <= k < |states| && !states[j].header
    ensures !states[k].header && states[k].sent == states[j].sent && states[k].released == states[j].released
    decreases k - j
  {
    if j == k {
    } else {
      SilentAfterReply(states, steps, j, k - 1);
    }
  }

  // ---------------------------------------------------------------- what the steps say

  /** With what a step would start the chain. */
  function Starts(step: Step): Option<Outcome> {
    match step
    case HandlerEnds(result) => Some(result)
    case Timeout => Some(TimedOut)
    case _ => None
  }

  /** The chain begins with the first of them. */
  function FirstStart(steps: seq<Step>): Option<Outcome> {
    if steps == [] then None
    else
      var earlier := FirstStart(Init(steps));
      if earlier.Some? then earlier else Starts(Last(steps))
  }

  /** In the first k steps the handler replied or released the request. */
  ghost predicate HandlerSpoke(steps: seq<Step>, k: nat) {
    exists j :: 0 <= j < k && j < |steps| && (steps[j].HandlerReplies? || steps[j].HandlerReleases?)
  }

  /** What a request gets whose handler says nothing. */
  function Answer(start: Outcome): seq<Message> {
    match start
    case Fine => []
    case Foreign => []
    case TimedOut => [ErrorMessage(110)]
    case SystemFailure(Some(e)) => [ErrorMessage(e)]
    case SystemFailure(None) => [ErrorMessage(5)]
    case OtherFailure => [ErrorMessage(5)]
  }

  /** Where in the chain an outcome is caught; beyond the error handlers if it is not. */
  function CaughtAt(o: Outcome): nat {
    match o
    case TimedOut => 1
    case SystemFailure(_) => 2
    case OtherFailure => 3
    case _ => 6
  }

  /** While the handler says nothing: untouched until the outcome is caught, answered from then on. */
  predicate Quiet(s: State, start: Option<Outcome>) {
    && s.released == 0 && (s.stage == Waiting <==> start.None?)
    && (start.None? ==> s.header && s.sent == [])
    && (start.Some? && Position(s.stage) <= CaughtAt(start.value) ==> s.header && s.sent == [] && s.outcome == start.value)
    && (start.Some? && Position(s.stage) > CaughtAt(start.value) ==> !s.header && s.sent == Answer(start.value))
  }

  lemma QuietStep(s: State, step: Step, start: Option<Outcome>)
    requires Quiet(s, start) && Enabled(s, step) && !step.HandlerReplies? && !step.HandlerReleases?
    ensures Quiet(Apply(s, step), if start.Some? then start else Starts(step))
  {
    match step
    case HandlerEnds(_) =>
    case Timeout =>
    case NextCallback(_) => assert start.Some?;
  }

  lemma {:induction false} QuietRun(states: seq<State>, steps: seq<Step>, k: nat)
    requires IsRun(states, steps) && k < |states| && !HandlerSpoke(steps, k)
    ensures Quiet(states[k], FirstStart(steps[..k]))
  {
    hide Quiet, Apply, Enabled;
    if k == 0 {
      InitialIsQuiet();
    } else {
      assert !steps[k - 1].HandlerReplies? && !steps[k - 1].HandlerReleases?;
      assert !HandlerSpoke(steps, k - 1);
      QuietRun(states, steps, k - 1);
      QuietStep(states[k - 1], steps[k - 1], FirstStart(steps[..k - 1]));
      assert Init(steps[..k]) == steps[..k - 1] && Last(steps[..k]) == steps[k - 1];
    }
  }

  lemma InitialIsQuiet()
    ensures Quiet(Initial(), None)
  {
  }

  /**
   While the chain is in or before the handler that would catch its first outcome, the only way to lose the header is
   through the handler; after that handler the header is gone.
   */
  predicate CaughtByNow(s: State, start: Option<Outcome>) {
    && (s.header && start.Some? ==> Position(s.stage) <= CaughtAt(start.value) && s.outcome == start.value)
    && (s.stage == Waiting <==> start.None?)
  }

  lemma CaughtStep(s: State, step: Step, start: Option<Outcome>)
    requires CaughtByNow(s, start) && Enabled(s, step)
    ensures CaughtByNow(Apply(s, step), if start.Some? then start else Starts(step))
  {
  }

  lemma {:induction false} CaughtRun(states: seq<State>, steps: seq<Step>, k: nat)
    requires IsRun(states, steps) && k < |states|
    ensures CaughtByNow(states[k], FirstStart(steps[..k]))
  {
    hide Apply, Enabled;
    if k == 0 {
    } else {
      CaughtRun(states, steps, k - 1);
      CaughtStep(states[k - 1], steps[k - 1], FirstStart(steps[..k - 1]));
      assert Init(steps[..k]) == steps[..k - 1] && Last(steps[..k]) == steps[k - 1];
    }
  }

  predicate IsError(o: Outcome) {
    !o.Fine? && !o.Foreign?
  }

  // ---------------------------------------------------------------- the theorems

  /**
   In every interleaving at most one message with this request's id is written, however often the handler, the
   timeout and the error handlers try; the statistics are closed and the request erased at most once each, and
   exactly once when the chain has run; and a request whose handler failed, or was late, is answered or released by
   the time its statistics are closed.
   */
  lemma AtMostOneReply(states: seq<State>, steps: seq<Step>, k: nat)
    requires IsRun(states, steps) && k < |states|
    ensures var s, start := states[k], FirstStart(steps[..k]);
            && |s.sent| + s.released <= 1
            && s.finished <= 1 && s.erased <= 1 && (s.stage == Complete ==> s.finished == 1 && s.erased == 1)
            && (start.Some? && IsError(start.value) && s.finished == 1 ==> |s.sent| + s.released == 1)
  {
    RunInv(states, steps, k);
    CaughtRun(states, steps, k);
  }

  /** A request whose handler says nothing gets the message that the first end of the chain calls for, and no other. */
  lemma SilentHandlerGetsAnswer(states: seq<State>, steps: seq<Step>, k: nat)
    requires IsRun(states, steps) && k < |states| && states[k].stage == Complete && !HandlerSpoke(steps, k)
    ensures FirstStart(steps[..k]).Some? && states[k].sent == Answer(FirstStart(steps[..k]).value) && states[k].released == 0
  {
    QuietRun(states, steps, k);
  }

  /**
   When the chain has run, the request is unanswered exactly if the handler never replied or released it and ended, in
   time, well or with an exception that nothing catches.
   */
  lemma UnansweredExactlyIfNobodySpoke(states: seq<State>, steps: seq<Step>, k: nat)
    requires IsRun(states, steps) && k < |states| && states[k].stage == Complete
    ensures states[k].sent == [] && states[k].released == 0 <==>
            !HandlerSpoke(steps, k) && (FirstStart(steps[..k]) == Some(Fine) || FirstStart(steps[..k]) == Some(Foreign))
  {
    RunInv(states, steps, k);
    if HandlerSpoke(steps, k) {
      var j :| 0 <= j < k && (steps[j].HandlerReplies? || steps[j].HandlerReleases?);
      SilentAfterReply(states, steps, j + 1, k);
    } else {
      SilentHandlerGetsAnswer(states, steps, k);
    }
  }

  /** A handler that speaks while the header is there is heard, whatever comes after. */
  lemma FirstToSpeakIsHeard(states: seq<State>, steps: seq<Step>, j: nat, k: nat)
    requires IsRun(states, steps) && j < k < |states| && states[j].header
    requires steps[j].HandlerReplies? || steps[j].HandlerReleases?
    ensures steps[j].HandlerReplies? ==> states[k].sent == [HandlerMessage] && states[k].released == 0
    ensures steps[j].HandlerReleases? ==> states[k].sent == [] && states[k].released == 1
  {
    RunInv(states, steps, j);
    SilentAfterReply(states, steps, j + 1, k);
  }

  lemma {:induction false} RunningUntilItEnds(states: seq<State>, steps: seq<Step>, k: nat)
    requires IsRun(states, steps) && k < |states|
    ensures states[k].handlerRunning <==> forall j :: 0 <= j < k ==> !steps[j].HandlerEnds?
  {
    if k == 0 {
    } else {
      RunningUntilItEnds(states, steps, k - 1);
      assert states[k].handlerRunning <==> states[k - 1].handlerRunning && !steps[k - 1].HandlerEnds?;
    }
  }

  /** A handler that goes on after its request was answered may still try to reply or release it, and changes nothing. */
  lemma LateHandlerIsIgnored(states: seq<State>, steps: seq<Step>, k: nat, writeFails: bool)
    requires IsRun(states, steps) && k < |states| && !states[k].header && forall j :: 0 <= j < k ==> !steps[j].HandlerEnds?
    ensures Enabled(states[k], HandlerReplies(writeFails)) && Apply(states[k], HandlerReplies(writeFails)) == states[k]
    ensures Enabled(states[k], HandlerReleases) && Apply(states[k], HandlerReleases) == states[k]
  {
    RunningUntilItEnds(states, steps, k);
  }

  /** When nothing is left to happen the handler has ended and the whole chain has run. */
  lemma ChainRuns(states: seq<State>, steps: seq<Step>, k: nat)
    requires IsRun(states, steps) && k < |states| && forall step :: !Enabled(states[k], step)
    ensures states[k].stage == Complete && exists j :: 0 <= j < k && steps[j].HandlerEnds?
  {
    RunningUntilItEnds(states, steps, k);
    assert !Enabled(states[k], Timeout) && !Enabled(states[k], NextCallback(false)) && !Enabled(states[k], HandlerEnds(Fine));
  }
}
