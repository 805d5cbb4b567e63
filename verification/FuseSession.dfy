/**
 The life of a FUSE channel: worker threads, outstanding requests, the reason to stop, completion of the
 session and deferred deletion. Each locked section, and each step outside a lock, is one transition;
 a run is any interleaving of them.
 */
module FuseSession {
  import opened Common

  datatype StopReason =
    | RUNNING | INIT_FAILED | UNMOUNTED | TAKEOVER | DESTRUCTOR
    | FUSE_READ_ERROR | FUSE_WRITE_ERROR | FUSE_TRUNCATED_REQUEST | WORKER_EXCEPTION

  /** Where a worker thread is. The first thread alone goes through the Init states. */
  datatype Pc =
    | NotStarted    // not created yet
    | InitReading   // reading the INIT packet
    | InitRead      // about to start the other workers
    | InitFailed    // returned after a failed initialization
    | LoopHead      // about to test stop_
    | Reading       // past the test, handling what it read
    | Exiting       // about to record that it stopped
    | Completing    // inside sessionComplete, state unlocked
    | Stopped       // returned

  datatype DestroyPhase = NotCalled | Joining | DeleteNow | LeftToCompletion | Deleted

  /** What sessionComplete decided while it held the lock. */
  datatype Completion = Completion(reason: StopReason, device: bool, destroy: bool, fulfilled: bool)

  datatype State = State(
    pcs: seq<Pc>,
    stopReason: StopReason,
    stop: bool,
    requests: set<nat>,
    nextRequestId: nat,
    stoppedThreads: nat,
    destroyPending: bool,
    connInfo: bool,
    startFailed: bool,
    completions: nat,
    completion: Option<Completion>,
    destroy: DestroyPhase,
    deletions: nat)

  /** The device can still be used after a takeover, after destruction without unmounting, and while running. */
  predicate IsFuseDeviceValid(reason: StopReason) {
    reason == RUNNING || reason == TAKEOVER || reason == DESTRUCTOR
  }

  predicate Past(pc: Pc) {
    pc == Completing || pc == Stopped
  }

  function CountPast(pcs: seq<Pc>): nat {
    if pcs == [] then 0 else (if Past(pcs[0]) then 1 else 0) + CountPast(pcs[1..])
  }

  // ---------------------------------------------------------------- the steps

  datatype Step =
    | ReadInit                                  // the INIT packet arrives
    | FailInit                                  // readInitPacket throws
    | StartWorkers                              // startWorkerThreads, every thread created
    | StartWorkersFails(upTo: nat, reading: set<nat>)  // it throws after creating threads 1 .. upTo
    | TestStop(i: nat)                          // the test at the head of the loop
    | ReadAgain(i: nat)                         // interrupted read, or a request answered on the spot
    | StopReading(i: nat, reason: StopReason)   // unmounted, read or write error, exception
    | SeeStop(i: nat)                           // a failed read that finds stop_ set
    | BeginRequest(i: nat)                      // a request enters the table
    | FinishRequest(id: nat)                    // its future completes and it leaves the table
    | RecordStopped(i: nat)                     // the last locked section of a worker
    | Fulfill(i: nat)                           // a worker finishes sessionComplete
    | FulfillElsewhere                          // the thread that finished the last request does
    | RequestExit(reason: StopReason)           // takeoverStop
    | Destroy                                   // destroy(), first locked section
    | DestroyDecides                            // destroy() after joining, second locked section
    | DestroyDeletes                            // delete this, in destroy()

  function WithExit(s: State, reason: StopReason): State {
    if s.stopReason != RUNNING then
      // The test meant to upgrade the reason asks about the old reason twice.
      if IsFuseDeviceValid(s.stopReason) && !IsFuseDeviceValid(s.stopReason) then s.(stopReason := reason) else s
    else s.(stopReason := reason, stop := true)
  }

  /** sessionComplete up to the point where it unlocks the state. */
  function EnterCompletion(s: State): State {
    s.(completions := s.completions + 1,
       completion := Some(Completion(s.stopReason, IsFuseDeviceValid(s.stopReason) && s.connInfo, s.destroyPending, false)))
  }

  predicate At(s: State, i: nat, pc: Pc) {
    i < |s.pcs| && s.pcs[i] == pc
  }

  function Move(s: State, i: nat, pc: Pc): State
    requires i < |s.pcs|
  {
    s.(pcs := s.pcs[i := pc])
  }

  predicate Joined(s: State) {
    forall i :: 0 <= i < |s.pcs| ==> s.pcs[i] in {NotStarted, InitFailed, Stopped}
  }

  predicate Enabled(s: State, step: Step) {
    match step
    case ReadInit => At(s, 0, InitReading)
    case FailInit => At(s, 0, InitReading)
    case StartWorkers => At(s, 0, InitRead)
    case StartWorkersFails(upTo, reading) => At(s, 0, InitRead) && s.stopReason == RUNNING && upTo < |s.pcs|
    case TestStop(i) => At(s, i, LoopHead)
    case ReadAgain(i) => At(s, i, Reading)
    case StopReading(i, reason) => At(s, i, Reading) && reason != RUNNING
    case SeeStop(i) => At(s, i, Reading) && s.stop
    case BeginRequest(i) => At(s, i, Reading)
    case FinishRequest(id) => id in s.requests
    case RecordStopped(i) => At(s, i, Exiting)
    case Fulfill(i) => At(s, i, Completing)
    case FulfillElsewhere =>
      s.completion.Some? && !s.completion.value.fulfilled && forall i :: 0 <= i < |s.pcs| ==> s.pcs[i] != Completing
    case RequestExit(reason) => reason != RUNNING && s.destroy == NotCalled
    case Destroy => s.destroy == NotCalled
    case DestroyDecides => s.destroy == Joining && Joined(s)
    case DestroyDeletes => s.destroy == DeleteNow
  }

  function Fulfilled(s: State): State
    requires s.completion.Some?
  {
    s.(completion := Some(s.completion.value.(fulfilled := true)),
       deletions := if s.completion.value.destroy then s.deletions + 1 else s.deletions)
  }

  /** The effect of an enabled step. */
  function Apply(s: State, step: Step): State
    requires Enabled(s, step)
  {
    match step
    case ReadInit => Move(s, 0, InitRead).(connInfo := true)
    case FailInit => Move(s, 0, InitFailed)
    case StartWorkers =>
      if s.stopReason != RUNNING then Move(s, 0, LoopHead)
      else s.(pcs := seq(|s.pcs|, i requires 0 <= i < |s.pcs| => if s.pcs[i] == NotStarted || i == 0 then LoopHead else s.pcs[i]))
    case StartWorkersFails(upTo, reading) =>
      var pcs := seq(|s.pcs|, i requires 0 <= i < |s.pcs| =>
        if i == 0 then InitFailed
        else if i <= upTo && s.pcs[i] == NotStarted then (if i in reading then Reading else LoopHead)
        else s.pcs[i]);
      WithExit(s, INIT_FAILED).(pcs := pcs, startFailed := true)
    case TestStop(i) => Move(s, i, if s.stop then Exiting else Reading)
    case ReadAgain(i) => Move(s, i, LoopHead)
    case StopReading(i, reason) => Move(WithExit(s, reason), i, Exiting)
    case SeeStop(i) => Move(s, i, Exiting)
    case BeginRequest(i) =>
      Move(s, i, LoopHead).(requests := s.requests + {s.nextRequestId}, nextRequestId := s.nextRequestId + 1)
    case FinishRequest(id) =>
      var s1 := s.(requests := s.requests - {id});
      if s1.requests == {} && s1.stoppedThreads == |s1.pcs| then EnterCompletion(s1) else s1
    case RecordStopped(i) =>
      var s1 := s.(stoppedThreads := s.stoppedThreads + 1);
      if s1.stoppedThreads == |s1.pcs| && s1.requests == {} then Move(EnterCompletion(s1), i, Completing)
      else Move(s1, i, Stopped)
    case Fulfill(i) => if s.completion.Some? then Move(Fulfilled(s), i, Stopped) else Move(s, i, Stopped)
    case FulfillElsewhere => Fulfilled(s)
    case RequestExit(reason) => WithExit(s, reason)
    case Destroy => WithExit(s, DESTRUCTOR).(destroy := Joining)
    case DestroyDecides =>
      if s.requests == {} then s.(destroy := DeleteNow) else s.(destroyPending := true, destroy := LeftToCompletion)
    case DestroyDeletes => s.(destroy := Deleted, deletions := s.deletions + 1)
  }

  /** initialize(): one thread is reading the INIT packet, n - 1 are still to be created. */
  function Initial(n: nat): State
    requires n >= 1
  {
    State(seq(n, i => if i == 0 then InitReading else NotStarted), RUNNING, false, {}, 1, 0, false, false, false, 0, None, NotCalled, 0)
  }

  /** initializeFromTakeover(): the connection is negotiated already and every worker has been created. */
  function InitialTakeover(n: nat): State
    requires n >= 1
  {
    State(seq(n, i => LoopHead), RUNNING, false, {}, 1, 0, false, true, false, 0, None, NotCalled, 0)
  }

  ghost predicate IsRun(states: seq<State>, steps: seq<Step>) {
    && |states| == |steps| + 1
    && (exists n :: n >= 1 && (states[0] == Initial(n) || states[0] == InitialTakeover(n)))
    && forall k :: 0 <= k < |steps| ==> Enabled(states[k], steps[k]) && states[k + 1] == Apply(states[k], steps[k])
  }
}
