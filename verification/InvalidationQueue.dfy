/**
 The queue of kernel cache invalidations: any number of callers append to it, one dedicated thread takes
 everything it finds, sends it entry by entry outside the lock, and leaves once it is told to stop and the
 queue is empty.
 */
module InvalidationQueue {
  import opened Common

  datatype Entry =
    | InvalidateInode(ino: nat, offset: int, length: int)
    | InvalidateEntry(parent: nat, name: string)
    | Flush(promise: nat)

  datatype ThreadPc = Waiting | Sending | Exited

  /** history and sent are what an observer sees: everything ever appended, everything ever handed to sendInvalidation. */
  datatype State = State(
    queue: seq<Entry>,
    stop: bool,
    thread: ThreadPc,
    batch: seq<Entry>,
    fulfilled: set<nat>,
    broken: set<nat>,
    destroyed: bool,
    history: seq<Entry>,
    sent: seq<Entry>,
    beforeStop: nat)

  datatype Step =
    | Append(entries: seq<Entry>)  // one locked section of a caller; invalidateInodes appends many at once
    | TakeAll                      // the thread swaps the queue with its empty batch
    | SendNext                     // it sends the next entry of the batch; errors are logged and ignored
    | FinishBatch                  // the batch is done
    | Exit                         // stop is set and the queue is empty
    | SetStop                      // stopInvalidationThread
    | DestroyQueue                 // the channel is deleted: the promises still queued are broken

  function Initial(): State {
    State([], false, Waiting, [], {}, {}, false, [], [], 0)
  }

  predicate Enabled(s: State, step: Step) {
    match step
    case Append(_) => !s.destroyed
    case TakeAll => s.thread == Waiting && s.queue != []
    case SendNext => s.thread == Sending && s.batch != []
    case FinishBatch => s.thread == Sending && s.batch == []
    case Exit => s.thread == Waiting && s.queue == [] && s.stop
    case SetStop => !s.stop && !s.destroyed
    case DestroyQueue => s.thread == Exited && !s.destroyed
  }

  function Promises(entries: seq<Entry>): set<nat> {
    set e | e in entries && e.Flush? :: e.promise
  }

  function Apply(s: State, step: Step): State
    requires Enabled(s, step)
  {
    match step
    case Append(entries) => s.(queue := s.queue + entries, history := s.history + entries)
    case TakeAll => s.(queue := [], batch := s.queue, thread := Sending)
    case SendNext =>
      var e := s.batch[0];
      s.(batch := s.batch[1..], sent := s.sent + [e],
         fulfilled := if e.Flush? then s.fulfilled + {e.promise} else s.fulfilled)
    case FinishBatch => s.(thread := Waiting)
    case Exit => s.(thread := Exited)
    case SetStop => s.(stop := true, beforeStop := |s.history|)
    case DestroyQueue => s.(destroyed := true, broken := Promises(s.queue))
  }

  ghost predicate IsRun(states: seq<State>, steps: seq<Step>) {
    && |states| == |steps| + 1 && states[0] == Initial()
    && forall k :: 0 <= k < |steps| ==> Enabled(states[k], steps[k]) && states[k + 1] == Apply(states[k], steps[k])
  }

  /** Nothing is lost, repeated or reordered, and a flush is answered exactly when it is handed over. */
  ghost predicate Inv(s: State) {
    && s.sent + s.batch + s.queue == s.history
    && (s.thread != Sending ==> s.batch == [])
    && (forall p :: p in s.fulfilled <==> Flush(p) in s.sent)
    && s.beforeStop <= |s.history|
    && (s.thread == Exited ==> s.stop && s.beforeStop <= |s.sent|)
    && (s.destroyed ==> s.thread == Exited)
    && s.broken == (if s.destroyed then Promises(s.queue) else {})
  }

  lemma StepInv(s: State, step: Step)
    requires Inv(s) && Enabled(s, step)
    ensures Inv(Apply(s, step))
  {
    var s' := Apply(s, step);
    match step
    case Append(entries) =>
      assert s.sent + s.batch + (s.queue + entries) == s.sent + s.batch + s.queue + entries;
    case TakeAll =>
      assert s.sent + s.queue + [] == s.sent + [] + s.queue;
    case SendNext =>
      assert s.sent + [s.batch[0]] + s.batch[1..] == s.sent + s.batch;
    case _ =>
  }

  lemma {:induction false} RunInv(states: seq<State>, steps: seq<Step>, k: nat)
    requires IsRun(states, steps) && k < |states|
    ensures Inv(states[k])
  {
    hide Inv, Apply, Enabled;
    if k == 0 {
      InitialInv();
    } else {
      RunInv(states, steps, k - 1);
      StepInv(states[k - 1], steps[k - 1]);
    }
  }

  lemma InitialInv()
    ensures Inv(Initial())
  {
  }

  lemma Grows(s: State, step: Step)
    requires Enabled(s, step)
    ensures s.history <= Apply(s, step).history && s.sent <= Apply(s, step).sent
    ensures s.stop ==> Apply(s, step).stop && Apply(s, step).beforeStop == s.beforeStop
  {
  }

  lemma {:induction false} OnlyGrows(states: seq<State>, steps: seq<Step>, j: nat, k: nat)
    requires IsRun(states, steps) && j <= k < |states|
    ensures states[j].history <= states[k].history && states[j].sent <= states[k].sent
    ensures states[j].stop ==> states[k].stop && states[k].beforeStop == states[j].beforeStop
    decreases k - j
  {
    hide Apply, Enabled;
    if j == k {
    } else {
      OnlyGrows(states, steps, j, k - 1);
      Grows(states[k - 1], steps[k - 1]);
    }
  }

  /**
   In every run, what was sent, what the thread still holds and what is queued spell out exactly what was
   appended, in order; so what was sent is always a prefix of it. A flush that has been answered lies in that
   prefix together with everything appended before it. When the thread has exited, everything appended before
   stop was set has been sent.
   */
  lemma InvalidationOrder(states: seq<State>, steps: seq<Step>, k: nat, i: nat)
    requires IsRun(states, steps) && k < |states|
    ensures var s := states[k];
            && s.sent + s.batch + s.queue == s.history
            && (i < |s.sent| ==> s.sent[i] == s.history[i])
            && (s.thread == Exited ==> s.stop && s.beforeStop <= |s.sent| && s.history[..s.beforeStop] == s.sent[..s.beforeStop])
  {
    RunInv(states, steps, k);
  }

  /** Each flush has a promise of its own; that of p stands at place i. */
  ghost predicate AskedAt(history: seq<Entry>, p: nat, i: nat) {
    && i < |history| && history[i] == Flush(p)
    && forall j :: 0 <= j < |history| && history[j] == Flush(p) ==> j == i
  }

  /** A promise is fulfilled only after every entry appended before its flush was handed over. */
  lemma FlushWaitsForEarlier(states: seq<State>, steps: seq<Step>, k: nat, i: nat, p: nat)
    requires IsRun(states, steps) && k < |states|
    requires AskedAt(states[k].history, p, i)
    ensures p in states[k].fulfilled <==> i < |states[k].sent|
  {
    RunInv(states, steps, k);
    var s := states[k];
    assert forall j :: 0 <= j < |s.sent| ==> s.sent[j] == s.history[j];
  }

  /** What is appended after the thread has exited is never sent, and its promises are never fulfilled. */
  lemma {:induction false} NothingSentAfterExit(states: seq<State>, steps: seq<Step>, j: nat, k: nat)
    requires IsRun(states, steps) && j <= k < |states| && states[j].thread == Exited
    ensures states[k].thread == Exited && states[k].sent == states[j].sent && states[k].fulfilled == states[j].fulfilled
    decreases k - j
  {
    if j == k {
    } else {
      NothingSentAfterExit(states, steps, j, k - 1);
    }
  }

  /**
   Once the channel is deleted, every flush that was ever asked for has its answer: fulfilled if its entry was handed
   over, broken if it was still queued, and never both.
   */
  lemma EveryFlushIsAnswered(states: seq<State>, steps: seq<Step>, k: nat, i: nat, p: nat)
    requires IsRun(states, steps) && k < |states| && states[k].destroyed
    requires AskedAt(states[k].history, p, i)
    ensures p in states[k].fulfilled <==> i < |states[k].sent|
    ensures p in states[k].broken <==> i >= |states[k].sent|
  {
    RunInv(states, steps, k);
    FlushWaitsForEarlier(states, steps, k, i, p);
    var s := states[k];
    assert s.sent + [] + s.queue == s.sent + s.queue;
    hide *;
    InTheRest(s.sent, s.queue, p, i);
  }

  lemma InTheRest(sent: seq<Entry>, queue: seq<Entry>, p: nat, i: nat)
    requires AskedAt(sent + queue, p, i)
    ensures p in Promises(queue) <==> i >= |sent|
  {
    assert p in Promises(queue) <==> Flush(p) in queue;
    if i >= |sent| {
      assert queue[i - |sent|] == Flush(p);
    } else {
      assert forall m :: 0 <= m < |queue| ==> (sent + queue)[|sent| + m] == queue[m];
    }
  }

  // ---------------------------------------------------------------- what the steps say

  /** The entries of the Append steps, in order. */
  function Appended(steps: seq<Step>): seq<Entry> {
    if steps == [] then []
    else Appended(Init(steps)) + (if Last(steps).Append? then Last(steps).entries else [])
  }

  lemma HistoryStep(s: State, step: Step)
    requires Enabled(s, step)
    ensures Apply(s, step).history == s.history + (if step.Append? then step.entries else [])
    ensures Apply(s, step).stop <==> s.stop || step.SetStop?
    ensures Apply(s, step).beforeStop == if step.SetStop? then |s.history| else s.beforeStop
  {
  }

  /** The history is what the callers appended. */
  lemma {:induction false} HistoryIsAppended(states: seq<State>, steps: seq<Step>, k: nat)
    requires IsRun(states, steps) && k < |states|
    ensures states[k].history == Appended(steps[..k])
  {
    hide Apply, Enabled;
    if k == 0 {
    } else {
      HistoryIsAppended(states, steps, k - 1);
      HistoryStep(states[k - 1], steps[k - 1]);
      assert Init(steps[..k]) == steps[..k - 1] && Last(steps[..k]) == steps[k - 1];
    }
  }

  /**
   What has been sent is always the first part of what was appended; and once the thread has exited, stop was set at
   some step before, and everything appended up to that step has been sent.
   */
  lemma SentIsAppended(states: seq<State>, steps: seq<Step>, k: nat)
    requires IsRun(states, steps) && k < |states|
    ensures states[k].sent <= Appended(steps[..k])
    ensures states[k].thread == Exited ==>
              exists j :: 0 <= j < k && steps[j].SetStop? && Appended(steps[..j]) <= states[k].sent
  {
    RunInv(states, steps, k);
    HistoryIsAppended(states, steps, k);
    if states[k].thread == Exited {
      var j := StopWasSet(states, steps, k);
      HistoryIsAppended(states, steps, j);
      OnlyGrows(states, steps, j, k);
      hide Apply, Enabled, IsRun;
      assert states[j].history == states[k].history[..|states[j].history|];
    }
  }

  lemma {:induction false} StopWasSet(states: seq<State>, steps: seq<Step>, k: nat) returns (j: nat)
    requires IsRun(states, steps) && k < |states| && states[k].stop
    ensures j < k && steps[j].SetStop? && states[k].beforeStop == |states[j].history|
  {
    hide Apply;
    HistoryStep(states[k - 1], steps[k - 1]);
    if steps[k - 1].SetStop? {
      j := k - 1;
    } else {
      j := StopWasSet(states, steps, k - 1);
    }
  }

  lemma {:induction false} FlagsAreSteps(states: seq<State>, steps: seq<Step>, k: nat)
    requires IsRun(states, steps) && k < |states|
    ensures states[k].stop <==> exists j :: 0 <= j < k && steps[j].SetStop?
    ensures states[k].destroyed <==> exists j :: 0 <= j < k && steps[j].DestroyQueue?
  {
    if k == 0 {
    } else {
      FlagsAreSteps(states, steps, k - 1);
      var step := steps[k - 1];
      assert states[k].stop <==> states[k - 1].stop || step.SetStop?;
      assert states[k].destroyed <==> states[k - 1].destroyed || step.DestroyQueue?;
    }
  }

  /**
   As long as the channel is there callers can append whatever they like, one of them can ask to stop, and once the
   thread has left the channel can be deleted, whatever is still queued.
   */
  lemma CallersAreServed(states: seq<State>, steps: seq<Step>, k: nat, entries: seq<Entry>)
    requires IsRun(states, steps) && k < |states| && forall j :: 0 <= j < k ==> !steps[j].DestroyQueue?
    ensures Enabled(states[k], Append(entries))
    ensures Enabled(states[k], SetStop) <==> forall j :: 0 <= j < k ==> !steps[j].SetStop?
    ensures Enabled(states[k], DestroyQueue) <==> states[k].thread == Exited
  {
    FlagsAreSteps(states, steps, k);
  }

  /** A thread with nothing to do has sent everything that was appended, or was told to stop and has left. */
  lemma IdleMeansAllSent(states: seq<State>, steps: seq<Step>, k: nat)
    requires IsRun(states, steps) && k < |states|
    requires forall step: Step :: step.TakeAll? || step.SendNext? || step.FinishBatch? || step.Exit? ==> !Enabled(states[k], step)
    ensures states[k].thread == Exited || states[k].sent == Appended(steps[..k])
    ensures states[k].thread == Exited <==> exists j :: 0 <= j < k && steps[j].SetStop?
  {
    var s := states[k];
    RunInv(states, steps, k);
    FlagsAreSteps(states, steps, k);
    HistoryIsAppended(states, steps, k);
    hide IsRun;
    assert !Enabled(s, TakeAll) && !Enabled(s, SendNext) && !Enabled(s, FinishBatch) && !Enabled(s, Exit);
    assert s.sent + [] + [] == s.sent;
  }
}
