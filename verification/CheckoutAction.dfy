/**
 One entry of a checkout: start up to three loads, wait until each of their callbacks is gone, then decide about
 conflicts and update the entry. Loads complete in any order, also before they are fully set up.
 */
module CheckoutAction {
  import opened Common

  datatype Kind = TreeKind | FileKind

  datatype Load = OldLoad | NewLoad | InodeLoad

  /** What the action is about: the old and new source control entries, the inode, and the checkout mode. */
  datatype Job = Job(oldEntry: Option<Kind>, newEntry: Option<Kind>, inode: Kind, inodeAtHand: bool, forceUpdate: bool)

  /** A LoadingRefcount that has not been moved from; moving one hands its token on. */
  datatype Token = Main | ForValue(load: Load) | ForError(load: Load)

  datatype ConflictType = MODIFIED_MODIFIED | MODIFIED_REMOVED | UNTRACKED_ADDED

  /** How far run() has got; the loads it still has to start. */
  datatype RunPc = NotRun | Starting(todo: seq<Load>) | Returned

  datatype Phase =
    | Loading      // allLoadsComplete() has not been called
    | Deciding     // hasConflict() is under way
    | Updating     // checkoutUpdateEntry() has been called
    | Finished     // promise_ is fulfilled

  datatype State = State(
    job: Job,
    run: RunPc,
    numLoadsPending: nat,
    tokens: set<Token>,
    started: set<Load>,
    resolved: set<Load>,
    loaded: set<Load>,
    errors: nat,
    completions: nat,
    phase: Phase,
    conflict: Option<ConflictType>,
    updates: nat,
    fulfilled: nat,
    threw: bool)

  datatype Step =
    | Run                            // the first LoadingRefcount
    | StartLoad                      // the next load and its two callbacks
    | StartThrows                    // starting it throws; the others are skipped
    | Return                         // run() returns and drops the first refcount
    | Resolve(load: Load, ok: bool)  // a load completes and the callback for its outcome runs
    | Drop(token: Token)             // a callback object is destroyed
    | Decide(same: bool)             // hasConflict() completes; same is what isSameAs() found
    | DecideThrows
    | Update                         // checkoutUpdateEntry() completes, with a value or an error

  function Needed(job: Job): seq<Load> {
    (if job.oldEntry.Some? then [OldLoad] else []) + (if job.newEntry.Some? then [NewLoad] else []) +
    (if job.inodeAtHand then [] else [InodeLoad])
  }

  function HasConflict(job: Job, same: bool): Option<ConflictType> {
    match job.oldEntry
    case Some(TreeKind) => if job.inode.TreeKind? then None else Some(MODIFIED_MODIFIED)
    case Some(FileKind) =>
      if !job.inode.FileKind? then Some(MODIFIED_MODIFIED)
      else if same then None
      else if job.newEntry.Some? then Some(MODIFIED_MODIFIED) else Some(MODIFIED_REMOVED)
    case None =>
      if job.inode.FileKind? then
        (if job.newEntry == Some(FileKind) then Some(UNTRACKED_ADDED) else Some(MODIFIED_MODIFIED))
      else None
  }

  predicate DataReady(s: State) {
    && s.errors == 0
    && (s.job.oldEntry.Some? ==> OldLoad in s.loaded)
    && (s.job.newEntry.Some? ==> NewLoad in s.loaded)
    && (s.job.inodeAtHand || InodeLoad in s.loaded)
  }

  /** allLoadsComplete(), up to the point where it has to wait. */
  function AllLoadsComplete(s: State): State {
    var s1 := s.(completions := s.completions + 1);
    if DataReady(s) then s1.(phase := Deciding) else s1.(phase := Finished, fulfilled := s.fulfilled + 1)
  }

  /** The destructor of a LoadingRefcount that was not moved from. */
  function Decref(s: State, t: Token): State
    requires s.numLoadsPending > 0
  {
    var s1 := s.(numLoadsPending := s.numLoadsPending - 1, tokens := s.tokens - {t});
    if s.numLoadsPending == 1 then AllLoadsComplete(s1) else s1
  }

  /** The constructor. */
  function Incref(s: State, t: Token): State {
    s.(numLoadsPending := s.numLoadsPending + 1, tokens := s.tokens + {t})
  }

  predicate Enabled(s: State, step: Step) {
    match step
    case Run => s.run == NotRun
    case StartLoad => s.run.Starting? && s.run.todo != []
    case StartThrows => s.run.Starting? && s.run.todo != []
    case Return => s.run == Starting([]) && s.numLoadsPending > 0
    case Resolve(load, _) => load in s.started && load !in s.resolved
    case Drop(token) => token in s.tokens && token != Main && token.load in s.resolved && s.numLoadsPending > 0
    case Decide(_) => s.phase == Deciding
    case DecideThrows => s.phase == Deciding
    case Update => s.phase == Updating
  }

  function Apply(s: State, step: Step): State
    requires Enabled(s, step)
  {
    match step
    case Run => Incref(s, Main).(run := Starting(Needed(s.job)))
    case StartLoad =>
      var load := s.run.todo[0];
      Incref(Incref(s, ForValue(load)), ForError(load)).(run := Starting(s.run.todo[1..]), started := s.started + {load})
    case StartThrows => s.(run := Starting([]), errors := s.errors + 1)
    case Return => Decref(s, Main).(run := Returned)
    case Resolve(load, ok) =>
      if ok then s.(resolved := s.resolved + {load}, loaded := s.loaded + {load})
      else s.(resolved := s.resolved + {load}, errors := s.errors + 1)
    case Drop(token) => Decref(s, token)
    case Decide(same) =>
      var conflict := HasConflict(s.job, same);
      if conflict.Some? && !s.job.forceUpdate then s.(conflict := conflict, phase := Finished, fulfilled := s.fulfilled + 1)
      else s.(conflict := conflict, phase := Updating, updates := s.updates + 1)
    case DecideThrows => s.(phase := Finished, fulfilled := s.fulfilled + 1, threw := true)
    case Update => s.(phase := Finished, fulfilled := s.fulfilled + 1)
  }

  function Initial(job: Job): State {
    State(job, NotRun, 0, {}, {}, {}, {}, 0, 0, Loading, None, 0, 0, false)
  }

  ghost predicate IsRun(job: Job, states: seq<State>, steps: seq<Step>) {
    && |states| == |steps| + 1 && states[0] == Initial(job)
    && forall k :: 0 <= k < |steps| ==> Enabled(states[k], steps[k]) && states[k + 1] == Apply(states[k], steps[k])
  }

  // ---------------------------------------------------------------- the invariant

  function Rest(s: State): seq<Load> {
    if s.run.Starting? then s.run.todo else []
  }

  ghost predicate TokenInv(s: State) {
    && s.numLoadsPending == |s.tokens|
    && (Main in s.tokens <==> s.run.Starting?)
    && (forall l :: ForValue(l) in s.tokens || ForError(l) in s.tokens ==> l in s.started)
    && (forall l :: l in s.started && l !in s.resolved ==> ForValue(l) in s.tokens && ForError(l) in s.tokens)
    && s.resolved <= s.started && s.loaded <= s.resolved
    && NoDup(Rest(s)) && (forall l :: l in Rest(s) ==> l !in s.started)
    && (s.run == NotRun ==> s.tokens == {} && s.started == {})
  }

  ghost predicate OutcomeInv(s: State) {
    && s.completions == (if s.run == Returned && s.tokens == {} then 1 else 0)
    && (s.phase == Loading <==> s.completions == 0)
    && (s.phase in {Deciding, Updating} ==> DataReady(s))
    && s.fulfilled == (if s.phase == Finished then 1 else 0)
    && s.updates <= 1
    && (s.phase in {Loading, Deciding} ==> s.updates == 0)
    && (s.phase == Updating ==> s.updates == 1)
    && (s.updates == 1 ==> DataReady(s) && !s.threw && (s.conflict.None? || s.job.forceUpdate))
    && (s.phase == Finished && s.updates == 0 ==> !DataReady(s) || s.threw || (s.conflict.Some? && !s.job.forceUpdate))
    && (s.phase != Finished ==> !s.threw)
  }

  ghost predicate Inv(s: State) {
    TokenInv(s) && OutcomeInv(s)
  }

  lemma NeededNoDup(job: Job)
    ensures NoDup(Needed(job))
  {
  }

  lemma StartTokens(s: State)
    requires Inv(s) && Enabled(s, StartLoad)
    ensures Inv(Apply(s, StartLoad))
  {
    var s' := Apply(s, StartLoad);
    var load := s.run.todo[0];
    assert s.run.todo == [load] + s.run.todo[1..];
    assert ForValue(load) !in s.tokens && ForError(load) !in s.tokens;
    assert s'.tokens == s.tokens + {ForValue(load)} + {ForError(load)};
    assert Main in s'.tokens;
  }

  lemma BeginTokens(s: State, step: Step)
    requires Inv(s) && Enabled(s, step) && (step.Run? || step.StartThrows?)
    ensures Inv(Apply(s, step))
  {
    NeededNoDup(s.job);
    var s' := Apply(s, step);
    assert Main in s'.tokens;
  }

  lemma ResolveTokens(s: State, step: Step)
    requires Inv(s) && Enabled(s, step) && step.Resolve?
    ensures Inv(Apply(s, step))
  {
    assert ForValue(step.load) in s.tokens;
  }

  function Dropped(step: Step): Token
    requires step.Return? || step.Drop?
  {
    if step.Return? then Main else step.token
  }

  lemma DropTokens(s: State, step: Step)
    requires Inv(s) && Enabled(s, step) && (step.Return? || step.Drop?)
    ensures TokenInv(Apply(s, step))
  {
    var s' := Apply(s, step);
    assert s'.tokens == s.tokens - {Dropped(step)} && Dropped(step) in s.tokens;
  }

  lemma DropOutcome(s: State, step: Step)
    requires Inv(s) && Enabled(s, step) && (step.Return? || step.Drop?)
    ensures OutcomeInv(Apply(s, step))
  {
    var s' := Apply(s, step);
    var t := Dropped(step);
    assert t in s.tokens && s'.tokens == s.tokens - {t};
    assert s.numLoadsPending == 1 <==> s'.tokens == {} by {
      assert |s'.tokens| == s.numLoadsPending - 1;
    }
    assert step.Drop? && s.run.Starting? ==> Main in s'.tokens;
  }

  lemma StepInv(s: State, step: Step)
    requires Inv(s) && Enabled(s, step)
    ensures Inv(Apply(s, step))
  {
    if step.StartLoad? {
      StartTokens(s);
    } else if step.Run? || step.StartThrows? {
      BeginTokens(s, step);
    } else if step.Resolve? {
      ResolveTokens(s, step);
    } else if step.Return? || step.Drop? {
      DropTokens(s, step);
      DropOutcome(s, step);
    } else {
      DecisionInv(s, step);
    }
  }

  lemma DecisionInv(s: State, step: Step)
    requires Inv(s) && Enabled(s, step) && (step.Decide? || step.DecideThrows? || step.Update?)
    ensures Inv(Apply(s, step))
  {
  }

  lemma {:induction false} RunInv(job: Job, states: seq<State>, steps: seq<Step>, k: nat)
    requires IsRun(job, states, steps) && k < |states|
    ensures Inv(states[k]) && states[k].job == job
  {
    hide Enabled, Apply, Inv;
    if k == 0 {
      InitialInv(job);
    } else {
      RunInv(job, states, steps, k - 1);
      StepInv(states[k - 1], steps[k - 1]);
      JobKept(states[k - 1], steps[k - 1]);
    }
  }

  lemma InitialInv(job: Job)
    ensures Inv(Initial(job))
  {
  }

  lemma JobKept(s: State, step: Step)
    requires Enabled(s, step)
    ensures Apply(s, step).job == s.job
  {
  }

  // ---------------------------------------------------------------- the theorems

  /**
   In every order of events the counter is the number of live refcounts; allLoadsComplete() has run exactly once
   when run() has returned and every callback is gone, and not before; then every load that was started has been
   resolved and reported. The promise is fulfilled at most once, and the entry is updated at most once, only with
   every load successful and with no conflict recorded unless the update is forced.
   */
  lemma FinishesOnce(job: Job, states: seq<State>, steps: seq<Step>, k: nat)
    requires IsRun(job, states, steps) && k < |states|
    ensures var s := states[k];
            && s.numLoadsPending == |s.tokens|
            && s.completions == (if s.run == Returned && s.tokens == {} then 1 else 0)
            && (s.completions == 1 ==> s.started == s.resolved)
            && s.fulfilled <= 1 && s.updates <= 1
            && (s.updates == 1 ==> s.completions == 1 && DataReady(s) && (s.conflict.None? || job.forceUpdate))
  {
    RunInv(job, states, steps, k);
  }

  ghost predicate Quiescent(s: State) {
    forall step :: !Enabled(s, step)
  }

  /**
   When nothing is left to happen, run() was called and the promise has been fulfilled exactly once, and the entry
   has been updated exactly if all data was loaded, the check for conflicts did not throw, and it found none or the
   update is forced.
   */
  lemma AlwaysFulfilled(job: Job, states: seq<State>, steps: seq<Step>, k: nat)
    requires IsRun(job, states, steps) && k < |states| && Quiescent(states[k])
    ensures var s := states[k];
            && s.completions == 1 && s.fulfilled == 1
            && s.updates == (if DataReady(s) && !s.threw && (s.conflict.None? || job.forceUpdate) then 1 else 0)
  {
    RunInv(job, states, steps, k);
    var s := states[k];
    assert !Enabled(s, Run) && !Enabled(s, DecideThrows) && !Enabled(s, Update);
    if t :| t in s.tokens {
      TokenMeansStep(s, t);
    }
  }

  lemma TokenMeansStep(s: State, t: Token)
    requires TokenInv(s) && t in s.tokens
    ensures exists step :: Enabled(s, step)
  {
    assert s.numLoadsPending > 0;
    if t == Main {
      assert Enabled(s, StartLoad) || Enabled(s, Return);
    } else {
      assert Enabled(s, Resolve(t.load, true)) || Enabled(s, Drop(t));
    }
  }

  /** What is there is what the old commit had, or a directory it knew nothing of. */
  predicate Unchanged(job: Job, same: bool) {
    match job.oldEntry
    case Some(kind) => job.inode == kind && (kind.FileKind? ==> same)
    case None => job.inode.TreeKind?
  }

  /** hasConflict() completed with this result of isSameAs(). */
  ghost predicate Decided(steps: seq<Step>, k: nat, same: bool) {
    exists j :: 0 <= j < k && j < |steps| && steps[j] == Decide(same)
  }

  lemma ConflictStep(s: State, step: Step)
    requires Enabled(s, step)
    ensures var s' := Apply(s, step);
            && (step.Decide? ==> s'.conflict == HasConflict(s.job, step.same))
            && (!step.Decide? ==> s'.conflict == s.conflict && s'.updates == s.updates)
            && (s'.phase == Updating ==> step.Decide? || s.phase == Updating)
  {
    hide HasConflict, Needed, DataReady;
  }

  lemma {:induction false} DecidedBefore(job: Job, states: seq<State>, steps: seq<Step>, k: nat)
    requires IsRun(job, states, steps) && k < |states|
    ensures states[k].phase == Updating || states[k].updates == 1 || states[k].conflict.Some? ==>
              exists same :: Decided(steps, k, same) && states[k].conflict == HasConflict(job, same)
  {
    hide HasConflict, Apply, Enabled, Inv;
    if k == 0 {
    } else {
      RunInv(job, states, steps, k - 1);
      DecidedBefore(job, states, steps, k - 1);
      var step, s := steps[k - 1], states[k - 1];
      ConflictStep(s, step);
      if step.Decide? {
        assert Decided(steps, k, step.same);
      } else if s.phase == Updating || s.updates == 1 || s.conflict.Some? {
        var same :| Decided(steps, k - 1, same) && s.conflict == HasConflict(job, same);
        assert Decided(steps, k, same);
      }
    }
  }

  lemma DecideStep(s: State, step: Step)
    requires Enabled(s, step)
    ensures var s' := Apply(s, step);
            && (step.Decide? ==> (s'.phase == Updating || s'.phase == Finished) && s'.conflict == HasConflict(s.job, step.same))
            && (s.phase == Updating ==> s'.phase == Updating || s'.phase == Finished || s'.completions > s.completions)
            && (s.phase == Finished ==> s'.phase == Finished || s'.completions > s.completions)
            && (step.Decide? ==> s.phase == Deciding)
  {
    hide HasConflict, Needed, DataReady;
  }

  lemma OneCompletion(job: Job, states: seq<State>, steps: seq<Step>, k: nat)
    requires IsRun(job, states, steps) && k < |states|
    ensures states[k].completions <= 1 && (states[k].phase == Updating || states[k].phase == Finished ==> states[k].completions == 1)
    ensures states[k].job == job
  {
    RunInv(job, states, steps, k);
  }

  /** The conflict check is made once at most, and what it records stays. */
  lemma {:induction false} DecisionIsFinal(job: Job, states: seq<State>, steps: seq<Step>, k: nat, same: bool)
    requires IsRun(job, states, steps) && k < |states| && Decided(steps, k, same)
    ensures states[k].conflict == HasConflict(job, same) && (states[k].phase == Updating || states[k].phase == Finished)
  {
    hide HasConflict, Apply, Enabled;
    var step, s := steps[k - 1], states[k - 1];
    DecideStep(s, step);
    ConflictStep(s, step);
    OneCompletion(job, states, steps, k - 1);
    OneCompletion(job, states, steps, k);
    if Decided(steps, k - 1, same) {
      DecisionIsFinal(job, states, steps, k - 1, same);
    } else {
      assert step == Decide(same);
    }
  }

  /**
   What is recorded in every run once the check was made: nothing exactly if the inode is what the old commit had, or a
   directory it did not know; a removal exactly if a changed file is not in the new commit; an untracked file exactly if
   only the new commit has a file there; and otherwise a modification.
   */
  lemma ConflictExactly(job: Job, states: seq<State>, steps: seq<Step>, k: nat, same: bool)
    requires IsRun(job, states, steps) && k < |states| && Decided(steps, k, same)
    ensures var conflict := states[k].conflict;
            && (conflict == None <==> Unchanged(job, same))
            && (conflict == Some(MODIFIED_REMOVED) <==>
                  job.oldEntry == Some(FileKind) && job.inode == FileKind && !same && job.newEntry.None?)
            && (conflict == Some(UNTRACKED_ADDED) <==>
                  job.oldEntry.None? && job.inode == FileKind && job.newEntry == Some(FileKind))
  {
    DecisionIsFinal(job, states, steps, k, same);
  }

  /** Without force the entry is only ever replaced if it was unchanged. */
  lemma OnlyUnchangedIsReplaced(job: Job, states: seq<State>, steps: seq<Step>, k: nat)
    requires IsRun(job, states, steps) && k < |states| && states[k].updates == 1 && !job.forceUpdate
    ensures exists same :: Decided(steps, k, same) && Unchanged(job, same)
  {
    RunInv(job, states, steps, k);
    DecidedBefore(job, states, steps, k);
    var same :| Decided(steps, k, same) && states[k].conflict == HasConflict(job, same);
    ConflictExactly(job, states, steps, k, same);
  }

  // ---------------------------------------------------------------- which data is loaded

  ghost predicate LoadFailed(steps: seq<Step>, k: nat) {
    exists j :: 0 <= j < k && j < |steps| && (steps[j].StartThrows? || (steps[j].Resolve? && !steps[j].ok))
  }

  /** The loads that an action has to make: for each entry there is, and for the inode if it is not at hand. */
  predicate Wanted(job: Job, load: Load) {
    match load
    case OldLoad => job.oldEntry.Some?
    case NewLoad => job.newEntry.Some?
    case InodeLoad => !job.inodeAtHand
  }

  lemma NeededAreWanted(job: Job, load: Load)
    ensures load in Needed(job) <==> Wanted(job, load)
  {
    var a, b := if job.oldEntry.Some? then [OldLoad] else [], if job.newEntry.Some? then [NewLoad] else [];
    var c := if job.inodeAtHand then [] else [InodeLoad];
    assert load in a + b + c <==> load in a || load in b || load in c;
  }

  /** While nothing has failed: every load is started or still to do, and every one that resolved is there. */
  ghost predicate AllWell(job: Job, s: State) {
    && s.job == job && s.errors == 0 && s.loaded == s.resolved
    && (s.run != NotRun ==> forall l :: l in Needed(job) ==> l in s.started || l in Rest(s))
  }

  lemma WellStep(job: Job, s: State, step: Step)
    requires AllWell(job, s) && Enabled(s, step) && !step.StartThrows? && (step.Resolve? ==> step.ok)
    ensures AllWell(job, Apply(s, step))
  {
    hide Needed, HasConflict;
    if step.StartLoad? {
      assert s.run.todo == [s.run.todo[0]] + s.run.todo[1..];
    }
  }

  lemma {:induction false} WellRun(job: Job, states: seq<State>, steps: seq<Step>, k: nat)
    requires IsRun(job, states, steps) && k < |states|
    ensures !LoadFailed(steps, k) ==> AllWell(job, states[k])
    ensures states[k].errors > 0 <==> LoadFailed(steps, k)
  {
    hide Apply, Enabled, AllWell;
    if k == 0 {
      WellAtFirst(job);
    } else {
      var step := steps[k - 1];
      WellRun(job, states, steps, k - 1);
      ErrorStep(states[k - 1], step);
      assert LoadFailed(steps, k) <==> LoadFailed(steps, k - 1) || step.StartThrows? || (step.Resolve? && !step.ok);
      if !LoadFailed(steps, k) {
        WellStep(job, states[k - 1], step);
      }
    }
  }

  lemma WellAtFirst(job: Job)
    ensures AllWell(job, Initial(job))
  {
  }

  lemma ErrorStep(s: State, step: Step)
    requires Enabled(s, step)
    ensures Apply(s, step).errors == s.errors + (if step.StartThrows? || (step.Resolve? && !step.ok) then 1 else 0)
  {
    hide Needed, HasConflict, DataReady;
  }

  /**
   When nothing is left to happen, all the data is there exactly if no load failed and starting them did not throw; then
   every load that the action wants was started and resolved.
   */
  lemma DataReadyExactly(job: Job, states: seq<State>, steps: seq<Step>, k: nat)
    requires IsRun(job, states, steps) && k < |states| && Quiescent(states[k])
    ensures DataReady(states[k]) <==> !LoadFailed(steps, k)
    ensures !LoadFailed(steps, k) ==> forall l :: Wanted(job, l) ==> l in states[k].loaded
  {
    AlwaysFulfilled(job, states, steps, k);
    FinishesOnce(job, states, steps, k);
    WellRun(job, states, steps, k);
    hide Apply, Enabled, IsRun;
    if !LoadFailed(steps, k) {
      forall l | Wanted(job, l)
        ensures l in states[k].loaded
      {
        NeededAreWanted(job, l);
      }
    }
  }

  /** Put together: the entry is replaced exactly if no load failed, the check did not throw, and it found no conflict or is overruled. */
  lemma ReplacedExactly(job: Job, states: seq<State>, steps: seq<Step>, k: nat)
    requires IsRun(job, states, steps) && k < |states| && Quiescent(states[k])
    ensures states[k].updates == 1 <==>
            !LoadFailed(steps, k) && exists same :: Decided(steps, k, same) && (Unchanged(job, same) || job.forceUpdate)
  {
    hide Apply, Enabled, IsRun, DataReady, Unchanged;
    DataReadyExactly(job, states, steps, k);
    AlwaysFulfilled(job, states, steps, k);
    if states[k].updates == 1 {
      UpdateMeansDecided(job, states, steps, k);
    }
    forall same | Decided(steps, k, same)
      ensures states[k].conflict == None <==> Unchanged(job, same)
      ensures !states[k].threw
    {
      ConflictExactly(job, states, steps, k, same);
      DecidedDidNotThrow(job, states, steps, k, same);
    }
  }

  lemma UpdateMeansDecided(job: Job, states: seq<State>, steps: seq<Step>, k: nat)
    requires IsRun(job, states, steps) && k < |states| && states[k].updates == 1
    ensures exists same :: Decided(steps, k, same)
  {
    DecidedBefore(job, states, steps, k);
  }

  lemma {:induction false} DecidedDidNotThrow(job: Job, states: seq<State>, steps: seq<Step>, k: nat, same: bool)
    requires IsRun(job, states, steps) && k < |states| && Decided(steps, k, same)
    ensures !states[k].threw
  {
    hide HasConflict, Apply, Enabled;
    var step, s := steps[k - 1], states[k - 1];
    ThrowStep(s, step);
    if Decided(steps, k - 1, same) {
      DecidedDidNotThrow(job, states, steps, k - 1, same);
      DecisionIsFinal(job, states, steps, k - 1, same);
    } else {
      assert step == Decide(same);
      RunInv(job, states, steps, k - 1);
    }
  }

  lemma ThrowStep(s: State, step: Step)
    requires Enabled(s, step)
    ensures Apply(s, step).threw <==> s.threw || step.DecideThrows?
    ensures step.DecideThrows? || step.Decide? ==> s.phase == Deciding
  {
    hide Needed, HasConflict, DataReady;
  }

  /** Once starting a load has thrown, no other load is started. */
  lemma {:induction false} NothingStartsAfterThrow(job: Job, states: seq<State>, steps: seq<Step>, j: nat, k: nat)
    requires IsRun(job, states, steps) && j < k < |states| && steps[j].StartThrows?
    ensures states[k].started == states[j].started && (states[k].run == Starting([]) || states[k].run == Returned)
  {
    if k == j + 1 {
    } else {
      NothingStartsAfterThrow(job, states, steps, j, k - 1);
    }
  }
}
