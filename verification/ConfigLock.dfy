/**
 The lock file around the user's configuration, taken by any number of processes: open or create it, flock it,
 check that the path still names the file that was locked, and unlink it before releasing it. Every system call
 is one step; a run is any interleaving.
 */
module ConfigLock {
  import opened Common
  import opened RepositoryCalls

  /** Where a process is; ino is the inode its lock file descriptor refers to. */
  datatype Pc =
    | Idle
    | Opened(ino: nat)                  // open() done, flock() not yet
    | Locked(ino: nat)                  // flock() done, path not yet compared
    | Checked(ino: nat)                 // the real lock
    | Loaded(ino: nat, config: Config)  // configuration read
    | Releasing(ino: nat)               // saved, refused or given up, file still there
    | Closing(ino: nat)                 // unlinked, still locked
    | Dying(ino: nat)                   // lstat() raised; __del__ is to come

  datatype State = State(
    path: Option<nat>,
    procs: map<nat, Pc>,
    owner: map<nat, nat>,
    config: Config,
    done: seq<Done>)

  datatype Step =
    | Open(p: nat, newIno: nat)  // newIno is the inode number if a file has to be created
    | Flock(p: nat)
    | Check(p: nat)             // fstat and lstat
    | Load(p: nat)
    | AddRepository(p: nat, add: Add)
    | Abandon(p: nat)           // loading or saving raises; close() is to come
    | Unlink(p: nat)
    | Close(p: nat)
    | Die(p: nat)               // the process ends, wherever it is, without unlinking; the kernel drops its lock
    | DelUnlinks(p: nat)        // an exception before the check is done: __del__ calls close(), which unlinks whatever the path names now

  function PcOf(s: State, p: nat): Pc {
    if p in s.procs then s.procs[p] else Idle
  }

  predicate HasOpen(pc: Pc, ino: nat) {
    !pc.Idle? && pc.ino == ino
  }

  predicate InCritical(pc: Pc) {
    pc.Checked? || pc.Loaded? || pc.Releasing?
  }

  /** The file is open and the check is not passed: what an exception leaves to __del__. */
  predicate BeforeCheck(pc: Pc) {
    pc.Opened? || pc.Locked? || pc.Dying?
  }

  ghost predicate NobodyInCritical(s: State) {
    forall p: nat :: !InCritical(PcOf(s, p))
  }

  ghost predicate Unused(s: State, ino: nat) {
    s.path != Some(ino) && forall p: nat :: !HasOpen(PcOf(s, p), ino)
  }

  ghost predicate Enabled(s: State, step: Step) {
    var pc := PcOf(s, step.p);
    match step
    case Open(_, newIno) => pc.Idle? && (s.path.None? ==> Unused(s, newIno))
    case Flock(_) => pc.Opened? && pc.ino !in s.owner
    case Check(_) => pc.Locked?
    case Load(_) => pc.Checked?
    case AddRepository(_, _) => pc.Loaded?
    case Abandon(_) => pc.Checked? || pc.Loaded?
    case Unlink(_) => pc.Releasing?
    case Close(_) => pc.Closing?
    case Die(_) => !pc.Idle?
    case DelUnlinks(_) => BeforeCheck(pc)
  }

  function Put(s: State, p: nat, pc: Pc): State {
    s.(procs := s.procs[p := pc])
  }

  function Release(s: State, ino: nat): State {
    s.(owner := s.owner - {ino})
  }

  ghost function Apply(s: State, step: Step): State
    requires Enabled(s, step)
  {
    var p, pc := step.p, PcOf(s, step.p);
    match step
    case Open(_, newIno) =>
      if s.path.Some? then Put(s, p, Opened(s.path.value)) else Put(s, p, Opened(newIno)).(path := Some(newIno))
    case Flock(_) => Put(s, p, Locked(pc.ino)).(owner := s.owner[pc.ino := p])
    case Check(_) =>
      if s.path.None? then Put(s, p, Dying(pc.ino))
      else if s.path.value == pc.ino then Put(s, p, Checked(pc.ino))
      else Release(Put(s, p, Idle), pc.ino)
    case Load(_) => Put(s, p, Loaded(pc.ino, s.config))
    case AddRepository(_, add) =>
      if Exists(pc.config, add.name) then Put(s, p, Releasing(pc.ino)).(done := s.done + [Done(add, false)])
      else Put(s, p, Releasing(pc.ino)).(config := pc.config[add.name := add.repo], done := s.done + [Done(add, true)])
    case Abandon(_) => Put(s, p, Releasing(pc.ino))
    case Unlink(_) => Put(s, p, Closing(pc.ino)).(path := None)
    case Close(_) => Release(Put(s, p, Idle), pc.ino)
    case Die(_) => if pc.Opened? then Put(s, p, Idle) else Release(Put(s, p, Idle), pc.ino)
    case DelUnlinks(_) => (if pc.Opened? then Put(s, p, Idle) else Release(Put(s, p, Idle), pc.ino)).(path := None)
  }

  function Initial(config: Config): State {
    State(None, map[], map[], config, [])
  }

  ghost predicate IsRun(config: Config, states: seq<State>, steps: seq<Step>) {
    && |states| == |steps| + 1 && states[0] == Initial(config)
    && forall k :: 0 <= k < |steps| ==> Enabled(states[k], steps[k]) && states[k + 1] == Apply(states[k], steps[k])
  }

  /** The runs where no __del__ unlinks the lock file under a process that is using it. */
  ghost predicate NoHarmfulUnlink(states: seq<State>, steps: seq<Step>)
    requires |states| == |steps| + 1
  {
    forall k :: 0 <= k < |steps| && steps[k].DelUnlinks? ==> NobodyInCritical(states[k])
  }

  // ---------------------------------------------------------------- the invariant

  predicate Locking(pc: Pc) {
    !pc.Idle? && !pc.Opened?
  }

  /** A process that has passed flock() owns the lock of its file, and every owned lock has such a process. */
  ghost predicate LocksInv(s: State) {
    && (forall p: nat :: Locking(PcOf(s, p)) ==> PcOf(s, p).ino in s.owner && s.owner[PcOf(s, p).ino] == p)
    && (forall i: nat :: i in s.owner ==> Locking(PcOf(s, s.owner[i])) && PcOf(s, s.owner[i]).ino == i)
  }

  ghost predicate Inv(start: Config, s: State) {
    && LocksInv(s)
    && (forall p: nat :: InCritical(PcOf(s, p)) ==> s.path == Some(PcOf(s, p).ino))
    && (forall p: nat :: PcOf(s, p).Loaded? ==> PcOf(s, p).config == s.config)
    && Serial(start, s.done, s.config)
  }

  /** Two processes are never both past the inode check. */
  lemma Exclusive(start: Config, s: State, p: nat, q: nat)
    requires Inv(start, s) && InCritical(PcOf(s, p)) && InCritical(PcOf(s, q))
    ensures p == q
  {
    assert Locking(PcOf(s, p)) && Locking(PcOf(s, q));
  }

  lemma OthersStay(s: State, step: Step)
    requires Enabled(s, step)
    ensures forall q: nat :: q != step.p ==> PcOf(Apply(s, step), q) == PcOf(s, q)
    ensures step.p in Apply(s, step).procs
  {
  }

  lemma LockInv(start: Config, s: State, step: Step)
    requires Inv(start, s) && Enabled(s, step)
    ensures LocksInv(Apply(s, step))
  {
    var s' := Apply(s, step);
    OthersStay(s, step);
    forall p: nat | Locking(PcOf(s', p))
      ensures PcOf(s', p).ino in s'.owner && s'.owner[PcOf(s', p).ino] == p
    {
      assert p != step.p ==> Locking(PcOf(s, p));
    }
    forall i: nat | i in s'.owner
      ensures Locking(PcOf(s', s'.owner[i])) && PcOf(s', s'.owner[i]).ino == i
    {
      assert i in s.owner || i == PcOf(s, step.p).ino;
    }
  }

  lemma PathInv(start: Config, s: State, step: Step)
    requires Inv(start, s) && Enabled(s, step) && (step.DelUnlinks? ==> NobodyInCritical(s))
    ensures var s' := Apply(s, step); forall p: nat :: InCritical(PcOf(s', p)) ==> s'.path == Some(PcOf(s', p).ino)
  {
    var s' := Apply(s, step);
    OthersStay(s, step);
    forall q: nat | InCritical(PcOf(s', q))
      ensures s'.path == Some(PcOf(s', q).ino)
    {
      if q != step.p {
        assert InCritical(PcOf(s, q));
        if step.Unlink? {
          Exclusive(start, s, q, step.p);
        }
      }
    }
  }

  lemma ConfigInv(start: Config, s: State, step: Step)
    requires Inv(start, s) && Enabled(s, step)
    ensures var s' := Apply(s, step);
            && (forall p: nat :: PcOf(s', p).Loaded? ==> PcOf(s', p).config == s'.config)
            && Serial(start, s'.done, s'.config)
  {
    var s' := Apply(s, step);
    OthersStay(s, step);
    forall q: nat | PcOf(s', q).Loaded?
      ensures PcOf(s', q).config == s'.config
    {
      if q != step.p {
        assert PcOf(s, q).Loaded?;
        if step.AddRepository? {
          Exclusive(start, s, q, step.p);
        }
      }
    }
    if step.AddRepository? {
      assert Init(s'.done) == s.done;
      assert SerialAdd(s.config, Last(s'.done).add) == (s'.config, Last(s'.done).ok);
    }
  }

  lemma StepInv(start: Config, s: State, step: Step)
    requires Inv(start, s) && Enabled(s, step) && (step.DelUnlinks? ==> NobodyInCritical(s))
    ensures Inv(start, Apply(s, step))
  {
    LockInv(start, s, step);
    PathInv(start, s, step);
    ConfigInv(start, s, step);
  }

  lemma {:induction false} RunInv(start: Config, states: seq<State>, steps: seq<Step>, k: nat)
    requires IsRun(start, states, steps) && NoHarmfulUnlink(states, steps) && k < |states|
    ensures Inv(start, states[k])
  {
    hide Apply, Enabled, NobodyInCritical;
    if k == 0 {
    } else {
      RunInv(start, states, steps, k - 1);
      StepInv(start, states[k - 1], steps[k - 1]);
    }
  }

  // ---------------------------------------------------------------- the theorems

  /**
   Over all runs of any number of processes in which no __del__ unlinks the file of a process that is using it:
   at most one process is past the inode check, the path names its file, and the calls of add_repository have
   the effect and the results that they would have one after the other, in the order in which they took effect.
   */
  lemma MutualExclusion(start: Config, states: seq<State>, steps: seq<Step>, k: nat)
    requires IsRun(start, states, steps) && NoHarmfulUnlink(states, steps) && k < |states|
    ensures forall p: nat, q: nat :: InCritical(PcOf(states[k], p)) && InCritical(PcOf(states[k], q)) ==> p == q
    ensures forall p: nat :: InCritical(PcOf(states[k], p)) ==> states[k].path == Some(PcOf(states[k], p).ino)
    ensures Serial(start, states[k].done, states[k].config)
  {
    RunInv(start, states, steps, k);
    forall p: nat, q: nat | InCritical(PcOf(states[k], p)) && InCritical(PcOf(states[k], q))
      ensures p == q
    {
      Exclusive(start, states[k], p, q);
    }
  }

  /** The calls that processes made, in order. */
  function Calls(steps: seq<Step>): seq<Add> {
    if steps == [] then []
    else Calls(Init(steps)) + (if Last(steps).AddRepository? then [Last(steps).add] else [])
  }

  function Adds(done: seq<Done>): (adds: seq<Add>)
    ensures |adds| == |done|
  {
    seq(|done|, i requires 0 <= i < |done| => done[i].add)
  }

  lemma CallStep(s: State, step: Step)
    requires Enabled(s, step)
    ensures Adds(Apply(s, step).done) == Adds(s.done) + (if step.AddRepository? then [step.add] else [])
  {
  }

  /** Every call is accounted for: the finished calls are those that were made, in the order in which they were made. */
  lemma {:induction false} DoneAreCalls(start: Config, states: seq<State>, steps: seq<Step>, k: nat)
    requires IsRun(start, states, steps) && k < |states|
    ensures Adds(states[k].done) == Calls(steps[..k])
  {
    hide Apply, Enabled;
    if k == 0 {
    } else {
      DoneAreCalls(start, states, steps, k - 1);
      CallStep(states[k - 1], steps[k - 1]);
      assert Init(steps[..k]) == steps[..k - 1] && Last(steps[..k]) == steps[k - 1];
    }
  }

  /**
   The excluded step does break the lock: if __del__ unlinks the file while q is past the inode check, then any
   further process r can create a new file and pass the check as well.
   */
  lemma HarmfulUnlinkAdmitsSecond(start: Config, s: State, p: nat, q: nat, r: nat, ino: nat)
    requires Inv(start, s) && BeforeCheck(PcOf(s, p)) && InCritical(PcOf(s, q)) && PcOf(s, r).Idle? && r != p
    requires Unused(s, ino) && ino !in s.owner
    ensures Enabled(s, DelUnlinks(p))
    ensures var s1 := Apply(s, DelUnlinks(p));
            Enabled(s1, Open(r, ino)) &&
            var s2 := Apply(s1, Open(r, ino));
            Enabled(s2, Flock(r)) &&
            var s3 := Apply(s2, Flock(r));
            Enabled(s3, Check(r)) &&
            var s4 := Apply(s3, Check(r));
            q != r && InCritical(PcOf(s4, q)) && InCritical(PcOf(s4, r))
  {
    var s1 := Apply(s, DelUnlinks(p));
    assert forall x: nat :: HasOpen(PcOf(s1, x), ino) ==> HasOpen(PcOf(s, x), ino);
  }

  /** A run from an empty configuration in which no __del__ unlinks anything. */
  ghost predicate CleanRun(states: seq<State>, steps: seq<Step>) {
    IsRun(map[], states, steps) && forall k :: 0 <= k < |steps| ==> !steps[k].DelUnlinks?
  }

  lemma RunThen(states: seq<State>, steps: seq<Step>, step: Step, next: State) returns (states': seq<State>, steps': seq<Step>)
    requires CleanRun(states, steps) && Enabled(Last(states), step) && next == Apply(Last(states), step) && !step.DelUnlinks?
    ensures CleanRun(states', steps') && states' != [] && Last(states') == next
  {
    hide Enabled, Apply;
    states', steps' := states + [next], steps + [step];
  }

  /** Process 1 has the lock and has loaded the configuration while process 2 has its file open. */
  lemma FirstAcquires() returns (states: seq<State>, steps: seq<Step>)
    ensures CleanRun(states, steps) && states != []
    ensures Last(states) == State(Some(10), map[1 := Loaded(10, map[]), 2 := Opened(10)], map[10 := 1], map[], [])
  {
    states, steps := [Initial(map[])], [];
    assert CleanRun(states, steps);
    hide CleanRun;
    states, steps := RunThen(states, steps, Open(1, 10), State(Some(10), map[1 := Opened(10)], map[], map[], []));
    var s := State(Some(10), map[1 := Opened(10), 2 := Opened(10)], map[], map[], []);
    states, steps := RunThen(states, steps, Open(2, 10), s);
    s := s.(procs := map[1 := Locked(10), 2 := Opened(10)], owner := map[10 := 1]);
    states, steps := RunThen(states, steps, Flock(1), s);
    states, steps := RunThen(states, steps, Check(1), s.(procs := map[1 := Checked(10), 2 := Opened(10)]));
    states, steps := RunThen(states, steps, Load(1), s.(procs := map[1 := Loaded(10, map[]), 2 := Opened(10)]));
  }

  /** It saves its repository. */
  lemma FirstSaves(add: Add) returns (states: seq<State>, steps: seq<Step>)
    ensures CleanRun(states, steps) && states != []
    ensures Last(states) == State(Some(10), map[1 := Releasing(10), 2 := Opened(10)], map[10 := 1], map[add.name := add.repo], [Done(add, true)])
  {
    hide CleanRun;
    states, steps := FirstAcquires();
    var procs: map<nat, Pc> := map[1 := Releasing(10), 2 := Opened(10)];
    var s := Last(states).(procs := procs, config := map[add.name := add.repo], done := [Done(add, true)]);
    states, steps := RunThen(states, steps, AddRepository(1, add), s);
  }

  /** It releases the lock. */
  lemma FirstReleases(add: Add) returns (states: seq<State>, steps: seq<Step>)
    ensures CleanRun(states, steps) && states != []
    ensures Last(states) == State(None, map[1 := Idle, 2 := Opened(10)], map[], map[add.name := add.repo], [Done(add, true)])
  {
    hide CleanRun;
    states, steps := FirstSaves(add);
    var s := Last(states).(procs := map[1 := Closing(10), 2 := Opened(10)], path := None);
    states, steps := RunThen(states, steps, Unlink(1), s);
    s := s.(procs := map[1 := Idle, 2 := Opened(10)], owner := map[]);
    states, steps := RunThen(states, steps, Close(1), s);
  }

  /** Process 2 then locks a file that has no name any more. */
  lemma SecondIsDying(add: Add) returns (states: seq<State>, steps: seq<Step>)
    ensures CleanRun(states, steps) && states != []
    ensures Last(states) == State(None, map[1 := Idle, 2 := Dying(10)], map[10 := 2], map[add.name := add.repo], [Done(add, true)])
  {
    hide CleanRun;
    states, steps := FirstReleases(add);
    var s := Last(states).(procs := map[1 := Idle, 2 := Locked(10)], owner := map[10 := 2]);
    states, steps := RunThen(states, steps, Flock(2), s);
    s := s.(procs := map[1 := Idle, 2 := Dying(10)]);
    states, steps := RunThen(states, steps, Check(2), s);
  }

  /** The harmful step is reachable: process 2 is about to unlink the path while process 3 holds the lock on it. */
  lemma HarmfulUnlinkIsReachable(add: Add) returns (states: seq<State>, steps: seq<Step>)
    ensures CleanRun(states, steps) && states != []
    ensures PcOf(Last(states), 2) == Dying(10) && PcOf(Last(states), 3) == Checked(11) && Last(states).path == Some(11)
  {
    hide CleanRun;
    states, steps := SecondIsDying(add);
    var s := Last(states).(procs := map[1 := Idle, 2 := Dying(10), 3 := Opened(11)], path := Some(11));
    states, steps := RunThen(states, steps, Open(3, 11), s);
    s := s.(procs := map[1 := Idle, 2 := Dying(10), 3 := Locked(11)], owner := map[10 := 2, 11 := 3]);
    states, steps := RunThen(states, steps, Flock(3), s);
    s := s.(procs := map[1 := Idle, 2 := Dying(10), 3 := Checked(11)]);
    states, steps := RunThen(states, steps, Check(3), s);
  }

  // ---------------------------------------------------------------- what is left behind

  /** A file that is being closed has lost its name; and as long as nobody died, a file with a name is open somewhere. */
  ghost predicate NameInv(s: State, died: bool) {
    && (forall p: nat :: PcOf(s, p).Closing? ==> s.path != Some(PcOf(s, p).ino))
    && (!died && s.path.Some? ==> exists p: nat :: HasOpen(PcOf(s, p), s.path.value))
  }

  lemma NameStep(s: State, died: bool, step: Step)
    requires NameInv(s, died) && Enabled(s, step)
    ensures NameInv(Apply(s, step), died || step.Die?)
  {
    var s', p := Apply(s, step), step.p;
    OthersStay(s, step);
    forall q: nat | PcOf(s', q).Closing?
      ensures s'.path != Some(PcOf(s', q).ino)
    {
      assert q != p ==> PcOf(s, q).Closing? && HasOpen(PcOf(s, q), PcOf(s, q).ino);
    }
    if !died && !step.Die? && s'.path.Some? {
      if step.Open? {
        assert HasOpen(PcOf(s', p), s'.path.value);
      } else {
        var q: nat :| HasOpen(PcOf(s, q), s.path.value);
        assert HasOpen(PcOf(s', q), s'.path.value);
      }
    }
  }

  ghost predicate SomeoneDied(steps: seq<Step>, k: nat) {
    exists j :: 0 <= j < k && j < |steps| && steps[j].Die?
  }

  lemma {:induction false} NameRun(start: Config, states: seq<State>, steps: seq<Step>, k: nat)
    requires IsRun(start, states, steps) && k < |states|
    ensures NameInv(states[k], SomeoneDied(steps, k))
  {
    hide Apply, Enabled, NameInv;
    if k == 0 {
      NoNameAtFirst(start);
    } else {
      NameRun(start, states, steps, k - 1);
      NameStep(states[k - 1], SomeoneDied(steps, k - 1), steps[k - 1]);
      assert SomeoneDied(steps, k) <==> SomeoneDied(steps, k - 1) || steps[k - 1].Die?;
    }
  }

  lemma NoNameAtFirst(start: Config)
    ensures NameInv(Initial(start), false)
  {
  }

  /**
   In every run a process that closes its lock file has unlinked it before; and when all processes are done and none of
   them died, there is no lock file.
   */
  lemma NoFileLeftBehind(start: Config, states: seq<State>, steps: seq<Step>, k: nat)
    requires IsRun(start, states, steps) && k < |states|
    ensures forall p: nat :: PcOf(states[k], p).Closing? ==> states[k].path != Some(PcOf(states[k], p).ino)
    ensures (forall p: nat :: PcOf(states[k], p).Idle?) && !SomeoneDied(steps, k) ==> states[k].path == None
  {
    NameRun(start, states, steps, k);
  }

  /** A process that dies with the lock leaves its file, and the next one takes the lock on that file. */
  lemma DeathReleases(start: Config, s: State, p: nat, q: nat, ino: nat)
    requires Inv(start, s) && InCritical(PcOf(s, p)) && PcOf(s, q).Idle?
    ensures Enabled(s, Die(p))
    ensures var s1 := Apply(s, Die(p));
            Enabled(s1, Open(q, ino)) &&
            var s2 := Apply(s1, Open(q, ino));
            Enabled(s2, Flock(q)) &&
            var s3 := Apply(s2, Flock(q));
            Enabled(s3, Check(q)) && PcOf(Apply(s3, Check(q)), q) == Checked(PcOf(s, p).ino)
  {
    assert Locking(PcOf(s, p));
  }

  /** If loading or saving raises, the lock is released and the file unlinked all the same. */
  lemma FailureReleases(s: State, p: nat)
    requires PcOf(s, p).Checked? || PcOf(s, p).Loaded?
    ensures Enabled(s, Abandon(p))
    ensures var s1 := Apply(s, Abandon(p));
            Enabled(s1, Unlink(p)) &&
            var s2 := Apply(s1, Unlink(p));
            Enabled(s2, Close(p)) &&
            var s3 := Apply(s2, Close(p));
            PcOf(s3, p) == Idle && s3.path == None && PcOf(s, p).ino !in s3.owner && s3.config == s.config && s3.done == s.done
  {
  }
}
