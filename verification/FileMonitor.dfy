/**
 A file that is parsed on demand and cached: the change monitor that decides when to look again, the cache on
 top of it, and the proof that every answer is what loading the file would have given at the last check.
 */
module FileMonitor {
  import opened Common

  /** The fields of struct stat; times in nanoseconds. */
  datatype Stat = Stat(dev: int, size: int, ino: int, mode: int, ctime: int, mtime: int, atime: int, nlink: int)

  datatype StatResult = StatOk(st: Stat) | StatFailed(errno: int)

  datatype Parsed<+T> = Value(v: T) | ParseFailed(errno: int) | ParserThrew

  /**
   What the file system shows for one path at one moment: stat(), open() and fstat() on what it opened (0 for success),
   and the parser's result.
   */
  datatype View<+T> = View(stat: StatResult, openErrno: int, fstatErrno: int, parsed: Parsed<T>)

  datatype Contents<+T> = Data(v: T) | Errno(errno: int)

  const EIO := 5
  const SECOND := 1_000_000_000

  predicate EqualStats(a: Stat, b: Stat) {
    a.dev == b.dev && a.size == b.size && a.ino == b.ino && a.mode == b.mode && a.ctime == b.ctime && a.mtime == b.mtime
  }

  /** The saved stat that no real file can have: its mode has no file type. */
  const NEVER_SEEN := Stat(0, 0, 0, 0, 0, SECOND, 0, 0)

  /** Loading the file without any cache. */
  function Load<T>(v: View<T>): Contents<T> {
    if v.stat.StatFailed? then Errno(v.stat.errno)
    else if v.openErrno != 0 then Errno(v.openErrno)
    else if v.fstatErrno != 0 then Errno(v.fstatErrno)
    else Parse(v.parsed)
  }

  function Parse<T>(parsed: Parsed<T>): Contents<T> {
    match parsed
    case Value(x) => Data(x)
    case ParseFailed(e) => Errno(if e != 0 then e else EIO)
    case ParserThrew => Errno(EIO)
  }

  /** Nothing changes during a check, errors are not 0, and where stat() fails open() fails alike. */
  predicate Steady<T>(v: View<T>) {
    match v.stat
    case StatOk(st) => st.mode != 0
    case StatFailed(e) => e != 0 && v.openErrno == e
  }

  /** Between two moments: files load equally if device, size, inode, mode and the times of change and modification agree. */
  ghost predicate Consistent<T>(v1: View<T>, v2: View<T>) {
    v1.stat.StatOk? && v2.stat.StatOk? &&
    (var a, b := v1.stat.st, v2.stat.st;
     (a.dev, a.size, a.ino, a.mode, a.ctime, a.mtime) == (b.dev, b.size, b.ino, b.mode, b.ctime, b.mtime))
    ==> Load(v1) == Load(v2)
  }

  /** Loading gives data exactly if every step before the parser succeeds and the parser returns them, otherwise the first error, which is never 0. */
  lemma LoadExactly<T>(v: View<T>)
    requires Steady(v)
    ensures forall x :: Load(v) == Data(x) <==> v.stat.StatOk? && v.openErrno == 0 && v.fstatErrno == 0 && v.parsed == Value(x)
    ensures Load(v).Errno? ==> Load(v).errno != 0
    ensures v.stat.StatFailed? ==> Load(v) == Errno(v.stat.errno)
    ensures v.stat.StatOk? && v.openErrno != 0 ==> Load(v) == Errno(v.openErrno)
    ensures v.stat.StatOk? && v.openErrno == 0 && v.fstatErrno != 0 ==> Load(v) == Errno(v.fstatErrno)
    ensures v.stat.StatOk? && v.openErrno == 0 && v.fstatErrno == 0 ==>
              && (v.parsed.ParseFailed? && v.parsed.errno != 0 ==> Load(v) == Errno(v.parsed.errno))
              && (v.parsed == ParseFailed(0) || v.parsed.ParserThrew? ==> Load(v) == Errno(5))
  {
  }

  /** What checkIfUpdated reports when there is something to report. */
  datatype Update = Opened | Failed(errno: int)

  class FileChangeMonitor {
    const throttleDuration: nat
    var filePath: string
    var fileStat: Stat
    var statErrno: int
    var openErrno: int
    var lastCheck: int

    constructor (filePath: string, throttleDuration: nat, now: int)
      ensures this.filePath == filePath && this.throttleDuration == throttleDuration
      ensures IsReset(now)
    {
      this.filePath, this.throttleDuration := filePath, throttleDuration;
      fileStat, statErrno, openErrno := NEVER_SEEN, 0, 0;
      lastCheck := now - throttleDuration - SECOND;
    }

    predicate IsReset(now: int)
      reads this
    {
      fileStat == NEVER_SEEN && statErrno == 0 && openErrno == 0 && lastCheck == now - throttleDuration - SECOND
    }

    method ResetToForceChange(now: int)
      modifies this
      ensures IsReset(now) && filePath == old(filePath)
    {
      fileStat, statErrno, openErrno := NEVER_SEEN, 0, 0;
      lastCheck := now - throttleDuration - SECOND;
    }

    method SetFilePath(path: string, now: int)
      modifies this
      ensures filePath == path
      ensures if path == old(filePath) then fileStat == old(fileStat) && statErrno == old(statErrno) &&
                openErrno == old(openErrno) && lastCheck == old(lastCheck)
              else IsReset(now)
    {
      if filePath != path {
        filePath := path;
        ResetToForceChange(now);
      }
    }

    predicate Throttled(now: int)
      reads this
    {
      now - lastCheck < throttleDuration
    }

    /** The fields describe what v showed: its errors, or a stat equal to its own. */
    ghost predicate Saw<T>(v: View<T>)
      reads this
    {
      if openErrno != 0 then Load(v) == Errno(openErrno)
      else if statErrno != 0 then Load(v) == Errno(statErrno)
      else v.stat.StatOk? && EqualStats(v.stat.st, fileStat)
    }

    method IsChanged<T>(v: View<T>) returns (changed: bool)
      requires Steady(v)
      modifies this`statErrno
      ensures statErrno == if v.stat.StatFailed? then v.stat.errno else 0
      ensures changed <==> statErrno != old(statErrno) || (statErrno == 0 && !EqualStats(v.stat.st, fileStat))
    {
      var prevStatErrno := statErrno;
      statErrno := 0;
      if v.stat.StatFailed? {
        statErrno := v.stat.errno;
      }
      if prevStatErrno != statErrno {
        return true;
      }
      if statErrno != 0 {
        return false;
      }
      return !EqualStats(v.stat.st, fileStat);
    }

    /** seen is the view at the last check of this path, if there was one. */
    method CheckIfUpdated<T>(now: int, v: View<T>, noThrottle: bool, ghost seen: Option<View<T>>) returns (r: Option<Update>)
      requires Steady(v)
      requires match seen case None => fileStat == NEVER_SEEN && statErrno == 0 && openErrno == 0
                          case Some(w) => Saw(w) && Consistent(w, v)
      modifies this`fileStat, this`statErrno, this`openErrno, this`lastCheck
      ensures !noThrottle && old(Throttled(now)) ==> r == None && unchanged(this)
      ensures noThrottle || !old(Throttled(now)) ==>
                lastCheck == now && Saw(v) &&
                match r
                case None => seen.Some? && Load(seen.value) == Load(v)
                case Some(Failed(e)) => e != 0 && Load(v) == Errno(e)
                case Some(Opened) => v.stat.StatOk? && v.openErrno == 0 && v.fstatErrno == 0
    {
      if !noThrottle && Throttled(now) {
        return None;
      }
      lastCheck := now;
      if openErrno == 0 {
        var changed := IsChanged(v);
        if !changed {
          return None;
        }
      }
      if openErrno != 0 || statErrno == 0 {
        if v.openErrno == 0 {
          if v.fstatErrno == 0 {
            fileStat := v.stat.st;
          } else {
            // A failed fstat() may leave anything behind.
            fileStat := *;
          }
          openErrno := 0;
          statErrno := v.fstatErrno;
        } else {
          if v.openErrno == openErrno {
            return None;
          }
          openErrno := v.openErrno;
        }
      }
      if openErrno != 0 || statErrno != 0 {
        return Some(Failed(if openErrno != 0 then openErrno else statErrno));
      }
      return Some(Opened);
    }
  }

  class CachedParsedFileMonitor<T> {
    const monitor: FileChangeMonitor
    const empty: T
    var parsedData: T
    var lastErrno: int
    var updateCount: nat
    ghost var seen: Option<View<T>>
    ghost var clock: int

    constructor (filePath: string, throttleDuration: nat, empty: T, now: int)
      ensures Valid() && fresh(monitor) && seen == None && clock == now
      ensures monitor.filePath == filePath && monitor.throttleDuration == throttleDuration
    {
      monitor := new FileChangeMonitor(filePath, throttleDuration, now);
      this.empty := empty;
      parsedData, lastErrno, updateCount := empty, 0, 0;
      seen, clock := None, now;
    }

    function Cached(): Contents<T>
      reads this
    {
      if lastErrno != 0 then Errno(lastErrno) else Data(parsedData)
    }

    /** The cache holds the outcome of the last check; before the first check of a path nothing throttles it. */
    ghost predicate Valid()
      reads this, monitor
    {
      match seen
      case None => monitor.fileStat == NEVER_SEEN && monitor.statErrno == 0 && monitor.openErrno == 0 &&
                   monitor.lastCheck <= clock - monitor.throttleDuration - SECOND
      case Some(w) => monitor.Saw(w) && Cached() == Load(w)
    }

    method SetError(errorNum: int)
      modifies this`lastErrno, this`parsedData
      ensures Cached() == Errno(if errorNum != 0 then errorNum else EIO)
    {
      lastErrno := if errorNum != 0 then errorNum else EIO;
      parsedData := empty;
    }

    method ParseFile(parsed: Parsed<T>)
      modifies this`lastErrno, this`parsedData
      ensures Cached() == Parse(parsed)
    {
      match parsed {
        case Value(x) =>
          lastErrno := 0;
          parsedData := x;
        case ParseFailed(e) => SetError(e);
        case ParserThrew => SetError(EIO);
      }
    }

    method ProcessUpdatedFile(update: Update, parsed: Parsed<T>)
      modifies this`lastErrno, this`parsedData, this`updateCount
      ensures Cached() == match update case Failed(e) => Errno(if e != 0 then e else EIO)
                                       case Opened => Parse(parsed)
      ensures updateCount == old(updateCount) + 1
    {
      updateCount := updateCount + 1;
      match update {
        case Failed(e) => SetError(e);
        case Opened => ParseFile(parsed);
      }
    }

    /**
     A throttled call answers with the outcome at the last check; any other call with what loading the
     file at this moment gives. v is what the file system shows for the monitored path now.
     */
    method GetFileContents(now: int, v: View<T>) returns (r: Contents<T>)
      requires Valid() && clock <= now && Steady(v)
      requires seen.Some? ==> Consistent(seen.value, v)
      modifies this, monitor`fileStat, monitor`statErrno, monitor`openErrno, monitor`lastCheck
      ensures Valid() && clock == now
      ensures old(seen).None? ==> !old(monitor.Throttled(now))
      ensures if old(monitor.Throttled(now)) then seen == old(seen) && monitor.lastCheck == old(monitor.lastCheck)
              else seen == Some(v) && monitor.lastCheck == now
      ensures seen.Some? && r == Load(seen.value)
    {
      var update := monitor.CheckIfUpdated(now, v, false, seen);
      ghost var throttled := old(monitor.Throttled(now));
      if update.Some? {
        ProcessUpdatedFile(update.value, v.parsed);
      }
      if !throttled {
        seen := Some(v);
      }
      clock := now;
      return if lastErrno != 0 then Errno(lastErrno) else Data(parsedData);
    }

    method SetFilePath(path: string, now: int)
      requires Valid() && clock <= now
      modifies this`seen, this`clock, monitor
      ensures Valid() && clock == now && monitor.filePath == path
      ensures if path == old(monitor.filePath) then seen == old(seen) && monitor.lastCheck == old(monitor.lastCheck)
              else seen == None
    {
      if path != monitor.filePath {
        seen := None;
      }
      monitor.SetFilePath(path, now);
      clock := now;
    }
  }

  // ---------------------------------------------------------------- a whole series of calls

  /** One call of getFileContents(path), with the time and what the file system shows for that path then. */
  datatype Call<+T> = Call(path: string, now: int, view: View<T>)

  /** Time does not run backwards, and equal stats of one path always mean equal contents. */
  ghost predicate Plausible<T>(calls: seq<Call<T>>) {
    && (forall i :: 0 <= i < |calls| ==> Steady(calls[i].view))
    && (forall i, j :: 0 <= i < j < |calls| ==> calls[i].now <= calls[j].now)
    && (forall i, j :: 0 <= i < j < |calls| && calls[i].path == calls[j].path ==> Consistent(calls[i].view, calls[j].view))
  }

  /** The call whose moment call k answers for: itself, or the last check of the same path if that is recent. */
  function CheckedAt<T>(calls: seq<Call<T>>, k: nat, throttle: nat): (c: nat)
    requires k < |calls|
    ensures c <= k && calls[c].path == calls[k].path
  {
    if k == 0 then 0
    else
      var c := CheckedAt(calls, k - 1, throttle);
      if calls[k].path == calls[k - 1].path && calls[k].now - calls[c].now < throttle then c else k
  }

  /** The cache after the first k calls. */
  ghost predicate After<T>(cache: CachedParsedFileMonitor<T>, calls: seq<Call<T>>, k: nat, start: int)
    requires k <= |calls|
    reads cache, cache.monitor
  {
    cache.Valid() &&
    if k == 0 then cache.clock == start && cache.seen == None
    else
      var c := CheckedAt(calls, k - 1, cache.monitor.throttleDuration);
      && cache.clock == calls[k - 1].now && cache.monitor.filePath == calls[k - 1].path
      && cache.seen == Some(calls[c].view) && cache.monitor.lastCheck == calls[c].now
  }

  lemma ConsistentWithCheck<T>(calls: seq<Call<T>>, k: nat, throttle: nat)
    requires Plausible(calls) && 0 < k < |calls| && calls[k].path == calls[k - 1].path
    ensures Consistent(calls[CheckedAt(calls, k - 1, throttle)].view, calls[k].view)
  {
  }

  /** getFileContents(path) for call k. */
  method Answer<T>(cache: CachedParsedFileMonitor<T>, calls: seq<Call<T>>, k: nat, ghost start: int) returns (r: Contents<T>)
    requires Plausible(calls) && k < |calls| && start <= calls[k].now && After(cache, calls, k, start)
    modifies cache, cache.monitor
    ensures After(cache, calls, k + 1, start)
    ensures r == Load(calls[CheckedAt(calls, k, cache.monitor.throttleDuration)].view)
  {
    if k > 0 && calls[k].path == calls[k - 1].path {
      ConsistentWithCheck(calls, k, cache.monitor.throttleDuration);
    }
    hide Load, EqualStats, Consistent, Plausible;
    assert Steady(calls[k].view) && cache.clock <= calls[k].now by { CallIsPlausible(calls, k); }
    cache.SetFilePath(calls[k].path, calls[k].now);
    r := cache.GetFileContents(calls[k].now, calls[k].view);
  }

  lemma CallIsPlausible<T>(calls: seq<Call<T>>, k: nat)
    requires Plausible(calls) && k < |calls|
    ensures Steady(calls[k].view) && (k > 0 ==> calls[k - 1].now <= calls[k].now)
  {
  }

  /**
   The cache refines direct loading: in every series of calls, each answer is what loading gives at the call's
   own moment, or, within the throttle duration of the last check of the same path, at that check.
   Data of another path is never returned.
   */
  method Serve<T>(initialPath: string, throttle: nat, empty: T, start: int, calls: seq<Call<T>>) returns (answers: seq<Contents<T>>)
    requires Plausible(calls) && forall i :: 0 <= i < |calls| ==> start <= calls[i].now
    ensures |answers| == |calls|
    ensures forall k :: 0 <= k < |calls| ==> answers[k] == Load(calls[CheckedAt(calls, k, throttle)].view)
  {
    hide Load, Plausible, CheckedAt;
    var cache := new CachedParsedFileMonitor(initialPath, throttle, empty, start);
    answers := [];
    var k := 0;
    while k < |calls|
      invariant k <= |calls| && |answers| == k
      invariant fresh(cache) && fresh(cache.monitor) && cache.monitor.throttleDuration == throttle
      invariant After(cache, calls, k, start)
      invariant forall j :: 0 <= j < k ==> answers[j] == Load(calls[CheckedAt(calls, j, throttle)].view)
    {
      var r := Answer(cache, calls, k, start);
      answers := answers + [r];
      k := k + 1;
    }
  }
}
