/** What a full repair achieves: it converges, it says when it cannot, and it loses no file. */
module FsckTheorems {
  import opened Common
  import opened OverlayGraph
  import opened OverlayExtract
  import opened Fsck
  import opened FsckRepair
  import ScanTheorems
  import opened ErrorPaths

  // ---------------------------------------------------------------- extracting all orphans

  ghost function UnderHeads(d: Disk, heads: seq<nat>): set<nat> {
    set x | x in d && exists h :: h in heads && x in Under(d, [h])
  }

  lemma UnderHeadsStep(d: Disk, heads: seq<nat>)
    requires Heads(d, heads) && heads != []
    ensures UnderHeads(d, heads) == UnderHeads(d, Init(heads)) + Under(d, [Last(heads)])
    ensures UnderHeads(d, Init(heads)) !! Under(d, [Last(heads)])
    ensures Heads(d, Init(heads)) && RootedChain(d, [Last(heads)])
  {
    assert heads == Init(heads) + [Last(heads)];
    assert Last(heads) in heads;
    forall x | x in UnderHeads(d, Init(heads)) && x in Under(d, [Last(heads)])
      ensures false
    {
      var h :| h in Init(heads) && x in Under(d, [h]);
      UnderMeet(d, [h], [Last(heads)], x);
    }
  }

  lemma {:induction false} OrphanDirsEffect(w: Store, d: Disk, dirs: seq<nat>)
    requires Heads(d, dirs) && SubDisk(w.files, d) && SavedAreGone(w, d) && UnderHeads(d, dirs) <= w.files.Keys
    ensures var r := ExtractOrphanDirs(w, d, dirs);
            && (r.Ok? <==> (forall h :: h in dirs ==> d[h].DirData?) && GoodDirs(d, UnderHeads(d, dirs)))
            && (r.Ok? ==> Extracted(w, r.value, d, UnderHeads(d, dirs), true) && SavedAreGone(r.value, d))
  {
    if dirs == [] {
      NothingExtracted(w, d);
      assert UnderHeads(d, dirs) == {};
    } else {
      UnderHeadsStep(d, dirs);
      OrphanDirsEffect(w, d, Init(dirs));
      DirsSplit(d, dirs);
      var r := ExtractOrphanDirs(w, d, Init(dirs));
      if r.Ok? {
        OneMoreDir(w, r.value, d, dirs);
      }
    }
  }

  lemma NothingExtracted(w: Store, d: Disk)
    ensures Extracted(w, w, d, {}, true)
  {
  }

  lemma DirsSplit(d: Disk, dirs: seq<nat>)
    requires Heads(d, dirs) && dirs != []
    ensures (forall h :: h in dirs ==> d[h].DirData?) && GoodDirs(d, UnderHeads(d, dirs)) <==>
            (forall h :: h in Init(dirs) ==> d[h].DirData?) && GoodDirs(d, UnderHeads(d, Init(dirs))) &&
            Last(dirs) in d && d[Last(dirs)].DirData? && GoodDirs(d, Under(d, [Last(dirs)]))
  {
    UnderHeadsStep(d, dirs);
    assert dirs == Init(dirs) + [Last(dirs)];
  }

  lemma OneMoreDir(w: Store, w1: Store, d: Disk, dirs: seq<nat>)
    requires Heads(d, dirs) && dirs != [] && SubDisk(w.files, d) && SubDisk(w1.files, w.files)
    requires UnderHeads(d, dirs) <= w.files.Keys
    requires Extracted(w, w1, d, UnderHeads(d, Init(dirs)), true) && SavedAreGone(w1, d)
    ensures RootedChain(d, [Last(dirs)])
    ensures var r := ExtractDir(w1, d, [Last(dirs)], LostPath(Last(dirs), []), true);
            && (r.Ok? <==> d[Last(dirs)].DirData? && GoodDirs(d, Under(d, [Last(dirs)])))
            && (r.Ok? ==> Extracted(w, r.value, d, UnderHeads(d, dirs), true) && SavedAreGone(r.value, d))
  {
    var path := [Last(dirs)];
    UnderHeadsStep(d, dirs);
    ExtractDirEffect(w1, d, path, true);
    var r := ExtractDir(w1, d, path, PathOf(d, path), true);
    if r.Ok? {
      ExtractedThen(w, w1, r.value, d, UnderHeads(d, Init(dirs)), Under(d, path), true);
      SavedAreGoneAfter(w1, r.value, d, Under(d, path), true);
    }
  }

  lemma {:induction false} OrphanFilesEffect(w: Store, d: Disk, files: seq<nat>)
    requires Heads(d, files) && SubDisk(w.files, d) && SavedAreGone(w, d) && UnderHeads(d, files) <= w.files.Keys
    ensures var r := ExtractOrphanFiles(w, files);
            && (r.Ok? <==> forall h :: h in files ==> d[h].FileData?)
            && (r.Ok? ==> Extracted(w, r.value, d, UnderHeads(d, files), true) &&
                          SubDisk(r.value.files, w.files) && SavedAreGone(r.value, d))
  {
    if files == [] {
      NothingExtracted(w, d);
      assert UnderHeads(d, files) == {};
    } else {
      var h := Last(files);
      assert files == Init(files) + [h];
      UnderHeadsStep(d, files);
      OrphanFilesEffect(w, d, Init(files));
      var r := ExtractOrphanFiles(w, Init(files));
      if r.Ok? {
        UnderSelf(d, [h]);
        ExtractFileEffect(r.value, d, [h], true);
        var r2 := ExtractFile(r.value, h, LostPath(h, []), RegType);
        if r2.Ok? {
          UnderFile(d, [h]);
          ExtractedThen(w, r.value, r2.value, d, UnderHeads(d, Init(files)), {h}, true);
          SavedAreGoneAfter(r.value, r2.value, d, {h}, true);
        }
      }
    }
  }

  lemma HeadsConcat(d: Disk, a: seq<nat>, b: seq<nat>)
    requires Heads(d, a + b)
    ensures Heads(d, a) && Heads(d, b)
    ensures UnderHeads(d, a + b) == UnderHeads(d, a) + UnderHeads(d, b)
    ensures UnderHeads(d, a) !! UnderHeads(d, b)
  {
    assert forall i :: 0 <= i < |a| ==> (a + b)[i] == a[i];
    assert forall i :: 0 <= i < |b| ==> (a + b)[|a| + i] == b[i];
    forall x | x in UnderHeads(d, a) && x in UnderHeads(d, b)
      ensures false
    {
      var h :| h in a && x in Under(d, [h]);
      var g :| g in b && x in Under(d, [g]);
      UnderMeet(d, [h], [g], x);
    }
  }

  ghost predicate OrphansGood(d: Disk, dirs: seq<nat>, files: seq<nat>) {
    && (forall h :: h in dirs ==> h in d && d[h].DirData?)
    && GoodDirs(d, UnderHeads(d, dirs))
    && (forall h :: h in files ==> h in d && d[h].FileData?)
  }

  /** Moving orphans to lost+found works exactly when every entry below them is good, and then empties their subtrees. */
  lemma OrphansEffect(d: Disk, dirs: seq<nat>, files: seq<nat>)
    requires Heads(d, dirs + files)
    ensures var w := Store(d, map[]);
            var r := ExtractOrphans(w, dirs, files);
            && (r.Ok? <==> OrphansGood(d, dirs, files))
            && (r.Ok? ==> Extracted(w, r.value, d, UnderHeads(d, dirs + files), true))
  {
    hide Extracted;
    var w := Store(d, map[]);
    HeadsConcat(d, dirs, files);
    assert UnderHeads(d, dirs) <= d.Keys && UnderHeads(d, files) <= d.Keys;
    OrphanDirsEffect(w, d, dirs);
    var r := ExtractOrphanDirs(w, d, dirs);
    if r.Ok? {
      StillThere(w, r.value, d, UnderHeads(d, dirs), UnderHeads(d, files));
      OrphanFilesEffect(r.value, d, files);
      var r2 := ExtractOrphanFiles(r.value, files);
      if r2.Ok? {
        ExtractedThen(w, r.value, r2.value, d, UnderHeads(d, dirs), UnderHeads(d, files), true);
      }
    }
  }

  lemma StillThere(w: Store, w': Store, d: Disk, s: set<nat>, t: set<nat>)
    requires Extracted(w, w', d, s, true) && s !! t && t <= w.files.Keys
    ensures t <= w'.files.Keys
  {
  }

  // ---------------------------------------------------------------- the patched overlay

  /** Patching adds no entry, so both overlays have the same edges. */
  lemma PatchedEdges(d: Disk, order: seq<nat>)
    requires Listing(d, order) && Forest(d)
    ensures var p := Patched(d, order);
            && (forall x, i :: HasEntry(p, x, i) <==> HasEntry(d, x, i))
            && (forall x, i :: HasEntry(d, x, i) ==> EntryAt(p, x, i) == EntryAt(d, x, i))
  {
    hide Forest, StandIn;
    assert forall x :: x in MissingAt(d, Listed(d, order)) ==> x !in d;
    StandInIsEmpty(d);
  }

  lemma StandInIsEmpty(d: Disk)
    ensures forall x: nat :: StandIn(d, x) == DirData([]) || StandIn(d, x) == FileData([])
  {
  }

  lemma PatchedForest(d: Disk, order: seq<nat>)
    requires Listing(d, order) && Forest(d)
    ensures Forest(Patched(d, order))
    ensures forall x: nat :: Unreferenced(Patched(d, order), x) <==> Unreferenced(d, x)
  {
    var p := Patched(d, order);
    PatchedEdges(d, order);
    forall x: nat
      ensures Unreferenced(p, x) <==> Unreferenced(d, x)
    {
      if Unreferenced(p, x) {
        assert forall q, i :: HasEntry(d, q, i) ==> HasEntry(p, q, i) && EntryAt(p, q, i).ino == EntryAt(d, q, i).ino;
      }
    }
    assert UniqueRefs(p) && DistinctNames(p);
  }

  lemma {:induction false} PatchedChain(d: Disk, order: seq<nat>, c: seq<nat>)
    requires Listing(d, order) && Forest(d) && c != [] && Last(c) in d
    ensures Chain(d, c) <==> Chain(Patched(d, order), c)
    decreases |c|
  {
    var p := Patched(d, order);
    PatchedEdges(d, order);
    if |c| > 1 {
      if IsChild(d, Last(Init(c)), Last(c)) {
        var i :| HasEntry(d, Last(Init(c)), i) && EntryAt(d, Last(Init(c)), i).ino == Last(c);
        assert HasEntry(p, Last(Init(c)), i) && EntryAt(p, Last(Init(c)), i).ino == Last(c);
        PatchedChain(d, order, Init(c));
      }
    }
  }

  // ---------------------------------------------------------------- when repair succeeds

  /**
   The entry of an orphaned directory can be moved to lost+found: its mode agrees with a readable
   inode, and it is no symlink whose target is missing, unreadable or unusable.
   */
  predicate Extractable(d: Disk, e: Entry) {
    if e.ino in d && d[e.ino].DirData? then e.mode.DirType?
    else if e.ino in d && d[e.ino].FileData? then
      !e.mode.DirType? && (e.mode.SymlinkType? ==> d[e.ino].contents != [] && 0 !in d[e.ino].contents)
    else if e.ino in d || (e.ino != 0 && e.hash.None?) then !e.mode.SymlinkType?
    else true
  }

  /** No orphan is an unparseable directory, and everything below an orphan is extractable. */
  ghost predicate OrphansCanMove(d: Disk) {
    && (forall h :: IsOrphanInode(d, h) ==> !d[h].BadDir?)
    && BelowOrphansExtractable(d)
  }

  /** Every error has a path to show, and every orphan can be moved out. */
  ghost predicate CanRepair(d: Disk) {
    FaultsAnchored(d) && OrphansCanMove(d)
  }

  lemma ExtractableWhenPatched(d: Disk, order: seq<nat>, p: nat, i: nat)
    requires Listing(d, order) && Forest(d) && HasEntry(d, p, i)
    ensures Extractable(d, EntryAt(d, p, i)) <==> GoodEntry(Patched(d, order), EntryAt(d, p, i))
  {
    hide StandIn;
    var e := EntryAt(d, p, i);
    ListedIn(d, order, Ref(p, i));
    if e.ino != 0 {
      StandInForRef(d, p, i);
    }
    if e.ino in MissingAt(d, Listed(d, order)) {
      var r :| r in Listed(d, order) && IsMissing(d, r) && InoAt(d, r) == e.ino;
      SameRef(d, r, Ref(p, i));
    }
  }

  lemma OrphanHeads(d: Disk, order: seq<nat>)
    requires Listing(d, order) && Forest(d)
    ensures Heads(Patched(d, order), OrphanDirs(d, order) + OrphanFiles(d, order))
  {
    OrphanLists(d, order);
    PatchedForest(d, order);
    assert forall h :: h in OrphanDirs(d, order) + OrphanFiles(d, order) ==> IsOrphanInode(d, h);
  }

  /** The conditions of the orphan repair, said of the overlay before any repair. */
  lemma OrphansExtractable(d: Disk, order: seq<nat>)
    requires Listing(d, order) && Forest(d)
    ensures OrphansCanMove(d) <==> OrphansGood(Patched(d, order), OrphanDirs(d, order), OrphanFiles(d, order))
  {
    OrphanLists(d, order);
    OrphanTypes(d, order);
    OrphanEntriesGood(d, order);
  }

  lemma OrphanTypes(d: Disk, order: seq<nat>)
    requires Listing(d, order) && Forest(d)
    ensures var p := Patched(d, order);
            forall h :: IsOrphanInode(d, h) ==>
              h in p && (if d[h].DirData? then p[h].DirData? else p[h].FileData? <==> !d[h].BadDir?)
  {
    assert forall x :: x in MissingAt(d, Listed(d, order)) ==> x !in d;
  }

  ghost predicate BelowOrphansExtractable(d: Disk) {
    forall c: seq<nat>, i :: RootedChain(d, c) && c[0] != ROOT && HasEntry(d, Last(c), i)
      ==> Extractable(d, EntryAt(d, Last(c), i))
  }

  lemma OrphanEntriesGood(d: Disk, order: seq<nat>)
    requires Listing(d, order) && Forest(d)
    ensures var p := Patched(d, order);
            BelowOrphansExtractable(d) <==> GoodDirs(p, UnderHeads(p, OrphanDirs(d, order)))
  {
    var p := Patched(d, order);
    PatchedEdges(d, order);
    if BelowOrphansExtractable(d) {
      forall x, i | x in UnderHeads(p, OrphanDirs(d, order)) && HasEntry(p, x, i)
        ensures GoodEntry(p, EntryAt(p, x, i))
      {
        var c := OrphanChain(d, order, x);
        ExtractableWhenPatched(d, order, x, i);
        assert Extractable(d, EntryAt(d, Last(c), i));
      }
    }
    if GoodDirs(p, UnderHeads(p, OrphanDirs(d, order))) {
      forall c: seq<nat>, i | RootedChain(d, c) && c[0] != ROOT && HasEntry(d, Last(c), i)
        ensures Extractable(d, EntryAt(d, Last(c), i))
      {
        BelowOrphan(d, order, c);
        ExtractableWhenPatched(d, order, Last(c), i);
        assert HasEntry(p, Last(c), i);
      }
    }
  }

  lemma OrphanChain(d: Disk, order: seq<nat>, x: nat) returns (c: seq<nat>)
    requires Listing(d, order) && Forest(d) && x in d && x in UnderHeads(Patched(d, order), OrphanDirs(d, order))
    ensures RootedChain(d, c) && c[0] != ROOT && Last(c) == x
  {
    var p := Patched(d, order);
    var h :| h in OrphanDirs(d, order) && x in Under(p, [h]);
    c :| Chain(p, c) && [h] <= c && Last(c) == x;
    PatchedChain(d, order, c);
    OrphanLists(d, order);
  }

  lemma BelowOrphan(d: Disk, order: seq<nat>, c: seq<nat>)
    requires Listing(d, order) && Forest(d) && RootedChain(d, c) && c[0] != ROOT && d[Last(c)].DirData?
    ensures Last(c) in UnderHeads(Patched(d, order), OrphanDirs(d, order))
  {
    var p := Patched(d, order);
    PatchedChain(d, order, c);
    ChainPrefix(d, c, 1);
    if |c| > 1 {
      InnerIsDir(d, c, 0);
    }
    OrphanLists(d, order);
    assert c[0] in OrphanDirs(d, order) && [c[0]] <= c;
    assert Reaches(p, [c[0]], Last(c));
  }

  // ---------------------------------------------------------------- the whole repair

  /** What fix_errors starts from: a held lock, a scan of this overlay, and a fresh fsck directory. */
  ghost predicate Checkable(s: State, order: seq<nat>) {
    && Listing(s.files, order) && Forest(s.files) && Unreferenced(s.files, ROOT)
    && s.lost == map[] && s.broken == map[]
  }

  ghost function FixErrors(s: State, order: seq<nat>): Outcome<State>
    requires Listing(s.files, order)
  {
    FixAll(s.files, order, Scan(s, order, true), s)
  }

  /** The inodes that repair takes out of the overlay: everything at or below an orphan. */
  ghost function Gone(d: Disk, order: seq<nat>): set<nat> {
    UnderHeads(Patched(d, order), OrphanDirs(d, order) + OrphanFiles(d, order))
  }

  ghost predicate Repaired(s: State, order: seq<nat>, s': State) {
    var d := s.files;
    var p := Patched(d, order);
    && s'.files == p - Gone(d, order)
    && (forall q, v :: Holds(s'.lost, q, v) <==> Saves(p, Gone(d, order), q, v))
    && s'.broken == Originals(d, Broken(d))
    && s'.junk == s.junk
    && NextAfter(s, order, s'.next)
  }

  /** A stored number above every number in use is kept, anything else is replaced by the largest of them plus one. */
  ghost predicate NextAfter(s: State, order: seq<nat>, next: NextInode) {
    if s.next.Stored? && s.next.n > 0 && forall x: nat :: Mentioned(s.files, order, x) ==> x < s.next.n then next == s.next
    else next.Stored? && ScanTheorems.NextFree(s.files, order, next.n)
  }

  /** There is no remedy for unexpected files and for inodes with several parents. */
  lemma {:induction false} RepairJunk(es: seq<Error>, s: State)
    requires forall e :: e in es ==> e.UnexpectedOverlayFile? || e.HardLinkedInode?
    ensures RepairAll(es, s) == Ok(s)
  {
    if es == [] {
    } else {
      assert Last(es) in es && forall e :: e in Init(es) ==> e in es;
      RepairJunk(Init(es), s);
    }
  }

  lemma OrphanStage(d: Disk, order: seq<nat>, s: State)
    requires Listing(d, order) && Forest(d) && s.files == Patched(d, order) && s.lost == map[]
    ensures var r := RepairAll(OrphanErrors(d, order), s);
            && (r.Ok? <==> OrphansCanMove(d))
            && (r.Ok? ==> r.value == s.(files := r.value.files, lost := r.value.lost) &&
                          Extracted(Store(s.files, map[]), Store(r.value.files, r.value.lost), s.files, Gone(d, order), true))
  {
    hide Forest, OrphansCanMove, Extracted, OrphansGood, Patched, ExtractOrphans;
    var dirs, files := OrphanDirs(d, order), OrphanFiles(d, order);
    OrphanHeads(d, order);
    OrphansEffect(s.files, dirs, files);
    OrphansExtractable(d, order);
    if Orphans(d, order) == [] {
      assert 0 !in d by { ForestHasNoZero(d); }
      OrphanLists(d, order);
      NoOrphans(s.files, dirs, files);
      NothingExtracted(Store(s.files, map[]), s.files);
    } else {
      RepairOne(OrphanInodes(dirs, files), s);
    }
  }

  lemma NoOrphans(d: Disk, dirs: seq<nat>, files: seq<nat>)
    requires dirs + files == []
    ensures UnderHeads(d, dirs + files) == {} && OrphansGood(d, dirs, files)
  {
    assert dirs == [] && files == [];
    assert UnderHeads(d, dirs) == {};
  }

  lemma ForestHasNoZero(d: Disk)
    requires Forest(d)
    ensures 0 !in d
  {
  }

  lemma NextStage(s: State, expected: nat)
    ensures var r := RepairAll(NextErrors(s.next, true, expected), s);
            r == Ok(s.(next := if s.next.Stored? && s.next.n >= expected then s.next else Stored(expected)))
  {
    forall e: Error
      ensures RepairAll([e], s) == Repair(e, s)
    {
      RepairOne(e, s);
    }
  }

  lemma NextIsRight(s: State, order: seq<nat>, next: NextInode)
    requires var m := MaxInode(s.files, order); next == if s.next.Stored? && s.next.n >= m + 1 then s.next else Stored(m + 1)
    ensures NextAfter(s, order, next) && next.Stored? && next.n > MaxInode(s.files, order)
  {
    hide MaxInode, Mentioned;
    MaxInodeIsMax(s.files, order);
    ScanTheorems.NextFreeIsMax(s.files, order, next.n);
  }

  lemma InStages(junk: seq<Error>, patch: seq<Error>, orphans: seq<Error>, next: seq<Error>, s: State, s1: State)
    requires RepairAll(junk, s) == Ok(s) && RepairAll(patch, s) == Ok(s1)
    ensures RepairAll(junk + patch + orphans + next, s) ==
            var r := RepairAll(orphans, s1); if r.Raised? then Raised else RepairAll(next, r.value)
  {
    RepairAllConcat(junk, patch, s);
    RepairAllConcat(junk + patch, orphans, s);
    RepairAllConcat(junk + patch + orphans, next, s);
  }

  ghost function AfterPatching(s: State, order: seq<nat>): State {
    s.(files := Patched(s.files, order), broken := Originals(s.files, Broken(s.files)))
  }

  lemma FixInStages(s: State, order: seq<nat>)
    requires Checkable(s, order)
    ensures RepairAll(Scan(s, order, true), s) ==
            var r := RepairAll(OrphanErrors(s.files, order), AfterPatching(s, order));
            if r.Raised? then Raised else RepairAll(NextErrors(s.next, true, MaxInode(s.files, order) + 1), r.value)
  {
    hide Forest, Patched, RepairAll, Originals;
    var d := s.files;
    var patch := MissingErrors(d, Listed(d, order)) + AllNodeErrors(d, order, order);
    RepairJunk(JunkErrors(s.junk), s);
    PatchStage(d, order, s);
    assert s.broken + Originals(d, Broken(d)) == Originals(d, Broken(d));
    InStages(JunkErrors(s.junk), patch, OrphanErrors(d, order), NextErrors(s.next, true, MaxInode(d, order) + 1), s, AfterPatching(s, order));
  }

  /** The repairs alone, without the descriptions before them. */
  lemma RepairOutcome(s: State, order: seq<nat>)
    requires Checkable(s, order)
    ensures var r := RepairAll(Scan(s, order, true), s);
            (r.Ok? <==> OrphansCanMove(s.files)) && (r.Ok? ==> Repaired(s, order, r.value))
  {
    hide Forest, OrphansCanMove, Patched, Extracted, Gone, RepairAll, Scan, NextErrors, OrphanErrors, Listing, Holds, Saves;
    var s1 := AfterPatching(s, order);
    FixInStages(s, order);
    OrphanStage(s.files, order, s1);
    var r := RepairAll(OrphanErrors(s.files, order), s1);
    if r.Ok? {
      NextStage(r.value, MaxInode(s.files, order) + 1);
      var fixed := RepairAll(NextErrors(s.next, true, MaxInode(s.files, order) + 1), r.value);
      NextIsRight(s, order, fixed.value.next);
      GoneIsPresent(s.files, order);
      ExtractedAll(s1.files, r.value, Gone(s.files, order));
    }
  }

  /** fix_errors returns normally exactly if every error can be described and every orphan moved out. */
  lemma FixOutcome(s: State, order: seq<nat>)
    requires Checkable(s, order)
    ensures FixErrors(s, order).Ok? <==> CanRepair(s.files)
    ensures FixErrors(s, order).Ok? ==> Repaired(s, order, FixErrors(s, order).value)
  {
    hide Forest, OrphansCanMove, FaultsAnchored, Repaired, RepairAll, Scan, FixAll, AllDescribable;
    FixAllIs(s.files, order, Scan(s, order, true), s);
    ScanDescribable(s, order);
    RepairOutcome(s, order);
  }

  lemma GoneIsPresent(d: Disk, order: seq<nat>)
    ensures Gone(d, order) <= Patched(d, order).Keys
  {
  }

  lemma ExtractedAll(p: Disk, s: State, gone: set<nat>)
    requires Extracted(Store(p, map[]), Store(s.files, s.lost), p, gone, true) && gone <= p.Keys
    ensures s.files == p - gone && forall q, v :: Holds(s.lost, q, v) <==> Saves(p, gone, q, v)
  {
    assert Removed(p, gone, true) == gone;
  }

  // ---------------------------------------------------------------- convergence

  lemma UnderParent(d: Disk, h: nat, x: nat, i: nat)
    requires Forest(d) && Unreferenced(d, h) && HasEntry(d, x, i) && EntryAt(d, x, i).ino in Under(d, [h])
    ensures x in Under(d, [h])
  {
    var y := EntryAt(d, x, i).ino;
    var c :| Chain(d, c) && [h] <= c && Last(c) == y;
    assert |c| > 1;
    var j :| HasEntry(d, Last(Init(c)), j) && EntryAt(d, Last(Init(c)), j).ino == y;
    assert Last(Init(c)) == x;
    assert [h] <= Init(c);
    assert Reaches(d, [h], x);
  }

  /** An extracted subtree is closed: nothing outside lists into it, and nothing present is listed out of it. */
  lemma UnderClosed(d: Disk, h: nat, x: nat, i: nat)
    requires Forest(d) && Unreferenced(d, h) && HasEntry(d, x, i) && EntryAt(d, x, i).ino in d
    ensures x in Under(d, [h]) <==> EntryAt(d, x, i).ino in Under(d, [h])
  {
    hide Forest;
    var y := EntryAt(d, x, i).ino;
    if y in Under(d, [h]) {
      UnderParent(d, h, x, i);
    } else if x in Under(d, [h]) {
      UnderEntry(d, h, x, i);
    }
  }

  lemma UnderEntry(d: Disk, h: nat, x: nat, i: nat)
    requires x in Under(d, [h]) && HasEntry(d, x, i) && EntryAt(d, x, i).ino in d
    ensures EntryAt(d, x, i).ino in Under(d, [h])
  {
    var c :| Chain(d, c) && [h] <= c && Last(c) == x;
    ChainExtend(d, c, i);
    assert [h] <= c + [EntryAt(d, x, i).ino];
  }

  lemma UnderHeadsClosed(d: Disk, heads: seq<nat>, x: nat, i: nat)
    requires Heads(d, heads) && HasEntry(d, x, i) && EntryAt(d, x, i).ino in d
    ensures x in UnderHeads(d, heads) <==> EntryAt(d, x, i).ino in UnderHeads(d, heads)
  {
    forall h | h in heads
      ensures x in Under(d, [h]) <==> EntryAt(d, x, i).ino in Under(d, [h])
    {
      UnderClosed(d, h, x, i);
    }
  }

  /**
   extract_dir with remove=True from an inode nothing lists: it returns exactly when everything it meets is
   good, deletes exactly what is reachable, and leaves no entry newly dangling and no inode newly unlisted.
   */
  lemma ExtractDirRemovesSubtree(d: Disk, h: nat)
    requires Forest(d) && h in d && Unreferenced(d, h)
    ensures RootedChain(d, [h])
    ensures var r := ExtractDir(Store(d, map[]), d, [h], LostPath(h, []), true);
            && (r.Ok? <==> d[h].DirData? && GoodDirs(d, Under(d, [h])))
            && (r.Ok? ==> r.value.files == d - Under(d, [h]))
            && (r.Ok? ==> forall x, i :: HasEntry(d, x, i) && EntryAt(d, x, i).ino in d ==>
                  (x in r.value.files <==> EntryAt(d, x, i).ino in r.value.files))
  {
    var w := Store(d, map[]);
    assert PathOf(d, [h]) == LostPath(h, []);
    assert Under(d, [h]) <= d.Keys;
    ExtractDirEffect(w, d, [h], true);
    var r := ExtractDir(w, d, [h], LostPath(h, []), true);
    if r.Ok? {
      assert Removed(d, Under(d, [h]), true) == Under(d, [h]);
      forall x, i | HasEntry(d, x, i) && EntryAt(d, x, i).ino in d
        ensures x in r.value.files <==> EntryAt(d, x, i).ino in r.value.files
      {
        UnderClosed(d, h, x, i);
      }
    }
  }

  /** The overlay after repair, described by its parts. */
  ghost predicate Healthy(e: Disk) {
    && Forest(e)
    && (forall x :: x in e ==> (e[x].FileData? || e[x].DirData?))
    && (forall r: Ref :: !IsMissing(e, r))
    && (forall x :: x in e ==> !IsOrphanInode(e, x))
  }

  lemma RepairedEdges(d: Disk, order: seq<nat>, x: nat, i: nat)
    requires Listing(d, order) && Forest(d) && HasEntry(d, x, i) && x in Patched(d, order) - Gone(d, order)
    ensures var y := EntryAt(d, x, i).ino; y in Patched(d, order) ==> y in Patched(d, order) - Gone(d, order)
    ensures !IsMissing(Patched(d, order) - Gone(d, order), Ref(x, i))
  {
    hide Forest, Patched;
    var p := Patched(d, order);
    PatchedEdges(d, order);
    OrphanHeads(d, order);
    var y := EntryAt(d, x, i).ino;
    if y in p {
      UnderHeadsClosed(p, OrphanDirs(d, order) + OrphanFiles(d, order), x, i);
    }
    MissingIsPatched(d, order, x, i);
  }

  lemma MissingIsPatched(d: Disk, order: seq<nat>, x: nat, i: nat)
    requires Listing(d, order) && HasEntry(d, x, i)
    ensures var e := EntryAt(d, x, i); e.ino != 0 && e.hash.None? ==> e.ino in Patched(d, order)
  {
    ListedIn(d, order, Ref(x, i));
    if IsMissing(d, Ref(x, i)) {
      assert InoAt(d, Ref(x, i)) in MissingAt(d, Listed(d, order));
    }
  }

  lemma ForestPart(p: Disk, gone: set<nat>)
    requires Forest(p)
    ensures Forest(p - gone)
  {
    var e := p - gone;
    assert forall x, i :: HasEntry(e, x, i) ==> HasEntry(p, x, i) && EntryAt(e, x, i) == EntryAt(p, x, i);
  }

  lemma PatchedNotBroken(d: Disk, order: seq<nat>)
    ensures forall x :: x in Patched(d, order) ==> (Patched(d, order)[x].FileData? || Patched(d, order)[x].DirData?)
  {
    hide StandIn;
    StandInIsEmpty(d);
  }

  /** Whatever stays in the overlay is the root or is still listed by something that stays. */
  lemma RepairedListed(d: Disk, order: seq<nat>, x: nat)
    requires Listing(d, order) && Forest(d) && x in Patched(d, order) - Gone(d, order)
    ensures !IsOrphanInode(Patched(d, order) - Gone(d, order), x)
  {
    hide Forest, Patched, Gone;
    var p, e := Patched(d, order), Patched(d, order) - Gone(d, order);
    if x != ROOT {
      ListedBefore(d, order, x);
      var q, i :| HasEntry(d, q, i) && EntryAt(d, q, i).ino == x;
      PatchedEdges(d, order);
      OrphanHeads(d, order);
      UnderHeadsClosed(p, OrphanDirs(d, order) + OrphanFiles(d, order), q, i);
      assert q in e by { NotGone(d, order, q, x); }
      assert HasEntry(e, q, i) && EntryAt(e, q, i).ino == x;
    }
  }

  lemma NotGone(d: Disk, order: seq<nat>, q: nat, x: nat)
    requires var heads := OrphanDirs(d, order) + OrphanFiles(d, order);
             q in UnderHeads(Patched(d, order), heads) <==> x in UnderHeads(Patched(d, order), heads)
    requires q in Patched(d, order) && x in Patched(d, order) - Gone(d, order)
    ensures q in Patched(d, order) - Gone(d, order)
  {
  }

  lemma ListedBefore(d: Disk, order: seq<nat>, x: nat)
    requires Listing(d, order) && Forest(d) && x in Patched(d, order) - Gone(d, order) && x != ROOT
    ensures !Unreferenced(d, x)
  {
    if x !in d {
      var r :| r in Listed(d, order) && IsMissing(d, r) && InoAt(d, r) == x;
      ListedIn(d, order, r);
    } else if Unreferenced(d, x) {
      UnderSelf(Patched(d, order), [x]);
      OrphanLists(d, order);
    }
  }

  lemma MissingHasEntry(e: Disk, r: Ref)
    requires IsMissing(e, r)
    ensures HasEntry(e, r.dir, r.index)
  {
  }

  lemma RepairedHealthy(d: Disk, order: seq<nat>)
    requires Listing(d, order) && Forest(d)
    ensures Healthy(Patched(d, order) - Gone(d, order))
  {
    hide Forest, Patched, Gone, IsMissing, IsOrphanInode;
    var p, e := Patched(d, order), Patched(d, order) - Gone(d, order);
    PatchedForest(d, order);
    ForestPart(p, Gone(d, order));
    PatchedNotBroken(d, order);
    PatchedEdges(d, order);
    forall r: Ref | IsMissing(e, r)
      ensures false
    {
      MissingHasEntry(e, r);
      assert HasEntry(p, r.dir, r.index);
      assert r == Ref(r.dir, r.index);
      RepairedEdges(d, order, r.dir, r.index);
    }
    forall x | x in e
      ensures !IsOrphanInode(e, x)
    {
      RepairedListed(d, order, x);
    }
  }

  lemma {:induction false} NoNodeErrors(e: Disk, order: seq<nat>, visited: seq<nat>)
    requires Listing(e, order) && Healthy(e) && forall x :: x in visited ==> x in e
    ensures AllNodeErrors(e, order, visited) == []
  {
    if visited == [] {
    } else {
      assert visited == Init(visited) + [Last(visited)];
      NoNodeErrors(e, order, Init(visited));
      AtMostOneParent(e, order, Last(visited));
    }
  }

  /** A healthy overlay with a large enough next inode number gives a scan nothing to report. */
  lemma HealthyScan(s: State, order: seq<nat>, locked: bool)
    requires Listing(s.files, order) && Healthy(s.files) && s.next.Stored? && s.next.n > MaxInode(s.files, order)
    ensures Scan(s, order, locked) == JunkErrors(s.junk)
  {
    NoNodeErrors(s.files, order, order);
    NoMissingErrors(s.files, Listed(s.files, order));
    OrphansAre(s.files, order);
    if Orphans(s.files, order) != [] {
      FirstIn(Orphans(s.files, order));
    }
  }

  lemma {:induction false} NoMissingErrors(e: Disk, refs: seq<Ref>)
    requires forall r: Ref :: !IsMissing(e, r)
    ensures MissingErrors(e, refs) == []
  {
    if refs == [] {
    } else {
      NoMissingErrors(e, Init(refs));
    }
  }

  lemma MentionedBefore(d: Disk, order: seq<nat>, order': seq<nat>, m: nat)
    requires Listing(d, order) && Forest(d)
    ensures var e := Patched(d, order) - Gone(d, order);
            Listing(e, order') && Mentioned(e, order', m) ==> Mentioned(d, order, m)
  {
    hide Forest, Gone, StandIn;
    var e := Patched(d, order) - Gone(d, order);
    if m in order' && m in e {
      if m !in d {
        var r :| r in Listed(d, order) && IsMissing(d, r) && InoAt(d, r) == m;
        ListedIn(d, order, r);
      }
    } else if Mentioned(e, order', m) && m !in order' {
      PatchedEdges(d, order);
      var r: Ref :| r.dir in order' && HasEntry(e, r.dir, r.index) && InoAt(e, r) == m;
      assert HasEntry(Patched(d, order), r.dir, r.index);
    }
  }

  lemma MaxInodeShrinks(d: Disk, order: seq<nat>, order': seq<nat>)
    requires Listing(d, order) && Forest(d) && Listing(Patched(d, order) - Gone(d, order), order')
    ensures MaxInode(Patched(d, order) - Gone(d, order), order') <= MaxInode(d, order)
  {
    hide Forest, Gone, Patched, Mentioned;
    var e := Patched(d, order) - Gone(d, order);
    MaxInodeIsMax(d, order);
    MaxInodeIsMax(e, order');
    if MaxInode(e, order') != 0 {
      MentionedBefore(d, order, order', MaxInode(e, order'));
    }
  }

  lemma NextIsLarge(s: State, order: seq<nat>, next: NextInode)
    requires NextAfter(s, order, next)
    ensures next.Stored? && next.n > MaxInode(s.files, order)
  {
    hide MaxInode, Mentioned;
    MaxInodeIsMax(s.files, order);
    ScanTheorems.NextFreeIsMax(s.files, order, next.n);
  }

  /**
   Repair converges: fix_errors returns normally exactly when CanRepair holds, and then a fresh scan, whatever
   order the directories are listed in and whether or not the lock is held, reports only unexpected files.
   */
  lemma RepairConverges(s: State, order: seq<nat>, order': seq<nat>, locked: bool)
    requires Checkable(s, order)
    requires FixErrors(s, order).Ok? ==> Listing(FixErrors(s, order).value.files, order')
    ensures FixErrors(s, order).Ok? <==> CanRepair(s.files)
    ensures FixErrors(s, order).Ok? ==> Scan(FixErrors(s, order).value, order', locked) == JunkErrors(s.junk)
  {
    hide Forest, CanRepair, Patched, Gone, FixErrors, Healthy;
    FixOutcome(s, order);
    if FixErrors(s, order).Ok? {
      RepairedHealthy(s.files, order);
      MaxInodeShrinks(s.files, order, order');
      NextIsLarge(s, order, FixErrors(s, order).value.next);
      HealthyScan(FixErrors(s, order).value, order', locked);
    }
  }

  // ---------------------------------------------------------------- no file is lost

  lemma {:induction false} PatchedPath(d: Disk, order: seq<nat>, c: seq<nat>)
    requires Listing(d, order) && Forest(d) && Chain(d, c)
    ensures Chain(Patched(d, order), c)
    ensures PathOf(Patched(d, order), c) == PathOf(d, c) && ModeOf(Patched(d, order), c) == ModeOf(d, c)
    decreases |c|
  {
    var p := Patched(d, order);
    PatchedChain(d, order, c);
    PatchedEdges(d, order);
    if |c| > 1 {
      PatchedPath(d, order, Init(c));
      assert LastEntry(p, c) == LastEntry(d, c);
    }
  }

  /** The copy that a file inode has below lost+found, if its type is one that is copied. */
  ghost predicate HasCopy(d: Disk, c: seq<nat>, lost: Lost)
    requires Chain(d, c) && d[Last(c)].FileData?
  {
    match ModeOf(d, c)
    case RegType => Holds(lost, PathOf(d, c), Saved(Regular, d[Last(c)].contents))
    case SymlinkType => Holds(lost, PathOf(d, c), Saved(Symlink, d[Last(c)].contents))
    case _ => true
  }

  /**
   Repair loses nothing: an inode file present before is still there unchanged, or it was unreadable and is kept
   in broken_inodes, or it lay at the end of a chain from an orphan and, if it was a regular file or a symlink,
   its contents are at the path that this chain spells out.
   */
  lemma RepairLosesNothing(s: State, order: seq<nat>, x: nat)
    requires Checkable(s, order) && FixErrors(s, order).Ok? && x in s.files
    ensures var d, s' := s.files, FixErrors(s, order).value;
            || (x in s'.files && s'.files[x] == d[x])
            || (!d[x].FileData? && !d[x].DirData? && x in s'.broken && s'.broken[x] == d[x])
            || (exists c: seq<nat> :: RootedChain(d, c) && c[0] != ROOT && Last(c) == x && (d[x].FileData? ==> HasCopy(d, c, s'.lost)))
  {
    hide Forest, FixErrors, Saves, Holds;
    var d, s' := s.files, FixErrors(s, order).value;
    FixOutcome(s, order);
    if (d[x].FileData? || d[x].DirData?) && x in Gone(d, order) {
      var c := GoneChain(d, order, x);
      if d[x].FileData? {
        CopySaved(d, order, c, s'.lost);
      }
    } else if (d[x].FileData? || d[x].DirData?) {
      PatchedKeeps(d, order, x);
    }
  }

  /** After a repair every inode can be read, and every original that could not be is in broken_inodes. */
  lemma RepairedIsReadable(s: State, order: seq<nat>, x: nat)
    requires Checkable(s, order) && FixErrors(s, order).Ok?
    ensures var d, s' := s.files, FixErrors(s, order).value;
            && (x in s'.files ==> s'.files[x].FileData? || s'.files[x].DirData?)
            && (x in d && !d[x].FileData? && !d[x].DirData? ==> x in s'.broken && s'.broken[x] == d[x])
            && (x in s'.broken ==> x in d && !d[x].FileData? && !d[x].DirData?)
  {
    hide Forest, FixErrors, Gone;
    FixOutcome(s, order);
    PatchedNotBroken(s.files, order);
  }

  /** An orphan file is saved under its own number. */
  lemma OrphanFileIsSaved(s: State, order: seq<nat>, x: nat)
    requires Checkable(s, order) && FixErrors(s, order).Ok?
    requires x in s.files && s.files[x].FileData? && x != ROOT && Unreferenced(s.files, x)
    ensures var s' := FixErrors(s, order).value;
            x !in s'.files && Holds(s'.lost, LostPath(x, []), Saved(Regular, s.files[x].contents))
  {
    hide Forest, FixErrors, Holds, Patched;
    assert RootedChain(s.files, [x]);
    BelowOrphanIsSaved(s, order, [x]);
  }

  /** What lies on a chain from an orphan leaves the overlay, and a file there has its copy. */
  lemma BelowOrphanIsSaved(s: State, order: seq<nat>, c: seq<nat>)
    requires Checkable(s, order) && FixErrors(s, order).Ok? && RootedChain(s.files, c) && c[0] != ROOT
    ensures var d, s' := s.files, FixErrors(s, order).value;
            Last(c) !in s'.files && (d[Last(c)].FileData? ==> HasCopy(d, c, s'.lost))
  {
    hide Forest, FixErrors, Holds, Saves, Patched;
    FixOutcome(s, order);
    ChainIsGone(s.files, order, c);
    if s.files[Last(c)].FileData? {
      CopySaved(s.files, order, c, FixErrors(s, order).value.lost);
    }
  }

  lemma ChainIsGone(d: Disk, order: seq<nat>, c: seq<nat>)
    requires Listing(d, order) && Forest(d) && RootedChain(d, c) && c[0] != ROOT
    ensures Last(c) in Gone(d, order)
  {
    hide Forest, Patched;
    var p := Patched(d, order);
    PatchedChain(d, order, c);
    ChainPrefix(d, c, 1);
    assert c[..1] == [c[0]];
    assert 0 !in d by { ForestHasNoZero(d); }
    OrphanLists(d, order);
    assert c[0] in OrphanDirs(d, order) + OrphanFiles(d, order) && [c[0]] <= c;
    assert Reaches(p, [c[0]], Last(c));
    assert Last(c) in p by { LastIsPresent(p, c); }
  }

  lemma LastIsPresent(d: Disk, c: seq<nat>)
    requires Chain(d, c)
    ensures Last(c) in d
  {
  }

  /**
   A file that an entry below an orphan lists as a symlink: the repair raises if its contents are empty or hold a null
   byte, and otherwise, if it does not raise, saves it as a symlink with those contents.
   */
  lemma SymlinkBelowOrphan(s: State, order: seq<nat>, c: seq<nat>, i: nat)
    requires Checkable(s, order) && RootedChain(s.files, c) && c[0] != ROOT && HasEntry(s.files, Last(c), i)
    requires var e := EntryAt(s.files, Last(c), i); e.mode.SymlinkType? && e.ino in s.files && s.files[e.ino].FileData?
    ensures var e := EntryAt(s.files, Last(c), i);
            var contents := s.files[e.ino].contents;
            && (contents == [] || 0 in contents ==> FixErrors(s, order) == Raised)
            && (FixErrors(s, order).Ok? ==>
                  Holds(FixErrors(s, order).value.lost, Join(PathOf(s.files, c), e.name), Saved(Symlink, contents)))
  {
    hide Forest, FixErrors, Holds, PathOf;
    var d, e := s.files, EntryAt(s.files, Last(c), i);
    if d[e.ino].contents == [] || 0 in d[e.ino].contents {
      InextractableRaises(s, order, c, i);
    }
    if FixErrors(s, order).Ok? {
      PathOfChild(d, c, i);
      BelowOrphanIsSaved(s, order, c + [e.ino]);
    }
  }

  lemma PatchedKeeps(d: Disk, order: seq<nat>, x: nat)
    requires x in d && (d[x].FileData? || d[x].DirData?)
    ensures x in Patched(d, order) && Patched(d, order)[x] == d[x]
  {
  }

  lemma GoneChain(d: Disk, order: seq<nat>, x: nat) returns (c: seq<nat>)
    requires Listing(d, order) && Forest(d) && x in d && x in Gone(d, order)
    ensures RootedChain(d, c) && c[0] != ROOT && Last(c) == x
  {
    var p := Patched(d, order);
    OrphanLists(d, order);
    var h :| h in OrphanDirs(d, order) + OrphanFiles(d, order) && x in Under(p, [h]);
    c :| Chain(p, c) && [h] <= c && Last(c) == x;
    PatchedChain(d, order, c);
  }

  lemma CopySaved(d: Disk, order: seq<nat>, c: seq<nat>, lost: Lost)
    requires Listing(d, order) && Forest(d) && RootedChain(d, c) && d[Last(c)].FileData? && Last(c) in Gone(d, order)
    requires forall q, v :: Holds(lost, q, v) <==> Saves(Patched(d, order), Gone(d, order), q, v)
    ensures HasCopy(d, c, lost)
  {
    hide Forest, Holds, Patched, Gone;
    var p := Patched(d, order);
    PatchedPath(d, order, c);
    PatchedForest(d, order);
    PatchedKeeps(d, order, Last(c));
    match ModeOf(d, c)
    case RegType =>
      assert SavesVia(p, Gone(d, order), c, PathOf(d, c), Saved(Regular, d[Last(c)].contents));
    case SymlinkType =>
      assert SavesVia(p, Gone(d, order), c, PathOf(d, c), Saved(Symlink, d[Last(c)].contents));
    case _ =>
  }

  // ---------------------------------------------------------------- overlays that cannot be repaired

  /** An orphaned unparseable directory is rewritten as a directory, then extracted as a file, which raises. */
  lemma UnparseableOrphanRaises()
    ensures var s := State(map[ROOT := DirData([]), 5 := BadDir([7])], Absent, [], map[], map[]);
            Checkable(s, [ROOT, 5]) && FixErrors(s, [ROOT, 5]) == Raised
  {
    hide FixErrors;
    var s := State(map[ROOT := DirData([]), 5 := BadDir([7])], Absent, [], map[], map[]);
    assert IsOrphanInode(s.files, 5);
    FixOutcome(s, [ROOT, 5]);
  }

  lemma InextractableRaises(s: State, order: seq<nat>, c: seq<nat>, i: nat)
    requires Checkable(s, order) && RootedChain(s.files, c) && c[0] != ROOT
    requires HasEntry(s.files, Last(c), i) && !Extractable(s.files, EntryAt(s.files, Last(c), i))
    ensures FixErrors(s, order) == Raised
  {
    hide FixErrors, Forest, Extractable;
    FixOutcome(s, order);
  }

  /** An orphaned directory with a missing symlink: its stand-in is empty, and no symlink can be empty. */
  lemma MissingSymlinkBelowOrphanRaises()
    ensures var link := Entry(6, "link", SymlinkType, None);
            var s := State(map[5 := DirData([link])], Absent, [], map[], map[]);
            Checkable(s, [5]) && FixErrors(s, [5]) == Raised
  {
    hide FixErrors, CanRepair;
    var link := Entry(6, "link", SymlinkType, None);
    var s := State(map[5 := DirData([link])], Absent, [], map[], map[]);
    assert forall p, i :: HasEntry(s.files, p, i) ==> p == 5 && i == 0;
    InextractableRaises(s, [5], [5], 0);
  }

  /**
   Where only such errors are found a repair changes nothing, so the next scan finds them again; and it raises
   exactly if one of the parents in a description leads into a cycle.
   */
  lemma HardLinksStay(s: State, order: seq<nat>)
    requires Listing(s.files, order)
    requires forall e :: e in Scan(s, order, true) ==> e.UnexpectedOverlayFile? || e.HardLinkedInode?
    ensures FixErrors(s, order) == if AllDescribable(s.files, order, Scan(s, order, true)) then Ok(s) else Raised
  {
    hide Scan, AllDescribable;
    FixAllIs(s.files, order, Scan(s, order, true), s);
    RepairJunk(Scan(s, order, true), s);
  }

  /** Two names of one inode in the root directory can be described, and stay. */
  lemma RootLinksStay(s: State, order: seq<nat>)
    requires Listing(s.files, order)
    requires forall e :: e in Scan(s, order, true) ==> e.HardLinkedInode?
    requires forall p, i :: HasEntry(s.files, p, i) ==> p == ROOT
    ensures FixErrors(s, order) == Ok(s)
  {
    hide Scan, Parents, FixAll;
    HardLinksStay(s, order);
    forall x, r | r in Parents(s.files, order, x)
      ensures r.dir == ROOT
    {
      ParentsIn(s.files, order, x, r);
    }
  }

  function DetachedCycle(): Disk {
    map[ROOT := DirData([]), 2 := DirData([Entry(3, "a", DirType, None)]), 3 := DirData([Entry(2, "b", DirType, None)])]
  }

  lemma DetachedCycleIsHealthy()
    ensures Healthy(DetachedCycle())
  {
    var d := DetachedCycle();
    assert HasEntry(d, 2, 0) && HasEntry(d, 3, 0);
    assert forall p, i :: HasEntry(d, p, i) ==> (p == 2 || p == 3) && i == 0;
  }

  /** A scan does not see a cycle of directories that is cut off from the root. */
  lemma DetachedCycleIsNotReported(locked: bool)
    ensures Scan(State(DetachedCycle(), Stored(4), [], map[], map[]), [ROOT, 2, 3], locked) == []
  {
    hide Scan, MaxInode, Healthy;
    DetachedCycleIsHealthy();
    MaxInodeIsMax(DetachedCycle(), [ROOT, 2, 3]);
    HealthyScan(State(DetachedCycle(), Stored(4), [], map[], map[]), [ROOT, 2, 3], locked);
  }

  /** A detached cycle with a child missing from it. */
  function FaultyCycle(): Disk {
    map[ROOT := DirData([]), 2 := DirData([Entry(3, "a", DirType, None)]),
        3 := DirData([Entry(2, "b", DirType, None), Entry(4, "f", RegType, None)])]
  }

  lemma {:induction false} FaultyCycleIsNotAnchored(c: seq<nat>)
    requires c != [] && (Last(c) == 2 || Last(c) == 3)
    ensures !RootedChain(FaultyCycle(), c)
    decreases |c|
  {
    var d := FaultyCycle();
    assert HasEntry(d, 2, 0) && HasEntry(d, 3, 0);
    if |c| == 1 {
    } else if IsChild(d, Last(Init(c)), Last(c)) {
      FaultyCycleIsNotAnchored(Init(c));
    }
  }

  lemma FaultyCycleIsForest()
    ensures Listing(FaultyCycle(), [ROOT, 2, 3]) && Forest(FaultyCycle()) && Unreferenced(FaultyCycle(), ROOT)
  {
    var d, order := FaultyCycle(), [ROOT, 2, 3];
    assert Listing(d, order) by {
      assert order[0] == ROOT && order[1] == 2 && order[2] == 3;
    }
    forall p: nat, i: nat | HasEntry(d, p, i)
      ensures EntryAt(d, p, i) == if p == 2 then Entry(3, "a", DirType, None) else
                if i == 0 then Entry(2, "b", DirType, None) else Entry(4, "f", RegType, None)
      ensures (p == 2 && i == 0) || (p == 3 && i <= 1)
    {
    }
    hide HasEntry, EntryAt, FaultyCycle;
    assert "b"[0] != "f"[0];
  }

  /** It has no orphan, so nothing else stands in the way of a repair. */
  lemma FaultyCycleHasNoOrphan()
    ensures OrphansCanMove(FaultyCycle())
  {
    var d := FaultyCycle();
    assert HasEntry(d, 2, 0) && HasEntry(d, 3, 0);
    forall c: seq<nat> | c != [] && (Last(c) == 2 || Last(c) == 3)
      ensures !RootedChain(d, c)
    {
      FaultyCycleIsNotAnchored(c);
    }
  }

  /** The missing child is found, but its path has no end, so it cannot be described and nothing is repaired. */
  lemma FaultyCycleRaises()
    ensures var s := State(FaultyCycle(), Absent, [], map[], map[]);
            Checkable(s, [ROOT, 2, 3]) && OrphansCanMove(s.files) && FixErrors(s, [ROOT, 2, 3]) == Raised
  {
    hide FixErrors, FaultsAnchored, OrphansCanMove, Forest, Listing;
    FaultyCycleIsForest();
    FaultyCycleHasNoOrphan();
    forall c: seq<nat> | c != [] && Last(c) == 3
      ensures !RootedChain(FaultyCycle(), c)
    {
      FaultyCycleIsNotAnchored(c);
    }
    NotAnchoredRaises(State(FaultyCycle(), Absent, [], map[], map[]), [ROOT, 2, 3], 3, 1);
  }

  lemma NotAnchoredRaises(s: State, order: seq<nat>, p: nat, i: nat)
    requires Checkable(s, order) && HasEntry(s.files, p, i) && IsMissing(s.files, Ref(p, i)) && !Anchored(s.files, p)
    ensures FixErrors(s, order) == Raised
  {
    hide FixErrors, Forest, OrphansCanMove, Anchored;
    FixOutcome(s, order);
  }

  /** A directory that lists itself and is listed by the root as well. */
  function SelfListed(): Disk {
    map[256 := DirData([Entry(256, "b", DirType, None)]), ROOT := DirData([Entry(256, "a", DirType, None)])]
  }

  lemma {:induction false} SelfListedClimbs(n: nat)
    ensures !ClimbEndsIn(SelfListed(), [256, ROOT], 256, n)
  {
    var d := SelfListed();
    assert Listed(d, [256, ROOT]) == [Ref(256, 0), Ref(ROOT, 0)] by {
      assert Init([256, ROOT]) == [256] && Init([256]) == [];
      assert Row(d, 256) == [Ref(256, 0)] && Row(d, ROOT) == [Ref(ROOT, 0)];
    }
    assert FirstParent(d, [256, ROOT], 256) == Some(Ref(256, 0)) by {
      var refs := [Ref(256, 0), Ref(ROOT, 0)];
      assert Init(refs) == [Ref(256, 0)] && Init([Ref(256, 0)]) == [];
      assert Lists(d, 256)(Ref(256, 0)) && Lists(d, 256)(Ref(ROOT, 0));
      assert Filter(Lists(d, 256), [Ref(256, 0)]) == [Ref(256, 0)];
    }
    if n == 0 {
    } else {
      SelfListedClimbs(n - 1);
    }
  }

  /** It is reported as hard-linked, and describing it never ends if it is scanned before the root. */
  lemma SelfListedRaises(s: State)
    requires s.files == SelfListed()
    ensures Listing(s.files, [256, ROOT]) && FixErrors(s, [256, ROOT]) == Raised
  {
    var order, e := [256, ROOT], HardLinkedInode(256);
    hide Scan, Parents, FixAll;
    var d := s.files;
    assert order[0] == 256 && order[1] == ROOT;
    assert ScanTheorems.RefTo(d, Ref(256, 0), 256) && ScanTheorems.RefTo(d, Ref(ROOT, 0), 256);
    ScanTheorems.ScanIsExact(s, order, true, e);
    forall n: nat
      ensures !ClimbEndsIn(d, order, 256, n)
    {
      SelfListedClimbs(n);
    }
    ParentsIn(d, order, 256, Ref(256, 0));
    assert !Describable(d, order, e);
    FixAllIs(d, order, Scan(s, order, true), s);
  }

  // ---------------------------------------------------------------- the orphan repair in its place

  predicate NoOrphanErrors(es: seq<Error>) {
    forall i :: 0 <= i < |es| ==> !es[i].OrphanInodes?
  }

  lemma {:induction false} MissingAreNotOrphans(d: Disk, refs: seq<Ref>)
    ensures NoOrphanErrors(MissingErrors(d, refs))
  {
    if refs == [] {
    } else {
      MissingAreNotOrphans(d, Init(refs));
    }
  }

  lemma {:induction false} NodesAreNotOrphans(d: Disk, order: seq<nat>, visited: seq<nat>)
    requires forall x :: x in visited ==> x in d
    ensures NoOrphanErrors(AllNodeErrors(d, order, visited))
  {
    if visited == [] {
    } else {
      assert visited == Init(visited) + [Last(visited)];
      NodesAreNotOrphans(d, order, Init(visited));
    }
  }

  /** The errors that come before the orphans in the list. */
  function FirstErrors(s: State, order: seq<nat>): seq<Error>
    requires forall x :: x in order ==> x in s.files
  {
    JunkErrors(s.junk) + (MissingErrors(s.files, Listed(s.files, order)) + AllNodeErrors(s.files, order, order))
  }

  /**
   Describing and repairing the missing and the unreadable inodes: each gets its stand-in, and each unreadable original
   is kept, exactly if all of them are anchored.
   */
  lemma PatchOutcome(s: State, order: seq<nat>)
    requires Checkable(s, order)
    ensures FixAll(s.files, order, FirstErrors(s, order), s) ==
            if FaultsAnchored(s.files) then Ok(AfterPatching(s, order)) else Raised
  {
    hide Forest, RepairAll, Patched, Listed, MissingErrors, AllNodeErrors, JunkErrors, Originals, FixAll, AllDescribable, FaultsAnchored, Scan;
    var d := s.files;
    var patch := MissingErrors(d, Listed(d, order)) + AllNodeErrors(d, order, order);
    RepairJunk(JunkErrors(s.junk), s) by { OnlyJunk(s.junk); }
    PatchStage(d, order, s);
    RepairAllConcat(JunkErrors(s.junk), patch, s);
    assert s.broken + Originals(d, Broken(d)) == Originals(d, Broken(d));
    FixAllIs(d, order, FirstErrors(s, order), s);
    ScanDescribable(s, order);
    LaterAreDescribable(s, order);
  }

  lemma OnlyJunk(junk: seq<string>)
    ensures forall e :: e in JunkErrors(junk) ==> e.UnexpectedOverlayFile?
  {
  }

  /** When a repair run comes to the orphans, these errors are behind it and the orphans still head trees of a forest. */
  lemma OrphansAtTheirTurn(s: State, order: seq<nat>, k: nat)
    requires Checkable(s, order) && k < |Scan(s, order, true)| && Scan(s, order, true)[k].OrphanInodes?
    ensures FixAll(s.files, order, Scan(s, order, true)[..k], s) ==
            if FaultsAnchored(s.files) then Ok(AfterPatching(s, order)) else Raised
    ensures Heads(AfterPatching(s, order).files, Scan(s, order, true)[k].directories)
  {
    hide Forest, Patched, Listed, MissingErrors, AllNodeErrors, Orphans, MaxInode, Originals, FixAll, FaultsAnchored;
    var d := s.files;
    MissingAreNotOrphans(d, Listed(d, order));
    NodesAreNotOrphans(d, order, order);
    assert NoOrphanErrors(FirstErrors(s, order));
    assert Scan(s, order, true)[..k] == FirstErrors(s, order);
    PatchOutcome(s, order);
    OrphanHeads(d, order);
    HeadsConcat(Patched(d, order), OrphanDirs(d, order), OrphanFiles(d, order));
  }

  /** The errors after the missing and unreadable inodes have no path in their text. */
  lemma LaterAreDescribable(s: State, order: seq<nat>)
    requires Listing(s.files, order)
    ensures AllDescribable(s.files, order, Scan(s, order, true)) <==> AllDescribable(s.files, order, FirstErrors(s, order))
  {
    hide JunkErrors, Listed, MissingErrors, AllNodeErrors, OrphanDirs, OrphanFiles, Orphans, MaxInode, ClimbEnds, EntryPathEnds;
    var later := OrphanErrors(s.files, order) + NextErrors(s.next, true, MaxInode(s.files, order) + 1);
    assert Scan(s, order, true) == FirstErrors(s, order) + later;
    assert forall e :: e in later ==> Describable(s.files, order, e);
  }
}
