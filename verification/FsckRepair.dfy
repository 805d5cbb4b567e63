/** The repairs, and what a whole list of them does to the overlay and the fsck directory. */
module FsckRepair {
  import opened Common
  import opened OverlayGraph
  import opened OverlayExtract
  import opened Fsck

  function EmptyFor(isDir: bool): OverlayFile {
    if isDir then DirData([]) else FileData([])
  }

  /** Inodes that extraction can start from: present, and listed by nothing. */
  ghost predicate Heads(d: Disk, heads: seq<nat>) {
    Forest(d) && NoDup(heads) && forall h :: h in heads ==> h in d && Unreferenced(d, h)
  }

  ghost function ExtractOrphanDirs(w: Store, d: Disk, dirs: seq<nat>): (r: Outcome<Store>)
    requires Heads(d, dirs) && SubDisk(w.files, d)
    ensures r.Ok? ==> SubDisk(r.value.files, w.files)
  {
    if dirs == [] then Ok(w)
    else
      var r := ExtractOrphanDirs(w, d, Init(dirs));
      assert Last(dirs) in dirs;
      if r.Raised? then Raised else ExtractDir(r.value, d, [Last(dirs)], LostPath(Last(dirs), []), true)
  }

  function ExtractOrphanFiles(w: Store, files: seq<nat>): (r: Outcome<Store>) {
    if files == [] then Ok(w)
    else
      var r := ExtractOrphanFiles(w, Init(files));
      if r.Raised? then Raised else ExtractFile(r.value, Last(files), LostPath(Last(files), []), RegType)
  }

  /** Repairing orphans; where an inode has several parents extraction need not return, and then Raised says nothing. */
  ghost function ExtractOrphans(w: Store, dirs: seq<nat>, files: seq<nat>): Outcome<Store> {
    if !Heads(w.files, dirs) then Raised
    else
      var r := ExtractOrphanDirs(w, w.files, dirs);
      if r.Raised? then Raised else ExtractOrphanFiles(r.value, files)
  }

  ghost function Repair(e: Error, s: State): Outcome<State> {
    match e
    case MissingMaterializedInode(_, child) =>
      Ok(s.(files := s.files[child.ino := EmptyFor(child.mode.DirType?)]))
    case InvalidMaterializedInode(ino, expected) =>
      if ino !in s.files then Raised
      else Ok(s.(files := s.files[ino := EmptyFor(expected == Some(DirInode))], broken := s.broken[ino := s.files[ino]]))
    case OrphanInodes(dirs, files) =>
      var r := ExtractOrphans(Store(s.files, s.lost), dirs, files);
      if r.Raised? then Raised else Ok(s.(files := r.value.files, lost := r.value.lost))
    case MissingNextInodeNumber(next) => Ok(s.(next := Stored(next)))
    case BadNextInodeNumber(_, next) => Ok(s.(next := Stored(next)))
    case CorruptNextInodeNumber(next) => Ok(s.(next := Stored(next)))
    case UnexpectedOverlayFile(_) => Ok(s)
    case HardLinkedInode(_) => Ok(s)
  }

  ghost function RepairAll(es: seq<Error>, s: State): Outcome<State> {
    if es == [] then Ok(s)
    else
      var r := RepairAll(Init(es), s);
      if r.Raised? then Raised else Repair(Last(es), r.value)
  }

  lemma {:induction false} RepairAllConcat(a: seq<Error>, b: seq<Error>, s: State)
    ensures RepairAll(a + b, s) ==
            var r := RepairAll(a, s); if r.Raised? then Raised else RepairAll(b, r.value)
    decreases |b|
  {
    if b == [] {
      assert a + b == a;
    } else {
      RepairAllConcat(a, Init(b), s);
      assert Init(a + b) == a + Init(b) && Last(a + b) == Last(b);
    }
  }

  // ---------------------------------------------------------------- describing and repairing

  /**
   _fix_error: the error is described for the log before it is repaired, by the parent links of the overlay that was
   scanned. A description that would never end raises.
   */
  ghost function FixOne(scanned: Disk, order: seq<nat>, e: Error, s: State): Outcome<State> {
    if Describable(scanned, order, e) then Repair(e, s) else Raised
  }

  ghost function FixAll(scanned: Disk, order: seq<nat>, es: seq<Error>, s: State): Outcome<State> {
    if es == [] then Ok(s)
    else
      var r := FixAll(scanned, order, Init(es), s);
      if r.Raised? then Raised else FixOne(scanned, order, Last(es), r.value)
  }

  ghost predicate AllDescribable(d: Disk, order: seq<nat>, es: seq<Error>) {
    forall e :: e in es ==> Describable(d, order, e)
  }

  /** One error that cannot be described is enough for the whole list to raise. */
  lemma {:induction false} FixAllIs(d: Disk, order: seq<nat>, es: seq<Error>, s: State)
    ensures FixAll(d, order, es, s) == if AllDescribable(d, order, es) then RepairAll(es, s) else Raised
  {
    hide Describable, Repair;
    if es == [] {
    } else {
      assert es == Init(es) + [Last(es)];
      FixAllIs(d, order, Init(es), s);
    }
  }

  // ---------------------------------------------------------------- missing and invalid inodes

  ghost function RefMode(d: Disk, x: nat): FileType
    requires !Unreferenced(d, x)
  {
    var p: nat, i: nat :| HasEntry(d, p, i) && EntryAt(d, p, i).ino == x;
    EntryAt(d, p, i).mode
  }

  /** The empty file or directory that stands in for an inode with no readable data. */
  ghost function StandIn(d: Disk, x: nat): OverlayFile {
    EmptyFor(if Unreferenced(d, x) then x in d && d[x].BadDir? else RefMode(d, x).DirType?)
  }

  /** The inodes that the given entries lack. */
  ghost function MissingAt(d: Disk, refs: seq<Ref>): set<nat> {
    set r | r in refs && IsMissing(d, r) :: InoAt(d, r)
  }

  ghost function Broken(d: Disk): set<nat> {
    set x | x in d && !d[x].FileData? && !d[x].DirData?
  }

  ghost function StandIns(d: Disk, s: set<nat>): Disk {
    map x | x in s :: StandIn(d, x)
  }

  ghost function Originals(d: Disk, s: set<nat>): Disk {
    map x | x in s && x in d :: d[x]
  }

  /** The overlay once every missing and every unreadable inode has its stand-in. */
  ghost function Patched(d: Disk, order: seq<nat>): Disk {
    d + StandIns(d, MissingAt(d, Listed(d, order)) + Broken(d))
  }

  lemma RefModeUnique(d: Disk, p: nat, i: nat)
    requires UniqueRefs(d) && HasEntry(d, p, i) && EntryAt(d, p, i).ino != 0
    ensures !Unreferenced(d, EntryAt(d, p, i).ino)
    ensures RefMode(d, EntryAt(d, p, i).ino) == EntryAt(d, p, i).mode
  {
  }

  // ---------------------------------------------------------------- what the scan lists

  lemma NoParents(d: Disk, order: seq<nat>, x: nat)
    requires Listing(d, order) && x != 0
    ensures Parents(d, order, x) == [] <==> Unreferenced(d, x)
  {
    if Parents(d, order, x) == [] {
      forall p: nat, i: nat | HasEntry(d, p, i)
        ensures EntryAt(d, p, i).ino != x
      {
        ParentsIn(d, order, x, Ref(p, i));
      }
    } else {
      ParentsIn(d, order, x, Parents(d, order, x)[0]);
    }
  }

  /** With unique references nothing is hard-linked. */
  lemma AtMostOneParent(d: Disk, order: seq<nat>, x: nat)
    requires Listing(d, order) && UniqueRefs(d) && x != 0
    ensures |Parents(d, order, x)| <= 1
  {
    var ps := Parents(d, order, x);
    ListedNoDup(d, order);
    FilterNoDup(Lists(d, x), Listed(d, order));
    if |ps| > 1 {
      ParentsIn(d, order, x, ps[0]);
      ParentsIn(d, order, x, ps[1]);
      SameRef(d, ps[0], ps[1]);
    }
  }

  lemma SameRef(d: Disk, r1: Ref, r2: Ref)
    requires UniqueRefs(d) && HasEntry(d, r1.dir, r1.index) && HasEntry(d, r2.dir, r2.index)
    requires InoAt(d, r1) == InoAt(d, r2) != 0
    ensures r1 == r2
  {
  }

  lemma ExpectedStandIn(d: Disk, order: seq<nat>, x: nat)
    requires Listing(d, order) && UniqueRefs(d) && x in d && x != 0
    ensures !d[x].FileData? && !d[x].DirData? ==> StandIn(d, x) == EmptyFor(ExpectedType(d, order, x) == Some(DirInode))
  {
    NoParents(d, order, x);
    var ps := Parents(d, order, x);
    if ps != [] {
      ParentsIn(d, order, x, ps[0]);
      RefModeUnique(d, ps[0].dir, ps[0].index);
    }
  }

  ghost predicate IsOrphanInode(d: Disk, h: nat) {
    h in d && h != ROOT && Unreferenced(d, h)
  }

  lemma OrphansAre(d: Disk, order: seq<nat>)
    requires Listing(d, order) && 0 !in d
    ensures NoDup(Orphans(d, order)) && forall h :: h in Orphans(d, order) <==> IsOrphanInode(d, h)
  {
    FilterNoDup(IsOrphan(d, order), order);
    forall h: nat | h in d
      ensures IsOrphan(d, order)(h) <==> IsOrphanInode(d, h)
    {
      NoParents(d, order, h);
    }
    forall h: nat
      ensures h in Orphans(d, order) <==> h in order && IsOrphan(d, order)(h)
    {
      FilterIn(IsOrphan(d, order), order, h);
    }
  }

  lemma OrphanLists(d: Disk, order: seq<nat>)
    requires Listing(d, order) && 0 !in d
    ensures var dirs, files := OrphanDirs(d, order), OrphanFiles(d, order);
            && NoDup(dirs + files)
            && (forall h :: h in dirs <==> IsOrphanInode(d, h) && d[h].DirData?)
            && (forall h :: h in files <==> IsOrphanInode(d, h) && !d[h].DirData?)
            && (forall h :: h in dirs + files <==> IsOrphanInode(d, h))
            && (Orphans(d, order) == [] ==> dirs + files == [])
  {
    hide Orphans;
    OrphansAre(d, order);
    FilterNoDup(OfDirType(d, true), Orphans(d, order));
    FilterNoDup(OfDirType(d, false), Orphans(d, order));
    forall h: nat
      ensures h in OrphanDirs(d, order) <==> IsOrphanInode(d, h) && d[h].DirData?
      ensures h in OrphanFiles(d, order) <==> IsOrphanInode(d, h) && !d[h].DirData?
    {
      FilterIn(OfDirType(d, true), Orphans(d, order), h);
      FilterIn(OfDirType(d, false), Orphans(d, order), h);
    }
    NoDupConcat(OrphanDirs(d, order), OrphanFiles(d, order));
  }

  // ---------------------------------------------------------------- repairing missing and invalid inodes

  lemma {:induction false} MissingStage(d: Disk, refs: seq<Ref>, s: State)
    requires UniqueRefs(d)
    ensures RepairAll(MissingErrors(d, refs), s) == Ok(s.(files := s.files + StandIns(d, MissingAt(d, refs))))
  {
    hide StandIn;
    if refs == [] {
      assert s.files + StandIns(d, MissingAt(d, refs)) == s.files;
    } else {
      var r, rest := Last(refs), Init(refs);
      assert refs == rest + [r];
      MissingStage(d, rest, s);
      if IsMissing(d, r) {
        StandInForRef(d, r.dir, r.index);
        assert MissingAt(d, refs) == MissingAt(d, rest) + {InoAt(d, r)};
        AddStandIn(d, s.files, MissingAt(d, rest), InoAt(d, r));
        RepairAllConcat(MissingErrors(d, rest), [MissingMaterializedInode(r.dir, EntryAt(d, r.dir, r.index))], s);
        RepairOne(MissingMaterializedInode(r.dir, EntryAt(d, r.dir, r.index)), s.(files := s.files + StandIns(d, MissingAt(d, rest))));
      } else {
        assert MissingAt(d, refs) == MissingAt(d, rest);
        assert MissingErrors(d, refs) == MissingErrors(d, rest);
      }
    }
  }

  lemma RepairOne(e: Error, s: State)
    ensures RepairAll([e], s) == Repair(e, s)
  {
    assert Init([e]) == [];
  }

  lemma StandInForRef(d: Disk, p: nat, i: nat)
    requires UniqueRefs(d) && HasEntry(d, p, i) && EntryAt(d, p, i).ino != 0
    ensures StandIn(d, EntryAt(d, p, i).ino) == EmptyFor(EntryAt(d, p, i).mode.DirType?)
  {
    RefModeUnique(d, p, i);
  }

  lemma AddStandIn(d: Disk, files: Disk, s: set<nat>, x: nat)
    ensures files + StandIns(d, s + {x}) == (files + StandIns(d, s))[x := StandIn(d, x)]
  {
  }

  lemma AddOriginal(d: Disk, broken: Disk, s: set<nat>, x: nat)
    requires x in d
    ensures broken + Originals(d, s + {x}) == (broken + Originals(d, s))[x := d[x]]
  {
  }

  lemma StandInsUnion(d: Disk, s1: set<nat>, s2: set<nat>)
    ensures d + StandIns(d, s1) + StandIns(d, s2) == d + StandIns(d, s1 + s2)
  {
  }

  ghost function BrokenAt(d: Disk, visited: seq<nat>): set<nat> {
    set x | x in visited && x in d && !d[x].FileData? && !d[x].DirData?
  }

  lemma NodeStep(d: Disk, order: seq<nat>, x: nat, s: State)
    requires Listing(d, order) && Forest(d) && x in d && x in s.files
    ensures RepairAll(NodeErrors(d, order, x), s) ==
            Ok(if !d[x].FileData? && !d[x].DirData? then s.(files := s.files[x := StandIn(d, x)], broken := s.broken[x := s.files[x]]) else s)
  {
    hide StandIn, UniqueRefs, Parents;
    AtMostOneParent(d, order, x);
    if !d[x].FileData? && !d[x].DirData? {
      ExpectedStandIn(d, order, x);
      var e := InvalidMaterializedInode(x, ExpectedType(d, order, x));
      assert NodeErrors(d, order, x) == [e];
      RepairOne(e, s);
    }
  }

  lemma {:induction false} NodeStage(d: Disk, order: seq<nat>, visited: seq<nat>, s: State)
    requires Listing(d, order) && Forest(d) && SubDisk(d, s.files)
    requires NoDup(visited) && forall x :: x in visited ==> x in d
    ensures RepairAll(AllNodeErrors(d, order, visited), s) ==
            Ok(s.(files := s.files + StandIns(d, BrokenAt(d, visited)),
                  broken := s.broken + Originals(d, BrokenAt(d, visited))))
  {
    hide StandIn, Forest, NodeErrors;
    if visited == [] {
      assert s.files + StandIns(d, BrokenAt(d, visited)) == s.files;
      assert s.broken + Originals(d, BrokenAt(d, visited)) == s.broken;
    } else {
      var x, rest := Last(visited), Init(visited);
      assert visited == rest + [x];
      assert x !in rest;
      NodeStage(d, order, rest, s);
      var b := BrokenAt(d, rest);
      var s1 := s.(files := s.files + StandIns(d, b), broken := s.broken + Originals(d, b));
      RepairAllConcat(AllNodeErrors(d, order, rest), NodeErrors(d, order, x), s);
      NodeStep(d, order, x, s1);
      if !d[x].FileData? && !d[x].DirData? {
        assert BrokenAt(d, visited) == b + {x};
        AddStandIn(d, s.files, b, x);
        AddOriginal(d, s.broken, b, x);
      } else {
        assert BrokenAt(d, visited) == b;
      }
    }
  }

  lemma PatchedMissingKeeps(d: Disk, refs: seq<Ref>)
    ensures SubDisk(d, d + StandIns(d, MissingAt(d, refs)))
  {
    hide StandIn;
  }

  /** The first two kinds of repair together turn the overlay into its patched form. */
  lemma PatchStage(d: Disk, order: seq<nat>, s: State)
    requires Listing(d, order) && Forest(d) && s.files == d
    ensures RepairAll(MissingErrors(d, Listed(d, order)) + AllNodeErrors(d, order, order), s) ==
            Ok(s.(files := Patched(d, order), broken := s.broken + Originals(d, Broken(d))))
  {
    hide StandIn, UniqueRefs, StandIns, Originals, MissingAt, RepairAll;
    var refs := Listed(d, order);
    MissingStage(d, refs, s);
    PatchedMissingKeeps(d, refs);
    NodeStage(d, order, order, s.(files := d + StandIns(d, MissingAt(d, refs))));
    RepairAllConcat(MissingErrors(d, refs), AllNodeErrors(d, order, order), s);
    assert BrokenAt(d, order) == Broken(d);
    StandInsUnion(d, MissingAt(d, refs), Broken(d));
  }
}
