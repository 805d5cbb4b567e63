/** The overlay and the checker as objects that change step by step, proved against the scan and repair functions. */
module FsckChecker {
  import opened Common
  import opened OverlayGraph
  import OverlayExtract
  import opened Fsck
  import FsckRepair
  import FsckTheorems
  import ScanTheorems

  /** The directory that a repair run saves things in. */
  class FsckDir {
    var lost: OverlayExtract.Lost
    var broken: map<nat, OverlayFile>

    constructor ()
      ensures lost == map[] && broken == map[]
    {
      lost, broken := map[], map[];
    }
  }

  class Overlay {
    var files: Disk
    var next: NextInode
    var junk: seq<string>

    ghost function Store(dir: FsckDir): OverlayExtract.Store
      reads this, dir
    {
      OverlayExtract.Store(files, dir.lost)
    }

    method WriteEmptyFile(ino: nat)
      modifies this`files
      ensures files == old(files)[ino := FsckRepair.EmptyFor(false)]
    {
      files := files[ino := FileData([])];
    }

    method WriteEmptyDir(ino: nat)
      modifies this`files
      ensures files == old(files)[ino := FsckRepair.EmptyFor(true)]
    {
      files := files[ino := DirData([])];
    }

    method WriteNextInodeNumber(n: nat)
      modifies this`next
      ensures next == Stored(n)
    {
      next := Stored(n);
    }

    /** ok is false when extract_file raises. */
    method ExtractFile(ino: nat, p: OverlayExtract.LostPath, mode: FileType, dir: FsckDir) returns (ok: bool)
      modifies this`files, dir`lost
      ensures var r := old(OverlayExtract.ExtractFile(Store(dir), ino, p, mode));
              (ok <==> r.Ok?) && (ok ==> Store(dir) == r.value) && (!ok ==> Store(dir) == old(Store(dir)))
    {
      if ino !in files || !files[ino].FileData? {
        return false;
      }
      var contents := files[ino].contents;
      if OverlayExtract.BelowSavedFile(dir.lost, p) {
        return false;
      }
      match mode {
        case SymlinkType =>
          if !OverlayExtract.LinkTarget(contents) || p in dir.lost {
            return false;
          }
          dir.lost := dir.lost[p := OverlayExtract.Saved(OverlayExtract.Symlink, contents)];
        case RegType =>
          dir.lost := dir.lost[p := OverlayExtract.Saved(OverlayExtract.Regular, contents)];
        case _ =>
      }
      files := files - {ino};
      return true;
    }

    /** Terminates because each inode has one parent entry at most and path starts at an inode nothing lists. */
    method ExtractDir(ino: nat, out: OverlayExtract.LostPath, remove: bool, dir: FsckDir, ghost d: Disk, ghost path: seq<nat>)
      returns (ok: bool)
      requires OverlayExtract.Extracting(Store(dir), d, path) && Last(path) == ino
      modifies this`files, dir`lost
      ensures var r := old(OverlayExtract.ExtractDir(Store(dir), d, path, out, remove));
              (ok <==> r.Ok?) && (ok ==> Store(dir) == r.value)
      decreases OverlayExtract.NotYetOn(d, path)
    {
      if ino !in files || !files[ino].DirData? {
        return false;
      }
      var entries := files[ino].entries;
      var k := 0;
      while k < |entries|
        invariant k <= |entries| && OverlayExtract.Extracting(Store(dir), d, path)
        invariant old(OverlayExtract.ExtractEntries(Store(dir), d, path, out, remove, 0)) ==
                  OverlayExtract.ExtractEntries(Store(dir), d, path, out, remove, k)
      {
        var e := entries[k];
        assert HasEntry(d, ino, k) && EntryAt(d, ino, k) == e;
        if e.ino in files {
          OverlayExtract.EntryDecreases(d, path, k);
          if e.mode.DirType? {
            ok := ExtractDir(e.ino, OverlayExtract.Join(out, e.name), remove, dir, d, path + [e.ino]);
          } else {
            ok := ExtractFile(e.ino, OverlayExtract.Join(out, e.name), e.mode, dir);
          }
          if !ok {
            return false;
          }
        }
        k := k + 1;
      }
      if remove {
        if ino !in files {
          return false;
        }
        files := files - {ino};
      }
      return true;
    }
  }

  datatype InodeInfo = InodeInfo(ino: nat, kind: InodeType, children: seq<Entry>, parents: seq<Ref>)

  type Inodes = map<nat, InodeInfo>

  function Loaded(d: Disk, x: nat): InodeInfo
    requires x in d
  {
    InodeInfo(x, TypeOf(d[x]), Children(d, x), [])
  }

  ghost predicate LinkedAt(d: Disk, info: InodeInfo, x: nat, refs: seq<Ref>) {
    x in d && info == Loaded(d, x).(parents := Filter(Lists(d, x), refs))
  }

  /** The loaded inodes, with the given entries linked to the inodes they list. */
  ghost predicate Linked(d: Disk, inodes: Inodes, refs: seq<Ref>) {
    (forall x :: x in inodes <==> x in d) &&
    (forall x :: x in inodes ==> LinkedAt(d, inodes[x], x, refs))
  }

  lemma LoadedAreLinked(d: Disk)
    ensures forall x: nat :: x in d ==> LinkedAt(d, Loaded(d, x), x, [])
  {
  }

  lemma PrefixSnoc<T>(s: seq<T>, k: nat)
    requires k < |s|
    ensures s[..k + 1] == s[..k] + [s[k]] && Init(s[..k + 1]) == s[..k] && Last(s[..k + 1]) == s[k]
  {
  }

  lemma FilterSnoc<T>(keep: T -> bool, s: seq<T>, x: T)
    ensures Filter(keep, s + [x]) == Filter(keep, s) + (if keep(x) then [x] else [])
  {
    assert Init(s + [x]) == s && Last(s + [x]) == x;
  }

  /** What happens to one inode's parents when the entry r is visited. */
  function WithParent(d: Disk, info: InodeInfo, x: nat, r: Ref): InodeInfo {
    if Lists(d, x)(r) then info.(parents := info.parents + [r]) else info
  }

  lemma LinkAt(d: Disk, info: InodeInfo, x: nat, refs: seq<Ref>, r: Ref)
    requires LinkedAt(d, info, x, refs)
    ensures LinkedAt(d, WithParent(d, info, x, r), x, refs + [r])
  {
    FilterSnoc(Lists(d, x), refs, r);
  }

  lemma LinkStep(d: Disk, inodes: Inodes, refs: seq<Ref>, r: Ref)
    requires Linked(d, inodes, refs)
    ensures var y := InoAt(d, r);
            Linked(d, if y != 0 && y in inodes then inodes[y := inodes[y].(parents := inodes[y].parents + [r])] else inodes, refs + [r])
  {
    hide LinkedAt, InoAt;
    var y := InoAt(d, r);
    forall x | x in inodes
      ensures LinkedAt(d, WithParent(d, inodes[x], x, r), x, refs + [r])
    {
      LinkAt(d, inodes[x], x, refs, r);
    }
  }

  lemma MissingSnoc(d: Disk, refs: seq<Ref>, r: Ref, reported: seq<Error>)
    ensures reported + MissingErrors(d, refs + [r]) == reported + MissingErrors(d, refs) + MissingError(d, r)
  {
    assert Init(refs + [r]) == refs && Last(refs + [r]) == r;
  }

  lemma MaxInodeSnoc(d: Disk, order: seq<nat>)
    ensures MaxInode(d, order[..0]) == 0
    ensures forall k :: 0 <= k < |order| ==>
              MaxInode(d, order[..k + 1]) == MaxEntry(d, Row(d, order[k]), Max(MaxInode(d, order[..k]), order[k]))
  {
    forall k | 0 <= k < |order|
      ensures MaxInode(d, order[..k + 1]) == MaxEntry(d, Row(d, order[k]), Max(MaxInode(d, order[..k]), order[k]))
    {
      PrefixSnoc(order, k);
    }
  }

  lemma RowSnoc(d: Disk, p: nat, before: seq<Ref>, j: nat)
    requires j < |Children(d, p)|
    ensures before + Row(d, p)[..j + 1] == before + Row(d, p)[..j] + [Ref(p, j)]
    ensures InoAt(d, Ref(p, j)) == Children(d, p)[j].ino
    ensures MissingError(d, Ref(p, j)) ==
            var e := Children(d, p)[j];
            if e.ino != 0 && e.ino !in d && e.hash.None? then [MissingMaterializedInode(p, e)] else []
  {
  }

  lemma RowWhole(d: Disk, p: nat, before: seq<Ref>)
    ensures |Row(d, p)| == |Children(d, p)| && before + Row(d, p)[..0] == before
    ensures Row(d, p)[..|Children(d, p)|] == Row(d, p)
  {
  }

  lemma NoErrorsYet(d: Disk, order: seq<nat>, reported: seq<Error>)
    ensures reported + AllNodeErrors(d, order, order[..0]) == reported && Filter(IsOrphan(d, order), order[..0]) == []
  {
  }

  lemma NodeErrorsSnoc(d: Disk, order: seq<nat>, k: nat, reported: seq<Error>)
    requires Listing(d, order) && k < |order|
    ensures forall x :: x in order[..k + 1] ==> x in d
    ensures order[k] in d
    ensures reported + AllNodeErrors(d, order, order[..k + 1]) ==
            reported + AllNodeErrors(d, order, order[..k]) + NodeErrors(d, order, order[k])
  {
    PrefixSnoc(order, k);
  }

  lemma ListedSnoc(d: Disk, order: seq<nat>, k: nat)
    requires k < |order|
    ensures Listed(d, order[..k + 1]) == Listed(d, order[..k]) + Row(d, order[k])
  {
    assert Init(order[..k + 1]) == order[..k] && Last(order[..k + 1]) == order[k];
  }

  class FilesystemChecker {
    const overlay: Overlay
    const locked: bool
    var errors: seq<Error>
    var orphans: seq<nat>
    var maxInode: nat
    var inodes: Inodes

    constructor (overlay: Overlay, locked: bool)
      ensures this.overlay == overlay && this.locked == locked
      ensures errors == [] && orphans == [] && maxInode == 0
    {
      this.overlay, this.locked := overlay, locked;
      errors, orphans, maxInode, inodes := [], [], 0, map[];
    }

    ghost function State(dir: FsckDir): Fsck.State
      reads overlay, dir
    {
      Fsck.State(overlay.files, overlay.next, overlay.junk, dir.lost, dir.broken)
    }

    method UpdateMaxInodeNumber(n: nat)
      modifies this`maxInode
      ensures maxInode == Max(old(maxInode), n)
    {
      if n > maxInode {
        maxInode := n;
      }
    }

    method LoadInodeInfo(ino: nat) returns (info: InodeInfo)
      requires ino in overlay.files
      modifies this`maxInode
      ensures info == Loaded(overlay.files, ino)
      ensures maxInode == MaxEntry(overlay.files, Row(overlay.files, ino), Max(old(maxInode), ino))
    {
      UpdateMaxInodeNumber(ino);
      var kind := TypeOf(overlay.files[ino]);
      var children := [];
      ghost var row, m := Row(overlay.files, ino), maxInode;
      if overlay.files[ino].DirData? {
        var entries := overlay.files[ino].entries;
        var j := 0;
        while j < |entries|
          invariant j <= |entries| == |row| && children == entries[..j]
          invariant maxInode == MaxEntry(overlay.files, row[..j], m)
        {
          assert Init(row[..j + 1]) == row[..j] && Last(row[..j + 1]) == row[j] == Ref(ino, j);
          if entries[j].ino != 0 {
            UpdateMaxInodeNumber(entries[j].ino);
          }
          children := children + [entries[j]];
          j := j + 1;
        }
      }
      assert row[..|row|] == row;
      info := InodeInfo(ino, kind, children, []);
    }

    method ReportUnexpectedFiles()
      modifies this`errors
      ensures errors == old(errors) + JunkErrors(overlay.junk)
    {
      var j := 0;
      while j < |overlay.junk|
        invariant j <= |overlay.junk|
        invariant errors == old(errors) + JunkErrors(overlay.junk)[..j]
      {
        errors := errors + [UnexpectedOverlayFile(overlay.junk[j])];
        j := j + 1;
      }
      assert JunkErrors(overlay.junk)[..j] == JunkErrors(overlay.junk);
    }

    /** listing is what the 256 subdirectories hold, in the order os.listdir gives. */
    method ReadInodes(listing: seq<nat>) returns (inodes: Inodes)
      requires Listing(overlay.files, listing) && maxInode == 0
      modifies this`maxInode, this`errors
      ensures Linked(overlay.files, inodes, [])
      ensures maxInode == MaxInode(overlay.files, listing)
      ensures errors == old(errors) + JunkErrors(overlay.junk)
    {
      hide Loaded, JunkErrors, MaxInode, MaxEntry, Row;
      ReportUnexpectedFiles();
      MaxInodeSnoc(overlay.files, listing);
      inodes := map[];
      var k := 0;
      while k < |listing|
        invariant k <= |listing|
        invariant forall x :: x in inodes <==> x in listing[..k]
        invariant forall x :: x in inodes ==> x in overlay.files && inodes[x] == Loaded(overlay.files, x)
        invariant maxInode == MaxInode(overlay.files, listing[..k])
        invariant errors == old(errors) + JunkErrors(overlay.junk)
      {
        PrefixSnoc(listing, k);
        var info := LoadInodeInfo(listing[k]);
        inodes := inodes[listing[k] := info];
        k := k + 1;
      }
      assert listing[..k] == listing;
      LoadedAreLinked(overlay.files);
    }

    /** The inner loop of linking: the children of one inode, after the entries in before. */
    method LinkChildren(inodes0: Inodes, p: nat, ghost before: seq<Ref>, ghost reported: seq<Error>) returns (inodes: Inodes)
      requires p in overlay.files && Linked(overlay.files, inodes0, before)
      requires errors == reported + MissingErrors(overlay.files, before)
      modifies this`errors
      ensures Linked(overlay.files, inodes, before + Row(overlay.files, p))
      ensures errors == reported + MissingErrors(overlay.files, before + Row(overlay.files, p))
    {
      inodes := inodes0;
      ghost var d, row := overlay.files, Row(overlay.files, p);
      var children := inodes[p].children;
      assert children == Children(d, p) by { assert LinkedAt(d, inodes[p], p, before); }
      hide LinkedAt, MissingErrors, Row, Children, InoAt;
      RowWhole(d, p, before);
      var j := 0;
      while j < |children|
        invariant j <= |children| == |row|
        invariant Linked(d, inodes, before + row[..j])
        invariant errors == reported + MissingErrors(d, before + row[..j])
      {
        var child, r := children[j], Ref(p, j);
        RowSnoc(d, p, before, j);
        LinkStep(d, inodes, before + row[..j], r);
        MissingSnoc(d, before + row[..j], r, reported);
        if child.ino != 0 {
          if child.ino !in inodes {
            if child.hash.None? {
              errors := errors + [MissingMaterializedInode(p, child)];
            }
          } else {
            inodes := inodes[child.ino := inodes[child.ino].(parents := inodes[child.ino].parents + [r])];
          }
        }
        j := j + 1;
      }
    }

    method LinkInodeChildren(inodes0: Inodes, listing: seq<nat>) returns (inodes: Inodes)
      requires Listing(overlay.files, listing) && Linked(overlay.files, inodes0, [])
      modifies this`errors
      ensures Linked(overlay.files, inodes, Listed(overlay.files, listing))
      ensures errors == old(errors) + MissingErrors(overlay.files, Listed(overlay.files, listing))
    {
      inodes := inodes0;
      var k := 0;
      while k < |listing|
        invariant k <= |listing|
        invariant Linked(overlay.files, inodes, Listed(overlay.files, listing[..k]))
        invariant errors == old(errors) + MissingErrors(overlay.files, Listed(overlay.files, listing[..k]))
      {
        ListedSnoc(overlay.files, listing, k);
        inodes := LinkChildren(inodes, listing[k], Listed(overlay.files, listing[..k]), old(errors));
        k := k + 1;
      }
      assert listing[..k] == listing;
    }

    method ExpectedTypeOf(info: InodeInfo, listing: seq<nat>) returns (expected: Option<InodeType>)
      requires info.ino in overlay.files && info.kind == TypeOf(overlay.files[info.ino])
      requires info.parents == Parents(overlay.files, listing, info.ino)
      ensures expected == ExpectedType(overlay.files, listing, info.ino)
    {
      if info.parents != [] {
        expected := Some(if ListsDir(overlay.files, info.parents[0]) then DirInode else FileInode);
      } else if info.kind == DirErrorInode {
        expected := Some(DirInode);
      } else {
        expected := None;
      }
    }

    /** The body of the scanning loop, for one inode. */
    method ScanInode(inode: InodeInfo, listing: seq<nat>, ghost x: nat)
      requires LinkedAt(overlay.files, inode, x, Listed(overlay.files, listing))
      modifies this`errors, this`orphans
      ensures errors == old(errors) + NodeErrors(overlay.files, listing, x)
      ensures orphans == old(orphans) + if IsOrphan(overlay.files, listing)(x) then [x] else []
    {
      if inode.kind == ErrorInode || inode.kind == DirErrorInode {
        var expected := ExpectedTypeOf(inode, listing);
        errors := errors + [InvalidMaterializedInode(inode.ino, expected)];
      }
      if |inode.parents| == 0 && inode.ino != ROOT {
        orphans := orphans + [inode.ino];
      } else if |inode.parents| > 1 {
        errors := errors + [HardLinkedInode(inode.ino)];
      }
    }

    method ScanInodesForErrors(inodes: Inodes, listing: seq<nat>)
      requires Listing(overlay.files, listing) && Linked(overlay.files, inodes, Listed(overlay.files, listing))
      requires orphans == []
      modifies this`errors, this`orphans
      ensures errors == old(errors) + AllNodeErrors(overlay.files, listing, listing)
      ensures orphans == Orphans(overlay.files, listing)
    {
      hide AllNodeErrors, NodeErrors, Filter, Listed, LinkedAt;
      ghost var d := overlay.files;
      NoErrorsYet(d, listing, old(errors));
      var k := 0;
      while k < |listing|
        invariant k <= |listing|
        invariant forall x :: x in listing[..k] ==> x in d
        invariant errors == old(errors) + AllNodeErrors(d, listing, listing[..k])
        invariant orphans == Filter(IsOrphan(d, listing), listing[..k])
      {
        PrefixSnoc(listing, k);
        NodeErrorsSnoc(d, listing, k, old(errors));
        FilterSnoc(IsOrphan(d, listing), listing[..k], listing[k]);
        assert LinkedAt(d, inodes[listing[k]], listing[k], Listed(d, listing));
        ScanInode(inodes[listing[k]], listing, listing[k]);
        k := k + 1;
      }
      assert listing[..k] == listing;
    }

    /** A checker that has not scanned yet. */
    predicate Fresh()
      reads this
    {
      errors == [] && orphans == [] && maxInode == 0
    }

    method PartitionOrphans() returns (dirs: seq<nat>, files: seq<nat>)
      requires forall x :: x in orphans ==> x in overlay.files
      ensures dirs == Filter(OfDirType(overlay.files, true), orphans)
      ensures files == Filter(OfDirType(overlay.files, false), orphans)
    {
      dirs, files := [], [];
      var k := 0;
      while k < |orphans|
        invariant k <= |orphans|
        invariant dirs == Filter(OfDirType(overlay.files, true), orphans[..k])
        invariant files == Filter(OfDirType(overlay.files, false), orphans[..k])
      {
        PrefixSnoc(orphans, k);
        FilterSnoc(OfDirType(overlay.files, true), orphans[..k], orphans[k]);
        FilterSnoc(OfDirType(overlay.files, false), orphans[..k], orphans[k]);
        if overlay.files[orphans[k]].DirData? {
          dirs := dirs + [orphans[k]];
        } else {
          files := files + [orphans[k]];
        }
        k := k + 1;
      }
      assert orphans[..k] == orphans;
    }

    method CheckNextInodeNumber()
      modifies this`errors
      ensures errors == old(errors) + NextErrors(overlay.next, locked, maxInode + 1)
    {
      var expected := maxInode + 1;
      match overlay.next {
        case Absent =>
          if locked {
            errors := errors + [MissingNextInodeNumber(expected)];
          }
        case Stored(read) =>
          if read < expected {
            errors := errors + [BadNextInodeNumber(read, expected)];
          }
        case Garbage =>
          errors := errors + [CorruptNextInodeNumber(expected)];
      }
    }

    /** The errors found are exactly those of the scan function, in its order. */
    method ScanForErrors(listing: seq<nat>, ghost s: Fsck.State)
      requires Fresh() && Listing(overlay.files, listing)
      requires s.files == overlay.files && s.next == overlay.next && s.junk == overlay.junk
      modifies this
      ensures errors == Scan(s, listing, locked)
      ensures Linked(overlay.files, inodes, Listed(overlay.files, listing))
    {
      hide AllNodeErrors, MissingErrors, Linked, JunkErrors, MaxInode, Orphans, NextErrors, Listed;
      inodes := ReadInodes(listing);
      inodes := LinkInodeChildren(inodes, listing);
      ScanInodesForErrors(inodes, listing);
      OrphansPresent(overlay.files, listing);
      if orphans != [] {
        var dirs, files := PartitionOrphans();
        errors := errors + [OrphanInodes(dirs, files)];
      }
      CheckNextInodeNumber();
      ghost var d := overlay.files;
      Regroup(JunkErrors(s.junk), MissingErrors(d, Listed(d, listing)), AllNodeErrors(d, listing, listing),
              OrphanErrors(d, listing), NextErrors(s.next, locked, MaxInode(d, listing) + 1));
    }

    method MoveOrphanDirs(dirs: seq<nat>, dir: FsckDir) returns (ok: bool)
      requires FsckRepair.Heads(overlay.files, dirs)
      modifies overlay`files, dir`lost
      ensures var r := old(FsckRepair.ExtractOrphanDirs(overlay.Store(dir), overlay.files, dirs));
              (ok <==> r.Ok?) && (ok ==> overlay.Store(dir) == r.value)
    {
      ghost var w, d := overlay.Store(dir), overlay.files;
      hide FsckRepair.Heads, FsckRepair.ExtractOrphanDirs, OverlayExtract.ExtractDir;
      NoDirsYet(w, d, dirs);
      var k := 0;
      while k < |dirs|
        invariant k <= |dirs| && FsckRepair.Heads(d, dirs[..k])
        invariant FsckRepair.ExtractOrphanDirs(w, d, dirs[..k]) == Ok(overlay.Store(dir))
      {
        OneMoreOrphanDir(w, d, dirs, k);
        ok := overlay.ExtractDir(dirs[k], OverlayExtract.LostPath(dirs[k], []), true, dir, d, [dirs[k]]);
        if !ok {
          RaisedForGood(w, d, dirs, k + 1);
          return false;
        }
        k := k + 1;
      }
      assert dirs[..k] == dirs;
      return true;
    }

    method MoveOrphanFiles(files: seq<nat>, dir: FsckDir) returns (ok: bool)
      modifies overlay`files, dir`lost
      ensures var r := old(FsckRepair.ExtractOrphanFiles(overlay.Store(dir), files));
              (ok <==> r.Ok?) && (ok ==> overlay.Store(dir) == r.value)
    {
      hide OverlayExtract.ExtractFile;
      ghost var w := overlay.Store(dir);
      var k := 0;
      while k < |files|
        invariant k <= |files|
        invariant FsckRepair.ExtractOrphanFiles(w, files[..k]) == Ok(overlay.Store(dir))
      {
        PrefixSnoc(files, k);
        ok := overlay.ExtractFile(files[k], OverlayExtract.LostPath(files[k], []), RegType, dir);
        if !ok {
          FileRaisedForGood(w, files, k + 1);
          return false;
        }
        k := k + 1;
      }
      assert files[..k] == files;
      return true;
    }

    /** Moves orphan directories, then orphan files, to lost+found. */
    method RepairOrphans(dirs: seq<nat>, files: seq<nat>, dir: FsckDir) returns (ok: bool)
      requires FsckRepair.Heads(overlay.files, dirs)
      modifies overlay`files, dir`lost
      ensures var r := old(FsckRepair.ExtractOrphans(overlay.Store(dir), dirs, files));
              (ok <==> r.Ok?) && (ok ==> overlay.Store(dir) == r.value)
    {
      hide FsckRepair.Heads, FsckRepair.ExtractOrphanDirs, FsckRepair.ExtractOrphanFiles;
      ok := MoveOrphanDirs(dirs, dir);
      if ok {
        ok := MoveOrphanFiles(files, dir);
      }
    }

    method Repair(e: Error, dir: FsckDir) returns (ok: bool)
      requires e.OrphanInodes? ==> FsckRepair.Heads(overlay.files, e.directories)
      modifies overlay, dir
      ensures var r := old(FsckRepair.Repair(e, State(dir)));
              (ok <==> r.Ok?) && (ok ==> State(dir) == r.value)
    {
      match e {
        case MissingMaterializedInode(_, child) =>
          if child.mode.DirType? {
            overlay.WriteEmptyDir(child.ino);
          } else {
            overlay.WriteEmptyFile(child.ino);
          }
        case InvalidMaterializedInode(ino, expected) =>
          if ino !in overlay.files {
            return false;
          }
          dir.broken := dir.broken[ino := overlay.files[ino]];
          overlay.files := overlay.files - {ino};
          if expected == Some(DirInode) {
            overlay.WriteEmptyDir(ino);
          } else {
            overlay.WriteEmptyFile(ino);
          }
        case OrphanInodes(dirs, files) =>
          ok := RepairOrphans(dirs, files, dir);
          return ok;
        case MissingNextInodeNumber(next) => overlay.WriteNextInodeNumber(next);
        case BadNextInodeNumber(_, next) => overlay.WriteNextInodeNumber(next);
        case CorruptNextInodeNumber(next) => overlay.WriteNextInodeNumber(next);
        case _ =>
      }
      return true;
    }

    /**
     Whether compute_path for x comes to an end. The recursion of compute_path runs into Python's limit in a cycle;
     here a cycle is noticed when the climb meets an inode again.
     */
    method PathEnds(x: nat, ghost d: Disk, ghost order: seq<nat>) returns (ends: bool)
      requires Listing(d, order) && 0 !in d && Linked(d, inodes, Listed(d, order)) && x in d
      ensures ends <==> ClimbEnds(d, order, x)
    {
      hide Linked, ClimbEnds, ClimbsTo;
      var at, visited := x, {};
      LinkedKeys(d, inodes, order);
      NoStepYet(d, order, x);
      while true
        invariant at in inodes && at !in visited && visited <= inodes.Keys && inodes.Keys == d.Keys
        invariant ClimbEnds(d, order, x) <==> ClimbEnds(d, order, at)
        invariant AllLeadTo(d, order, visited, at)
        decreases inodes.Keys - visited
      {
        LinkedParents(d, inodes, order, at);
        OneStepUp(d, order, at);
        if inodes[at].parents == [] {
          return true;
        }
        var up := inodes[at].parents[0].dir;
        if up == ROOT {
          return true;
        }
        LeadsOn(d, order, visited, at, up);
        visited := visited + {at};
        if up in visited {
          CycleNeverEnds(d, order, up);
          return false;
        }
        at := up;
      }
    }

    /** Whether the text of an error can be made. */
    method Describe(e: Error, ghost d: Disk, ghost order: seq<nat>) returns (ok: bool)
      requires Listing(d, order) && 0 !in d && Linked(d, inodes, Listed(d, order)) && Known(d, e)
      ensures ok <==> Describable(d, order, e)
    {
      hide Linked, ClimbEnds;
      match e {
        case MissingMaterializedInode(p, _) =>
          if p == ROOT {
            return true;
          }
          ok := PathEnds(p, d, order);
        case InvalidMaterializedInode(x, _) =>
          ok := PathEnds(x, d, order);
        case HardLinkedInode(x) =>
          ok := ParentPathsEnd(x, d, order);
        case _ =>
          return true;
      }
    }

    /** HardLinkedInode shows the path of every entry that lists the inode. */
    method ParentPathsEnd(x: nat, ghost d: Disk, ghost order: seq<nat>) returns (ok: bool)
      requires Listing(d, order) && 0 !in d && Linked(d, inodes, Listed(d, order)) && x in d
      ensures ok <==> forall r :: r in Parents(d, order, x) ==> EntryPathEnds(d, order, r.dir)
    {
      hide Linked, ClimbEnds, Parents;
      LinkedKeys(d, inodes, order);
      LinkedParents(d, inodes, order, x);
      var parents := inodes[x].parents;
      var k := 0;
      while k < |parents|
        invariant k <= |parents|
        invariant forall j :: 0 <= j < k ==> EntryPathEnds(d, order, parents[j].dir)
      {
        if parents[k].dir != ROOT {
          ParentsIn(d, order, x, parents[k]);
          ok := PathEnds(parents[k].dir, d, order);
          if !ok {
            return false;
          }
        }
        k := k + 1;
      }
      return true;
    }

    /** _fix_error: describes the error by the inodes that were scanned, then repairs it. */
    method FixError(e: Error, dir: FsckDir, ghost d: Disk, ghost order: seq<nat>) returns (ok: bool)
      requires Listing(d, order) && 0 !in d && Linked(d, inodes, Listed(d, order)) && Known(d, e)
      requires e.OrphanInodes? ==> FsckRepair.Heads(overlay.files, e.directories)
      modifies overlay, dir
      ensures var r := old(FsckRepair.FixOne(d, order, e, State(dir)));
              (ok <==> r.Ok?) && (ok ==> State(dir) == r.value)
    {
      hide Linked, Describable, FsckRepair.Repair;
      ok := Describe(e, d, order);
      if ok {
        ok := Repair(e, dir);
      }
    }

    /** The loop over the errors, up to the first one that raises. */
    method FixEach(dir: FsckDir, ghost s: Fsck.State, ghost listing: seq<nat>) returns (ok: bool)
      requires s == State(dir) && InRun(s, listing, errors, 0, s) && Linked(s.files, inodes, Listed(s.files, listing))
      modifies overlay, dir
      ensures RunDone(s, listing, ok, State(dir))
    {
      hide *;
      var k := 0;
      while k < |errors|
        invariant k <= |errors| && InRun(s, listing, errors, k, State(dir))
        invariant Linked(s.files, inodes, Listed(s.files, listing))
      {
        ghost var before := State(dir);
        NextError(s, listing, errors, k, before);
        assert before.files == overlay.files by { StateFiles(dir); }
        ok := FixError(errors[k], dir, s.files, listing);
        if !ok {
          RunRaised(s, listing, errors, k, before, State(dir));
          return false;
        }
        NextInRun(s, listing, errors, k, before, State(dir));
        k := k + 1;
      }
      EndOfRun(s, listing, errors, State(dir));
      return true;
    }

    lemma StateFiles(dir: FsckDir)
      ensures State(dir).files == overlay.files
    {
    }

    /**
     Repairs everything the scan found. Without the lock it raises at once; with it, it returns normally
     exactly when the overlay can be repaired, and leaves what the repair function describes.
     */
    method FixErrors(dir: FsckDir, ghost listing: seq<nat>) returns (ok: bool)
      requires FsckTheorems.Checkable(State(dir), listing) && errors == Scan(State(dir), listing, locked)
      requires Linked(overlay.files, inodes, Listed(overlay.files, listing))
      modifies overlay, dir
      ensures !locked ==> !ok && State(dir) == old(State(dir))
      ensures locked ==> (ok <==> old(FsckTheorems.CanRepair(overlay.files)))
      ensures ok ==> Ok(State(dir)) == old(FsckTheorems.FixErrors(State(dir), listing))
    {
      hide FsckTheorems.CanRepair, FsckTheorems.FixErrors, Scan, Linked, Listed, Forest, InRun;
      if !locked {
        return false;
      }
      FsckTheorems.FixOutcome(State(dir), listing);
      StartOfRun(State(dir), listing, errors);
      ok := FixEach(dir, State(dir), listing);
    }
  }

  // ---------------------------------------------------------------- climbing

  /** n steps up from x lead to y, without passing the root. */
  ghost predicate ClimbsTo(d: Disk, order: seq<nat>, x: nat, y: nat, n: nat)
    decreases n
  {
    if n == 0 then x == y
    else FirstParent(d, order, x).Some? && FirstParent(d, order, x).value.dir != ROOT &&
         ClimbsTo(d, order, FirstParent(d, order, x).value.dir, y, n - 1)
  }

  ghost predicate LeadsTo(d: Disk, order: seq<nat>, x: nat, y: nat) {
    exists n: nat :: n > 0 && ClimbsTo(d, order, x, y, n)
  }

  ghost predicate AllLeadTo(d: Disk, order: seq<nat>, visited: set<nat>, at: nat) {
    forall v :: v in visited ==> LeadsTo(d, order, v, at)
  }

  lemma NoStepYet(d: Disk, order: seq<nat>, x: nat)
    ensures AllLeadTo(d, order, {}, x)
  {
  }

  /** What FirstParent says about one more step. */
  lemma OneStepUp(d: Disk, order: seq<nat>, x: nat)
    ensures match FirstParent(d, order, x)
            case None => ClimbEnds(d, order, x)
            case Some(r) => if r.dir == ROOT then ClimbEnds(d, order, x) else (ClimbEnds(d, order, x) <==> ClimbEnds(d, order, r.dir))
  {
    hide FirstParent;
    match FirstParent(d, order, x)
    case None => assert ClimbEndsIn(d, order, x, 0);
    case Some(r) =>
      if r.dir == ROOT {
        assert ClimbEndsIn(d, order, x, 0);
      } else {
        if n: nat :| ClimbEndsIn(d, order, x, n) {
          assert ClimbEndsIn(d, order, r.dir, n - 1);
        }
        if n: nat :| ClimbEndsIn(d, order, r.dir, n) {
          assert ClimbEndsIn(d, order, x, n + 1);
        }
      }
  }

  lemma {:induction false} ClimbsOn(d: Disk, order: seq<nat>, x: nat, y: nat, n: nat)
    requires ClimbsTo(d, order, x, y, n)
    requires FirstParent(d, order, y).Some? && FirstParent(d, order, y).value.dir != ROOT
    ensures ClimbsTo(d, order, x, FirstParent(d, order, y).value.dir, n + 1)
    decreases n
  {
    hide FirstParent;
    if n == 0 {
      assert ClimbsTo(d, order, FirstParent(d, order, y).value.dir, FirstParent(d, order, y).value.dir, 0);
    } else {
      ClimbsOn(d, order, FirstParent(d, order, x).value.dir, y, n - 1);
    }
  }

  lemma LeadsOn(d: Disk, order: seq<nat>, visited: set<nat>, at: nat, up: nat)
    requires AllLeadTo(d, order, visited, at)
    ensures FirstParent(d, order, at).Some? && FirstParent(d, order, at).value.dir == up != ROOT ==>
              AllLeadTo(d, order, visited + {at}, up)
  {
    hide FirstParent, ClimbsTo;
    if FirstParent(d, order, at).Some? && FirstParent(d, order, at).value.dir == up != ROOT {
      forall v | v in visited + {at}
        ensures LeadsTo(d, order, v, up)
      {
        if v in visited {
          var n: nat :| n > 0 && ClimbsTo(d, order, v, at, n);
          ClimbsOn(d, order, v, at, n);
        } else {
          NowhereIsHere(d, order, at);
          ClimbsOn(d, order, at, at, 0);
        }
      }
    }
  }

  lemma NowhereIsHere(d: Disk, order: seq<nat>, x: nat)
    ensures ClimbsTo(d, order, x, x, 0)
  {
  }

  lemma {:induction false} EndIsFurther(d: Disk, order: seq<nat>, x: nat, y: nat, n: nat, m: nat)
    requires ClimbsTo(d, order, x, y, n) && ClimbEndsIn(d, order, x, m)
    ensures m >= n && ClimbEndsIn(d, order, y, m - n)
    decreases n
  {
    hide FirstParent;
    if n == 0 {
    } else {
      EndIsFurther(d, order, FirstParent(d, order, x).value.dir, y, n - 1, m - 1);
    }
  }

  lemma {:induction false} CycleEndsNowhere(d: Disk, order: seq<nat>, x: nat, n: nat, m: nat)
    requires n > 0 && ClimbsTo(d, order, x, x, n)
    ensures !ClimbEndsIn(d, order, x, m)
    decreases m
  {
    hide ClimbsTo, ClimbEndsIn;
    if m >= n {
      CycleEndsNowhere(d, order, x, n, m - n);
    }
    if ClimbEndsIn(d, order, x, m) {
      EndIsFurther(d, order, x, x, n, m);
    }
  }

  /** An inode that leads back to itself has no path. */
  lemma CycleNeverEnds(d: Disk, order: seq<nat>, x: nat)
    ensures LeadsTo(d, order, x, x) ==> !ClimbEnds(d, order, x)
  {
    hide ClimbsTo, ClimbEndsIn;
    if n: nat :| n > 0 && ClimbsTo(d, order, x, x, n) {
      forall m: nat
        ensures !ClimbEndsIn(d, order, x, m)
      {
        CycleEndsNowhere(d, order, x, n, m);
      }
    }
  }

  lemma LinkedKeys(d: Disk, inodes: Inodes, order: seq<nat>)
    requires Linked(d, inodes, Listed(d, order))
    ensures inodes.Keys == d.Keys
  {
  }

  /** The parents that an inode was linked to, and that they are loaded inodes themselves. */
  lemma LinkedParents(d: Disk, inodes: Inodes, order: seq<nat>, x: nat)
    requires Listing(d, order) && Linked(d, inodes, Listed(d, order)) && x in inodes
    ensures inodes[x].parents == Parents(d, order, x)
    ensures FirstParent(d, order, x) == if inodes[x].parents == [] then None else Some(inodes[x].parents[0])
    ensures inodes[x].parents != [] ==> inodes[x].parents[0].dir in d
  {
    assert LinkedAt(d, inodes[x], x, Listed(d, order));
    hide Linked, LinkedAt, Listed, Filter;
    if inodes[x].parents != [] {
      ParentsIn(d, order, x, inodes[x].parents[0]);
    }
  }

  // ---------------------------------------------------------------- the loop over the errors

  /** The inodes that an error speaks of were scanned. */
  predicate Known(d: Disk, e: Error) {
    match e
    case MissingMaterializedInode(p, _) => p in d
    case InvalidMaterializedInode(x, _) => x in d
    case HardLinkedInode(x) => x in d
    case _ => true
  }

  /** The state after the first k errors, none of which raised. */
  ghost predicate InRun(s: Fsck.State, order: seq<nat>, es: seq<Error>, k: nat, now: Fsck.State) {
    && FsckTheorems.Checkable(s, order) && es == Scan(s, order, true) && k <= |es|
    && FsckRepair.FixAll(s.files, order, es[..k], s) == Ok(now)
  }

  lemma StartOfRun(s: Fsck.State, order: seq<nat>, es: seq<Error>)
    requires FsckTheorems.Checkable(s, order) && es == Scan(s, order, true)
    ensures InRun(s, order, es, 0, s)
  {
  }

  /** The run is over: it raised, or it went through and left this state. */
  ghost predicate RunDone(s: Fsck.State, order: seq<nat>, ok: bool, now: Fsck.State) {
    && FsckTheorems.Checkable(s, order)
    && var r := FsckTheorems.FixErrors(s, order);
       (ok <==> r.Ok?) && (ok ==> r.value == now)
  }

  lemma EndOfRun(s: Fsck.State, order: seq<nat>, es: seq<Error>, now: Fsck.State)
    requires InRun(s, order, es, |es|, now)
    ensures RunDone(s, order, true, now)
  {
    hide Scan, FsckRepair.FixAll;
    assert es[..|es|] == es;
  }

  lemma NextInRun(s: Fsck.State, order: seq<nat>, es: seq<Error>, k: nat, before: Fsck.State, now: Fsck.State)
    requires InRun(s, order, es, k, before) && k < |es|
    requires FsckRepair.FixOne(s.files, order, es[k], before) == Ok(now)
    ensures InRun(s, order, es, k + 1, now)
  {
    hide Scan, FsckTheorems.Checkable, FsckRepair.FixOne;
    PrefixSnoc(es, k);
  }

  /** The next error can be handled: its inodes were scanned, and orphans are still unlisted. */
  lemma NextError(s: Fsck.State, order: seq<nat>, es: seq<Error>, k: nat, now: Fsck.State)
    requires InRun(s, order, es, k, now) && k < |es|
    ensures Listing(s.files, order) && 0 !in s.files && Known(s.files, es[k])
    ensures es[k].OrphanInodes? ==> FsckRepair.Heads(now.files, es[k].directories)
  {
    hide Scan, FsckRepair.FixAll, FsckTheorems.AfterPatching, FsckRepair.Heads;
    assert 0 !in s.files by { FsckTheorems.ForestHasNoZero(s.files); }
    ScanTheorems.ScanIsExact(s, order, true, es[k]);
    if es[k].OrphanInodes? {
      FsckTheorems.OrphansAtTheirTurn(s, order, k);
    }
  }

  lemma RunRaised(s: Fsck.State, order: seq<nat>, es: seq<Error>, k: nat, before: Fsck.State, now: Fsck.State)
    requires InRun(s, order, es, k, before) && k < |es|
    requires FsckRepair.FixOne(s.files, order, es[k], before) == Raised
    ensures RunDone(s, order, false, now)
  {
    hide Scan, FsckRepair.FixOne;
    PrefixSnoc(es, k);
    RaisesForGood(s, order, es, k + 1);
  }

  lemma NoDirsYet(w: OverlayExtract.Store, d: Disk, dirs: seq<nat>)
    requires FsckRepair.Heads(d, dirs) && OverlayExtract.SubDisk(w.files, d)
    ensures FsckRepair.Heads(d, dirs[..0]) && FsckRepair.ExtractOrphanDirs(w, d, dirs[..0]) == Ok(w)
  {
  }

  /** One more directory of the list: where extraction starts, and what it adds. */
  lemma OneMoreOrphanDir(w: OverlayExtract.Store, d: Disk, dirs: seq<nat>, k: nat)
    requires FsckRepair.Heads(d, dirs) && k < |dirs| && OverlayExtract.SubDisk(w.files, d)
    ensures FsckRepair.Heads(d, dirs[..k]) && FsckRepair.Heads(d, dirs[..k + 1])
    ensures Forest(d) && RootedChain(d, [dirs[k]])
    ensures FsckRepair.ExtractOrphanDirs(w, d, dirs[..k + 1]) ==
            var r := FsckRepair.ExtractOrphanDirs(w, d, dirs[..k]);
            if r.Raised? then Raised
            else OverlayExtract.ExtractDir(r.value, d, [dirs[k]], OverlayExtract.LostPath(dirs[k], []), true)
  {
    hide OverlayExtract.ExtractDir, UniqueRefs, DistinctNames;
    PrefixSnoc(dirs, k);
    HeadsPrefix(d, dirs, k);
    HeadsPrefix(d, dirs, k + 1);
    assert dirs[k] in dirs;
  }

  lemma HeadsPrefix(d: Disk, heads: seq<nat>, k: nat)
    requires FsckRepair.Heads(d, heads) && k <= |heads|
    ensures FsckRepair.Heads(d, heads[..k])
  {
  }

  lemma {:induction false} RaisedForGood(w: OverlayExtract.Store, d: Disk, dirs: seq<nat>, k: nat)
    requires FsckRepair.Heads(d, dirs) && OverlayExtract.SubDisk(w.files, d) && k <= |dirs|
    requires FsckRepair.Heads(d, dirs[..k]) && FsckRepair.ExtractOrphanDirs(w, d, dirs[..k]) == Raised
    ensures FsckRepair.ExtractOrphanDirs(w, d, dirs) == Raised
    decreases |dirs| - k
  {
    if k == |dirs| {
      assert dirs[..k] == dirs;
    } else {
      PrefixSnoc(dirs, k);
      HeadsPrefix(d, dirs, k + 1);
      RaisedForGood(w, d, dirs, k + 1);
    }
  }

  lemma {:induction false} FileRaisedForGood(w: OverlayExtract.Store, files: seq<nat>, k: nat)
    requires k <= |files| && FsckRepair.ExtractOrphanFiles(w, files[..k]) == Raised
    ensures FsckRepair.ExtractOrphanFiles(w, files) == Raised
    decreases |files| - k
  {
    if k == |files| {
      assert files[..k] == files;
    } else {
      PrefixSnoc(files, k);
      FileRaisedForGood(w, files, k + 1);
    }
  }

  lemma {:induction false} RaisesForGood(s: Fsck.State, order: seq<nat>, es: seq<Error>, k: nat)
    requires k <= |es| && FsckRepair.FixAll(s.files, order, es[..k], s) == Raised
    ensures FsckRepair.FixAll(s.files, order, es, s) == Raised
    decreases |es| - k
  {
    if k == |es| {
      assert es[..k] == es;
    } else {
      PrefixSnoc(es, k);
      RaisesForGood(s, order, es, k + 1);
    }
  }

  lemma Regroup<T>(a: seq<T>, b: seq<T>, c: seq<T>, d: seq<T>, e: seq<T>)
    ensures a + b + c + d + e == a + (b + c) + d + e && a + b + c + [] + e == a + b + c + e
    ensures [] + a == a
  {
    assert a + b + c == a + (b + c);
    assert a + b + c + [] == a + b + c;
  }

  lemma OrphansPresent(d: Disk, order: seq<nat>)
    requires Listing(d, order)
    ensures forall x :: x in Orphans(d, order) ==> x in d
  {
    forall x: nat | x in Orphans(d, order)
      ensures x in d
    {
      FilterIn(IsOrphan(d, order), order, x);
    }
  }
}
