/** What a scan reports, said of the overlay itself: each kind of error exactly where it belongs. */
module ScanTheorems {
  import opened Common
  import opened OverlayGraph
  import opened Fsck
  import FsckRepair

  /** Entry e of directory p names a materialized inode that is not there. */
  ghost predicate Lacks(d: Disk, p: nat, e: Entry) {
    p in d && d[p].DirData? && e in d[p].entries && e.ino != 0 && e.ino !in d && e.hash.None?
  }

  /** Two different entries, of one directory or of two, list x. */
  ghost predicate ListedTwice(d: Disk, x: nat) {
    exists r1: Ref, r2: Ref :: r1 != r2 && RefTo(d, r1, x) && RefTo(d, r2, x)
  }

  ghost predicate RefTo(d: Disk, r: Ref, x: nat) {
    HasEntry(d, r.dir, r.index) && EntryAt(d, r.dir, r.index).ino == x
  }

  ghost predicate SomeOrphan(d: Disk) {
    exists h :: FsckRepair.IsOrphanInode(d, h)
  }

  /** n is one more than the largest inode number that is in the overlay or listed in it. */
  ghost predicate NextFree(d: Disk, order: seq<nat>, n: nat) {
    n > 0 && (forall x: nat :: Mentioned(d, order, x) ==> x < n) && (n == 1 || Mentioned(d, order, n - 1))
  }

  /** When an error belongs in the report. */
  ghost predicate Reported(s: State, order: seq<nat>, locked: bool, e: Error) {
    var d := s.files;
    match e
    case UnexpectedOverlayFile(path) => path in s.junk
    case MissingMaterializedInode(p, child) => Lacks(d, p, child)
    case InvalidMaterializedInode(x, expected) => x in d && !d[x].FileData? && !d[x].DirData? && expected == ExpectedType(d, order, x)
    case HardLinkedInode(x) => x in d && ListedTwice(d, x)
    case OrphanInodes(dirs, files) => SomeOrphan(d) && dirs == OrphanDirs(d, order) && files == OrphanFiles(d, order)
    case MissingNextInodeNumber(n) => locked && s.next.Absent? && NextFree(d, order, n)
    case BadNextInodeNumber(read, n) => s.next == Stored(read) && read < n && NextFree(d, order, n)
    case CorruptNextInodeNumber(n) => s.next.Garbage? && NextFree(d, order, n)
  }

  lemma {:induction false} MissingErrorsIn(d: Disk, refs: seq<Ref>, e: Error)
    ensures e in MissingErrors(d, refs) <==>
            exists r :: r in refs && IsMissing(d, r) && e == MissingMaterializedInode(r.dir, EntryAt(d, r.dir, r.index))
  {
    if refs == [] {
    } else {
      assert refs == Init(refs) + [Last(refs)];
      MissingErrorsIn(d, Init(refs), e);
    }
  }

  lemma {:induction false} NodeErrorsIn(d: Disk, order: seq<nat>, visited: seq<nat>, e: Error)
    requires forall x :: x in visited ==> x in d
    ensures e in AllNodeErrors(d, order, visited) <==> exists x :: x in visited && e in NodeErrors(d, order, x)
  {
    hide NodeErrors;
    if visited == [] {
    } else {
      assert visited == Init(visited) + [Last(visited)];
      NodeErrorsIn(d, order, Init(visited), e);
    }
  }

  lemma MissingExact(d: Disk, order: seq<nat>, e: Error)
    requires Listing(d, order)
    ensures e in MissingErrors(d, Listed(d, order)) <==> e.MissingMaterializedInode? && Lacks(d, e.parent, e.child)
  {
    hide MissingErrors, Listed;
    MissingErrorsIn(d, Listed(d, order), e);
    if r :| r in Listed(d, order) && IsMissing(d, r) && e == MissingMaterializedInode(r.dir, EntryAt(d, r.dir, r.index)) {
      ListedIn(d, order, r);
    }
    if e.MissingMaterializedInode? && Lacks(d, e.parent, e.child) {
      var i :| 0 <= i < |d[e.parent].entries| && d[e.parent].entries[i] == e.child;
      ListedIn(d, order, Ref(e.parent, i));
      assert IsMissing(d, Ref(e.parent, i));
    }
  }

  lemma TwoParents(d: Disk, order: seq<nat>, x: nat)
    requires Listing(d, order) && x != 0
    ensures |Parents(d, order, x)| > 1 <==> ListedTwice(d, x)
  {
    hide Parents;
    var ps := Parents(d, order, x);
    if |ps| > 1 {
      ParentsNoDup(d, order, x);
      ParentsIn(d, order, x, ps[0]);
      ParentsIn(d, order, x, ps[1]);
      assert RefTo(d, ps[0], x) && RefTo(d, ps[1], x);
    }
    if ListedTwice(d, x) {
      var r1: Ref, r2: Ref :| r1 != r2 && RefTo(d, r1, x) && RefTo(d, r2, x);
      ParentsIn(d, order, x, r1);
      ParentsIn(d, order, x, r2);
    }
  }

  lemma ParentsNoDup(d: Disk, order: seq<nat>, x: nat)
    requires Listing(d, order)
    ensures NoDup(Parents(d, order, x))
  {
    ListedNoDup(d, order);
    FilterNoDup(Lists(d, x), Listed(d, order));
  }

  lemma NodesExact(d: Disk, order: seq<nat>, e: Error)
    requires Listing(d, order) && 0 !in d
    ensures e in AllNodeErrors(d, order, order) <==>
            || (e.InvalidMaterializedInode? && e.ino in d && !d[e.ino].FileData? && !d[e.ino].DirData? && e.expected == ExpectedType(d, order, e.ino))
            || (e.HardLinkedInode? && e.ino in d && ListedTwice(d, e.ino))
  {
    hide AllNodeErrors, ListedTwice, Parents;
    NodeErrorsIn(d, order, order, e);
    forall x | x in d
      ensures |Parents(d, order, x)| > 1 <==> ListedTwice(d, x)
    {
      TwoParents(d, order, x);
    }
    if e.InvalidMaterializedInode? || e.HardLinkedInode? {
      assert e.ino in d ==> (e in NodeErrors(d, order, e.ino) <==>
        if e.InvalidMaterializedInode? then !d[e.ino].FileData? && !d[e.ino].DirData? && e.expected == ExpectedType(d, order, e.ino)
        else |Parents(d, order, e.ino)| > 1);
    }
  }

  lemma OrphansExact(d: Disk, order: seq<nat>, e: Error)
    requires Listing(d, order) && 0 !in d
    ensures e in OrphanErrors(d, order) <==>
            SomeOrphan(d) && e == OrphanInodes(OrphanDirs(d, order), OrphanFiles(d, order))
  {
    hide Orphans;
    FsckRepair.OrphansAre(d, order);
    if Orphans(d, order) != [] {
      FirstIn(Orphans(d, order));
    }
  }

  lemma NextFreeIsMax(d: Disk, order: seq<nat>, n: nat)
    ensures NextFree(d, order, n) <==> n == MaxInode(d, order) + 1
  {
    hide Mentioned, MaxInode;
    MaxInodeIsMax(d, order);
    var m := MaxInode(d, order);
    if NextFree(d, order, n) {
      assert m == 0 || m < n;
      assert n == 1 || n - 1 <= m;
    }
  }

  lemma JunkExact(junk: seq<string>, e: Error)
    ensures e in JunkErrors(junk) <==> e.UnexpectedOverlayFile? && e.path in junk
  {
    if e.UnexpectedOverlayFile? && e.path in junk {
      var i :| 0 <= i < |junk| && junk[i] == e.path;
      assert JunkErrors(junk)[i] == e;
    }
  }

  lemma ScanParts(s: State, order: seq<nat>, locked: bool, e: Error)
    requires Listing(s.files, order)
    ensures e in Scan(s, order, locked) <==>
            || e in JunkErrors(s.junk)
            || e in MissingErrors(s.files, Listed(s.files, order))
            || e in AllNodeErrors(s.files, order, order)
            || e in OrphanErrors(s.files, order)
            || e in NextErrors(s.next, locked, MaxInode(s.files, order) + 1)
  {
    hide JunkErrors, MissingErrors, AllNodeErrors, OrphanErrors, NextErrors, Listed, MaxInode;
  }

  /**
   A scan reports exactly what is wrong: entries of materialized inodes that are missing, unreadable inodes,
   inodes listed twice, the inodes other than the root that nothing lists, and a next inode number that is absent
   while the lock is held, unreadable, or not larger than every number in use.
   */
  lemma ScanIsExact(s: State, order: seq<nat>, locked: bool, e: Error)
    requires Listing(s.files, order) && 0 !in s.files
    ensures e in Scan(s, order, locked) <==> Reported(s, order, locked, e)
  {
    hide Scan, JunkErrors, MissingErrors, AllNodeErrors, OrphanErrors, Listed, MaxInode, NextFree, Lacks, ListedTwice, SomeOrphan;
    ScanParts(s, order, locked, e);
    JunkExact(s.junk, e);
    MissingExact(s.files, order, e);
    NodesExact(s.files, order, e);
    OrphansExact(s.files, order, e);
    forall n: nat
      ensures NextFree(s.files, order, n) <==> n == MaxInode(s.files, order) + 1
    {
      NextFreeIsMax(s.files, order, n);
    }
  }

  /** An inode is reported as invalid exactly if it is neither a readable file nor a readable directory. */
  lemma UnreadableIsReported(s: State, order: seq<nat>, locked: bool, x: nat)
    requires Listing(s.files, order) && 0 !in s.files
    ensures (exists expected :: InvalidMaterializedInode(x, expected) in Scan(s, order, locked)) <==>
            x in s.files && !s.files[x].FileData? && !s.files[x].DirData?
  {
    hide Scan;
    forall expected
      ensures InvalidMaterializedInode(x, expected) in Scan(s, order, locked) <==>
              x in s.files && !s.files[x].FileData? && !s.files[x].DirData? && expected == ExpectedType(s.files, order, x)
    {
      ScanIsExact(s, order, locked, InvalidMaterializedInode(x, expected));
    }
    if x in s.files && !s.files[x].FileData? && !s.files[x].DirData? {
      assert InvalidMaterializedInode(x, ExpectedType(s.files, order, x)) in Scan(s, order, locked);
    }
  }

  /** What an unreadable inode is replaced by: a directory exactly if its first entry, or its own header, says so. */
  lemma ExpectedTypeIsExact(d: Disk, order: seq<nat>, x: nat)
    requires Listing(d, order) && x in d && x != 0
    ensures ExpectedType(d, order, x) == None <==> Unreferenced(d, x) && !d[x].BadDir?
    ensures Unreferenced(d, x) && d[x].BadDir? ==> ExpectedType(d, order, x) == Some(DirInode)
    ensures !Unreferenced(d, x) && !ListedTwice(d, x) ==>
              forall r: Ref :: RefTo(d, r, x) ==>
                ExpectedType(d, order, x) == Some(if EntryAt(d, r.dir, r.index).mode.DirType? then DirInode else FileInode)
  {
    hide Parents;
    FsckRepair.NoParents(d, order, x);
    if !Unreferenced(d, x) {
      var first := Parents(d, order, x)[0];
      ParentsIn(d, order, x, first);
      assert RefTo(d, first, x);
    }
  }

  /** An orphan is filed as a directory exactly if its entries can be read. */
  lemma OrphansAreFiled(d: Disk, order: seq<nat>, h: nat)
    requires Listing(d, order) && 0 !in d
    ensures h in OrphanDirs(d, order) <==> h in d && h != ROOT && Unreferenced(d, h) && d[h].DirData?
    ensures h in OrphanFiles(d, order) <==> h in d && h != ROOT && Unreferenced(d, h) && !d[h].DirData?
  {
    hide OrphanDirs, OrphanFiles;
    FsckRepair.OrphanLists(d, order);
  }
}
