/** Which errors can be described: the paths in their messages end unless first parents lead into a cycle. */
module ErrorPaths {
  import opened Common
  import opened OverlayGraph
  import opened Fsck
  import opened FsckRepair
  import ScanTheorems

  /** Going up from x ends at an inode that nothing lists, and not in a cycle. */
  ghost predicate Anchored(d: Disk, x: nat) {
    exists c: seq<nat> :: RootedChain(d, c) && Last(c) == x
  }

  /** Every unreadable inode and every directory that lacks a child is anchored. */
  ghost predicate FaultsAnchored(d: Disk) {
    && (forall p, i :: HasEntry(d, p, i) && IsMissing(d, Ref(p, i)) ==> Anchored(d, p))
    && (forall x :: x in d && !d[x].FileData? && !d[x].DirData? ==> Anchored(d, x))
  }

  lemma FirstParentIs(d: Disk, order: seq<nat>, x: nat)
    requires Listing(d, order) && x != 0
    ensures FirstParent(d, order, x).None? <==> Unreferenced(d, x)
    ensures FirstParent(d, order, x).Some? ==>
              var r := FirstParent(d, order, x).value; HasEntry(d, r.dir, r.index) && EntryAt(d, r.dir, r.index).ino == x
  {
    hide Parents;
    NoParents(d, order, x);
    if Parents(d, order, x) != [] {
      ParentsIn(d, order, x, Parents(d, order, x)[0]);
    }
  }

  lemma {:induction false} EndedClimbIsAnchored(d: Disk, order: seq<nat>, x: nat, n: nat)
    requires Listing(d, order) && 0 !in d && Unreferenced(d, ROOT) && x in d && ClimbEndsIn(d, order, x, n)
    ensures Anchored(d, x)
    decreases n
  {
    hide FirstParent, Unreferenced;
    FirstParentIs(d, order, x);
    match FirstParent(d, order, x)
    case None =>
      assert RootedChain(d, [x]);
    case Some(r) =>
      if r.dir == ROOT {
        assert RootedChain(d, [ROOT]);
      } else {
        EndedClimbIsAnchored(d, order, r.dir, n - 1);
      }
      AnchorsChild(d, r.dir, r.index);
  }

  lemma AnchorsChild(d: Disk, p: nat, i: nat)
    requires Anchored(d, p) && HasEntry(d, p, i) && EntryAt(d, p, i).ino in d
    ensures Anchored(d, EntryAt(d, p, i).ino)
  {
    var c: seq<nat> :| RootedChain(d, c) && Last(c) == p;
    ChainExtend(d, c, i);
    assert RootedChain(d, c + [EntryAt(d, p, i).ino]);
  }

  lemma {:induction false} AnchoredClimbEnds(d: Disk, order: seq<nat>, c: seq<nat>)
    requires Listing(d, order) && Forest(d) && RootedChain(d, c)
    ensures ClimbEndsIn(d, order, Last(c), |c| - 1)
    decreases |c|
  {
    hide FirstParent;
    FirstParentIs(d, order, Last(c));
    if |c| == 1 {
    } else {
      AnchoredClimbEnds(d, order, Init(c));
      var i :| HasEntry(d, Last(Init(c)), i) && EntryAt(d, Last(Init(c)), i).ino == Last(c);
      SameRef(d, FirstParent(d, order, Last(c)).value, Ref(Last(Init(c)), i));
    }
  }

  /** Computing the path of an inode ends exactly if the inode is anchored. */
  lemma ClimbEndsIfAnchored(d: Disk, order: seq<nat>, x: nat)
    requires Listing(d, order) && Forest(d) && Unreferenced(d, ROOT) && x in d
    ensures ClimbEnds(d, order, x) <==> Anchored(d, x)
    ensures EntryPathEnds(d, order, x) <==> Anchored(d, x)
  {
    hide ClimbEndsIn, Unreferenced, UniqueRefs, DistinctNames;
    if n: nat :| ClimbEndsIn(d, order, x, n) {
      EndedClimbIsAnchored(d, order, x, n);
    }
    if c: seq<nat> :| RootedChain(d, c) && Last(c) == x {
      AnchoredClimbEnds(d, order, c);
    }
    if x == ROOT {
      assert RootedChain(d, [ROOT]);
    }
  }

  lemma NotListedTwice(d: Disk, x: nat)
    requires UniqueRefs(d) && x != 0
    ensures !ScanTheorems.ListedTwice(d, x)
  {
    forall r1: Ref, r2: Ref | ScanTheorems.RefTo(d, r1, x) && ScanTheorems.RefTo(d, r2, x)
      ensures r1 == r2
    {
      SameRef(d, r1, r2);
    }
  }

  /** All errors of a scan can be described exactly if every fault is anchored. */
  lemma ScanDescribable(s: State, order: seq<nat>)
    requires Listing(s.files, order) && Forest(s.files) && Unreferenced(s.files, ROOT)
    ensures AllDescribable(s.files, order, Scan(s, order, true)) <==> FaultsAnchored(s.files)
  {
    hide Scan, Anchored, Describable, ClimbEnds, EntryPathEnds, Unreferenced, UniqueRefs, DistinctNames;
    var d := s.files;
    if FaultsAnchored(d) {
      forall e | e in Scan(s, order, true)
        ensures Describable(d, order, e)
      {
        ScanTheorems.ScanIsExact(s, order, true, e);
        ReportedIsDescribable(s, order, e);
      }
    }
    if AllDescribable(d, order, Scan(s, order, true)) {
      forall p, i | HasEntry(d, p, i) && IsMissing(d, Ref(p, i))
        ensures Anchored(d, p)
      {
        var e := MissingMaterializedInode(p, EntryAt(d, p, i));
        ScanTheorems.ScanIsExact(s, order, true, e);
        DescribableIsAnchored(d, order, e, p);
      }
      forall x | x in d && !d[x].FileData? && !d[x].DirData?
        ensures Anchored(d, x)
      {
        var e := InvalidMaterializedInode(x, ExpectedType(d, order, x));
        ScanTheorems.ScanIsExact(s, order, true, e);
        DescribableIsAnchored(d, order, e, x);
      }
    }
  }

  lemma DescribableIsAnchored(d: Disk, order: seq<nat>, e: Error, x: nat)
    requires Listing(d, order) && Forest(d) && Unreferenced(d, ROOT) && x in d && Describable(d, order, e)
    requires (e.MissingMaterializedInode? && e.parent == x) || (e.InvalidMaterializedInode? && e.ino == x)
    ensures Anchored(d, x)
  {
    hide Anchored, ClimbEnds, EntryPathEnds, Unreferenced;
    ClimbEndsIfAnchored(d, order, x);
  }

  lemma ReportedIsDescribable(s: State, order: seq<nat>, e: Error)
    requires Listing(s.files, order) && Forest(s.files) && Unreferenced(s.files, ROOT) && FaultsAnchored(s.files)
    requires ScanTheorems.Reported(s, order, true, e)
    ensures Describable(s.files, order, e)
  {
    hide Anchored, ClimbEnds, EntryPathEnds, Unreferenced, UniqueRefs, DistinctNames, Parents, ScanTheorems.ListedTwice, ScanTheorems.NextFree;
    var d := s.files;
    match e
    case MissingMaterializedInode(p, child) =>
      var i :| 0 <= i < |d[p].entries| && d[p].entries[i] == child;
      assert HasEntry(d, p, i) && IsMissing(d, Ref(p, i));
      ClimbEndsIfAnchored(d, order, p);
    case InvalidMaterializedInode(x, _) => ClimbEndsIfAnchored(d, order, x);
    case HardLinkedInode(x) => NotListedTwice(d, x);
    case _ =>
  }

  /** The climb stops at an entry of the root directory, whether or not something lists the root. */
  lemma ListedByRootEnds(d: Disk, order: seq<nat>, x: nat)
    requires FirstParent(d, order, x).Some? && FirstParent(d, order, x).value.dir == ROOT
    ensures ClimbEnds(d, order, x)
  {
    assert ClimbEndsIn(d, order, x, 0);
  }
}
