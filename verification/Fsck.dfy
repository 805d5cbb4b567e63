/**
 The scan of an overlay: which entries list which inode, the errors this gives, and the next inode number
 that the overlay calls for.
 */
module Fsck {
  import opened Common
  import opened OverlayGraph
  import opened OverlayExtract

  datatype InodeType = FileInode | DirInode | ErrorInode | DirErrorInode

  datatype NextInode = Absent | Garbage | Stored(n: nat)

  datatype Error =
    | UnexpectedOverlayFile(path: string)
    | MissingMaterializedInode(parent: nat, child: Entry)
    | InvalidMaterializedInode(ino: nat, expected: Option<InodeType>)
    | HardLinkedInode(ino: nat)
    | OrphanInodes(directories: seq<nat>, files: seq<nat>)
    | MissingNextInodeNumber(next: nat)
    | BadNextInodeNumber(read: nat, next: nat)
    | CorruptNextInodeNumber(next: nat)

  /**
   The overlay together with the fsck directory: inode files, the next-inode-number file,
   names in the overlay that are no inode numbers, lost+found, and broken_inodes.
   */
  datatype State = State(files: Disk, next: NextInode, junk: seq<string>, lost: Lost, broken: map<nat, OverlayFile>)

  function TypeOf(f: OverlayFile): InodeType {
    match f
    case FileData(_) => FileInode
    case DirData(_) => DirInode
    case BadDir(_) => DirErrorInode
    case Corrupt(_) => ErrorInode
  }

  predicate IsBroken(f: OverlayFile) {
    f.BadDir? || f.Corrupt?
  }

  // ---------------------------------------------------------------- scanning

  function Filter<T>(keep: T -> bool, s: seq<T>): seq<T> {
    if s == [] then [] else Filter(keep, Init(s)) + (if keep(Last(s)) then [Last(s)] else [])
  }

  lemma {:induction false} FilterIn<T>(keep: T -> bool, s: seq<T>, x: T)
    ensures x in Filter(keep, s) <==> x in s && keep(x)
  {
    if s == [] {
    } else {
      assert s == Init(s) + [Last(s)];
      FilterIn(keep, Init(s), x);
    }
  }

  lemma {:induction false} FilterNoDup<T>(keep: T -> bool, s: seq<T>)
    requires NoDup(s)
    ensures NoDup(Filter(keep, s))
  {
    if s == [] {
    } else {
      FilterNoDup(keep, Init(s));
      FilterIn(keep, Init(s), Last(s));
    }
  }

  /** The position of one entry: a directory and an index into its entries. */
  datatype Ref = Ref(dir: nat, index: nat)

  function Children(d: Disk, p: nat): seq<Entry> {
    if p in d && d[p].DirData? then d[p].entries else []
  }

  /** The positions of one directory's entries. */
  function Row(d: Disk, p: nat): seq<Ref> {
    seq(|Children(d, p)|, i requires 0 <= i => Ref(p, i))
  }

  lemma RowIn(d: Disk, p: nat, r: Ref)
    ensures r in Row(d, p) <==> r.dir == p && HasEntry(d, p, r.index)
  {
    if HasEntry(d, p, r.index) {
      assert Row(d, p)[r.index] == Ref(p, r.index);
    }
  }

  /** Every entry of the listed inodes, in the order a scan visits them. */
  function Listed(d: Disk, order: seq<nat>): seq<Ref> {
    if order == [] then [] else Listed(d, Init(order)) + Row(d, Last(order))
  }

  lemma {:induction false} ListedIn(d: Disk, order: seq<nat>, r: Ref)
    ensures r in Listed(d, order) <==> r.dir in order && HasEntry(d, r.dir, r.index)
  {
    if order == [] {
    } else {
      assert order == Init(order) + [Last(order)];
      ListedIn(d, Init(order), r);
      RowIn(d, Last(order), r);
    }
  }

  lemma {:induction false} ListedNoDup(d: Disk, order: seq<nat>)
    requires NoDup(order)
    ensures NoDup(Listed(d, order))
  {
    if order == [] {
    } else {
      ListedNoDup(d, Init(order));
      forall r | r in Row(d, Last(order))
        ensures r !in Listed(d, Init(order))
      {
        RowIn(d, Last(order), r);
        ListedIn(d, Init(order), r);
      }
      NoDupConcat(Listed(d, Init(order)), Row(d, Last(order)));
    }
  }

  function InoAt(d: Disk, r: Ref): nat {
    if HasEntry(d, r.dir, r.index) then EntryAt(d, r.dir, r.index).ino else 0
  }

  function Lists(d: Disk, x: nat): Ref -> bool {
    (r: Ref) => InoAt(d, r) == x && x != 0
  }

  /** The entries that list x, first visited first. */
  function Parents(d: Disk, order: seq<nat>, x: nat): seq<Ref> {
    Filter(Lists(d, x), Listed(d, order))
  }

  lemma ParentsIn(d: Disk, order: seq<nat>, x: nat, r: Ref)
    ensures r in Parents(d, order, x) <==>
            r.dir in order && HasEntry(d, r.dir, r.index) && EntryAt(d, r.dir, r.index).ino == x != 0
  {
    FilterIn(Lists(d, x), Listed(d, order), r);
    ListedIn(d, order, r);
  }

  predicate IsMissing(d: Disk, r: Ref) {
    HasEntry(d, r.dir, r.index) && InoAt(d, r) != 0 && InoAt(d, r) !in d && EntryAt(d, r.dir, r.index).hash.None?
  }

  function MissingError(d: Disk, r: Ref): seq<Error> {
    if IsMissing(d, r) then [MissingMaterializedInode(r.dir, EntryAt(d, r.dir, r.index))] else []
  }

  function MissingErrors(d: Disk, refs: seq<Ref>): seq<Error> {
    if refs == [] then [] else MissingErrors(d, Init(refs)) + MissingError(d, Last(refs))
  }

  function ListsDir(d: Disk, r: Ref): bool {
    HasEntry(d, r.dir, r.index) && EntryAt(d, r.dir, r.index).mode.DirType?
  }

  /** What an unreadable inode should have been, going by the first entry that lists it. */
  function ExpectedType(d: Disk, order: seq<nat>, x: nat): Option<InodeType>
    requires x in d
  {
    var parents := Parents(d, order, x);
    if parents != [] then Some(if ListsDir(d, parents[0]) then DirInode else FileInode)
    else if TypeOf(d[x]) == DirErrorInode then Some(DirInode)
    else None
  }

  // ---------------------------------------------------------------- the paths in error messages

  /** The directory and entry that compute_path follows from x, if anything lists x. */
  function FirstParent(d: Disk, order: seq<nat>, x: nat): Option<Ref> {
    var parents := Parents(d, order, x);
    if parents == [] then None else Some(parents[0])
  }

  /** InodeInfo.compute_path for x is done after n steps upwards at most. */
  predicate ClimbEndsIn(d: Disk, order: seq<nat>, x: nat, n: nat)
    decreases n
  {
    match FirstParent(d, order, x)
    case None => true
    case Some(r) => r.dir == ROOT || (n > 0 && ClimbEndsIn(d, order, r.dir, n - 1))
  }

  /** It is done at some point: the first parents do not lead into a cycle. */
  ghost predicate ClimbEnds(d: Disk, order: seq<nat>, x: nat) {
    exists n: nat :: ClimbEndsIn(d, order, x, n)
  }

  /** ChildInfo.compute_path for an entry of directory p is done at some point. */
  ghost predicate EntryPathEnds(d: Disk, order: seq<nat>, p: nat) {
    p == ROOT || ClimbEnds(d, order, p)
  }

  /** The text of the error can be made: every path in it comes to an end. */
  ghost predicate Describable(d: Disk, order: seq<nat>, e: Error) {
    match e
    case MissingMaterializedInode(p, _) => EntryPathEnds(d, order, p)
    case InvalidMaterializedInode(x, _) => ClimbEnds(d, order, x)
    case HardLinkedInode(x) => forall r :: r in Parents(d, order, x) ==> EntryPathEnds(d, order, r.dir)
    case _ => true
  }

  // ---------------------------------------------------------------- errors of one inode

  function NodeErrors(d: Disk, order: seq<nat>, x: nat): seq<Error>
    requires x in d
  {
    (if IsBroken(d[x]) then [InvalidMaterializedInode(x, ExpectedType(d, order, x))] else []) +
    (if |Parents(d, order, x)| > 1 then [HardLinkedInode(x)] else [])
  }

  function AllNodeErrors(d: Disk, order: seq<nat>, visited: seq<nat>): seq<Error>
    requires forall x :: x in visited ==> x in d
  {
    if visited == [] then []
    else
      assert Last(visited) in visited;
      AllNodeErrors(d, order, Init(visited)) + NodeErrors(d, order, Last(visited))
  }

  function IsOrphan(d: Disk, order: seq<nat>): nat -> bool {
    (x: nat) => x != ROOT && Parents(d, order, x) == []
  }

  function Orphans(d: Disk, order: seq<nat>): seq<nat> {
    Filter(IsOrphan(d, order), order)
  }

  function OfDirType(d: Disk, isDir: bool): nat -> bool {
    (x: nat) => x in d && d[x].DirData? == isDir
  }

  function OrphanDirs(d: Disk, order: seq<nat>): seq<nat> {
    Filter(OfDirType(d, true), Orphans(d, order))
  }

  function OrphanFiles(d: Disk, order: seq<nat>): seq<nat> {
    Filter(OfDirType(d, false), Orphans(d, order))
  }

  function OrphanErrors(d: Disk, order: seq<nat>): seq<Error> {
    if Orphans(d, order) == [] then [] else [OrphanInodes(OrphanDirs(d, order), OrphanFiles(d, order))]
  }

  function Max(a: nat, b: nat): nat {
    if a < b then b else a
  }

  function MaxEntry(d: Disk, refs: seq<Ref>, m: nat): nat {
    if refs == [] then m else Max(MaxEntry(d, Init(refs), m), InoAt(d, Last(refs)))
  }

  lemma {:induction false} MaxEntryIsMax(d: Disk, refs: seq<Ref>, m: nat)
    ensures m <= MaxEntry(d, refs, m) && forall r :: r in refs ==> InoAt(d, r) <= MaxEntry(d, refs, m)
    ensures MaxEntry(d, refs, m) == m || exists r :: r in refs && InoAt(d, r) == MaxEntry(d, refs, m)
  {
    if refs == [] {
    } else {
      assert refs == Init(refs) + [Last(refs)];
      MaxEntryIsMax(d, Init(refs), m);
    }
  }

  /** The largest number among the listed inodes and everything they list. */
  function MaxInode(d: Disk, order: seq<nat>): nat {
    if order == [] then 0
    else MaxEntry(d, Row(d, Last(order)), Max(MaxInode(d, Init(order)), Last(order)))
  }

  /** n is the number of a listed inode or of something such an inode lists. */
  ghost predicate Mentioned(d: Disk, order: seq<nat>, n: nat) {
    n in order || exists r: Ref :: r.dir in order && HasEntry(d, r.dir, r.index) && InoAt(d, r) == n
  }

  lemma {:induction false} MaxInodeIsMax(d: Disk, order: seq<nat>)
    ensures forall n: nat :: Mentioned(d, order, n) ==> n <= MaxInode(d, order)
    ensures MaxInode(d, order) == 0 || Mentioned(d, order, MaxInode(d, order))
  {
    if order == [] {
    } else {
      var rest, p := Init(order), Last(order);
      assert order == rest + [p];
      MaxInodeIsMax(d, rest);
      var m := MaxInode(d, order);
      MaxEntryIsMax(d, Row(d, p), Max(MaxInode(d, rest), p));
      forall n: nat | Mentioned(d, order, n)
        ensures n <= m
      {
        if n !in order {
          var r: Ref :| r.dir in order && HasEntry(d, r.dir, r.index) && InoAt(d, r) == n;
          RowIn(d, p, r);
          if r.dir in rest {
            assert Mentioned(d, rest, n);
          }
        } else if n in rest {
          assert Mentioned(d, rest, n);
        }
      }
      if m != MaxInode(d, rest) && m != p {
        var r :| r in Row(d, p) && InoAt(d, r) == m;
        RowIn(d, p, r);
      }
    }
  }

  function NextErrors(next: NextInode, locked: bool, expected: nat): seq<Error> {
    match next
    case Absent => if locked then [MissingNextInodeNumber(expected)] else []
    case Stored(n) => if n < expected then [BadNextInodeNumber(n, expected)] else []
    case Garbage => [CorruptNextInodeNumber(expected)]
  }

  function JunkErrors(junk: seq<string>): seq<Error> {
    seq(|junk|, i requires 0 <= i < |junk| => UnexpectedOverlayFile(junk[i]))
  }

  /** A directory listing shows every inode file once, in some order. */
  ghost predicate Listing(d: Disk, order: seq<nat>) {
    NoDup(order) && forall x :: x in order <==> x in d
  }

  ghost function Scan(s: State, order: seq<nat>, locked: bool): seq<Error>
    requires Listing(s.files, order)
  {
    JunkErrors(s.junk) +
    (MissingErrors(s.files, Listed(s.files, order)) + AllNodeErrors(s.files, order, order)) +
    OrphanErrors(s.files, order) +
    NextErrors(s.next, locked, MaxInode(s.files, order) + 1)
  }
}
