/**
 The overlay as a graph: numbered inode files whose directory entries name their
 children by inode number, and the chains of entries that lead from one inode to another.
 */
module OverlayGraph {
  import opened Common

  const ROOT: nat := 1

  /** The S_IFMT part of a mode. */
  datatype FileType = DirType | RegType | SymlinkType | OtherType

  datatype Entry = Entry(ino: nat, name: string, mode: FileType, hash: Option<Bytes>)

  /**
   What one overlay file holds, as the header and the directory parser see it:
   a readable file, a readable directory, a directory header over an unparseable body,
   or a file whose header cannot be read.
   */
  datatype OverlayFile =
    | FileData(contents: Bytes)
    | DirData(entries: seq<Entry>)
    | BadDir(raw: Bytes)
    | Corrupt(raw: Bytes)

  type Disk = map<nat, OverlayFile>

  predicate HasEntry(d: Disk, p: nat, i: nat) {
    p in d && d[p].DirData? && i < |d[p].entries|
  }

  function EntryAt(d: Disk, p: nat, i: nat): Entry
    requires HasEntry(d, p, i)
  {
    d[p].entries[i]
  }

  /** No inode number is listed twice, in one directory or in two. */
  ghost predicate UniqueRefs(d: Disk) {
    forall p, i, q, j ::
      HasEntry(d, p, i) && HasEntry(d, q, j) && EntryAt(d, p, i).ino == EntryAt(d, q, j).ino != 0
      ==> p == q && i == j
  }

  ghost predicate Unreferenced(d: Disk, x: nat) {
    forall p, i :: HasEntry(d, p, i) ==> EntryAt(d, p, i).ino != x
  }

  /** A directory's entries are a dictionary keyed by name. */
  ghost predicate DistinctNames(d: Disk) {
    forall p, i, j ::
      HasEntry(d, p, i) && HasEntry(d, p, j) && EntryAt(d, p, i).name == EntryAt(d, p, j).name ==> i == j
  }

  /** Every inode has at most one parent entry, and number 0 stands for "no inode allocated". */
  ghost predicate Forest(d: Disk) {
    0 !in d && UniqueRefs(d) && DistinctNames(d)
  }

  ghost predicate IsChild(d: Disk, p: nat, c: nat) {
    exists i :: HasEntry(d, p, i) && EntryAt(d, p, i).ino == c
  }

  // ---------------------------------------------------------------- chains

  /** c lists present inodes, each one an entry of the one before it. */
  ghost predicate Chain(d: Disk, c: seq<nat>)
    decreases |c|
  {
    c != [] && Last(c) in d &&
    (|c| > 1 ==> Chain(d, Init(c)) && IsChild(d, Last(Init(c)), Last(c)))
  }

  /** A chain that starts at an inode nothing lists. */
  ghost predicate RootedChain(d: Disk, c: seq<nat>) {
    Chain(d, c) && Unreferenced(d, c[0])
  }

  lemma {:induction false} ChainPrefix(d: Disk, c: seq<nat>, n: nat)
    requires Chain(d, c) && 0 < n <= |c|
    ensures Chain(d, c[..n])
    decreases |c|
  {
    if n == |c| {
      assert c[..n] == c;
    } else {
      ChainPrefix(d, Init(c), n);
      assert Init(c)[..n] == c[..n];
    }
  }

  /** With unique references an inode is reached from an unlisted start in one way only. */
  lemma {:induction false} ChainUnique(d: Disk, c1: seq<nat>, c2: seq<nat>)
    requires Forest(d) && RootedChain(d, c1) && RootedChain(d, c2) && Last(c1) == Last(c2)
    ensures c1 == c2
    decreases |c1|
  {
    if |c1| > 1 && |c2| > 1 {
      var i :| HasEntry(d, Last(Init(c1)), i) && EntryAt(d, Last(Init(c1)), i).ino == Last(c1);
      var j :| HasEntry(d, Last(Init(c2)), j) && EntryAt(d, Last(Init(c2)), j).ino == Last(c2);
      ChainUnique(d, Init(c1), Init(c2));
      assert c1 == Init(c1) + [Last(c1)] && c2 == Init(c2) + [Last(c2)];
    }
  }

  /** A rooted chain never meets an inode twice, so no cycle is ever entered. */
  lemma RootedChainNoDup(d: Disk, c: seq<nat>)
    requires Forest(d) && RootedChain(d, c)
    ensures NoDup(c)
  {
    forall i, j | 0 <= i < j < |c|
      ensures c[i] != c[j]
    {
      if c[i] == c[j] {
        ChainPrefix(d, c, i + 1);
        ChainPrefix(d, c, j + 1);
        ChainUnique(d, c[..i + 1], c[..j + 1]);
      }
    }
  }

  lemma ChainExtend(d: Disk, path: seq<nat>, i: nat)
    requires Chain(d, path) && HasEntry(d, Last(path), i) && EntryAt(d, Last(path), i).ino in d
    ensures Chain(d, path + [EntryAt(d, Last(path), i).ino])
  {
    var c := path + [EntryAt(d, Last(path), i).ino];
    assert Init(c) == path;
  }

  // ---------------------------------------------------------------- subtrees

  ghost predicate Reaches(d: Disk, path: seq<nat>, x: nat) {
    exists c :: Chain(d, c) && path <= c && Last(c) == x
  }

  /** The inodes met at or below the end of path. */
  ghost function Under(d: Disk, path: seq<nat>): set<nat> {
    set x | x in d && Reaches(d, path, x)
  }

  lemma UnderSelf(d: Disk, path: seq<nat>)
    requires Chain(d, path)
    ensures Last(path) in Under(d, path)
  {
    assert path <= path;
  }

  /** A path with something under it is itself a chain of present inodes. */
  lemma UnderPresent(d: Disk, path: seq<nat>, x: nat)
    requires path != [] && x in Under(d, path)
    ensures Chain(d, path)
  {
    var c :| Chain(d, c) && path <= c && Last(c) == x;
    assert c[..|path|] == path;
    ChainPrefix(d, c, |path|);
  }

  lemma UnderChild(d: Disk, path: seq<nat>, y: nat)
    ensures Under(d, path + [y]) <= Under(d, path)
  {
    forall x | x in Under(d, path + [y])
      ensures x in Under(d, path)
    {
      var c :| Chain(d, c) && path + [y] <= c && Last(c) == x;
      assert path <= path + [y] <= c;
    }
  }

  /** Whatever lies strictly below path lies under one of the entries of its last directory. */
  lemma UnderSplit(d: Disk, path: seq<nat>, x: nat) returns (i: nat)
    requires path != [] && x in Under(d, path) && x != Last(path)
    ensures HasEntry(d, Last(path), i) && x in Under(d, path + [EntryAt(d, Last(path), i).ino])
  {
    var c :| Chain(d, c) && path <= c && Last(c) == x;
    var n := |path|;
    assert c[..n] == path;
    assert c != path;
    ChainPrefix(d, c, n + 1);
    assert Init(c[..n + 1]) == path;
    i :| HasEntry(d, Last(path), i) && EntryAt(d, Last(path), i).ino == c[n];
    assert path + [c[n]] <= c;
  }

  /** Subtrees meet only when one path continues the other. */
  lemma UnderMeet(d: Disk, p1: seq<nat>, p2: seq<nat>, x: nat)
    requires Forest(d) && p1 != [] && p2 != []
    requires Unreferenced(d, p1[0]) && Unreferenced(d, p2[0])
    requires x in Under(d, p1) && x in Under(d, p2)
    ensures p1 <= p2 || p2 <= p1
  {
    var c1 :| Chain(d, c1) && p1 <= c1 && Last(c1) == x;
    var c2 :| Chain(d, c2) && p2 <= c2 && Last(c2) == x;
    ChainUnique(d, c1, c2);
  }

  /** The end of a path does not lie below any of its own entries. */
  lemma UnderStrict(d: Disk, path: seq<nat>, y: nat)
    requires Forest(d) && RootedChain(d, path)
    ensures Last(path) !in Under(d, path + [y])
  {
    if Last(path) in Under(d, path + [y]) {
      var c :| Chain(d, c) && path + [y] <= c && Last(c) == Last(path);
      ChainUnique(d, c, path);
    }
  }
}
