/**
 Copying inodes out of the overlay: the recursion of extract_dir and extract_file over a
 store whose files disappear as they are saved, and what a whole extraction amounts to.
 */
module OverlayExtract {
  import opened Common
  import opened OverlayGraph

  /** A path below lost+found: the directory named after an orphan, then entry names. */
  datatype LostPath = LostPath(head: nat, names: seq<string>)

  datatype Kind = Regular | Symlink

  datatype Saved = Saved(kind: Kind, contents: Bytes)

  type Lost = map<LostPath, Saved>

  datatype Store = Store(files: Disk, lost: Lost)

  function Join(p: LostPath, name: string): LostPath {
    p.(names := p.names + [name])
  }

  /** Creating the parents of p would run into a saved file. */
  predicate BelowSavedFile(lost: Lost, p: LostPath) {
    exists n :: 0 <= n < |p.names| && LostPath(p.head, p.names[..n]) in lost
  }

  /** The targets that symlink(2) accepts through os.symlink. */
  predicate LinkTarget(target: Bytes) {
    target != [] && 0 !in target
  }

  /** Saves one file inode and unlinks it; unusual file types are unlinked without a copy. */
  function ExtractFile(w: Store, ino: nat, p: LostPath, mode: FileType): (r: Outcome<Store>) {
    if ino !in w.files || !w.files[ino].FileData? || BelowSavedFile(w.lost, p) then Raised
    else
      var contents := w.files[ino].contents;
      var files := w.files - {ino};
      match mode
      case SymlinkType =>
        if !LinkTarget(contents) || p in w.lost then Raised
        else Ok(Store(files, w.lost[p := Saved(Symlink, contents)]))
      case RegType => Ok(Store(files, w.lost[p := Saved(Regular, contents)]))
      case _ => Ok(Store(files, w.lost))
  }

  ghost predicate SubDisk(d': Disk, d: Disk) {
    forall x :: x in d' ==> x in d && d'[x] == d[x]
  }

  /**
   What makes extraction of Last(path) terminate: the store is part of a disk d where every
   inode has at most one parent entry, and path leads there from an inode nothing lists.
   */
  ghost predicate Extracting(w: Store, d: Disk, path: seq<nat>) {
    SubDisk(w.files, d) && Forest(d) && RootedChain(d, path)
  }

  ghost function NotYetOn(d: Disk, path: seq<nat>): set<nat> {
    set x | x in d && x !in path
  }

  ghost function ExtractDir(w: Store, d: Disk, path: seq<nat>, out: LostPath, remove: bool): (r: Outcome<Store>)
    requires Extracting(w, d, path)
    ensures r.Ok? ==> SubDisk(r.value.files, w.files)
    decreases NotYetOn(d, path), 1, 0
  {
    var ino := Last(path);
    if ino !in w.files || !w.files[ino].DirData? then Raised
    else
      var r := ExtractEntries(w, d, path, out, remove, 0);
      if r.Raised? || !remove then r
      else if ino !in r.value.files then Raised
      else Ok(r.value.(files := r.value.files - {ino}))
  }

  /** The loop of extract_dir over the entries from index k on. */
  ghost function ExtractEntries(w: Store, d: Disk, path: seq<nat>, out: LostPath, remove: bool, k: nat)
    : (r: Outcome<Store>)
    requires Extracting(w, d, path) && d[Last(path)].DirData? && k <= |d[Last(path)].entries|
    ensures r.Ok? ==> SubDisk(r.value.files, w.files)
    decreases NotYetOn(d, path), 0, |d[Last(path)].entries| - k
  {
    if k == |d[Last(path)].entries| then Ok(w)
    else
      var r := ExtractEntry(w, d, path, out, remove, k);
      if r.Raised? then Raised else ExtractEntries(r.value, d, path, out, remove, k + 1)
  }

  /** One turn of that loop: an inode absent from the overlay is skipped. */
  ghost function ExtractEntry(w: Store, d: Disk, path: seq<nat>, out: LostPath, remove: bool, k: nat)
    : (r: Outcome<Store>)
    requires Extracting(w, d, path) && HasEntry(d, Last(path), k)
    ensures r.Ok? ==> SubDisk(r.value.files, w.files)
    decreases NotYetOn(d, path), 0, 0
  {
    var e := EntryAt(d, Last(path), k);
    if e.ino !in w.files then Ok(w)
    else
      EntryDecreases(d, path, k);
      if e.mode.DirType? then ExtractDir(w, d, path + [e.ino], Join(out, e.name), remove)
      else ExtractFile(w, e.ino, Join(out, e.name), e.mode)
  }

  lemma EntryDecreases(d: Disk, path: seq<nat>, k: nat)
    requires Forest(d) && RootedChain(d, path) && HasEntry(d, Last(path), k)
    requires EntryAt(d, Last(path), k).ino in d
    ensures var y := EntryAt(d, Last(path), k).ino;
            RootedChain(d, path + [y]) && NotYetOn(d, path + [y]) < NotYetOn(d, path)
  {
    var y := EntryAt(d, Last(path), k).ino;
    ChainExtend(d, path, k);
    RootedChainNoDup(d, path + [y]);
    assert y in NotYetOn(d, path) && y !in NotYetOn(d, path + [y]) by {
      assert forall i :: 0 <= i < |path| ==> (path + [y])[i] == path[i] != (path + [y])[|path|];
    }
  }

  // ---------------------------------------------------------------- where a file is saved

  /** The entry by which a chain reaches its last inode. */
  ghost function LastEntry(d: Disk, c: seq<nat>): (e: Entry)
    requires Chain(d, c) && |c| > 1
    ensures exists i :: HasEntry(d, Last(Init(c)), i) && EntryAt(d, Last(Init(c)), i) == e && e.ino == Last(c)
  {
    var i :| HasEntry(d, Last(Init(c)), i) && EntryAt(d, Last(Init(c)), i).ino == Last(c);
    EntryAt(d, Last(Init(c)), i)
  }

  ghost function PathOf(d: Disk, c: seq<nat>): (p: LostPath)
    requires Chain(d, c)
    ensures p.head == c[0] && |p.names| == |c| - 1
    decreases |c|
  {
    if |c| == 1 then LostPath(c[0], [])
    else Join(PathOf(d, Init(c)), LastEntry(d, c).name)
  }

  /** Orphan files are extracted as regular files; anything else by the mode of its entry. */
  ghost function ModeOf(d: Disk, c: seq<nat>): FileType
    requires Chain(d, c)
  {
    if |c| == 1 then RegType else LastEntry(d, c).mode
  }

  lemma PathOfChild(d: Disk, path: seq<nat>, k: nat)
    requires Forest(d) && Chain(d, path) && HasEntry(d, Last(path), k)
    requires EntryAt(d, Last(path), k).ino in d
    ensures var e := EntryAt(d, Last(path), k);
            && Chain(d, path + [e.ino])
            && PathOf(d, path + [e.ino]) == Join(PathOf(d, path), e.name)
            && ModeOf(d, path + [e.ino]) == e.mode
  {
    ChainExtend(d, path, k);
    var c := path + [EntryAt(d, Last(path), k).ino];
    assert Init(c) == path;
    assert LastEntry(d, c) == EntryAt(d, Last(path), k);
  }

  lemma {:induction false} PathOfPrefix(d: Disk, c: seq<nat>, n: nat)
    requires Chain(d, c) && 0 < n <= |c|
    ensures Chain(d, c[..n]) && PathOf(d, c[..n]) == LostPath(c[0], PathOf(d, c).names[..n - 1])
    decreases |c|
  {
    ChainPrefix(d, c, n);
    if n == |c| {
      assert c[..n] == c;
    } else {
      PathOfPrefix(d, Init(c), n);
      assert Init(c)[..n] == c[..n];
    }
  }

  /** The name at place k is that of an entry of the inode at place k of the chain, which lists the next one. */
  lemma {:induction false} PathSpelled(d: Disk, c: seq<nat>, k: nat)
    requires Chain(d, c) && k < |c| - 1
    ensures exists i :: HasEntry(d, c[k], i) && EntryAt(d, c[k], i).ino == c[k + 1] &&
                        EntryAt(d, c[k], i).name == PathOf(d, c).names[k] &&
                        (k == |c| - 2 ==> EntryAt(d, c[k], i).mode == ModeOf(d, c))
    decreases |c|
  {
    if k == |c| - 2 {
    } else {
      PathSpelled(d, Init(c), k);
    }
  }

  /** Two inodes are never saved at the same place. */
  lemma {:induction false} PathOfInjective(d: Disk, c1: seq<nat>, c2: seq<nat>)
    requires Forest(d) && Chain(d, c1) && Chain(d, c2) && PathOf(d, c1) == PathOf(d, c2)
    ensures c1 == c2
    decreases |c1|
  {
    hide Forest, Chain, PathOf, LastEntry;
    if |c1| == 1 {
      assert c1 == [c1[0]] && c2 == [c2[0]];
    } else {
      PathOfStep(d, c1);
      PathOfStep(d, c2);
      PathOfInjective(d, Init(c1), Init(c2));
      SameNameSameInode(d, c1, c2);
      assert c1 == Init(c1) + [Last(c1)] && c2 == Init(c2) + [Last(c2)];
    }
  }

  lemma PathOfStep(d: Disk, c: seq<nat>)
    requires Chain(d, c) && |c| > 1
    ensures Chain(d, Init(c)) && PathOf(d, Init(c)) == LostPath(c[0], Init(PathOf(d, c).names))
    ensures Last(PathOf(d, c).names) == LastEntry(d, c).name
  {
  }

  lemma SameNameSameInode(d: Disk, c1: seq<nat>, c2: seq<nat>)
    requires Forest(d) && Chain(d, c1) && Chain(d, c2) && |c1| > 1 && |c2| > 1
    requires Last(Init(c1)) == Last(Init(c2)) && LastEntry(d, c1).name == LastEntry(d, c2).name
    ensures Last(c1) == Last(c2)
  {
  }

  // ---------------------------------------------------------------- the effect of an extraction

  /** The entry's mode agrees with what its inode holds, and a symlink has a usable target. */
  predicate GoodEntry(d: Disk, e: Entry) {
    e.ino in d ==>
      && (e.mode.DirType? <==> d[e.ino].DirData?)
      && (!e.mode.DirType? <==> d[e.ino].FileData?)
      && (e.mode.SymlinkType? ==> d[e.ino].contents != [] && 0 !in d[e.ino].contents)
  }

  ghost predicate GoodDirs(d: Disk, s: set<nat>) {
    forall p, i :: p in s && HasEntry(d, p, i) ==> GoodEntry(d, EntryAt(d, p, i))
  }

  ghost function Removed(d: Disk, s: set<nat>, remove: bool): set<nat> {
    set x | x in s && x in d && (remove || d[x].FileData?)
  }

  ghost predicate SavesVia(d: Disk, s: set<nat>, c: seq<nat>, p: LostPath, v: Saved) {
    && RootedChain(d, c) && Last(c) in s && d[Last(c)].FileData? && PathOf(d, c) == p
    && match ModeOf(d, c)
       case RegType => v == Saved(Regular, d[Last(c)].contents)
       case SymlinkType => v == Saved(Symlink, d[Last(c)].contents)
       case _ => false
  }

  /** Extracting the inodes s saves v at p. */
  ghost predicate Saves(d: Disk, s: set<nat>, p: LostPath, v: Saved) {
    exists c :: SavesVia(d, s, c, p, v)
  }

  ghost predicate Holds(lost: Lost, p: LostPath, v: Saved) {
    p in lost && lost[p] == v
  }

  /** The inodes s have been extracted: exactly what had to go is gone, exactly what had to be saved is saved. */
  ghost predicate Extracted(w: Store, w': Store, d: Disk, s: set<nat>, remove: bool) {
    && w'.files == w.files - Removed(d, s, remove)
    && (forall p, v :: Holds(w'.lost, p, v) <==> Holds(w.lost, p, v) || Saves(d, s, p, v))
  }

  /** Everything saved so far came from a file that is no longer in the store. */
  ghost predicate SavedAreGone(w: Store, d: Disk) {
    forall p :: p in w.lost ==>
      exists c: seq<nat> :: SavedFrom(w, d, c, p)
  }

  ghost predicate SavedFrom(w: Store, d: Disk, c: seq<nat>, p: LostPath) {
    RootedChain(d, c) && PathOf(d, c) == p && Last(c) !in w.files && d[Last(c)].FileData?
  }

  lemma ExtractedThen(w: Store, w1: Store, w2: Store, d: Disk, s1: set<nat>, s2: set<nat>, remove: bool)
    requires Extracted(w, w1, d, s1, remove) && Extracted(w1, w2, d, s2, remove)
    ensures Extracted(w, w2, d, s1 + s2, remove)
  {
    assert Removed(d, s1 + s2, remove) == Removed(d, s1, remove) + Removed(d, s2, remove);
    forall p, v
      ensures Saves(d, s1 + s2, p, v) <==> Saves(d, s1, p, v) || Saves(d, s2, p, v)
    {
      if Saves(d, s1 + s2, p, v) {
        var c :| SavesVia(d, s1 + s2, c, p, v);
        assert SavesVia(d, s1, c, p, v) || SavesVia(d, s2, c, p, v);
      }
      if Saves(d, s1, p, v) {
        var c :| SavesVia(d, s1, c, p, v);
        assert SavesVia(d, s1 + s2, c, p, v);
      }
      if Saves(d, s2, p, v) {
        var c :| SavesVia(d, s2, c, p, v);
        assert SavesVia(d, s1 + s2, c, p, v);
      }
    }
  }

  lemma SavedAreGoneAfter(w: Store, w': Store, d: Disk, s: set<nat>, remove: bool)
    requires Extracted(w, w', d, s, remove) && SavedAreGone(w, d)
    ensures SavedAreGone(w', d)
  {
    forall p | p in w'.lost
      ensures exists c: seq<nat> :: SavedFrom(w', d, c, p)
    {
      assert Holds(w'.lost, p, w'.lost[p]);
      if Holds(w.lost, p, w'.lost[p]) {
        var c: seq<nat> :| SavedFrom(w, d, c, p);
        assert SavedFrom(w', d, c, p);
      } else {
        var c: seq<nat> :| SavesVia(d, s, c, p, w'.lost[p]);
        assert Last(c) in Removed(d, s, remove);
        assert SavedFrom(w', d, c, p);
      }
    }
  }

  /** Saved files are never in the way of the next one. */
  lemma NothingInTheWay(w: Store, d: Disk, c: seq<nat>)
    requires Forest(d) && SavedAreGone(w, d) && RootedChain(d, c) && Last(c) in w.files
    ensures PathOf(d, c) !in w.lost && !BelowSavedFile(w.lost, PathOf(d, c))
  {
    var p := PathOf(d, c);
    if p in w.lost {
      var c': seq<nat> :| SavedFrom(w, d, c', p);
      PathOfInjective(d, c, c');
    }
    forall n | 0 <= n < |p.names|
      ensures LostPath(p.head, p.names[..n]) !in w.lost
    {
      if LostPath(p.head, p.names[..n]) in w.lost {
        var c': seq<nat> :| SavedFrom(w, d, c', LostPath(p.head, p.names[..n]));
        NamePrefixIsChainPrefix(d, c, c', n);
      }
    }
  }

  lemma InnerIsDir(d: Disk, c: seq<nat>, n: nat)
    requires Chain(d, c) && n < |c| - 1
    ensures c[n] in d && d[c[n]].DirData?
  {
    ChainPrefix(d, c, n + 2);
    assert Last(Init(c[..n + 2])) == c[n];
  }

  /** An inode saved at a directory position of another's path is a directory on its chain. */
  lemma NamePrefixIsChainPrefix(d: Disk, c: seq<nat>, c': seq<nat>, n: nat)
    requires Forest(d) && Chain(d, c) && Chain(d, c') && n < |c| - 1
    requires PathOf(d, c') == LostPath(c[0], PathOf(d, c).names[..n])
    ensures d[Last(c')].DirData?
  {
    PathOfPrefix(d, c, n + 1);
    PathOfInjective(d, c[..n + 1], c');
    InnerIsDir(d, c, n);
  }

  lemma ExtractFileEffect(w: Store, d: Disk, c: seq<nat>, remove: bool)
    requires Extracting(w, d, c) && SavedAreGone(w, d) && Last(c) in w.files && !ModeOf(d, c).DirType?
    ensures var r := ExtractFile(w, Last(c), PathOf(d, c), ModeOf(d, c));
            && (r.Ok? <==> d[Last(c)].FileData? &&
                           (ModeOf(d, c).SymlinkType? ==> d[Last(c)].contents != [] && 0 !in d[Last(c)].contents))
            && (r.Ok? ==> Extracted(w, r.value, d, {Last(c)}, remove))
  {
    hide Forest, Chain, PathOf, ModeOf, SavedAreGone, BelowSavedFile;
    NothingInTheWay(w, d, c);
    var r := ExtractFile(w, Last(c), PathOf(d, c), ModeOf(d, c));
    if r.Ok? {
      forall p, v
        ensures Holds(r.value.lost, p, v) <==> Holds(w.lost, p, v) || Saves(d, {Last(c)}, p, v)
      {
        SavesOnly(d, c, p, v);
      }
    }
  }

  /** What the file at the end of c alone is saved as. */
  lemma SavesOnly(d: Disk, c: seq<nat>, p: LostPath, v: Saved)
    requires Forest(d) && RootedChain(d, c)
    ensures Saves(d, {Last(c)}, p, v) <==> SavesVia(d, {Last(c)}, c, p, v)
  {
    hide Forest, PathOf, ModeOf;
    if c' :| SavesVia(d, {Last(c)}, c', p, v) {
      ChainUnique(d, c, c');
    }
  }

  /** The inodes below the entries of Last(path) from index k on. */
  ghost function UnderFrom(d: Disk, path: seq<nat>, k: nat): set<nat>
    requires path != []
  {
    set x | x in d && exists j :: j >= k && HasEntry(d, Last(path), j) && x in Under(d, path + [EntryAt(d, Last(path), j).ino])
  }

  lemma UnderFromStep(d: Disk, path: seq<nat>, k: nat)
    requires Forest(d) && RootedChain(d, path) && HasEntry(d, Last(path), k)
    ensures var s := Under(d, path + [EntryAt(d, Last(path), k).ino]);
            UnderFrom(d, path, k) == s + UnderFrom(d, path, k + 1) && s !! UnderFrom(d, path, k + 1)
  {
    var y := EntryAt(d, Last(path), k).ino;
    forall x | x in Under(d, path + [y]) && x in UnderFrom(d, path, k + 1)
      ensures false
    {
      var j :| j >= k + 1 && HasEntry(d, Last(path), j) && x in Under(d, path + [EntryAt(d, Last(path), j).ino]);
      var z := EntryAt(d, Last(path), j).ino;
      UnderPresent(d, path + [y], x);
      UnderMeet(d, path + [y], path + [z], x);
    }
  }

  lemma UnderIsUnderFrom(d: Disk, path: seq<nat>)
    requires Forest(d) && RootedChain(d, path)
    ensures Under(d, path) == {Last(path)} + UnderFrom(d, path, 0) && Last(path) !in UnderFrom(d, path, 0)
  {
    UnderSelf(d, path);
    forall x | x in Under(d, path) && x != Last(path)
      ensures x in UnderFrom(d, path, 0)
    {
      var i := UnderSplit(d, path, x);
    }
    forall x | x in UnderFrom(d, path, 0)
      ensures x in Under(d, path) && x != Last(path)
    {
      var j :| HasEntry(d, Last(path), j) && x in Under(d, path + [EntryAt(d, Last(path), j).ino]);
      UnderChild(d, path, EntryAt(d, Last(path), j).ino);
      UnderStrict(d, path, EntryAt(d, Last(path), j).ino);
    }
  }

  /** A file inode has nothing below it. */
  lemma UnderFile(d: Disk, c: seq<nat>)
    requires Forest(d) && RootedChain(d, c) && d[Last(c)].FileData?
    ensures Under(d, c) == {Last(c)}
  {
    UnderIsUnderFrom(d, c);
  }

  /** extract_dir raises unless every entry it meets is good, and otherwise extracts the whole subtree. */
  lemma {:induction false} ExtractDirEffect(w: Store, d: Disk, path: seq<nat>, remove: bool)
    requires Extracting(w, d, path) && SavedAreGone(w, d) && Under(d, path) <= w.files.Keys
    ensures var r := ExtractDir(w, d, path, PathOf(d, path), remove);
            && (r.Ok? <==> d[Last(path)].DirData? && GoodDirs(d, Under(d, path)))
            && (r.Ok? ==> Extracted(w, r.value, d, Under(d, path), remove))
    decreases NotYetOn(d, path), 1, 0
  {
    hide Forest, Extracted, SavedAreGone;
    UnderIsUnderFrom(d, path);
    if d[Last(path)].DirData? {
      ExtractEntriesEffect(w, d, path, remove, 0);
      var r := ExtractEntries(w, d, path, PathOf(d, path), remove, 0);
      if r.Ok? {
        ExtractedDirItself(w, r.value, d, UnderFrom(d, path, 0), Last(path), remove);
        assert UnderFrom(d, path, 0) + {Last(path)} == Under(d, path);
      }
      assert GoodDirs(d, Under(d, path)) <==> GoodFrom(d, path, 0);
    }
  }

  /** The last step of extract_dir: unlink the directory when asked to. */
  lemma ExtractedDirItself(w: Store, w1: Store, d: Disk, s: set<nat>, x: nat, remove: bool)
    requires Extracted(w, w1, d, s, remove) && x in d && d[x].DirData? && x in w.files && x !in s
    ensures x in w1.files
    ensures var w2 := if remove then w1.(files := w1.files - {x}) else w1;
            Extracted(w, w2, d, s + {x}, remove)
  {
    var w2 := if remove then w1.(files := w1.files - {x}) else w1;
    assert forall p, v :: !Saves(d, {x}, p, v);
    ExtractedThen(w, w1, w2, d, s, {x}, remove);
  }

  lemma {:induction false} ExtractEntryEffect(w: Store, d: Disk, path: seq<nat>, remove: bool, k: nat)
    requires Extracting(w, d, path) && SavedAreGone(w, d) && HasEntry(d, Last(path), k)
    requires Under(d, path + [EntryAt(d, Last(path), k).ino]) <= w.files.Keys
    ensures var e := EntryAt(d, Last(path), k);
            var s := Under(d, path + [e.ino]);
            var r := ExtractEntry(w, d, path, PathOf(d, path), remove, k);
            && (r.Ok? <==> GoodEntry(d, e) && GoodDirs(d, s))
            && (r.Ok? ==> Extracted(w, r.value, d, s, remove))
    decreases NotYetOn(d, path), 0, 0
  {
    var e := EntryAt(d, Last(path), k);
    var c := path + [e.ino];
    if e.ino in d {
      EntryDecreases(d, path, k);
      PathOfChild(d, path, k);
      UnderSelf(d, c);
      if e.mode.DirType? {
        ExtractDirEffect(w, d, c, remove);
      } else {
        ExtractFileEffect(w, d, c, remove);
        if d[e.ino].FileData? {
          UnderFile(d, c);
        }
      }
    } else if x :| x in Under(d, c) {
      UnderPresent(d, c, x);
    }
  }

  ghost predicate GoodEntriesFrom(d: Disk, p: nat, k: nat) {
    forall j :: k <= j && HasEntry(d, p, j) ==> GoodEntry(d, EntryAt(d, p, j))
  }

  ghost predicate GoodFrom(d: Disk, path: seq<nat>, k: nat)
    requires path != []
  {
    GoodDirs(d, UnderFrom(d, path, k)) && GoodEntriesFrom(d, Last(path), k)
  }

  lemma GoodFromStep(d: Disk, path: seq<nat>, k: nat)
    requires Forest(d) && RootedChain(d, path) && HasEntry(d, Last(path), k)
    ensures var e := EntryAt(d, Last(path), k);
            GoodFrom(d, path, k) <==>
            GoodEntry(d, e) && GoodDirs(d, Under(d, path + [e.ino])) && GoodFrom(d, path, k + 1)
  {
    UnderFromStep(d, path, k);
  }

  lemma EntriesEnd(w: Store, d: Disk, path: seq<nat>, remove: bool)
    requires path != [] && Last(path) in d && d[Last(path)].DirData?
    ensures var n := |d[Last(path)].entries|;
            GoodFrom(d, path, n) && Extracted(w, w, d, UnderFrom(d, path, n), remove)
  {
    assert UnderFrom(d, path, |d[Last(path)].entries|) == {};
  }

  lemma EntriesNext(w: Store, w1: Store, d: Disk, path: seq<nat>, remove: bool, k: nat)
    requires Extracting(w, d, path) && SavedAreGone(w, d) && HasEntry(d, Last(path), k)
    requires UnderFrom(d, path, k) <= w.files.Keys
    requires Extracted(w, w1, d, Under(d, path + [EntryAt(d, Last(path), k).ino]), remove)
    ensures SavedAreGone(w1, d) && UnderFrom(d, path, k + 1) <= w1.files.Keys
  {
    UnderFromStep(d, path, k);
    SavedAreGoneAfter(w, w1, d, Under(d, path + [EntryAt(d, Last(path), k).ino]), remove);
  }

  lemma {:induction false} ExtractEntriesEffect(w: Store, d: Disk, path: seq<nat>, remove: bool, k: nat)
    requires Extracting(w, d, path) && SavedAreGone(w, d) && d[Last(path)].DirData?
    requires k <= |d[Last(path)].entries| && UnderFrom(d, path, k) <= w.files.Keys
    ensures var r := ExtractEntries(w, d, path, PathOf(d, path), remove, k);
            && (r.Ok? <==> GoodFrom(d, path, k))
            && (r.Ok? ==> Extracted(w, r.value, d, UnderFrom(d, path, k), remove))
    decreases NotYetOn(d, path), 0, |d[Last(path)].entries| - k
  {
    hide Forest, Extracted, SavedAreGone, UnderFrom, GoodFrom;
    if k == |d[Last(path)].entries| {
      EntriesEnd(w, d, path, remove);
    } else {
      var s := Under(d, path + [EntryAt(d, Last(path), k).ino]);
      UnderFromStep(d, path, k);
      GoodFromStep(d, path, k);
      ExtractEntryEffect(w, d, path, remove, k);
      var r := ExtractEntry(w, d, path, PathOf(d, path), remove, k);
      if r.Ok? {
        EntriesNext(w, r.value, d, path, remove, k);
        ExtractEntriesEffect(r.value, d, path, remove, k + 1);
        var r2 := ExtractEntries(r.value, d, path, PathOf(d, path), remove, k + 1);
        if r2.Ok? {
          ExtractedThen(w, r.value, r2.value, d, s, UnderFrom(d, path, k + 1), remove);
        }
      }
    }
  }
}
