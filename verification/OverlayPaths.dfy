/** Inode paths: upwards through the first parent entries, and downwards by name from the root. */
module OverlayPaths {
  import opened Common
  import opened OverlayGraph
  import opened Fsck

  datatype Lookup = Found(ino: nat) | NotMaterialized | LookupRaised

  // ---------------------------------------------------------------- paths as text

  /** What a directory entry may be called. */
  predicate IsName(s: string) {
    s != "" && '/' !in s && s != "."
  }

  function JoinPath(names: seq<string>): string
    requires names != []
  {
    if |names| == 1 then names[0] else JoinPath(Init(names)) + "/" + Last(names)
  }

  /** The parts of a relative path: pathlib drops empty parts and single dots. */
  function Parts(path: string): seq<string> {
    PartsFrom(path, "")
  }

  function Part(word: string): seq<string> {
    if word == "" || word == "." then [] else [word]
  }

  function PartsFrom(path: string, word: string): seq<string>
    decreases |path|
  {
    if path == "" then Part(word)
    else if path[0] == '/' then Part(word) + PartsFrom(path[1..], "")
    else PartsFrom(path[1..], word + [path[0]])
  }

  lemma {:induction false} PartsOfName(name: string, rest: string, word: string)
    requires '/' !in name
    ensures PartsFrom(name + rest, word) == PartsFrom(rest, word + name)
    decreases |name|
  {
    if name == "" {
      assert name + rest == rest && word + name == word;
    } else {
      var path := name + rest;
      assert path[0] == name[0] && path[1..] == name[1..] + rest;
      assert word + [name[0]] + name[1..] == word + name;
      PartsOfName(name[1..], rest, word + [name[0]]);
    }
  }

  lemma {:induction false} PartsConcat(path: string, rest: string, word: string)
    ensures PartsFrom(path + "/" + rest, word) == PartsFrom(path, word) + Parts(rest)
    decreases |path|
  {
    var whole := path + "/" + rest;
    if path == "" {
      assert whole == "/" + rest && whole[1..] == rest;
    } else {
      assert whole[0] == path[0] && whole[1..] == path[1..] + "/" + rest;
      if path[0] == '/' {
        PartsConcat(path[1..], rest, "");
      } else {
        PartsConcat(path[1..], rest, word + [path[0]]);
      }
    }
  }

  /** Joining names with slashes and splitting the result gives the names back. */
  lemma {:induction false} PartsOfJoined(names: seq<string>)
    requires names != [] && forall n :: n in names ==> IsName(n)
    ensures Parts(JoinPath(names)) == names
    decreases |names|
  {
    assert Last(names) in names;
    assert Last(names) + "" == Last(names) && "" + Last(names) == Last(names);
    PartsOfName(Last(names), "", "");
    if |names| > 1 {
      assert forall n :: n in Init(names) ==> n in names;
      PartsOfJoined(Init(names));
      PartsConcat(JoinPath(Init(names)), Last(names), "");
      assert names == Init(names) + [Last(names)];
    }
  }

  // ---------------------------------------------------------------- upwards

  /** c ends at x and follows first parents up to the first time the root is a parent. */
  ghost predicate ClimbsToRoot(d: Disk, order: seq<nat>, c: seq<nat>)
    decreases |c|
  {
    |c| > 1 && FirstParent(d, order, Last(c)).Some? && FirstParent(d, order, Last(c)).value.dir == Last(Init(c)) &&
    if |c| == 2 then c[0] == ROOT else Last(Init(c)) != ROOT && ClimbsToRoot(d, order, Init(c))
  }

  /** compute_path as a list of names; the chain is what makes the recursion end. */
  function ComputePath(d: Disk, order: seq<nat>, x: nat, ghost c: seq<nat>): (names: seq<string>)
    requires ClimbsToRoot(d, order, c) && Last(c) == x && Listing(d, order)
    ensures |names| == |c| - 1
    decreases |c|
  {
    var r := FirstParent(d, order, x).value;
    FirstParentLists(d, order, x);
    var name := EntryAt(d, r.dir, r.index).name;
    if r.dir == ROOT then [name] else ComputePath(d, order, r.dir, Init(c)) + [name]
  }

  lemma FirstParentLists(d: Disk, order: seq<nat>, x: nat)
    requires Listing(d, order) && FirstParent(d, order, x).Some?
    ensures var r := FirstParent(d, order, x).value; HasEntry(d, r.dir, r.index) && EntryAt(d, r.dir, r.index).ino == x
  {
    ParentsIn(d, order, x, Parents(d, order, x)[0]);
  }

  // ---------------------------------------------------------------- downwards

  /** The loop over a directory's entries: the entry with that name, otherwise whichever came last. */
  function Pick(entries: seq<Entry>, name: string): Option<Entry> {
    if entries == [] then None
    else if entries[0].name == name || |entries| == 1 then Some(entries[0])
    else Pick(entries[1..], name)
  }

  predicate Hashed(e: Entry) {
    e.hash.Some? && e.hash.value != []
  }

  function LookupFrom(d: Disk, dir: nat, parts: seq<string>): Lookup
    requires parts != []
    decreases |parts|
  {
    if dir !in d || !d[dir].DirData? then LookupRaised
    else
      match Pick(d[dir].entries, parts[0])
      case None => LookupRaised
      case Some(e) =>
        if |parts| == 1 then Found(e.ino)
        else if !e.mode.DirType? then LookupRaised
        else if Hashed(e) then NotMaterialized
        else LookupFrom(d, e.ino, parts[1..])
  }

  method PickEntry(entries: seq<Entry>, name: string) returns (entry: Option<Entry>)
    ensures entry == Pick(entries, name)
  {
    entry := None;
    var i := 0;
    while i < |entries|
      invariant i <= |entries|
      invariant i == |entries| ==> entry == Pick(entries, name)
      invariant i < |entries| ==> Pick(entries, name) == Pick(entries[i..], name)
    {
      entry := Some(entries[i]);
      if entries[i].name == name {
        return;
      }
      i := i + 1;
    }
  }

  method LookupPath(d: Disk, parts: seq<string>) returns (r: Lookup)
    ensures r == if parts == [] then Found(ROOT) else LookupFrom(d, ROOT, parts)
  {
    if parts == [] {
      return Found(ROOT);
    }
    var dir, index := ROOT, 0;
    while true
      invariant index < |parts| && LookupFrom(d, ROOT, parts) == LookupFrom(d, dir, parts[index..])
      decreases |parts| - index
    {
      if dir !in d || !d[dir].DirData? {
        return LookupRaised;
      }
      var entry := PickEntry(d[dir].entries, parts[index]);
      index := index + 1;
      if entry.None? {
        return LookupRaised;
      }
      if index >= |parts| {
        return Found(entry.value.ino);
      }
      if !entry.value.mode.DirType? {
        return LookupRaised;
      }
      if Hashed(entry.value) {
        return NotMaterialized;
      }
      dir := entry.value.ino;
    }
  }

  // ---------------------------------------------------------------- both ways

  /** Every directory entry strictly inside the chain is a materialized directory. */
  ghost predicate ThroughMaterialized(d: Disk, order: seq<nat>, c: seq<nat>)
    requires Listing(d, order) && ClimbsToRoot(d, order, c)
    decreases |c|
  {
    |c| > 2 ==>
      && ThroughMaterialized(d, order, Init(c))
      && LastStepIsDir(d, order, Last(Init(c)))
  }

  lemma {:induction false} PickNamed(entries: seq<Entry>, i: nat)
    requires i < |entries| && forall j, k :: 0 <= j < k < |entries| ==> entries[j].name != entries[k].name
    ensures Pick(entries, entries[i].name) == Some(entries[i])
  {
    if i == 0 {
    } else {
      assert entries[1..][i - 1] == entries[i];
      PickNamed(entries[1..], i - 1);
    }
  }

  /** The entry that a successful lookup ends at names a materialized directory. */
  ghost predicate LastEntryIsDir(d: Disk, dir: nat, parts: seq<string>)
    requires parts != [] && LookupFrom(d, dir, parts).Found?
    decreases |parts|
  {
    var e := Pick(d[dir].entries, parts[0]).value;
    if |parts| == 1 then e.mode.DirType? && !Hashed(e) else LastEntryIsDir(d, e.ino, parts[1..])
  }

  lemma {:induction false} LookupConcat(d: Disk, dir: nat, parts: seq<string>, last: string)
    requires parts != [] && LookupFrom(d, dir, parts).Found? && LastEntryIsDir(d, dir, parts)
    ensures var r := LookupFrom(d, LookupFrom(d, dir, parts).ino, [last]);
            && LookupFrom(d, dir, parts + [last]) == r
            && (r.Found? ==> LastEntryIsDir(d, dir, parts + [last]) == LastEntryIsDir(d, LookupFrom(d, dir, parts).ino, [last]))
    decreases |parts|
  {
    if |parts| == 1 {
      assert (parts + [last])[1..] == [last];
    } else {
      var e := Pick(d[dir].entries, parts[0]).value;
      LookupConcat(d, e.ino, parts[1..], last);
      assert (parts + [last])[1..] == parts[1..] + [last];
    }
  }

  lemma DistinctInDir(d: Disk, dir: nat)
    requires DistinctNames(d) && dir in d && d[dir].DirData?
    ensures forall j, k :: 0 <= j < k < |d[dir].entries| ==> d[dir].entries[j].name != d[dir].entries[k].name
  {
    forall j, k | 0 <= j < k < |d[dir].entries|
      ensures d[dir].entries[j].name != d[dir].entries[k].name
    {
      assert HasEntry(d, dir, j) && HasEntry(d, dir, k);
      assert EntryAt(d, dir, j) == d[dir].entries[j] && EntryAt(d, dir, k) == d[dir].entries[k];
    }
  }

  lemma PickFirstParent(d: Disk, order: seq<nat>, x: nat)
    requires Listing(d, order) && DistinctNames(d) && FirstParent(d, order, x).Some?
    ensures var r := FirstParent(d, order, x).value;
            HasEntry(d, r.dir, r.index) && Pick(d[r.dir].entries, EntryAt(d, r.dir, r.index).name) == Some(EntryAt(d, r.dir, r.index))
  {
    FirstParentLists(d, order, x);
    var r := FirstParent(d, order, x).value;
    DistinctInDir(d, r.dir);
    PickNamed(d[r.dir].entries, r.index);
  }

  /** Looking up the path computed for an inode finds that inode. */
  lemma {:induction false} UpThenDown(d: Disk, order: seq<nat>, c: seq<nat>)
    requires Listing(d, order) && DistinctNames(d) && ClimbsToRoot(d, order, c) && ThroughMaterialized(d, order, c)
    ensures var names := ComputePath(d, order, Last(c), c);
            && LookupFrom(d, ROOT, names) == Found(Last(c))
            && (LastStepIsDir(d, order, Last(c)) ==> LastEntryIsDir(d, ROOT, names))
    decreases |c|
  {
    PickFirstParent(d, order, Last(c));
    FirstParentLists(d, order, Last(c));
    if |c| > 2 {
      UpThenDown(d, order, Init(c));
      var r := FirstParent(d, order, Last(c)).value;
      LookupConcat(d, ROOT, ComputePath(d, order, Last(Init(c)), Init(c)), EntryAt(d, r.dir, r.index).name);
    }
  }

  ghost predicate LastStepIsDir(d: Disk, order: seq<nat>, x: nat)
    requires Listing(d, order) && FirstParent(d, order, x).Some?
  {
    FirstParentLists(d, order, x);
    var r := FirstParent(d, order, x).value;
    EntryAt(d, r.dir, r.index).mode.DirType? && (EntryAt(d, r.dir, r.index).hash == None || EntryAt(d, r.dir, r.index).hash == Some([]))
  }

  /** The same through the text of the path, which compute_path builds and lookup_path takes apart. */
  lemma TextUpThenDown(d: Disk, order: seq<nat>, c: seq<nat>)
    requires Listing(d, order) && DistinctNames(d) && ClimbsToRoot(d, order, c) && ThroughMaterialized(d, order, c)
    requires forall p, i :: HasEntry(d, p, i) ==> IsName(EntryAt(d, p, i).name)
    ensures var names := ComputePath(d, order, Last(c), c);
            Parts(JoinPath(names)) != [] && LookupFrom(d, ROOT, Parts(JoinPath(names))) == Found(Last(c))
  {
    UpThenDown(d, order, c);
    PathNames(d, order, c);
    PartsOfJoined(ComputePath(d, order, Last(c), c));
  }

  lemma {:induction false} PathNames(d: Disk, order: seq<nat>, c: seq<nat>)
    requires Listing(d, order) && ClimbsToRoot(d, order, c)
    requires forall p, i :: HasEntry(d, p, i) ==> IsName(EntryAt(d, p, i).name)
    ensures forall n :: n in ComputePath(d, order, Last(c), c) ==> IsName(n)
    decreases |c|
  {
    FirstParentLists(d, order, Last(c));
    if |c| > 2 {
      PathNames(d, order, Init(c));
    }
  }

  /**
   One name of a path: it leads to its entry; if that is not the last name, the lookup fails unless the entry is a
   directory, is undecided if the directory has a hash that is not empty, and goes on in it otherwise.
   */
  lemma LookupStep(d: Disk, dir: nat, i: nat, parts: seq<string>)
    requires HasEntry(d, dir, i) && DistinctNames(d) && parts != [] && parts[0] == EntryAt(d, dir, i).name
    ensures var e, r := EntryAt(d, dir, i), LookupFrom(d, dir, parts);
            && (|parts| == 1 ==> r == Found(e.ino))
            && (|parts| > 1 && !e.mode.DirType? ==> r == LookupRaised)
            && (|parts| > 1 && e.mode.DirType? ==>
                  match e.hash
                  case Some(hash) => r == if hash != [] then NotMaterialized else LookupFrom(d, e.ino, parts[1..])
                  case None => r == LookupFrom(d, e.ino, parts[1..]))
  {
    DistinctInDir(d, dir);
    PickNamed(d[dir].entries, i);
  }

  /** A lookup starts in a directory that can be read, or fails. */
  lemma LookupNeedsDirectory(d: Disk, dir: nat, parts: seq<string>)
    requires parts != [] && (dir !in d || !d[dir].DirData?)
    ensures LookupFrom(d, dir, parts) == LookupRaised
  {
  }

  /** The parts of a path: those on both sides of a slash, none for nothing or a dot, and one for any other name. */
  lemma PartsExactly(a: string, b: string)
    ensures Parts(a + "/" + b) == Parts(a) + Parts(b)
    ensures '/' !in a ==> Parts(a) == if a == "" || a == "." then [] else [a]
  {
    PartsConcat(a, b, "");
    if '/' !in a {
      PartsOfName(a, "", "");
      assert a + "" == a && "" + a == a;
    }
  }

  // ---------------------------------------------------------------- names that are not there

  predicate Absent(d: Disk, dir: nat, name: string) {
    dir in d && d[dir].DirData? && forall e :: e in d[dir].entries ==> e.name != name
  }

  lemma {:induction false} PickAbsent(entries: seq<Entry>, name: string)
    requires entries != [] && forall e :: e in entries ==> e.name != name
    ensures Pick(entries, name) == Some(Last(entries))
  {
    assert entries[0] in entries;
    if |entries| > 1 {
      PickAbsent(entries[1..], name);
    }
  }

  /**
   A name that a directory lacks: at the end of a path it is an error exactly if the directory is empty, and is
   otherwise answered with the last entry; before the end the lookup goes on in the last entry, so it is an error
   exactly if there is none, or that entry is no directory, or the rest of the path fails there.
   */
  lemma AbsentNameFindsLastEntry(d: Disk, dir: nat, parts: seq<string>)
    requires parts != [] && Absent(d, dir, parts[0])
    ensures var entries, r := d[dir].entries, LookupFrom(d, dir, parts);
            && (|parts| == 1 ==> r == if entries == [] then LookupRaised else Found(Last(entries).ino))
            && (|parts| > 1 ==>
                  (r == LookupRaised <==>
                     || entries == [] || !Last(entries).mode.DirType?
                     || ((Last(entries).hash == None || Last(entries).hash == Some([])) && LookupFrom(d, Last(entries).ino, parts[1..]) == LookupRaised)))
  {
    if d[dir].entries != [] {
      PickAbsent(d[dir].entries, parts[0]);
    }
  }

  /** It is as if the name of the last entry had been given. */
  lemma AbsentNameIsLastName(d: Disk, dir: nat, parts: seq<string>)
    requires parts != [] && Absent(d, dir, parts[0]) && d[dir].entries != [] && DistinctNames(d)
    ensures LookupFrom(d, dir, parts) == LookupFrom(d, dir, [Last(d[dir].entries).name] + parts[1..])
  {
    var entries := d[dir].entries;
    PickAbsent(entries, parts[0]);
    DistinctInDir(d, dir);
    PickNamed(entries, |entries| - 1);
    assert ([Last(entries).name] + parts[1..])[1..] == parts[1..];
  }

  lemma {:induction false} LookupThrough(d: Disk, dir: nat, parts: seq<string>, rest: seq<string>)
    requires parts != [] && rest != [] && LookupFrom(d, dir, parts).Found? && LastEntryIsDir(d, dir, parts)
    ensures LookupFrom(d, dir, parts + rest) == LookupFrom(d, LookupFrom(d, dir, parts).ino, rest)
    decreases |parts|
  {
    if |parts| == 1 {
      assert (parts + rest)[1..] == rest;
    } else {
      var e := Pick(d[dir].entries, parts[0]).value;
      LookupThrough(d, e.ino, parts[1..], rest);
      assert (parts + rest)[1..] == parts[1..] + rest;
    }
  }

  /** The same anywhere in a path, after parts that lead to a materialized directory. */
  lemma AbsentNameAnywhere(d: Disk, parts: seq<string>, rest: seq<string>)
    requires parts != [] && LookupFrom(d, ROOT, parts).Found? && LastEntryIsDir(d, ROOT, parts) && DistinctNames(d)
    requires rest != [] && Absent(d, LookupFrom(d, ROOT, parts).ino, rest[0])
    ensures var entries := d[LookupFrom(d, ROOT, parts).ino].entries;
            LookupFrom(d, ROOT, parts + rest) ==
            if entries == [] then LookupRaised else LookupFrom(d, ROOT, parts + ([Last(entries).name] + rest[1..]))
  {
    var dir := LookupFrom(d, ROOT, parts).ino;
    LookupThrough(d, ROOT, parts, rest);
    if d[dir].entries != [] {
      LookupThrough(d, ROOT, parts, [Last(d[dir].entries).name] + rest[1..]);
      AbsentNameIsLastName(d, dir, rest);
    }
  }
}
