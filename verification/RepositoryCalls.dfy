/**
 Calls of add_repository made one after the other: which of them are refused, and what the configuration holds in the
 end.
 */
module RepositoryCalls {
  import opened Common

  datatype Repository = Repository(scmType: string, path: string)

  type Config = map<string, Repository>

  /** One call of add_repository. */
  datatype Add = Add(name: string, repo: Repository)

  /** A finished call, in the order in which calls took effect. */
  datatype Done = Done(add: Add, ok: bool)

  // ---------------------------------------------------------------- the list of repositories

  /** str.split(" "): the text between single spaces, empty words included. */
  function Split(s: string): seq<string> {
    SplitFrom(s, "")
  }

  function SplitFrom(s: string, word: string): (words: seq<string>)
    ensures words != []
    decreases |s|
  {
    if s == "" then [word]
    else if s[0] == ' ' then [word] + SplitFrom(s[1..], "")
    else SplitFrom(s[1..], word + [s[0]])
  }

  /** get_repository_list keeps the sections whose header has two words, the first of them "repository". */
  predicate IsListed(name: string) {
    var header := Split("repository " + name);
    |header| == 2 && header[0] == "repository"
  }

  /** What add_repository finds out about a name; ListedIfNoSpace says that this is what the list tells. */
  predicate Exists(config: Config, name: string) {
    name in config && ' ' !in name
  }

  lemma {:induction false} FirstWord(s: string, rest: string, word: string)
    requires ' ' !in s
    ensures SplitFrom(s + " " + rest, word) == [word + s] + Split(rest)
    decreases |s|
  {
    var whole := s + " " + rest;
    if s == "" {
      assert whole[1..] == rest && word + s == word;
    } else {
      assert whole[0] == s[0] && whole[1..] == s[1..] + " " + rest;
      FirstWord(s[1..], rest, word + [s[0]]);
      assert word + [s[0]] + s[1..] == word + s;
    }
  }

  lemma {:induction false} OneWord(s: string, word: string)
    ensures |SplitFrom(s, word)| == 1 <==> ' ' !in s
    decreases |s|
  {
    if s == "" {
    } else if s[0] == ' ' {
    } else {
      assert s == [s[0]] + s[1..];
      OneWord(s[1..], word + [s[0]]);
    }
  }

  /** A name with a space in it is never found in the list. */
  lemma ListedIfNoSpace(config: Config, name: string)
    ensures IsListed(name) <==> ' ' !in name
    ensures Exists(config, name) <==> name in config && IsListed(name)
  {
    hide SplitFrom;
    assert "repository " + name == "repository" + " " + name;
    FirstWord("repository", name, "");
    assert "" + "repository" == "repository";
    OneWord(name, "");
  }

  // ---------------------------------------------------------------- one call at a time

  /** add_repository with nobody else around. */
  function SerialAdd(config: Config, add: Add): (Config, bool) {
    if Exists(config, add.name) then (config, false) else (config[add.name := add.repo], true)
  }

  /** The finished calls, made one after the other, produce this configuration and these results. */
  ghost predicate Serial(start: Config, done: seq<Done>, config: Config) {
    if done == [] then config == start
    else exists before ::
      Serial(start, Init(done), before) && SerialAdd(before, Last(done).add) == (config, Last(done).ok)
  }

  // ---------------------------------------------------------------- what a series of calls does

  ghost predicate Called(done: seq<Done>, name: string) {
    exists i :: 0 <= i < |done| && done[i].add.name == name
  }

  /** Nothing disappears and nothing appears by itself, and what a name without a space stands for never changes. */
  lemma {:induction false} SerialKeepsAll(start: Config, done: seq<Done>, config: Config, name: string)
    requires Serial(start, done, config)
    ensures name in config <==> name in start || Called(done, name)
    ensures name in start && ' ' !in name ==> config[name] == start[name]
    decreases |done|
  {
    if done == [] {
    } else {
      var before :| Serial(start, Init(done), before) && SerialAdd(before, Last(done).add) == (config, Last(done).ok);
      assert forall i :: 0 <= i < |Init(done)| ==> Init(done)[i] == done[i];
      assert Called(done, name) <==> Called(Init(done), name) || Last(done).add.name == name;
      SerialKeepsAll(start, Init(done), before, name);
    }
  }

  /** A call is refused exactly if its name has no space and was there before or was used by an earlier call. */
  lemma {:induction false} RefusedExactlyIfKnown(start: Config, done: seq<Done>, config: Config, j: nat)
    requires Serial(start, done, config) && j < |done|
    ensures var name := done[j].add.name;
            done[j].ok <==> ' ' in name || (name !in start && !Called(done[..j], name))
    decreases |done|
  {
    var before :| Serial(start, Init(done), before) && SerialAdd(before, Last(done).add) == (config, Last(done).ok);
    if j == |done| - 1 {
      assert done[..j] == Init(done);
      SerialKeepsAll(start, Init(done), before, done[j].add.name);
    } else {
      assert Init(done)[..j] == done[..j];
      RefusedExactlyIfKnown(start, Init(done), before, j);
    }
  }

  /** A second call for one name is refused exactly if the name has no space in it. */
  lemma SerialOncePerName(start: Config, done: seq<Done>, config: Config, i: nat, j: nat)
    requires Serial(start, done, config) && i < j < |done| && done[i].add.name == done[j].add.name
    ensures !done[j].ok <==> ' ' !in done[j].add.name
  {
    RefusedExactlyIfKnown(start, done, config, j);
    assert done[..j][i] == done[i];
  }

  /** The last call with this name, if any, among those that took effect. */
  function LastOk(done: seq<Done>, name: string): Option<Repository> {
    if done == [] then None
    else if Last(done).ok && Last(done).add.name == name then Some(Last(done).add.repo)
    else LastOk(Init(done), name)
  }

  /** What a name stands for in the end: what the last call that took effect said, otherwise what it stood for before. */
  lemma {:induction false} LastCallCounts(start: Config, done: seq<Done>, config: Config, name: string)
    requires Serial(start, done, config)
    ensures match LastOk(done, name)
            case Some(repo) => name in config && config[name] == repo
            case None => (name in config <==> name in start) && (name in start ==> config[name] == start[name])
    decreases |done|
  {
    if done == [] {
    } else {
      var before :| Serial(start, Init(done), before) && SerialAdd(before, Last(done).add) == (config, Last(done).ok);
      LastCallCounts(start, Init(done), before, name);
    }
  }

  lemma {:induction false} LastOkIs(done: seq<Done>, name: string, i: nat)
    requires i < |done| && done[i].ok && done[i].add.name == name
    requires forall j :: i < j < |done| ==> !(done[j].ok && done[j].add.name == name)
    ensures LastOk(done, name) == Some(done[i].add.repo)
    decreases |done|
  {
    if i == |done| - 1 {
    } else {
      assert done[|done| - 1] == Last(done);
      LastOkIs(Init(done), name, i);
    }
  }

  /** A call took effect and something else is stored under its name in the end. */
  ghost predicate Overwritten(start: Config, done: seq<Done>, config: Config, i: nat) {
    && Serial(start, done, config) && i < |done| && done[i].ok
    && (done[i].add.name in config ==> config[done[i].add.name] != done[i].add.repo)
  }

  /** Without a space in the name a call that took effect stays. */
  lemma UnspacedIsKept(start: Config, done: seq<Done>, config: Config, i: nat)
    requires Serial(start, done, config) && i < |done| && done[i].ok && ' ' !in done[i].add.name
    ensures !Overwritten(start, done, config, i)
  {
    hide Serial;
    var name := done[i].add.name;
    forall j | i < j < |done| && done[j].add.name == name
      ensures !done[j].ok
    {
      SerialOncePerName(start, done, config, i, j);
    }
    LastOkIs(done, name, i);
    LastCallCounts(start, done, config, name);
  }

  /** Two calls with the same name and a space in it: both take effect, and the first repository is gone. */
  lemma SpacedIsOverwritten(start: Config, name: string, r1: Repository, r2: Repository)
    requires ' ' in name && r1 != r2
    ensures var done := [Done(Add(name, r1), true), Done(Add(name, r2), true)];
            Overwritten(start, done, start[name := r2], 0)
  {
    var first, done := [Done(Add(name, r1), true)], [Done(Add(name, r1), true), Done(Add(name, r2), true)];
    assert Init(first) == [] && Init(done) == first;
    assert Serial(start, [], start);
    assert SerialAdd(start, Last(first).add) == (start[name := r1], true);
    assert Serial(start, first, start[name := r1]);
    assert start[name := r1][name := r2] == start[name := r2];
    assert SerialAdd(start[name := r1], Last(done).add) == (start[name := r2], true);
  }

  /** In some series of calls one with this name takes effect and is overwritten later. */
  ghost predicate CanBeOverwritten(name: string) {
    exists start: Config, done: seq<Done>, config: Config, i: nat ::
      Overwritten(start, done, config, i) && done[i].add.name == name
  }

  /** A successful call can be overwritten by a later one exactly if its name has a space in it. */
  lemma OverwrittenExactlyIfSpaced(name: string)
    ensures CanBeOverwritten(name) <==> ' ' in name
  {
    if ' ' in name {
      var r1, r2 := Repository("git", "a"), Repository("git", "b");
      SpacedIsOverwritten(map[], name, r1, r2);
      var done := [Done(Add(name, r1), true), Done(Add(name, r2), true)];
      assert Overwritten(map[], done, map[][name := r2], 0) && done[0].add.name == name;
    }
    forall start: Config, done: seq<Done>, config: Config, i: nat | Overwritten(start, done, config, i) && done[i].add.name == name
      ensures ' ' in name
    {
      if ' ' !in name {
        UnspacedIsKept(start, done, config, i);
      }
    }
  }

  /** For example "my repo". */
  lemma MyRepoIsOverwritten(start: Config)
    ensures var a, b := Repository("git", "/a"), Repository("git", "/b");
            Overwritten(start, [Done(Add("my repo", a), true), Done(Add("my repo", b), true)], start["my repo" := b], 0)
  {
    var name := "my repo";
    assert name[2] == ' ';
    SpacedIsOverwritten(start, name, Repository("git", "/a"), Repository("git", "/b"));
  }
}
