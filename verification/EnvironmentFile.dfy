/**
 The EnvironmentFile= format of systemd.exec(5), read one byte at a time: the meaning of a file,
 how entries are printed, and the proofs that reading inverts printing.
 */
module EnvironmentFile {
  import opened Common

  const TAB: Byte := 9
  const NEWLINE: Byte := 10
  const RETURN: Byte := 13
  const SPACE: Byte := 32
  const QUOTE: Byte := 34
  const APOSTROPHE: Byte := 39
  const EQUALS: Byte := 61
  const BACKSLASH: Byte := 92

  const COMMENTS: set<Byte> := {35, 59}
  const ESCAPES: set<Byte> := {BACKSLASH}
  const NEWLINES: set<Byte> := {NEWLINE, RETURN}
  const QUOTES: set<Byte> := {APOSTROPHE, QUOTE}
  const WHITESPACE: set<Byte> := {SPACE, TAB}

  datatype Pair = Pair(name: Bytes, value: Bytes)

  // ---------------------------------------------------------------- which entries are valid

  predicate IsDigit(c: Byte) {
    48 <= c <= 57
  }

  predicate IsNameCharacter(c: Byte) {
    65 <= c <= 90 || 97 <= c <= 122 || IsDigit(c) || c == 95
  }

  predicate NameByte(c: Byte) {
    c !in WHITESPACE && c !in NEWLINES && c >= 0x20 && (c < 0x80 ==> IsNameCharacter(c))
  }

  predicate ValueByte(c: Byte) {
    c != RETURN && (c >= 0x20 || c == NEWLINE || c == TAB)
  }

  predicate ValidPair(e: Pair) {
    && e.name != [] && !IsDigit(e.name[0])
    && (forall i :: 0 <= i < |e.name| ==> NameByte(e.name[i]))
    && (forall i :: 0 <= i < |e.value| ==> ValueByte(e.value[i]))
  }

  // ---------------------------------------------------------------- the meaning of a file

  /** How many leading bytes are in the set. */
  function SpanOf(s: Bytes, bytes: set<Byte>): (n: nat)
    ensures n <= |s|
  {
    if s != [] && s[0] in bytes then 1 + SpanOf(s[1..], bytes) else 0
  }

  /** How many leading bytes come before the first one in the set. */
  function SpanUntil(s: Bytes, stops: set<Byte>): (n: nat)
    ensures n <= |s|
  {
    if s == [] || s[0] in stops then 0 else 1 + SpanUntil(s[1..], stops)
  }

  function SkipSpaces(s: Bytes): (rest: Bytes)
    ensures |rest| <= |s|
  {
    s[SpanOf(s, WHITESPACE)..]
  }

  /** A piece of input read: the bytes it stands for and what follows it. */
  datatype Read = Read(value: Bytes, rest: Bytes)

  function Before(prefix: Bytes, r: Read): Read {
    r.(value := prefix + r.value)
  }

  /** The byte after a backslash stands for itself, except that a line break vanishes. */
  function Escaped(c: Byte): Bytes {
    if c in NEWLINES then [] else [c]
  }

  datatype QuotedRead = QuotedRead(read: Read, closed: bool)

  /** The inside of a quotation, up to and over the closing quote. */
  function InQuotes(s: Bytes, q: Byte): (r: QuotedRead)
    ensures |r.read.rest| <= |s| && (!r.closed ==> r.read.rest == [])
  {
    if s == [] then QuotedRead(Read([], []), false)
    else if s[0] == BACKSLASH then
      if |s| == 1 then QuotedRead(Read([], []), false)
      else var r := InQuotes(s[2..], q); r.(read := Before(Escaped(s[1]), r.read))
    else if s[0] == q then QuotedRead(Read([], s[1..]), true)
    else var r := InQuotes(s[1..], q); r.(read := Before([s[0]], r.read))
  }

  /** Any number of quotations in a row, with spaces after each. */
  function Quoted(s: Bytes): (r: Read)
    ensures |r.rest| <= |s|
    decreases |s|
  {
    if s == [] || s[0] !in QUOTES then Read([], s)
    else
      var r := InQuotes(s[1..], s[0]);
      if r.closed then Before(r.read.value, Quoted(SkipSpaces(r.read.rest))) else Read(r.read.value, [])
  }

  /** The rest of the line; spaces before its end are dropped, and then the line break is left unread. */
  function Unquoted(s: Bytes): (r: Read)
    ensures |r.rest| <= |s|
  {
    if s == [] then Read([], [])
    else if s[0] == BACKSLASH then
      if |s| == 1 then Read([], []) else Before(Escaped(s[1]), Unquoted(s[2..]))
    else if s[0] in NEWLINES then Read([], s[1..])
    else if s[0] in WHITESPACE then
      var n := SpanOf(s, WHITESPACE);
      if n == |s| || s[n] in NEWLINES then Read([], s[n..]) else Before(s[..n], Unquoted(s[n..]))
    else Before([s[0]], Unquoted(s[1..]))
  }

  function Value(s: Bytes): (r: Read)
    ensures |r.rest| <= |s|
  {
    var r := Quoted(s);
    Before(r.value, Unquoted(r.rest))
  }

  /** What follows a comment, given what follows its first byte. */
  function AfterComment(s: Bytes): (rest: Bytes)
    ensures |rest| <= |s|
  {
    if s == [] then []
    else if s[0] == BACKSLASH then if |s| == 1 then [] else AfterComment(s[2..])
    else if s[0] in NEWLINES then s[1..]
    else AfterComment(s[1..])
  }

  function Strip(name: Bytes): Bytes {
    if name != [] && Last(name) in WHITESPACE then Strip(Init(name)) else name
  }

  datatype NameRead = NameRead(name: Option<Bytes>, rest: Bytes)

  const NAME_STOPS: set<Byte> := {EQUALS} + NEWLINES

  function Name(s: Bytes): (r: NameRead)
    requires s != []
    ensures |r.rest| < |s|
  {
    var n := 1 + SpanUntil(s[1..], NAME_STOPS);
    if n == |s| then NameRead(None, [])
    else if s[n] in NEWLINES then NameRead(None, s[n + 1..])
    else NameRead(Some(Strip(s[..n])), s[n + 1..])
  }

  datatype EntryRead = EntryRead(entry: Option<Pair>, rest: Bytes)

  function ReadEntry(s: Bytes): (r: EntryRead)
    requires s != []
    ensures |r.rest| < |s|
  {
    var t := SkipSpaces(s);
    if t == [] then EntryRead(None, [])
    else if t[0] in COMMENTS then EntryRead(None, AfterComment(t[1..]))
    else if t[0] in NEWLINES then EntryRead(None, t[1..])
    else
      var n := Name(t);
      if n.name.None? then EntryRead(None, n.rest)
      else
        var v := Value(SkipSpaces(n.rest));
        var e := Pair(n.name.value, v.value);
        EntryRead(if ValidPair(e) then Some(e) else None, v.rest)
  }

  function Entries(s: Bytes): seq<Pair>
    decreases |s|
  {
    if s == [] then []
    else
      var r := ReadEntry(s);
      (if r.entry.Some? then [r.entry.value] else []) + Entries(r.rest)
  }

  function UpToNull(s: Bytes): Bytes {
    s[..SpanUntil(s, {0})]
  }

  function Loads(s: Bytes): seq<Pair> {
    Entries(UpToNull(s))
  }

  // ---------------------------------------------------------------- printing

  function Escape(value: Bytes): Bytes {
    if value == [] then []
    else (if value[0] == BACKSLASH || value[0] == QUOTE then [BACKSLASH, value[0]] else [value[0]]) + Escape(value[1..])
  }

  function PrintPair(e: Pair): Bytes {
    e.name + [EQUALS] + ([QUOTE] + Escape(e.value) + [QUOTE]) + [NEWLINE]
  }

  function PrintAll(entries: seq<Pair>): Bytes {
    if entries == [] then [] else PrintAll(Init(entries)) + PrintPair(Last(entries))
  }

  predicate AllValid(entries: seq<Pair>) {
    forall i :: 0 <= i < |entries| ==> ValidPair(entries[i])
  }

  /** Printing raises on the first invalid entry. */
  function Dumps(entries: seq<Pair>): Outcome<Bytes> {
    if AllValid(entries) then Ok(PrintAll(entries)) else Raised
  }

  // ---------------------------------------------------------------- reading inverts printing

  lemma Cons(c: Byte, t: Bytes)
    ensures ([c] + t)[0] == c && ([c] + t)[1..] == t
  {
  }

  lemma EscapeCons(value: Bytes, t: Bytes)
    requires value != []
    ensures var rest := Escape(value[1..]) + t;
            Escape(value) + t ==
            if value[0] == BACKSLASH || value[0] == QUOTE then [BACKSLASH] + ([value[0]] + rest) else [value[0]] + rest
  {
  }

  lemma {:induction false} InQuotesOfEscaped(value: Bytes, t: Bytes)
    ensures InQuotes(Escape(value) + ([QUOTE] + t), QUOTE) == QuotedRead(Read(value, t), true)
  {
    if value == [] {
      Cons(QUOTE, t);
      assert Escape(value) + ([QUOTE] + t) == [QUOTE] + t;
    } else {
      InQuotesOfEscaped(value[1..], t);
      EscapeCons(value, [QUOTE] + t);
      var rest := Escape(value[1..]) + ([QUOTE] + t);
      assert [value[0]] + value[1..] == value;
      hide Escape;
      OneEscaped(value[0], rest, if value[0] == BACKSLASH || value[0] == QUOTE then [BACKSLASH] + ([value[0]] + rest) else [value[0]] + rest);
      hide InQuotes;
    }
  }

  lemma OneEscaped(c: Byte, rest: Bytes, s: Bytes)
    requires s == if c == BACKSLASH || c == QUOTE then [BACKSLASH] + ([c] + rest) else [c] + rest
    ensures InQuotes(s, QUOTE) == var r := InQuotes(rest, QUOTE); r.(read := Before([c], r.read))
  {
    Cons(c, rest);
    Cons(BACKSLASH, [c] + rest);
    assert ([BACKSLASH] + ([c] + rest))[2..] == rest;
  }

  lemma SkipNoSpaces(s: Bytes)
    requires s != [] && s[0] !in WHITESPACE
    ensures SkipSpaces(s) == s
  {
  }

  /** One closed quotation that is followed neither by spaces nor by another quotation. */
  lemma OneQuotation(s: Bytes, value: Bytes, t: Bytes)
    requires s != [] && s[0] == QUOTE && InQuotes(s[1..], QUOTE) == QuotedRead(Read(value, t), true)
    requires t != [] && t[0] !in WHITESPACE && t[0] !in QUOTES
    ensures Quoted(s) == Read(value, t)
  {
    hide InQuotes, SkipSpaces;
    SkipNoSpaces(t);
    assert value + [] == value;
  }

  lemma QuotedOfPrinted(value: Bytes, t: Bytes)
    requires t != [] && t[0] !in WHITESPACE && t[0] !in QUOTES
    ensures Quoted([QUOTE] + (Escape(value) + ([QUOTE] + t))) == Read(value, t)
  {
    hide Escape, InQuotes, Quoted;
    InQuotesOfEscaped(value, t);
    var u := Escape(value) + ([QUOTE] + t);
    Cons(QUOTE, u);
    OneQuotation([QUOTE] + u, value, t);
  }

  lemma ValueOfPrinted(value: Bytes, rest: Bytes)
    ensures Value([QUOTE] + (Escape(value) + ([QUOTE] + ([NEWLINE] + rest)))) == Read(value, rest)
  {
    hide Escape, Quoted;
    QuotedOfPrinted(value, [NEWLINE] + rest);
    Cons(NEWLINE, rest);
    assert Unquoted([NEWLINE] + rest) == Read([], rest);
    assert value + [] == value;
  }

  lemma {:induction false} SpanOfName(name: Bytes, t: Bytes)
    requires forall i :: 0 <= i < |name| ==> NameByte(name[i])
    ensures SpanUntil(name + [EQUALS] + t, NAME_STOPS) == |name|
  {
    var s := name + [EQUALS] + t;
    if name == [] {
    } else {
      assert s[0] == name[0] && s[1..] == name[1..] + [EQUALS] + t;
      SpanOfName(name[1..], t);
    }
  }

  lemma NameOfPrinted(name: Bytes, t: Bytes)
    requires name != [] && forall i :: 0 <= i < |name| ==> NameByte(name[i])
    ensures Name(name + [EQUALS] + t) == NameRead(Some(name), t)
  {
    var s := name + [EQUALS] + t;
    assert s[1..] == name[1..] + [EQUALS] + t;
    SpanOfName(name[1..], t);
    assert s[|name|] == EQUALS && s[..|name|] == name && s[|name| + 1..] == t;
    assert Strip(name) == name;
  }

  lemma PrintedShape(e: Pair, rest: Bytes)
    ensures PrintPair(e) + rest == e.name + [EQUALS] + ([QUOTE] + (Escape(e.value) + ([QUOTE] + ([NEWLINE] + rest))))
  {
  }

  lemma EntryFromParts(s: Bytes, e: Pair, t: Bytes, rest: Bytes)
    requires s != [] && NameByte(s[0]) && t != [] && t[0] == QUOTE && ValidPair(e)
    requires Name(s) == NameRead(Some(e.name), t) && Value(t) == Read(e.value, rest)
    ensures ReadEntry(s) == EntryRead(Some(e), rest)
  {
    hide Name, Value, SkipSpaces, ValidPair;
    SkipNoSpaces(s);
    SkipNoSpaces(t);
  }

  /** One printed entry is read back exactly, whatever follows it. */
  lemma EntryOfPrinted(e: Pair, rest: Bytes)
    requires ValidPair(e)
    ensures PrintPair(e) + rest != [] && ReadEntry(PrintPair(e) + rest) == EntryRead(Some(e), rest)
  {
    hide PrintPair, Value, Name, Escape, ReadEntry;
    var u := Escape(e.value) + ([QUOTE] + ([NEWLINE] + rest));
    PrintedShape(e, rest);
    NameOfPrinted(e.name, [QUOTE] + u);
    ValueOfPrinted(e.value, rest);
    EntryFromParts(PrintPair(e) + rest, e, [QUOTE] + u, rest);
  }

  lemma {:induction false} EntriesOfPrinted(entries: seq<Pair>, rest: Bytes)
    requires AllValid(entries)
    ensures Entries(PrintAll(entries) + rest) == entries + Entries(rest)
    decreases |entries|
  {
    hide Entries, PrintPair;
    if entries == [] {
      assert PrintAll(entries) + rest == rest;
    } else {
      var e := Last(entries);
      EntriesOfPrinted(Init(entries), PrintPair(e) + rest);
      OneEntryThenRest(e, rest);
      Regroup(PrintAll(Init(entries)), PrintPair(e), rest);
      assert entries == Init(entries) + [e];
      Regroup(Init(entries), [e], Entries(rest));
    }
  }

  lemma Regroup<T>(a: seq<T>, b: seq<T>, c: seq<T>)
    ensures a + b + c == a + (b + c)
  {
  }

  lemma OneEntryThenRest(e: Pair, rest: Bytes)
    requires ValidPair(e)
    ensures Entries(PrintPair(e) + rest) == [e] + Entries(rest)
  {
    hide PrintPair, ReadEntry;
    EntryOfPrinted(e, rest);
  }

  predicate NullFree(s: Bytes) {
    forall i :: 0 <= i < |s| ==> s[i] != 0
  }

  lemma {:induction false} EscapeNullFree(value: Bytes)
    requires NullFree(value)
    ensures NullFree(Escape(value))
  {
    if value == [] {
    } else {
      EscapeNullFree(value[1..]);
    }
  }

  lemma {:induction false} PrintedNullFree(entries: seq<Pair>)
    requires AllValid(entries)
    ensures NullFree(PrintAll(entries))
  {
    if entries == [] {
    } else {
      PrintedNullFree(Init(entries));
      EscapeNullFree(Last(entries).value);
    }
  }

  lemma {:induction false} UpToNullOfConcat(s: Bytes, rest: Bytes)
    requires NullFree(s)
    ensures UpToNull(s + rest) == s + UpToNull(rest)
  {
    if s == [] {
      assert s + rest == rest;
    } else {
      assert (s + rest)[0] == s[0] && (s + rest)[1..] == s[1..] + rest;
      UpToNullOfConcat(s[1..], rest);
    }
  }

  /**
   Printer and parser, with framing: for every list of entries, printing succeeds exactly when all are valid,
   and reading the output with anything after it gives those entries in order, then the entries of what follows.
   */
  lemma LoadsInvertsDumps(entries: seq<Pair>, rest: Bytes)
    ensures Dumps(entries).Ok? <==> AllValid(entries)
    ensures Dumps(entries).Ok? ==> Loads(Dumps(entries).value + rest) == entries + Loads(rest)
  {
    if AllValid(entries) {
      PrintedNullFree(entries);
      UpToNullOfConcat(PrintAll(entries), rest);
      EntriesOfPrinted(entries, UpToNull(rest));
    }
  }

  lemma {:induction false} EntriesAreValid(s: Bytes)
    ensures AllValid(Entries(s))
    decreases |s|
  {
    if s == [] {
    } else {
      EntriesAreValid(ReadEntry(s).rest);
    }
  }

  /** Whatever a file holds, what is read from it can be printed, and reading that gives the same entries. */
  lemma ReadPrintRead(s: Bytes)
    ensures Dumps(Loads(s)).Ok? && Loads(Dumps(Loads(s)).value) == Loads(s)
  {
    EntriesAreValid(UpToNull(s));
    LoadsInvertsDumps(Loads(s), []);
    var printed := Dumps(Loads(s)).value;
    assert printed + [] == printed && Loads(s) + Loads([]) == Loads(s);
  }

  /** Different lists of valid entries are printed differently. */
  lemma DumpsInjective(a: seq<Pair>, b: seq<Pair>)
    requires Dumps(a).Ok? && Dumps(a) == Dumps(b)
    ensures a == b
  {
    LoadsInvertsDumps(a, []);
    LoadsInvertsDumps(b, []);
    assert a + Loads([]) == a && b + Loads([]) == b;
  }
}
