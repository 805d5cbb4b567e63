/** The scanner and parser as an object with a moving index, and the loops of the printer. */
module EnvironmentFileParser {
  import opened Common
  import opened EnvironmentFile

  // ---------------------------------------------------------------- runs of plain bytes

  lemma {:induction false} SpanUntilStep(s: Bytes, stops: set<Byte>)
    ensures var n := SpanUntil(s, stops);
            (n < |s| ==> s[n] in stops) && forall i :: 0 <= i < n ==> s[i] !in stops
  {
    if s != [] && s[0] !in stops {
      SpanUntilStep(s[1..], stops);
    }
  }

  lemma {:induction false} InQuotesSpan(s: Bytes, q: Byte)
    requires q != BACKSLASH
    ensures var n := SpanUntil(s, {BACKSLASH, q});
            InQuotes(s, q) == var r := InQuotes(s[n..], q); r.(read := Before(s[..n], r.read))
  {
    var n := SpanUntil(s, {BACKSLASH, q});
    if n == 0 {
      assert s[n..] == s && s[..n] == [];
      assert forall r: Read :: Before([], r) == r;
    } else {
      InQuotesSpan(s[1..], q);
      assert s[1..][n - 1..] == s[n..] && [s[0]] + s[1..][..n - 1] == s[..n];
      BeforeBefore([s[0]], s[1..][..n - 1], InQuotes(s[n..], q).read);
    }
  }

  const LINE_STOPS: set<Byte> := ESCAPES + NEWLINES + WHITESPACE

  lemma {:induction false} UnquotedSpan(s: Bytes)
    ensures var n := SpanUntil(s, LINE_STOPS); Unquoted(s) == Before(s[..n], Unquoted(s[n..]))
  {
    var n := SpanUntil(s, LINE_STOPS);
    if n == 0 {
      assert s[n..] == s && s[..n] == [];
      BeforeNothing(Unquoted(s));
    } else {
      UnquotedSpan(s[1..]);
      assert s[1..][n - 1..] == s[n..] && [s[0]] + s[1..][..n - 1] == s[..n];
      BeforeBefore([s[0]], s[1..][..n - 1], Unquoted(s[n..]));
    }
  }

  lemma {:induction false} CommentSpan(s: Bytes)
    ensures AfterComment(s) == AfterComment(s[SpanUntil(s, ESCAPES + NEWLINES)..])
  {
    var n := SpanUntil(s, ESCAPES + NEWLINES);
    if n == 0 {
      assert s[n..] == s;
    } else {
      CommentSpan(s[1..]);
      assert s[1..][n - 1..] == s[n..];
    }
  }

  lemma BeforeNothing(r: Read)
    ensures Before([], r) == r
  {
    assert [] + r.value == r.value;
  }

  lemma BeforeBefore(a: Bytes, b: Bytes, r: Read)
    ensures Before(a, Before(b, r)) == Before(a + b, r)
  {
    assert a + (b + r.value) == a + b + r.value;
  }

  /** What one turn of the loop inside a quotation finds. */
  lemma QuotationTurn(s: Bytes, q: Byte, out: Bytes)
    requires q != BACKSLASH
    ensures var n := SpanUntil(s, {BACKSLASH, q});
            var t := s[n..];
            var r := InQuotes(s, q);
            && (t == [] || (t[0] == BACKSLASH && |t| == 1) ==> r == QuotedRead(Read(s[..n], []), false))
            && (t != [] && t[0] != BACKSLASH ==> t[0] == q && r == QuotedRead(Read(s[..n], t[1..]), true))
            && (|t| > 1 && t[0] == BACKSLASH ==>
                  var r' := InQuotes(t[2..], q);
                  r.closed == r'.closed && Before(out, r.read) == Before(out + s[..n] + Escaped(t[1]), r'.read))
  {
    var n := SpanUntil(s, {BACKSLASH, q});
    var t := s[n..];
    InQuotesSpan(s, q);
    SpanUntilStep(s, {BACKSLASH, q});
    assert s[..n] + [] == s[..n];
    if |t| > 1 && t[0] == BACKSLASH {
      BeforeBefore(s[..n], Escaped(t[1]), InQuotes(t[2..], q).read);
      BeforeBefore(out, s[..n] + Escaped(t[1]), InQuotes(t[2..], q).read);
      assert out + (s[..n] + Escaped(t[1])) == out + s[..n] + Escaped(t[1]);
    }
  }

  /** In a quotation that stands for want, after out: value has been read and s is still to come. */
  ghost predicate QuotationSoFar(out: Bytes, want: QuotedRead, value: Bytes, s: Bytes, q: Byte) {
    var r := InQuotes(s, q);
    want.closed == r.closed && Before(out, want.read) == Before(value, r.read)
  }

  /** The quotation is over: it stood for value after out, and rest follows. */
  ghost predicate QuotationDone(out: Bytes, want: QuotedRead, value: Bytes, rest: Bytes, closed: bool) {
    closed == want.closed && value == out + want.read.value && rest == want.read.rest
  }

  lemma QuotationStep(out: Bytes, want: QuotedRead, value: Bytes, s: Bytes, q: Byte)
    requires q != BACKSLASH && QuotationSoFar(out, want, value, s, q)
    ensures var n := SpanUntil(s, {BACKSLASH, q});
            var t, value' := s[n..], value + s[..n];
            && (t == [] || (t[0] == BACKSLASH && |t| == 1) ==> QuotationDone(out, want, value', [], false))
            && (t != [] && t[0] != BACKSLASH ==> t[0] == q && QuotationDone(out, want, value', t[1..], true))
            && (|t| > 1 && t[0] == BACKSLASH ==> QuotationSoFar(out, want, value' + Escaped(t[1]), t[2..], q))
  {
    hide InQuotes, SpanUntil;
    QuotationTurn(s, q, value);
  }

  /** The same two for the rest of a line. */
  ghost predicate LineSoFar(out: Bytes, want: Read, value: Bytes, s: Bytes) {
    Before(out, want) == Before(value, Unquoted(s))
  }

  ghost predicate LineDone(out: Bytes, want: Read, value: Bytes, rest: Bytes) {
    value == out + want.value && rest == want.rest
  }

  lemma LineStep(out: Bytes, want: Read, value: Bytes, s: Bytes)
    requires LineSoFar(out, want, value, s)
    ensures var n := SpanUntil(s, LINE_STOPS);
            var t, value' := s[n..], value + s[..n];
            && (t == [] || (t[0] == BACKSLASH && |t| == 1) ==> LineDone(out, want, value', []))
            && (t != [] ==> t[0] in LINE_STOPS)
            && (t != [] && t[0] in NEWLINES ==> LineDone(out, want, value', t[1..]))
            && (|t| > 1 && t[0] == BACKSLASH ==> LineSoFar(out, want, value' + Escaped(t[1]), t[2..]))
            && (t != [] && t[0] in WHITESPACE ==>
                  var k := SpanOf(t, WHITESPACE);
                  if k == |t| || t[k] in NEWLINES then LineDone(out, want, value', t[k..])
                  else LineSoFar(out, want, value' + t[..k], t[k..]))
  {
    hide Unquoted, SpanUntil, SpanOf;
    LineTurn(s, value);
  }

  /** What one turn of the loop over an unquoted value finds. */
  lemma LineTurn(s: Bytes, out: Bytes)
    ensures var n := SpanUntil(s, LINE_STOPS);
            var t := s[n..];
            var r := Unquoted(s);
            && (t == [] || (t[0] == BACKSLASH && |t| == 1) ==> r == Read(s[..n], []))
            && (t != [] ==> t[0] in LINE_STOPS)
            && (t != [] && t[0] in NEWLINES ==> r == Read(s[..n], t[1..]))
            && (|t| > 1 && t[0] == BACKSLASH ==> Before(out, r) == Before(out + s[..n] + Escaped(t[1]), Unquoted(t[2..])))
            && (t != [] && t[0] in WHITESPACE ==>
                  var k := SpanOf(t, WHITESPACE);
                  if k == |t| || t[k] in NEWLINES then r == Read(s[..n], t[k..])
                  else Before(out, r) == Before(out + s[..n] + t[..k], Unquoted(t[k..])))
  {
    var n := SpanUntil(s, LINE_STOPS);
    var t := s[n..];
    UnquotedSpan(s);
    SpanUntilStep(s, LINE_STOPS);
    assert s[..n] + [] == s[..n];
    BeforeBefore(out, s[..n], Unquoted(t));
    if |t| > 1 && t[0] == BACKSLASH {
      BeforeBefore(out + s[..n], Escaped(t[1]), Unquoted(t[2..]));
    } else if t != [] && t[0] in WHITESPACE {
      var k := SpanOf(t, WHITESPACE);
      BeforeBefore(out + s[..n], t[..k], Unquoted(t[k..]));
    }
  }

  lemma CommentTurn(s: Bytes)
    ensures var t := s[SpanUntil(s, ESCAPES + NEWLINES)..];
            && (t == [] || (t[0] == BACKSLASH && |t| == 1) ==> AfterComment(s) == [])
            && (t != [] && t[0] != BACKSLASH ==> t[0] in NEWLINES && AfterComment(s) == t[1..])
            && (|t| > 1 && t[0] == BACKSLASH ==> AfterComment(s) == AfterComment(t[2..]))
  {
    CommentSpan(s);
    SpanUntilStep(s, ESCAPES + NEWLINES);
  }

  class Parser {
    const input: Bytes
    var index: nat

    constructor (input: Bytes)
      ensures this.input == input && index == 0
    {
      this.input, index := input, 0;
    }

    ghost predicate Valid()
      reads this
    {
      index <= |input|
    }

    ghost function Rest(): (s: Bytes)
      requires Valid()
      reads this
    {
      input[index..]
    }

    predicate AtEof()
      reads this
    {
      index == |input|
    }

    /** None when scan_one_byte raises ValueError. */
    method ScanOneByte() returns (c: Option<Byte>)
      requires Valid()
      modifies this`index
      ensures Valid()
      ensures old(Rest()) == [] ==> c == None && Rest() == []
      ensures old(Rest()) != [] ==> c == Some(old(Rest())[0]) && Rest() == old(Rest())[1..]
    {
      if AtEof() {
        return None;
      }
      c := Some(input[index]);
      index := index + 1;
    }

    method PeekOneByte() returns (c: Option<Byte>)
      requires Valid()
      ensures c == if Rest() == [] then None else Some(Rest()[0])
    {
      if AtEof() {
        return None;
      }
      return Some(input[index]);
    }

    method ScanWhileAny(bytes: set<Byte>) returns (scanned: Bytes)
      requires Valid()
      modifies this`index
      ensures Valid()
      ensures var n := SpanOf(old(Rest()), bytes); scanned == old(Rest())[..n] && Rest() == old(Rest())[n..]
    {
      var begin := index;
      ghost var s := Rest();
      while !AtEof()
        invariant begin <= index <= |input| && SpanOf(s, bytes) == index - begin + SpanOf(Rest(), bytes)
        decreases |input| - index
      {
        if input[index] !in bytes {
          break;
        }
        assert Rest()[1..] == input[index + 1..];
        index := index + 1;
      }
      return input[begin..index];
    }

    method ScanUntilAny(stops: set<Byte>) returns (scanned: Bytes)
      requires Valid()
      modifies this`index
      ensures Valid()
      ensures var n := SpanUntil(old(Rest()), stops); scanned == old(Rest())[..n] && Rest() == old(Rest())[n..]
    {
      var begin := index;
      ghost var s := Rest();
      while !AtEof()
        invariant begin <= index <= |input| && SpanUntil(s, stops) == index - begin + SpanUntil(Rest(), stops)
        decreases |input| - index
      {
        if input[index] in stops {
          break;
        }
        assert Rest()[1..] == input[index + 1..];
        index := index + 1;
      }
      return input[begin..index];
    }

    method SkipWhitespace()
      requires Valid()
      modifies this`index
      ensures Valid() && Rest() == SkipSpaces(old(Rest()))
    {
      var _ := ScanWhileAny(WHITESPACE);
    }

    /** The byte after a backslash, or nothing when that byte is a line break. */
    method ScanEscaped(ghost t: Bytes) returns (bytes: Bytes)
      requires Valid() && |t| > 1 && Rest() == t[1..]
      modifies this`index
      ensures Valid() && bytes == Escaped(t[1]) && Rest() == t[2..]
    {
      var c := ScanOneByte();
      bytes := [];
      if c.value !in NEWLINES {
        bytes := [c.value];
      }
    }

    /** The inner loop over one quotation; closed is false when the input ended first. */
    method ParseQuotation(q: Byte, out: Bytes) returns (value: Bytes, closed: bool)
      requires Valid() && q != BACKSLASH
      modifies this`index
      ensures Valid()
      ensures QuotationDone(out, InQuotes(old(Rest()), q), value, Rest(), closed)
    {
      hide InQuotes, SpanUntil, QuotationDone, Escaped;
      value := out;
      ghost var want := InQuotes(Rest(), q);
      assert QuotationSoFar(out, want, value, Rest(), q);
      hide QuotationSoFar;
      while !AtEof()
        invariant Valid() && QuotationSoFar(out, want, value, Rest(), q)
        decreases |input| - index
      {
        QuotationStep(out, want, value, Rest(), q);
        var scanned := ScanUntilAny({BACKSLASH, q});
        value := value + scanned;
        if AtEof() {
          return value, false;
        }
        ghost var t := Rest();
        var c := ScanOneByte();
        if c.value == BACKSLASH {
          if AtEof() {
            return value, false;
          }
          var bytes := ScanEscaped(t);
          value := value + bytes;
        } else {
          assert c.value == q;
          return value, true;
        }
      }
      AtTheEnd(out, want, value, q);
      return value, false;
    }

    method ParseQuotedEntryValue(out: Bytes) returns (value: Bytes)
      requires Valid()
      modifies this`index
      ensures Valid()
      ensures var r := Quoted(old(Rest())); value == out + r.value && Rest() == r.rest
    {
      hide InQuotes, SkipSpaces;
      value := out;
      ghost var want := Quoted(Rest());
      while !AtEof()
        invariant Valid() && Before(out, want) == Before(value, Quoted(Rest()))
        decreases |input| - index
      {
        ghost var s := Rest();
        var c := PeekOneByte();
        if c.value !in QUOTES {
          return value;
        }
        var _ := ScanOneByte();
        var closed: bool;
        ghost var sofar := value;
        value, closed := ParseQuotation(c.value, value);
        if !closed {
          return value;
        }
        SkipWhitespace();
        BeforeBefore(sofar, InQuotes(s[1..], s[0]).read.value, Quoted(Rest()));
      }
    }

    /** The spaces that start with c, and whether the line ends after them. */
    method ScanSpaces(c: Byte, ghost t: Bytes) returns (spaces: Bytes, trailing: bool)
      requires Valid() && t != [] && c == t[0] && Rest() == t[1..] && c in WHITESPACE
      modifies this`index
      ensures Valid()
      ensures var k := SpanOf(t, WHITESPACE);
              spaces == t[..k] && Rest() == t[k..] && trailing == (k == |t| || t[k] in NEWLINES)
      ensures |Rest()| < |t|
    {
      SpaceThenMore(t);
      var more := ScanWhileAny(WHITESPACE);
      spaces := [c] + more;
      var next := PeekOneByte();
      trailing := AtEof() || next.value in NEWLINES;
    }

    method ParseUnquotedEntryValue(out: Bytes) returns (value: Bytes)
      requires Valid()
      modifies this`index
      ensures Valid()
      ensures LineDone(out, Unquoted(old(Rest())), value, Rest())
    {
      hide Unquoted, SpanUntil, SpanOf, LineDone, Escaped;
      value := out;
      ghost var want := Unquoted(Rest());
      assert LineSoFar(out, want, value, Rest());
      hide LineSoFar;
      while !AtEof()
        invariant Valid() && LineSoFar(out, want, value, Rest())
        decreases |input| - index
      {
        LineStep(out, want, value, Rest());
        var scanned := ScanUntilAny(LINE_STOPS);
        value := value + scanned;
        if AtEof() {
          return value;
        }
        ghost var t := Rest();
        var c := ScanOneByte();
        if c.value in ESCAPES {
          if AtEof() {
            return value;
          }
          var bytes := ScanEscaped(t);
          value := value + bytes;
        } else if c.value in NEWLINES {
          return value;
        } else {
          assert c.value in WHITESPACE;
          var spaces, trailing := ScanSpaces(c.value, t);
          if trailing {
            return value;
          }
          value := value + spaces;
        }
      }
      LineAtTheEnd(out, want, value);
    }

    method ParseEntryValue() returns (value: Bytes)
      requires Valid()
      modifies this`index
      ensures Valid()
      ensures var r := Value(old(Rest())); value == r.value && Rest() == r.rest
    {
      hide Quoted, Unquoted;
      value := ParseQuotedEntryValue([]);
      value := ParseUnquotedEntryValue(value);
    }

    method ParseComment()
      requires Valid() && Rest() != [] && Rest()[0] in COMMENTS
      modifies this`index
      ensures Valid() && Rest() == AfterComment(old(Rest())[1..])
    {
      hide AfterComment, SpanUntil;
      var c := ScanOneByte();
      assert c.value in COMMENTS;
      ghost var want := AfterComment(Rest());
      while !AtEof()
        invariant Valid() && want == AfterComment(Rest())
        decreases |input| - index
      {
        CommentTurn(Rest());
        var _ := ScanUntilAny(ESCAPES + NEWLINES);
        if AtEof() {
          return;
        }
        ghost var t := Rest();
        c := ScanOneByte();
        if c.value in ESCAPES {
          if AtEof() {
            return;
          }
          var _ := ScanOneByte();
          assert Rest() == t[2..];
        } else {
          assert c.value in NEWLINES;
          return;
        }
      }
      CommentTurn(Rest());
    }

    method ParseEntryNameAndEqualSign() returns (name: Option<Bytes>)
      requires Valid() && Rest() != []
      modifies this`index
      ensures Valid()
      ensures var r := Name(old(Rest())); name == r.name && Rest() == r.rest
    {
      ghost var s := Rest();
      var first := ScanOneByte();
      ghost var n := SpanUntil(Rest(), NAME_STOPS);
      SpanUntilStep(Rest(), NAME_STOPS);
      var more := ScanUntilAny(NAME_STOPS);
      assert [first.value] + more == s[..1 + n] && Rest() == s[1 + n..];
      if AtEof() {
        return None;
      }
      var c := ScanOneByte();
      if c.value in NEWLINES {
        return None;
      }
      assert c.value == EQUALS;
      return Some(Strip([first.value] + more));
    }

    /** Reads one entry, comment or blank line, and always moves forward. */
    method ParseEntry() returns (entry: Option<Pair>)
      requires Valid() && Rest() != []
      modifies this`index
      ensures Valid() && index > old(index)
      ensures var r := ReadEntry(old(Rest())); entry == r.entry && Rest() == r.rest
    {
      hide SkipSpaces, Name, Value, AfterComment, ValidPair;
      ghost var s := Rest();
      SkipWhitespace();
      assert |ReadEntry(s).rest| < |s|;
      if AtEof() {
        return None;
      }
      var c := PeekOneByte();
      if c.value in COMMENTS {
        ParseComment();
        return None;
      } else if c.value in NEWLINES {
        var _ := ScanOneByte();
        return None;
      }
      var name := ParseEntryNameAndEqualSign();
      if name.None? {
        return None;
      }
      SkipWhitespace();
      var value := ParseEntryValue();
      var valid := IsValidEntry(Pair(name.value, value));
      if !valid {
        return None;
      }
      return Some(Pair(name.value, value));
    }

    method ParseEntries() returns (entries: seq<Pair>)
      requires Valid()
      modifies this`index
      ensures Valid() && AtEof() && entries == Entries(old(Rest()))
    {
      hide ReadEntry;
      entries := [];
      ghost var want := Entries(Rest());
      while !AtEof()
        invariant Valid() && want == entries + Entries(Rest())
        decreases |input| - index
      {
        ghost var r := ReadEntry(Rest());
        var entry := ParseEntry();
        Regroup(entries, if r.entry.Some? then [r.entry.value] else [], Entries(r.rest));
        if entry.Some? {
          entries := entries + [entry.value];
        }
      }
      assert entries + [] == entries;
    }
  }

  lemma AtTheEnd(out: Bytes, want: QuotedRead, value: Bytes, q: Byte)
    requires QuotationSoFar(out, want, value, [], q)
    ensures QuotationDone(out, want, value, [], false)
  {
    assert value + [] == value;
  }

  lemma LineAtTheEnd(out: Bytes, want: Read, value: Bytes)
    requires LineSoFar(out, want, value, [])
    ensures LineDone(out, want, value, [])
  {
    assert value + [] == value;
  }

  lemma SpaceThenMore(t: Bytes)
    requires t != [] && t[0] in WHITESPACE
    ensures var n := SpanOf(t[1..], WHITESPACE);
            SpanOf(t, WHITESPACE) == 1 + n && t[..1 + n] == [t[0]] + t[1..][..n] && t[1 + n..] == t[1..][n..]
  {
  }

  method IsValidEntry(e: Pair) returns (valid: bool)
    ensures valid == ValidPair(e)
  {
    if e.name == [] || IsDigit(e.name[0]) {
      return false;
    }
    for i := 0 to |e.name|
      invariant forall j :: 0 <= j < i ==> NameByte(e.name[j])
    {
      var c := e.name[i];
      if c in WHITESPACE || c in NEWLINES || c < 0x20 {
        return false;
      }
      if c < 0x80 && !IsNameCharacter(c) {
        return false;
      }
    }
    for i := 0 to |e.value|
      invariant forall j :: 0 <= j < i ==> ValueByte(e.value[j])
    {
      var c := e.value[i];
      if c == RETURN || (c < 0x20 && c != NEWLINE && c != TAB) {
        return false;
      }
    }
    return true;
  }

  /** Reading a file: total, and equal to the meaning given byte by byte. */
  method LoadFile(content: Bytes) returns (entries: seq<Pair>)
    ensures entries == Loads(content)
  {
    var scanner := new Parser(content);
    assert scanner.Rest() == content;
    var truncated := scanner.ScanUntilAny({0});
    var parser := new Parser(truncated);
    assert parser.Rest() == truncated;
    entries := parser.ParseEntries();
  }

  method EscapeValue(value: Bytes) returns (out: Bytes)
    ensures out == [QUOTE] + Escape(value) + [QUOTE]
  {
    out := [QUOTE];
    for i := 0 to |value|
      invariant [QUOTE] + Escape(value) == out + Escape(value[i..])
    {
      assert value[i..][1..] == value[i + 1..];
      if value[i] == BACKSLASH || value[i] == QUOTE {
        assert out + Escape(value[i..]) == out + [BACKSLASH, value[i]] + Escape(value[i + 1..]);
        out := out + [BACKSLASH, value[i]];
      } else {
        assert out + Escape(value[i..]) == out + [value[i]] + Escape(value[i + 1..]);
        out := out + [value[i]];
      }
    }
    out := out + [QUOTE];
  }

  method DumpFile(variables: seq<Pair>) returns (r: Outcome<Bytes>)
    ensures r == Dumps(variables)
  {
    var output := [];
    var i := 0;
    while i < |variables|
      invariant i <= |variables| && output == PrintAll(variables[..i])
      invariant forall j :: 0 <= j < i ==> ValidPair(variables[j])
    {
      assert Init(variables[..i + 1]) == variables[..i];
      var valid := IsValidEntry(variables[i]);
      if !valid {
        return Raised;
      }
      var escaped := EscapeValue(variables[i].value);
      output := output + (variables[i].name + [EQUALS] + escaped + [NEWLINE]);
      i := i + 1;
    }
    assert variables[..i] == variables;
    return Ok(output);
  }
}
