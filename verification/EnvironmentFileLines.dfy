/**
 What every kind of line means, said of the bytes themselves: values with escapes, continuations, quotations and
 spaces, comments, blank lines and lines that are no entries.
 */
module EnvironmentFileLines {
  import opened Common
  import opened EnvironmentFile

  predicate Blank(c: Byte) {
    c == 32 || c == 9
  }

  predicate LineBreak(c: Byte) {
    c == 10 || c == 13
  }

  predicate Quote(c: Byte) {
    c == 34 || c == 39
  }

  predicate Blanks(s: Bytes) {
    forall i :: 0 <= i < |s| ==> Blank(s[i])
  }

  // ---------------------------------------------------------------- values as they are written

  /** One byte as it is; one byte after a backslash; a line break after a backslash. */
  datatype Atom = Plain(c: Byte) | Backslashed(c: Byte) | Continued(c: Byte)

  function Written(atoms: seq<Atom>): Bytes {
    if atoms == [] then []
    else (match atoms[0] case Plain(c) => [c] case Backslashed(c) => [92, c] case Continued(c) => [92, c]) + Written(atoms[1..])
  }

  /** A backslash is dropped, and a line break after a backslash is dropped with it. */
  function Meant(atoms: seq<Atom>): Bytes {
    if atoms == [] then []
    else (match atoms[0] case Plain(c) => [c] case Backslashed(c) => [c] case Continued(c) => []) + Meant(atoms[1..])
  }

  predicate Escaping(a: Atom) {
    (a.Backslashed? ==> !LineBreak(a.c)) && (a.Continued? ==> LineBreak(a.c))
  }

  /** What may stand between two quotes q. */
  predicate Quotable(atoms: seq<Atom>, q: Byte) {
    forall i :: 0 <= i < |atoms| ==> Escaping(atoms[i]) && (atoms[i].Plain? ==> atoms[i].c != q && atoms[i].c != 92)
  }

  /** What may stand unquoted; blanks are kept inside. */
  predicate Inside(atoms: seq<Atom>) {
    forall i :: 0 <= i < |atoms| ==> Escaping(atoms[i]) && (atoms[i].Plain? ==> !LineBreak(atoms[i].c) && atoms[i].c != 92)
  }

  predicate BlankAtom(a: Atom) {
    a.Plain? && Blank(a.c)
  }

  /** It ends with something other than a blank. */
  predicate EndsSolid(atoms: seq<Atom>) {
    atoms != [] ==> !BlankAtom(atoms[|atoms| - 1])
  }

  predicate Unquotable(atoms: seq<Atom>) {
    Inside(atoms) && EndsSolid(atoms) && (atoms != [] ==> !BlankAtom(atoms[0]) && !(atoms[0].Plain? && Quote(atoms[0].c)))
  }

  lemma WrittenCons(atoms: seq<Atom>, t: Bytes)
    requires atoms != []
    ensures var w := Written(atoms[1..]) + t;
            Written(atoms) + t == match atoms[0] case Plain(c) => [c] + w case Backslashed(c) => [92] + ([c] + w) case Continued(c) => [92] + ([c] + w)
  {
  }

  lemma TwoMore(a: Byte, b: Byte, t: Bytes)
    ensures ([a] + ([b] + t))[0] == a && ([a] + ([b] + t))[1] == b && ([a] + ([b] + t))[2..] == t
  {
  }

  lemma OneMore(a: Byte, t: Bytes)
    ensures ([a] + t)[0] == a && ([a] + t)[1..] == t
  {
  }

  lemma MeantBefore(atoms: seq<Atom>, tail: Bytes)
    requires atoms != []
    ensures Meant(atoms) + tail == (match atoms[0] case Plain(c) => [c] case Backslashed(c) => [c] case Continued(c) => []) + (Meant(atoms[1..]) + tail)
  {
  }

  // ---------------------------------------------------------------- quotations

  lemma OneQuotedAtom(a: Atom, rest: Bytes, s: Bytes, q: Byte)
    requires q != 92 && Escaping(a) && (a.Plain? ==> a.c != q && a.c != 92)
    requires s == if a.Plain? then [a.c] + rest else [92] + ([a.c] + rest)
    ensures var r := InQuotes(rest, q);
            InQuotes(s, q) == r.(read := Before(if a.Continued? then [] else [a.c], r.read))
  {
    OneMore(a.c, rest);
    TwoMore(92, a.c, rest);
  }

  /** A quotation is read as what it means, up to and over the closing quote. */
  lemma {:induction false} ClosedQuotation(atoms: seq<Atom>, q: Byte, t: Bytes)
    requires q != 92 && Quotable(atoms, q)
    ensures InQuotes(Written(atoms) + ([q] + t), q) == QuotedRead(Read(Meant(atoms), t), true)
  {
    OneMore(q, t);
    if atoms == [] {
      assert Written(atoms) + ([q] + t) == [q] + t;
    } else {
      var rest := Written(atoms[1..]) + ([q] + t);
      ClosedQuotation(atoms[1..], q, t);
      WrittenCons(atoms, [q] + t);
      hide Written;
      OneQuotedAtom(atoms[0], rest, if atoms[0].Plain? then [atoms[0].c] + rest else [92] + ([atoms[0].c] + rest), q);
      hide InQuotes;
      assert [] + Meant(atoms[1..]) == Meant(atoms[1..]);
    }
  }

  /** How the input ends: with nothing more, or with one backslash. */
  predicate AtEnd(t: Bytes) {
    t == [] || t == [92]
  }

  lemma {:induction false} OpenQuotation(atoms: seq<Atom>, q: Byte, t: Bytes)
    requires q != 92 && Quotable(atoms, q) && AtEnd(t)
    ensures InQuotes(Written(atoms) + t, q) == QuotedRead(Read(Meant(atoms), []), false)
  {
    if atoms == [] {
      assert Written(atoms) + t == t;
    } else {
      var rest := Written(atoms[1..]) + t;
      OpenQuotation(atoms[1..], q, t);
      WrittenCons(atoms, t);
      hide Written;
      OneQuotedAtom(atoms[0], rest, if atoms[0].Plain? then [atoms[0].c] + rest else [92] + ([atoms[0].c] + rest), q);
      hide InQuotes;
      assert [] + Meant(atoms[1..]) == Meant(atoms[1..]);
    }
  }

  /** A quotation and the blanks after it. */
  datatype Quotation = Quotation(q: Byte, atoms: seq<Atom>, after: Bytes)

  predicate Proper(qs: seq<Quotation>) {
    forall i :: 0 <= i < |qs| ==> Quote(qs[i].q) && Quotable(qs[i].atoms, qs[i].q) && Blanks(qs[i].after)
  }

  /** The quotations, followed by t. */
  function WithQuotations(qs: seq<Quotation>, t: Bytes): Bytes {
    if qs == [] then t else [qs[0].q] + (Written(qs[0].atoms) + ([qs[0].q] + (qs[0].after + WithQuotations(qs[1..], t))))
  }

  function QuotationsMeant(qs: seq<Quotation>): Bytes {
    if qs == [] then [] else Meant(qs[0].atoms) + QuotationsMeant(qs[1..])
  }

  predicate StartsBlank(s: Bytes) {
    s != [] && Blank(s[0])
  }

  lemma {:induction false} SkipsBlanks(sp: Bytes, t: Bytes)
    requires Blanks(sp) && !StartsBlank(t)
    ensures SpanOf(sp + t, WHITESPACE) == |sp| && SkipSpaces(sp + t) == t
  {
    if sp == [] {
      assert sp + t == t;
    } else {
      assert (sp + t)[0] == sp[0] && (sp + t)[1..] == sp[1..] + t;
      SkipsBlanks(sp[1..], t);
    }
    assert (sp + t)[|sp|..] == t;
  }

  /** One quotation at the front. */
  lemma OneQuotationFirst(qs: seq<Quotation>, t: Bytes, rest: Bytes)
    requires qs != [] && Proper(qs) && rest == WithQuotations(qs[1..], t) && !StartsBlank(rest)
    ensures Quoted(WithQuotations(qs, t)) == Before(Meant(qs[0].atoms), Quoted(rest))
  {
    hide InQuotes, SkipSpaces, Written, Meant, SpanOf;
    var q, tail := qs[0].q, qs[0].after + rest;
    ClosedQuotation(qs[0].atoms, q, tail);
    var u := Written(qs[0].atoms) + ([q] + tail);
    OneMore(q, u);
    SkipsBlanks(qs[0].after, rest);
  }

  lemma BeforeTwice(a: Bytes, b: Bytes, r: Read)
    ensures Before(a, Before(b, r)) == Before(a + b, r)
  {
    assert a + (b + r.value) == a + b + r.value;
  }

  lemma QuotationsStart(qs: seq<Quotation>, t: Bytes)
    requires Proper(qs) && !StartsBlank(t)
    ensures !StartsBlank(WithQuotations(qs, t))
    ensures qs != [] ==> WithQuotations(qs, t) != [] && WithQuotations(qs, t)[0] == qs[0].q
  {
  }

  /** Quotations in a row are read as what they mean, one after the other. */
  lemma {:induction false} AllQuotations(qs: seq<Quotation>, t: Bytes)
    requires Proper(qs) && !StartsBlank(t)
    ensures Quoted(WithQuotations(qs, t)) == Before(QuotationsMeant(qs), Quoted(t))
    decreases |qs|
  {
    if qs == [] {
      assert [] + Quoted(t).value == Quoted(t).value;
    } else {
      var rest := WithQuotations(qs[1..], t);
      AllQuotations(qs[1..], t);
      QuotationsStart(qs[1..], t);
      hide Quoted, WithQuotations, Meant;
      OneQuotationFirst(qs, t, rest);
      BeforeTwice(Meant(qs[0].atoms), QuotationsMeant(qs[1..]), Quoted(t));
    }
  }

  // ---------------------------------------------------------------- unquoted text

  /** How a line ends: with a line break and what follows it, or with the input. */
  datatype End = Break(c: Byte, rest: Bytes) | Eof

  function EndBytes(e: End): Bytes {
    match e
    case Break(c, rest) => [c] + rest
    case Eof => []
  }

  predicate ProperEnd(e: End) {
    e.Break? ==> LineBreak(e.c)
  }

  /** Of blanks before the end of a line nothing is kept, and after blanks the line break is still there to read. */
  lemma BlanksThenEnd(sp: Bytes, e: End)
    requires Blanks(sp) && ProperEnd(e)
    ensures Unquoted(sp + EndBytes(e)) == Read([], if sp == [] && e.Break? then e.rest else EndBytes(e))
  {
    hide SpanOf;
    var t, s := EndBytes(e), sp + EndBytes(e);
    assert !StartsBlank(t);
    SkipsBlanks(sp, t);
    if sp == [] {
      assert s == t;
      if e.Break? {
        OneMore(e.c, e.rest);
      }
    } else {
      assert s[0] == sp[0] && s[|sp|..] == t;
      assert e.Break? ==> s[|sp|] == e.c;
    }
  }

  /** A blank that is not at the end of the line is kept. */
  lemma BlankInside(s: Bytes)
    requires StartsBlank(s) && var n := SpanOf(s, WHITESPACE); n < |s| && !LineBreak(s[n])
    ensures Unquoted(s) == Before([s[0]], Unquoted(s[1..]))
  {
    hide Unquoted;
    var n := SpanOf(s, WHITESPACE);
    BlankRunTail(s);
    hide SpanOf;
    BlankRun(s, n);
    if n == 1 {
      assert s[..1] == [s[0]];
    } else {
      BlankRun(s[1..], n - 1);
      assert s[1..][n - 1..] == s[n..];
      assert [s[0]] + s[1..][..n - 1] == s[..n];
      BeforeTwice([s[0]], s[1..][..n - 1], Unquoted(s[n..]));
    }
  }

  lemma BlankRunTail(s: Bytes)
    requires StartsBlank(s)
    ensures SpanOf(s, WHITESPACE) == 1 + SpanOf(s[1..], WHITESPACE)
    ensures SpanOf(s, WHITESPACE) > 1 ==> StartsBlank(s[1..])
  {
    assert s[0] in WHITESPACE;
  }

  lemma BlankRun(s: Bytes, n: nat)
    requires StartsBlank(s) && n == SpanOf(s, WHITESPACE) && n < |s| && !LineBreak(s[n])
    ensures Unquoted(s) == Before(s[..n], Unquoted(s[n..]))
  {
    hide SpanOf;
    assert s[0] in WHITESPACE && s[0] != BACKSLASH && s[0] !in NEWLINES && s[n] !in NEWLINES;
  }

  lemma {:induction false} SolidFollows(atoms: seq<Atom>, t: Bytes)
    requires atoms != [] && Inside(atoms) && EndsSolid(atoms)
    ensures var s := Written(atoms) + t;
            var n := SpanOf(s, WHITESPACE);
            n < |s| && !LineBreak(s[n]) && s != [] && (s[0] == if atoms[0].Plain? then atoms[0].c else 92)
  {
    var rest := Written(atoms[1..]) + t;
    WrittenCons(atoms, t);
    OneMore(atoms[0].c, rest);
    OneMore(92, [atoms[0].c] + rest);
    if BlankAtom(atoms[0]) {
      assert |atoms| > 1;
      SolidFollows(atoms[1..], t);
      hide Written;
      var s := [atoms[0].c] + rest;
      assert SpanOf(s, WHITESPACE) == 1 + SpanOf(rest, WHITESPACE);
      assert s[1 + SpanOf(rest, WHITESPACE)] == rest[SpanOf(rest, WHITESPACE)];
    }
  }

  /** Unquoted text is read as what it means, and reading goes on after it. */
  lemma {:induction false} UnquotedText(atoms: seq<Atom>, t: Bytes)
    requires Inside(atoms) && EndsSolid(atoms)
    ensures Unquoted(Written(atoms) + t) == Before(Meant(atoms), Unquoted(t))
  {
    if atoms == [] {
      assert Written(atoms) + t == t && [] + Unquoted(t).value == Unquoted(t).value;
    } else {
      var rest := Written(atoms[1..]) + t;
      UnquotedText(atoms[1..], t);
      SolidFollows(atoms, t);
      WrittenCons(atoms, t);
      OneMore(atoms[0].c, rest);
      TwoMore(92, atoms[0].c, rest);
      OneAtom(atoms[0], rest, if atoms[0].Plain? then [atoms[0].c] + rest else [92] + ([atoms[0].c] + rest));
      hide Unquoted, Written;
      MeantBefore(atoms, Unquoted(t).value);
    }
  }

  lemma OneAtom(a: Atom, rest: Bytes, s: Bytes)
    requires Escaping(a) && (a.Plain? ==> !LineBreak(a.c) && a.c != 92)
    requires s == if a.Plain? then [a.c] + rest else [92] + ([a.c] + rest)
    requires BlankAtom(a) ==> var n := SpanOf(s, WHITESPACE); n < |s| && !LineBreak(s[n])
    ensures Unquoted(s) == Before(match a case Plain(c) => [c] case Backslashed(c) => [c] case Continued(c) => [], Unquoted(rest))
  {
    OneMore(a.c, rest);
    TwoMore(92, a.c, rest);
    if BlankAtom(a) {
      BlankInside(s);
    }
  }

  /** What is read after a value, blanks and the end of the line. */
  function Remaining(trail: Bytes, e: End): Bytes {
    if trail == [] && e.Break? then e.rest else EndBytes(e)
  }

  /** The whole value: quotations, then unquoted text. */
  function ValueBytes(qs: seq<Quotation>, atoms: seq<Atom>, trail: Bytes, e: End): Bytes {
    WithQuotations(qs, Written(atoms) + (trail + EndBytes(e)))
  }

  lemma AfterQuotations(atoms: seq<Atom>, trail: Bytes, e: End)
    requires Unquotable(atoms) && Blanks(trail) && ProperEnd(e) && (atoms == [] ==> trail == [])
    ensures var t := Written(atoms) + (trail + EndBytes(e));
            && !StartsBlank(t) && (t != [] ==> !Quote(t[0]))
            && Quoted(t) == Read([], t) && Unquoted(t) == Read(Meant(atoms), Remaining(trail, e))
  {
    hide Unquoted;
    var u := trail + EndBytes(e);
    var t := Written(atoms) + u;
    if atoms == [] {
      assert t == EndBytes(e);
    } else {
      SolidFollows(atoms, u);
    }
    UnquotedText(atoms, u);
    BlanksThenEnd(trail, e);
    assert Meant(atoms) + [] == Meant(atoms);
  }

  lemma WholeValue(qs: seq<Quotation>, atoms: seq<Atom>, trail: Bytes, e: End)
    requires Proper(qs) && Unquotable(atoms) && Blanks(trail) && ProperEnd(e) && (atoms == [] ==> trail == [])
    ensures !StartsBlank(ValueBytes(qs, atoms, trail, e))
    ensures Value(ValueBytes(qs, atoms, trail, e)) == Read(QuotationsMeant(qs) + Meant(atoms), Remaining(trail, e))
  {
    hide Quoted, Unquoted, WithQuotations, Written;
    var t := Written(atoms) + (trail + EndBytes(e));
    AfterQuotations(atoms, trail, e);
    AllQuotations(qs, t);
    QuotationsStart(qs, t);
    assert QuotationsMeant(qs) + [] == QuotationsMeant(qs);
  }

  // ---------------------------------------------------------------- names

  /** What stands before the equal sign: its first byte is taken whatever it is, but starts no other kind of line. */
  predicate NameText(name: Bytes) {
    && name != [] && !Blank(name[0]) && !LineBreak(name[0]) && name[0] != 35 && name[0] != 59
    && (forall i :: 0 < i < |name| ==> name[i] != 61 && !LineBreak(name[i]))
    && !Blank(name[|name| - 1])
  }

  lemma {:induction false} StripsBlanks(name: Bytes, sp: Bytes)
    requires Blanks(sp) && (name != [] ==> !Blank(Last(name)))
    ensures Strip(name + sp) == name
  {
    if sp == [] {
      assert name + sp == name;
    } else {
      assert Init(name + sp) == name + Init(sp) && Last(name + sp) == Last(sp);
      StripsBlanks(name, Init(sp));
    }
  }

  lemma {:induction false} SpanToStop(s: Bytes, t: Bytes)
    requires (forall i :: 0 <= i < |s| ==> s[i] != 61 && !LineBreak(s[i])) && (t != [] ==> t[0] == 61 || LineBreak(t[0]))
    ensures SpanUntil(s + t, NAME_STOPS) == |s|
  {
    if s == [] {
      assert s + t == t;
    } else {
      assert (s + t)[0] == s[0] && (s + t)[1..] == s[1..] + t;
      SpanToStop(s[1..], t);
    }
  }

  lemma NameIsRead(name: Bytes, sp: Bytes, t: Bytes)
    requires NameText(name) && Blanks(sp)
    ensures var s := (name + sp) + ([61] + t); s != [] && Name(s) == NameRead(Some(name), t)
  {
    hide Strip, SpanUntil;
    var full, u := name + sp, [61] + t;
    var s := full + u;
    OneMore(61, t);
    assert s[1..] == full[1..] + u;
    assert forall i :: 0 <= i < |full[1..]| ==> full[1..][i] == if i + 1 < |name| then name[i + 1] else sp[i + 1 - |name|];
    SpanToStop(full[1..], u);
    StripsBlanks(name, sp);
    assert s[|full|] == 61 && s[..|full|] == full && s[|full| + 1..] == t;
  }

  // ---------------------------------------------------------------- lines

  function IfValid(e: Pair): seq<Pair> {
    if ValidPair(e) then [e] else []
  }

  lemma {:induction false} RemainingEntries(trail: Bytes, e: End)
    requires ProperEnd(e)
    ensures Entries(Remaining(trail, e)) == Entries(if e.Break? then e.rest else [])
  {
    if e.Break? && trail != [] {
      BlankLine([], e);
      assert [] + EndBytes(e) == EndBytes(e);
    }
  }

  /** A blank line is nothing. */
  lemma BlankLine(sp: Bytes, e: End)
    requires Blanks(sp) && ProperEnd(e)
    ensures Entries(sp + EndBytes(e)) == Entries(if e.Break? then e.rest else [])
  {
    hide SpanOf, SkipSpaces;
    SkipsBlanks(sp, EndBytes(e));
    if e.Break? {
      OneMore(e.c, e.rest);
    }
    if sp == [] {
      assert sp + EndBytes(e) == EndBytes(e);
    }
  }

  lemma OneEntry(lead: Bytes, s: Bytes, name: Bytes, t: Bytes, value: Bytes, rest: Bytes)
    requires Blanks(lead) && s != [] && !Blank(s[0]) && !LineBreak(s[0]) && s[0] != 35 && s[0] != 59
    requires Name(s) == NameRead(Some(name), t) && Value(SkipSpaces(t)) == Read(value, rest)
    ensures Entries(lead + s) == IfValid(Pair(name, value)) + Entries(rest)
  {
    hide Name, Value, SkipSpaces, ValidPair, SpanOf;
    SkipsBlanks(lead, s);
  }

  /**
   A line with an equal sign: blanks before the name and on both sides of the equal sign do not count; the value is
   what the quotations mean and then what the unquoted text means, where a backslash stands for the byte after it, or
   for nothing before a line break; blanks at the end of the line do not count. The entry is taken exactly if it is
   valid, and what follows the line is read as if it stood alone.
   */
  lemma WrittenLine(lead: Bytes, name: Bytes, before: Bytes, after: Bytes, qs: seq<Quotation>, atoms: seq<Atom>, trail: Bytes, e: End)
    requires Blanks(lead) && NameText(name) && Blanks(before) && Blanks(after)
    requires Proper(qs) && Unquotable(atoms) && Blanks(trail) && ProperEnd(e) && (atoms == [] ==> trail == [])
    ensures Entries(lead + ((name + before) + ([61] + (after + ValueBytes(qs, atoms, trail, e))))) ==
            IfValid(Pair(name, QuotationsMeant(qs) + Meant(atoms))) + Entries(if e.Break? then e.rest else [])
  {
    hide Name, Value, SkipSpaces, Entries, ValueBytes, QuotationsMeant, Meant, IfValid, SpanOf, Remaining;
    var v := ValueBytes(qs, atoms, trail, e);
    var t := after + v;
    var s := (name + before) + ([61] + t);
    NameIsRead(name, before, t);
    WholeValue(qs, atoms, trail, e);
    SkipsBlanks(after, v);
    assert s[0] == name[0];
    OneEntry(lead, s, name, t, QuotationsMeant(qs) + Meant(atoms), Remaining(trail, e));
    RemainingEntries(trail, e);
  }

  /** A quotation that is not closed reaches to the end of the input. */
  lemma UnclosedLine(lead: Bytes, name: Bytes, before: Bytes, after: Bytes, qs: seq<Quotation>, q: Byte, atoms: seq<Atom>, t: Bytes)
    requires Blanks(lead) && NameText(name) && Blanks(before) && Blanks(after) && Proper(qs)
    requires Quote(q) && Quotable(atoms, q) && AtEnd(t)
    ensures Entries(lead + ((name + before) + ([61] + (after + WithQuotations(qs, [q] + (Written(atoms) + t)))))) ==
            IfValid(Pair(name, QuotationsMeant(qs) + Meant(atoms)))
  {
    hide Name, SkipSpaces, WithQuotations, QuotationsMeant, Meant, Written, IfValid, SpanOf, Quoted, InQuotes, Entries;
    var u := [q] + (Written(atoms) + t);
    var v := WithQuotations(qs, u);
    OneMore(q, Written(atoms) + t);
    OpenIsRead(q, atoms, t);
    AllQuotations(qs, u);
    QuotationsStart(qs, u);
    SkipsBlanks(after, v);
    NameIsRead(name, before, after + v);
    var s := (name + before) + ([61] + (after + v));
    assert s[0] == name[0];
    assert Unquoted([]) == Read([], []) && QuotationsMeant(qs) + Meant(atoms) + [] == QuotationsMeant(qs) + Meant(atoms);
    OneEntry(lead, s, name, after + v, QuotationsMeant(qs) + Meant(atoms), []);
    NoEntries();
    assert IfValid(Pair(name, QuotationsMeant(qs) + Meant(atoms))) + [] == IfValid(Pair(name, QuotationsMeant(qs) + Meant(atoms)));
  }

  /** A backslash at the very end of the input is nothing. */
  lemma LoneBackslash(lead: Bytes, name: Bytes, before: Bytes, after: Bytes, qs: seq<Quotation>, atoms: seq<Atom>)
    requires Blanks(lead) && NameText(name) && Blanks(before) && Blanks(after) && Proper(qs) && Unquotable(atoms)
    ensures Entries(lead + ((name + before) + ([61] + (after + WithQuotations(qs, Written(atoms) + [92]))))) ==
            IfValid(Pair(name, QuotationsMeant(qs) + Meant(atoms)))
  {
    hide Name, SkipSpaces, WithQuotations, QuotationsMeant, Meant, Written, IfValid, SpanOf, Quoted, Entries;
    var u := Written(atoms) + [92];
    var v := WithQuotations(qs, u);
    BackslashIsRead(atoms);
    AllQuotations(qs, u);
    QuotationsStart(qs, u);
    SkipsBlanks(after, v);
    NameIsRead(name, before, after + v);
    var s := (name + before) + ([61] + (after + v));
    assert s[0] == name[0];
    assert QuotationsMeant(qs) + [] == QuotationsMeant(qs);
    OneEntry(lead, s, name, after + v, QuotationsMeant(qs) + Meant(atoms), []);
    NoEntries();
    assert IfValid(Pair(name, QuotationsMeant(qs) + Meant(atoms))) + [] == IfValid(Pair(name, QuotationsMeant(qs) + Meant(atoms)));
  }

  lemma BackslashIsRead(atoms: seq<Atom>)
    requires Unquotable(atoms)
    ensures var u := Written(atoms) + [92];
            !StartsBlank(u) && Quoted(u) == Read([], u) && Unquoted(u) == Read(Meant(atoms), [])
  {
    var u := Written(atoms) + [92];
    UnquotedText(atoms, [92]);
    hide Unquoted;
    if atoms == [] {
      assert u == [92];
    } else {
      SolidFollows(atoms, [92]);
    }
    assert Unquoted([92]) == Read([], []) by { NothingMore(); }
    assert Meant(atoms) + [] == Meant(atoms);
  }

  lemma NothingMore()
    ensures Unquoted([92]) == Read([], [])
  {
  }

  lemma NoEntries()
    ensures Entries([]) == []
  {
  }

  lemma OpenIsRead(q: Byte, atoms: seq<Atom>, t: Bytes)
    requires Quote(q) && Quotable(atoms, q) && AtEnd(t)
    ensures Quoted([q] + (Written(atoms) + t)) == Read(Meant(atoms), [])
  {
    hide InQuotes, Written, Meant;
    OneMore(q, Written(atoms) + t);
    OpenQuotation(atoms, q, t);
  }

  /** In a comment a backslash takes the next byte with it, also a line break. */
  predicate Commentable(atoms: seq<Atom>) {
    forall i :: 0 <= i < |atoms| ==> (atoms[i].Plain? ==> !LineBreak(atoms[i].c) && atoms[i].c != 92)
  }

  lemma {:induction false} CommentToEnd(atoms: seq<Atom>, e: End)
    requires Commentable(atoms) && ProperEnd(e)
    ensures AfterComment(Written(atoms) + EndBytes(e)) == if e.Break? then e.rest else []
  {
    if atoms == [] {
      assert Written(atoms) + EndBytes(e) == EndBytes(e);
      if e.Break? {
        OneMore(e.c, e.rest);
      }
    } else {
      var rest := Written(atoms[1..]) + EndBytes(e);
      CommentToEnd(atoms[1..], e);
      WrittenCons(atoms, EndBytes(e));
      hide Written, EndBytes, AfterComment;
      CommentAtom(atoms[0], rest, if atoms[0].Plain? then [atoms[0].c] + rest else [92] + ([atoms[0].c] + rest));
    }
  }

  lemma CommentAtom(a: Atom, rest: Bytes, s: Bytes)
    requires a.Plain? ==> !LineBreak(a.c) && a.c != 92
    requires s == if a.Plain? then [a.c] + rest else [92] + ([a.c] + rest)
    ensures AfterComment(s) == AfterComment(rest)
  {
    OneMore(a.c, rest);
    TwoMore(92, a.c, rest);
  }

  /** A comment is nothing: # or ; first, blanks before it, anything in it. */
  lemma CommentLine(lead: Bytes, c: Byte, atoms: seq<Atom>, e: End)
    requires Blanks(lead) && (c == 35 || c == 59) && Commentable(atoms) && ProperEnd(e)
    ensures Entries(lead + ([c] + (Written(atoms) + EndBytes(e)))) == Entries(if e.Break? then e.rest else [])
  {
    hide AfterComment, SpanOf, SkipSpaces, Written;
    var t := Written(atoms) + EndBytes(e);
    OneMore(c, t);
    SkipsBlanks(lead, [c] + t);
    CommentToEnd(atoms, e);
  }

  /** A line without an equal sign after its first byte is nothing. */
  lemma LineWithoutEquals(lead: Bytes, text: Bytes, e: End)
    requires Blanks(lead) && text != [] && !Blank(text[0]) && !LineBreak(text[0]) && text[0] != 35 && text[0] != 59
    requires (forall i :: 0 < i < |text| ==> text[i] != 61 && !LineBreak(text[i])) && ProperEnd(e)
    ensures Entries(lead + (text + EndBytes(e))) == Entries(if e.Break? then e.rest else [])
  {
    hide SpanOf, SkipSpaces, Name, EndBytes;
    var s := text + EndBytes(e);
    SkipsBlanks(lead, s);
    assert s[0] == text[0];
    NoNameIsRead(text, e);
  }

  lemma NoNameIsRead(text: Bytes, e: End)
    requires text != [] && (forall i :: 0 < i < |text| ==> text[i] != 61 && !LineBreak(text[i])) && ProperEnd(e)
    ensures var s := text + EndBytes(e); s != [] && Name(s) == NameRead(None, if e.Break? then e.rest else [])
  {
    hide SpanUntil, Strip;
    var t := EndBytes(e);
    var s := text + t;
    assert s[1..] == text[1..] + t;
    if e.Break? {
      OneMore(e.c, e.rest);
      assert s[|text|] == e.c && s[|text| + 1..] == e.rest;
    }
    SpanToStop(text[1..], t);
  }

  /** Nothing after a null byte is read. */
  lemma {:induction false} NothingAfterNull(s: Bytes, rest: Bytes)
    requires 0 !in s
    ensures UpToNull(s + ([0] + rest)) == s && Loads(s + ([0] + rest)) == Entries(s)
  {
    var t := s + ([0] + rest);
    if s == [] {
      assert t[0] == 0;
    } else {
      assert t[0] == s[0] && t[1..] == s[1..] + ([0] + rest);
      NothingAfterNull(s[1..], rest);
    }
  }

  // ---------------------------------------------------------------- printing and validity

  /** A value with a backslash before every backslash and double quote. */
  function Protected(value: Bytes): seq<Atom> {
    seq(|value|, i requires 0 <= i < |value| => if value[i] == 92 || value[i] == 34 then Backslashed(value[i]) else Plain(value[i]))
  }

  lemma {:induction false} EscapeIsWritten(value: Bytes)
    ensures Escape(value) == Written(Protected(value)) && Meant(Protected(value)) == value
  {
    if value == [] {
    } else {
      assert Protected(value)[1..] == Protected(value[1..]);
      EscapeIsWritten(value[1..]);
      assert [value[0]] + value[1..] == value;
    }
  }

  /** An entry is printed as its name, an equal sign, the protected value in double quotes, and a line break. */
  lemma PrintedBytes(e: Pair)
    ensures PrintPair(e) == e.name + [61] + ([34] + Written(Protected(e.value)) + [34]) + [10]
  {
    EscapeIsWritten(e.value);
  }

  /** A letter, a digit, an underscore, or a byte outside ASCII. */
  predicate Wordly(c: Byte) {
    'a' as int <= c <= 'z' as int || 'A' as int <= c <= 'Z' as int || '0' as int <= c <= '9' as int || c == '_' as int || c >= 128
  }

  /** An entry is valid exactly if its name is such bytes, not starting with a digit, and its value has no control bytes but tabs and line feeds. */
  lemma ValidExactly(e: Pair)
    ensures ValidPair(e) <==>
            && e.name != [] && !('0' as int <= e.name[0] <= '9' as int)
            && (forall i :: 0 <= i < |e.name| ==> Wordly(e.name[i]))
            && (forall i :: 0 <= i < |e.value| ==> e.value[i] >= 32 || e.value[i] == 9 || e.value[i] == 10)
  {
    forall c: Byte
      ensures NameByte(c) <==> Wordly(c)
      ensures ValueByte(c) <==> c >= 32 || c == 9 || c == 10
    {
    }
  }
}
