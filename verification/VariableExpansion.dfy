/**
 ${HOME}, ${USER} and ${USER_ID} in configuration values: one expander replaces the first occurrence until none
 is left, variable by variable; the other makes one pass per variable, in another order.
 */
module VariableExpansion {
  import opened Common

  datatype Variable = HOME | USER | USER_ID

  type Values = map<Variable, string>

  function Token(v: Variable): (t: string)
    ensures t != "" && t[0] == '$'
  {
    match v
    case HOME => "${HOME}"
    case USER => "${USER}"
    case USER_ID => "${USER_ID}"
  }

  /** A token is a dollar sign and the name of the variable in braces. */
  lemma Tokens()
    ensures Token(HOME) == "${HOME}" && Token(USER) == "${USER}" && Token(USER_ID) == "${USER_ID}"
  {
  }

  predicate DollarFree(s: string) {
    '$' !in s
  }

  // ---------------------------------------------------------------- text with variables

  datatype Piece = Literal(text: string) | Var(v: Variable)

  type PieceValues = map<Variable, seq<Piece>>

  function RenderPiece(p: Piece): string {
    match p
    case Literal(text) => text
    case Var(v) => Token(v)
  }

  function Render(ps: seq<Piece>): string {
    if ps == [] then "" else RenderPiece(ps[0]) + Render(ps[1..])
  }

  function RenderAll(vals: PieceValues): Values {
    map v | v in vals :: Render(vals[v])
  }

  /** Dollar signs stand only at the start of one of the three tokens. */
  predicate WellFormed(ps: seq<Piece>) {
    forall i :: 0 <= i < |ps| && ps[i].Literal? ==> DollarFree(ps[i].text)
  }

  ghost predicate WellFormedValues(vals: PieceValues) {
    forall v :: v in vals ==> WellFormed(vals[v])
  }

  /** One variable replaced by pieces, wherever it stands. */
  function Flat(ps: seq<Piece>, v: Variable, vs: seq<Piece>): seq<Piece> {
    if ps == [] then [] else (if ps[0] == Var(v) then vs else [ps[0]]) + Flat(ps[1..], v, vs)
  }

  lemma Regroup<T>(a: seq<T>, b: seq<T>, c: seq<T>)
    ensures a + b + c == a + (b + c)
  {
  }

  lemma {:induction false} RenderConcat(a: seq<Piece>, b: seq<Piece>)
    ensures Render(a + b) == Render(a) + Render(b)
  {
    if a == [] {
      assert a + b == b;
    } else {
      assert (a + b)[0] == a[0] && (a + b)[1..] == a[1..] + b;
      RenderConcat(a[1..], b);
      hide RenderPiece;
      Regroup(RenderPiece(a[0]), Render(a[1..]), Render(b));
    }
  }

  lemma {:induction false} FlatConcat(a: seq<Piece>, b: seq<Piece>, v: Variable, vs: seq<Piece>)
    ensures Flat(a + b, v, vs) == Flat(a, v, vs) + Flat(b, v, vs)
  {
    if a == [] {
      assert a + b == b;
    } else {
      assert (a + b)[0] == a[0] && (a + b)[1..] == a[1..] + b;
      FlatConcat(a[1..], b, v, vs);
      Regroup(if a[0] == Var(v) then vs else [a[0]], Flat(a[1..], v, vs), Flat(b, v, vs));
    }
  }

  /** Which variables are left after one was replaced. */
  lemma {:induction false} FlatMentions(ps: seq<Piece>, v: Variable, vs: seq<Piece>, w: Variable)
    ensures Var(w) in Flat(ps, v, vs) <==> (w != v && Var(w) in ps) || (Var(v) in ps && Var(w) in vs)
  {
    if ps == [] {
    } else {
      assert ps == [ps[0]] + ps[1..];
      FlatMentions(ps[1..], v, vs, w);
    }
  }

  lemma {:induction false} FlatWellFormed(ps: seq<Piece>, v: Variable, vs: seq<Piece>)
    requires WellFormed(ps) && WellFormed(vs)
    ensures WellFormed(Flat(ps, v, vs))
  {
    if ps == [] {
    } else {
      FlatWellFormed(ps[1..], v, vs);
    }
  }

  lemma {:induction false} FlatAbsent(ps: seq<Piece>, v: Variable, vs: seq<Piece>)
    requires Var(v) !in ps
    ensures Flat(ps, v, vs) == ps
  {
    if ps == [] {
    } else {
      FlatAbsent(ps[1..], v, vs);
    }
  }

  // ---------------------------------------------------------------- the two ways to replace

  /** Where the token first occurs, counted from the start of s. */
  function Find(s: string, token: string): (r: Option<nat>)
    requires token != ""
    ensures r.Some? ==> r.value + |token| <= |s|
  {
    if s == "" then None
    else if token <= s then Some(0)
    else match Find(s[1..], token) case None => None case Some(i) => Some(i + 1)
  }

  /** str.replace: one pass from left to right. */
  function ReplaceAll(s: string, token: string, value: string): string
    requires token != ""
  {
    if s == "" then ""
    else if token <= s then value + ReplaceAll(s[|token|..], token, value)
    else [s[0]] + ReplaceAll(s[1..], token, value)
  }

  lemma TokensDiffer(v: Variable, w: Variable, rest: string)
    requires v != w
    ensures !(Token(v) <= Token(w) + rest)
  {
    var s := Token(w) + rest;
    assert s[2] == Token(w)[2] && s[6] == Token(w)[6];
  }

  lemma NoTokenAtLiteral(s: string, v: Variable)
    requires s != "" && s[0] != '$'
    ensures !(Token(v) <= s)
  {
    assert Token(v)[0] == '$';
  }

  lemma {:induction false} ReplacePastLiteral(text: string, rest: string, v: Variable, value: string)
    requires DollarFree(text)
    ensures ReplaceAll(text + rest, Token(v), value) == text + ReplaceAll(rest, Token(v), value)
  {
    hide Token, ReplaceAll;
    if text == "" {
      assert text + rest == rest;
      assert text + ReplaceAll(rest, Token(v), value) == ReplaceAll(rest, Token(v), value);
    } else {
      var s := text + rest;
      assert s[0] == text[0] && s[1..] == text[1..] + rest;
      NoTokenAtLiteral(s, v);
      OneStep(s, v, value);
      ReplacePastLiteral(text[1..], rest, v, value);
      assert text == [text[0]] + text[1..];
      Regroup([text[0]], text[1..], ReplaceAll(rest, Token(v), value));
    }
  }

  lemma {:induction false} FindPastLiteral(text: string, rest: string, v: Variable)
    requires DollarFree(text)
    ensures Find(text + rest, Token(v)) == match Find(rest, Token(v)) case None => None case Some(i) => Some(|text| + i)
  {
    hide Token, Find;
    if text == "" {
      assert text + rest == rest;
    } else {
      var s := text + rest;
      assert s[0] == text[0] && s[1..] == text[1..] + rest;
      NoTokenAtLiteral(s, v);
      OneStep(s, v, "");
      FindPastLiteral(text[1..], rest, v);
    }
  }

  /** A token of another variable is passed over like text. */
  lemma PastOtherToken(w: Variable, rest: string, v: Variable, value: string)
    requires v != w
    ensures ReplaceAll(Token(w) + rest, Token(v), value) == Token(w) + ReplaceAll(rest, Token(v), value)
    ensures Find(Token(w) + rest, Token(v)) == match Find(rest, Token(v)) case None => None case Some(i) => Some(|Token(w)| + i)
  {
    hide ReplaceAll, Find, Token;
    var s, tail := Token(w) + rest, Token(w)[1..];
    TokensDiffer(v, w, rest);
    assert s[1..] == tail + rest && s[0] == '$';
    assert DollarFree(tail) by { OneDollar(w); }
    ReplacePastLiteral(tail, rest, v, value);
    FindPastLiteral(tail, rest, v);
    OneStep(s, v, value);
    assert Token(w) == ['$'] + tail;
    assert ['$'] + (tail + ReplaceAll(rest, Token(v), value)) == ['$'] + tail + ReplaceAll(rest, Token(v), value);
  }

  lemma OneDollar(v: Variable)
    ensures DollarFree(Token(v)[1..])
  {
  }

  lemma OneStep(s: string, v: Variable, value: string)
    requires s != "" && !(Token(v) <= s)
    ensures ReplaceAll(s, Token(v), value) == [s[0]] + ReplaceAll(s[1..], Token(v), value)
    ensures Find(s, Token(v)) == match Find(s[1..], Token(v)) case None => None case Some(i) => Some(i + 1)
  {
  }

  lemma FoundAtOnce(v: Variable, rest: string, value: string)
    ensures ReplaceAll(Token(v) + rest, Token(v), value) == value + ReplaceAll(rest, Token(v), value)
    ensures Find(Token(v) + rest, Token(v)) == Some(0)
  {
    assert (Token(v) + rest)[|Token(v)|..] == rest;
  }

  /** One pass over well-formed text replaces exactly that variable. */
  lemma {:induction false} ReplaceOnPieces(ps: seq<Piece>, v: Variable, vs: seq<Piece>)
    requires WellFormed(ps)
    ensures ReplaceAll(Render(ps), Token(v), Render(vs)) == Render(Flat(ps, v, vs))
  {
    if ps == [] {
    } else {
      ReplaceOnPieces(ps[1..], v, vs);
      var rest := Render(ps[1..]);
      hide ReplaceAll, Token, Render;
      RenderCons(ps[0], ps[1..]);
      assert ps == [ps[0]] + ps[1..];
      match ps[0]
      case Literal(text) =>
        ReplacePastLiteral(text, rest, v, Render(vs));
        RenderCons(ps[0], Flat(ps[1..], v, vs));
      case Var(w) =>
        if v == w {
          FoundAtOnce(v, rest, Render(vs));
          RenderConcat(vs, Flat(ps[1..], v, vs));
        } else {
          PastOtherToken(w, rest, v, Render(vs));
          RenderCons(ps[0], Flat(ps[1..], v, vs));
        }
    }
  }

  lemma RenderCons(p: Piece, ps: seq<Piece>)
    ensures Render([p] + ps) == RenderPiece(p) + Render(ps)
  {
    assert ([p] + ps)[1..] == ps;
  }

  // ---------------------------------------------------------------- the first occurrence

  /** The text with the token at i replaced. */
  function ReplaceAt(s: string, i: nat, token: string, value: string): string
    requires i + |token| <= |s|
  {
    s[..i] + value + s[i + |token|..]
  }

  /** The first piece that is the variable, replaced. */
  function FlatFirst(ps: seq<Piece>, v: Variable, vs: seq<Piece>): seq<Piece> {
    if ps == [] then []
    else if ps[0] == Var(v) then vs + ps[1..]
    else [ps[0]] + FlatFirst(ps[1..], v, vs)
  }

  /** The token is found in the text exactly if the variable is among the pieces, and there first. */
  ghost predicate Locates(s: string, ps: seq<Piece>, v: Variable, vs: seq<Piece>) {
    match Find(s, Token(v))
    case None => Var(v) !in ps
    case Some(i) => Var(v) in ps && ReplaceAt(s, i, Token(v), Render(vs)) == Render(FlatFirst(ps, v, vs))
  }

  lemma {:induction false} FindOnPieces(ps: seq<Piece>, v: Variable, vs: seq<Piece>)
    requires WellFormed(ps)
    ensures Locates(Render(ps), ps, v, vs)
  {
    hide Locates, Token;
    if ps == [] {
      assert Locates("", [], v, vs) by { NowhereInNothing(v, vs); }
    } else {
      FindOnPieces(ps[1..], v, vs);
      assert ps == [ps[0]] + ps[1..];
      if ps[0] == Var(v) {
        LocatesHere(ps[1..], v, vs);
      } else {
        assert ps[0].Literal? ==> DollarFree(ps[0].text);
        LocatesLater(ps[0], ps[1..], v, vs);
      }
    }
  }

  lemma NowhereInNothing(v: Variable, vs: seq<Piece>)
    ensures Locates("", [], v, vs)
  {
  }

  lemma LocatesHere(ps: seq<Piece>, v: Variable, vs: seq<Piece>)
    ensures Locates(Token(v) + Render(ps), [Var(v)] + ps, v, vs)
  {
    hide Find, Token, Render;
    var rest, value := Render(ps), Render(vs);
    FoundAtOnce(v, rest, value);
    assert (Token(v) + rest)[|Token(v)|..] == rest;
    assert ReplaceAt(Token(v) + rest, 0, Token(v), value) == value + rest;
    assert FlatFirst([Var(v)] + ps, v, vs) == vs + ps;
    RenderConcat(vs, ps);
  }

  lemma LocatesLater(p: Piece, ps: seq<Piece>, v: Variable, vs: seq<Piece>)
    requires p != Var(v) && (p.Literal? ==> DollarFree(p.text)) && Locates(Render(ps), ps, v, vs)
    ensures Locates(RenderPiece(p) + Render(ps), [p] + ps, v, vs)
  {
    hide Find, Token, Render, ReplaceAll, ReplaceAt;
    var rest, value := Render(ps), Render(vs);
    match p {
      case Literal(text) => FindPastLiteral(text, rest, v);
      case Var(w) => PastOtherToken(w, rest, v, value);
    }
    if Find(rest, Token(v)).Some? {
      ReplaceShift(RenderPiece(p), rest, Find(rest, Token(v)).value, v, value);
      assert FlatFirst([p] + ps, v, vs) == [p] + FlatFirst(ps, v, vs);
      RenderCons(p, FlatFirst(ps, v, vs));
    }
  }

  lemma ReplaceShift(text: string, rest: string, i: nat, v: Variable, value: string)
    requires i + |Token(v)| <= |rest|
    ensures ReplaceAt(text + rest, |text| + i, Token(v), value) == text + ReplaceAt(rest, i, Token(v), value)
  {
    hide Token;
    var n := |Token(v)|;
    assert (text + rest)[..|text| + i] == text + rest[..i];
    assert (text + rest)[|text| + i + n..] == rest[i + n..];
    assert text + rest[..i] + value + rest[i + n..] == text + (rest[..i] + value + rest[i + n..]);
  }

  /** Texts that read the same mention the same variables. */
  lemma SameTextSameVariables(a: seq<Piece>, b: seq<Piece>, v: Variable)
    requires WellFormed(a) && WellFormed(b) && Render(a) == Render(b)
    ensures Var(v) in a <==> Var(v) in b
  {
    hide Find, Render, Token;
    FindOnPieces(a, v, []);
    FindOnPieces(b, v, []);
  }

  // ---------------------------------------------------------------- replacing until none is left

  /** One turn of the loop; once there is no token it would change nothing. */
  function Once(s: string, v: Variable, value: string): string {
    match Find(s, Token(v))
    case None => s
    case Some(i) => ReplaceAt(s, i, Token(v), value)
  }

  function Iterated(s: string, v: Variable, value: string, n: nat): string
    decreases n
  {
    if n == 0 then s else Iterated(Once(s, v, value), v, value, n - 1)
  }

  predicate EndsAfter(s: string, v: Variable, value: string, n: nat) {
    Find(Iterated(s, v, value, n), Token(v)).None?
  }

  /** The loop comes to an end. */
  ghost predicate Ends(s: string, v: Variable, value: string) {
    exists n: nat :: EndsAfter(s, v, value, n)
  }

  ghost function LoopResult(s: string, v: Variable, value: string): string
    requires Ends(s, v, value)
  {
    var n: nat :| EndsAfter(s, v, value, n);
    Iterated(s, v, value, n)
  }

  lemma {:induction false} StaysTheSame(s: string, v: Variable, value: string, n: nat)
    requires Find(s, Token(v)).None?
    ensures Iterated(s, v, value, n) == s
  {
    hide Find, Token;
    if n == 0 {
    } else {
      StaysTheSame(s, v, value, n - 1);
    }
  }

  lemma {:induction false} OneResult(s: string, v: Variable, value: string, n: nat, m: nat)
    requires n <= m && EndsAfter(s, v, value, n) && EndsAfter(s, v, value, m)
    ensures Iterated(s, v, value, n) == Iterated(s, v, value, m)
    decreases n
  {
    hide Find, Token, Once;
    if n == 0 {
      StaysTheSame(s, v, value, m);
    } else {
      OneResult(Once(s, v, value), v, value, n - 1, m - 1);
    }
  }

  lemma LoopResultIs(s: string, v: Variable, value: string, n: nat)
    requires EndsAfter(s, v, value, n)
    ensures Ends(s, v, value) && LoopResult(s, v, value) == Iterated(s, v, value, n)
  {
    hide EndsAfter, Iterated;
    var m: nat :| EndsAfter(s, v, value, m) && LoopResult(s, v, value) == Iterated(s, v, value, m);
    if n <= m {
      OneResult(s, v, value, n, m);
    } else {
      OneResult(s, v, value, m, n);
    }
  }

  /** The loop, unrolled once. */
  lemma LoopUnrolled(s: string, v: Variable, value: string)
    ensures Find(s, Token(v)).None? ==> Ends(s, v, value) && LoopResult(s, v, value) == s
    ensures Ends(s, v, value) <==> Ends(Once(s, v, value), v, value)
    ensures Ends(s, v, value) ==> LoopResult(s, v, value) == LoopResult(Once(s, v, value), v, value)
  {
    hide Find, Token, LoopResult;
    var t := Once(s, v, value);
    if Find(s, Token(v)).None? {
      assert EndsAfter(s, v, value, 0);
      LoopResultIs(s, v, value, 0);
    }
    if n: nat :| EndsAfter(s, v, value, n) {
      assert EndsAfter(t, v, value, if n == 0 then 0 else n - 1) && EndsAfter(s, v, value, if n == 0 then 1 else n);
      LoopResultIs(s, v, value, if n == 0 then 1 else n);
      LoopResultIs(t, v, value, if n == 0 then 0 else n - 1);
    }
    if n: nat :| EndsAfter(t, v, value, n) {
      assert EndsAfter(s, v, value, n + 1);
    }
  }

  // ---------------------------------------------------------------- when the loop ends

  function Dollars(s: string): nat {
    if s == "" then 0 else (if s[0] == '$' then 1 else 0) + Dollars(s[1..])
  }

  lemma {:induction false} DollarsConcat(a: string, b: string)
    ensures Dollars(a + b) == Dollars(a) + Dollars(b)
  {
    if a == "" {
      assert a + b == b;
    } else {
      assert (a + b)[1..] == a[1..] + b;
      DollarsConcat(a[1..], b);
    }
  }

  lemma {:induction false} NoDollars(s: string)
    requires DollarFree(s)
    ensures Dollars(s) == 0
  {
    if s == "" {
    } else {
      NoDollars(s[1..]);
    }
  }

  lemma {:induction false} FindIsOccurrence(s: string, token: string)
    requires token != ""
    ensures Find(s, token).Some? ==> var i := Find(s, token).value; i + |token| <= |s| && s[i..i + |token|] == token
  {
    if s != "" && !(token <= s) {
      FindIsOccurrence(s[1..], token);
    }
  }

  /** Each replacement uses up a dollar sign, whatever the text is. */
  lemma ReplacingUsesDollars(s: string, v: Variable, value: string)
    requires DollarFree(value) && Find(s, Token(v)).Some?
    ensures var i := Find(s, Token(v)).value;
            i + |Token(v)| <= |s| && Dollars(ReplaceAt(s, i, Token(v), value)) < Dollars(s)
  {
    hide Find, Token, Dollars;
    FindIsOccurrence(s, Token(v));
    var i := Find(s, Token(v)).value;
    DollarsAround(s[..i], Token(v), s[i + |Token(v)|..]);
    DollarsAround(s[..i], value, s[i + |Token(v)|..]);
    assert s == s[..i] + Token(v) + s[i + |Token(v)|..];
    NoDollars(value);
    assert Dollars(Token(v)) >= 1 by { TokenUsesDollar(v); }
  }

  lemma TokenUsesDollar(v: Variable)
    ensures Dollars(Token(v)) >= 1
  {
    hide Token;
  }

  lemma DollarsAround(a: string, b: string, c: string)
    ensures Dollars(a + b + c) == Dollars(a) + Dollars(b) + Dollars(c)
  {
    hide Dollars;
    DollarsConcat(a + b, c);
    DollarsConcat(a, b);
  }

  /** With a value free of dollar signs the loop ends, whatever the text is. */
  lemma {:induction false} DollarFreeEnds(s: string, v: Variable, value: string)
    requires DollarFree(value)
    ensures Ends(s, v, value)
    decreases Dollars(s)
  {
    hide Find, Token, Dollars, Ends, ReplaceAt;
    LoopUnrolled(s, v, value);
    if Find(s, Token(v)).Some? {
      ReplacingUsesDollars(s, v, value);
      DollarFreeEnds(Once(s, v, value), v, value);
    }
  }

  lemma {:induction false} OccurrenceIsFound(s: string, token: string, i: nat)
    requires token != "" && i + |token| <= |s| && s[i..i + |token|] == token
    ensures Find(s, token).Some?
  {
    if i == 0 {
      assert token <= s;
    } else if !(token <= s) {
      assert s[1..][i - 1..i - 1 + |token|] == s[i..i + |token|];
      OccurrenceIsFound(s[1..], token, i - 1);
    }
  }

  lemma SelfReferenceStays(s: string, v: Variable, value: string)
    requires Find(s, Token(v)).Some? && Find(value, Token(v)).Some?
    ensures Find(Once(s, v, value), Token(v)).Some?
  {
    hide Find, Token;
    FindIsOccurrence(s, Token(v));
    FindIsOccurrence(value, Token(v));
    var i, j, n := Find(s, Token(v)).value, Find(value, Token(v)).value, |Token(v)|;
    var after := ReplaceAt(s, i, Token(v), value);
    assert after[i + j..i + j + n] == value[j..j + n];
    OccurrenceIsFound(after, Token(v), i + j);
  }

  /** On a text with the token, a value that contains that token keeps the loop going for ever, whatever else it holds. */
  lemma {:induction false} SelfReferenceNeverEnds(s: string, v: Variable, value: string, n: nat)
    requires Find(s, Token(v)).Some? && Find(value, Token(v)).Some?
    ensures !EndsAfter(s, v, value, n)
    decreases n
  {
    hide Find, Token, Once;
    if n == 0 {
    } else {
      SelfReferenceStays(s, v, value);
      SelfReferenceNeverEnds(Once(s, v, value), v, value, n - 1);
    }
  }

  function Count(ps: seq<Piece>, v: Variable): nat {
    if ps == [] then 0 else (if ps[0] == Var(v) then 1 else 0) + Count(ps[1..], v)
  }

  lemma {:induction false} CountAbsent(ps: seq<Piece>, v: Variable)
    requires Var(v) !in ps
    ensures Count(ps, v) == 0
  {
    if ps == [] {
    } else {
      CountAbsent(ps[1..], v);
    }
  }

  lemma {:induction false} CountConcat(a: seq<Piece>, b: seq<Piece>, v: Variable)
    ensures Count(a + b, v) == Count(a, v) + Count(b, v)
  {
    if a == [] {
      assert a + b == b;
    } else {
      assert (a + b)[0] == a[0] && (a + b)[1..] == a[1..] + b;
      CountConcat(a[1..], b, v);
    }
  }

  /** Replacing the first one brings the text nearer to where replacing all of them leads. */
  lemma {:induction false} FlatFirstSteps(ps: seq<Piece>, v: Variable, vs: seq<Piece>)
    requires WellFormed(ps) && WellFormed(vs) && Var(v) in ps
    ensures WellFormed(FlatFirst(ps, v, vs))
    ensures Var(v) in vs ==> Var(v) in FlatFirst(ps, v, vs)
    ensures Var(v) !in vs ==> Flat(FlatFirst(ps, v, vs), v, vs) == Flat(ps, v, vs) && Count(FlatFirst(ps, v, vs), v) < Count(ps, v)
  {
    assert ps == [ps[0]] + ps[1..];
    if ps[0] == Var(v) {
      FlatConcat(vs, ps[1..], v, vs);
      CountConcat(vs, ps[1..], v);
      if Var(v) !in vs {
        FlatAbsent(vs, v, vs);
        CountAbsent(vs, v);
      }
    } else {
      FlatFirstSteps(ps[1..], v, vs);
      var rest := FlatFirst(ps[1..], v, vs);
      assert ([ps[0]] + rest)[1..] == rest;
    }
  }

  lemma OnceOnPieces(ps: seq<Piece>, v: Variable, vs: seq<Piece>)
    requires WellFormed(ps)
    ensures Find(Render(ps), Token(v)).Some? <==> Var(v) in ps
    ensures Var(v) in ps ==> Once(Render(ps), v, Render(vs)) == Render(FlatFirst(ps, v, vs))
  {
    hide Find, Token, Render, ReplaceAt;
    FindOnPieces(ps, v, vs);
  }

  lemma {:induction false} LoopOnPieces(ps: seq<Piece>, v: Variable, vs: seq<Piece>)
    requires WellFormed(ps) && WellFormed(vs) && Var(v) !in vs
    ensures Ends(Render(ps), v, Render(vs)) && LoopResult(Render(ps), v, Render(vs)) == Render(Flat(ps, v, vs))
    decreases Count(ps, v)
  {
    hide Find, Token, Render, Ends, LoopResult, Once, WellFormed;
    OnceOnPieces(ps, v, vs);
    LoopUnrolled(Render(ps), v, Render(vs));
    if Var(v) in ps {
      FlatFirstSteps(ps, v, vs);
      LoopOnPieces(FlatFirst(ps, v, vs), v, vs);
    } else {
      FlatAbsent(ps, v, vs);
    }
  }

  lemma {:induction false} SelfMentionNeverEnds(ps: seq<Piece>, v: Variable, vs: seq<Piece>, n: nat)
    requires WellFormed(ps) && WellFormed(vs) && Var(v) in ps && Var(v) in vs
    ensures !EndsAfter(Render(ps), v, Render(vs), n)
  {
    hide Find, Token, Render;
    OnceOnPieces(ps, v, vs);
    OnceOnPieces(vs, v, []);
    SelfReferenceNeverEnds(Render(ps), v, Render(vs), n);
  }

  /** The loop ends exactly if the text or the value does not mention the variable, and then replaces all mentions. */
  lemma LoopEndsExactly(ps: seq<Piece>, v: Variable, vs: seq<Piece>)
    requires WellFormed(ps) && WellFormed(vs)
    ensures Ends(Render(ps), v, Render(vs)) <==> Var(v) !in ps || Var(v) !in vs
    ensures Ends(Render(ps), v, Render(vs)) ==> LoopResult(Render(ps), v, Render(vs)) == Render(Flat(ps, v, vs))
  {
    hide Find, Token, Render, EndsAfter, LoopResult;
    if Var(v) !in vs {
      LoopOnPieces(ps, v, vs);
    } else if Var(v) !in ps {
      OnceOnPieces(ps, v, vs);
      LoopUnrolled(Render(ps), v, Render(vs));
      FlatAbsent(ps, v, vs);
    } else {
      forall n: nat
        ensures !EndsAfter(Render(ps), v, Render(vs), n)
      {
        SelfMentionNeverEnds(ps, v, vs, n);
      }
    }
  }

  // ---------------------------------------------------------------- as a loop

  method FindToken(s: string, token: string) returns (r: Option<nat>)
    requires token != ""
    ensures r == Find(s, token)
  {
    var i := 0;
    while i < |s|
      invariant i <= |s| && Find(s, token) == match Find(s[i..], token) case None => None case Some(j) => Some(i + j)
    {
      if token <= s[i..] {
        return Some(i);
      }
      assert s[i..][1..] == s[i + 1..];
      i := i + 1;
    }
    return None;
  }

  /** The loop for one variable, which returns if it ends at all. */
  method ReplaceUntilNone(s: string, v: Variable, value: string) returns (r: string)
    requires Ends(s, v, value)
    ensures r == LoopResult(s, v, value)
  {
    hide Find, Token, ReplaceAt, Iterated, LoopResult;
    r := s;
    ghost var n: nat :| EndsAfter(s, v, value, n);
    while true
      invariant EndsAfter(r, v, value, n) && Ends(r, v, value) && LoopResult(r, v, value) == LoopResult(s, v, value)
      decreases n
    {
      LoopUnrolled(r, v, value);
      var idx := FindToken(r, Token(v));
      if idx.None? {
        break;
      }
      FewerTurns(r, v, value, n);
      n := n - 1;
      r := ReplaceAt(r, idx.value, Token(v), value);
    }
  }

  lemma FewerTurns(s: string, v: Variable, value: string, n: nat)
    requires EndsAfter(s, v, value, n) && Find(s, Token(v)).Some?
    ensures n > 0 && EndsAfter(Once(s, v, value), v, value, n - 1)
  {
    hide Find, Token, Once;
  }
}
