/**
 The two expanders compared on whole texts: what each of them gives, when the replacing loops end, and for which
 values the two agree.
 */
module ExpanderAgreement {
  import opened Common
  import opened VariableExpansion

  // ---------------------------------------------------------------- all variables

  /** The variables in the order given, each replaced until none is left; None if one of the loops does not end. */
  ghost function Expansion(s: string, order: seq<Variable>, values: Values): Option<string> {
    if order == [] then Some(s)
    else
      var v := Last(order);
      match Expansion(s, Init(order), values)
      case None => None
      case Some(t) =>
        if v !in values then Some(t)
        else if Ends(t, v, values[v]) then Some(LoopResult(t, v, values[v]))
        else None
  }

  function ExpandInPasses(s: string, order: seq<Variable>, values: Values): string {
    if order == [] then s
    else
      var v, rest := Last(order), ExpandInPasses(s, Init(order), values);
      if v in values then ReplaceAll(rest, Token(v), values[v]) else rest
  }

  function Fill(ps: seq<Piece>, v: Variable, vals: PieceValues): seq<Piece> {
    if v in vals then Flat(ps, v, vals[v]) else ps
  }

  /** The pieces after the variables of order were replaced one after the other. */
  function Filled(ps: seq<Piece>, order: seq<Variable>, vals: PieceValues): seq<Piece> {
    if order == [] then ps else Fill(Filled(ps, Init(order), vals), Last(order), vals)
  }

  /** No variable is still there to replace when its own value mentions it. */
  predicate NoLoopStuck(ps: seq<Piece>, order: seq<Variable>, vals: PieceValues) {
    order == [] ||
    (NoLoopStuck(ps, Init(order), vals) &&
     var v := Last(order); v in vals && Var(v) in Filled(ps, Init(order), vals) ==> Var(v) !in vals[v])
  }

  lemma {:induction false} FilledWellFormed(ps: seq<Piece>, order: seq<Variable>, vals: PieceValues)
    requires WellFormed(ps) && WellFormedValues(vals)
    ensures WellFormed(Filled(ps, order, vals))
  {
    hide WellFormed;
    if order == [] {
    } else {
      FilledWellFormed(ps, Init(order), vals);
      if Last(order) in vals {
        FlatWellFormed(Filled(ps, Init(order), vals), Last(order), vals[Last(order)]);
      }
    }
  }

  /** On well-formed text and values: when the loops end, what they give, and what the passes give. */
  lemma {:induction false} BothOnPieces(ps: seq<Piece>, order: seq<Variable>, vals: PieceValues)
    requires WellFormed(ps) && WellFormedValues(vals)
    ensures Expansion(Render(ps), order, RenderAll(vals)) ==
            if NoLoopStuck(ps, order, vals) then Some(Render(Filled(ps, order, vals))) else None
    ensures ExpandInPasses(Render(ps), order, RenderAll(vals)) == Render(Filled(ps, order, vals))
    decreases |order|
  {
    hide Render, ReplaceAll, Ends, LoopResult, WellFormed;
    if order == [] {
    } else {
      BothOnPieces(ps, Init(order), vals);
      FilledWellFormed(ps, Init(order), vals);
      var v, qs := Last(order), Filled(ps, Init(order), vals);
      if v in vals {
        LoopEndsExactly(qs, v, vals[v]);
        ReplaceOnPieces(qs, v, vals[v]);
      }
    }
  }

  const CPP_ORDER := [HOME, USER, USER_ID]
  const PYTHON_ORDER := [USER, USER_ID, HOME]

  /** What one variable becomes in the end. */
  function ValueOf(vals: PieceValues, v: Variable): seq<Piece> {
    if v in vals then vals[v] else [Var(v)]
  }

  lemma FillSingle(v: Variable, w: Variable, vals: PieceValues)
    ensures Fill([Var(v)], w, vals) == if v == w then ValueOf(vals, v) else [Var(v)]
  {
    if w in vals {
      assert [Var(v)][1..] == [];
      assert vals[w] + [] == vals[w] && [Var(v)] + [] == [Var(v)];
      assert Flat([], w, vals[w]) == [];
    }
  }

  lemma FillConcat(a: seq<Piece>, b: seq<Piece>, v: Variable, vals: PieceValues)
    ensures Fill(a + b, v, vals) == Fill(a, v, vals) + Fill(b, v, vals)
  {
    if v in vals {
      FlatConcat(a, b, v, vals[v]);
    }
  }

  lemma {:induction false} FilledConcat(a: seq<Piece>, b: seq<Piece>, order: seq<Variable>, vals: PieceValues)
    ensures Filled(a + b, order, vals) == Filled(a, order, vals) + Filled(b, order, vals)
    decreases |order|
  {
    hide Fill;
    if order == [] {
    } else {
      FilledConcat(a, b, Init(order), vals);
      FillConcat(Filled(a, Init(order), vals), Filled(b, Init(order), vals), Last(order), vals);
    }
  }

  lemma Orders(ps: seq<Piece>, vals: PieceValues)
    ensures Filled(ps, CPP_ORDER, vals) == Fill(Fill(Fill(ps, HOME, vals), USER, vals), USER_ID, vals)
    ensures Filled(ps, PYTHON_ORDER, vals) == Fill(Fill(Fill(ps, USER, vals), USER_ID, vals), HOME, vals)
  {
    hide Fill;
    Three(ps, HOME, USER, USER_ID, vals);
    Three(ps, USER, USER_ID, HOME, vals);
  }

  lemma Three(ps: seq<Piece>, u: Variable, v: Variable, w: Variable, vals: PieceValues)
    ensures Filled(ps, [u], vals) == Fill(ps, u, vals)
    ensures Filled(ps, [u, v], vals) == Fill(Fill(ps, u, vals), v, vals)
    ensures Filled(ps, [u, v, w], vals) == Fill(Fill(Fill(ps, u, vals), v, vals), w, vals)
  {
    hide Fill;
    assert Init([u, v, w]) == [u, v] && Init([u, v]) == [u] && Init([u]) == [];
  }

  // ---------------------------------------------------------------- values that mention no variable

  /** Every variable that has a value is replaced by it, all at once. */
  function Substitute(ps: seq<Piece>, vals: PieceValues): seq<Piece> {
    if ps == [] then [] else (if ps[0].Var? then ValueOf(vals, ps[0].v) else [ps[0]]) + Substitute(ps[1..], vals)
  }

  /** No value mentions a variable that has a value. */
  ghost predicate Closed(vals: PieceValues) {
    forall v, w :: v in vals && w in vals ==> Var(w) !in vals[v]
  }

  lemma ClosedFill(v: Variable, w: Variable, vals: PieceValues)
    requires Closed(vals) && v in vals
    ensures Fill(vals[v], w, vals) == vals[v]
  {
    if w in vals {
      FlatAbsent(vals[v], w, vals[w]);
    }
  }

  lemma ClosedSingle(p: Piece, vals: PieceValues)
    requires Closed(vals)
    ensures Filled([p], CPP_ORDER, vals) == Substitute([p], vals) == Filled([p], PYTHON_ORDER, vals)
  {
    hide Filled;
    Orders([p], vals);
    assert Substitute([p], vals) == if p.Var? then ValueOf(vals, p.v) else [p];
    hide Substitute, Fill, Closed;
    match p {
      case Literal(text) => LiteralStays(text, vals);
      case Var(v) =>
        forall w
          ensures Fill([Var(v)], w, vals) == if v == w then ValueOf(vals, v) else [Var(v)]
        {
          FillSingle(v, w, vals);
        }
        if v in vals {
          forall w
            ensures Fill(vals[v], w, vals) == vals[v]
          {
            ClosedFill(v, w, vals);
          }
        }
    }
  }

  lemma LiteralStays(text: string, vals: PieceValues)
    ensures forall v :: Fill([Literal(text)], v, vals) == [Literal(text)]
  {
    forall v
      ensures Fill([Literal(text)], v, vals) == [Literal(text)]
    {
      if v in vals {
        FlatAbsent([Literal(text)], v, vals[v]);
      }
    }
  }

  /** Then the order does not matter: one variable after the other is the same as all at once. */
  lemma {:induction false} ClosedSubstitutes(ps: seq<Piece>, vals: PieceValues)
    requires Closed(vals)
    ensures Filled(ps, CPP_ORDER, vals) == Substitute(ps, vals) == Filled(ps, PYTHON_ORDER, vals)
  {
    if ps == [] {
      Orders([], vals);
    } else {
      ClosedSubstitutes(ps[1..], vals);
      hide Filled, Closed;
      assert ps == [ps[0]] + ps[1..];
      FilledConcat([ps[0]], ps[1..], CPP_ORDER, vals);
      FilledConcat([ps[0]], ps[1..], PYTHON_ORDER, vals);
      ClosedSingle(ps[0], vals);
      SubstituteCons(ps, vals);
    }
  }

  lemma SubstituteCons(ps: seq<Piece>, vals: PieceValues)
    requires ps != []
    ensures Substitute(ps, vals) == Substitute([ps[0]], vals) + Substitute(ps[1..], vals)
  {
    assert [ps[0]][1..] == [];
  }

  lemma {:induction false} NotStuckWithoutSelf(ps: seq<Piece>, order: seq<Variable>, vals: PieceValues)
    requires NoSelfMention(vals)
    ensures NoLoopStuck(ps, order, vals)
    decreases |order|
  {
    hide Filled;
    if order == [] {
    } else {
      NotStuckWithoutSelf(ps, Init(order), vals);
    }
  }

  /**
   The two expanders agree: on text whose dollar signs all start tokens, with values that mention no variable, both
   give the simultaneous substitution, whichever of the variables have values.
   */
  lemma ExpandersAgree(ps: seq<Piece>, vals: PieceValues)
    requires WellFormed(ps) && WellFormedValues(vals) && Closed(vals)
    ensures Expansion(Render(ps), CPP_ORDER, RenderAll(vals)) == Some(Render(Substitute(ps, vals)))
    ensures ExpandInPasses(Render(ps), PYTHON_ORDER, RenderAll(vals)) == Render(Substitute(ps, vals))
  {
    assert NoSelfMention(vals);
    hide Render, Expansion, ExpandInPasses, Filled, WellFormed, WellFormedValues, Closed, RenderAll;
    BothOnPieces(ps, CPP_ORDER, vals);
    BothOnPieces(ps, PYTHON_ORDER, vals);
    NotStuckWithoutSelf(ps, CPP_ORDER, vals);
    ClosedSubstitutes(ps, vals);
  }

  ghost predicate DollarFreeValues(values: Values) {
    forall v :: v in values ==> DollarFree(values[v])
  }

  function Literals(values: Values): PieceValues {
    map v | v in values :: [Literal(values[v])]
  }

  /** Values free of dollar signs are such values. */
  lemma DollarFreeAreClosed(values: Values)
    requires DollarFreeValues(values)
    ensures WellFormedValues(Literals(values)) && Closed(Literals(values)) && RenderAll(Literals(values)) == values
  {
    forall v | v in values
      ensures Render([Literal(values[v])]) == values[v]
    {
      RenderCons(Literal(values[v]), []);
      assert [Literal(values[v])] + [] == [Literal(values[v])];
    }
  }

  // ---------------------------------------------------------------- values that mention variables

  ghost predicate NoSelfMention(vals: PieceValues) {
    forall v :: v in vals ==> Var(v) !in vals[v]
  }

  lemma StuckOnItself(v: Variable, vals: PieceValues)
    requires v in vals && Var(v) in vals[v]
    ensures !NoLoopStuck([Var(v)], CPP_ORDER, vals)
  {
    hide Fill, Filled;
    var ps := [Var(v)];
    assert Init(CPP_ORDER) == [HOME, USER] && Init([HOME, USER]) == [HOME] && Init([HOME]) == [];
    Three(ps, HOME, USER, USER_ID, vals);
    NothingFilled(ps, vals);
    FillSingle(v, HOME, vals);
    FillSingle(v, USER, vals);
    assert Var(v) in ps;
    assert NoLoopStuck(ps, CPP_ORDER, vals) ==> NoLoopStuck(ps, [HOME, USER], vals);
    assert NoLoopStuck(ps, [HOME, USER], vals) ==> NoLoopStuck(ps, [HOME], vals);
    match v
    case HOME =>
    case USER =>
    case USER_ID =>
  }

  lemma NothingFilled(ps: seq<Piece>, vals: PieceValues)
    ensures Filled(ps, [], vals) == ps
  {
  }

  /** The replacing loops end on every text exactly if no value mentions its own variable. */
  lemma LoopsEndExactly(vals: PieceValues)
    requires WellFormedValues(vals)
    ensures (forall ps :: WellFormed(ps) ==> Expansion(Render(ps), CPP_ORDER, RenderAll(vals)).Some?) <==> NoSelfMention(vals)
  {
    hide Render, Expansion, Filled, WellFormedValues, RenderAll;
    if NoSelfMention(vals) {
      forall ps | WellFormed(ps)
        ensures Expansion(Render(ps), CPP_ORDER, RenderAll(vals)).Some?
      {
        BothOnPieces(ps, CPP_ORDER, vals);
        NotStuckWithoutSelf(ps, CPP_ORDER, vals);
      }
    } else {
      var v :| v in vals && Var(v) in vals[v];
      StuckOnItself(v, vals);
      BothOnPieces([Var(v)], CPP_ORDER, vals);
      assert WellFormed([Var(v)]);
    }
  }

  /** Replacing a variable changes the text exactly if the variable is there, unless the replacement is its own token. */
  lemma {:induction false} FlatLength(ps: seq<Piece>, v: Variable, vs: seq<Piece>)
    ensures |Render(vs)| > |Token(v)| && Var(v) in ps ==> |Render(Flat(ps, v, vs))| > |Render(ps)|
    ensures |Render(vs)| < |Token(v)| && Var(v) in ps ==> |Render(Flat(ps, v, vs))| < |Render(ps)|
    ensures Var(v) !in ps || |Render(vs)| == |Token(v)| ==> |Render(Flat(ps, v, vs))| == |Render(ps)|
  {
    if ps == [] {
    } else {
      var rest := Flat(ps[1..], v, vs);
      FlatLength(ps[1..], v, vs);
      hide Token;
      assert ps == [ps[0]] + ps[1..];
      RenderConcat(vs, rest);
      RenderCons(ps[0], rest);
    }
  }

  lemma {:induction false} SameTextSameToken(ps: seq<Piece>, v: Variable, vs: seq<Piece>)
    requires Var(v) in ps
    ensures Render(Flat(ps, v, vs)) == Render(ps) <==> Render(vs) == Token(v)
  {
    hide Token;
    FlatLength(ps, v, vs);
    if |Render(vs)| == |Token(v)| {
      SameLengthSameToken(ps, v, vs);
    }
  }

  lemma {:induction false} SameLengthSameToken(ps: seq<Piece>, v: Variable, vs: seq<Piece>)
    requires |Render(vs)| == |Token(v)|
    ensures Var(v) !in ps || Render(vs) == Token(v) ==> Render(Flat(ps, v, vs)) == Render(ps)
    ensures Var(v) in ps && Render(Flat(ps, v, vs)) == Render(ps) ==> Render(vs) == Token(v)
  {
    if ps == [] {
    } else {
      var rest := Flat(ps[1..], v, vs);
      SameLengthSameToken(ps[1..], v, vs);
      hide Token, Render;
      assert ps == [ps[0]] + ps[1..];
      RenderCons(ps[0], ps[1..]);
      if ps[0] == Var(v) {
        RenderConcat(vs, rest);
        SplitEqual(Render(vs), Render(rest), Token(v), Render(ps[1..]));
      } else {
        RenderCons(ps[0], rest);
        SplitEqual(RenderPiece(ps[0]), Render(rest), RenderPiece(ps[0]), Render(ps[1..]));
      }
    }
  }

  lemma SplitEqual(a: string, b: string, c: string, d: string)
    requires |a| == |c|
    ensures a + b == c + d <==> a == c && b == d
  {
    if a + b == c + d {
      assert a == (a + b)[..|a|] && c == (c + d)[..|c|];
      assert b == (a + b)[|a|..] && d == (c + d)[|c|..];
    }
  }

  lemma FillWellFormed(ps: seq<Piece>, v: Variable, vals: PieceValues)
    requires WellFormed(ps) && WellFormedValues(vals)
    ensures WellFormed(Fill(ps, v, vals))
  {
    hide WellFormed;
    if v in vals {
      FlatWellFormed(ps, v, vals[v]);
    }
  }

  /** Replacing a variable whose value does not mention it changes the text exactly if the variable is there. */
  lemma FillChangesText(ps: seq<Piece>, v: Variable, vals: PieceValues)
    requires WellFormed(ps) && WellFormedValues(vals) && v in vals && Var(v) !in vals[v]
    ensures Render(Fill(ps, v, vals)) == Render(ps) <==> Var(v) !in ps
    ensures Var(v) !in Fill(ps, v, vals)
  {
    hide Render, WellFormed;
    FillWellFormed(ps, v, vals);
    FlatMentions(ps, v, vals[v], v);
    if Render(Fill(ps, v, vals)) == Render(ps) {
      SameTextSameVariables(Fill(ps, v, vals), ps, v);
    } else if Var(v) !in ps {
      FlatAbsent(ps, v, vals[v]);
    }
  }

  /** What ${USER} becomes before ${HOME} is looked at. */
  function UserValue(vals: PieceValues): seq<Piece> {
    Fill(ValueOf(vals, USER), USER_ID, vals)
  }

  lemma {:induction false} HomeThenRest(ps: seq<Piece>, vals: PieceValues)
    requires USER_ID in vals ==> Var(USER_ID) !in ps
    ensures Fill(Fill(ps, USER, vals), USER_ID, vals) == Flat(ps, USER, UserValue(vals))
  {
    if ps == [] {
    } else {
      var p, rest := ps[0], ps[1..];
      HomeThenRest(rest, vals);
      assert ps == [p] + rest;
      hide Flat, Fill;
      FillConcat([p], rest, USER, vals);
      FillConcat(Fill([p], USER, vals), Fill(rest, USER, vals), USER_ID, vals);
      FlatConcat([p], rest, USER, UserValue(vals));
      OnePiece(p, vals);
    }
  }

  lemma OnePiece(p: Piece, vals: PieceValues)
    requires USER_ID in vals ==> p != Var(USER_ID)
    ensures Fill(Fill([p], USER, vals), USER_ID, vals) == Flat([p], USER, UserValue(vals))
  {
    assert [p][1..] == [];
    assert Flat([p], USER, UserValue(vals)) == if p == Var(USER) then UserValue(vals) else [p];
    match p {
      case Literal(text) => LiteralStays(text, vals);
      case Var(v) =>
        hide Fill, Flat;
        FillSingle(v, USER, vals);
        FillSingle(v, USER_ID, vals);
    }
  }

  /**
   What it takes for the order not to matter, if ${HOME} has a value: the values of the other two do not mention it,
   and it does not mention them, except that it may mention ${USER} if that comes out as its own token again.
   */
  ghost predicate OrderDoesNotMatter(vals: PieceValues) {
    HOME in vals ==>
      && Var(HOME) !in ValueOf(vals, USER_ID) && Var(HOME) !in UserValue(vals)
      && (USER_ID in vals ==> Var(USER_ID) !in vals[HOME])
      && (Var(USER) in vals[HOME] ==> Render(UserValue(vals)) == Token(USER))
  }

  ghost predicate SameOn(ps: seq<Piece>, vals: PieceValues) {
    Render(Filled(ps, CPP_ORDER, vals)) == Render(Filled(ps, PYTHON_ORDER, vals))
  }

  lemma SameOnConcat(a: seq<Piece>, b: seq<Piece>, vals: PieceValues)
    requires SameOn(a, vals) && SameOn(b, vals)
    ensures SameOn(a + b, vals)
  {
    hide Filled, Render;
    FilledConcat(a, b, CPP_ORDER, vals);
    FilledConcat(a, b, PYTHON_ORDER, vals);
    RenderConcat(Filled(a, CPP_ORDER, vals), Filled(b, CPP_ORDER, vals));
    RenderConcat(Filled(a, PYTHON_ORDER, vals), Filled(b, PYTHON_ORDER, vals));
  }

  lemma {:induction false} SameOnAll(ps: seq<Piece>, vals: PieceValues)
    requires forall v :: SameOn([Var(v)], vals)
    ensures SameOn(ps, vals)
  {
    hide SameOn;
    if ps == [] {
      SameOnNothing(vals);
    } else {
      SameOnAll(ps[1..], vals);
      SameOnPiece(ps[0], vals);
      SameOnConcat([ps[0]], ps[1..], vals);
      assert ps == [ps[0]] + ps[1..];
    }
  }

  lemma SameOnNothing(vals: PieceValues)
    ensures SameOn([], vals)
  {
    Orders([], vals);
  }

  lemma SameOnPiece(p: Piece, vals: PieceValues)
    requires forall v :: SameOn([Var(v)], vals)
    ensures SameOn([p], vals)
  {
    hide Filled, Fill;
    if p.Literal? {
      Orders([p], vals);
      LiteralStays(p.text, vals);
    } else {
      assert p == Var(p.v);
    }
  }

  /** ${USER} and ${USER_ID} come out the same exactly if ${HOME} is not in what the first two replacements give. */
  lemma SameOnOthers(vals: PieceValues)
    requires WellFormedValues(vals) && NoSelfMention(vals) && HOME in vals
    ensures SameOn([Var(USER_ID)], vals) <==> Var(HOME) !in ValueOf(vals, USER_ID)
    ensures SameOn([Var(USER)], vals) <==> Var(HOME) !in UserValue(vals)
  {
    var id, user := ValueOf(vals, USER_ID), UserValue(vals);
    assert WellFormed(id) && WellFormed(ValueOf(vals, USER));
    hide Filled, Fill, Render, ValueOf;
    FillWellFormed(ValueOf(vals, USER), USER_ID, vals);
    Orders([Var(USER_ID)], vals);
    Orders([Var(USER)], vals);
    FillSingle(USER_ID, HOME, vals);
    FillSingle(USER_ID, USER, vals);
    FillSingle(USER_ID, USER_ID, vals);
    FillSingle(USER, HOME, vals);
    FillSingle(USER, USER, vals);
    FillChangesText(id, HOME, vals);
    FillChangesText(user, HOME, vals);
  }

  /** ${HOME} itself comes out the same exactly if what its value mentions stays as it is. */
  lemma SameOnHome(vals: PieceValues)
    requires WellFormedValues(vals) && NoSelfMention(vals) && HOME in vals
    ensures SameOn([Var(HOME)], vals) <==>
            (USER_ID in vals ==> Var(USER_ID) !in vals[HOME]) &&
            (Var(USER) in vals[HOME] ==> Render(UserValue(vals)) == Token(USER))
  {
    var home := vals[HOME];
    assert WellFormed(home) && ValueOf(vals, HOME) == home;
    hide Filled, Fill, Render, UserValue, ValueOf;
    Orders([Var(HOME)], vals);
    FillSingle(HOME, HOME, vals);
    FillSingle(HOME, USER, vals);
    FillSingle(HOME, USER_ID, vals);
    var after := Fill(Fill(home, USER, vals), USER_ID, vals);
    if USER_ID in vals && Var(USER_ID) in home {
      FillWellFormed(home, USER, vals);
      FillWellFormed(Fill(home, USER, vals), USER_ID, vals);
      FillChangesText(Fill(home, USER, vals), USER_ID, vals);
      if Render(after) == Render(home) {
        SameTextSameVariables(after, home, USER_ID);
      }
    } else {
      HomeThenRest(home, vals);
      if Var(USER) in home {
        SameTextSameToken(home, USER, UserValue(vals));
      } else {
        FlatAbsent(home, USER, UserValue(vals));
      }
    }
  }

  lemma SameEverywhere(vals: PieceValues)
    requires WellFormedValues(vals) && NoSelfMention(vals)
    ensures (forall v :: SameOn([Var(v)], vals)) <==> OrderDoesNotMatter(vals)
  {
    if HOME in vals {
      SameOnOthers(vals);
      SameOnHome(vals);
      hide SameOn, WellFormedValues, NoSelfMention;
      forall v
        ensures SameOn([Var(HOME)], vals) && SameOn([Var(USER)], vals) && SameOn([Var(USER_ID)], vals) ==> SameOn([Var(v)], vals)
      {
        match v
        case HOME =>
        case USER =>
        case USER_ID =>
      }
    } else {
      forall v
        ensures SameOn([Var(v)], vals)
      {
        Orders([Var(v)], vals);
      }
    }
  }

  /** The two expanders give the same on this text; that includes that the first one ends. */
  ghost predicate Agree(ps: seq<Piece>, vals: PieceValues) {
    Expansion(Render(ps), CPP_ORDER, RenderAll(vals)) == Some(ExpandInPasses(Render(ps), PYTHON_ORDER, RenderAll(vals)))
  }

  lemma AgreeIsSame(ps: seq<Piece>, vals: PieceValues)
    requires WellFormed(ps) && WellFormedValues(vals)
    ensures Agree(ps, vals) <==> NoLoopStuck(ps, CPP_ORDER, vals) && SameOn(ps, vals)
  {
    hide Render, Expansion, ExpandInPasses, Filled, WellFormed, WellFormedValues, RenderAll;
    BothOnPieces(ps, CPP_ORDER, vals);
    BothOnPieces(ps, PYTHON_ORDER, vals);
  }

  /**
   For values that may mention variables: the two expanders agree on every text exactly if no value mentions its own
   variable and the place of ${HOME} in the order does not matter.
   */
  lemma ExpandersAgreeExactly(vals: PieceValues)
    requires WellFormedValues(vals)
    ensures (forall ps :: WellFormed(ps) ==> Agree(ps, vals)) <==> NoSelfMention(vals) && OrderDoesNotMatter(vals)
  {
    hide Agree, SameOn, OrderDoesNotMatter, NoLoopStuck, WellFormedValues;
    if NoSelfMention(vals) {
      SameEverywhere(vals);
      forall ps | WellFormed(ps)
        ensures Agree(ps, vals) <==> SameOn(ps, vals)
      {
        AgreeIsSame(ps, vals);
        NotStuckWithoutSelf(ps, CPP_ORDER, vals);
      }
      if OrderDoesNotMatter(vals) {
        forall ps | WellFormed(ps)
          ensures Agree(ps, vals)
        {
          SameOnAll(ps, vals);
        }
      } else {
        var v :| !SameOn([Var(v)], vals);
        assert WellFormed([Var(v)]);
      }
    } else {
      var v :| v in vals && Var(v) in vals[v];
      StuckOnItself(v, vals);
      AgreeIsSame([Var(v)], vals);
      assert WellFormed([Var(v)]);
    }
  }

  function HomeFromUser(user: string): PieceValues {
    map[HOME := [Var(USER)], USER := [Literal(user)]]
  }

  lemma RenderSingle(p: Piece)
    ensures Render([p]) == RenderPiece(p)
  {
    assert [p][1..] == [];
  }

  lemma HomeFromUserText(user: string)
    ensures RenderAll(HomeFromUser(user)) == map[HOME := Token(USER), USER := user]
  {
    hide Token;
    RenderSingle(Var(USER));
    RenderSingle(Literal(user));
  }

  lemma HomeFromUserPieces(user: string)
    ensures var vals := HomeFromUser(user);
            Filled([Var(HOME)], CPP_ORDER, vals) == [Literal(user)] && Filled([Var(HOME)], PYTHON_ORDER, vals) == [Var(USER)]
  {
    var vals := HomeFromUser(user);
    assert ValueOf(vals, HOME) == [Var(USER)] && ValueOf(vals, USER) == [Literal(user)];
    hide Filled, Fill, HomeFromUser, ValueOf;
    Orders([Var(HOME)], vals);
    FillSingle(HOME, HOME, vals);
    FillSingle(HOME, USER, vals);
    FillSingle(HOME, USER_ID, vals);
    FillSingle(USER, USER, vals);
    LiteralStays(user, vals);
  }

  /** A home directory given as ${USER}: the first expander goes on to replace that, the second does not. */
  lemma HomeMentionsUser(user: string)
    requires DollarFree(user)
    ensures var values := map[HOME := Token(USER), USER := user];
            && Expansion(Token(HOME), CPP_ORDER, values) == Some(user)
            && ExpandInPasses(Token(HOME), PYTHON_ORDER, values) == Token(USER)
  {
    var vals := HomeFromUser(user);
    assert WellFormedValues(vals) && NoSelfMention(vals) && WellFormed([Var(HOME)]);
    HomeFromUserText(user);
    HomeFromUserPieces(user);
    RenderSingle(Var(HOME));
    RenderSingle(Var(USER));
    RenderSingle(Literal(user));
    hide Render, RenderAll, Filled, Expansion, ExpandInPasses, Token, HomeFromUser, WellFormedValues, NoSelfMention;
    BothOnPieces([Var(HOME)], CPP_ORDER, vals);
    BothOnPieces([Var(HOME)], PYTHON_ORDER, vals);
    NotStuckWithoutSelf([Var(HOME)], CPP_ORDER, vals);
  }

  /** The three tokens in a row, spelled out: both expanders put the three values there. */
  lemma SpelledOut(home: string, user: string, id: string)
    requires DollarFree(home) && DollarFree(user) && DollarFree(id)
    ensures var text, values := "${HOME}" + ("${USER}" + "${USER_ID}"), map[HOME := home, USER := user, USER_ID := id];
            && Expansion(text, CPP_ORDER, values) == Some(home + (user + id))
            && ExpandInPasses(text, PYTHON_ORDER, values) == home + (user + id)
  {
    var ps, values := [Var(HOME), Var(USER), Var(USER_ID)], map[HOME := home, USER := user, USER_ID := id];
    Tokens();
    RenderThree(Var(HOME), Var(USER), Var(USER_ID));
    RenderThree(Literal(home), Literal(user), Literal(id));
    DollarFreeAreClosed(values);
    ExpandersAgree(ps, Literals(values));
    SubstituteThree(values);
  }

  lemma RenderThree(a: Piece, b: Piece, c: Piece)
    ensures Render([a, b, c]) == RenderPiece(a) + (RenderPiece(b) + RenderPiece(c))
  {
    hide Render;
    RenderSingle(c);
    RenderCons(b, [c]);
    RenderCons(a, [b, c]);
    assert [b] + [c] == [b, c] && [a] + [b, c] == [a, b, c];
  }

  lemma SubstituteThree(values: Values)
    requires HOME in values && USER in values && USER_ID in values
    ensures Substitute([Var(HOME), Var(USER), Var(USER_ID)], Literals(values)) ==
            [Literal(values[HOME]), Literal(values[USER]), Literal(values[USER_ID])]
  {
    var ps, vals := [Var(HOME), Var(USER), Var(USER_ID)], Literals(values);
    assert ps[1..] == [Var(USER), Var(USER_ID)] && ps[1..][1..] == [Var(USER_ID)] && ps[1..][1..][1..] == [];
    assert Substitute([], vals) == [];
    assert Substitute([Var(USER_ID)], vals) == [Literal(values[USER_ID])];
    assert Substitute([Var(USER), Var(USER_ID)], vals) == [Literal(values[USER]), Literal(values[USER_ID])];
  }

  // ---------------------------------------------------------------- as loops

  lemma {:induction false} ExpansionPrefix(s: string, order: seq<Variable>, values: Values, k: nat)
    requires k <= |order| && Expansion(s, order, values).Some?
    ensures Expansion(s, order[..k], values).Some?
    decreases |order|
  {
    hide Ends, LoopResult;
    if k == |order| {
      assert order[..k] == order;
    } else {
      assert Init(order)[..k] == order[..k];
      ExpansionPrefix(s, Init(order), values, k);
    }
  }

  /** The substitution loops of FieldConverter<AbsolutePath>::fromString: what they return if they return. */
  method ExpandField(text: string, values: Values) returns (r: string)
    requires Expansion(text, CPP_ORDER, values).Some?
    ensures Expansion(text, CPP_ORDER, values) == Some(r)
    ensures DollarFreeValues(values) ==>
              forall ps :: WellFormed(ps) && text == Render(ps) ==> r == Render(Substitute(ps, Literals(values)))
  {
    hide Ends, LoopResult;
    r := text;
    var k := 0;
    while k < |CPP_ORDER|
      invariant k <= |CPP_ORDER| && Expansion(text, CPP_ORDER[..k], values) == Some(r)
    {
      assert Init(CPP_ORDER[..k + 1]) == CPP_ORDER[..k];
      ExpansionPrefix(text, CPP_ORDER, values, k + 1);
      var v := CPP_ORDER[k];
      if v in values {
        r := ReplaceUntilNone(r, v, values[v]);
      }
      k := k + 1;
    }
    assert CPP_ORDER[..k] == CPP_ORDER;
    hide Expansion;
    forall ps | DollarFreeValues(values) && WellFormed(ps) && text == Render(ps)
      ensures r == Render(Substitute(ps, Literals(values)))
    {
      DollarFreeAreClosed(values);
      ExpandersAgree(ps, Literals(values));
    }
  }

  /** With values free of dollar signs they return on every text. */
  lemma {:induction false} DollarFreeExpands(text: string, order: seq<Variable>, values: Values)
    requires DollarFreeValues(values)
    ensures Expansion(text, order, values).Some?
    decreases |order|
  {
    hide Ends, LoopResult;
    if order == [] {
    } else {
      DollarFreeExpands(text, Init(order), values);
      if Last(order) in values {
        DollarFreeEnds(Expansion(text, Init(order), values).value, Last(order), values[Last(order)]);
      }
    }
  }

  /** EdenConfigInterpolator._interpolate. */
  method Interpolate(value: string, values: Values) returns (r: string)
    ensures r == ExpandInPasses(value, PYTHON_ORDER, values)
    ensures DollarFreeValues(values) ==>
              forall ps :: WellFormed(ps) && value == Render(ps) ==> r == Render(Substitute(ps, Literals(values)))
  {
    r := value;
    var k := 0;
    while k < |PYTHON_ORDER|
      invariant k <= |PYTHON_ORDER| && r == ExpandInPasses(value, PYTHON_ORDER[..k], values)
    {
      assert Init(PYTHON_ORDER[..k + 1]) == PYTHON_ORDER[..k];
      var v := PYTHON_ORDER[k];
      if v in values {
        r := ReplaceAll(r, Token(v), values[v]);
      }
      k := k + 1;
    }
    assert PYTHON_ORDER[..k] == PYTHON_ORDER;
    forall ps | DollarFreeValues(values) && WellFormed(ps) && value == Render(ps)
      ensures r == Render(Substitute(ps, Literals(values)))
    {
      DollarFreeAreClosed(values);
      ExpandersAgree(ps, Literals(values));
    }
  }
}
