/**
  The expression grammar as productions, one per level, with the operators of sections
  6.5.1 to 6.5.16 of C11 written out; a unary operand is unary here, where C has a cast.
  The levels and tables the parser works with derive exactly the same.
 */
module CExpressionStandard {
  import opened Basics
  import opened CTypeNames
  import opened CExpressions
  import opened CExpressionGrammar
  import opened CExpressionReading

  /** 6.5.3, unary-operator. */
  const UNARY_OPERATORS: set<string> := {"&", "*", "+", "-", "~", "!"}

  /** 6.5.16, assignment-operator. */
  const ASSIGNMENT_OPERATORS: set<string> := {"=", "*=", "/=", "%=", "+=", "-=", "<<=", ">>=", "&=", "^=", "|="}

  /** The operators of one binary level, the loosest first. */
  function OperatorsOf(level: int): set<string> {
    match level
    case 1 => {"||"}                    // 6.5.14, logical-OR
    case 2 => {"&&"}                    // 6.5.13, logical-AND
    case 3 => {"|"}                     // 6.5.12, inclusive-OR
    case 4 => {"^"}                     // 6.5.11, exclusive-OR
    case 5 => {"&"}                     // 6.5.10, AND
    case 6 => {"==", "!="}              // 6.5.9, equality
    case 7 => {"<", ">", "<=", ">="}    // 6.5.8, relational
    case 8 => {"<<", ">>"}              // 6.5.7, shift
    case 9 => {"+", "-"}                // 6.5.6, additive
    case 10 => {"*", "/", "%"}          // 6.5.5, multiplicative
    case _ => {}
  }

  // ------------------------------------------------------------- productions

  /** The tokens from `at` to `end` are a phrase of this level and spell the tree. */
  ghost predicate Phrase(ts: seq<Token>, at: nat, end: nat, e: Expr, level: int)
    requires at <= end <= |ts| && ASSIGNMENT <= level <= POSTFIX
    decreases end - at, POSTFIX - level, 3
  {
    if level == POSTFIX then PostfixPhrase(ts, at, end, e)
    else Phrase(ts, at, end, e, level + 1) || Production(ts, at, end, e, level)
  }

  /** What a level adds to the next one. */
  ghost predicate Production(ts: seq<Token>, at: nat, end: nat, e: Expr, level: int)
    requires at <= end <= |ts| && ASSIGNMENT <= level < POSTFIX
    decreases end - at, POSTFIX - level, 2
  {
    if level == ASSIGNMENT then
      e.Assignment? && e.op in ASSIGNMENT_OPERATORS && exists i: nat | at <= i < end :: ts[i] == Op(e.op) && AssignmentOf(ts, at, i, end, e)
    else if level == CONDITIONAL then
      e.Conditional? && exists i: nat, j: nat | at <= i < j < end :: ts[i].kind.Question? && ts[j].kind.Colon? && ConditionalOf(ts, at, i, j, end, e)
    else if level == CAST then
      e.Cast? && exists i: nat | at + 1 < i && i + e.depth < end :: Spells(ts[at + 1..i], e.ctype) && CastOf(ts, at, i, end, e)
    else if level == UNARY then
      e.Unary? && e.op in UNARY_OPERATORS && at < end && ts[at] == Op(e.op) && Phrase(ts, at + 1, end, e.operand, UNARY)
    else
      e.Binary? && e.op in OperatorsOf(level) && exists i: nat | at <= i < end :: ts[i] == Op(e.op) && BinaryOf(ts, at, i, end, e, level)
  }

  ghost predicate AssignmentOf(ts: seq<Token>, at: nat, i: nat, end: nat, e: Expr)
    requires e.Assignment? && at <= i < end <= |ts|
    decreases end - at - 1, 20
  {
    Phrase(ts, at, i, e.target, CONDITIONAL) && Phrase(ts, i + 1, end, e.value, ASSIGNMENT)
  }

  ghost predicate ConditionalOf(ts: seq<Token>, at: nat, i: nat, j: nat, end: nat, e: Expr)
    requires e.Conditional? && at <= i < j < end <= |ts|
    decreases end - at - 1, 20
  {
    Phrase(ts, at, i, e.condition, 1) && Phrase(ts, i + 1, j, e.thenExpr, ASSIGNMENT) && Phrase(ts, j + 1, end, e.elseExpr, CONDITIONAL)
  }

  /** Left associative: the left operand is of the same level, the right one of the next. */
  ghost predicate BinaryOf(ts: seq<Token>, at: nat, i: nat, end: nat, e: Expr, level: int)
    requires e.Binary? && at <= i < end <= |ts| && 1 <= level <= 10
    decreases end - at - 1, 20
  {
    Phrase(ts, at, i, e.left, level) && Phrase(ts, i + 1, end, e.right, level + 1)
  }

  ghost predicate CastOf(ts: seq<Token>, at: nat, i: nat, end: nat, e: Expr)
    requires e.Cast? && at + 1 < i && i + e.depth < end <= |ts|
    decreases end - at - 1, 20
  {
    ts[at].kind.LParen? && Stars(ts, i, i + e.depth) && ts[i + e.depth].kind.RParen? && Phrase(ts, i + e.depth + 1, end, e.operand, CAST)
  }

  /** 6.5.1 and 6.5.2: names, literals, parentheses, index, call and member; and sizeof. */
  ghost predicate PostfixPhrase(ts: seq<Token>, at: nat, end: nat, e: Expr)
    requires at <= end <= |ts|
    decreases end - at, 0, 2
  {
    Parenthesised(ts, at, end, e) || PostfixForm(ts, at, end, e)
  }

  ghost predicate Parenthesised(ts: seq<Token>, at: nat, end: nat, e: Expr)
    requires at <= end <= |ts|
    decreases end - at, 0, 1
  {
    exists inner: nat | at < inner < end :: Newlines(ts, at + 1, inner) && InParentheses(ts, at, inner, end, e)
  }

  ghost predicate PostfixForm(ts: seq<Token>, at: nat, end: nat, e: Expr)
    requires at <= end <= |ts|
    decreases end - at, 0, 1
  {
    match e
    case Name(_) | Literal(_, _) | SizeofName(_) | SizeofType(_) => Spelled(ts, at, end, e)
    case Index(_, _) => exists i: nat | at <= i < end - 1 :: ts[i].kind.LBracket? && IndexOf(ts, at, i, end, e)
    case Call(_, _) => exists i: nat | at <= i < end :: ts[i].kind.LParen? && CallOf(ts, at, i, end, e)
    case Member(base, member, through) =>
      at + 1 < end && ts[end - 1] == Word(member) && IsDot(ts[end - 2], through) && Phrase(ts, at, end - 2, base, POSTFIX)
    case _ => false
  }

  ghost predicate InParentheses(ts: seq<Token>, at: nat, inner: nat, end: nat, e: Expr)
    requires at < inner < end <= |ts|
    decreases end - at - 1, 20
  {
    ts[at].kind.LParen? && ts[end - 1].kind.RParen? && Phrase(ts, inner, end - 1, e, ASSIGNMENT)
  }

  ghost predicate IndexOf(ts: seq<Token>, at: nat, i: nat, end: nat, e: Expr)
    requires e.Index? && at <= i < end - 1 && end <= |ts|
    decreases end - at - 1, 20
  {
    ts[end - 1].kind.RBracket? && Phrase(ts, at, i, e.base, POSTFIX) && Phrase(ts, i + 1, end - 1, e.index, ASSIGNMENT)
  }

  ghost predicate CallOf(ts: seq<Token>, at: nat, i: nat, end: nat, e: Expr)
    requires e.Call? && at <= i < end <= |ts|
    decreases end - at - 1, 24
  {
    Phrase(ts, at, i, e.callee, POSTFIX) && ArgumentsPhrase(ts, i + 1, end, e.arguments)
  }

  ghost predicate ArgumentsPhrase(ts: seq<Token>, at: nat, end: nat, arguments: seq<Expr>)
    requires at <= end <= |ts|
    decreases end - at, 23
  {
    if arguments == [] then at < end && Newlines(ts, at, end - 1) && ts[end - 1].kind.RParen?
    else exists first: nat | at <= first < end :: Newlines(ts, at, first) && ListPhrase(ts, first, end, arguments)
  }

  ghost predicate ListPhrase(ts: seq<Token>, at: nat, end: nat, arguments: seq<Expr>)
    requires at <= end <= |ts| && arguments != []
    decreases end - at, 22
  {
    exists i: nat, j: nat | at <= i <= j < end :: Newlines(ts, i, j) && ArgumentOf(ts, at, i, j, end, arguments)
  }

  ghost predicate ArgumentOf(ts: seq<Token>, at: nat, i: nat, j: nat, end: nat, arguments: seq<Expr>)
    requires at <= i <= j < end <= |ts| && arguments != []
    decreases end - at, 21
  {
    && Phrase(ts, at, i, arguments[0], ASSIGNMENT)
    && if |arguments| == 1 then j == end - 1 && ts[j].kind.RParen? else ts[j].kind.Comma? && ArgumentsPhrase(ts, j + 1, end, arguments[1..])
  }

  // ------------------------------------------------------------ the tables

  lemma TablesAgree(op: string, level: int)
    requires 1 <= level <= 10
    ensures op in OperatorsOf(level) <==> Precedence(op) == level
    ensures op in UNARY_OPERATORS <==> IsUnary(op)
    ensures op in ASSIGNMENT_OPERATORS <==> IsAssignment(op)
  {
  }

  // -------------------------------------------------------------- agreement

  lemma Unfold(ts: seq<Token>, at: nat, end: nat, e: Expr, level: int)
    requires at <= end <= |ts| && ASSIGNMENT <= level < POSTFIX
    ensures Phrase(ts, at, end, e, level) <==> Phrase(ts, at, end, e, level + 1) || Production(ts, at, end, e, level)
  {
    hide Production, PostfixPhrase;
  }

  /** The productions and the levels derive the same from every stretch of tokens. */
  lemma {:induction false} PhrasesAgree(ts: seq<Token>, at: nat, end: nat, e: Expr, level: int)
    requires at <= end <= |ts| && ASSIGNMENT <= level <= POSTFIX
    ensures Phrase(ts, at, end, e, level) <==> Derives(ts, at, end, e, level)
    decreases end - at, POSTFIX - level, 3
  {
    hide Phrase, Spelled, Wraps, Production, PostfixPhrase, Precedence;
    if level == POSTFIX {
      PostfixAgrees(ts, at, end, e);
      PostfixIsPhrase(ts, at, end, e);
    } else {
      Unfold(ts, at, end, e, level);
      PhrasesAgree(ts, at, end, e, level + 1);
      ProductionAgrees(ts, at, end, e, level);
    }
  }

  lemma PostfixIsPhrase(ts: seq<Token>, at: nat, end: nat, e: Expr)
    requires at <= end <= |ts|
    ensures Phrase(ts, at, end, e, POSTFIX) <==> PostfixPhrase(ts, at, end, e)
  {
    hide PostfixPhrase;
  }

  lemma {:induction false} ProductionAgrees(ts: seq<Token>, at: nat, end: nat, e: Expr, level: int)
    requires at <= end <= |ts| && ASSIGNMENT <= level < POSTFIX
    ensures Production(ts, at, end, e, level) <==> Level(e) == level && Spelled(ts, at, end, e)
    decreases end - at, POSTFIX - level, 2
  {
    hide Spelled, Production, Precedence;
    if e.Assignment? {
      AssignmentAgrees(ts, at, end, e);
    } else if e.Conditional? {
      ConditionalAgrees(ts, at, end, e);
    } else if e.Cast? {
      CastAgrees(ts, at, end, e);
    } else if e.Unary? {
      UnaryAgrees(ts, at, end, e);
    } else if e.Binary? {
      BinaryAgrees(ts, at, end, e, level);
    }
    OtherForms(ts, at, end, e, level);
  }

  /** A production of another form derives nothing, and no other form has this level. */
  lemma OtherForms(ts: seq<Token>, at: nat, end: nat, e: Expr, level: int)
    requires at <= end <= |ts| && ASSIGNMENT <= level < POSTFIX
    ensures !e.Assignment? && level == ASSIGNMENT ==> !Production(ts, at, end, e, level) && !(Level(e) == level && Spelled(ts, at, end, e))
    ensures !e.Conditional? && level == CONDITIONAL ==> !Production(ts, at, end, e, level) && !(Level(e) == level && Spelled(ts, at, end, e))
    ensures !e.Cast? && level == CAST ==> !Production(ts, at, end, e, level) && !(Level(e) == level && Spelled(ts, at, end, e))
    ensures !e.Unary? && level == UNARY ==> !Production(ts, at, end, e, level) && !(Level(e) == level && Spelled(ts, at, end, e))
    ensures !e.Binary? && 1 <= level <= 10 ==> !Production(ts, at, end, e, level) && !(Level(e) == level && Spelled(ts, at, end, e))
  {
    hide Phrase, Derives, Spells, OperatorsOf, DerivesArguments;
    OperatorsBelowCast(if e.Binary? then e.op else "");
    hide Precedence;
  }

  lemma {:induction false} AssignmentAgrees(ts: seq<Token>, at: nat, end: nat, e: Expr)
    requires at <= end <= |ts| && e.Assignment?
    ensures Production(ts, at, end, e, ASSIGNMENT) <==> Spelled(ts, at, end, e)
    decreases end - at, 0, 1
  {
    hide Phrase, Derives, IsAssignment;
    TablesAgree(e.op, 1);
    forall i: nat | at <= i < end ensures AssignmentOf(ts, at, i, end, e) == AssignmentAt(ts, at, i, end, e) {
      PhrasesAgree(ts, at, i, e.target, CONDITIONAL);
      PhrasesAgree(ts, i + 1, end, e.value, ASSIGNMENT);
    }
  }

  lemma {:induction false} ConditionalAgrees(ts: seq<Token>, at: nat, end: nat, e: Expr)
    requires at <= end <= |ts| && e.Conditional?
    ensures Production(ts, at, end, e, CONDITIONAL) <==> Spelled(ts, at, end, e)
    decreases end - at, 0, 1
  {
    hide Phrase, Derives;
    forall i: nat, j: nat | at <= i < j < end ensures ConditionalOf(ts, at, i, j, end, e) == ConditionalAt(ts, at, i, j, end, e) {
      PhrasesAgree(ts, at, i, e.condition, 1);
      PhrasesAgree(ts, i + 1, j, e.thenExpr, ASSIGNMENT);
      PhrasesAgree(ts, j + 1, end, e.elseExpr, CONDITIONAL);
    }
  }

  lemma {:induction false} BinaryAgrees(ts: seq<Token>, at: nat, end: nat, e: Expr, level: int)
    requires at <= end <= |ts| && e.Binary? && ASSIGNMENT <= level < POSTFIX
    ensures 1 <= level <= 10 ==> (Production(ts, at, end, e, level) <==> Precedence(e.op) == level && Spelled(ts, at, end, e))
    decreases end - at, 0, 1
  {
    hide Phrase, Derives, OperatorsOf;
    if 1 <= level <= 10 {
      TablesAgree(e.op, level);
      hide Precedence;
      if Precedence(e.op) == level {
        forall i: nat | at <= i < end ensures BinaryOf(ts, at, i, end, e, level) == BinaryAt(ts, at, i, end, e) {
          PhrasesAgree(ts, at, i, e.left, level);
          PhrasesAgree(ts, i + 1, end, e.right, level + 1);
        }
      }
    }
  }

  lemma {:induction false} CastAgrees(ts: seq<Token>, at: nat, end: nat, e: Expr)
    requires at <= end <= |ts| && e.Cast?
    ensures Production(ts, at, end, e, CAST) <==> Spelled(ts, at, end, e)
    decreases end - at, 0, 1
  {
    hide Phrase, Derives, Spells;
    forall i: nat | at + 1 < i && i + e.depth < end ensures CastOf(ts, at, i, end, e) == CastAt(ts, at, i, end, e) {
      PhrasesAgree(ts, i + e.depth + 1, end, e.operand, CAST);
    }
  }

  lemma {:induction false} UnaryAgrees(ts: seq<Token>, at: nat, end: nat, e: Expr)
    requires at <= end <= |ts| && e.Unary?
    ensures Production(ts, at, end, e, UNARY) <==> Spelled(ts, at, end, e)
    decreases end - at, 0, 1
  {
    hide Phrase, Derives, IsUnary;
    TablesAgree(e.op, 1);
    if at < end {
      PhrasesAgree(ts, at + 1, end, e.operand, UNARY);
    }
  }

  lemma {:induction false} PostfixAgrees(ts: seq<Token>, at: nat, end: nat, e: Expr)
    requires at <= end <= |ts|
    ensures PostfixPhrase(ts, at, end, e) <==> Derives(ts, at, end, e, POSTFIX)
    decreases end - at, 0, 2
  {
    hide PostfixForm, Spelled, Wraps, Parenthesised;
    WrapsAgree(ts, at, end, e);
    FormAgrees(ts, at, end, e);
    OperatorsBelowCast(if e.Binary? then e.op else "");
    hide Precedence;
  }

  lemma {:induction false} FormAgrees(ts: seq<Token>, at: nat, end: nat, e: Expr)
    requires at <= end <= |ts|
    ensures PostfixForm(ts, at, end, e) <==> Level(e) == POSTFIX && Spelled(ts, at, end, e)
    decreases end - at, 0, 1
  {
    OperatorsBelowCast(if e.Binary? then e.op else "");
    hide Precedence;
    match e
    case Index(_, _) => IndexAgrees(ts, at, end, e);
    case Call(_, _) => CallAgrees(ts, at, end, e);
    case Member(base, _, _) =>
      hide Phrase, Derives;
      if at + 1 < end {
        PhrasesAgree(ts, at, end - 2, base, POSTFIX);
      }
    case _ => hide Phrase, Derives, Spells, IsUnary, IsAssignment;
  }

  lemma {:induction false} IndexAgrees(ts: seq<Token>, at: nat, end: nat, e: Expr)
    requires at <= end <= |ts| && e.Index?
    ensures Spelled(ts, at, end, e) <==> PostfixForm(ts, at, end, e)
    decreases end - at, 0, 0
  {
    hide Phrase, Derives;
    forall i: nat | at <= i < end - 1 ensures IndexOf(ts, at, i, end, e) == IndexAt(ts, at, i, end, e) {
      PhrasesAgree(ts, at, i, e.base, POSTFIX);
      PhrasesAgree(ts, i + 1, end - 1, e.index, ASSIGNMENT);
    }
  }

  lemma {:induction false} CallAgrees(ts: seq<Token>, at: nat, end: nat, e: Expr)
    requires at <= end <= |ts| && e.Call?
    ensures Spelled(ts, at, end, e) <==> PostfixForm(ts, at, end, e)
    decreases end - at, 0, 0
  {
    hide Phrase, Derives, Spelled;
    forall i: nat | at <= i < end ensures CallOf(ts, at, i, end, e) == CallAt(ts, at, i, end, e) {
      PhrasesAgree(ts, at, i, e.callee, POSTFIX);
      ArgumentsAgree(ts, i + 1, end, e.arguments);
    }
    if Spelled(ts, at, end, e) {
      var i := CallInside(ts, at, end, e);
      assert ts[i].kind.LParen? && CallOf(ts, at, i, end, e);
    }
    if PostfixForm(ts, at, end, e) {
      var i: nat :| at <= i < end && ts[i].kind.LParen? && CallOf(ts, at, i, end, e);
      CallSpelled(ts, at, i, end, e);
    }
  }

  lemma ParenthesesInside(ts: seq<Token>, at: nat, end: nat, e: Expr) returns (inner: nat)
    requires at <= end <= |ts| && Parenthesised(ts, at, end, e)
    ensures at < inner < end && Newlines(ts, at + 1, inner) && InParentheses(ts, at, inner, end, e)
  {
    hide Phrase;
    inner :| at < inner < end && Newlines(ts, at + 1, inner) && InParentheses(ts, at, inner, end, e);
  }

  lemma {:induction false} WrapsAgree(ts: seq<Token>, at: nat, end: nat, e: Expr)
    requires at <= end <= |ts|
    ensures Wraps(ts, at, end, e) <==> Parenthesised(ts, at, end, e)
    decreases end - at, 0, 1
  {
    hide Phrase, Derives;
    forall inner: nat | at < inner < end ensures InParentheses(ts, at, inner, end, e) == WrapsFrom(ts, at, inner, end, e) {
      PhrasesAgree(ts, inner, end - 1, e, ASSIGNMENT);
    }
    if Wraps(ts, at, end, e) {
      var inner := WrapsInside(ts, at, end, e);
      assert Newlines(ts, at + 1, inner) && InParentheses(ts, at, inner, end, e);
    }
    if Parenthesised(ts, at, end, e) {
      var inner := ParenthesesInside(ts, at, end, e);
      assert Newlines(ts, at + 1, inner) && WrapsFrom(ts, at, inner, end, e);
    }
  }

  lemma {:induction false} ArgumentsAgree(ts: seq<Token>, at: nat, end: nat, arguments: seq<Expr>)
    requires at <= end <= |ts|
    ensures ArgumentsPhrase(ts, at, end, arguments) <==> DerivesArguments(ts, at, end, arguments)
    decreases end - at, POSTFIX + 2, 1
  {
    hide ListPhrase, DerivesList;
    if arguments != [] {
      forall first: nat | at <= first < end ensures ListPhrase(ts, first, end, arguments) == DerivesList(ts, first, end, arguments) {
        ListAgrees(ts, first, end, arguments);
      }
    }
  }

  lemma {:induction false} ListAgrees(ts: seq<Token>, at: nat, end: nat, arguments: seq<Expr>)
    requires at <= end <= |ts| && arguments != []
    ensures ListPhrase(ts, at, end, arguments) <==> DerivesList(ts, at, end, arguments)
    decreases end - at, POSTFIX + 2, 0
  {
    hide Phrase, Derives, ArgumentsPhrase, DerivesArguments;
    forall i: nat, j: nat | at <= i <= j < end ensures ArgumentOf(ts, at, i, j, end, arguments) == ArgumentAt(ts, at, i, j, end, arguments) {
      PhrasesAgree(ts, at, i, arguments[0], ASSIGNMENT);
      if |arguments| > 1 {
        ArgumentsAgree(ts, j + 1, end, arguments[1..]);
      }
    }
  }

  /** The parser reads a well-formed tree from a stretch of tokens exactly when the productions make them a phrase for it. */
  lemma ParsesByTheStandard(ts: seq<Token>, at: nat, end: nat, e: Expr, typedefs: set<string>)
    requires at <= end <= |ts| && Lexed(ts, at, end) && WellFormed(e, typedefs) && Stops(Look(ts, end), ASSIGNMENT)
    ensures ParseAssignment(ts, at, typedefs) == Some(Parsed(e, end)) <==> Phrase(ts, at, end, e, ASSIGNMENT)
  {
    hide ParseAssignment, Phrase, Derives, WellFormed, Stops, Lexed;
    ParseExactly(ts, at, end, e, typedefs);
    PhrasesAgree(ts, at, end, e, ASSIGNMENT);
  }

  /** For one: && binds tighter than ||. */
  lemma AndBindsTighter(a: string, b: string, c: string, typedefs: set<string>)
    requires WellFormed(Name(a), typedefs) && WellFormed(Name(b), typedefs) && WellFormed(Name(c), typedefs)
    ensures var ts := [Word(a), Op("||"), Word(b), Op("&&"), Word(c)];
      ParseAssignment(ts, 0, typedefs) == Some(Parsed(Binary(Name(a), "||", Binary(Name(b), "&&", Name(c))), 5))
  {
    var ts := [Word(a), Op("||"), Word(b), Op("&&"), Word(c)];
    var inner := Binary(Name(b), "&&", Name(c));
    var e := Binary(Name(a), "||", inner);
    hide Derives, Spelled, ParseAssignment, IsTypeWord;
    NameDerives(ts, 0, a, 1);
    NameDerives(ts, 2, b, 2);
    NameDerives(ts, 4, c, 3);
    assert WellFormed(inner, typedefs) && WellFormed(e, typedefs);
    assert IsSane(ts[0]) && IsSane(ts[1]) && IsSane(ts[2]) && IsSane(ts[3]) && IsSane(ts[4]);
    EndStops();
    hide WellFormed, Stops, IsSane;
    BinarySpelled(ts, 2, 3, 5, inner);
    SpelledDerives(ts, 2, 5, inner);
    BinarySpelled(ts, 0, 1, 5, e);
    SpelledDerives(ts, 0, 5, e);
    Looser(ts, 0, 5, e, 1, ASSIGNMENT);
    ParseExactly(ts, 0, 5, e, typedefs);
  }

  lemma EndStops()
    ensures Stops(END, ASSIGNMENT)
  {
  }

  lemma NameDerives(ts: seq<Token>, at: nat, name: string, context: int)
    requires at < |ts| && ts[at] == Word(name) && name != "sizeof" && context <= POSTFIX
    ensures Derives(ts, at, at + 1, Name(name), context)
  {
    assert Spelled(ts, at, at + 1, Name(name));
  }
}
