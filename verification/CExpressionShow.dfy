/**
  A rendering of trees with parentheses only where the grammar's levels call for them. The
  grammar derives it, so the parser inverts it, and no shorter list of tokens parses alike.
 */
module CExpressionShow {
  import opened Basics
  import opened CTypeNames
  import opened CExpressions
  import opened CExpressionGrammar
  import opened CExpressionReading

  const OPEN: Token := Token(LParen, "(")
  const CLOSE: Token := Token(RParen, ")")

  function ShowBase(base: BaseType, name: string): seq<Token> {
    match base
    case StructType => [Word("struct"), Word(name)]
    case TypedefName => [Word(name)]
    case _ => seq(|Words(base)|, i requires 0 <= i < |Words(base)| => Word(Words(base)[i]))
  }

  function ShowQualifiers(t: CType): seq<Token> {
    (if t.isConst then [Word("const")] else []) + (if t.isVolatile then [Word("volatile")] else [])
  }

  function ShowType(t: CType): seq<Token> {
    ShowQualifiers(t) + ShowBase(t.base, t.name)
  }

  function ShowStars(depth: nat): seq<Token> {
    seq(depth, _ => Op("*"))
  }

  /** Parentheses only where the context binds tighter than the expression. */
  function Show(e: Expr, context: int): seq<Token>
    decreases e, 1
  {
    if Level(e) < context then [OPEN] + Raw(e) + [CLOSE] else Raw(e)
  }

  function Raw(e: Expr): seq<Token>
    decreases e, 0
  {
    match e
    case Name(name) => [Word(name)]
    case Literal(kind, text) => [Token(kind, text)]
    case SizeofName(name) => [Word("sizeof"), OPEN, Word(name), CLOSE]
    case SizeofType(t) => [Word("sizeof"), OPEN] + ShowType(t) + [CLOSE]
    case Cast(t, depth, operand) => [OPEN] + ShowType(t) + ShowStars(depth) + [CLOSE] + Show(operand, CAST)
    case Unary(op, operand) => [Op(op)] + Show(operand, UNARY)
    case Binary(left, op, right) => Show(left, Precedence(op)) + [Op(op)] + Show(right, Precedence(op) + 1)
    case Conditional(c, t, f) =>
      Show(c, 1) + [Token(Question, "?")] + Show(t, ASSIGNMENT) + [Token(Colon, ":")] + Show(f, CONDITIONAL)
    case Assignment(target, op, value) => Show(target, CONDITIONAL) + [Op(op)] + Show(value, ASSIGNMENT)
    case Index(base, index) => Show(base, POSTFIX) + [Token(LBracket, "[")] + Show(index, ASSIGNMENT) + [Token(RBracket, "]")]
    case Call(callee, arguments) => Show(callee, POSTFIX) + [OPEN] + ShowArguments(arguments) + [CLOSE]
    case Member(base, member, through) =>
      Show(base, POSTFIX) + [if through then Op("->") else Token(Dot, "."), Word(member)]
  }

  function ShowArguments(arguments: seq<Expr>): seq<Token>
    decreases arguments, 2
  {
    if arguments == [] then []
    else if |arguments| == 1 then Show(arguments[0], ASSIGNMENT)
    else Show(arguments[0], ASSIGNMENT) + [Token(Comma, ",")] + ShowArguments(arguments[1..])
  }

  // ------------------------------------------------------- token positions

  predicate Has(ts: seq<Token>, at: nat, part: seq<Token>) {
    at + |part| <= |ts| && ts[at..at + |part|] == part
  }

  lemma HasConcat(ts: seq<Token>, at: nat, a: seq<Token>, b: seq<Token>)
    requires Has(ts, at, a + b)
    ensures Has(ts, at, a) && Has(ts, at + |a|, b)
  {
    assert ts[at..at + |a + b|][..|a|] == ts[at..at + |a|];
    assert ts[at..at + |a + b|][|a|..] == ts[at + |a|..at + |a + b|];
  }

  lemma HasOne(ts: seq<Token>, at: nat, t: Token)
    requires Has(ts, at, [t])
    ensures at < |ts| && ts[at] == t && Look(ts, at) == t
  {
    assert ts[at..at + 1][0] == ts[at];
  }

  lemma HasThree(ts: seq<Token>, at: nat, a: seq<Token>, t: Token, b: seq<Token>)
    requires Has(ts, at, a + [t] + b)
    ensures Has(ts, at, a) && Look(ts, at + |a|) == t && at + |a| < |ts| && Has(ts, at + |a| + 1, b)
  {
    HasConcat(ts, at, a + [t], b);
    HasConcat(ts, at, a, [t]);
    HasOne(ts, at + |a|, t);
  }

  // ------------------------------------------------- the grammar derives it

  /** A rendered type is one of its spellings. */
  lemma TypeIsSpelled(t: CType, typedefs: set<string>)
    requires WellTyped(t, typedefs)
    ensures Spells(ShowType(t), t)
  {
    var w, k := ShowType(t), |ShowQualifiers(t)|;
    assert w[..k] == ShowQualifiers(t) && w[k..] == ShowBase(t.base, t.name);
    QualifiersMentioned(t);
    BaseIsShown(t, typedefs);
    assert SpellsFrom(w, t, k);
  }

  lemma QualifiersMentioned(t: CType)
    ensures var q := ShowQualifiers(t);
      AllQualifiers(q) && t.isConst == Mentions(q, "const") && t.isVolatile == Mentions(q, "volatile")
  {
    var q := ShowQualifiers(t);
    if t.isConst {
      assert q[0].lexeme == "const";
    }
    if t.isVolatile {
      assert q[|q| - 1].lexeme == "volatile";
    }
  }

  lemma BaseIsShown(t: CType, typedefs: set<string>)
    requires WellTyped(t, typedefs)
    ensures SpellsBase(ShowBase(t.base, t.name), t.base, t.name)
  {
    hide IsKeyword;
    if !t.base.StructType? && !t.base.TypedefName? {
      FirstWord(t.base);
      hide Words;
      assert Reads(ShowBase(t.base, t.name), Words(t.base));
    }
  }

  lemma HasSame(ts: seq<Token>, at: nat, part: seq<Token>)
    requires Has(ts, at, part)
    ensures at + |part| <= |ts| && ts[at..at + |part|] == part
  {
  }

  lemma {:induction false} ShowDerives(ts: seq<Token>, at: nat, e: Expr, context: int, typedefs: set<string>)
    requires WellFormed(e, typedefs) && Has(ts, at, Show(e, context)) && context <= POSTFIX
    ensures at + |Show(e, context)| <= |ts| && Derives(ts, at, at + |Show(e, context)|, e, context)
    decreases e, 3
  {
    hide Raw, Spelled, Derives, Level, WellFormed, Has;
    HasSame(ts, at, Show(e, context));
    if Level(e) < context {
      WrappedShows(ts, at, e, context, typedefs);
    } else {
      RawSpelled(ts, at, e, typedefs);
      SpelledDerives(ts, at, at + |Raw(e)|, e);
      Looser(ts, at, at + |Raw(e)|, e, Level(e), context);
    }
  }

  lemma {:induction false} WrappedShows(ts: seq<Token>, at: nat, e: Expr, context: int, typedefs: set<string>)
    requires WellFormed(e, typedefs) && Level(e) < context && Has(ts, at, [OPEN] + Raw(e) + [CLOSE])
    ensures at + |Raw(e)| + 2 <= |ts| && Derives(ts, at, at + |Raw(e)| + 2, e, context)
    decreases e, 2
  {
    hide Raw, Spelled, Level, WellFormed, Has;
    assert [OPEN] + Raw(e) + [CLOSE] == [OPEN] + (Raw(e) + [CLOSE]);
    HasSame(ts, at, [OPEN] + Raw(e) + [CLOSE]);
    HasConcat(ts, at, [OPEN], Raw(e) + [CLOSE]);
    HasOne(ts, at, OPEN);
    HasConcat(ts, at + 1, Raw(e), [CLOSE]);
    HasOne(ts, at + 1 + |Raw(e)|, CLOSE);
    RawSpelled(ts, at + 1, e, typedefs);
    LevelOf(e, typedefs);
    SpelledDerives(ts, at + 1, at + 1 + |Raw(e)|, e);
    Looser(ts, at + 1, at + 1 + |Raw(e)|, e, Level(e), ASSIGNMENT);
    assert Newlines(ts, at + 1, at + 1) && WrapsFrom(ts, at, at + 1, at + |Raw(e)| + 2, e);
  }

  lemma {:induction false} RawSpelled(ts: seq<Token>, at: nat, e: Expr, typedefs: set<string>)
    requires WellFormed(e, typedefs) && Has(ts, at, Raw(e))
    ensures at + |Raw(e)| <= |ts| && Spelled(ts, at, at + |Raw(e)|, e)
    decreases e, 1
  {
    hide Spelled, Raw, Has, IsTypeWord, IsUnary, IsAssignment, Precedence, WellTyped;
    match e
    case Unary(_, _) => UnaryShown(ts, at, e, typedefs);
    case Binary(_, _, _) => BinaryShown(ts, at, e, typedefs);
    case Conditional(_, _, _) => ConditionalShown(ts, at, e, typedefs);
    case Assignment(_, _, _) => AssignmentShown(ts, at, e, typedefs);
    case Index(_, _) => IndexShown(ts, at, e, typedefs);
    case Call(_, _) => CallShown(ts, at, e, typedefs);
    case Member(_, _, _) => MemberShown(ts, at, e, typedefs);
    case Cast(_, _, _) => CastShown(ts, at, e, typedefs);
    case SizeofType(_) => SizeofShown(ts, at, e, typedefs);
    case _ => LeafShown(ts, at, e);
  }

  lemma LeafShown(ts: seq<Token>, at: nat, e: Expr)
    requires (e.Name? && e.name != "sizeof") || (e.Literal? && IsLiteral(e.kind)) || e.SizeofName?
    requires Has(ts, at, Raw(e))
    ensures at + |Raw(e)| <= |ts| && Spelled(ts, at, at + |Raw(e)|, e)
  {
    var part := ts[at..at + |Raw(e)|];
    assert part[0] == ts[at];
    if e.SizeofName? {
      assert part[1] == ts[at + 1] && part[2] == ts[at + 2] && part[3] == ts[at + 3];
    }
  }

  lemma {:induction false} UnaryShown(ts: seq<Token>, at: nat, e: Expr, typedefs: set<string>)
    requires e.Unary? && WellFormed(e, typedefs) && Has(ts, at, Raw(e))
    ensures at + |Raw(e)| <= |ts| && Spelled(ts, at, at + |Raw(e)|, e)
    decreases e, 0
  {
    hide Derives, Show, Has, IsUnary;
    HasSame(ts, at, Raw(e));
    HasConcat(ts, at, [Op(e.op)], Show(e.operand, UNARY));
    HasOne(ts, at, Op(e.op));
    ShowDerives(ts, at + 1, e.operand, UNARY, typedefs);
  }

  lemma {:induction false} BinaryShown(ts: seq<Token>, at: nat, e: Expr, typedefs: set<string>)
    requires e.Binary? && WellFormed(e, typedefs) && Has(ts, at, Raw(e))
    ensures at + |Raw(e)| <= |ts| && Spelled(ts, at, at + |Raw(e)|, e)
    decreases e, 0
  {
    hide Spelled, Derives, Show, Has, Precedence;
    var p := Precedence(e.op);
    OperatorsBelowCast(e.op);
    HasSame(ts, at, Raw(e));
    HasThree(ts, at, Show(e.left, p), Op(e.op), Show(e.right, p + 1));
    var i := at + |Show(e.left, p)|;
    ShowDerives(ts, at, e.left, p, typedefs);
    ShowDerives(ts, i + 1, e.right, p + 1, typedefs);
    BinarySpelled(ts, at, i, at + |Raw(e)|, e);
  }

  lemma {:induction false} AssignmentShown(ts: seq<Token>, at: nat, e: Expr, typedefs: set<string>)
    requires e.Assignment? && WellFormed(e, typedefs) && Has(ts, at, Raw(e))
    ensures at + |Raw(e)| <= |ts| && Spelled(ts, at, at + |Raw(e)|, e)
    decreases e, 0
  {
    hide Spelled, Derives, Show, Has, IsAssignment;
    HasSame(ts, at, Raw(e));
    HasThree(ts, at, Show(e.target, CONDITIONAL), Op(e.op), Show(e.value, ASSIGNMENT));
    var i := at + |Show(e.target, CONDITIONAL)|;
    ShowDerives(ts, at, e.target, CONDITIONAL, typedefs);
    ShowDerives(ts, i + 1, e.value, ASSIGNMENT, typedefs);
    AssignmentSpelled(ts, at, i, at + |Raw(e)|, e);
  }

  lemma {:induction false} ConditionalShown(ts: seq<Token>, at: nat, e: Expr, typedefs: set<string>)
    requires e.Conditional? && WellFormed(e, typedefs) && Has(ts, at, Raw(e))
    ensures at + |Raw(e)| <= |ts| && Spelled(ts, at, at + |Raw(e)|, e)
    decreases e, 0
  {
    hide Derives, Spelled, Show, Has, Raw;
    var i, j := ConditionalParts(ts, at, e);
    ShowDerives(ts, at, e.condition, 1, typedefs);
    ShowDerives(ts, i + 1, e.thenExpr, ASSIGNMENT, typedefs);
    ShowDerives(ts, j + 1, e.elseExpr, CONDITIONAL, typedefs);
    ConditionalSpelled(ts, at, i, j, at + |Raw(e)|, e);
  }

  lemma ConditionalParts(ts: seq<Token>, at: nat, e: Expr) returns (i: nat, j: nat)
    requires e.Conditional? && Has(ts, at, Raw(e))
    ensures i == at + |Show(e.condition, 1)| && j == i + 1 + |Show(e.thenExpr, ASSIGNMENT)|
    ensures j < at + |Raw(e)| == j + 1 + |Show(e.elseExpr, CONDITIONAL)| <= |ts| && ts[i].kind.Question? && ts[j].kind.Colon?
    ensures Has(ts, at, Show(e.condition, 1)) && Has(ts, i + 1, Show(e.thenExpr, ASSIGNMENT)) && Has(ts, j + 1, Show(e.elseExpr, CONDITIONAL))
  {
    hide Show, Has;
    var a, b, c := Show(e.condition, 1), Show(e.thenExpr, ASSIGNMENT), Show(e.elseExpr, CONDITIONAL);
    var q, k := Token(Question, "?"), Token(Colon, ":");
    assert Raw(e) == a + [q] + b + [k] + c;
    HasSame(ts, at, Raw(e));
    HasThree(ts, at, a + [q] + b, k, c);
    HasThree(ts, at, a, q, b);
    i, j := at + |a|, at + |a| + 1 + |b|;
  }

  lemma {:induction false} IndexShown(ts: seq<Token>, at: nat, e: Expr, typedefs: set<string>)
    requires e.Index? && WellFormed(e, typedefs) && Has(ts, at, Raw(e))
    ensures at + |Raw(e)| <= |ts| && Spelled(ts, at, at + |Raw(e)|, e)
    decreases e, 0
  {
    hide Spelled, Derives, Show, Has;
    var a, b := Show(e.base, POSTFIX), Show(e.index, ASSIGNMENT);
    assert Raw(e) == a + [Token(LBracket, "[")] + b + [Token(RBracket, "]")] + [];
    HasSame(ts, at, Raw(e));
    HasThree(ts, at, a + [Token(LBracket, "[")] + b, Token(RBracket, "]"), []);
    HasThree(ts, at, a, Token(LBracket, "["), b);
    ShowDerives(ts, at, e.base, POSTFIX, typedefs);
    ShowDerives(ts, at + |a| + 1, e.index, ASSIGNMENT, typedefs);
    IndexSpelled(ts, at, at + |a|, at + |Raw(e)|, e);
  }

  lemma {:induction false} MemberShown(ts: seq<Token>, at: nat, e: Expr, typedefs: set<string>)
    requires e.Member? && WellFormed(e, typedefs) && Has(ts, at, Raw(e))
    ensures at + |Raw(e)| <= |ts| && Spelled(ts, at, at + |Raw(e)|, e)
    decreases e, 0
  {
    hide Derives, Show, Has;
    var a, t := Show(e.base, POSTFIX), if e.throughPointer then Op("->") else Token(Dot, ".");
    assert Raw(e) == a + [t] + [Word(e.member)];
    HasSame(ts, at, Raw(e));
    HasThree(ts, at, a, t, [Word(e.member)]);
    HasOne(ts, at + |a| + 1, Word(e.member));
    ShowDerives(ts, at, e.base, POSTFIX, typedefs);
  }

  lemma {:induction false} CastShown(ts: seq<Token>, at: nat, e: Expr, typedefs: set<string>)
    requires e.Cast? && WellFormed(e, typedefs) && Has(ts, at, Raw(e))
    ensures at + |Raw(e)| <= |ts| && Spelled(ts, at, at + |Raw(e)|, e)
    decreases e, 0
  {
    hide Derives, Spelled, Show, Has, Raw, ShowType, WellTyped, Spells;
    var i := CastParts(ts, at, e);
    TypeIsSpelled(e.ctype, typedefs);
    TypeHasWords(e.ctype, typedefs);
    ShowDerives(ts, i + e.depth + 1, e.operand, CAST, typedefs);
    CastSpelled(ts, at, i, at + |Raw(e)|, e);
  }

  lemma CastParts(ts: seq<Token>, at: nat, e: Expr) returns (i: nat)
    requires e.Cast? && Has(ts, at, Raw(e))
    ensures i == at + 1 + |ShowType(e.ctype)| && at + |Raw(e)| == i + e.depth + 1 + |Show(e.operand, CAST)| <= |ts|
    ensures ts[at] == OPEN && ts[at + 1..i] == ShowType(e.ctype) && Stars(ts, i, i + e.depth) && ts[i + e.depth] == CLOSE
    ensures Has(ts, i + e.depth + 1, Show(e.operand, CAST))
  {
    hide Show, Has, ShowType;
    var a, b, c := ShowType(e.ctype), ShowStars(e.depth), Show(e.operand, CAST);
    assert Raw(e) == ([] + [OPEN] + (a + b)) + [CLOSE] + c;
    HasSame(ts, at, Raw(e));
    HasThree(ts, at, [] + [OPEN] + (a + b), CLOSE, c);
    HasThree(ts, at, [], OPEN, a + b);
    HasConcat(ts, at + 1, a, b);
    HasSame(ts, at + 1, a);
    i := at + 1 + |a|;
    HasSame(ts, i, b);
    assert forall j | i <= j < i + e.depth :: ts[j] == b[j - i];
  }

  lemma TypeHasWords(t: CType, typedefs: set<string>)
    requires WellTyped(t, typedefs)
    ensures |ShowType(t)| > 0
  {
    hide IsKeyword;
    BaseIsShown(t, typedefs);
  }

  lemma SizeofShown(ts: seq<Token>, at: nat, e: Expr, typedefs: set<string>)
    requires e.SizeofType? && WellFormed(e, typedefs) && Has(ts, at, Raw(e))
    ensures at + |Raw(e)| <= |ts| && Spelled(ts, at, at + |Raw(e)|, e)
  {
    hide Has, ShowType, WellTyped, Spells, IsTypeWord;
    var a := ShowType(e.ctype);
    assert Raw(e) == [Word("sizeof")] + [OPEN] + (a + [CLOSE] + []);
    HasSame(ts, at, Raw(e));
    HasThree(ts, at, [Word("sizeof")], OPEN, a + [CLOSE] + []);
    HasOne(ts, at, Word("sizeof"));
    HasThree(ts, at + 2, a, CLOSE, []);
    HasSame(ts, at + 2, a);
    TypeIsSpelled(e.ctype, typedefs);
    TypeHasWords(e.ctype, typedefs);
  }

  lemma {:induction false} CallShown(ts: seq<Token>, at: nat, e: Expr, typedefs: set<string>)
    requires e.Call? && WellFormed(e, typedefs) && Has(ts, at, Raw(e))
    ensures at + |Raw(e)| <= |ts| && Spelled(ts, at, at + |Raw(e)|, e)
    decreases e, 0
  {
    hide Spelled, Derives, DerivesArguments, Show, ShowArguments, Has;
    var a, b := Show(e.callee, POSTFIX), ShowArguments(e.arguments) + [CLOSE];
    assert Raw(e) == a + [OPEN] + b;
    HasSame(ts, at, Raw(e));
    HasThree(ts, at, a, OPEN, b);
    ShowDerives(ts, at, e.callee, POSTFIX, typedefs);
    ArgumentsShown(ts, at + |a| + 1, e.arguments, typedefs);
    CallSpelled(ts, at, at + |a|, at + |Raw(e)|, e);
  }

  lemma {:induction false} ArgumentsShown(ts: seq<Token>, at: nat, arguments: seq<Expr>, typedefs: set<string>)
    requires Has(ts, at, ShowArguments(arguments) + [CLOSE]) && AllWellFormed(arguments, typedefs)
    ensures at + |ShowArguments(arguments)| + 1 <= |ts|
    ensures DerivesArguments(ts, at, at + |ShowArguments(arguments)| + 1, arguments)
    decreases arguments, 3
  {
    hide Derives, Show, Has, WellFormed;
    var end := at + |ShowArguments(arguments)| + 1;
    HasSame(ts, at, ShowArguments(arguments) + [CLOSE]);
    if arguments == [] {
      assert ShowArguments(arguments) + [CLOSE] == [CLOSE];
      HasOne(ts, at, CLOSE);
    } else {
      var first := Show(arguments[0], ASSIGNMENT);
      var i := at + |first|;
      if |arguments| == 1 {
        assert ShowArguments(arguments) + [CLOSE] == first + [CLOSE] + [];
        HasThree(ts, at, first, CLOSE, []);
      } else {
        var rest := ShowArguments(arguments[1..]) + [CLOSE];
        assert ShowArguments(arguments) + [CLOSE] == first + [Token(Comma, ",")] + rest;
        HasThree(ts, at, first, Token(Comma, ","), rest);
        ArgumentsShown(ts, i + 1, arguments[1..], typedefs);
      }
      ShowDerives(ts, at, arguments[0], ASSIGNMENT, typedefs);
      assert Newlines(ts, i, i) && ArgumentAt(ts, at, i, i, end, arguments);
      assert Newlines(ts, at, at) && DerivesList(ts, at, end, arguments);
    }
  }

  // --------------------------------------------------------- the parser inverts it

  predicate AllSane(w: seq<Token>) {
    forall i | 0 <= i < |w| :: IsSane(w[i])
  }

  lemma {:induction false} ShowSane(e: Expr, context: int, typedefs: set<string>)
    requires WellFormed(e, typedefs)
    ensures AllSane(Show(e, context))
    decreases e, 1, 0
  {
    hide Raw, Level, WellFormed, IsSane;
    assert IsSane(OPEN) && IsSane(CLOSE) by { PartsSane(); }
    RawSane(e, typedefs);
  }

  lemma PartsSane()
    ensures IsSane(OPEN) && IsSane(CLOSE) && IsSane(Token(Question, "?")) && IsSane(Token(Colon, ":"))
    ensures IsSane(Token(LBracket, "[")) && IsSane(Token(RBracket, "]")) && IsSane(Token(Comma, ",")) && IsSane(Token(Dot, "."))
    ensures forall x: string :: IsSane(Word(x)) && IsSane(Op(x))
  {
  }

  lemma TypeSane(t: CType)
    ensures AllSane(ShowType(t))
  {
    hide Words, IsSane;
    PartsSane();
  }

  lemma {:induction false} RawSane(e: Expr, typedefs: set<string>)
    requires WellFormed(e, typedefs)
    ensures AllSane(Raw(e))
    decreases e, 0, 1
  {
    hide Show, ShowType, IsSane, IsTypeWord, IsUnary, IsAssignment, Precedence, WellTyped;
    PartsSane();
    match e
    case Name(_) =>
    case SizeofName(_) =>
    case Literal(kind, text) => LiteralSane(kind, text);
    case SizeofType(t) => TypeSane(t);
    case Unary(_, operand) => ShowSane(operand, UNARY, typedefs);
    case Binary(left, op, right) =>
      ShowSane(left, Precedence(op), typedefs);
      ShowSane(right, Precedence(op) + 1, typedefs);
    case Assignment(target, _, value) =>
      ShowSane(target, CONDITIONAL, typedefs);
      ShowSane(value, ASSIGNMENT, typedefs);
    case Member(base, _, _) => ShowSane(base, POSTFIX, typedefs);
    case _ => LongSane(e, typedefs);
  }

  lemma {:induction false} LongSane(e: Expr, typedefs: set<string>)
    requires (e.Cast? || e.Conditional? || e.Index? || e.Call?) && WellFormed(e, typedefs)
    ensures AllSane(Raw(e))
    decreases e, 0, 0
  {
    hide Show, ShowType, IsSane, WellTyped;
    PartsSane();
    match e
    case Cast(t, _, operand) =>
      TypeSane(t);
      ShowSane(operand, CAST, typedefs);
    case Conditional(c, t, f) =>
      ShowSane(c, 1, typedefs);
      ShowSane(t, ASSIGNMENT, typedefs);
      ShowSane(f, CONDITIONAL, typedefs);
    case Index(base, index) =>
      ShowSane(base, POSTFIX, typedefs);
      ShowSane(index, ASSIGNMENT, typedefs);
    case Call(callee, arguments) =>
      ShowSane(callee, POSTFIX, typedefs);
      ArgumentsSane(arguments, typedefs);
  }

  lemma LiteralSane(kind: TokenKind, text: string)
    requires IsLiteral(kind)
    ensures IsSane(Token(kind, text))
  {
  }

  lemma {:induction false} ArgumentsSane(arguments: seq<Expr>, typedefs: set<string>)
    requires AllWellFormed(arguments, typedefs)
    ensures AllSane(ShowArguments(arguments))
    decreases arguments, 2, 0
  {
    hide Show, IsSane, WellFormed;
    PartsSane();
    if arguments != [] {
      ShowSane(arguments[0], ASSIGNMENT, typedefs);
      ArgumentsSane(arguments[1..], typedefs);
    }
  }

  /** The rendering in front of other tokens is a reading of the tree. */
  lemma ShowReads(before: seq<Token>, e: Expr, context: int, rest: seq<Token>, typedefs: set<string>)
    requires WellFormed(e, typedefs) && context <= POSTFIX
    ensures var part := Show(e, context);
      && Read(before + part + rest, |before|, |before| + |part|, e, context, typedefs)
      && Look(before + part + rest, |before| + |part|) == Look(rest, 0)
  {
    hide Show, WellFormed, IsSane, Derives;
    var part := Show(e, context);
    var ts, at := before + part + rest, |before|;
    assert ts[at..at + |part|] == part;
    ShowSane(e, context, typedefs);
    assert forall i | at <= i < at + |part| :: ts[i] == part[i - at];
    ShowDerives(ts, at, e, context, typedefs);
  }

  /** The parser inverts the rendering before any token that cannot continue it. */
  lemma ParseOfShow(e: Expr, rest: seq<Token>, typedefs: set<string>)
    requires WellFormed(e, typedefs) && Stops(Look(rest, 0), ASSIGNMENT)
    ensures ParseAssignment(Show(e, ASSIGNMENT) + rest, 0, typedefs) == Some(Parsed(e, |Show(e, ASSIGNMENT)|))
  {
    hide Show, ParseAssignment, WellFormed, Stops, Read;
    ShowReads([], e, ASSIGNMENT, rest, typedefs);
    assert [] + Show(e, ASSIGNMENT) + rest == Show(e, ASSIGNMENT) + rest;
    AssignmentReads(Show(e, ASSIGNMENT) + rest, 0, |Show(e, ASSIGNMENT)|, e, typedefs);
  }

  /** Distinct trees have distinct renderings. */
  lemma ShowIsInjective(a: Expr, b: Expr, typedefs: set<string>)
    requires WellFormed(a, typedefs) && WellFormed(b, typedefs) && Show(a, ASSIGNMENT) == Show(b, ASSIGNMENT)
    ensures a == b
  {
    hide Show, ParseAssignment, WellFormed;
    ParseOfShow(a, [], typedefs);
    ParseOfShow(b, [], typedefs);
  }

  // ----------------------------------------------------------- and is shortest

  lemma TypeIsShortest(w: seq<Token>, t: CType)
    requires Spells(w, t)
    ensures |ShowType(t)| <= |w|
  {
    var k: nat :| k <= |w| && SpellsFrom(w, t, k);
    BaseIsShortest(w[k..], t.base, t.name);
    hide SpellsBase, Words, IsKeyword;
    if t.isConst {
      var i :| 0 <= i < k && w[..k][i].lexeme == "const";
      if t.isVolatile {
        var j :| 0 <= j < k && w[..k][j].lexeme == "volatile";
        assert i != j;
      }
    } else if t.isVolatile {
      var j :| 0 <= j < k && w[..k][j].lexeme == "volatile";
    }
  }

  lemma BaseIsShortest(w: seq<Token>, base: BaseType, name: string)
    requires SpellsBase(w, base, name)
    ensures |ShowBase(base, name)| <= |w|
  {
    hide Words, IsKeyword;
  }

  /** No spelling of a tree is shorter than its rendering, so each pair of parentheses in it is needed. */
  lemma {:induction false} ShowIsShortest(ts: seq<Token>, at: nat, end: nat, e: Expr, context: int)
    requires at <= end <= |ts| && Derives(ts, at, end, e, context)
    ensures |Show(e, context)| <= end - at
    decreases end - at, 1
  {
    hide Raw, Spelled, Level, Wraps;
    if Wraps(ts, at, end, e) {
      var inner := WrapsInside(ts, at, end, e);
      ShowIsShortest(ts, inner, end - 1, e, ASSIGNMENT);
    } else {
      RawIsShortest(ts, at, end, e);
    }
  }

  lemma {:induction false} RawIsShortest(ts: seq<Token>, at: nat, end: nat, e: Expr)
    requires at <= end <= |ts| && Spelled(ts, at, end, e)
    ensures |Raw(e)| <= end - at
    decreases end - at, 0, 1
  {
    hide Show, ShowType, ShowArguments, Derives, DerivesArguments, Precedence, IsAssignment, IsUnary, Spells;
    match e
    case Name(_) =>
    case Literal(_, _) =>
    case SizeofName(_) =>
    case SizeofType(t) => TypeIsShortest(ts[at + 2..end - 1], t);
    case Cast(t, depth, operand) =>
      var i := CastInside(ts, at, end, e);
      TypeIsShortest(ts[at + 1..i], t);
      ShowIsShortest(ts, i + depth + 1, end, operand, CAST);
    case Unary(_, operand) => ShowIsShortest(ts, at + 1, end, operand, UNARY);
    case Binary(left, op, right) =>
      var i := BinaryInside(ts, at, end, e);
      ShowIsShortest(ts, at, i, left, Precedence(op));
      ShowIsShortest(ts, i + 1, end, right, Precedence(op) + 1);
    case Conditional(c, t, f) =>
      var i, j := ConditionalInside(ts, at, end, e);
      ShowIsShortest(ts, at, i, c, 1);
      ShowIsShortest(ts, i + 1, j, t, ASSIGNMENT);
      ShowIsShortest(ts, j + 1, end, f, CONDITIONAL);
    case Assignment(target, _, value) =>
      var i := AssignmentInside(ts, at, end, e);
      ShowIsShortest(ts, at, i, target, CONDITIONAL);
      ShowIsShortest(ts, i + 1, end, value, ASSIGNMENT);
    case _ => PostfixIsShortest(ts, at, end, e);
  }

  lemma {:induction false} PostfixIsShortest(ts: seq<Token>, at: nat, end: nat, e: Expr)
    requires at <= end <= |ts| && Spelled(ts, at, end, e) && (e.Index? || e.Call? || e.Member?)
    ensures |Raw(e)| <= end - at
    decreases end - at, 0, 0
  {
    hide Show, ShowType, ShowArguments, Derives, DerivesArguments, Precedence, IsAssignment, IsUnary, Spells;
    match e
    case Index(base, index) =>
      var i := IndexInside(ts, at, end, e);
      ShowIsShortest(ts, at, i, base, POSTFIX);
      ShowIsShortest(ts, i + 1, end - 1, index, ASSIGNMENT);
    case Call(callee, arguments) =>
      var i := CallInside(ts, at, end, e);
      ShowIsShortest(ts, at, i, callee, POSTFIX);
      ArgumentsAreShortest(ts, i + 1, end, arguments);
    case Member(base, _, _) => ShowIsShortest(ts, at, end - 2, base, POSTFIX);
  }

  lemma {:induction false} ArgumentsAreShortest(ts: seq<Token>, at: nat, end: nat, arguments: seq<Expr>)
    requires at <= end <= |ts| && DerivesArguments(ts, at, end, arguments)
    ensures |ShowArguments(arguments)| + 1 <= end - at
    decreases end - at, 2
  {
    hide Show, Derives;
    if arguments != [] {
      var first := FirstArgument(ts, at, end, arguments);
      var i, j := ArgumentInside(ts, first, end, arguments);
      ShowIsShortest(ts, first, i, arguments[0], ASSIGNMENT);
      if |arguments| > 1 {
        ArgumentsAreShortest(ts, j + 1, end, arguments[1..]);
      }
    }
  }

  /** Whatever parses to a tree has at least as many tokens as its rendering. */
  lemma ParsedIsNoShorter(ts: seq<Token>, at: nat, typedefs: set<string>)
    requires at <= |ts| && ParseAssignment(ts, at, typedefs).Some?
    ensures var p := ParseAssignment(ts, at, typedefs).value; |Show(p.expr, ASSIGNMENT)| <= p.next - at
  {
    hide ParseAssignment, Show, Derives;
    var p := ParseAssignment(ts, at, typedefs).value;
    AssignmentSound(ts, at, typedefs);
    ShowIsShortest(ts, at, p.next, p.expr, ASSIGNMENT);
  }

  // ------------------------------------------------------ unary before a cast

  /** Where a unary operand stands, a parenthesis before a type name does not begin a cast. */
  lemma OperandIsNoCast(ts: seq<Token>, at: nat, end: nat, e: Expr, typedefs: set<string>)
    requires at + 1 < |ts| && ts[at + 1].kind.Identifier? && IsTypeWord(ts[at + 1].lexeme, typedefs) && e.Cast? && WellFormed(e, typedefs)
    ensures ParseUnary(ts, at, typedefs) != Some(Parsed(e, end))
  {
    hide ParseUnary, IsTypeWord, WellFormed, Derives, Wraps;
    if ParseUnary(ts, at, typedefs) == Some(Parsed(e, end)) {
      UnarySound(ts, at, typedefs);
      if !Wraps(ts, at, end, e) {
        Unwrapped(ts, at, end, e, UNARY);
      } else {
        var inner := WrapsInside(ts, at, end, e);
        FirstToken(ts, inner, end - 1, e, ASSIGNMENT, typedefs);
      }
    }
  }

  /**
    In C the operand of a unary operator may be a cast without further parentheses. The
    parser reads a unary operator before an operand exactly when that is not a cast.
   */
  lemma UnaryOfCastExactly(op: string, operand: Expr, rest: seq<Token>, typedefs: set<string>)
    requires IsUnary(op) && WellFormed(operand, typedefs) && Level(operand) >= CAST && Stops(Look(rest, 0), CAST)
    ensures var ts := [Op(op)] + Show(operand, CAST) + rest;
      ParseUnary(ts, 0, typedefs) == Some(Parsed(Unary(op, operand), 1 + |Show(operand, CAST)|)) <==> !operand.Cast?
  {
    hide Show, WellFormed, Stops, Level, Read, ParsePostfix, IsUnary, IsTypeWord;
    var part := Show(operand, CAST);
    var ts := [Op(op)] + part + rest;
    LevelOf(operand, typedefs);
    assert Look(ts, 0) == Op(op);
    if operand.Cast? {
      CastBegins(operand, typedefs);
      assert ts[1] == part[0] && ts[2] == part[1];
      OperandIsNoCast(ts, 1, 1 + |part|, operand, typedefs);
    } else {
      SameShow(operand, CAST, UNARY);
      ShowReads([Op(op)], operand, UNARY, rest, typedefs);
      StopsTighter(Look(rest, 0), CAST, UNARY);
      UnaryReads(ts, 1, 1 + |part|, operand, typedefs);
    }
  }

  lemma SameShow(e: Expr, a: int, b: int)
    requires Level(e) < a <==> Level(e) < b
    ensures Show(e, a) == Show(e, b)
  {
    hide Precedence;
  }

  lemma CastBegins(e: Expr, typedefs: set<string>)
    requires e.Cast? && WellFormed(e, typedefs)
    ensures var part := Show(e, CAST);
      |part| > 1 && part[0] == OPEN && part[1].kind.Identifier? && IsTypeWord(part[1].lexeme, typedefs)
  {
    hide ShowType, IsTypeWord, WellTyped;
    var w := ShowType(e.ctype);
    TypeWordFirst(w, e.ctype, typedefs);
    assert Show(e, CAST) == [OPEN] + (w + ShowStars(e.depth) + [CLOSE] + Show(e.operand, CAST));
  }

  lemma TypeWordFirst(w: seq<Token>, t: CType, typedefs: set<string>)
    requires WellTyped(t, typedefs) && w == ShowType(t)
    ensures |w| > 0 && w[0].kind.Identifier? && IsTypeWord(w[0].lexeme, typedefs)
  {
    hide IsBuiltin;
    BaseIsShown(t, typedefs);
    BaseBegins(ShowBase(t.base, t.name), t, typedefs);
  }

  /**
    For one, before a type that is a single word: the parenthesised word becomes the
    operand, with whatever postfix operators follow it, as in -(int)(x), read as a call.
   */
  lemma UnaryBeforeCast(op: string, name: string, rest: seq<Token>, typedefs: set<string>)
    requires IsUnary(op) && name != "sizeof"
    ensures var ts := [Op(op), OPEN, Word(name), CLOSE] + rest;
      ParseUnary(ts, 0, typedefs) ==
        match PostfixRest(ts, Name(name), 4, typedefs)
        case None => None
        case Some(operand) => Some(Parsed(Unary(op, operand.expr), operand.next))
  {
    hide IsUnary, Precedence, IsAssignment;
    var ts := [Op(op), OPEN, Word(name), CLOSE] + rest;
    assert Look(ts, 0) == Op(op) && Look(ts, 1) == OPEN && Look(ts, 2) == Word(name) && Look(ts, 3) == CLOSE;
    assert ParsePrimary(ts, 2, typedefs) == Some(Parsed(Name(name), 3));
    assert ParsePostfix(ts, 2, typedefs) == Some(Parsed(Name(name), 3));
    assert ParseCast(ts, 2, typedefs) == ParseUnary(ts, 2, typedefs) == Some(Parsed(Name(name), 3));
    assert ParseConditional(ts, 2, typedefs) == ParseBinary(ts, 2, 1, typedefs) == Some(Parsed(Name(name), 3));
    assert ParseAssignment(ts, 2, typedefs) == Some(Parsed(Name(name), 3));
    assert SkipNewlines(ts, 2) == 2;
    assert ParsePrimary(ts, 1, typedefs) == Some(Parsed(Name(name), 4));
    assert ParsePostfix(ts, 1, typedefs) == PostfixRest(ts, Name(name), 4, typedefs);
    assert ParseUnary(ts, 1, typedefs) == ParsePostfix(ts, 1, typedefs);
  }
}
