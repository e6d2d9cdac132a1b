/**
  The parser reads every spelling of a well-formed tree, so it accepts exactly what the
  grammar derives.
 */
module CExpressionReading {
  import opened Basics
  import opened CTypeNames
  import opened CExpressions
  import opened CExpressionGrammar

  /** Only structs and typedefs have a name, and a typedef's is declared and no keyword. */
  predicate WellTyped(t: CType, typedefs: set<string>) {
    match t.base
    case StructType => true
    case TypedefName => t.name in typedefs && !IsKeyword(t.name)
    case _ => t.name == ""
  }

  /** Trees over the grammar's operators, with names that are not type names. */
  predicate WellFormed(e: Expr, typedefs: set<string>)
    decreases e
  {
    match e
    case Name(name) => name != "sizeof" && !IsTypeWord(name, typedefs)
    case Literal(kind, _) => IsLiteral(kind)
    case SizeofName(name) => (name == "struct" || !IsTypeWord(name, typedefs)) && !IsTypeWord("sizeof", typedefs)
    case SizeofType(t) => WellTyped(t, typedefs) && !IsTypeWord("sizeof", typedefs)
    case Cast(t, _, operand) => WellTyped(t, typedefs) && WellFormed(operand, typedefs)
    case Unary(op, operand) => IsUnary(op) && WellFormed(operand, typedefs)
    case Binary(left, op, right) => Precedence(op) > 0 && WellFormed(left, typedefs) && WellFormed(right, typedefs)
    case Conditional(c, t, f) => WellFormed(c, typedefs) && WellFormed(t, typedefs) && WellFormed(f, typedefs)
    case Assignment(target, op, value) => IsAssignment(op) && WellFormed(target, typedefs) && WellFormed(value, typedefs)
    case Index(base, index) => WellFormed(base, typedefs) && WellFormed(index, typedefs)
    case Call(callee, arguments) => WellFormed(callee, typedefs) && forall i | 0 <= i < |arguments| :: WellFormed(arguments[i], typedefs)
    case Member(base, _, _) => WellFormed(base, typedefs)
  }

  predicate IsPunctuation(kind: TokenKind) {
    kind.RParen? || kind.RBracket? || kind.Comma? || kind.Colon? || kind.Question? || kind.Newline?
  }

  /** Punctuation does not have the text of an operator or a word. */
  predicate IsSane(t: Token) {
    IsPunctuation(t.kind) ==>
      t.lexeme != "->" && t.lexeme != "++" && t.lexeme != "--" && t.lexeme != "*" && t.lexeme != "int" && t.lexeme != "long"
  }

  predicate Lexed(ts: seq<Token>, at: nat, end: nat)
    requires at <= end <= |ts|
  {
    forall i | at <= i < end :: IsSane(ts[i])
  }

  /** A token that cannot continue an expression parsed at this level. */
  predicate Stops(t: Token, context: int) {
    && !t.kind.LBracket? && !t.kind.LParen? && !t.kind.Dot? && t.lexeme != "->" && t.lexeme != "++" && t.lexeme != "--"
    && !(t.kind.Operator? && Precedence(t.lexeme) >= 1 && Precedence(t.lexeme) >= context)
    && (context <= CONDITIONAL ==> !t.kind.Question?)
    && (context <= ASSIGNMENT ==> !(t.kind.Operator? && IsAssignment(t.lexeme)))
  }

  // --------------------------------------------------------------- stopping

  /** Stopping at a looser level implies stopping at every tighter one. */
  lemma StopsTighter(t: Token, loose: int, tight: int)
    requires Stops(t, loose) && loose <= tight
    ensures Stops(t, tight)
  {
    hide Precedence, IsAssignment;
  }

  /** Binary and assignment operators end an operand, unless they bind as tightly. */
  lemma OperatorStops(op: string, context: int)
    requires (1 <= Precedence(op) < context) || (IsAssignment(op) && context >= CONDITIONAL)
    ensures Stops(Op(op), context)
  {
    NotPostfixOperator(op);
    hide Precedence, IsAssignment;
  }

  lemma NotPostfixOperator(op: string)
    ensures Precedence(op) >= 1 ==> op != "->" && op != "++" && op != "--"
    ensures IsAssignment(op) ==> Precedence(op) == -1 && op != "->" && op != "++" && op != "--"
  {
  }

  lemma PunctuationStops(ts: seq<Token>, i: nat, context: int)
    requires i < |ts| && IsSane(ts[i]) && IsPunctuation(ts[i].kind) && (ts[i].kind.Question? ==> context >= 1)
    ensures Stops(ts[i], context)
  {
    hide Precedence, IsAssignment;
  }

  // ------------------------------------------------------------ first tokens

  /** What an expression can begin with. */
  predicate Begins(t: Token, typedefs: set<string>) {
    || t.kind.LParen?
    || (t.kind.Operator? && IsUnary(t.lexeme))
    || (t.kind.Identifier? && !IsTypeWord(t.lexeme, typedefs))
    || IsLiteral(t.kind)
  }

  lemma {:induction false} FirstToken(ts: seq<Token>, at: nat, end: nat, e: Expr, context: int, typedefs: set<string>)
    requires at <= end <= |ts| && Derives(ts, at, end, e, context) && WellFormed(e, typedefs)
    ensures at < end && Begins(ts[at], typedefs)
    decreases end - at
  {
    hide IsUnary, IsTypeWord, IsAssignment, Precedence, Level, Spells, DerivesArguments, Wraps, Derives;
    if Wraps(ts, at, end, e) {
      var _ := WrapsInside(ts, at, end, e);
    } else {
      Unwrapped(ts, at, end, e, context);
      match e
      case Binary(left, op, _) =>
        var i := BinaryInside(ts, at, end, e);
        FirstToken(ts, at, i, left, Precedence(op), typedefs);
      case Conditional(c, _, _) =>
        var i, j := ConditionalInside(ts, at, end, e);
        FirstToken(ts, at, i, c, 1, typedefs);
      case Assignment(target, _, _) =>
        var i := AssignmentInside(ts, at, end, e);
        FirstToken(ts, at, i, target, CONDITIONAL, typedefs);
      case Index(base, _) =>
        var i := IndexInside(ts, at, end, e);
        FirstToken(ts, at, i, base, POSTFIX, typedefs);
      case Call(callee, _) =>
        var i := CallInside(ts, at, end, e);
        FirstToken(ts, at, i, callee, POSTFIX, typedefs);
      case Member(base, _, _) => FirstToken(ts, at, end - 2, base, POSTFIX, typedefs);
      case _ =>
    }
  }

  /** No unary expression begins like a cast, and no postfix expression with an operator. */
  lemma {:induction false} NoCastFirst(ts: seq<Token>, at: nat, end: nat, e: Expr, context: int, typedefs: set<string>)
    requires at <= end <= |ts| && context >= UNARY && Derives(ts, at, end, e, context) && WellFormed(e, typedefs)
    ensures at < end && (ts[at].kind.LParen? ==> at + 1 < end && (ts[at + 1].kind.Newline? || Begins(ts[at + 1], typedefs)))
    ensures context >= POSTFIX ==> !ts[at].kind.Operator?
    decreases end - at
  {
    hide IsUnary, IsTypeWord, IsAssignment, Precedence, Spells, DerivesArguments, Wraps, Derives;
    if Wraps(ts, at, end, e) {
      var inner := WrapsInside(ts, at, end, e);
      FirstToken(ts, inner, end - 1, e, ASSIGNMENT, typedefs);
    } else {
      Unwrapped(ts, at, end, e, context);
      LevelOf(e, typedefs);
      match e
      case Index(base, _) =>
        var i := IndexInside(ts, at, end, e);
        NoCastFirst(ts, at, i, base, POSTFIX, typedefs);
      case Call(callee, _) =>
        var i := CallInside(ts, at, end, e);
        NoCastFirst(ts, at, i, callee, POSTFIX, typedefs);
      case Member(base, _, _) => NoCastFirst(ts, at, end - 2, base, POSTFIX, typedefs);
      case _ =>
    }
  }

  lemma NotTakenForCast(ts: seq<Token>, at: nat, typedefs: set<string>)
    requires at < |ts| && (ts[at].kind.LParen? ==> at + 1 < |ts| && (ts[at + 1].kind.Newline? || Begins(ts[at + 1], typedefs)))
    ensures !LooksLikeCast(ts, at, typedefs)
  {
    hide IsUnary;
    if ts[at].kind.LParen? {
      assert AfterQualifiers(ts, at + 1) == at + 1;
    }
  }

  lemma {:induction false} SkipExactly(ts: seq<Token>, from: nat, to: nat)
    requires Newlines(ts, from, to) && !Look(ts, to).kind.Newline?
    ensures SkipNewlines(ts, from) == to
    decreases |ts| - from
  {
    if from < to {
      SkipExactly(ts, from + 1, to);
    }
  }

  lemma {:induction false} StarsExactly(ts: seq<Token>, from: nat, to: nat)
    requires Stars(ts, from, to) && Look(ts, to).lexeme != "*"
    ensures AfterStars(ts, from) == to
    decreases |ts| - from
  {
    if from < to {
      StarsExactly(ts, from + 1, to);
    }
  }

  // ------------------------------------------------------------- the theorem

  /** The tokens derive a well-formed tree. */
  ghost predicate Read(ts: seq<Token>, at: nat, end: nat, e: Expr, context: int, typedefs: set<string>) {
    at <= end <= |ts| && Lexed(ts, at, end) && WellFormed(e, typedefs) && Derives(ts, at, end, e, context)
  }

  /** In parentheses, or without a level in between, a tree fits the tighter context too. */
  lemma Tighter(ts: seq<Token>, at: nat, end: nat, e: Expr, loose: int, tight: int, typedefs: set<string>)
    requires Read(ts, at, end, e, loose, typedefs) && (Wraps(ts, at, end, e) || !(loose <= Level(e) < tight))
    ensures Read(ts, at, end, e, tight, typedefs)
  {
    hide Spelled, Wraps, Level, WellFormed, IsSane;
  }

  lemma {:induction false} AssignmentReads(ts: seq<Token>, at: nat, end: nat, e: Expr, typedefs: set<string>)
    requires Read(ts, at, end, e, ASSIGNMENT, typedefs) && Stops(Look(ts, end), ASSIGNMENT)
    ensures ParseAssignment(ts, at, typedefs) == Some(Parsed(e, end))
    decreases end - at, 7
  {
    hide Precedence, IsAssignment, ParseConditional, IsSane, Derives, Spelled, Wraps;
    LevelOf(e, typedefs);
    if e.Assignment? && !Wraps(ts, at, end, e) {
      Unwrapped(ts, at, end, e, ASSIGNMENT);
      var i := AssignmentInside(ts, at, end, e);
      OperatorStops(e.op, CONDITIONAL);
      ConditionalReads(ts, at, i, e.target, typedefs);
      AssignmentReads(ts, i + 1, end, e.value, typedefs);
    } else {
      Tighter(ts, at, end, e, ASSIGNMENT, CONDITIONAL, typedefs);
      StopsTighter(Look(ts, end), ASSIGNMENT, CONDITIONAL);
      ConditionalReads(ts, at, end, e, typedefs);
    }
  }

  /** The level of each form. */
  lemma LevelOf(e: Expr, typedefs: set<string>)
    requires WellFormed(e, typedefs)
    ensures match e
      case Assignment(_, _, _) => Level(e) == ASSIGNMENT
      case Conditional(_, _, _) => Level(e) == CONDITIONAL
      case Binary(_, op, _) => Level(e) == Precedence(op) && 1 <= Level(e) <= 10
      case Cast(_, _, _) => Level(e) == CAST
      case Unary(_, _) => Level(e) == UNARY
      case _ => Level(e) == POSTFIX
  {
    hide IsUnary, IsTypeWord, IsAssignment;
  }

  lemma {:induction false} ConditionalReads(ts: seq<Token>, at: nat, end: nat, e: Expr, typedefs: set<string>)
    requires Read(ts, at, end, e, CONDITIONAL, typedefs) && Stops(Look(ts, end), CONDITIONAL)
    ensures ParseConditional(ts, at, typedefs) == Some(Parsed(e, end))
    decreases end - at, 6
  {
    hide Precedence, IsAssignment, ParseBinary, ParseAssignment, IsSane, Derives, Spelled, Wraps;
    LevelOf(e, typedefs);
    if e.Conditional? && !Wraps(ts, at, end, e) {
      Unwrapped(ts, at, end, e, CONDITIONAL);
      var i, j := ConditionalInside(ts, at, end, e);
      PunctuationStops(ts, i, 1);
      PunctuationStops(ts, j, ASSIGNMENT);
      BinaryReads(ts, at, i, e.condition, 1, typedefs);
      AssignmentReads(ts, i + 1, j, e.thenExpr, typedefs);
      ConditionalReads(ts, j + 1, end, e.elseExpr, typedefs);
    } else {
      Tighter(ts, at, end, e, CONDITIONAL, 1, typedefs);
      StopsTighter(Look(ts, end), CONDITIONAL, 1);
      BinaryReads(ts, at, end, e, 1, typedefs);
    }
  }

  /** The level at which the last operand of a spelling is parsed. */
  ghost function Tail(ts: seq<Token>, at: nat, end: nat, e: Expr): int
    requires at <= end <= |ts|
  {
    if e.Binary? && !Wraps(ts, at, end, e) then Level(e) + 1 else CAST
  }

  lemma TailAtLeast(ts: seq<Token>, at: nat, end: nat, e: Expr, context: nat)
    requires at <= end <= |ts| && context <= CAST && Derives(ts, at, end, e, context)
    ensures Tail(ts, at, end, e) > context || (context == CAST == Tail(ts, at, end, e))
  {
    hide Derives, Wraps, Precedence;
    if e.Binary? && !Wraps(ts, at, end, e) {
      Unwrapped(ts, at, end, e, context);
    }
  }

  lemma {:induction false} BinaryReads(ts: seq<Token>, at: nat, end: nat, e: Expr, context: nat, typedefs: set<string>)
    requires 1 <= context <= CAST && Read(ts, at, end, e, context, typedefs) && Stops(Look(ts, end), context)
    ensures ParseBinary(ts, at, context, typedefs) == Some(Parsed(e, end))
    decreases end - at, 5
  {
    hide Precedence, IsAssignment, ParseBinary, IsSane, Spelled, Wraps, Derives, WellFormed;
    LevelOf(e, typedefs);
    TailAtLeast(ts, at, end, e, context);
    StopsTighter(Look(ts, end), context, Tail(ts, at, end, e));
    BinaryHead(ts, at, end, e, context, context, typedefs);
  }

  /** Left-nested operators: parsing reaches the loop with the whole of e as left operand. */
  lemma {:induction false} BinaryHead(ts: seq<Token>, at: nat, end: nat, e: Expr, context: nat, min: nat, typedefs: set<string>)
    requires 1 <= min <= context <= CAST && Read(ts, at, end, e, context, typedefs)
    requires Stops(Look(ts, end), Tail(ts, at, end, e))
    ensures ParseBinary(ts, at, min, typedefs) == BinaryRest(ts, e, end, min, typedefs)
    decreases end - at, 4
  {
    hide Precedence, IsAssignment, ParseCast, IsSane, Stops, WellFormed, Derives, Spelled, Wraps;
    LevelOf(e, typedefs);
    if e.Binary? && !Wraps(ts, at, end, e) {
      Unwrapped(ts, at, end, e, context);
      var i := BinaryInside(ts, at, end, e);
      var p := Precedence(e.op);
      BinaryParts(e, typedefs);
      LevelOf(e.left, typedefs);
      TailAtLeast(ts, at, i, e.left, p);
      OperatorStops(e.op, Tail(ts, at, i, e.left));
      BinaryHead(ts, at, i, e.left, p, min, typedefs);
      BinaryReads(ts, i + 1, end, e.right, p + 1, typedefs);
    } else {
      Tighter(ts, at, end, e, context, CAST, typedefs);
      CastReads(ts, at, end, e, typedefs);
    }
  }

  lemma BinaryParts(e: Expr, typedefs: set<string>)
    requires e.Binary? && WellFormed(e, typedefs)
    ensures WellFormed(e.left, typedefs) && WellFormed(e.right, typedefs)
  {
  }

  lemma {:induction false} CastReads(ts: seq<Token>, at: nat, end: nat, e: Expr, typedefs: set<string>)
    requires Read(ts, at, end, e, CAST, typedefs) && Stops(Look(ts, end), CAST)
    ensures ParseCast(ts, at, typedefs) == Some(Parsed(e, end))
    decreases end - at, 3
  {
    hide Precedence, IsAssignment, IsTypeWord, ParseUnary, ParseType, AfterStars, LooksLikeCast, IsSane, Stops, Spells, Derives, Spelled, Wraps;
    LevelOf(e, typedefs);
    if e.Cast? && !Wraps(ts, at, end, e) {
      Unwrapped(ts, at, end, e, CAST);
      var i := CastInside(ts, at, end, e);
      CastHead(ts, at, i, e.ctype, e.depth, typedefs);
      CastReads(ts, i + e.depth + 1, end, e.operand, typedefs);
    } else {
      Tighter(ts, at, end, e, CAST, UNARY, typedefs);
      NoCastFirst(ts, at, end, e, UNARY, typedefs);
      NotTakenForCast(ts, at, typedefs);
      StopsTighter(Look(ts, end), CAST, UNARY);
      UnaryReads(ts, at, end, e, typedefs);
    }
  }

  /** The parentheses of a cast are taken for one and read to their end. */
  lemma CastHead(ts: seq<Token>, at: nat, i: nat, t: CType, depth: nat, typedefs: set<string>)
    requires WellTyped(t, typedefs) && at + 1 < i && i + depth < |ts| && IsSane(ts[i + depth]) && ts[at].kind.LParen?
    requires Spells(ts[at + 1..i], t) && Stars(ts, i, i + depth) && ts[i + depth].kind.RParen?
    ensures LooksLikeCast(ts, at, typedefs) && ParseType(ts, at + 1) == Some(TypeName(t, i)) && AfterStars(ts, i) == i + depth
  {
    hide Spells, LooksLikeCast, ParseType, AfterStars, IsKeyword;
    StarsExactly(ts, i, i + depth);
    TypeReads(ts, at + 1, i, t);
    LooksLikeCastExact(ts, at, typedefs);
  }

  /** Before a star or a closing parenthesis every spelling of a type is read back. */
  lemma TypeReads(ts: seq<Token>, at: nat, end: nat, t: CType)
    requires at <= end < |ts| && Spells(ts[at..end], t) && ts[end].lexeme != "int" && ts[end].lexeme != "long"
    ensures ParseType(ts, at) == Some(TypeName(t, end))
  {
    hide Spells, ParseType;
    ParseTypeExactly(ts, at, t, end);
  }

  lemma {:induction false} UnaryReads(ts: seq<Token>, at: nat, end: nat, e: Expr, typedefs: set<string>)
    requires Read(ts, at, end, e, UNARY, typedefs) && Stops(Look(ts, end), UNARY)
    ensures ParseUnary(ts, at, typedefs) == Some(Parsed(e, end))
    decreases end - at, 2
  {
    hide Precedence, IsAssignment, IsTypeWord, IsUnary, ParsePostfix, IsSane, Spells, Derives, Wraps;
    LevelOf(e, typedefs);
    if e.Unary? && !Wraps(ts, at, end, e) {
      Unwrapped(ts, at, end, e, UNARY);
      UnaryReads(ts, at + 1, end, e.operand, typedefs);
    } else {
      Tighter(ts, at, end, e, UNARY, POSTFIX, typedefs);
      NoCastFirst(ts, at, end, e, POSTFIX, typedefs);
      PostfixHead(ts, at, end, e, typedefs);
    }
  }

  /** Left-nested postfix forms: parsing reaches the loop with the whole of e as base. */
  lemma {:induction false} PostfixHead(ts: seq<Token>, at: nat, end: nat, e: Expr, typedefs: set<string>)
    requires Read(ts, at, end, e, POSTFIX, typedefs)
    ensures ParsePostfix(ts, at, typedefs) == PostfixRest(ts, e, end, typedefs)
    decreases end - at, 1
  {
    hide Precedence, IsAssignment, IsUnary, IsTypeWord, Spells, ParsePrimary, ParseAssignment, ParseArguments, IsSane, Stops,
      Spelled, Wraps, Derives, DerivesArguments;
    LevelOf(e, typedefs);
    if Wraps(ts, at, end, e) {
      WrappedReads(ts, at, end, e, typedefs);
    } else {
      Unwrapped(ts, at, end, e, POSTFIX);
      match e
      case Index(base, index) =>
        var i := IndexInside(ts, at, end, e);
        PostfixHead(ts, at, i, base, typedefs);
        PunctuationStops(ts, end - 1, ASSIGNMENT);
        AssignmentReads(ts, i + 1, end - 1, index, typedefs);
      case Call(callee, arguments) =>
        var i := CallInside(ts, at, end, e);
        PostfixHead(ts, at, i, callee, typedefs);
        ArgumentsRead(ts, i + 1, end, arguments, typedefs);
      case Member(base, _, _) =>
        MemberInside(ts, at, end, e);
        PostfixHead(ts, at, end - 2, base, typedefs);
      case SizeofName(_) => SizeofReads(ts, at, end, e, typedefs);
      case SizeofType(_) => SizeofReads(ts, at, end, e, typedefs);
      case Name(_) => LeafReads(ts, at, end, e, typedefs);
      case Literal(_, _) => LeafReads(ts, at, end, e, typedefs);
      case _ =>
    }
  }

  lemma {:induction false} WrappedReads(ts: seq<Token>, at: nat, end: nat, e: Expr, typedefs: set<string>)
    requires Read(ts, at, end, e, POSTFIX, typedefs) && Wraps(ts, at, end, e)
    ensures ParsePrimary(ts, at, typedefs) == Some(Parsed(e, end))
    decreases end - at, 0
  {
    hide ParseAssignment, IsSane, Stops, Begins, WellFormed, Spelled;
    var inner := WrapsInside(ts, at, end, e);
    FirstToken(ts, inner, end - 1, e, ASSIGNMENT, typedefs);
    BeginsIsVisible(ts[inner], typedefs);
    SkipExactly(ts, at + 1, inner);
    PunctuationStops(ts, end - 1, ASSIGNMENT);
    AssignmentReads(ts, inner, end - 1, e, typedefs);
  }

  lemma BeginsIsVisible(t: Token, typedefs: set<string>)
    requires Begins(t, typedefs)
    ensures !t.kind.Newline? && !t.kind.RParen? && !t.kind.End?
  {
    hide IsUnary, IsTypeWord;
  }

  lemma LeafReads(ts: seq<Token>, at: nat, end: nat, e: Expr, typedefs: set<string>)
    requires at <= end <= |ts| && (e.Name? || e.Literal?) && Spelled(ts, at, end, e)
    ensures ParsePrimary(ts, at, typedefs) == Some(Parsed(e, end))
  {
  }

  lemma SizeofReads(ts: seq<Token>, at: nat, end: nat, e: Expr, typedefs: set<string>)
    requires Read(ts, at, end, e, POSTFIX, typedefs) && (e.SizeofName? || e.SizeofType?) && Spelled(ts, at, end, e)
    ensures ParsePrimary(ts, at, typedefs) == Some(Parsed(e, end))
  {
    hide Spells, ParseType, IsKeyword;
    if e.SizeofType? {
      TypeReads(ts, at + 2, end - 1, e.ctype);
      TypeBegins(ts, at + 2, end - 1, e.ctype, typedefs);
    } else {
      StructIsKeyword();
    }
  }

  lemma StructIsKeyword()
    ensures IsKeyword("struct")
  {
  }

  lemma TypeBegins(ts: seq<Token>, at: nat, end: nat, t: CType, typedefs: set<string>)
    requires at <= end <= |ts| && WellTyped(t, typedefs) && Spells(ts[at..end], t)
    ensures IsTypeStart(ts, at, typedefs) && (Look(ts, at).lexeme == "struct" ==> Look(ts, at + 1).kind.Identifier?)
  {
    hide SpellsBase, WellTyped, IsBuiltin;
    var w := ts[at..end];
    var k: nat :| k <= |w| && SpellsFrom(w, t, k);
    if k == 0 {
      assert w[0..] == w;
      BaseBegins(w, t, typedefs);
      assert w[0] == ts[at];
      if |w| > 1 {
        assert w[1] == ts[at + 1];
      }
    } else {
      assert w[..k][0] == ts[at];
    }
  }

  lemma BaseBegins(w: seq<Token>, t: CType, typedefs: set<string>)
    requires WellTyped(t, typedefs) && SpellsBase(w, t.base, t.name)
    ensures |w| > 0 && w[0].kind.Identifier? && IsTypeWord(w[0].lexeme, typedefs)
    ensures w[0].lexeme == "struct" ==> |w| > 1 && w[1].kind.Identifier?
  {
    if !t.base.StructType? && !t.base.TypedefName? {
      FirstWord(t.base);
      hide Words, IsBuiltin;
      assert w[0].lexeme == (Words(t.base) + ["int"])[0] == Words(t.base)[0];
    }
  }

  lemma FirstWord(base: BaseType)
    requires !base.StructType? && !base.TypedefName?
    ensures |Words(base)| > 0 && IsBuiltin(Words(base)[0]) && Words(base)[0] != "struct"
  {
  }

  // --------------------------------------------------------------- arguments

  ghost predicate AllWellFormed(arguments: seq<Expr>, typedefs: set<string>) {
    forall i | 0 <= i < |arguments| :: WellFormed(arguments[i], typedefs)
  }

  lemma {:induction false} ArgumentsRead(ts: seq<Token>, at: nat, end: nat, arguments: seq<Expr>, typedefs: set<string>)
    requires at <= end <= |ts| && Lexed(ts, at, end) && AllWellFormed(arguments, typedefs) && DerivesArguments(ts, at, end, arguments)
    ensures ParseArguments(ts, at, typedefs) == Some((arguments, end))
    decreases end - at, 10
  {
    hide IsSane, WellFormed, DerivesList, ArgumentRest, Begins;
    if arguments == [] {
      SkipExactly(ts, at, end - 1);
    } else {
      var first := FirstArgument(ts, at, end, arguments);
      ListBegins(ts, first, end, arguments, typedefs);
      SkipExactly(ts, at, first);
      ListReads(ts, [], first, end, arguments, typedefs);
      assert [] + arguments == arguments;
    }
  }

  lemma ListBegins(ts: seq<Token>, at: nat, end: nat, arguments: seq<Expr>, typedefs: set<string>)
    requires at <= end <= |ts| && arguments != [] && WellFormed(arguments[0], typedefs) && DerivesList(ts, at, end, arguments)
    ensures at < end && !ts[at].kind.Newline? && !ts[at].kind.RParen? && !ts[at].kind.End?
  {
    hide Derives, WellFormed, Begins;
    var i, j := ArgumentInside(ts, at, end, arguments);
    FirstToken(ts, at, i, arguments[0], ASSIGNMENT, typedefs);
    BeginsIsVisible(ts[at], typedefs);
  }

  lemma {:induction false} ListReads(ts: seq<Token>, before: seq<Expr>, at: nat, end: nat, arguments: seq<Expr>, typedefs: set<string>)
    requires at <= end <= |ts| && Lexed(ts, at, end) && arguments != [] && AllWellFormed(arguments, typedefs) && DerivesList(ts, at, end, arguments)
    ensures ArgumentRest(ts, before, at, typedefs) == Some((before + arguments, end))
    decreases end - at, 9
  {
    hide Derives, WellFormed, IsSane, ParseAssignment, Stops, SkipNewlines, DerivesList, DerivesArguments;
    var i, j := ArgumentInside(ts, at, end, arguments);
    ListBegins(ts, at, end, arguments, typedefs);
    PunctuationStops(ts, i, ASSIGNMENT);
    AssignmentReads(ts, at, i, arguments[0], typedefs);
    SkipExactly(ts, i, j);
    if |arguments| == 1 {
      assert before + [arguments[0]] == before + arguments;
    } else {
      var next := FirstArgument(ts, j + 1, end, arguments[1..]);
      ListBegins(ts, next, end, arguments[1..], typedefs);
      SkipExactly(ts, j + 1, next);
      ListReads(ts, before + [arguments[0]], next, end, arguments[1..], typedefs);
      assert before + [arguments[0]] + arguments[1..] == before + arguments;
    }
  }

  // ------------------------------------------------------------------ exactly

  /**
    The parser reads a well-formed tree from a stretch of tokens exactly when the grammar
    derives it from them, before any token that cannot continue it.
   */
  lemma ParseExactly(ts: seq<Token>, at: nat, end: nat, e: Expr, typedefs: set<string>)
    requires at <= end <= |ts| && Lexed(ts, at, end) && WellFormed(e, typedefs) && Stops(Look(ts, end), ASSIGNMENT)
    ensures ParseAssignment(ts, at, typedefs) == Some(Parsed(e, end)) <==> Derives(ts, at, end, e, ASSIGNMENT)
  {
    hide ParseAssignment, Derives, WellFormed, Stops, IsSane;
    if Derives(ts, at, end, e, ASSIGNMENT) {
      AssignmentReads(ts, at, end, e, typedefs);
    }
    if ParseAssignment(ts, at, typedefs) == Some(Parsed(e, end)) {
      AssignmentSound(ts, at, typedefs);
    }
  }

  /** No stretch of tokens spells two well-formed trees. */
  lemma Unambiguous(ts: seq<Token>, at: nat, end: nat, a: Expr, b: Expr, typedefs: set<string>)
    requires at <= end <= |ts| && Lexed(ts, at, end) && WellFormed(a, typedefs) && WellFormed(b, typedefs) && Stops(Look(ts, end), ASSIGNMENT)
    requires Derives(ts, at, end, a, ASSIGNMENT) && Derives(ts, at, end, b, ASSIGNMENT)
    ensures a == b
  {
    hide ParseAssignment, Derives, WellFormed, Stops, IsSane;
    ParseExactly(ts, at, end, a, typedefs);
    ParseExactly(ts, at, end, b, typedefs);
  }
}
