/**
  The expression grammar as a relation between tokens and trees, after the levels of
  section 6.5 of C11: which stretches of tokens spell a tree, with any redundant
  parentheses, line breaks and type spellings. Whatever the parser accepts is spelled so.
  One level differs from C: the operand of a unary operator is itself unary, never a cast.
 */
module CExpressionGrammar {
  import opened CTypeNames
  import opened CExpressions

  const ASSIGNMENT: int := -1
  const CONDITIONAL: int := 0
  const CAST: int := 11
  const UNARY: int := 12
  const POSTFIX: int := 13

  /** How tightly an expression binds; the binary levels are 1 to 10. */
  function Level(e: Expr): int {
    match e
    case Assignment(_, _, _) => ASSIGNMENT
    case Conditional(_, _, _) => CONDITIONAL
    case Binary(_, op, _) => Precedence(op)
    case Cast(_, _, _) => CAST
    case Unary(_, _) => UNARY
    case _ => POSTFIX
  }

  function Op(lexeme: string): Token { Token(Operator, lexeme) }

  function Word(lexeme: string): Token { Token(Identifier, lexeme) }

  // ------------------------------------------------------------ the relation

  predicate Newlines(ts: seq<Token>, from: nat, to: nat) {
    from <= to <= |ts| && forall i | from <= i < to :: ts[i].kind.Newline?
  }

  predicate Stars(ts: seq<Token>, from: nat, to: nat) {
    from <= to <= |ts| && forall i | from <= i < to :: ts[i].lexeme == "*"
  }

  /** The tokens from `at` to `end` spell the tree where something of this level is expected. */
  ghost predicate Derives(ts: seq<Token>, at: nat, end: nat, e: Expr, context: int)
    requires at <= end <= |ts|
    decreases end - at, 1
  {
    (Level(e) >= context && Spelled(ts, at, end, e)) || Wraps(ts, at, end, e)
  }

  /** A pair of parentheses around the tree. */
  ghost predicate Wraps(ts: seq<Token>, at: nat, end: nat, e: Expr)
    requires at <= end <= |ts|
    decreases end - at, 0
  {
    exists inner: nat | at < inner < end :: Newlines(ts, at + 1, inner) && WrapsFrom(ts, at, inner, end, e)
  }

  ghost predicate WrapsFrom(ts: seq<Token>, at: nat, inner: nat, end: nat, e: Expr)
    requires at < inner < end <= |ts|
    decreases end - at - 1, 2
  {
    ts[at].kind.LParen? && ts[end - 1].kind.RParen? && Derives(ts, inner, end - 1, e, ASSIGNMENT)
  }

  predicate IsLiteral(kind: TokenKind) {
    kind.Integer? || kind.Float? || kind.String? || kind.Character?
  }

  /** The same without outer parentheses. */
  ghost predicate Spelled(ts: seq<Token>, at: nat, end: nat, e: Expr)
    requires at <= end <= |ts|
    decreases end - at, 0
  {
    match e
    case Name(name) => end == at + 1 && ts[at] == Word(name) && name != "sizeof"
    case Literal(kind, text) => end == at + 1 && ts[at] == Token(kind, text) && IsLiteral(kind)
    case SizeofName(name) =>
      && end == at + 4 && ts[at] == Word("sizeof") && ts[at + 1].kind.LParen? && ts[at + 2] == Word(name) && ts[at + 3].kind.RParen?
    case SizeofType(t) =>
      && at + 3 < end && ts[at] == Word("sizeof") && ts[at + 1].kind.LParen? && Spells(ts[at + 2..end - 1], t) && ts[end - 1].kind.RParen?
    case Cast(t, depth, operand) => exists i: nat | at + 1 < i && i + depth < end :: Spells(ts[at + 1..i], t) && CastAt(ts, at, i, end, e)
    case Unary(op, operand) => at < end && ts[at] == Op(op) && IsUnary(op) && Derives(ts, at + 1, end, operand, UNARY)
    case Binary(_, op, _) => Precedence(op) >= 1 && exists i: nat | at <= i < end :: ts[i] == Op(op) && BinaryAt(ts, at, i, end, e)
    case Conditional(_, _, _) =>
      exists i: nat, j: nat | at <= i < j < end :: ts[i].kind.Question? && ts[j].kind.Colon? && ConditionalAt(ts, at, i, j, end, e)
    case Assignment(_, op, _) => IsAssignment(op) && exists i: nat | at <= i < end :: ts[i] == Op(op) && AssignmentAt(ts, at, i, end, e)
    case Index(_, _) => exists i: nat | at <= i < end - 1 :: ts[i].kind.LBracket? && IndexAt(ts, at, i, end, e)
    case Call(_, _) => exists i: nat | at <= i < end :: ts[i].kind.LParen? && CallAt(ts, at, i, end, e)
    case Member(base, member, through) =>
      && at + 1 < end && ts[end - 1] == Word(member) && IsDot(ts[end - 2], through)
      && Derives(ts, at, end - 2, base, POSTFIX)
  }

  predicate IsDot(t: Token, through: bool) {
    !t.kind.LBracket? && !t.kind.LParen? && (t.lexeme == "->" <==> through) && (through || t.kind.Dot?)
  }

  ghost predicate CastAt(ts: seq<Token>, at: nat, i: nat, end: nat, e: Expr)
    requires e.Cast? && at + 1 < i && i + e.depth < end <= |ts|
    decreases end - at - 1, 2
  {
    && ts[at].kind.LParen? && Stars(ts, i, i + e.depth)
    && ts[i + e.depth].kind.RParen? && Derives(ts, i + e.depth + 1, end, e.operand, CAST)
  }

  ghost predicate BinaryAt(ts: seq<Token>, at: nat, i: nat, end: nat, e: Expr)
    requires e.Binary? && at <= i < end <= |ts|
    decreases end - at - 1, 2
  {
    Derives(ts, at, i, e.left, Precedence(e.op)) && Derives(ts, i + 1, end, e.right, Precedence(e.op) + 1)
  }

  ghost predicate ConditionalAt(ts: seq<Token>, at: nat, i: nat, j: nat, end: nat, e: Expr)
    requires e.Conditional? && at <= i < j < end <= |ts|
    decreases end - at - 1, 2
  {
    && Derives(ts, at, i, e.condition, 1)
    && Derives(ts, i + 1, j, e.thenExpr, ASSIGNMENT) && Derives(ts, j + 1, end, e.elseExpr, CONDITIONAL)
  }

  ghost predicate AssignmentAt(ts: seq<Token>, at: nat, i: nat, end: nat, e: Expr)
    requires e.Assignment? && at <= i < end <= |ts|
    decreases end - at - 1, 2
  {
    Derives(ts, at, i, e.target, CONDITIONAL) && Derives(ts, i + 1, end, e.value, ASSIGNMENT)
  }

  ghost predicate IndexAt(ts: seq<Token>, at: nat, i: nat, end: nat, e: Expr)
    requires e.Index? && at <= i < end - 1 && end <= |ts|
    decreases end - at - 1, 2
  {
    && ts[end - 1].kind.RBracket?
    && Derives(ts, at, i, e.base, POSTFIX) && Derives(ts, i + 1, end - 1, e.index, ASSIGNMENT)
  }

  ghost predicate CallAt(ts: seq<Token>, at: nat, i: nat, end: nat, e: Expr)
    requires e.Call? && at <= i < end <= |ts|
    decreases end - at - 1, 4
  {
    Derives(ts, at, i, e.callee, POSTFIX) && DerivesArguments(ts, i + 1, end, e.arguments)
  }

  /** After the opening parenthesis of a call, to its closing one. */
  ghost predicate DerivesArguments(ts: seq<Token>, at: nat, end: nat, arguments: seq<Expr>)
    requires at <= end <= |ts|
    decreases end - at, 3
  {
    if arguments == [] then at < end && Newlines(ts, at, end - 1) && ts[end - 1].kind.RParen?
    else exists first: nat | at <= first < end :: Newlines(ts, at, first) && DerivesList(ts, first, end, arguments)
  }

  ghost predicate DerivesList(ts: seq<Token>, at: nat, end: nat, arguments: seq<Expr>)
    requires at <= end <= |ts| && arguments != []
    decreases end - at, 2
  {
    exists i: nat, j: nat | at <= i <= j < end :: Newlines(ts, i, j) && ArgumentAt(ts, at, i, j, end, arguments)
  }

  /** An argument, line breaks, and the end or a comma and the next argument. */
  ghost predicate ArgumentAt(ts: seq<Token>, at: nat, i: nat, j: nat, end: nat, arguments: seq<Expr>)
    requires at <= i <= j < end <= |ts| && arguments != []
    decreases end - at, 1
  {
    && i < end && Derives(ts, at, i, arguments[0], ASSIGNMENT)
    && if |arguments| == 1 then j == end - 1 && ts[j].kind.RParen?
       else ts[j].kind.Comma? && DerivesArguments(ts, j + 1, end, arguments[1..])
  }

  // ------------------------------------------------------------- introduction

  lemma CastSpelled(ts: seq<Token>, at: nat, i: nat, end: nat, e: Expr)
    requires e.Cast? && at + 1 < i && i + e.depth < end && end <= |ts|
    requires Spells(ts[at + 1..i], e.ctype) && CastAt(ts, at, i, end, e)
    ensures Spelled(ts, at, end, e)
  {
    hide Derives, DerivesArguments, Spells, Precedence, IsAssignment;
  }

  lemma BinarySpelled(ts: seq<Token>, at: nat, i: nat, end: nat, e: Expr)
    requires e.Binary? && at <= i < end && end <= |ts|
    requires ts[i] == Op(e.op) && Precedence(e.op) >= 1 && BinaryAt(ts, at, i, end, e)
    ensures Spelled(ts, at, end, e)
  {
    hide Derives, DerivesArguments, Spells, Precedence, IsAssignment;
  }

  lemma ConditionalSpelled(ts: seq<Token>, at: nat, i: nat, j: nat, end: nat, e: Expr)
    requires e.Conditional? && at <= i < j < end && end <= |ts|
    requires ts[i].kind.Question? && ts[j].kind.Colon? && ConditionalAt(ts, at, i, j, end, e)
    ensures Spelled(ts, at, end, e)
  {
    hide Derives, DerivesArguments, Spells, Precedence, IsAssignment;
  }

  lemma AssignmentSpelled(ts: seq<Token>, at: nat, i: nat, end: nat, e: Expr)
    requires e.Assignment? && at <= i < end && end <= |ts|
    requires ts[i] == Op(e.op) && IsAssignment(e.op) && AssignmentAt(ts, at, i, end, e)
    ensures Spelled(ts, at, end, e)
  {
    hide Derives, DerivesArguments, Spells, Precedence, IsAssignment;
  }

  lemma IndexSpelled(ts: seq<Token>, at: nat, i: nat, end: nat, e: Expr)
    requires e.Index? && at <= i < end - 1 && end <= |ts|
    requires ts[i].kind.LBracket? && IndexAt(ts, at, i, end, e)
    ensures Spelled(ts, at, end, e)
  {
    hide Derives, DerivesArguments, Spells, Precedence, IsAssignment;
  }

  lemma CallSpelled(ts: seq<Token>, at: nat, i: nat, end: nat, e: Expr)
    requires e.Call? && at <= i < end && end <= |ts|
    requires ts[i].kind.LParen? && CallAt(ts, at, i, end, e)
    ensures Spelled(ts, at, end, e)
  {
    hide Derives, DerivesArguments, Spells, Precedence, IsAssignment;
  }

  // --------------------------------------------------------------- inversion

  lemma Unwrapped(ts: seq<Token>, at: nat, end: nat, e: Expr, context: int)
    requires at <= end <= |ts| && Derives(ts, at, end, e, context) && !Wraps(ts, at, end, e)
    ensures Level(e) >= context && Spelled(ts, at, end, e)
  {
    hide Spelled, Wraps, Level;
  }

  lemma WrapsInside(ts: seq<Token>, at: nat, end: nat, e: Expr) returns (inner: nat)
    requires at <= end <= |ts| && Wraps(ts, at, end, e)
    ensures at < inner < end && ts[at].kind.LParen? && Newlines(ts, at + 1, inner) && ts[end - 1].kind.RParen?
    ensures Derives(ts, inner, end - 1, e, ASSIGNMENT)
  {
    hide Derives;
    inner :| at < inner < end && Newlines(ts, at + 1, inner) && WrapsFrom(ts, at, inner, end, e);
  }

  lemma CastInside(ts: seq<Token>, at: nat, end: nat, e: Expr) returns (i: nat)
    requires at <= end <= |ts| && e.Cast? && Spelled(ts, at, end, e)
    ensures at + 1 < i && i + e.depth < end && ts[at].kind.LParen? && Spells(ts[at + 1..i], e.ctype) && Stars(ts, i, i + e.depth)
    ensures ts[i + e.depth].kind.RParen? && Derives(ts, i + e.depth + 1, end, e.operand, CAST)
  {
    hide Derives, Spells;
    i :| at + 1 < i && i + e.depth < end && Spells(ts[at + 1..i], e.ctype) && CastAt(ts, at, i, end, e);
  }

  lemma BinaryInside(ts: seq<Token>, at: nat, end: nat, e: Expr) returns (i: nat)
    requires at <= end <= |ts| && e.Binary? && Spelled(ts, at, end, e)
    ensures at <= i < end && ts[i] == Op(e.op) && Precedence(e.op) >= 1
    ensures Derives(ts, at, i, e.left, Precedence(e.op)) && Derives(ts, i + 1, end, e.right, Precedence(e.op) + 1)
  {
    hide Derives, Precedence;
    i :| at <= i < end && ts[i] == Op(e.op) && BinaryAt(ts, at, i, end, e);
  }

  lemma ConditionalInside(ts: seq<Token>, at: nat, end: nat, e: Expr) returns (i: nat, j: nat)
    requires at <= end <= |ts| && e.Conditional? && Spelled(ts, at, end, e)
    ensures at <= i < j < end && ts[i].kind.Question? && ts[j].kind.Colon? && Derives(ts, at, i, e.condition, 1)
    ensures Derives(ts, i + 1, j, e.thenExpr, ASSIGNMENT) && Derives(ts, j + 1, end, e.elseExpr, CONDITIONAL)
  {
    hide Derives;
    i, j :| at <= i < j < end && ts[i].kind.Question? && ts[j].kind.Colon? && ConditionalAt(ts, at, i, j, end, e);
  }

  lemma AssignmentInside(ts: seq<Token>, at: nat, end: nat, e: Expr) returns (i: nat)
    requires at <= end <= |ts| && e.Assignment? && Spelled(ts, at, end, e)
    ensures at <= i < end && ts[i] == Op(e.op) && IsAssignment(e.op)
    ensures Derives(ts, at, i, e.target, CONDITIONAL) && Derives(ts, i + 1, end, e.value, ASSIGNMENT)
  {
    hide Derives, IsAssignment;
    i :| at <= i < end && ts[i] == Op(e.op) && AssignmentAt(ts, at, i, end, e);
  }

  lemma IndexInside(ts: seq<Token>, at: nat, end: nat, e: Expr) returns (i: nat)
    requires at <= end <= |ts| && e.Index? && Spelled(ts, at, end, e)
    ensures at <= i < end - 1 && ts[i].kind.LBracket? && ts[end - 1].kind.RBracket?
    ensures Derives(ts, at, i, e.base, POSTFIX) && Derives(ts, i + 1, end - 1, e.index, ASSIGNMENT)
  {
    hide Derives;
    i :| at <= i < end - 1 && ts[i].kind.LBracket? && IndexAt(ts, at, i, end, e);
  }

  lemma MemberInside(ts: seq<Token>, at: nat, end: nat, e: Expr)
    requires at <= end <= |ts| && e.Member? && Spelled(ts, at, end, e)
    ensures at + 1 < end && ts[end - 1] == Word(e.member) && IsDot(ts[end - 2], e.throughPointer)
    ensures Derives(ts, at, end - 2, e.base, POSTFIX)
  {
    hide Derives;
  }

  lemma CallInside(ts: seq<Token>, at: nat, end: nat, e: Expr) returns (i: nat)
    requires at <= end <= |ts| && e.Call? && Spelled(ts, at, end, e)
    ensures at <= i < end && ts[i].kind.LParen? && Derives(ts, at, i, e.callee, POSTFIX)
    ensures DerivesArguments(ts, i + 1, end, e.arguments)
  {
    hide Derives, DerivesArguments;
    i :| at <= i < end && ts[i].kind.LParen? && CallAt(ts, at, i, end, e);
  }

  lemma ArgumentInside(ts: seq<Token>, at: nat, end: nat, arguments: seq<Expr>) returns (i: nat, j: nat)
    requires at <= end <= |ts| && arguments != [] && DerivesList(ts, at, end, arguments)
    ensures at <= i <= j < end && Derives(ts, at, i, arguments[0], ASSIGNMENT) && Newlines(ts, i, j)
    ensures if |arguments| == 1 then j == end - 1 && ts[j].kind.RParen?
      else ts[j].kind.Comma? && DerivesArguments(ts, j + 1, end, arguments[1..])
  {
    hide Derives, DerivesArguments;
    i, j :| at <= i <= j < end && Newlines(ts, i, j) && ArgumentAt(ts, at, i, j, end, arguments);
  }

  lemma FirstArgument(ts: seq<Token>, at: nat, end: nat, arguments: seq<Expr>) returns (first: nat)
    requires at <= end <= |ts| && arguments != [] && DerivesArguments(ts, at, end, arguments)
    ensures at <= first < end && Newlines(ts, at, first) && DerivesList(ts, first, end, arguments)
  {
    hide DerivesList;
    first :| at <= first < end && Newlines(ts, at, first) && DerivesList(ts, first, end, arguments);
  }

  // --------------------------------------------- whatever is parsed is spelled

  lemma Looser(ts: seq<Token>, at: nat, end: nat, e: Expr, tight: int, loose: int)
    requires at <= end <= |ts| && loose <= tight && Derives(ts, at, end, e, tight)
    ensures Derives(ts, at, end, e, loose)
  {
    hide Spelled, Wraps, Level;
  }

  /** A spelled form derives its tree at the form's own level. */
  lemma SpelledDerives(ts: seq<Token>, at: nat, end: nat, e: Expr)
    requires at <= end <= |ts| && Spelled(ts, at, end, e)
    ensures Derives(ts, at, end, e, Level(e))
  {
    hide Spelled, Level;
  }

  lemma {:induction false} SkippedAreNewlines(ts: seq<Token>, at: nat)
    requires at <= |ts|
    ensures Newlines(ts, at, SkipNewlines(ts, at)) && !Look(ts, SkipNewlines(ts, at)).kind.Newline?
    decreases |ts| - at
  {
    if at < |ts| && ts[at].kind.Newline? {
      SkippedAreNewlines(ts, at + 1);
    }
  }

  lemma {:induction false} SkippedAreStars(ts: seq<Token>, at: nat)
    requires at <= |ts|
    ensures AfterStars(ts, at) <= |ts| && Stars(ts, at, AfterStars(ts, at))
    decreases |ts| - at
  {
    if at < |ts| && ts[at].lexeme == "*" {
      SkippedAreStars(ts, at + 1);
    }
  }

  lemma {:induction false} AssignmentSound(ts: seq<Token>, at: nat, typedefs: set<string>)
    requires at <= |ts| && ParseAssignment(ts, at, typedefs).Some?
    ensures var p := ParseAssignment(ts, at, typedefs).value; Derives(ts, at, p.next, p.expr, ASSIGNMENT)
    decreases |ts| - at, 9
  {
    hide IsAssignment, ParseConditional, Derives;
    ConditionalSound(ts, at, typedefs);
    var left := ParseConditional(ts, at, typedefs).value;
    var t := Look(ts, left.next);
    if t.kind.Operator? && IsAssignment(t.lexeme) {
      AssignmentSound(ts, left.next + 1, typedefs);
      var p := ParseAssignment(ts, at, typedefs).value;
      AssignmentSpelled(ts, at, left.next, p.next, p.expr);
      SpelledDerives(ts, at, p.next, p.expr);
    } else {
      Looser(ts, at, left.next, left.expr, CONDITIONAL, ASSIGNMENT);
    }
  }

  lemma {:induction false} ConditionalSound(ts: seq<Token>, at: nat, typedefs: set<string>)
    requires at <= |ts| && ParseConditional(ts, at, typedefs).Some?
    ensures var p := ParseConditional(ts, at, typedefs).value; Derives(ts, at, p.next, p.expr, CONDITIONAL)
    decreases |ts| - at, 8
  {
    hide ParseBinary, ParseAssignment, Derives;
    BinarySound(ts, at, 1, typedefs);
    var condition := ParseBinary(ts, at, 1, typedefs).value;
    if Look(ts, condition.next).kind.Question? {
      AssignmentSound(ts, condition.next + 1, typedefs);
      var thenPart := ParseAssignment(ts, condition.next + 1, typedefs).value;
      ConditionalSound(ts, thenPart.next + 1, typedefs);
      var p := ParseConditional(ts, at, typedefs).value;
      ConditionalSpelled(ts, at, condition.next, thenPart.next, p.next, p.expr);
      SpelledDerives(ts, at, p.next, p.expr);
    } else {
      Looser(ts, at, condition.next, condition.expr, 1, CONDITIONAL);
    }
  }

  /** After a binary expression of level `min` comes no operator that would continue it. */
  predicate Settled(ts: seq<Token>, at: nat, min: nat) {
    !(Look(ts, at).kind.Operator? && Precedence(Look(ts, at).lexeme) >= min)
  }

  lemma {:induction false} BinarySound(ts: seq<Token>, at: nat, min: nat, typedefs: set<string>)
    requires at <= |ts| && 1 <= min <= CAST && ParseBinary(ts, at, min, typedefs).Some?
    ensures var p := ParseBinary(ts, at, min, typedefs).value; Derives(ts, at, p.next, p.expr, min) && Settled(ts, p.next, min)
    decreases |ts| - at, 7
  {
    hide ParseCast, BinaryRest, Derives, Precedence;
    CastSound(ts, at, typedefs);
    var left := ParseCast(ts, at, typedefs).value;
    OperatorsBelowCast(Look(ts, left.next).lexeme);
    BinaryRestSound(ts, at, left.expr, left.next, min, CAST, typedefs);
  }

  lemma OperatorsBelowCast(op: string)
    ensures Precedence(op) < CAST
  {
  }

  /** The loop, from a left operand that binds at least as tightly as the next operator. */
  lemma {:induction false} BinaryRestSound(ts: seq<Token>, from: nat, left: Expr, at: nat, min: nat, bound: nat, typedefs: set<string>)
    requires from < at <= |ts| && 1 <= min <= bound <= CAST && BinaryRest(ts, left, at, min, typedefs).Some?
    requires Derives(ts, from, at, left, bound) && Settled(ts, at, bound + 1)
    ensures var p := BinaryRest(ts, left, at, min, typedefs).value; Derives(ts, from, p.next, p.expr, min) && Settled(ts, p.next, min)
    decreases |ts| - at, 6
  {
    hide Precedence, ParseBinary, Derives;
    var t := Look(ts, at);
    if t.kind.Operator? && Precedence(t.lexeme) >= min {
      var p := Precedence(t.lexeme);
      OperatorsBelowCast(t.lexeme);
      BinarySound(ts, at + 1, p + 1, typedefs);
      var right := ParseBinary(ts, at + 1, p + 1, typedefs).value;
      var e := Binary(left, t.lexeme, right.expr);
      Looser(ts, from, at, left, bound, p);
      BinarySpelled(ts, from, at, right.next, e);
      SpelledDerives(ts, from, right.next, e);
      BinaryRestSound(ts, from, e, right.next, min, p, typedefs);
    } else {
      Looser(ts, from, at, left, bound, min);
    }
  }

  lemma {:induction false} CastSound(ts: seq<Token>, at: nat, typedefs: set<string>)
    requires at <= |ts| && ParseCast(ts, at, typedefs).Some?
    ensures var p := ParseCast(ts, at, typedefs).value; Derives(ts, at, p.next, p.expr, CAST)
    decreases |ts| - at, 5
  {
    hide LooksLikeCast, ParseType, ParseUnary, Derives, Spells, AfterStars;
    if LooksLikeCast(ts, at, typedefs) {
      CastOpens(ts, at, typedefs);
      var t := ParseType(ts, at + 1).value;
      ParseTypeExactly(ts, at + 1, t.ctype, t.next);
      SkippedAreStars(ts, t.next);
      var close := AfterStars(ts, t.next);
      CastSound(ts, close + 1, typedefs);
      var p := ParseCast(ts, at, typedefs).value;
      CastSpelled(ts, at, t.next, p.next, p.expr);
      SpelledDerives(ts, at, p.next, p.expr);
    } else {
      UnarySound(ts, at, typedefs);
      var p := ParseUnary(ts, at, typedefs).value;
      Looser(ts, at, p.next, p.expr, UNARY, CAST);
    }
  }

  lemma CastOpens(ts: seq<Token>, at: nat, typedefs: set<string>)
    requires LooksLikeCast(ts, at, typedefs)
    ensures at < |ts| && ts[at].kind.LParen?
  {
  }

  lemma {:induction false} UnarySound(ts: seq<Token>, at: nat, typedefs: set<string>)
    requires at <= |ts| && ParseUnary(ts, at, typedefs).Some?
    ensures var p := ParseUnary(ts, at, typedefs).value; Derives(ts, at, p.next, p.expr, UNARY)
    decreases |ts| - at, 4
  {
    hide IsUnary, ParsePostfix, Derives;
    var t := Look(ts, at);
    if t.kind.Operator? && IsUnary(t.lexeme) {
      UnarySound(ts, at + 1, typedefs);
      var p := ParseUnary(ts, at, typedefs).value;
      assert Spelled(ts, at, p.next, p.expr);
      SpelledDerives(ts, at, p.next, p.expr);
    } else {
      PostfixSound(ts, at, typedefs);
      var p := ParsePostfix(ts, at, typedefs).value;
      Looser(ts, at, p.next, p.expr, POSTFIX, UNARY);
    }
  }

  lemma {:induction false} PostfixSound(ts: seq<Token>, at: nat, typedefs: set<string>)
    requires at <= |ts| && ParsePostfix(ts, at, typedefs).Some?
    ensures var p := ParsePostfix(ts, at, typedefs).value; Derives(ts, at, p.next, p.expr, POSTFIX)
    decreases |ts| - at, 3
  {
    hide ParsePrimary, PostfixRest, Derives;
    PrimarySound(ts, at, typedefs);
    var primary := ParsePrimary(ts, at, typedefs).value;
    PostfixRestSound(ts, at, primary.expr, primary.next, typedefs);
  }

  lemma {:induction false} PostfixRestSound(ts: seq<Token>, from: nat, base: Expr, at: nat, typedefs: set<string>)
    requires from < at <= |ts| && PostfixRest(ts, base, at, typedefs).Some? && Derives(ts, from, at, base, POSTFIX)
    ensures var p := PostfixRest(ts, base, at, typedefs).value; Derives(ts, from, p.next, p.expr, POSTFIX)
    decreases |ts| - at, 2
  {
    hide ParseAssignment, ParseArguments, Derives, DerivesArguments;
    var t := Look(ts, at);
    if t.kind.LBracket? {
      AssignmentSound(ts, at + 1, typedefs);
      var index := ParseAssignment(ts, at + 1, typedefs).value;
      var e := Index(base, index.expr);
      IndexSpelled(ts, from, at, index.next + 1, e);
      SpelledDerives(ts, from, index.next + 1, e);
      PostfixRestSound(ts, from, e, index.next + 1, typedefs);
    } else if t.kind.LParen? {
      ArgumentsSound(ts, at + 1, typedefs);
      var (arguments, next) := ParseArguments(ts, at + 1, typedefs).value;
      var e := Call(base, arguments);
      CallSpelled(ts, from, at, next, e);
      SpelledDerives(ts, from, next, e);
      PostfixRestSound(ts, from, e, next, typedefs);
    } else if at < |ts| && (t.kind.Dot? || t.lexeme == "->") {
      var e := Member(base, Look(ts, at + 1).lexeme, t.lexeme == "->");
      assert Spelled(ts, from, at + 2, e);
      SpelledDerives(ts, from, at + 2, e);
      PostfixRestSound(ts, from, e, at + 2, typedefs);
    }
  }

  lemma {:induction false} ArgumentsSound(ts: seq<Token>, at: nat, typedefs: set<string>)
    requires at <= |ts| && ParseArguments(ts, at, typedefs).Some?
    ensures var (arguments, next) := ParseArguments(ts, at, typedefs).value; DerivesArguments(ts, at, next, arguments)
    decreases |ts| - at, 11
  {
    hide ArgumentRest, DerivesList, SkipNewlines;
    SkippedAreNewlines(ts, at);
    var first := SkipNewlines(ts, at);
    if !Look(ts, first).kind.RParen? {
      ArgumentRestSound(ts, [], first, typedefs);
      var (arguments, next) := ParseArguments(ts, at, typedefs).value;
      assert arguments[0..] == arguments;
    }
  }

  /** The loop adds at least one argument to those before. */
  lemma {:induction false} ArgumentRestSound(ts: seq<Token>, before: seq<Expr>, at: nat, typedefs: set<string>)
    requires at <= |ts| && ArgumentRest(ts, before, at, typedefs).Some?
    ensures var (arguments, next) := ArgumentRest(ts, before, at, typedefs).value;
      && |before| < |arguments| && arguments[..|before|] == before && at < next
      && DerivesList(ts, at, next, arguments[|before|..])
    decreases |ts| - at, 10
  {
    hide ParseAssignment, Derives, SkipNewlines;
    AssignmentSound(ts, at, typedefs);
    var argument := ParseAssignment(ts, at, typedefs).value;
    var after := SkipNewlines(ts, argument.next);
    SkippedAreNewlines(ts, argument.next);
    var more := before + [argument.expr];
    var (arguments, next) := ArgumentRest(ts, before, at, typedefs).value;
    if Look(ts, after).kind.RParen? {
      assert arguments[|before|..] == [argument.expr];
      assert ArgumentAt(ts, at, argument.next, after, next, arguments[|before|..]);
    } else {
      SkippedAreNewlines(ts, after + 1);
      ArgumentRestSound(ts, more, SkipNewlines(ts, after + 1), typedefs);
      assert arguments[..|before|] == arguments[..|more|][..|before|] == before;
      assert arguments[|before|] == arguments[..|more|][|before|] == argument.expr;
      assert arguments[|before|..][1..] == arguments[|more|..];
      assert ArgumentAt(ts, at, argument.next, after, next, arguments[|before|..]);
    }
  }

  lemma {:induction false} PrimarySound(ts: seq<Token>, at: nat, typedefs: set<string>)
    requires at <= |ts| && ParsePrimary(ts, at, typedefs).Some?
    ensures var p := ParsePrimary(ts, at, typedefs).value; Derives(ts, at, p.next, p.expr, POSTFIX)
    decreases |ts| - at, 1
  {
    hide ParseAssignment, ParseSizeof, SkipNewlines;
    var t, p := Look(ts, at), ParsePrimary(ts, at, typedefs).value;
    if t.kind.LParen? {
      var inner := SkipNewlines(ts, at + 1);
      SkippedAreNewlines(ts, at + 1);
      AssignmentSound(ts, inner, typedefs);
      assert WrapsFrom(ts, at, inner, p.next, p.expr);
    } else if t.kind.Identifier? && t.lexeme == "sizeof" {
      SizeofSound(ts, at, typedefs);
    } else {
      assert Spelled(ts, at, p.next, p.expr);
    }
  }

  lemma SizeofSound(ts: seq<Token>, at: nat, typedefs: set<string>)
    requires at < |ts| && ts[at] == Word("sizeof") && ParseSizeof(ts, at + 1, typedefs).Some?
    ensures var p := ParseSizeof(ts, at + 1, typedefs).value; Derives(ts, at, p.next, p.expr, POSTFIX)
  {
    hide ParseType, Spells, IsTypeStart;
    var p := ParseSizeof(ts, at + 1, typedefs).value;
    if p.expr.SizeofType? {
      ParseTypeExactly(ts, at + 2, p.expr.ctype, p.next - 1);
    }
    assert Spelled(ts, at, p.next, p.expr);
  }
}
