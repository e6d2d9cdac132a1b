/**
  The C expression grammar of src/compat/CCompatExpressions.cpp as functions of the token
  list and the cursor.
 */
module CExpressions {
  import opened Basics
  import opened CTypeNames

  datatype Expr =
    | Name(name: string)
    | Literal(kind: TokenKind, text: string)
    | SizeofName(name: string)
    | SizeofType(ctype: CType)
    | Cast(ctype: CType, depth: nat, operand: Expr)
    | Unary(op: string, operand: Expr)
    | Binary(left: Expr, op: string, right: Expr)
    | Conditional(condition: Expr, thenExpr: Expr, elseExpr: Expr)
    | Assignment(target: Expr, op: string, value: Expr)
    | Index(base: Expr, index: Expr)
    | Call(callee: Expr, arguments: seq<Expr>)
    | Member(base: Expr, member: string, throughPointer: bool)

  predicate IsUnary(op: string) {
    op == "*" || op == "&" || op == "!" || op == "~" || op == "-" || op == "+"
  }

  predicate IsAssignment(op: string) {
    op == "=" || op == "+=" || op == "-=" || op == "*=" || op == "/=" || op == "%=" ||
    op == "<<=" || op == ">>=" || op == "&=" || op == "^=" || op == "|="
  }

  function Precedence(op: string): int {
    if op == "||" then 1
    else if op == "&&" then 2
    else if op == "|" then 3
    else if op == "^" then 4
    else if op == "&" then 5
    else if op == "==" || op == "!=" then 6
    else if op == "<" || op == "<=" || op == ">" || op == ">=" then 7
    else if op == "<<" || op == ">>" then 8
    else if op == "+" || op == "-" then 9
    else if op == "*" || op == "/" || op == "%" then 10
    else -1
  }

  // ------------------------------------------------------------ the grammar

  function SkipNewlines(ts: seq<Token>, at: nat): (r: nat)
    requires at <= |ts|
    ensures at <= r <= |ts|
    decreases |ts| - at
  {
    if at < |ts| && ts[at].kind.Newline? then SkipNewlines(ts, at + 1) else at
  }

  datatype Parsed = Parsed(expr: Expr, next: nat)

  function ParseAssignment(ts: seq<Token>, at: nat, typedefs: set<string>): (r: Option<Parsed>)
    requires at <= |ts|
    ensures r.Some? ==> at < r.value.next <= |ts|
    decreases |ts| - at, 9
  {
    match ParseConditional(ts, at, typedefs)
    case None => None
    case Some(left) =>
      var t := Look(ts, left.next);
      if t.kind.Operator? && IsAssignment(t.lexeme) then
        match ParseAssignment(ts, left.next + 1, typedefs)
        case None => None
        case Some(right) => Some(Parsed(Assignment(left.expr, t.lexeme, right.expr), right.next))
      else Some(left)
  }

  function ParseConditional(ts: seq<Token>, at: nat, typedefs: set<string>): (r: Option<Parsed>)
    requires at <= |ts|
    ensures r.Some? ==> at < r.value.next <= |ts|
    decreases |ts| - at, 8
  {
    match ParseBinary(ts, at, 1, typedefs)
    case None => None
    case Some(condition) =>
      if !Look(ts, condition.next).kind.Question? then Some(condition)
      else
        match ParseAssignment(ts, condition.next + 1, typedefs)
        case None => None
        case Some(thenPart) =>
          if !Look(ts, thenPart.next).kind.Colon? then None
          else
            match ParseConditional(ts, thenPart.next + 1, typedefs)
            case None => None
            case Some(elsePart) =>
              Some(Parsed(Conditional(condition.expr, thenPart.expr, elsePart.expr), elsePart.next))
  }

  function ParseBinary(ts: seq<Token>, at: nat, min: nat, typedefs: set<string>): (r: Option<Parsed>)
    requires at <= |ts| && min > 0
    ensures r.Some? ==> at < r.value.next <= |ts|
    decreases |ts| - at, 7
  {
    match ParseCast(ts, at, typedefs)
    case None => None
    case Some(left) => BinaryRest(ts, left.expr, left.next, min, typedefs)
  }

  /** The loop of parseBinaryExpression, from a left operand that ends before `at`. */
  function BinaryRest(ts: seq<Token>, left: Expr, at: nat, min: nat, typedefs: set<string>): (r: Option<Parsed>)
    requires at <= |ts| && min > 0
    ensures r.Some? ==> at <= r.value.next <= |ts|
    decreases |ts| - at, 6
  {
    var t := Look(ts, at);
    if !t.kind.Operator? || Precedence(t.lexeme) < min then Some(Parsed(left, at))
    else
      match ParseBinary(ts, at + 1, Precedence(t.lexeme) + 1, typedefs)
      case None => None
      case Some(right) => BinaryRest(ts, Binary(left, t.lexeme, right.expr), right.next, min, typedefs)
  }

  function ParseCast(ts: seq<Token>, at: nat, typedefs: set<string>): (r: Option<Parsed>)
    requires at <= |ts|
    ensures r.Some? ==> at < r.value.next <= |ts|
    decreases |ts| - at, 5
  {
    if !LooksLikeCast(ts, at, typedefs) then ParseUnary(ts, at, typedefs)
    else
      match ParseType(ts, at + 1)
      case None => None
      case Some(t) =>
        var close := AfterStars(ts, t.next);
        if !Look(ts, close).kind.RParen? then None
        else
          match ParseCast(ts, close + 1, typedefs)
          case None => None
          case Some(operand) => Some(Parsed(Cast(t.ctype, close - t.next, operand.expr), operand.next))
  }

  function ParseUnary(ts: seq<Token>, at: nat, typedefs: set<string>): (r: Option<Parsed>)
    requires at <= |ts|
    ensures r.Some? ==> at < r.value.next <= |ts|
    decreases |ts| - at, 4
  {
    var t := Look(ts, at);
    if t.kind.Operator? && IsUnary(t.lexeme) then
      match ParseUnary(ts, at + 1, typedefs)
      case None => None
      case Some(operand) => Some(Parsed(Unary(t.lexeme, operand.expr), operand.next))
    else ParsePostfix(ts, at, typedefs)
  }

  function ParsePostfix(ts: seq<Token>, at: nat, typedefs: set<string>): (r: Option<Parsed>)
    requires at <= |ts|
    ensures r.Some? ==> at < r.value.next <= |ts|
    decreases |ts| - at, 3
  {
    match ParsePrimary(ts, at, typedefs)
    case None => None
    case Some(primary) => PostfixRest(ts, primary.expr, primary.next, typedefs)
  }

  /** The loop of parsePostfixExpression. */
  function PostfixRest(ts: seq<Token>, base: Expr, at: nat, typedefs: set<string>): (r: Option<Parsed>)
    requires at <= |ts|
    ensures r.Some? ==> at <= r.value.next <= |ts|
    decreases |ts| - at, 2
  {
    var t := Look(ts, at);
    if t.kind.LBracket? then
      match ParseAssignment(ts, at + 1, typedefs)
      case None => None
      case Some(index) =>
        if !Look(ts, index.next).kind.RBracket? then None
        else PostfixRest(ts, Index(base, index.expr), index.next + 1, typedefs)
    else if t.kind.LParen? then
      match ParseArguments(ts, at + 1, typedefs)
      case None => None
      case Some((arguments, next)) => PostfixRest(ts, Call(base, arguments), next, typedefs)
    else if at < |ts| && (t.kind.Dot? || t.lexeme == "->") then
      var member := Look(ts, at + 1);
      if !member.kind.Identifier? then None
      else PostfixRest(ts, Member(base, member.lexeme, t.lexeme == "->"), at + 2, typedefs)
    else if t.lexeme == "++" || t.lexeme == "--" then None
    else Some(Parsed(base, at))
  }

  /** parseArgumentList after its opening parenthesis. */
  function ParseArguments(ts: seq<Token>, at: nat, typedefs: set<string>): (r: Option<(seq<Expr>, nat)>)
    requires at <= |ts|
    ensures r.Some? ==> at < r.value.1 <= |ts|
    decreases |ts| - at, 11
  {
    var from := SkipNewlines(ts, at);
    if Look(ts, from).kind.RParen? then Some(([], from + 1))
    else ArgumentRest(ts, [], from, typedefs)
  }

  function ArgumentRest(ts: seq<Token>, before: seq<Expr>, at: nat, typedefs: set<string>): (r: Option<(seq<Expr>, nat)>)
    requires at <= |ts|
    ensures r.Some? ==> at < r.value.1 <= |ts|
    decreases |ts| - at, 10
  {
    if at == |ts| || ts[at].kind.End? then None
    else
      match ParseAssignment(ts, at, typedefs)
      case None => None
      case Some(argument) =>
        var arguments := before + [argument.expr];
        var after := SkipNewlines(ts, argument.next);
        if Look(ts, after).kind.RParen? then Some((arguments, after + 1))
        else if !Look(ts, after).kind.Comma? then None
        else ArgumentRest(ts, arguments, SkipNewlines(ts, after + 1), typedefs)
  }

  function ParsePrimary(ts: seq<Token>, at: nat, typedefs: set<string>): (r: Option<Parsed>)
    requires at <= |ts|
    ensures r.Some? ==> at < r.value.next <= |ts|
    decreases |ts| - at, 1
  {
    var t := Look(ts, at);
    match t.kind
    case Identifier => if t.lexeme == "sizeof" then ParseSizeof(ts, at + 1, typedefs) else Some(Parsed(Name(t.lexeme), at + 1))
    case Integer | Float | String | Character => Some(Parsed(Literal(t.kind, t.lexeme), at + 1))
    case LParen =>
      (match ParseAssignment(ts, SkipNewlines(ts, at + 1), typedefs)
       case None => None
       case Some(inner) => if Look(ts, inner.next).kind.RParen? then Some(Parsed(inner.expr, inner.next + 1)) else None)
    case _ => None
  }

  /** After the word sizeof: a type without stars, or a name. */
  function ParseSizeof(ts: seq<Token>, at: nat, typedefs: set<string>): (r: Option<Parsed>)
    requires at <= |ts|
    ensures r.Some? ==> at < r.value.next <= |ts|
    decreases |ts| - at, 0
  {
    if !Look(ts, at).kind.LParen? then None
    else
      var name := Look(ts, at + 1);
      if IsTypeStart(ts, at + 1, typedefs) && (name.lexeme != "struct" || Look(ts, at + 2).kind.Identifier?) then
        match ParseType(ts, at + 1)
        case None => None
        case Some(t) => if Look(ts, t.next).kind.RParen? then Some(Parsed(SizeofType(t.ctype), t.next + 1)) else None
      else if !name.kind.Identifier? || !Look(ts, at + 2).kind.RParen? then None
      else Some(Parsed(SizeofName(name.lexeme), at + 3))
  }
}
