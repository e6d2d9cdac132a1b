/** The recursive-descent parser of src/compat/CCompatExpressions.cpp: a cursor over the tokens. */
module CExpressionParser {
  import opened Basics
  import opened CTypeNames
  import opened CExpressions

  class Parser {
    const tokens: seq<Token>
    const typedefs: set<string>
    var cursor: nat

    ghost predicate Valid()
      reads this
    {
      cursor <= |tokens|
    }

    constructor (tokens: seq<Token>, typedefs: set<string>)
      ensures this.tokens == tokens && this.typedefs == typedefs && cursor == 0 && Valid()
    {
      this.tokens, this.typedefs, this.cursor := tokens, typedefs, 0;
    }

    function Current(): Token
      reads this
    {
      Look(tokens, cursor)
    }

    method Consume(kind: TokenKind) returns (taken: bool)
      requires Valid() && !kind.End?
      modifies this`cursor
      ensures Valid() && taken == (Look(tokens, old(cursor)).kind == kind)
      ensures cursor == old(cursor) + if taken then 1 else 0
    {
      taken := Current().kind == kind;
      if taken {
        cursor := cursor + 1;
      }
    }

    method ConsumeWord(word: string) returns (taken: bool)
      requires Valid() && word != ""
      modifies this`cursor
      ensures Valid() && taken == (Look(tokens, old(cursor)).lexeme == word)
      ensures cursor == old(cursor) + if taken then 1 else 0
    {
      taken := Current().lexeme == word;
      if taken {
        cursor := cursor + 1;
      }
    }

    method Skip()
      requires Valid()
      modifies this`cursor
      ensures Valid() && cursor == SkipNewlines(tokens, old(cursor))
    {
      var more := Consume(Newline);
      while more
        invariant Valid() && old(cursor) <= cursor
        invariant SkipNewlines(tokens, old(cursor)) == if more then SkipNewlines(tokens, cursor) else cursor
        decreases |tokens| - cursor, more
      {
        more := Consume(Newline);
      }
    }

    /** The outcome agrees with the grammar: both fail, or the same tree and the same end. */
    ghost predicate Agrees(e: Option<Expr>, spec: Option<Parsed>)
      reads this
    {
      match spec
      case None => e.None?
      case Some(p) => e == Some(p.expr) && cursor == p.next
    }

    method ParseAssignmentExpression() returns (e: Option<Expr>)
      requires Valid()
      modifies this`cursor
      ensures Agrees(e, ParseAssignment(tokens, old(cursor), typedefs))
      decreases |tokens| - cursor, 9
    {
      hide IsAssignment, ParseConditional;
      e := ParseConditionalExpression();
      if e.None? {
        return;
      }
      var t := Current();
      if t.kind.Operator? && IsAssignment(t.lexeme) {
        cursor := cursor + 1;
        var right := ParseAssignmentExpression();
        e := if right.None? then None else Some(Assignment(e.value, t.lexeme, right.value));
      }
    }

    method ParseConditionalExpression() returns (e: Option<Expr>)
      requires Valid()
      modifies this`cursor
      ensures Agrees(e, ParseConditional(tokens, old(cursor), typedefs))
      decreases |tokens| - cursor, 8
    {
      hide ParseBinary, ParseAssignment;
      var condition := ParseBinaryExpression(1);
      if condition.None? {
        return None;
      }
      var isConditional := Consume(Question);
      if !isConditional {
        return condition;
      }
      var thenExpr := ParseAssignmentExpression();
      if thenExpr.None? {
        return None;
      }
      var colon := Consume(Colon);
      if !colon {
        return None;
      }
      var elseExpr := ParseConditionalExpression();
      e := if elseExpr.None? then None else Some(Conditional(condition.value, thenExpr.value, elseExpr.value));
    }

    method ParseBinaryExpression(min: nat) returns (e: Option<Expr>)
      requires Valid() && min > 0
      modifies this`cursor
      ensures Agrees(e, ParseBinary(tokens, old(cursor), min, typedefs))
      decreases |tokens| - cursor, 7
    {
      hide Precedence, ParseCast;
      var left := ParseCastExpression();
      if left.None? {
        return None;
      }
      ghost var goal := BinaryRest(tokens, left.value, cursor, min, typedefs);
      while Current().kind.Operator?
        invariant old(cursor) < cursor <= |tokens| && left.Some?
        invariant goal == BinaryRest(tokens, left.value, cursor, min, typedefs)
        decreases |tokens| - cursor
      {
        var t := Current();
        if Precedence(t.lexeme) < min {
          break;
        }
        cursor := cursor + 1;
        var right := ParseBinaryExpression(Precedence(t.lexeme) + 1);
        if right.None? {
          return None;
        }
        left := Some(Binary(left.value, t.lexeme, right.value));
      }
      e := left;
    }

    method ParseCastExpression() returns (e: Option<Expr>)
      requires Valid()
      modifies this`cursor
      ensures Agrees(e, ParseCast(tokens, old(cursor), typedefs))
      decreases |tokens| - cursor, 5
    {
      hide LooksLikeCast, ParseUnary, ParseType;
      if !LooksLikeCast(tokens, cursor, typedefs) {
        e := ParseUnaryExpression();
        return;
      }
      CastOpens(tokens, cursor, typedefs);
      cursor := cursor + 1;
      var t := ParseTypeName();
      if t.None? {
        return None;
      }
      var depth := Stars();
      var closed := Consume(RParen);
      if !closed {
        return None;
      }
      var operand := ParseCastExpression();
      e := if operand.None? then None else Some(Cast(t.value, depth, operand.value));
    }

    /** parseType: the qualifiers, then the words of the base type. */
    method ParseTypeName() returns (t: Option<CType>)
      requires Valid()
      modifies this`cursor
      ensures Valid() && match ParseType(tokens, old(cursor))
        case None => t.None?
        case Some(spec) => t == Some(spec.ctype) && cursor == spec.next
    {
      hide ParseBase;
      var isConst, isVolatile := false, false;
      while Current().kind.Identifier? && IsQualifier(Current().lexeme)
        invariant Valid()
        invariant Qualifiers(tokens, old(cursor), false, false) == Qualifiers(tokens, cursor, isConst, isVolatile)
        decreases |tokens| - cursor
      {
        if Current().lexeme == "const" {
          isConst := true;
        } else {
          isVolatile := true;
        }
        cursor := cursor + 1;
      }
      var base := ParseBaseName();
      t := if base.None? then None else Some(CType(isConst, isVolatile, base.value.0, base.value.1));
    }

    method ParseBaseName() returns (b: Option<(BaseType, string)>)
      requires Valid()
      modifies this`cursor
      ensures Valid() && match ParseBase(tokens, old(cursor))
        case None => b.None?
        case Some(spec) => b == Some((spec.base, spec.name)) && cursor == spec.next
    {
      hide ParseUnsigned;
      var first := Current();
      if !first.kind.Identifier? {
        return None;
      }
      cursor := cursor + 1;
      match first.lexeme {
        case "char" => b := Some((CharType, ""));
        case "signed" =>
          var second := ConsumeWord("char");
          b := if second then Some((SignedChar, "")) else None;
        case "unsigned" => b := ParseUnsignedName();
        case "short" =>
          var _ := ConsumeWord("int");
          b := Some((ShortType, ""));
        case "int" => b := Some((IntType, ""));
        case "long" =>
          var second := ConsumeWord("long");
          var _ := ConsumeWord("int");
          b := Some((if second then LongLong else LongType, ""));
        case "float" => b := Some((FloatType, ""));
        case "double" => b := Some((DoubleType, ""));
        case "void" => b := Some((VoidType, ""));
        case "struct" =>
          var name := Current();
          if !name.kind.Identifier? {
            return None;
          }
          cursor := cursor + 1;
          b := Some((StructType, name.lexeme));
        case _ => b := Some((TypedefName, first.lexeme));
      }
    }

    method ParseUnsignedName() returns (b: Option<(BaseType, string)>)
      requires Valid()
      modifies this`cursor
      ensures Valid() && match ParseUnsigned(tokens, old(cursor))
        case None => b.None?
        case Some(spec) => b == Some((spec.base, spec.name)) && cursor == spec.next
    {
      match Current().lexeme {
        case "char" =>
          cursor := cursor + 1;
          b := Some((UnsignedChar, ""));
        case "short" =>
          cursor := cursor + 1;
          var _ := ConsumeWord("int");
          b := Some((UnsignedShort, ""));
        case "int" =>
          cursor := cursor + 1;
          b := Some((UnsignedInt, ""));
        case "long" =>
          cursor := cursor + 1;
          var second := ConsumeWord("long");
          var _ := ConsumeWord("int");
          b := Some((if second then UnsignedLongLong else UnsignedLong, ""));
        case _ => b := None;
      }
    }

    /** The stars of a cast. */
    method Stars() returns (depth: nat)
      requires Valid()
      modifies this`cursor
      ensures Valid() && cursor == AfterStars(tokens, old(cursor)) && depth == cursor - old(cursor)
    {
      depth := 0;
      var more := ConsumeWord("*");
      while more
        invariant Valid() && cursor == old(cursor) + depth + if more then 1 else 0
        invariant AfterStars(tokens, old(cursor)) == if more then AfterStars(tokens, cursor) else cursor
        decreases |tokens| - cursor, more
      {
        depth := depth + 1;
        more := ConsumeWord("*");
      }
    }

    method ParseUnaryExpression() returns (e: Option<Expr>)
      requires Valid()
      modifies this`cursor
      ensures Agrees(e, ParseUnary(tokens, old(cursor), typedefs))
      decreases |tokens| - cursor, 4
    {
      hide IsUnary, ParsePostfix;
      var t := Current();
      if t.kind.Operator? && IsUnary(t.lexeme) {
        cursor := cursor + 1;
        var operand := ParseUnaryExpression();
        e := if operand.None? then None else Some(Unary(t.lexeme, operand.value));
      } else {
        e := ParsePostfixExpression();
      }
    }

    method ParsePostfixExpression() returns (e: Option<Expr>)
      requires Valid()
      modifies this`cursor
      ensures Agrees(e, ParsePostfix(tokens, old(cursor), typedefs))
      decreases |tokens| - cursor, 3
    {
      hide ParsePrimary, ParseAssignment, ParseArguments;
      e := ParsePrimaryExpression();
      if e.None? {
        return;
      }
      ghost var goal := PostfixRest(tokens, e.value, cursor, typedefs);
      while true
        invariant old(cursor) < cursor <= |tokens| && e.Some?
        invariant goal == PostfixRest(tokens, e.value, cursor, typedefs)
        decreases |tokens| - cursor
      {
        var t := Current();
        if t.kind.LBracket? {
          cursor := cursor + 1;
          var index := ParseAssignmentExpression();
          if index.None? {
            return None;
          }
          var closed := Consume(RBracket);
          if !closed {
            return None;
          }
          e := Some(Index(e.value, index.value));
        } else if t.kind.LParen? {
          cursor := cursor + 1;
          var arguments := ParseArgumentList();
          if arguments.None? {
            return None;
          }
          e := Some(Call(e.value, arguments.value));
        } else if cursor < |tokens| && (t.kind.Dot? || t.lexeme == "->") {
          cursor := cursor + 1;
          var member := Current();
          if !member.kind.Identifier? {
            return None;
          }
          cursor := cursor + 1;
          e := Some(Member(e.value, member.lexeme, t.lexeme == "->"));
        } else if t.lexeme == "++" || t.lexeme == "--" {
          return None;
        } else {
          return;
        }
      }
    }

    method ParseArgumentList() returns (arguments: Option<seq<Expr>>)
      requires Valid()
      modifies this`cursor
      ensures match ParseArguments(tokens, old(cursor), typedefs)
        case None => arguments.None?
        case Some((list, next)) => arguments == Some(list) && cursor == next
      decreases |tokens| - cursor, 11
    {
      hide ParseAssignment;
      Skip();
      var closed := Consume(RParen);
      if closed {
        return Some([]);
      }
      var list: seq<Expr> := [];
      ghost var goal := ArgumentRest(tokens, list, cursor, typedefs);
      while !Current().kind.End?
        invariant old(cursor) <= cursor <= |tokens|
        invariant goal == ArgumentRest(tokens, list, cursor, typedefs)
        decreases |tokens| - cursor
      {
        var argument := ParseAssignmentExpression();
        if argument.None? {
          return None;
        }
        list := list + [argument.value];
        Skip();
        closed := Consume(RParen);
        if closed {
          return Some(list);
        }
        var comma := Consume(Comma);
        if !comma {
          return None;
        }
        Skip();
      }
      arguments := None;
    }

    method ParsePrimaryExpression() returns (e: Option<Expr>)
      requires Valid()
      modifies this`cursor
      ensures Agrees(e, ParsePrimary(tokens, old(cursor), typedefs))
      decreases |tokens| - cursor, 1
    {
      hide ParseSizeof, ParseAssignment;
      var t := Current();
      match t.kind {
        case Identifier =>
          cursor := cursor + 1;
          if t.lexeme != "sizeof" {
            return Some(Name(t.lexeme));
          }
          e := ParseSizeofOperand();
        case Integer | Float | String | Character =>
          cursor := cursor + 1;
          e := Some(Literal(t.kind, t.lexeme));
        case LParen =>
          cursor := cursor + 1;
          Skip();
          e := ParseAssignmentExpression();
          if e.Some? {
            var closed := Consume(RParen);
            e := if closed then e else None;
          }
        case _ =>
          e := None;
      }
    }

    method ParseSizeofOperand() returns (e: Option<Expr>)
      requires Valid()
      modifies this`cursor
      ensures Agrees(e, ParseSizeof(tokens, old(cursor), typedefs))
    {
      hide IsTypeWord, ParseType;
      var begun := Consume(LParen);
      if !begun {
        return None;
      }
      var name := Current();
      if IsTypeStart(tokens, cursor, typedefs) && (name.lexeme != "struct" || Look(tokens, cursor + 1).kind.Identifier?) {
        var t := ParseTypeName();
        if t.None? {
          return None;
        }
        var closed := Consume(RParen);
        return if closed then Some(SizeofType(t.value)) else None;
      }
      if !name.kind.Identifier? {
        return None;
      }
      cursor := cursor + 1;
      var closed := Consume(RParen);
      e := if closed then Some(SizeofName(name.lexeme)) else None;
    }
  }

  lemma CastOpens(ts: seq<Token>, at: nat, typedefs: set<string>)
    requires LooksLikeCast(ts, at, typedefs)
    ensures at < |ts|
  {
  }
}
