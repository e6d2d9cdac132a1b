/**
  Tokens, and the type names of casts and sizeof: parseType of src/compat/CCompatParser.cpp
  and the look-ahead looksLikeCast of src/compat/CCompatExpressions.cpp, which read the
  same words separately. Tokens stand before the final End token.
 */
module CTypeNames {
  import opened Basics

  datatype TokenKind =
    | End | Invalid | Identifier | Integer | Float | String | Character | Newline
    | LParen | RParen | LBrace | RBrace | LBracket | RBracket | Comma | Semicolon
    | Colon | Question | Dot | Operator

  datatype Token = Token(kind: TokenKind, lexeme: string)

  const END: Token := Token(TokenKind.End, "")

  function Look(ts: seq<Token>, at: nat): Token {
    if at < |ts| then ts[at] else END
  }

  // ------------------------------------------------------------------- words

  predicate IsQualifier(lexeme: string) {
    lexeme == "const" || lexeme == "volatile"
  }

  predicate IsBuiltin(lexeme: string) {
    lexeme == "char" || lexeme == "signed" || lexeme == "unsigned" || lexeme == "short" || lexeme == "int" ||
    lexeme == "long" || lexeme == "float" || lexeme == "double" || lexeme == "void"
  }

  predicate IsKeyword(lexeme: string) {
    IsQualifier(lexeme) || IsBuiltin(lexeme) || lexeme == "struct"
  }

  /** The words that can begin a type name. */
  predicate IsTypeWord(lexeme: string, typedefs: set<string>) {
    IsKeyword(lexeme) || lexeme in typedefs
  }

  /** isTypeStart: also any identifier before another one. */
  predicate IsTypeStart(ts: seq<Token>, at: nat, typedefs: set<string>) {
    Look(ts, at).kind.Identifier? && (IsTypeWord(Look(ts, at).lexeme, typedefs) || Look(ts, at + 1).kind.Identifier?)
  }

  // --------------------------------------------------------------- parseType

  datatype BaseType =
    | CharType | SignedChar | UnsignedChar | ShortType | UnsignedShort | IntType | UnsignedInt
    | LongType | UnsignedLong | LongLong | UnsignedLongLong | FloatType | DoubleType | VoidType
    | StructType | TypedefName

  datatype CType = CType(isConst: bool, isVolatile: bool, base: BaseType, name: string)

  datatype Qualified = Qualified(isConst: bool, isVolatile: bool, next: nat)

  function Qualifiers(ts: seq<Token>, at: nat, isConst: bool, isVolatile: bool): (r: Qualified)
    requires at <= |ts|
    ensures at <= r.next <= |ts|
    decreases |ts| - at
  {
    var t := Look(ts, at);
    if t.kind.Identifier? && IsQualifier(t.lexeme) then
      Qualifiers(ts, at + 1, isConst || t.lexeme == "const", isVolatile || t.lexeme != "const")
    else Qualified(isConst, isVolatile, at)
  }

  function AfterWord(ts: seq<Token>, at: nat, word: string): nat {
    if Look(ts, at).lexeme == word then at + 1 else at
  }

  datatype BaseName = BaseName(base: BaseType, name: string, next: nat)

  function ParseUnsigned(ts: seq<Token>, at: nat): (r: Option<BaseName>)
    requires at <= |ts|
    ensures r.Some? ==> at < r.value.next <= |ts|
  {
    var second := Look(ts, at).lexeme;
    if second == "char" then Some(BaseName(UnsignedChar, "", at + 1))
    else if second == "short" then Some(BaseName(UnsignedShort, "", AfterWord(ts, at + 1, "int")))
    else if second == "int" then Some(BaseName(UnsignedInt, "", at + 1))
    else if second == "long" then
      if Look(ts, at + 1).lexeme == "long" then Some(BaseName(UnsignedLongLong, "", AfterWord(ts, at + 2, "int")))
      else Some(BaseName(UnsignedLong, "", AfterWord(ts, at + 1, "int")))
    else None
  }

  function ParseBase(ts: seq<Token>, at: nat): (r: Option<BaseName>)
    requires at <= |ts|
    ensures r.Some? ==> at < r.value.next <= |ts|
  {
    var first, second := Look(ts, at), Look(ts, at + 1);
    if !first.kind.Identifier? then None
    else if first.lexeme == "char" then Some(BaseName(CharType, "", at + 1))
    else if first.lexeme == "signed" then
      if second.lexeme == "char" then Some(BaseName(SignedChar, "", at + 2)) else None
    else if first.lexeme == "unsigned" then ParseUnsigned(ts, at + 1)
    else if first.lexeme == "short" then Some(BaseName(ShortType, "", AfterWord(ts, at + 1, "int")))
    else if first.lexeme == "int" then Some(BaseName(IntType, "", at + 1))
    else if first.lexeme == "long" then
      if second.lexeme == "long" then Some(BaseName(LongLong, "", AfterWord(ts, at + 2, "int")))
      else Some(BaseName(LongType, "", AfterWord(ts, at + 1, "int")))
    else if first.lexeme == "float" then Some(BaseName(FloatType, "", at + 1))
    else if first.lexeme == "double" then Some(BaseName(DoubleType, "", at + 1))
    else if first.lexeme == "void" then Some(BaseName(VoidType, "", at + 1))
    else if first.lexeme == "struct" then
      if second.kind.Identifier? then Some(BaseName(StructType, second.lexeme, at + 2)) else None
    else Some(BaseName(TypedefName, first.lexeme, at + 1))
  }

  datatype TypeName = TypeName(ctype: CType, next: nat)

  function ParseType(ts: seq<Token>, at: nat): (r: Option<TypeName>)
    requires at <= |ts|
    ensures r.Some? ==> at < r.value.next <= |ts|
  {
    var q := Qualifiers(ts, at, false, false);
    match ParseBase(ts, q.next)
    case None => None
    case Some(b) => Some(TypeName(CType(q.isConst, q.isVolatile, b.base, b.name), b.next))
  }

  // ----------------------------------------------------------- looksLikeCast

  predicate IsBase(lexeme: string, typedefs: set<string>) {
    lexeme == "char" || lexeme == "short" || lexeme == "int" || lexeme == "long" || lexeme == "float" ||
    lexeme == "double" || lexeme == "void" || lexeme in typedefs
  }

  function AfterQualifiers(ts: seq<Token>, at: nat): (r: nat)
    ensures r >= at
    decreases |ts| - at
  {
    var t := Look(ts, at);
    if at < |ts| && t.kind.Identifier? && (t.lexeme == "const" || t.lexeme == "volatile") then AfterQualifiers(ts, at + 1) else at
  }

  function AfterStars(ts: seq<Token>, at: nat): (r: nat)
    ensures r >= at
    decreases |ts| - at
  {
    if at < |ts| && ts[at].lexeme == "*" then AfterStars(ts, at + 1) else at
  }

  function AfterLength(ts: seq<Token>, at: nat, word: string): nat {
    var next := if word == "long" && Look(ts, at).lexeme == "long" then at + 1 else at;
    if (word == "long" || word == "short") && Look(ts, next).lexeme == "int" then next + 1 else next
  }

  /** Just after the base type that starts at `at`, if one does. */
  function AfterBase(ts: seq<Token>, at: nat, typedefs: set<string>): Option<nat> {
    var first, second := Look(ts, at), Look(ts, at + 1);
    if !first.kind.Identifier? then None
    else if first.lexeme == "struct" then (if second.kind.Identifier? then Some(at + 2) else None)
    else if first.lexeme == "signed" then (if second.lexeme == "char" then Some(at + 2) else None)
    else if first.lexeme == "unsigned" then
      if second.lexeme in {"char", "short", "int", "long"} then Some(AfterLength(ts, at + 2, second.lexeme)) else None
    else if IsBase(first.lexeme, typedefs) then Some(AfterLength(ts, at + 1, first.lexeme))
    else None
  }

  predicate LooksLikeCast(ts: seq<Token>, at: nat, typedefs: set<string>) {
    && Look(ts, at).kind.LParen?
    && match AfterBase(ts, AfterQualifiers(ts, at + 1), typedefs)
       case None => false
       case Some(next) => Look(ts, AfterStars(ts, next)).kind.RParen?
  }

  /** The two readers skip the same qualifiers. */
  lemma {:induction false} SameQualifiers(ts: seq<Token>, at: nat, isConst: bool, isVolatile: bool)
    requires at <= |ts|
    ensures AfterQualifiers(ts, at) == Qualifiers(ts, at, isConst, isVolatile).next
    decreases |ts| - at
  {
    var t := Look(ts, at);
    if t.kind.Identifier? && IsQualifier(t.lexeme) {
      SameQualifiers(ts, at + 1, isConst || t.lexeme == "const", isVolatile || t.lexeme != "const");
    }
  }

  predicate Known(base: BaseType, name: string, typedefs: set<string>) {
    base.TypedefName? ==> name in typedefs
  }

  /** The two readers see the same base type, except that one takes any name for a typedef. */
  lemma SameBase(ts: seq<Token>, at: nat, typedefs: set<string>)
    requires at <= |ts|
    ensures match ParseBase(ts, at)
      case None => AfterBase(ts, at, typedefs).None?
      case Some(b) => AfterBase(ts, at, typedefs) == if Known(b.base, b.name, typedefs) then Some(b.next) else None
  {
  }

  /** looksLikeCast holds exactly when a cast's parentheses can be read to their end. */
  lemma LooksLikeCastExact(ts: seq<Token>, at: nat, typedefs: set<string>)
    requires at <= |ts|
    ensures LooksLikeCast(ts, at, typedefs) <==>
      && Look(ts, at).kind.LParen?
      && match ParseType(ts, at + 1)
         case None => false
         case Some(t) => Known(t.ctype.base, t.ctype.name, typedefs) && Look(ts, AfterStars(ts, t.next)).kind.RParen?
  {
    hide ParseBase, AfterBase;
    if Look(ts, at).kind.LParen? {
      SameQualifiers(ts, at + 1, false, false);
      SameBase(ts, AfterQualifiers(ts, at + 1), typedefs);
    }
  }

  // --------------------------------------------------------------- spellings

  /** The words of a base type without a name, with or without a final int. */
  function Words(base: BaseType): seq<string>
    requires !base.StructType? && !base.TypedefName?
  {
    match base
    case CharType => ["char"]
    case SignedChar => ["signed", "char"]
    case UnsignedChar => ["unsigned", "char"]
    case ShortType => ["short"]
    case UnsignedShort => ["unsigned", "short"]
    case IntType => ["int"]
    case UnsignedInt => ["unsigned", "int"]
    case LongType => ["long"]
    case UnsignedLong => ["unsigned", "long"]
    case LongLong => ["long", "long"]
    case UnsignedLongLong => ["unsigned", "long", "long"]
    case FloatType => ["float"]
    case DoubleType => ["double"]
    case VoidType => ["void"]
  }

  /** short and long types may end in int. */
  predicate TakesInt(base: BaseType) {
    base.ShortType? || base.UnsignedShort? || base.LongType? || base.UnsignedLong? || base.LongLong? || base.UnsignedLongLong?
  }

  predicate Reads(w: seq<Token>, words: seq<string>) {
    |w| == |words| && forall i | 0 <= i < |w| :: w[i].lexeme == words[i]
  }

  /** The tokens are the words of the base type; only the first must be an identifier. */
  predicate SpellsBase(w: seq<Token>, base: BaseType, name: string) {
    && |w| > 0 && w[0].kind.Identifier?
    && match base
       case StructType => |w| == 2 && w[0].lexeme == "struct" && w[1] == Token(Identifier, name)
       case TypedefName => |w| == 1 && w[0].lexeme == name && !IsKeyword(name)
       case _ => name == "" && (Reads(w, Words(base)) || (TakesInt(base) && Reads(w, Words(base) + ["int"])))
  }

  predicate AllQualifiers(w: seq<Token>) {
    forall i | 0 <= i < |w| :: w[i].kind.Identifier? && IsQualifier(w[i].lexeme)
  }

  predicate Mentions(w: seq<Token>, word: string) {
    exists i | 0 <= i < |w| :: w[i].lexeme == word
  }

  /** k qualifiers, in any order and number, and then the base type. */
  predicate SpellsFrom(w: seq<Token>, t: CType, k: nat) {
    && k <= |w| && AllQualifiers(w[..k]) && t.isConst == Mentions(w[..k], "const") && t.isVolatile == Mentions(w[..k], "volatile")
    && SpellsBase(w[k..], t.base, t.name)
  }

  predicate Spells(w: seq<Token>, t: CType) {
    exists k: nat | k <= |w| :: SpellsFrom(w, t, k)
  }

  /** The token after the words does not lengthen the base type. */
  predicate Ends(w: seq<Token>, base: BaseType, after: Token) {
    && (TakesInt(base) && |w| > 0 && w[|w| - 1].lexeme != "int" ==> after.lexeme != "int")
    && ((base.LongType? || base.UnsignedLong?) && |w| > 0 && w[|w| - 1].lexeme == "long" ==> after.lexeme != "long")
  }

  lemma UnsignedIsSpelled(ts: seq<Token>, at: nat)
    requires at < |ts| && ts[at] == Token(Identifier, "unsigned") && ParseUnsigned(ts, at + 1).Some?
    ensures var b := ParseUnsigned(ts, at + 1).value;
      SpellsBase(ts[at..b.next], b.base, b.name) && Ends(ts[at..b.next], b.base, Look(ts, b.next))
  {
    var b := ParseUnsigned(ts, at + 1).value;
    assert forall i | 0 <= i < b.next - at :: ts[at..b.next][i] == ts[at + i];
  }

  lemma LengthIsSpelled(ts: seq<Token>, at: nat)
    requires at < |ts| && (ts[at] == Token(Identifier, "short") || ts[at] == Token(Identifier, "long"))
    ensures ParseBase(ts, at).Some?
    ensures var b := ParseBase(ts, at).value;
      SpellsBase(ts[at..b.next], b.base, b.name) && Ends(ts[at..b.next], b.base, Look(ts, b.next))
  {
    var b := ParseBase(ts, at).value;
    assert forall i | 0 <= i < b.next - at :: ts[at..b.next][i] == ts[at + i];
  }

  lemma BaseIsSpelled(ts: seq<Token>, at: nat)
    requires at <= |ts| && ParseBase(ts, at).Some? && !IsQualifier(Look(ts, at).lexeme)
    ensures var b := ParseBase(ts, at).value;
      SpellsBase(ts[at..b.next], b.base, b.name) && Ends(ts[at..b.next], b.base, Look(ts, b.next))
  {
    hide ParseUnsigned;
    var b := ParseBase(ts, at).value;
    if ts[at].lexeme == "unsigned" {
      UnsignedIsSpelled(ts, at);
    } else if ts[at].lexeme == "short" || ts[at].lexeme == "long" {
      LengthIsSpelled(ts, at);
    } else {
      assert forall i | 0 <= i < b.next - at :: ts[at..b.next][i] == ts[at + i];
    }
  }

  lemma SpelledIsBase(ts: seq<Token>, at: nat, end: nat, base: BaseType, name: string)
    requires at <= end <= |ts| && SpellsBase(ts[at..end], base, name) && Ends(ts[at..end], base, Look(ts, end))
    ensures ParseBase(ts, at) == Some(BaseName(base, name, end)) && !IsQualifier(Look(ts, at).lexeme)
  {
    hide ParseUnsigned;
    var w := ts[at..end];
    assert w[0] == ts[at];
    if w[0].lexeme == "unsigned" {
      SpelledIsUnsigned(ts, at, end, base, name);
    } else {
      assert |w| > 1 ==> w[1] == ts[at + 1];
      assert |w| > 2 ==> w[2] == ts[at + 2];
    }
  }

  lemma SpelledIsUnsigned(ts: seq<Token>, at: nat, end: nat, base: BaseType, name: string)
    requires at < end <= |ts| && SpellsBase(ts[at..end], base, name) && Ends(ts[at..end], base, Look(ts, end)) && ts[at].lexeme == "unsigned"
    ensures ParseUnsigned(ts, at + 1) == Some(BaseName(base, name, end))
  {
    var w := ts[at..end];
    assert w[0] == ts[at];
    assert |w| > 1 ==> w[1] == ts[at + 1];
    assert |w| > 2 ==> w[2] == ts[at + 2];
    assert |w| > 3 ==> w[3] == ts[at + 3];
  }

  /** The qualifier loop takes every qualifier and remembers which kinds it saw. */
  lemma {:induction false} QualifiersAre(ts: seq<Token>, at: nat, isConst: bool, isVolatile: bool)
    requires at <= |ts|
    ensures var q := Qualifiers(ts, at, isConst, isVolatile);
      var w := ts[at..q.next];
      && AllQualifiers(w) && !(Look(ts, q.next).kind.Identifier? && IsQualifier(Look(ts, q.next).lexeme))
      && q.isConst == (isConst || Mentions(w, "const")) && q.isVolatile == (isVolatile || Mentions(w, "volatile"))
    decreases |ts| - at
  {
    var t := Look(ts, at);
    if t.kind.Identifier? && IsQualifier(t.lexeme) {
      var c, v := isConst || t.lexeme == "const", isVolatile || t.lexeme != "const";
      QualifiersAre(ts, at + 1, c, v);
      var q := Qualifiers(ts, at + 1, c, v);
      assert ts[at..q.next] == [t] + ts[at + 1..q.next];
      MentionsCons(t, ts[at + 1..q.next], "const");
      MentionsCons(t, ts[at + 1..q.next], "volatile");
    }
  }

  lemma MentionsCons(t: Token, w: seq<Token>, word: string)
    ensures Mentions([t] + w, word) <==> t.lexeme == word || Mentions(w, word)
  {
    if t.lexeme == word {
      assert ([t] + w)[0].lexeme == word;
    }
    if i :| 0 <= i < |w| && w[i].lexeme == word {
      assert ([t] + w)[i + 1].lexeme == word;
    }
  }

  /** parseType reads exactly the spellings of a type, to their longest extent. */
  lemma ParseTypeExactly(ts: seq<Token>, at: nat, t: CType, end: nat)
    requires at <= end <= |ts|
    ensures ParseType(ts, at) == Some(TypeName(t, end)) <==> Spells(ts[at..end], t) && Ends(ts[at..end], t.base, Look(ts, end))
  {
    hide ParseBase, SpellsBase, Ends, Qualifiers, Mentions, AllQualifiers;
    var q, w := Qualifiers(ts, at, false, false), ts[at..end];
    QualifiersAre(ts, at, false, false);
    if ParseType(ts, at) == Some(TypeName(t, end)) {
      BaseNeedsIdentifier(ts, q.next);
      BaseIsSpelled(ts, q.next);
      assert w[..q.next - at] == ts[at..q.next] && w[q.next - at..] == ts[q.next..end];
      assert SpellsFrom(w, t, q.next - at);
      EndsAtLast(w, q.next - at, t.base, Look(ts, end));
    }
    if Spells(w, t) && Ends(w, t.base, Look(ts, end)) {
      var k: nat :| k <= |w| && SpellsFrom(w, t, k);
      assert w[..k] == ts[at..at + k] && w[k..] == ts[at + k..end];
      SpelledHasWords(w[k..], t.base, t.name);
      EndsAtLast(w, k, t.base, Look(ts, end));
      SpelledIsBase(ts, at + k, end, t.base, t.name);
      QualifiersEnd(ts, at, at + k, q.next);
    }
  }

  lemma BaseNeedsIdentifier(ts: seq<Token>, at: nat)
    requires at <= |ts| && ParseBase(ts, at).Some?
    ensures Look(ts, at).kind.Identifier?
  {
  }

  lemma SpelledHasWords(w: seq<Token>, base: BaseType, name: string)
    requires SpellsBase(w, base, name)
    ensures |w| > 0
  {
  }

  lemma EndsAtLast(w: seq<Token>, k: nat, base: BaseType, after: Token)
    requires k < |w|
    ensures Ends(w, base, after) == Ends(w[k..], base, after)
  {
    assert w[k..][|w[k..]| - 1] == w[|w| - 1];
  }

  /** Where a run of qualifiers stops is determined. */
  lemma QualifiersEnd(ts: seq<Token>, at: nat, a: nat, b: nat)
    requires at <= a <= |ts| && at <= b <= |ts| && AllQualifiers(ts[at..a]) && AllQualifiers(ts[at..b])
    requires !IsQualifier(Look(ts, a).lexeme) && !(Look(ts, b).kind.Identifier? && IsQualifier(Look(ts, b).lexeme))
    ensures a == b
  {
    assert forall i | at <= i < a :: ts[i] == ts[at..a][i - at];
    assert forall i | at <= i < b :: ts[i] == ts[at..b][i - at];
  }
}
