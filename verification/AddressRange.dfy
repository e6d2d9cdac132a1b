/**
  Runtime-check elision of src/codegen/LLVMCodegen.cpp: the static address-range analysis,
  the addresses the emitted code computes, and the registry check that is skipped.
 */
module AddressRange {
  import opened Basics
  import opened Powers
  import opened ConstantFolding
  import opened ConstantMeaning
  import Registry
  import RegistryInvariant

  // -------------------------------------------------------------- expressions

  /**
    A constant offset; every node has a static width in bytes. The bytes of a view are
    those of its operand, computed with the operand's own interpretation.
   */
  datatype Offset =
    | Number(magnitude: nat, bytes: nat)
    | Plus(operand: Offset, bytes: nat)
    | Negate(operand: Offset, bytes: nat)
    | ViewOf(operand: Offset, bytes: nat, unsignedOperand: bool)

  datatype Arithmetic = AddressOffset | IntegerAdd | IntegerSubtract

  datatype Address =
    | AddressOf(binding: string, offset: nat, length: nat)
    | UnsignedOf(operand: Address)
    | CastOf(bytes: nat, operandBytes: Option<nat>, operand: Address)
    | ViewOfAddress(operand: Address)
    | Shifted(kind: Arithmetic, base: Address, delta: Offset, unsigned: bool, bounded: bool)

  /** What the emitter knows: rebound bindings, local bindings and whether they need checks, defined globals. */
  datatype Context = Context(rebound: set<string>, locals: map<string, bool>, globals: map<string, bool>)

  // ------------------------------------------------------- the static analysis

  /** knownSignedAddressOffset, over int64_t. */
  function KnownOffset(o: Offset): Option<int> {
    match o
    case Number(m, _) => if m > Maximum(8) then None else Some(m)
    case Plus(operand, _) => KnownOffset(operand)
    case Negate(operand, _) =>
      if KnownOffset(operand).None? || KnownOffset(operand).value == Minimum(8) then None else Some(-KnownOffset(operand).value)
    case ViewOf(operand, _, _) => KnownOffset(operand)
  }

  /** addKnownAddressOffset: the sum, when it fits int64_t. */
  function AddOffsets(a: int, b: int): Option<int> {
    if (b > 0 && a > Maximum(8) - b) || (b < 0 && a < Minimum(8) - b) then None else Some(a + b)
  }

  datatype Range = Range(binding: string, lower: int, offset: int, upper: nat)

  /** static_cast of a size_t to int64_t. */
  function ToSigned(x: nat): int {
    Wrapped(x, 8, true)
  }

  function KnownRange(e: Address, c: Context): Option<Range> {
    match e
    case UnsignedOf(operand) => KnownRange(operand, c)
    case CastOf(bytes, operandBytes, operand) => if bytes != 8 || operandBytes != Some(8) then None else KnownRange(operand, c)
    case ViewOfAddress(operand) => KnownRange(operand, c)
    case AddressOf(binding, offset, length) =>
      if binding in c.rebound then None
      else Some(Range(binding, ToSigned(offset), ToSigned(offset), Wrap64(offset + length)))
    case Shifted(kind, base, delta, _, _) =>
      if KnownRange(base, c).None? || KnownOffset(delta).None? then None
      else
        var r, k := KnownRange(base, c).value, KnownOffset(delta).value;
        if kind.IntegerSubtract? && k == Minimum(8) then None
        else
          match AddOffsets(r.offset, if kind.IntegerSubtract? then -k else k)
          case None => None
          case Some(adjusted) => Some(r.(offset := adjusted))
  }

  /** targetsRegisteredInternalObject. */
  predicate TargetsInternal(e: Address, c: Context) {
    match e
    case AddressOf(binding, _, _) =>
      && binding !in c.rebound
      && (if binding in c.locals then !c.locals[binding] else binding in c.globals && c.globals[binding])
    case UnsignedOf(operand) => TargetsInternal(operand, c)
    case CastOf(_, _, operand) => TargetsInternal(operand, c)
    case ViewOfAddress(operand) => TargetsInternal(operand, c)
    case Shifted(kind, base, _, _, _) => kind.AddressOffset? && TargetsInternal(base, c)
  }

  /** hasKnownStaticAddressRange: true drops the runtime check. */
  predicate Accepts(e: Address, bytes: nat, c: Context) {
    match KnownRange(e, c)
    case None => false
    case Some(r) => r.lower <= r.offset && TargetsInternal(e, c) && Wrap64(Wrap64(r.offset) + bytes) <= r.upper
  }

  // -------------------------------------------------------- the emitted code

  /** A bit pattern of one width read at another: truncated, zero- or sign-extended. */
  function Extend(bits: nat, from: nat, to: nat, zero: bool): nat
    requires from > 0
  {
    if to <= from then bits % Pow2(8 * to)
    else if zero then bits
    else Value(ConstantInteger(bits, from, true)) % Pow2(8 * to)
  }

  /** The width at which a node's pattern is computed. */
  function Width(o: Offset): nat {
    match o
    case ViewOf(operand, _, _) => Width(operand)
    case _ => o.bytes
  }

  /** The interpretation with which a node's operand is computed. */
  function Inner(o: Offset, zero: bool): bool {
    if o.ViewOf? then o.unsignedOperand else zero
  }

  /** emitIntegerValue on an offset: the pattern at width `to`. */
  function Emitted(o: Offset, to: nat, zero: bool): nat
    requires Emits(o)
  {
    match o
    case Number(m, bytes) => Extend(m % Pow2(8 * bytes), bytes, to, zero)
    case Negate(operand, bytes) => Extend((0 - Emitted(operand, bytes, zero)) % Pow2(8 * bytes), bytes, to, zero)
    case ViewOf(operand, _, unsigned) => Extend(Emitted(operand, Width(operand), unsigned), Width(operand), to, zero)
  }

  /** Code is emitted: a unary plus, which the analysis knows, is refused. */
  predicate Emits(o: Offset)
    ensures Emits(o) ==> Supported(Width(o))
  {
    Supported(o.bytes) && match o case Number(_, _) => true case Plus(_, _) => false case _ => Emits(o.operand)
  }

  /** The 64-bit displacement: indexing inside bounds sign-extends the offset's own bytes. */
  function Displacement(o: Offset, unsigned: bool, bounded: bool): nat
    requires Emits(o)
  {
    if bounded then Extend(Emitted(o, o.bytes, unsigned), o.bytes, 8, false) else Emitted(o, 8, unsigned)
  }

  predicate EmitsIn(e: Address) {
    match e
    case AddressOf(_, _, _) => true
    case Shifted(_, base, delta, _, _) => Emits(delta) && EmitsIn(base)
    case _ => EmitsIn(e.operand)
  }

  /** The address the emitted code computes, given where each binding is stored. */
  function RunAddress(e: Address, at: string -> nat): nat
    requires EmitsIn(e)
  {
    match e
    case AddressOf(binding, offset, _) => Wrap64(at(binding) + offset)
    case Shifted(kind, base, delta, unsigned, bounded) =>
      var d := Displacement(delta, unsigned, bounded);
      if kind.IntegerSubtract? then Wrap64(RunAddress(base, at) - d) else Wrap64(RunAddress(base, at) + d)
    case _ => RunAddress(e.operand, at)
  }

  // ------------------------------------------------------------- the proviso

  /**
    Whether the pattern at width `to` stands for the analysed offset: wherever a node is
    extended, the offset, taken at the wider width, is in the range of the node's own width.
   */
  predicate Faithful(o: Offset, to: nat, zero: bool)
    requires Emits(o) && KnownOffset(o).Some? && Supported(to)
  {
    var fits := InRange(Wrapped(KnownOffset(o).value, to, !zero), Width(o), !zero);
    if o.Number? then to <= Width(o) || fits
    else if to <= Width(o) then Faithful(o.operand, to, Inner(o, zero))
    else Faithful(o.operand, Width(o), Inner(o, zero)) && fits
  }

  /** The condition for a displacement: plain offsets are extended once, bounded ones twice. */
  predicate Fits(o: Offset, unsigned: bool, bounded: bool)
    requires Emits(o) && KnownOffset(o).Some?
  {
    if bounded then Faithful(o, o.bytes, unsigned) && InRange(KnownOffset(o).value, o.bytes, true)
    else Faithful(o, 8, unsigned)
  }

  predicate FitsIn(e: Address)
    requires EmitsIn(e)
  {
    match e
    case AddressOf(_, _, _) => true
    case Shifted(_, base, delta, unsigned, bounded) => (KnownOffset(delta).Some? ==> Fits(delta, unsigned, bounded)) && FitsIn(base)
    case _ => FitsIn(e.operand)
  }

  // ------------------------------------------------------------- soundness

  lemma Congruent(x: int, y: int, p: int)
    requires p > 0 && x % p == y % p
    ensures (0 - x) % p == (0 - y) % p
  {
    var a, b := x / p, y / p;
    assert x == a * p + x % p && y == b * p + y % p;
    assert 0 - x == (0 - y) + (b - a) * p;
    SameResidue(0 - y, b - a, p);
  }

  lemma SameResidue(x: int, k: int, p: int)
    requires p > 0
    ensures (x + k * p) % p == x % p
  {
    var q, r := x / p, x % p;
    assert x == q * p + r;
    assert (q + k) * p == q * p + k * p;
    ModUnique(x + k * p, p, r, q + k);
  }

  lemma ResidueOfResidue(x: int, p: int)
    requires p > 0
    ensures (x % p) % p == x % p
  {
    ModUnique(x % p, p, x % p, 0);
  }

  /** A pattern and the value it is read as agree modulo the pattern's width and below. */
  lemma ReadResidue(bits: nat, from: nat, to: nat, signed: bool)
    requires Supported(from) && Supported(to) && to <= from && bits < Pow2(8 * from)
    ensures Value(ConstantInteger(bits, from, signed)) % Pow2(8 * to) == bits % Pow2(8 * to)
  {
    hide Pow, Pow2;
    if Value(ConstantInteger(bits, from, signed)) != bits {
      NegativeModulo(bits, from, to);
    }
  }

  /** Extension is the residue of the value read. */
  lemma ExtendResidue(bits: nat, from: nat, to: nat, zero: bool)
    requires Supported(from) && Supported(to) && bits < Pow2(8 * from)
    ensures Extend(bits, from, to, zero) == Value(ConstantInteger(bits, from, !zero)) % Pow2(8 * to)
  {
    hide Pow, Pow2;
    if to <= from {
      ReadResidue(bits, from, to, !zero);
    } else if zero {
      WiderIsTwice(from, to);
      ModUnique(bits, Pow2(8 * to), bits, 0);
    }
  }

  /** Wrapping depends only on the residue. */
  lemma WrapOfCongruent(x: int, y: int, bytes: nat, signed: bool)
    requires Supported(bytes) && x % Pow2(8 * bytes) == y % Pow2(8 * bytes)
    ensures Wrapped(x, bytes, signed) == Wrapped(y, bytes, signed)
  {
    hide Pow, Pow2;
  }

  lemma WrapInRange(x: int, bytes: nat, signed: bool)
    requires Supported(bytes)
    ensures InRange(Wrapped(x, bytes, signed), bytes, signed)
    ensures Wrapped(x, bytes, signed) % Pow2(8 * bytes) == x % Pow2(8 * bytes)
  {
    hide Pow, Pow2;
    EncodeIsOk(x, bytes, signed);
    EncodeValue(Encode(x, bytes, signed));
  }

  lemma NarrowIsInWide(x: int, from: nat, to: nat, signed: bool)
    requires Supported(from) && Supported(to) && from < to && InRange(x, from, signed)
    ensures InRange(x, to, signed)
  {
    hide Pow, Pow2;
    WiderIsTwice(from, to);
    Halves(from);
    Halves(to);
  }

  lemma NarrowResidue(x: int, y: int, from: nat, to: nat)
    requires Supported(from) && Supported(to) && from <= to && x % Pow2(8 * to) == y % Pow2(8 * to)
    ensures x % Pow2(8 * from) == y % Pow2(8 * from)
  {
    hide Pow, Pow2;
    WidthMultiple(from, to);
    ModOfMod(x, Pow2(8 * from), Pow2(8 * (to - from)));
    ModOfMod(y, Pow2(8 * from), Pow2(8 * (to - from)));
  }

  /** Extending v's own residue keeps v exactly when v, at the wider width, fits the narrower one. */
  lemma WideningExact(v: int, from: nat, to: nat, signed: bool)
    requires Supported(from) && Supported(to) && from < to
    ensures Wrapped(v, from, signed) % Pow2(8 * to) == v % Pow2(8 * to) <==> InRange(Wrapped(v, to, signed), from, signed)
  {
    hide Pow, Pow2, Wrapped, InRange;
    var narrow, wide := Wrapped(v, from, signed), Wrapped(v, to, signed);
    WrapInRange(v, from, signed);
    WrapInRange(v, to, signed);
    if narrow % Pow2(8 * to) == v % Pow2(8 * to) {
      WrapOfCongruent(narrow, v, to, signed);
      NarrowIsInWide(narrow, from, to, signed);
      ValueEncode(narrow, to, signed);
    }
    if InRange(wide, from, signed) {
      NarrowResidue(wide, v, from, to);
      WrapOfCongruent(wide, v, from, signed);
      ValueEncode(wide, from, signed);
    }
  }

  /** A pattern extended to a wider width stands for v exactly when it is v's residue and v fits. */
  lemma ExtendExact(bits: nat, v: int, from: nat, to: nat, zero: bool)
    requires Supported(from) && Supported(to) && from < to && bits < Pow2(8 * from)
    ensures Extend(bits, from, to, zero) == v % Pow2(8 * to) <==>
      bits == v % Pow2(8 * from) && InRange(Wrapped(v, to, !zero), from, !zero)
  {
    hide Pow, Pow2, Wrapped, InRange, Extend;
    ExtendResidue(bits, from, to, zero);
    var read := Value(ConstantInteger(bits, from, !zero));
    if Extend(bits, from, to, zero) == v % Pow2(8 * to) {
      NarrowResidue(read, v, from, to);
      ReadResidue(bits, from, from, !zero);
      ModUnique(bits, Pow2(8 * from), bits, 0);
    }
    WideningExact(v, from, to, !zero);
    if bits == v % Pow2(8 * from) {
      WrappedIsRead(v, from, !zero);
    }
  }

  lemma WrappedIsRead(v: int, bytes: nat, signed: bool)
    requires Supported(bytes)
    ensures Wrapped(v, bytes, signed) == Value(ConstantInteger(v % Pow2(8 * bytes), bytes, signed))
  {
    hide Pow, Pow2;
  }

  // ------------------------------------------------- emitted against analysed

  /** What a node adds to its operand: nothing, or a sign. */
  function Applied(o: Offset, x: int): int {
    if o.Negate? then 0 - x else x
  }

  /** The pattern of an inner node at its own width. */
  function OwnPattern(o: Offset, zero: bool): nat
    requires Emits(o)
  {
    if o.Number? then o.magnitude % Pow2(8 * o.bytes)
    else Applied(o, Emitted(o.operand, Width(o), Inner(o, zero))) % Pow2(8 * Width(o))
  }

  lemma EmittedIsExtended(o: Offset, to: nat, zero: bool)
    requires Emits(o) && Supported(to)
    ensures Emitted(o, to, zero) == Extend(OwnPattern(o, zero), Width(o), to, zero) && OwnPattern(o, zero) < Pow2(8 * Width(o))
    ensures Emitted(o, to, zero) < Pow2(8 * to)
  {
    hide Pow, Pow2, Extend;
    if !o.Number? {
      EmittedBelow(o.operand, Width(o), Inner(o, zero));
      ModUnique(Emitted(o.operand, Width(o), Inner(o, zero)), Pow2(8 * Width(o)), Emitted(o.operand, Width(o), Inner(o, zero)), 0);
    }
    ExtendResidue(OwnPattern(o, zero), Width(o), to, zero);
  }

  lemma {:induction false} EmittedBelow(o: Offset, to: nat, zero: bool)
    requires Emits(o) && Supported(to)
    ensures Emitted(o, to, zero) < Pow2(8 * to)
    decreases o
  {
    hide Pow, Pow2, Extend;
    match o
    case Number(m, bytes) => ExtendResidue(m % Pow2(8 * bytes), bytes, to, zero);
    case ViewOf(operand, _, unsigned) =>
      EmittedBelow(operand, Width(operand), unsigned);
      ExtendResidue(Emitted(operand, Width(operand), unsigned), Width(operand), to, zero);
    case Negate(operand, bytes) =>
      ExtendResidue((0 - Emitted(operand, bytes, zero)) % Pow2(8 * bytes), bytes, to, zero);
  }

  /** Emitting at a narrower width truncates. */
  lemma EmittedTruncates(o: Offset, wide: nat, narrow: nat, zero: bool)
    requires Emits(o) && Supported(wide) && Supported(narrow) && narrow <= wide
    ensures Emitted(o, wide, zero) % Pow2(8 * narrow) == Emitted(o, narrow, zero)
  {
    hide Pow, Pow2, Extend, Emitted, OwnPattern;
    EmittedIsExtended(o, wide, zero);
    EmittedIsExtended(o, narrow, zero);
    var own := OwnPattern(o, zero);
    ExtendResidue(own, Width(o), wide, zero);
    ExtendResidue(own, Width(o), narrow, zero);
    WidthMultiple(narrow, wide);
    ModOfMod(Value(ConstantInteger(own, Width(o), !zero)), Pow2(8 * narrow), Pow2(8 * (wide - narrow)));
  }

  /** Applying a node's operation neither creates nor hides a difference of residues. */
  lemma AppliedResidue(o: Offset, x: int, y: int, p: int)
    requires p > 0
    ensures Applied(o, x) % p == Applied(o, y) % p <==> x % p == y % p
    ensures Applied(o, x % p) % p == Applied(o, x) % p
  {
    if x % p == y % p {
      Congruent(x, y, p);
    }
    if (0 - x) % p == (0 - y) % p {
      Congruent(0 - x, 0 - y, p);
    }
    ResidueOfResidue(x, p);
    Congruent(x % p, x, p);
  }

  /** The emitted pattern is the analysed offset, modulo the width, exactly when it is faithful. */
  lemma {:induction false} EmittedExactly(o: Offset, to: nat, zero: bool)
    requires Emits(o) && Supported(to) && KnownOffset(o).Some?
    ensures Emitted(o, to, zero) == KnownOffset(o).value % Pow2(8 * to) <==> Faithful(o, to, zero)
    decreases o
  {
    hide Pow, Pow2, Extend, Wrapped, InRange, Emitted, OwnPattern;
    var v, own := KnownOffset(o).value, OwnPattern(o, zero);
    EmittedIsExtended(o, to, zero);
    OwnExactly(o, zero);
    if to > Width(o) {
      ExtendExact(own, v, Width(o), to, zero);
      if !o.Number? {
        EmittedExactly(o.operand, Width(o), Inner(o, zero));
      }
    } else {
      ExtendTruncates(own, Width(o), to, zero);
      if o.Number? {
        NumberOwn(o, zero);
        WidthMultiple(to, Width(o));
        ModOfMod(v, Pow2(8 * to), Pow2(8 * (Width(o) - to)));
      } else {
        EmittedExactly(o.operand, to, Inner(o, zero));
        TruncatedOwn(o, to, zero);
      }
    }
  }

  lemma ExtendTruncates(bits: nat, from: nat, to: nat, zero: bool)
    requires Supported(from) && Supported(to) && to <= from
    ensures Extend(bits, from, to, zero) == bits % Pow2(8 * to)
  {
  }

  lemma NumberOwn(o: Offset, zero: bool)
    requires Emits(o) && o.Number? && KnownOffset(o).Some?
    ensures OwnPattern(o, zero) == KnownOffset(o).value % Pow2(8 * Width(o))
  {
    hide Pow, Pow2;
  }

  /** The own pattern of an inner node stands for the offset exactly when its operand's does. */
  lemma OwnExactly(o: Offset, zero: bool)
    requires Emits(o) && KnownOffset(o).Some?
    ensures o.Number? ==> OwnPattern(o, zero) == KnownOffset(o).value % Pow2(8 * Width(o))
    ensures !o.Number? ==> KnownOffset(o.operand).Some? && KnownOffset(o).value == Applied(o, KnownOffset(o.operand).value)
    ensures !o.Number? ==> (OwnPattern(o, zero) == KnownOffset(o).value % Pow2(8 * Width(o)) <==>
      Emitted(o.operand, Width(o), Inner(o, zero)) == KnownOffset(o.operand).value % Pow2(8 * Width(o)))
  {
    hide Pow, Pow2, Emitted;
    if !o.Number? {
      var p, c := Pow2(8 * Width(o)), Emitted(o.operand, Width(o), Inner(o, zero));
      EmittedBelow(o.operand, Width(o), Inner(o, zero));
      ModUnique(c, p, c, 0);
      AppliedResidue(o, c, KnownOffset(o.operand).value, p);
    }
  }

  lemma TruncatedOwn(o: Offset, to: nat, zero: bool)
    requires Emits(o) && !o.Number? && Supported(to) && to <= Width(o) && KnownOffset(o).Some? && KnownOffset(o.operand).Some?
    ensures OwnPattern(o, zero) % Pow2(8 * to) == KnownOffset(o).value % Pow2(8 * to) <==>
      Emitted(o.operand, to, Inner(o, zero)) == KnownOffset(o.operand).value % Pow2(8 * to)
  {
    hide Pow, Pow2, Emitted;
    var p, c := Pow2(8 * to), Emitted(o.operand, Width(o), Inner(o, zero));
    WidthMultiple(to, Width(o));
    ModOfMod(Applied(o, c), p, Pow2(8 * (Width(o) - to)));
    EmittedTruncates(o.operand, Width(o), to, Inner(o, zero));
    AppliedResidue(o, c, KnownOffset(o.operand).value, p);
  }

  lemma KnownIsSigned(o: Offset)
    requires KnownOffset(o).Some?
    ensures InRange(KnownOffset(o).value, 8, true)
  {
    hide Pow, Pow2;
    Halves(8);
  }

  /** The emitted displacement is the analysed offset exactly when it fits. */
  lemma DisplacementExactly(o: Offset, unsigned: bool, bounded: bool)
    requires Emits(o) && KnownOffset(o).Some?
    ensures Displacement(o, unsigned, bounded) == Wrap64(KnownOffset(o).value) <==> Fits(o, unsigned, bounded)
  {
    hide Pow, Pow2, Extend, Wrapped, InRange, Emitted, KnownOffset, Faithful;
    var v := KnownOffset(o).value;
    if bounded {
      KnownIsSigned(o);
      EmittedExactly(o, o.bytes, unsigned);
      EmittedBelow(o, o.bytes, unsigned);
      if o.bytes < 8 {
        ExtendExact(Emitted(o, o.bytes, unsigned), v, o.bytes, 8, false);
        ValueEncode(v, 8, true);
      } else {
        ExtendTruncates(Emitted(o, 8, unsigned), 8, 8, false);
        ModUnique(Emitted(o, 8, unsigned), Pow2(8 * 8), Emitted(o, 8, unsigned), 0);
      }
    } else {
      EmittedExactly(o, 8, unsigned);
    }
  }

  lemma WrapSum(a: int, b: int)
    ensures Wrap64(Wrap64(a) + Wrap64(b)) == Wrap64(a + b) && Wrap64(Wrap64(a) - Wrap64(b)) == Wrap64(a - b)
    ensures Wrap64(Wrap64(a) + b) == Wrap64(a + b)
  {
    hide Pow, Pow2;
    var p := Pow2(WORD);
    ModAdd(a, Wrap64(b), p);
    ModAdd(b, a, p);
    ModAdd(a, 0 - Wrap64(b), p);
    ModSubtract(a, b, p);
    ModAdd(a, b, p);
  }

  lemma ModAdd(a: int, b: int, p: int)
    requires p > 0
    ensures (a % p + b) % p == (a + b) % p
  {
    var q, r := a / p, a % p;
    assert a == q * p + r;
    SameResidue(r + b, q, p);
  }

  lemma ModSubtract(a: int, b: int, p: int)
    requires p > 0
    ensures (a - b % p) % p == (a - b) % p
  {
    var q, r := b / p, b % p;
    assert b == q * p + r;
    SameResidue(a - b, q, p);
  }

  /** The run-time address is the binding's address plus the analysed offset. */
  lemma {:induction false} RangeIsAddress(e: Address, c: Context, at: string -> nat)
    requires EmitsIn(e) && FitsIn(e) && KnownRange(e, c).Some?
    ensures var r := KnownRange(e, c).value; RunAddress(e, at) == Wrap64(at(r.binding) + r.offset)
    decreases e
  {
    hide Pow, Pow2, Wrap64, Displacement, KnownOffset, Fits, Emits;
    match e
    case AddressOf(binding, offset, _) => SignedResidue(at(binding), offset);
    case UnsignedOf(operand) => RangeIsAddress(operand, c, at);
    case CastOf(_, _, operand) => RangeIsAddress(operand, c, at);
    case ViewOfAddress(operand) => RangeIsAddress(operand, c, at);
    case Shifted(kind, base, delta, unsigned, bounded) =>
      RangeIsAddress(base, c, at);
      var r, k := KnownRange(base, c).value, KnownOffset(delta).value;
      DisplacementExactly(delta, unsigned, bounded);
      WrapSum(at(r.binding) + r.offset, k);
  }

  lemma SignedResidue(a: int, offset: nat)
    ensures Wrap64(a + offset) == Wrap64(a + ToSigned(offset))
  {
    hide Pow, Pow2;
    EncodeIsOk(offset, 8, true);
    EncodeValue(Encode(offset, 8, true));
    ModAdd(offset, a, Pow2(WORD));
    ModAdd(ToSigned(offset), a, Pow2(WORD));
  }

  // ------------------------------------------------------ the accepted range

  /** The sub-object an address expression names. */
  function Origin(e: Address): (o: Address)
    ensures o.AddressOf?
  {
    match e
    case AddressOf(_, _, _) => e
    case Shifted(_, base, _, _, _) => Origin(base)
    case _ => Origin(e.operand)
  }

  lemma {:induction false} RangeOrigin(e: Address, c: Context)
    requires KnownRange(e, c).Some?
    ensures var r, o := KnownRange(e, c).value, Origin(e);
      r.binding == o.binding && r.lower == ToSigned(o.offset) && r.upper == Wrap64(o.offset + o.length)
    ensures InRange(KnownRange(e, c).value.offset, 8, true)
    decreases e
  {
    hide Pow, Pow2, KnownOffset;
    match e
    case AddressOf(_, offset, _) =>
      EncodeIsOk(offset, 8, true);
      EncodeValue(Encode(offset, 8, true));
    case UnsignedOf(operand) => RangeOrigin(operand, c);
    case CastOf(_, _, operand) => RangeOrigin(operand, c);
    case ViewOfAddress(operand) => RangeOrigin(operand, c);
    case Shifted(_, base, _, _, _) => RangeOrigin(base, c);
  }

  lemma SmallIsItself(x: int)
    requires 0 <= x <= Maximum(8)
    ensures Wrap64(x) == x && Wrapped(x, 8, true) == x
  {
    hide Pow, Pow2;
    Halves(8);
    ModUnique(x, Pow2(WORD), x, 0);
  }

  /** The final comparison means containment exactly when the access length does not wrap it. */
  lemma ContainmentExact(lower: nat, offset: int, upper: nat, bytes: nat)
    requires lower <= offset <= Maximum(8) && upper <= Maximum(8)
    ensures (Wrap64(Wrap64(offset) + bytes) <= upper <==> offset + bytes <= upper) <==>
      offset + bytes < Pow2(WORD) || Wrap64(offset + bytes) > upper
  {
    hide Pow, Pow2;
    Halves(8);
    SmallIsItself(offset);
    if offset + bytes < Pow2(WORD) {
      ModUnique(offset + bytes, Pow2(WORD), offset + bytes, 0);
    }
  }

  /** An accepted access stays inside the named sub-object. */
  lemma AcceptedIsInside(e: Address, bytes: nat, c: Context)
    requires Accepts(e, bytes, c)
    requires Origin(e).offset + Origin(e).length <= Maximum(8) && bytes <= Maximum(8)
    ensures var r, o := KnownRange(e, c).value, Origin(e);
      r.binding == o.binding && o.offset <= r.offset && r.offset + bytes <= o.offset + o.length
  {
    hide Pow, Pow2, KnownRange, TargetsInternal, Wrap64, Wrapped;
    RangeOrigin(e, c);
    var r, o := KnownRange(e, c).value, Origin(e);
    SmallIsItself(o.offset);
    SmallIsItself(o.offset + o.length);
    SumBelowWord(r.offset, bytes);
    ContainmentExact(o.offset, r.offset, o.offset + o.length, bytes);
  }

  lemma SumBelowWord(a: int, b: int)
    requires a <= Maximum(8) && b <= Maximum(8)
    ensures a + b < Pow2(WORD)
  {
    hide Pow, Pow2;
    Halves(8);
  }

  /**
    What the emitter knows promises of the table: a local that needs no access check, and a
    global defined here, are registered and live with all their storage unless rebound.
   */
  ghost predicate Promises(c: Context, at: string -> nat, size: string -> nat, t: Registry.Table) {
    && (forall b | b in c.locals && !c.locals[b] && b !in c.rebound :: RegistryInvariant.InsideLive(t, at(b), size(b)))
    && (forall b | b in c.globals && c.globals[b] && b !in c.locals && b !in c.rebound :: RegistryInvariant.InsideLive(t, at(b), size(b)))
  }

  /** Elision is sound: where the promise holds, the skipped hs_check would have passed. */
  lemma SkippedCheckPasses(e: Address, bytes: nat, c: Context, at: string -> nat, size: string -> nat, t: Registry.Table, heap: nat -> bool)
    requires Accepts(e, bytes, c) && EmitsIn(e) && FitsIn(e) && bytes > 0 && bytes <= Maximum(8)
    requires var o := Origin(e); o.offset + o.length <= size(o.binding) && at(o.binding) + size(o.binding) <= Maximum(8)
    requires Promises(c, at, size, t) && RegistryInvariant.Invariant(t, heap)
    ensures Registry.Check(t, RunAddress(e, at), bytes).Ok?
  {
    hide Pow, Pow2, KnownRange, TargetsInternal, Wrap64, Wrapped, RunAddress, FitsIn, EmitsIn, Maximum;
    AcceptedIsInside(e, bytes, c);
    RangeIsAddress(e, c, at);
    TargetIsPromised(e, c, at, size, t);
    var r, o := KnownRange(e, c).value, Origin(e);
    SmallIsItself(at(r.binding) + r.offset);
    InnerRange(t, at(o.binding), size(o.binding), at(o.binding) + r.offset, bytes);
    RegistryInvariant.CheckIsExact(t, at(o.binding) + r.offset, bytes, heap);
  }

  /** What targetsRegisteredInternalObject accepts has the promise. */
  lemma {:induction false} TargetIsPromised(e: Address, c: Context, at: string -> nat, size: string -> nat, t: Registry.Table)
    requires TargetsInternal(e, c) && Promises(c, at, size, t)
    ensures RegistryInvariant.InsideLive(t, at(Origin(e).binding), size(Origin(e).binding))
    decreases e
  {
    hide RegistryInvariant.InsideLive;
    match e
    case AddressOf(_, _, _) =>
    case Shifted(_, base, _, _, _) => TargetIsPromised(base, c, at, size, t);
    case _ => TargetIsPromised(e.operand, c, at, size, t);
  }

  // ------------------------------------------------------- what is accepted

  /** The offset the known deltas add up to. */
  function StaticOffset(e: Address): int {
    match e
    case AddressOf(_, offset, _) => offset
    case Shifted(_, base, delta, _, _) => StaticOffset(base) + (if KnownOffset(delta).Some? then KnownOffset(delta).value else 0)
    case _ => StaticOffset(e.operand)
  }

  /** Only views, casts between 8-byte integers and address offsets by known deltas, without overflow of 64 bits. */
  predicate Traceable(e: Address) {
    match e
    case AddressOf(_, _, _) => true
    case CastOf(bytes, operandBytes, operand) => bytes == 8 && operandBytes == Some(8) && Traceable(operand)
    case Shifted(kind, base, delta, _, _) =>
      kind.AddressOffset? && KnownOffset(delta).Some? && Traceable(base) && InRange(StaticOffset(e), 8, true)
    case _ => Traceable(e.operand)
  }

  /** A local that needs no access check, or a global defined here, and not rebound. */
  predicate IsInternal(b: string, c: Context) {
    b !in c.rebound && ((b in c.locals && !c.locals[b]) || (b !in c.locals && b in c.globals && c.globals[b]))
  }

  lemma {:induction false} RangeExactlyTraced(e: Address, c: Context)
    requires Origin(e).offset + Origin(e).length <= Maximum(8)
    ensures TargetsInternal(e, c) && KnownRange(e, c).Some? <==> IsInternal(Origin(e).binding, c) && Traceable(e)
    ensures TargetsInternal(e, c) && KnownRange(e, c).Some? ==> KnownRange(e, c).value.offset == StaticOffset(e)
    decreases e
  {
    hide Pow, Pow2, KnownOffset, Wrap64, Wrapped;
    match e
    case AddressOf(_, offset, _) => SmallIsItself(offset);
    case UnsignedOf(operand) => RangeExactlyTraced(operand, c);
    case CastOf(_, _, operand) => RangeExactlyTraced(operand, c);
    case ViewOfAddress(operand) => RangeExactlyTraced(operand, c);
    case Shifted(_, base, delta, _, _) =>
      RangeExactlyTraced(base, c);
      if KnownRange(base, c).Some? {
        RangeOrigin(base, c);
      }
  }

  /** A check is dropped exactly for a contained access to an internal binding through traceable steps. */
  lemma AcceptsExactly(e: Address, bytes: nat, c: Context)
    requires Origin(e).offset + Origin(e).length <= Maximum(8) && bytes <= Maximum(8)
    ensures var o := Origin(e);
      Accepts(e, bytes, c) <==>
        && IsInternal(o.binding, c) && Traceable(e)
        && o.offset <= StaticOffset(e) && StaticOffset(e) + bytes <= o.offset + o.length
  {
    hide Pow, Pow2, KnownRange, TargetsInternal, Wrap64, Wrapped, Traceable, StaticOffset, IsInternal;
    RangeExactlyTraced(e, c);
    if KnownRange(e, c).Some? {
      RangeOrigin(e, c);
      var r, o := KnownRange(e, c).value, Origin(e);
      SmallIsItself(o.offset);
      SmallIsItself(o.offset + o.length);
      if r.lower <= r.offset {
        SumBelowWord(r.offset, bytes);
        ContainmentExact(o.offset, r.offset, o.offset + o.length, bytes);
      }
    }
  }

  lemma InnerRange(t: Registry.Table, outer: nat, size: nat, inner: nat, bytes: nat)
    requires RegistryInvariant.InsideLive(t, outer, size) && bytes > 0 && outer <= inner && inner + bytes <= outer + size
    ensures RegistryInvariant.InsideLive(t, inner, bytes)
  {
    var j: nat :| j < |t.slots| && RegistryInvariant.Encloses(t.slots[j], outer, size);
    assert RegistryInvariant.Encloses(t.slots[j], inner, bytes);
  }

  // ----------------------------------------------------- the exact condition

  /** The offset from the binding's storage that the emitted code adds up to. */
  function RunOffset(e: Address): nat
    requires EmitsIn(e)
  {
    match e
    case AddressOf(_, offset, _) => Wrap64(offset)
    case Shifted(kind, base, delta, unsigned, bounded) =>
      var d := Displacement(delta, unsigned, bounded);
      if kind.IntegerSubtract? then Wrap64(RunOffset(base) - d) else Wrap64(RunOffset(base) + d)
    case _ => RunOffset(e.operand)
  }

  lemma {:induction false} AddressSplits(e: Address, at: string -> nat)
    requires EmitsIn(e)
    ensures RunAddress(e, at) == Wrap64(at(Origin(e).binding) + RunOffset(e))
    decreases e
  {
    hide Pow, Pow2, Wrap64, Displacement, Emits;
    match e
    case AddressOf(binding, offset, _) => WrapBoth(offset, at(binding));
    case UnsignedOf(operand) => AddressSplits(operand, at);
    case CastOf(_, _, operand) => AddressSplits(operand, at);
    case ViewOfAddress(operand) => AddressSplits(operand, at);
    case Shifted(kind, base, delta, unsigned, bounded) =>
      AddressSplits(base, at);
      var a: int, b: int, d: int := at(Origin(base).binding), RunOffset(base), Displacement(delta, unsigned, bounded);
      WrapBoth(a + b, d);
      WrapBoth(b + d, a);
      WrapBoth(b - d, a);
  }

  /** The table in which a single static object is registered. */
  function Alone(ptr: nat, size: nat): Registry.Table {
    var t := Registry.EmptyTable();
    t.(slots := t.slots[0 := Registry.Entry(ptr, size, 0, 0, 0, Registry.Static, false)])
  }

  lemma AloneIsRegistered(ptr: nat, size: nat)
    requires ptr > 0 && size > 0
    ensures Alone(ptr, size).Valid() && RegistryInvariant.Invariant(Alone(ptr, size), _ => false)
    ensures forall p: nat, n: nat | n > 0 ::
      RegistryInvariant.InsideLive(Alone(ptr, size), p, n) <==> ptr <= p && p + n <= ptr + size
  {
    var x, t := Registry.Entry(ptr, size, 0, 0, 0, Registry.Static, false), Registry.EmptyTable();
    RegistryInvariant.EmptyInvariant(_ => false);
    RegistryInvariant.UpdateKeeps(t, 0, x, _ => false);
    forall p: nat, n: nat | n > 0
      ensures RegistryInvariant.InsideLive(Alone(ptr, size), p, n) <==> ptr <= p && p + n <= ptr + size
    {
      assert Alone(ptr, size).slots[0] == x;
      assert ptr <= p && p + n <= ptr + size ==> RegistryInvariant.Encloses(Alone(ptr, size).slots[0], p, n);
    }
  }

  /**
    Dropping a check is sound exactly when the emitted offset and the access stay inside
    the storage up to the named sub-object's end: then the check passes wherever that
    storage is registered and live, and otherwise it fails when nothing else is registered.
   */
  lemma ElisionSoundExactly(e: Address, bytes: nat, at: string -> nat, t: Registry.Table, heap: nat -> bool)
    requires EmitsIn(e) && 0 < bytes <= Maximum(8)
    requires var o := Origin(e); 0 < o.offset + o.length && 0 < at(o.binding) && at(o.binding) + o.offset + o.length <= Maximum(8)
    requires RegistryInvariant.Invariant(t, heap) && RegistryInvariant.InsideLive(t, at(Origin(e).binding), Origin(e).offset + Origin(e).length)
    ensures var o := Origin(e);
      if RunOffset(e) + bytes <= o.offset + o.length then Registry.Check(t, RunAddress(e, at), bytes).Ok?
      else !Registry.Check(Alone(at(o.binding), o.offset + o.length), RunAddress(e, at), bytes).Ok?
  {
    hide Pow, Pow2, Wrap64, RunAddress, RunOffset, EmitsIn, Registry.Check, RegistryInvariant.InsideLive, RegistryInvariant.Invariant, Alone;
    var o := Origin(e);
    var a, size, shift := at(o.binding), o.offset + o.length, RunOffset(e);
    AddressSplits(e, at);
    RunOffsetBelow(e);
    if shift + bytes <= size {
      SmallIsItself(a + shift);
      InnerRange(t, a, size, a + shift, bytes);
      RegistryInvariant.CheckIsExact(t, a + shift, bytes, heap);
    } else {
      AloneIsRegistered(a, size);
      Outside(a, size, shift, bytes);
      RegistryInvariant.CheckIsExact(Alone(a, size), RunAddress(e, at), bytes, _ => false);
    }
  }

  lemma RunOffsetBelow(e: Address)
    requires EmitsIn(e)
    ensures RunOffset(e) < Pow2(WORD)
  {
    hide Pow, Pow2;
    match e
    case AddressOf(_, _, _) =>
    case Shifted(_, base, _, _, _) =>
    case _ => RunOffsetBelow(e.operand);
  }

  /** An offset past the end leads past the end, or around the address space to before the start. */
  lemma Outside(a: nat, size: nat, shift: nat, bytes: nat)
    requires a + size <= Maximum(8) && shift < Pow2(WORD) && shift + bytes > size
    ensures var p := Wrap64(a + shift); p < a || p + bytes > a + size
  {
    hide Pow, Pow2;
    Halves(8);
    if a + shift < Pow2(WORD) {
      WrapOfWord(a + shift);
    } else {
      ModUnique(a + shift, Pow2(WORD), a + shift - Pow2(WORD), 1);
    }
  }

  // --------------------------------------------------------- where it fails

  /** Every node of the offset has the same width. */
  predicate Uniform(o: Offset, bytes: nat) {
    o.bytes == bytes && match o case Number(_, _) => true case _ => Uniform(o.operand, bytes)
  }

  lemma {:induction false} UniformFaithful(o: Offset, bytes: nat, zero: bool)
    requires Uniform(o, bytes) && Emits(o) && KnownOffset(o).Some?
    ensures Width(o) == bytes && Faithful(o, bytes, zero)
    decreases o
  {
    hide InRange, Wrapped;
    if !o.Number? {
      UniformFaithful(o.operand, bytes, Inner(o, zero));
    }
  }

  /**
    With one width throughout, only the outermost value matters: it must be in the unsigned
    range when it is zero-extended and in the signed range otherwise; 64-bit offsets always do.
   */
  lemma UniformExactly(o: Offset, bytes: nat, unsigned: bool, bounded: bool)
    requires Uniform(o, bytes) && Emits(o) && KnownOffset(o).Some?
    ensures Displacement(o, unsigned, bounded) == Wrap64(KnownOffset(o).value) <==>
      bytes == 8 || InRange(KnownOffset(o).value, bytes, bounded || !unsigned)
  {
    hide Pow, Pow2, Displacement, KnownOffset, Wrap64;
    var v := KnownOffset(o).value;
    DisplacementExactly(o, unsigned, bounded);
    UniformFaithful(o, bytes, unsigned);
    KnownIsSigned(o);
    if bytes < 8 {
      OwnExactly(o, unsigned);
      if !o.Number? {
        UniformFaithful(o.operand, bytes, Inner(o, unsigned));
      }
      ValueEncode(v, 8, true);
      UnsignedAtEight(v, bytes);
    }
  }

  /** A signed 64-bit value, read unsigned, is in a narrower unsigned range exactly when it is itself. */
  lemma UnsignedAtEight(v: int, bytes: nat)
    requires InRange(v, 8, true) && Supported(bytes) && bytes < 8
    ensures InRange(Wrapped(v, 8, false), bytes, false) <==> InRange(v, bytes, false)
  {
    hide Pow, Pow2;
    Halves(8);
    WiderIsTwice(bytes, 8);
    var p: int := Pow2(8 * 8);
    assert (-1) * p == 0 - p;
    if v >= 0 {
      ModUnique(v, p, v, 0);
    } else {
      ModUnique(v, p, v + p, -1);
    }
  }

  /** A literal is displaced by its analysed value exactly when it fits its own width as it is read. */
  lemma LiteralMustFit(m: nat, bytes: nat, unsigned: bool, bounded: bool)
    requires Supported(bytes) && m <= Maximum(8)
    ensures Displacement(Number(m, bytes), unsigned, bounded) == Wrap64(m) <==> bytes == 8 || InRange(m, bytes, bounded || !unsigned)
  {
    hide Pow, Pow2, Displacement, Wrap64, InRange;
    UniformExactly(Number(m, bytes), bytes, unsigned, bounded);
  }

  /** The outermost displacement decides: the address is the analysed one exactly when it fits. */
  lemma RangeExactly(e: Address, c: Context, at: string -> nat)
    requires EmitsIn(e) && e.Shifted? && FitsIn(e.base) && KnownRange(e, c).Some?
    ensures KnownOffset(e.delta).Some?
    ensures var r := KnownRange(e, c).value;
      RunAddress(e, at) == Wrap64(at(r.binding) + r.offset) <==> Fits(e.delta, e.unsigned, e.bounded)
  {
    hide Pow, Pow2, Wrap64, Displacement, KnownOffset, Fits, Emits;
    RangeIsAddress(e.base, c, at);
    var r, k := KnownRange(e.base, c).value, KnownOffset(e.delta).value;
    var a: int, d: int := at(r.binding) + r.offset, Displacement(e.delta, e.unsigned, e.bounded);
    DisplacementExactly(e.delta, e.unsigned, e.bounded);
    DisplacementBelow(e.delta, e.unsigned, e.bounded);
    WrapSum(a, k);
    if e.kind.IntegerSubtract? {
      WrapCancels(a, 0 - d, 0 - k);
      WrapNegated(d, k);
    } else {
      WrapCancels(a, d, k);
    }
    WrapBoth(a, d);
    WrapOfWord(d);
  }

  lemma DisplacementBelow(o: Offset, unsigned: bool, bounded: bool)
    requires Emits(o)
    ensures Displacement(o, unsigned, bounded) < Pow2(WORD)
  {
    hide Pow, Pow2, Extend, Emitted;
    EmittedBelow(o, o.bytes, unsigned);
    ExtendResidue(Emitted(o, o.bytes, unsigned), o.bytes, 8, false);
    EmittedBelow(o, 8, unsigned);
  }

  lemma WrapOfWord(d: nat)
    requires d < Pow2(WORD)
    ensures Wrap64(d) == d
  {
    hide Pow, Pow2;
    ModUnique(d, Pow2(WORD), d, 0);
  }

  lemma WrapBoth(a: int, d: int)
    ensures Wrap64(Wrap64(a) + d) == Wrap64(a + d) && Wrap64(Wrap64(a) - d) == Wrap64(a - d)
  {
    hide Pow, Pow2;
    ModAdd(a, d, Pow2(WORD));
    ModAdd(a, 0 - d, Pow2(WORD));
  }

  lemma WrapCancels(a: int, x: int, y: int)
    ensures Wrap64(a + x) == Wrap64(a + y) <==> Wrap64(x) == Wrap64(y)
  {
    hide Pow, Pow2;
    var p := Pow2(WORD);
    ModAdd(x, a, p);
    ModAdd(y, a, p);
    ModAdd(a + x, 0 - a, p);
    ModAdd(a + y, 0 - a, p);
  }

  lemma WrapNegated(x: int, y: int)
    ensures Wrap64(0 - x) == Wrap64(0 - y) <==> Wrap64(x) == Wrap64(y)
  {
    hide Pow, Pow2;
    var p := Pow2(WORD);
    if Wrap64(x) == Wrap64(y) {
      Congruent(x, y, p);
    }
    if Wrap64(0 - x) == Wrap64(0 - y) {
      Congruent(0 - x, 0 - y, p);
    }
  }

  /** One byte at &x + 8 + (-1 as u32), where x has 16 bytes; every literal fits its signed width. */
  function Overshooting(): Address {
    Shifted(AddressOffset,
            Shifted(AddressOffset, AddressOf("x", 0, 16), Number(8, 4), false, false),
            ViewOf(Negate(Number(1, 4), 4), 4, false), true, false)
  }

  /**
    The elision accepts that access, with x registered and live, and the check it drops
    would have failed: the zero-extended offset overshoots by 2^32.
   */
  lemma ZeroExtensionIsUnsound(at: string -> nat)
    requires at("x") == 4096
    ensures var e, c := Overshooting(), Context({}, map["x" := false], map[]);
      && Accepts(e, 1, c) && EmitsIn(e) && RunAddress(e, at) == 4096 + 8 + 0xFFFF_FFFF
      && RegistryInvariant.Invariant(Alone(4096, 16), _ => false) && RegistryInvariant.InsideLive(Alone(4096, 16), 4096, 16)
      && !Registry.Check(Alone(4096, 16), RunAddress(e, at), 1).Ok?
  {
    hide Pow, Pow2, Wrap64, Registry.Check, Registry.First;
    var e, c := Overshooting(), Context({}, map["x" := false], map[]);
    PowersOfTheWords();
    OvershootingIsAccepted(c);
    OvershootingRuns(at);
    AloneIsRegistered(4096, 16);
    if Registry.Check(Alone(4096, 16), RunAddress(e, at), 1).Ok? {
      RegistryInvariant.CheckIsSound(Alone(4096, 16), RunAddress(e, at), 1);
    }
  }

  lemma PowersOfTheWords()
    ensures Pow2(8 * 4) == 0x1_0000_0000 && Pow2(WORD) == 0x1_0000_0000_0000_0000
  {
    hide Pow, Pow2;
    FourthPower();
    Pow2Add(4, 4);
    Pow2Add(8, 8);
    Pow2Add(16, 16);
    Pow2Add(32, 32);
  }

  lemma FourthPower()
    ensures Pow2(4) == 16
  {
  }

  lemma OvershootingIsAccepted(c: Context)
    requires c == Context({}, map["x" := false], map[])
    ensures Accepts(Overshooting(), 1, c) && EmitsIn(Overshooting())
  {
    hide Pow, Pow2, Wrap64, Wrapped;
    PowersOfTheWords();
    Halves(8);
    SmallIsItself(0);
    SmallIsItself(7);
    SmallIsItself(8);
    SmallIsItself(16);
    assert KnownOffset(Number(8, 4)) == Some(8);
    assert KnownOffset(Number(1, 4)) == Some(1);
    assert KnownRange(AddressOf("x", 0, 16), c) == Some(Range("x", 0, 0, 16));
    assert KnownRange(Overshooting().base, c) == Some(Range("x", 0, 8, 16));
    assert KnownRange(Overshooting(), c) == Some(Range("x", 0, 7, 16));
  }

  lemma OvershootingRuns(at: string -> nat)
    requires at("x") == 4096
    ensures RunAddress(Overshooting(), at) == 4096 + 8 + 0xFFFF_FFFF
  {
    hide Pow, Pow2, Wrap64;
    PowersOfTheWords();
    var p: int := Pow2(8 * 4);
    assert (-1) * p == 0 - p;
    ModUnique(8, p, 8, 0);
    ModUnique(1, p, 1, 0);
    ModUnique(0 - 1, p, p - 1, -1);
    ModUnique(p - 1, p, p - 1, 0);
    Halves(4);
    assert Emitted(Number(1, 4), 4, true) == 1;
    assert Emitted(Negate(Number(1, 4), 4), 4, true) == p - 1;
    assert Emitted(ViewOf(Negate(Number(1, 4), 4), 4, false), 8, true) == p - 1;
    WrapOfWord(4096);
    WrapOfWord(4104);
    WrapOfWord(8);
    WrapOfWord(4096 + 8 + 0xFFFF_FFFF);
    ModUnique(8, Pow2(8 * 8), 8, 0);
    assert Emitted(Number(8, 4), 8, false) == 8;
  }
}
