# Hitsimple, modelled and proved in Dafny

This project models the parts of the Hitsimple compiler and runtime that carry the most
reasoning, and proves what they are for. `dafny verify dfyconfig.toml` checks all of it.

**Scope and frame emission.** Structured statements (blocks, if, while, for, break,
continue, goto, labels, throw, try/catch, return, guarded static initialisation) are
emitted to basic blocks by an emitter that tracks a static scope depth. Three theorems:
on every run of every accepted program the runtime's frame and scope counters agree with
the static depths, so the runtime never reaches a failure branch (`ScopeMachine`); the
emitted blocks end exactly when the statements do and with the same events, jumps and
labels included, each event at the scope depth it is written at (`ScopeTheorem`); and a
function is accepted exactly when its body meets a condition stated on the body alone
(`ScopeAcceptance`).
`ScopeHir` holds the emitter as functions, `ScopeEmitter` the same as a class with the
source's mutable fields, `ScopeTyping`, `ScopeLabels`, `ScopeEmission` and
`ScopeInduction` the typing proof, `ScopeMeaning`, `ScopeShape`, `ScopeFalls` and
`ScopePreservation` the simulation, `ScopeLost` the functions it does not speak of.

**Software binary128.** Encoding an exact quotient is round-to-nearest, ties to even
(`Binary128`), the second encoder agrees with it and both invert decoding (`QuadCodec`),
decimal parsing (`DecimalText`, `DecimalParser`) is correct rounding of the exact decimal
except on a family of very long texts that is characterised exactly (`DecimalExactness`),
and 36 digits are enough to come back to the same bits (`DecimalRoundTrip`).
`Binary128Words` reads the results by the field positions of the interchange format.

**The checked-memory registry.** The 1024-slot table as functions (`Registry`), as the
class that updates it in place (`RegistryRuntime`), what every run keeps
(`RegistryInvariant`), and the set of live objects that the table stands for, on which
each operation has one stated effect or fails for one stated reason (`RegistryEffect`).
`RuntimeFrames` holds the frame and scope counters.

**C structs across the ABI.** Name resolution on possibly cyclic declarations
(`TypeMeaning`, `TypeGraph`, `TypeResolver`), struct layout (`StructLayout`), System V
eightbyte classification (`CAbiClasses`, `CAbiClassifier`), register pieces (`CAbiDirect`,
`CAbiPlan`, `CAbiPieces`), packing and unpacking (`CAbiTransfer`) and physical argument positions
(`ArgumentPositions`).

**C expressions and constants.** The expression parser as functions (`CExpressions`) and
as a class with a cursor (`CExpressionParser`), type names and the look-ahead for casts
(`CTypeNames`), the grammar as a relation and the proof that the parser accepts nothing
else (`CExpressionGrammar`) and all of it (`CExpressionReading`), the same grammar as the
productions of C11 (`CExpressionStandard`), a shortest rendering
(`CExpressionShow`), and the constant evaluator with its exact overflow conditions
(`Bits`, `ConstantFolding`, `ConstantMeaning`, `ConstantExactness`, `ConstantTheorem`).

**Check elision and scanning.** The static address-range analysis that drops runtime
checks (`AddressRange`), and the two-pass formatted input (`ScanFormat`, `ScanSpec`,
`ScanInput`), its inverses (`ScanRoundTrip`), the values it leaves in its targets
(`ScanOutcome`) and the strings it leaves terminated (`ScanTerminators`).

`Basics` and `Powers` hold shared definitions. Code that works by mutation is modelled by
classes, arrays and loops proved equal to functions on values; the theorems are about
those functions.

Findings the proofs produced: an input or a family of inputs on which the code fails, and
the exact condition under which it does not.

- `realloc` can move a live block into a freed range that hides it
  (`ReallocCanHideALiveBlock`, `ReallocShadowsExactly`).
- A decimal text of more than 93,999 digits can be misread, by the saturating exponent
  counter (`LongTextMisrounds`) or by an exponent narrowed to 32 bits; texts parse
  correctly exactly when these do no harm (`ParsesCorrectlyExactly`).
- An offset that is negative but zero-extended, or too large for its width, is analysed
  and emitted differently, so a check can be dropped that would have failed
  (`ZeroExtensionIsUnsound`, `DisplacementExactly`, `UniformExactly`,
  `ElisionSoundExactly`).
- Constant folding keeps the narrow pattern when a negative constant is widened
  (`WideningIsWrong`, `ConvertExact`), negates the least 32-bit value to itself
  (`NegatingLeastIsWrong`, `NegateExact`), lets a signed `<<` overflow its width
  (`ShiftIntoTheSignIsWrong`, `LeftShiftExact`), and refuses the least value modulo -1
  (`LeastRemainderIsRefused`, `SignedGuardsExact`). On clean operands each of the first
  three goes wrong exactly so (`CastSharp`, `NegateSharp`, `ShiftSharp`).
- A unary operator directly before a cast does not apply to it (`UnaryBeforeCast`,
  `UnaryOfCastExactly`).
- A pointer to a struct's own typedef inside the struct is rejected, unlike in C
  (`OwnTypedefPointerIsRejected`, `DenotesExactly`).
- A later scan target that overlaps a string target can overwrite its terminator
  (`OverlapLosesTerminator`); for each conversion it can exactly when it covers what
  `Erases` says (`TerminatorLostExactly`), and otherwise never does in a whole scan
  (`StringsTerminated`).
- A label inside dead code that the emitter skips is left with an empty block, which LLVM
  rejects (`LostLabelStaysEmpty`); every other accepted function is covered
  (`EmittableOrRejected`).

## Model

| member | source | states |
|---|---|---|
| `ScopeMachine.FunctionTyped` | src/codegen/LLVMCodegenControlFlow.cpp:10-303 | every function the emitter accepts has one static scope depth per block under which all emitted scope calls, branches and returns are consistent, labels at the depth recorded for them |
| `ScopeMachine.StepAgrees` | runtime/hitsimple_runtime.c:219-278 | one machine step of such a program raises no counter fault and keeps run-time and static depths equal in every active frame |
| `ScopeMachine.CountersNeverFault` | src/codegen/LLVMCodegenControlFlow.cpp:10-303 | over every run of every accepted program, calls included, hs_scope_exit, hs_scope_exit_to and hs_frame_exit never reach their failure branch; only the frame table can be exhausted |
| `ScopeMachine.DepthAtBlockEntry` | src/codegen/LLVMCodegenControlFlow.cpp:10-303 | whenever a block is entered, the runtime scope counter equals that block's static depth |
| `ScopeMachine.CallRestoresCounters` | src/codegen/LLVMCodegenFunctions.cpp:499-507 | when a call has returned, the caller's frame number and every active frame's depth are what they were |
| `ScopeInduction.StmtTyped` | src/codegen/LLVMCodegenStatements.cpp:86-128 | emitting any statement keeps the typing of all code so far, touches only its own blocks, and restores targets and depth |
| `ScopeInduction.BlockTyped` | src/codegen/LLVMCodegenStatements.cpp:68-84 | the same for a block, with its scope entered and left |
| `ScopeInduction.WhileTyped` | src/codegen/LLVMCodegenControlFlow.cpp:39-66 | the same for while loops, whose break and continue targets stand at the loop's depth |
| `ScopeInduction.ForTyped` | src/codegen/LLVMCodegenControlFlow.cpp:68-127 | the same for for loops, with the extra scope of their initialisation |
| `ScopeInduction.TryTyped` | src/codegen/LLVMCodegenControlFlow.cpp:194-231 | the same for try/catch, whose handler is entered at the depth of the statement |
| `ScopeInduction.ThrowTyped` | src/codegen/LLVMCodegenControlFlow.cpp:158-192 | the same for throw, which unwinds to the handler's depth or exits the process at depth zero |
| `ScopeLabels.CollectCorrect` | src/codegen/LLVMCodegenControlFlow.cpp:259-303 | label collection gives each label its own empty block and records the depth the emitter will be at when it reaches the label |
| `ScopeTheorem.EmittedCodeDoesTheBody` | src/codegen/LLVMCodegenControlFlow.cpp:10-303 | for every body whose labels are all emitted, the emitted blocks run from the entry to an end exactly when the body's run comes to that end: same way out, same choices consumed, and the same events, each with the runtime scope counter equal to the number of scopes open around the statement; so one terminates exactly when the other does, and with all scopes left |
| `ScopeTheorem.EndedCodeEndsTheBody` | src/codegen/LLVMCodegenControlFlow.cpp:10-303 | when the emitted code ends after some number of steps, that many loop iterations and jumps are enough for the body's run to end |
| `ScopeTheorem.StmtDoes` | src/codegen/LLVMCodegenStatements.cpp:86-128 | the code of a statement, entered with the scope counter at its depth, leads from its start, or from the block of a label inside it, to where the run leaves it and at the depth there: falling through, break, continue, goto, throw, return or process exit; a run that uses up its iterations matches code that has not ended after as many steps |
| `ScopeTheorem.BlockDoes` | src/codegen/LLVMCodegenStatements.cpp:68-84 | the same for a block of statements |
| `ScopeTheorem.IfDoes` | src/codegen/LLVMCodegenControlFlow.cpp:10-37 | the same for if: the choice selects the branch, both join after it |
| `ScopeTheorem.WhileDoes` | src/codegen/LLVMCodegenControlFlow.cpp:39-66 | the same for while, over any number of iterations |
| `ScopeTheorem.ForDoes` | src/codegen/LLVMCodegenControlFlow.cpp:68-127 | the same for for: initialisation, test, body, post statements, and continue into the post statements |
| `ScopeTheorem.TryDoes` | src/codegen/LLVMCodegenControlFlow.cpp:194-231 | the same for try/catch: a throw inside runs the handler, whose own throws go outward |
| `ScopeTheorem.ThrowDoes` | src/codegen/LLVMCodegenControlFlow.cpp:158-192 | the same for throw: the delivery runs first, and without a handler the process exits |
| `ScopeTheorem.LabelDoes` | src/codegen/LLVMCodegenControlFlow.cpp:145-156 | the same for labels, entered in order or by a jump |
| `ScopeTheorem.StaticDoes` | src/codegen/LLVMCodegenStatements.cpp:86-118 | the same for a guarded static initialisation |
| `ScopeTheorem.FuelDoesNotMatter` | src/codegen/LLVMCodegenControlFlow.cpp:10-303 | the bound on iterations in the statement semantics does not affect a run that ends |
| `ScopeTheorem.NeverFallsOff` | src/codegen/LLVMCodegenFunctions.cpp:705-717 | no run of the body of an accepted function that returns a value runs off its end, started at the top or at a label |
| `ScopeAcceptance.AcceptedExactly` | src/codegen/LLVMCodegenControlFlow.cpp:129-249 | the emitter accepts a function with distinct labels if and only if, in the code that is not skipped as dead, every break and continue stands in a loop, every goto leads to a label of the body at most as deep as itself, every throw inside a try has a delivery and the handler's length on both sides, every label is one the collection visits, and a function that returns a value does not fall through |
| `ScopeAcceptance.StmtAccepted` | src/codegen/LLVMCodegenStatements.cpp:86-128 | emitting a statement raises no diagnostic exactly when it is legal where it stands: in a loop or not, inside which handler, at which depth |
| `ScopeAcceptance.BlockAccepted` | src/codegen/LLVMCodegenStatements.cpp:68-84 | the same for a block one scope deeper, whose unreachable statements count only when they are labels; and whether control can run off its end |
| `ScopeAcceptance.CollectAdds` | src/codegen/LLVMCodegenControlFlow.cpp:259-303 | label collection records exactly the labels of a statement, each at the number of scopes open around it |
| `ScopeLost.EmittableOrRejected` | src/codegen/LLVMCodegenStatements.cpp:68-84 | every function the emitter accepts is covered by the equivalence above, or has a label whose block is empty |
| `ScopeLost.LostLabelStaysEmpty` | src/codegen/LLVMCodegenStatements.cpp:68-84 | the block of a label inside a statement skipped after a terminator receives no instruction |
| `ScopeLost.BlockTrims` | src/codegen/LLVMCodegenStatements.cpp:68-84 | emission of a block is emission of the block without its dead statements, at every depth |
| `ScopeLost.LostAllExactly` | src/codegen/LLVMCodegenStatements.cpp:68-84 | the syntactic condition that no label is lost holds exactly when leaving out the dead statements keeps every label |
| `ScopeFalls.FallsExactly` | src/codegen/LLVMCodegenStatements.cpp:68-128 | whether emission leaves the current block open is exactly the syntactic condition, which decides what later code is skipped |
| `ScopeShape.StmtShape` | src/codegen/LLVMCodegenStatements.cpp:86-128 | emission only appends, only to the current block, the statement's label blocks and new blocks, and restores loop, handler and guard state |
| `ScopeEmitter.Emit` | src/codegen/LLVMCodegenFunctions.cpp:494-507 | the class-based emitter, whose methods each update the fields as the source's emit functions do, produces exactly the blocks and diagnostics of the functions the theorems are about |
| `ScopeEmitter.Emitter.EmitStatement` | src/codegen/LLVMCodegenStatements.cpp:86-128 | the fields after emitting any statement are the specified state of the fields before; loops and handlers are pushed and popped, and statements after a terminator are skipped unless labelled |
| `ScopeEmitter.Emitter.Collect` | src/codegen/LLVMCodegenControlFlow.cpp:259-303 | the same for label collection, one block and depth per label |
| `Binary128.EncodeIsNearest` | runtime/hitsimple_f128.cpp:71-155 | for every numerator and positive denominator, the encoded magnitude is nearest to the quotient with ties to the even pattern, through subnormals, carries and overflow to infinity |
| `Binary128.NearestUnique` | runtime/hitsimple_f128.cpp:112-155 | that specification has one solution, so it determines the encoder |
| `Binary128.EncodeMonotone` | runtime/hitsimple_f128.cpp:112-155 | a larger non-negative quotient never gets a smaller pattern |
| `Binary128.EncodeInvertsMag` | runtime/hitsimple_f128.cpp:112-155 | encoding the exact value of any pattern up to infinity gives the pattern back |
| `Binary128.EncodeRespectsQuotient` | runtime/hitsimple_f128.cpp:112-155 | equal quotients encode equally, whatever pair denotes them |
| `Binary128.ExponentBounds` | runtime/hitsimple_f128.cpp:98-110 | the estimated binary exponent brackets the quotient |
| `Powers.RoundDivCorrect` | runtime/hitsimple_f128.cpp:71-81 | the rounding helper returns the nearest integer quotient, ties to even |
| `QuadCodec.EncodersAgree` | runtime/hitsimple_f128.cpp:286-331 | the encoder through a 113-bit float equals the rational encoder on every value with at most 113 significant bits |
| `QuadCodec.EncodeInvertsDecode` | runtime/hitsimple_f128.cpp:267-331 | decoding any pattern fits 113 bits, and encoding it again gives every non-NaN pattern back |
| `QuadCodec.RationalInvertsDecode` | runtime/hitsimple_f128.cpp:112-155 | so does the rational encoder on every finite pattern |
| `QuadCodec.RoundScaledIsRoundDiv` | runtime/hitsimple_f128.cpp:59-69 | the floor-and-remainder rounding equals rounding of the exact quotient |
| `DecimalText.ReadOfRender` | runtime/hitsimple_f128.cpp:157-233 | reading a rendered literal gives the literal back |
| `DecimalText.RenderOfRead` | runtime/hitsimple_f128.cpp:157-233 | every accepted numeric text is the rendering of the literal it reads as |
| `DecimalParser.ParseDecimalBits` | runtime/hitsimple_f128.cpp:157-265 | the loop-and-counter parser computes the specified result on every text, rejections included |
| `DecimalExactness.ParsesCorrectlyExactly` | runtime/hitsimple_f128.cpp:157-265 | every numeric text parses to the correct rounding of its exact value if and only if its digits are zero, or neither shortcut bites (exponent counter unsaturated, no narrowing to 32 bits), or the smaller of counted and written exponent already overflows, or the larger still underflows |
| `DecimalExactness.ParseIsCorrectRounding` | runtime/hitsimple_f128.cpp:157-265 | in particular every text of at most 93,999 digits, and every text of less than four billion digits whose exponent is within a million, is correctly rounded, sign included |
| `DecimalExactness.TrustedIsHarmless` | runtime/hitsimple_f128.cpp:209-264 | such texts meet that condition |
| `DecimalExactness.OverflowExactly` | runtime/hitsimple_f128.cpp:112-155 | a quotient rounds to infinity exactly when it is at or above the midpoint beyond the largest finite value |
| `DecimalExactness.UnderflowExactly` | runtime/hitsimple_f128.cpp:112-155 | a quotient rounds to zero exactly when it is at most half the least subnormal |
| `DecimalExactness.Binary128ParsesCorrectly` | runtime/hitsimple_f128.cpp:157-265 | for binary128 and every numeric text of at most 93,999 characters, the parsed bits are the correct rounding of the exact decimal value |
| `DecimalExactness.ShortTextIsTrusted` | runtime/hitsimple_f128.cpp:209-233 | every text of at most 93,999 characters is covered by that theorem |
| `DecimalExactness.CutIsExact` | runtime/hitsimple_f128.cpp:235-264 | stripping zeros and the cut-offs at decimal magnitude 6000 never change the rounded value, except that an exponent narrowed to 32 bits gives infinity |
| `DecimalExactness.NarrowingIsExact` | runtime/hitsimple_f128.cpp:257-262 | between the cut-offs, narrowing the exponent to 32 bits changes the value exactly when the exponent is at most minus 2 to the 32 |
| `DecimalExactness.LongTextMisrounds` | runtime/hitsimple_f128.cpp:209-264 | a text of a million digits with a saturated exponent that denotes 1 parses to a different value |
| `DecimalExactness.AcceptedTexts` | runtime/hitsimple_f128.cpp:157-233 | a text is accepted exactly when it is a literal or one of the words inf, infinity and nan after an optional sign |
| `Binary128Words.EncodesWords` | runtime/hitsimple_f128.cpp:112-155 | a quotient equal to the value that sign, 15 exponent bits and 112 fraction bits denote by section 3.4 of IEEE 754 is encoded as exactly those bits, subnormals and both zeros included |
| `Binary128Words.EncodesPowersOfTwo` | runtime/hitsimple_f128.cpp:112-155 | every normal power of two gets its exponent plus 16383 as exponent code, and no fraction |
| `Binary128Words.ParsedWords` | runtime/hitsimple_f128.cpp:157-182 | inf and infinity in any case of letters parse to the infinity of their sign, nan to a quiet NaN of its sign |
| `DecimalParser.PowerOfTen` | runtime/hitsimple_f128.cpp:83-96 | the squaring loop computes the power |
| `DecimalParser.ScanMantissa` | runtime/hitsimple_f128.cpp:183-207 | the digit loop collects the digits and counts those after the point |
| `DecimalParser.CountExponent` | runtime/hitsimple_f128.cpp:209-229 | the exponent loop counts with saturation and stops after the digits |
| `DecimalRoundTrip.DecimalRoundTrip` | runtime/hitsimple_f128.cpp:565-598 | for every finite nonzero value, any text within half a unit in its 36th significant digit parses to exactly its bits |
| `DecimalRoundTrip.Binary128RoundTrip` | runtime/hitsimple_f128.cpp:565-598 | the same for binary128 itself and texts of at most 93,999 characters |
| `DecimalRoundTrip.Binary128HasEnoughDigits` | runtime/hitsimple_f128.cpp:565-586 | 36 digits satisfy the theorem's condition for binary128 |
| `RegistryInvariant.EveryRun` | runtime/hitsimple_runtime.c:136-414 | over every run of registrations, allocations, frees, frames and scopes, no freed entry in a lower slot overlaps a live one in a higher slot, live entries are disjoint, and lifetimes are within open frames and scopes |
| `RegistryInvariant.ApplyKeeps` | runtime/hitsimple_runtime.c:195-396 | each operation keeps that invariant |
| `RegistryInvariant.FindReturnsLive` | runtime/hitsimple_runtime.c:136-148 | first-match lookup of an address inside a live object returns that object |
| `RegistryInvariant.CheckIsSound` | runtime/hitsimple_runtime.c:398-414 | in every state, a check that succeeds has the whole range inside one live object |
| `RegistryInvariant.CheckIsExact` | runtime/hitsimple_runtime.c:398-414 | on every reachable table, a check of a nonempty range succeeds exactly then |
| `RegistryInvariant.FullExactly` | runtime/hitsimple_runtime.c:150-158 | placing an entry fails as full exactly when all slots are live |
| `RegistryInvariant.ScopeExitToLifetimes` | runtime/hitsimple_runtime.c:254-278 | after hs_scope_exit_to no entry of an exited scope is left, and all others are untouched |
| `RegistryInvariant.FrameExitLifetimes` | runtime/hitsimple_runtime.c:227-242 | after hs_frame_exit no local or temporary of the frame is left, and heap, static and outer entries are untouched |
| `RegistryInvariant.ReallocShadowsExactly` | runtime/hitsimple_runtime.c:358-381 | after realloc moves a block, lookups inside it find it exactly when it avoids freed ranges in lower slots |
| `RegistryInvariant.ReallocCanHideALiveBlock` | runtime/hitsimple_runtime.c:358-381 | a run of correct allocator answers after which a check inside a live block fails |
| `RegistryEffect.ApplyEffect` | runtime/hitsimple_runtime.c:195-396 | every operation on a reachable table either changes the set of live objects and the scope depths exactly as stated, or fails exactly when and how it should: registering adds one object of the current frame and scope, freeing removes the block, realloc moves it, leaving a scope or frame drops its objects |
| `RegistryEffect.EveryRunRefines` | runtime/hitsimple_runtime.c:136-414 | every run of the table, with slot reuse and linear search, is a run of that set of objects from the empty one |
| `RegistryEffect.CheckSeesObjects` | runtime/hitsimple_runtime.c:398-414 | a check of a nonempty range succeeds exactly when the range lies inside one object of the set |
| `RegistryEffect.RegisteredLocalIsAccessible` | runtime/hitsimple_runtime.c:280-286 | after a local has been registered, a check of it succeeds |
| `RegistryEffect.RegisterEffect` | runtime/hitsimple_runtime.c:195-217 | a registration adds exactly the given object, and is refused exactly for a null address or size, another size at the same place, or a table whose slots are all live |
| `RegistryEffect.TemporaryEffect` | runtime/hitsimple_runtime.c:288-322 | a temporary replaces the one of its site in the current scope, and an empty one removes it |
| `RegistryEffect.AllocEffect` | runtime/hitsimple_runtime.c:330-340 | an allocation adds one heap block, unless it is empty |
| `RegistryEffect.FreeEffect` | runtime/hitsimple_runtime.c:383-396 | free of a live block removes that block alone, of null nothing; otherwise it is a double free exactly when the lookup finds a freed block there, else an invalid free |
| `RegistryEffect.ReallocEffect` | runtime/hitsimple_runtime.c:358-381 | realloc replaces the block by the moved one, and is an allocation from null and a free at size zero |
| `RegistryEffect.ScopeExitToEffect` | runtime/hitsimple_runtime.c:254-278 | leaving scopes drops exactly the locals and temporaries of the scopes left |
| `Registry.First` | runtime/hitsimple_runtime.c:136-184 | the lowest slot with a property, or none |
| `RegistryRuntime.Runtime.Find` | runtime/hitsimple_runtime.c:136-148 | the scanning loop finds the first entry, freed ones included, that contains the address |
| `RegistryRuntime.Runtime.Slot` | runtime/hitsimple_runtime.c:150-158 | the loop finds the lowest slot that is empty or freed |
| `RegistryRuntime.Runtime.FindExact` | runtime/hitsimple_runtime.c:160-170 | the loop finds the live entry with this address, kind, frame and scope |
| `RegistryRuntime.Runtime.FindTemporary` | runtime/hitsimple_runtime.c:172-184 | the loop finds the temporary of a site in a frame and scope |
| `RegistryRuntime.Runtime.RegisterObject` | runtime/hitsimple_runtime.c:195-217 | the array afterwards is the specified table: an exact entry reused, else the lowest free slot |
| `RegistryRuntime.Runtime.RegisterLocalObject` | runtime/hitsimple_runtime.c:280-286 | the same for locals, refused outside a frame |
| `RegistryRuntime.Runtime.RegisterStaticObject` | runtime/hitsimple_runtime.c:324-326 | the same for static objects |
| `RegistryRuntime.Runtime.RegisterTemporaryObject` | runtime/hitsimple_runtime.c:288-322 | the same for temporaries, one per site and scope |
| `RegistryRuntime.Runtime.AllocObject` | runtime/hitsimple_runtime.c:330-340 | the same for allocation |
| `RegistryRuntime.Runtime.CallocObject` | runtime/hitsimple_runtime.c:342-356 | the same for calloc, overflow included |
| `RegistryRuntime.Runtime.ReallocObject` | runtime/hitsimple_runtime.c:358-381 | the same for realloc, rewriting the slot in place |
| `RegistryRuntime.Runtime.FreeObject` | runtime/hitsimple_runtime.c:383-396 | the same for free, with its two errors |
| `RegistryRuntime.Runtime.CheckAccess` | runtime/hitsimple_runtime.c:398-414 | the check method returns the specified verdict |
| `RegistryRuntime.Runtime.EnterFrame` | runtime/hitsimple_runtime.c:219-225 | a new frame starts at depth zero, or the frame table is full |
| `RegistryRuntime.Runtime.EnterScope` | runtime/hitsimple_runtime.c:244-252 | the current frame's depth grows by one |
| `RegistryRuntime.Runtime.ExitFrame` | runtime/hitsimple_runtime.c:227-242 | the clearing loop and counter update are the specified frame exit |
| `RegistryRuntime.Runtime.ExitScopesTo` | runtime/hitsimple_runtime.c:271-278 | the loop of scope exits is the specified exit to a depth |
| `TypeGraph.DenotesExactly` | src/compat/CCompatLowering.cpp:329-483 | a typedef or struct name has a meaning exactly when no cycle through by-value fields and typedef names is reachable from it and no reachable declaration has an error of its own |
| `TypeMeaning.MeansUnique` | src/compat/CCompatLowering.cpp:329-483 | a name means at most one thing |
| `TypeMeaning.ObjectExactly` | src/compat/CCompatLowering.cpp:433-483 | which object a declaration denotes, exactly: a chain of so many 8-byte pointers ending in a base type of its LP64 size, a complete struct, an incomplete one behind a pointer or a typedef's type, so often as its array says, neither void nor empty nor too large; a typedef of an array only without further declarators |
| `TypeGraph.MeaningIsResolved` | src/compat/CCompatLowering.cpp:368-431 | every struct a name can mean is one the layout and ABI theorems apply to |
| `TypeResolver.Lowerer.ResolveAliasObject` | src/compat/CCompatLowering.cpp:329-354 | in every valid state the typedef resolves exactly when it has a meaning, to that meaning; the call terminates on cyclic declarations and disturbs nothing in progress |
| `TypeResolver.Lowerer.ResolveStruct` | src/compat/CCompatLowering.cpp:368-384 | the same for structs |
| `TypeResolver.Lowerer.LayOutStruct` | src/compat/CCompatLowering.cpp:384-431 | the field loop: success exactly when the struct has a meaning, with the field list one-to-one even after failed attempts left fields behind |
| `TypeResolver.Lowerer.ResolveObject` | src/compat/CCompatLowering.cpp:433-483 | an object declaration resolves exactly when it has a meaning: qualifiers, array typedefs, void, zero counts and sizes |
| `TypeResolver.Lowerer.ResolveNames` | src/compat/CCompatLowering.cpp:163-172 | after resolving names in any order, each is resolved exactly when no cycle and no error is reachable from it |
| `TypeResolver.FieldsAreDeclared` | src/compat/CCompatLowering.cpp:389-413 | a resolved struct's fields are its declaration's, name by name, at the ABI offsets |
| `TypeResolver.OwnTypedefPointerIsRejected` | src/compat/CCompatLowering.cpp:433-459 | a struct with a pointer to its own typedef never resolves |
| `StructLayout.LayoutCorrect` | src/compat/CCompatLowering.cpp:384-415 | field offsets are aligned, increasing, disjoint and inside, and the alignment is the largest; StructIsTight says that they are the least such |
| `StructLayout.StructOffsets` | src/compat/CCompatLowering.cpp:384-431 | the same for every resolved struct, whose size is a multiple of its alignment |
| `StructLayout.StructIsTight` | src/compat/CCompatLowering.cpp:384-431 | every resolved struct has the least layout: the first field at 0, each further one at the least multiple of its alignment from the end of the one before, the alignment the greatest of the fields' or 1, the size the least multiple of it from the last end |
| `StructLayout.TightIsUnique` | src/compat/CCompatLowering.cpp:384-415 | that condition leaves one choice for each offset |
| `StructLayout.AlignUpIsLeast` | src/compat/CCompatLowering.cpp:31-46 | alignUp returns the least multiple at or above the value |
| `StructLayout.NoGapAtMultiple` | src/compat/CCompatLowering.cpp:384-415 | a multiple of the struct's alignment is never padding between fields |
| `StructLayout.ResolveStruct` | src/compat/CCompatLowering.cpp:384-431 | the running-offset loop computes the layout, or fails on overflow and empty fields |
| `StructLayout.LowerStruct` | src/compat/CCompatLoweringStatements.cpp:250-280 | the emitted members, laid end to end, put each named field at its struct offset and fill exactly the struct's size |
| `CAbiClasses.ClassifyIsFold` | src/codegen/LLVMCodegenCAbi.cpp:62-127 | classification of a resolved type never fails and records exactly its scalar leaves, in order |
| `CAbiClasses.LeafAtEveryMultiple` | src/compat/CCompatLowering.cpp:384-431 | a scalar leaf starts at every multiple of a resolved type's alignment below its size |
| `CAbiClasses.LeavesAreOk` | src/compat/CCompatLowering.cpp:384-431 | leaves are naturally aligned, ordered, disjoint and inside |
| `CAbiPlan.FoldIsFaithful` | src/codegen/LLVMCodegenCAbi.cpp:47-60 | an eightbyte's class is INTEGER when some leaf in it is not floating, SSE when all are, none when empty, never memory |
| `CAbiClassifier.Classifier.ClassifyValue` | src/codegen/LLVMCodegenCAbi.cpp:62-127 | the recursive procedure that updates one record computes that classification |
| `CAbiClassifier.Classifier.ClassifyElement` | src/codegen/LLVMCodegenCAbi.cpp:81-126 | the same for a single element: aggregate fields or one scalar |
| `CAbiDirect.FindIntegerPiece` | src/codegen/LLVMCodegenCAbi.cpp:129-170 | the leaf-selecting loop computes the integer piece type, or fails on a straddling leaf |
| `CAbiDirect.FindSsePiece` | src/codegen/LLVMCodegenCAbi.cpp:172-225 | the selecting and contiguity loops compute the SSE piece type |
| `CAbiDirect.DirectPlan` | src/codegen/LLVMCodegenCAbi.cpp:242-305 | the piece loop computes the plan |
| `CAbiPlan.DirectPlanExists` | src/codegen/LLVMCodegenCAbi.cpp:242-305 | every nonempty resolved struct of at most 16 bytes has a plan whose pieces lie in their own eightbytes, inside the struct, and hold all their leaves |
| `CAbiPlan.ExactlyOnePiece` | src/codegen/LLVMCodegenCAbi.cpp:242-305 | each leaf byte is covered by exactly one piece |
| `CAbiPieces.PieceTypesExactly` | src/codegen/LLVMCodegenCAbi.cpp:129-305 | each eightbyte travels in the register its scalars call for: a lone scalar in a register of its own type, two floats in a vector of two, anything else in an integer as wide as the rest of the struct up to 64 bits |
| `CAbiTransfer.Pack` | src/codegen/LLVMCodegenCAbi.cpp:345-381 | packing succeeds exactly when the pieces fit and loads each piece's bytes |
| `CAbiTransfer.Unpack` | src/codegen/LLVMCodegenCAbi.cpp:383-415 | unpacking succeeds exactly on a value of the physical type and stores each piece |
| `CAbiTransfer.TransferRestoresLeaves` | src/codegen/LLVMCodegenCAbi.cpp:345-415 | unpack after pack restores every leaf byte and writes no byte outside the pieces |
| `CAbiTransfer.HandOver` | src/codegen/LLVMCodegenCAbi.cpp:345-415 | plan, pack and unpack together succeed on every small struct and lose no leaf byte |
| `ArgumentPositions.BuildFunctionType` | src/codegen/LLVMCodegenCAbi.cpp:442-521 | a type is built exactly for the signatures with typed parameters and at most one typed result; at each parameter's position it has exactly the types that parameter occupies, the result pointer first, and its result is void, or carries exactly the types a parameter of the result's type would occupy |
| `ArgumentPositions.ApplyAttributes` | src/codegen/LLVMCodegenCAbi.cpp:523-619 | sret and byval attributes stand exactly on the pointers to memory, each with its own parameter |
| `ArgumentPositions.EmitMemoryCall` | src/codegen/LLVMCodegenCAbi.cpp:627-774 | any other argument count is refused; with the right one the call passes exactly the slots of the signature, raises no diagnostic, and takes the result the way the signature returns it |
| `ArgumentPositions.EmitDirectCall` | src/codegen/LLVMCodegenCAbi.cpp:783-892 | the same for calls that pass nothing through memory, any other argument count refused |
| `ArgumentPositions.Prologue` | src/codegen/LLVMCodegenFunctions.cpp:571-703 | the callee binds each parameter to the physical arguments at its position |
| `ArgumentPositions.EmitReturn` | src/codegen/LLVMCodegenStatements.cpp:1167-1257 | a return with the right number of values hands the result over the way the callers take it: through memory, in the same pieces, or as one value; any other number is refused |
| `ArgumentPositions.SlotsAtPosition` | src/codegen/LLVMCodegenCAbi.cpp:442-619 | what the caller puts at a parameter's position is what that parameter occupies |
| `ArgumentPositions.ResolvedSignatureIsTyped` | src/codegen/LLVMCodegenCAbi.cpp:442-521 | every signature of nonempty resolved types gets a function type |
| `ArgumentPositions.PassedAs` | src/codegen/LLVMCodegenCAbi.cpp:442-521 | a parameter aggregate of more than 16 bytes takes one pointer, a smaller one a register for each eightbyte, a scalar one register of its own type |
| `ArgumentPositions.ReturnedAs` | src/codegen/LLVMCodegenCAbi.cpp:442-521 | a result likewise: through memory exactly above 16 bytes, in the pieces of its plan up to there |
| `CExpressionReading.ParseExactly` | src/compat/CCompatExpressions.cpp:74-359 | the parser reads a well-formed tree from a stretch of tokens, before any token that cannot continue it, if and only if the grammar derives the tree from them: the levels of section 6.5 of C11, casts and sizeof, any redundant parentheses, line breaks and type spellings |
| `CExpressionStandard.ParsesByTheStandard` | src/compat/CCompatExpressions.cpp:74-359 | the same with the grammar of C11, sections 6.5.1 to 6.5.16, as productions with their operators written out, one for each level |
| `CExpressionStandard.PhrasesAgree` | src/compat/CCompatExpressions.cpp:74-359 | those productions and the parser's levels derive the same trees from every stretch of tokens |
| `CExpressionStandard.TablesAgree` | src/compat/CCompatExpressions.cpp:74-116 | the precedence table, the unary operators and the assignment operators are those of the productions |
| `CExpressionStandard.AndBindsTighter` | src/compat/CCompatExpressions.cpp:74-181 | for one, a or b and c is a or (b and c) |
| `CExpressionGrammar.AssignmentSound` | src/compat/CCompatExpressions.cpp:108-359 | whatever any token list parses to, the grammar derives from exactly the tokens consumed |
| `CExpressionReading.Unambiguous` | src/compat/CCompatExpressions.cpp:74-359 | no stretch of tokens spells two well-formed trees |
| `CExpressionReading.AssignmentReads` | src/compat/CCompatExpressions.cpp:108-137 | every spelling of an assignment expression is read back at any position, right associative |
| `CExpressionReading.ConditionalReads` | src/compat/CCompatExpressions.cpp:139-157 | the same for conditional expressions |
| `CExpressionReading.BinaryHead` | src/compat/CCompatExpressions.cpp:74-181 | left-nested operators at the ten levels reach the loop with the whole left operand |
| `CExpressionReading.CastReads` | src/compat/CCompatExpressions.cpp:183-207 | the same for casts, right associative, to types with any qualifiers and pointer depth |
| `CExpressionReading.UnaryReads` | src/compat/CCompatExpressions.cpp:209-223 | the same for prefix operators |
| `CExpressionReading.PostfixHead` | src/compat/CCompatExpressions.cpp:225-359 | the same for index, call, member, sizeof and parenthesised expressions, line breaks in argument lists included |
| `CTypeNames.ParseTypeExactly` | src/compat/CCompatParser.cpp:197-289 | parseType reads exactly the spellings of a type, such as unsigned long int and qualifiers in any order and number, to their longest extent |
| `CTypeNames.LooksLikeCastExact` | src/compat/CCompatExpressions.cpp:15-72 | the look-ahead takes an opening parenthesis for a cast exactly when parseType, which reads the words separately, succeeds behind it on a known type followed by stars and a closing parenthesis |
| `CExpressionShow.ParseOfShow` | src/compat/CCompatExpressions.cpp:74-359 | parsing the rendering of any well-formed tree before any token that cannot continue it returns the tree and stops just after it |
| `CExpressionShow.ShowIsShortest` | src/compat/CCompatExpressions.cpp:74-359 | no token list from which the grammar derives a tree is shorter than its rendering, so each pair of parentheses in it is needed |
| `CExpressionShow.ParsedIsNoShorter` | src/compat/CCompatExpressions.cpp:74-359 | so whatever parses to a tree has at least as many tokens |
| `CExpressionShow.UnaryOfCastExactly` | src/compat/CCompatExpressions.cpp:209-223 | a unary operator before an unparenthesised operand is read as applying to it exactly when the operand is not a cast, unlike in C |
| `CExpressionShow.UnaryBeforeCast` | src/compat/CCompatExpressions.cpp:209-303 | before a cast to a single-word type it takes the type name, with any postfix operators behind it, for its operand: -(int)(x) is read as a call |
| `CExpressionShow.ShowIsInjective` | src/compat/CCompatExpressions.cpp:74-359 | distinct trees have distinct renderings |
| `CExpressionParser.Parser.ParseAssignmentExpression` | src/compat/CCompatExpressions.cpp:118-137 | the method on the cursor agrees with the grammar: same failure, same tree, same end |
| `CExpressionParser.Parser.ParseConditionalExpression` | src/compat/CCompatExpressions.cpp:139-157 | the same for conditional expressions |
| `CExpressionParser.Parser.ParseBinaryExpression` | src/compat/CCompatExpressions.cpp:159-181 | the same for the precedence-climbing loop |
| `CExpressionParser.Parser.ParseCastExpression` | src/compat/CCompatExpressions.cpp:183-207 | the same for casts |
| `CExpressionParser.Parser.ParseTypeName` | src/compat/CCompatParser.cpp:197-289 | the same for type names: qualifier loop and base words |
| `CExpressionParser.Parser.ParseUnaryExpression` | src/compat/CCompatExpressions.cpp:209-223 | the same for prefix operators |
| `CExpressionParser.Parser.ParsePostfixExpression` | src/compat/CCompatExpressions.cpp:254-303 | the same for the postfix loop, increments refused |
| `CExpressionParser.Parser.ParseArgumentList` | src/compat/CCompatExpressions.cpp:225-252 | the same for argument lists, newlines skipped |
| `CExpressionParser.Parser.ParsePrimaryExpression` | src/compat/CCompatExpressions.cpp:305-359 | the same for primaries, sizeof of a type or a name included |
| `ConstantTheorem.FoldIsExact` | src/compat/CCompatLoweringOperators.cpp:155-474 | on every expression without the three excepted families, folding and exact typed evaluation agree: both refuse, or the same value of the same type |
| `ConstantMeaning.SignedGuardsExact` | src/compat/CCompatLoweringOperators.cpp:240-315 | the guards of signed + - * / % pass exactly when the result, for % the quotient, is representable and the divisor nonzero, and then the result is exact |
| `ConstantMeaning.DivisionExactly` | src/compat/CCompatLoweringOperators.cpp:301-307 | quotient and remainder are the pair of section 6.5.5 of C11, and no other pair is: the fraction discarded, the remainder smaller than the divisor and with the dividend's sign |
| `ConstantExactness.BitsExactly` | src/compat/CCompatLoweringOperators.cpp:231-238 | the reference result of & ^ | is the one number whose bits are and, exclusive or and or of the operands' bits; RefBitsAre shows that the folder computes it |
| `ConstantExactness.UnsignedExact` | src/compat/CCompatLoweringOperators.cpp:317-353 | unsigned folds are the result modulo 2 to the width; division by zero is refused |
| `ConstantExactness.RightShiftIsFloor` | src/compat/CCompatLoweringOperators.cpp:205-217 | >> is floor division by a power of two, for negative values too |
| `ConstantExactness.LeftShiftExact` | src/compat/CCompatLoweringOperators.cpp:191-204 | << agrees with exact arithmetic exactly when the result does not lie between the width's maximum and the 64-bit maximum |
| `ConstantMeaning.ConvertExact` | src/compat/CCompatLoweringOperators.cpp:68-75 | masking is C conversion exactly when no negative value is widened |
| `ConstantMeaning.SignedValueIsValue` | src/compat/CCompatLoweringOperators.cpp:77-101 | signedConstantValue reads two's complement at every width |
| `ConstantMeaning.PromoteExact` | src/compat/CCompatLoweringOperators.cpp:103-118 | promotion preserves the value |
| `ConstantTheorem.NegateExact` | src/compat/CCompatLoweringOperators.cpp:412-428 | unary minus agrees with exact arithmetic exactly when it is not applied to the least value of a type narrower than 64 bits |
| `ConstantTheorem.WideningIsWrong` | src/compat/CCompatLoweringOperators.cpp:68-75 | widening the negation of any positive int literal gives a wrong value |
| `ConstantTheorem.NegatingLeastIsWrong` | src/compat/CCompatLoweringOperators.cpp:419-428 | an expression for the least int folds as it should and its negation does not: it folds to itself instead of being refused |
| `ConstantTheorem.OverflowingShiftIsWrong` | src/compat/CCompatLoweringOperators.cpp:191-204 | every int shift of literals whose exact result passes the int maximum is folded and should be refused |
| `ConstantTheorem.ShiftIntoTheSignIsWrong` | src/compat/CCompatLoweringOperators.cpp:191-204 | for one, 1 << 31 |
| `ConstantTheorem.CastSharp` | src/compat/CCompatLoweringOperators.cpp:68-75 | on a clean operand a cast is folded wrongly if and only if it widens a negative value |
| `ConstantTheorem.NegateSharp` | src/compat/CCompatLoweringOperators.cpp:412-428 | on a clean operand unary minus is folded wrongly if and only if the operand is the least value of a narrow type |
| `ConstantTheorem.ShiftSharp` | src/compat/CCompatLoweringOperators.cpp:191-204 | on clean operands a signed << is folded wrongly if and only if it overflows its width within 64 bits |
| `ConstantTheorem.LeastRemainderIsRefused` | src/compat/CCompatLoweringOperators.cpp:301-307 | an expression for the least int modulo -1 is refused although the remainder is zero |
| `ConstantTheorem.BinaryAgrees` | src/compat/CCompatLoweringOperators.cpp:155-354 | each typed binary operator agrees with exact arithmetic outside the excepted families |
| `AddressRange.RangeIsAddress` | src/codegen/LLVMCodegen.cpp:328-385 | when the analysis knows a range whose displacements fit, the emitted code computes the binding's address plus the analysed offset, modulo 2 to the 64 |
| `AddressRange.DisplacementExactly` | src/codegen/LLVMCodegenExpressions.cpp:1095-1140 | the emitted displacement is the analysed offset, in each emission mode, if and only if the offset is in the range of every width it is extended from |
| `AddressRange.EmittedExactly` | src/codegen/LLVMCodegenExpressions.cpp:208-329 | the pattern emitted for an offset at any width is the analysed one if and only if it fits wherever it is extended, through any nesting of widths, and of views whose operands have their own interpretation |
| `AddressRange.UniformExactly` | src/codegen/LLVMCodegenExpressions.cpp:1095-1140 | with one width throughout, only the outermost value matters, and at 64 bits nothing does |
| `AddressRange.RangeExactly` | src/codegen/LLVMCodegen.cpp:328-385 | the emitted address is the analysed one if and only if the outermost displacement fits |
| `AddressRange.AcceptedIsInside` | src/codegen/LLVMCodegen.cpp:463-472 | an accepted access lies inside the named sub-object |
| `AddressRange.SkippedCheckPasses` | src/codegen/LLVMCodegen.cpp:425-472 | when every local that needs no check and every global defined here is registered and live, and the displacements fit, the hs_check dropped for an accepted access would have passed |
| `AddressRange.AcceptsExactly` | src/codegen/LLVMCodegen.cpp:328-472 | a check is dropped if and only if the origin is a local that needs no check or, where no local hides it, a global defined here, not rebound, every step is a view, a cast between 8-byte integers or an address offset by a known amount without overflow, and the access is contained |
| `AddressRange.TargetIsPromised` | src/codegen/LLVMCodegen.cpp:425-461 | whatever targetsRegisteredInternalObject accepts is an object with that promise |
| `AddressRange.ElisionSoundExactly` | src/codegen/LLVMCodegen.cpp:425-472 | dropping the check is sound if and only if the emitted offset plus the access length stays within the storage up to the sub-object's end |
| `AddressRange.ZeroExtensionIsUnsound` | src/codegen/LLVMCodegen.cpp:425-472 | an accepted access, all literals within their signed widths, whose dropped check would have failed |
| `AddressRange.ContainmentExact` | src/codegen/LLVMCodegen.cpp:463-472 | the final 64-bit comparison means containment exactly when offset plus length does not wrap below the bound |
| `AddressRange.LiteralMustFit` | src/codegen/LLVMCodegen.cpp:92-119 | in each emission mode, a literal offset is emitted as analysed exactly when it fits its own width as that mode reads it |
| `ScanFormat.ValidateFormat` | runtime/hitsimple_runtime.c:1262-1320 | the validating loop accepts exactly the formats that split into items fitting the targets, one each |
| `ScanInput.ScanFormatted` | runtime/hitsimple_runtime.c:1322-1461 | the unguarded pass over a format in memory that overlaps no target does exactly what the validated segments prescribe: result, input position and memory |
| `ScanSpec.ConversionsAreItems` | runtime/hitsimple_runtime.c:1262-1320 | the segments convert exactly the validated items, each into the next target |
| `ScanSpec.ConversionIsSafe` | runtime/hitsimple_runtime.c:1372-1460 | one conversion writes only inside its target's capacity, and a string ends in NUL |
| `ScanSpec.InterpretFrame` | runtime/hitsimple_runtime.c:1322-1461 | bytes outside all targets survive the whole scan |
| `ScanTerminators.TerminatorLostExactly` | runtime/hitsimple_runtime.c:1372-1460 | for the format of %s and any second conversion, some input and memory leave the string without a NUL with both performed, if and only if the second target overlaps the first as Erases says: a byte after the first for %c, across its end for %s, any byte after the first for the others |
| `ScanTerminators.StringsTerminated` | runtime/hitsimple_runtime.c:1322-1461 | in every scan a performed %s is NUL-terminated at the end when no later conversion erases it in that sense |
| `ScanTerminators.ConversionKeeps` | runtime/hitsimple_runtime.c:1372-1460 | each conversion that does not erase a string keeps a NUL after its first byte |
| `ScanTerminators.OverlapLosesTerminator` | runtime/hitsimple_runtime.c:1382-1401 | on the format bytes of %s%c, a %c into the last byte of a filled %s target can leave it without a NUL |
| `ScanRoundTrip.ReadOfShow` | runtime/hitsimple_runtime.c:1123-1168 | every 64-bit value is read back from its numeral in each base, behind any white space, an optional sign and, in base 16, an optional prefix; a minus sign negates it modulo 2 to the 64 where the conversion is signed and is no number where it is not |
| `ScanRoundTrip.IntegerIsStored` | runtime/hitsimple_runtime.c:1444-1458 | an integer conversion stores the value written, modulo the target's size and least byte first: decimal for d and u, hexadecimal for x and p, octal for o, binary for b, negative for d alone |
| `ScanOutcome.NumeralsAreStored` | runtime/hitsimple_runtime.c:1322-1461 | a scan by integer conversions of as many numerals that suit them stores each in its own target, keeps those stored before when the targets are disjoint, stops behind the last and counts them all |
| `ScanOutcome.WordIsStored` | runtime/hitsimple_runtime.c:1382-1401 | %s stores the word behind any white space as a C string, cut to the target, and leaves the input where the cut is |
| `ScanOutcome.ByteIsStored` | runtime/hitsimple_runtime.c:1373-1381 | %c stores the next byte of the input, white space too, and nothing else |
| `ScanOutcome.EndOfInput` | runtime/hitsimple_runtime.c:1382-1401 | at a %s with only white space left the scan returns EOF if it has converted nothing, and its count otherwise |
| `ScanRoundTrip.SegmentsOfSpelled` | runtime/hitsimple_runtime.c:1262-1320 | every list of items that fit their targets is validated and segmented back from the format that spells it |
| `ScanInput.ReadItem` | runtime/hitsimple_runtime.c:1363-1371 | width and specifier read without bounds are those validation read |
| `ScanInput.ScanString` | runtime/hitsimple_runtime.c:1382-1401 | the string loop stores the longest run of at most capacity minus one bytes and a NUL |
| `ScanInput.ReadInteger` | runtime/hitsimple_runtime.c:1123-1168 | the digit loop reads the numeral after sign and prefix, and overflows exactly when it does not fit 64 bits |
| `ScanInput.ReadFloatToken` | runtime/hitsimple_runtime.c:1170-1189 | the token loop stays inside its buffer and fails exactly when the token does not fit |
| `ScanInput.ScanItem` | runtime/hitsimple_runtime.c:1372-1460 | one conversion has exactly its specified effect |

## Left out

- LLVM itself: instructions are abstract, LLVM's struct layout is taken to equal the C layout, and passes, verification, debug information and object emission are not modelled.
- Expression emission inside statements: conditions are choices and straight-line statements are opaque events, so checks of return values against the function type are not modelled.
- ScopeMachine.FunctionTyped: assumes that no label is declared twice in a function, which semantic analysis enforces (src/sema/SemaStatements.cpp:847), and fewer than 2^64 nested scopes.
- ScopeTheorem.EmittedCodeDoesTheBody: leaves out exactly the functions that EmittableOrRejected shows to have an empty block. Of runs that do not end it says that they do not end on either side. Calls are events here; ScopeMachine follows them into the callee.
- ScopeLost.EmittableOrRejected: assumes that what a throw delivers, an assignment made in lowering, holds no label.
- Functions that fall off the end of main, C ABI results and view results: a return is one instruction here.
- Boost's arithmetic and printing of 113-bit floats (hs_f128_add through hs_f128_round, hs_f128_format): not visible; decode and encode take the float as its exact value.
- QuadCodec.EncodeInvertsDecode: says nothing about NaN payloads, which the source does not keep, and treats the sign of zero as carried by the decoded value.
- DecimalExactness.ParseIsCorrectRounding: covers the texts a length or exponent bound can vouch for; ParsesCorrectlyExactly is the condition for all texts.
- DecimalExactness.ParsesCorrectlyExactly: 64-bit counters are unbounded here, and so is the bit position that the source narrows to int (runtime/hitsimple_f128.cpp:100-101), which matters from some 646 million digits on.
- RegistryInvariant.EveryRun: a realloc step must place the moved block outside freed ranges in lower slots; ReallocShadowsExactly shows this is exactly what is needed. Allocator answers, addresses and temporary sites are parameters.
- The file table, string, time and formatted output functions of the runtime, and half-precision conversion.
- ArgumentPositions.BuildFunctionType: parameters of array type do not occur in C signatures and get no type here; functions outside C compatibility are not modelled. The source builds no variadic type.
- ArgumentPositions.EmitReturn: main, which may return without a value, is left aside.
- CAbiTransfer.HandOver: a piece's value is its byte string, so canonicalisation of NaN bits by hardware is not modelled; byte order and volatile accesses are not modelled.
- TypeResolver.Lowerer.ResolveObject: the second lookup of an already resolved typedef name is folded into the first; diagnostics are a success flag. Pointers are eight bytes wide.
- CExpressionReading.ParseExactly: well-formed trees have no type name as an ordinary name; diagnostics and source ranges are not modelled, a refused parse is None.
- The C statement and declaration parser and its error recovery, and the C lexer.
- ConstantTheorem.FoldIsExact: literal and operator texts are already parsed; it excludes the three families whose exact conditions are ConvertExact, NegateExact and LeftShiftExact.
- AddressRange.SkippedCheckPasses: that the locals and globals in question are registered is a hypothesis on the table at the access, not followed through emission. Addresses, sizes and lengths below 2^63, and displacements that are emitted as analysed, which ZeroExtensionIsUnsound shows is needed and DisplacementExactly makes exact; the view-based variants of the analysis and views of dynamic length are not modelled. An offset with a unary plus, which the analysis accepts, is never emitted.
- ScanInput.ScanFormatted: the C library's text-to-float functions are a parameter that yields the right number of bytes; hs_check on a target is a parameter; integers are stored little-endian; the 32-bit counter of conversions is unbounded here.
- ScanTerminators.TerminatorLostExactly: for %f it speaks of some text-to-float function that yields the right number of bytes.
- The static safety analyser, core semantic analysis, HIR verification, the driver, options, dumpers, benchmarks and tools.
