# Fortran expression AST of flang, modelled in Dafny

This project models the core of the expression layer of `flang`, an early
Fortran front end built on LLVM. It covers the following parts:

- **Node tags and checked downcasts.** Every expression carries an `ExprType` tag. Designators also carry a `DesignatorTy` tag. Each class's `classof` is a predicate on those tags.
- **`APNumericStorage`.** This class keeps an arbitrary-precision integer in a 64-bit inline word or in a word buffer taken from the compilation's arena. `APFloatStorage` uses it to store IEEE 754 bit patterns.
- **Literal parsing.** Decimal integers at width 64; BOZ (binary, octal, hexadecimal) literals, per section 4.7 of ISO/IEC 1539-1:2010 (Fortran 2008); logical literals; and character literals copied into a NUL-terminated buffer.
- **Locations and types.** The rules that choose each node's start and end location from its children, and the type each creation function gives its node.
- **`MultiArgumentExpr`.** Holds 0, 1 or n arguments.
- **Array specifications.** The five shapes of R516-R522, section 5.3.8 of ISO/IEC 1539-1:2010.
- **Character code generation, as integer arithmetic.** This covers:
  - the emitter's one-shot destination slot;
  - substring pointer and length arithmetic in `size_t`;
  - the size of the concatenation temporary;
  - when a character assignment calls the runtime;
  - `LEN` / `LEN_TRIM`;
  - the operator chosen for `LLE`/`LLT`/`LGE`/`LGT`.

Files:

- `wrappers.dfy`: `Option`, for nullable pointers and absent children.
- `expr_kinds.dfy`: tags, `classof` predicates, operator and intrinsic enumerations, BOZ kinds.
- `numeric_storage.dfy`: `APInt` values, the arena, the `NumericStorage` class, IEEE bit patterns.
- `literals.dfy`: the literal parsers, as pure functions, plus the character-copy method.
- `ast.dfy`: constant nodes, declarations, argument lists, the expression tree, locations and types.
- `array_spec.dfy`: array specifications.
- `character_codegen.dfy`: character code generation.

Where the tags and `classof` predicates of `Expr.h` and the behaviour in
`Expr.cpp` differ, the model follows them as follows:

- Tag sets and `classof` come from the header.
- Behaviour comes from the implementation: creation functions, `getLocStart`/`getLocEnd`, and the `ImpliedShapeSpec` location that only the implementation has.

An informal description of the node rules says two things the code does not do. It says a substring with only a start bound ends at the target's end, and that one with neither bound ends at the target's span. The code (Expr.cpp:186-190) ends the first at the start bound's end and the second at the node's own location. The model follows the code. The same description puts the end of a constant with a kind selector at the selector's end. `ConstantExpr::getLocEnd` (Expr.cpp:34-36) returns the literal's own maximum location whether or not there is a selector, and the model keeps that.

The BOZ constructor is modelled for well-formed tokens only: a prefix, a quote, one or more digits of the radix and the closing quote. Malformed literal text is a contract violation of the parser that calls the constructor. `APInt(64, Data, 10)` likewise requires at most 23 decimal digits, which its width check asserts.

## Model

| member | source | states |
|---|---|---|
| ExprKinds.Ordinal | include/flang/AST/Expr.h:36-58 | the enumerator value of each of the 15 tags is its position in the declaration, below 15 |
| ExprKinds.OrdinalInjective | include/flang/AST/Expr.h:36-58 | two tags have the same enumerator value exactly when they are the same tag |
| ExprKinds.DispatchAgreesWithClassof | include/flang/AST/Expr.h:184-186 | for every header and every leaf class, dispatching on the tags picks class k exactly when `classof` of k holds (both directions) |
| ExprKinds.LeafClassofExclusive | include/flang/AST/Expr.h:356-360 | no header satisfies the `classof` of two different leaf classes |
| ExprKinds.ConstantClassofExact | include/flang/AST/Expr.h:99-105 | `ConstantExpr::classof` holds exactly for the bare Constant tag and the seven constant leaf tags; a constant is never a designator, operator or intrinsic call |
| ExprKinds.DesignatorClassesExclusive | include/flang/AST/Expr.h:537-541 | substring, array element and variable all require the Designator tag, and at most one of the three holds |
| ExprKinds.VariableTagUnclaimed | include/flang/AST/Expr.h:51 | no `classof` accepts the Variable tag; variables are designators |
| ExprKinds.BinaryLevel | include/flang/AST/Expr.h:608-635 | every binary operator belongs to one of the levels 1-5 the declaration groups them under (0 for None) |
| ExprKinds.BozKindQueriesExact | include/flang/AST/Expr.h:266-282 | each stored kind answers exactly its own query among `isBinaryKind`, `isOctalKind`, `isHexKind` |
| NumericStorage.NumWords | include/flang/AST/Expr.h:124 | `getNumWords(w)` is the least number of 64-bit words holding w bits |
| NumericStorage.FromNat | include/flang/AST/Expr.h:132-138 | splitting a value into words gives exactly the requested number of words |
| NumericStorage.ToNatFromNat | include/flang/AST/Expr.h:132-138 | a value below 2^(64n), split into n words and recombined, is unchanged |
| NumericStorage.ToNatBound | include/flang/AST/Expr.h:117-122 | n words always hold a value below 2^(64n) |
| NumericStorage.MakeApInt | include/flang/AST/Expr.h:132-138 | an `APInt(width, value)` for a value below 2^width is well formed with that width and value |
| NumericStorage.ValueDeterminesWords | include/flang/AST/Expr.h:132-138 | two word sequences of the same length with the same value are equal, so a stored value determines its words |
| NumericStorage.Arena.constructor | include/flang/AST/Expr.h:109-116 | a new arena has no live buffers |
| NumericStorage.Arena.Allocate | lib/AST/Expr.cpp:26 | `new (C) uint64_t[n]` gives a fresh buffer of n words and adds it to the live set |
| NumericStorage.Arena.Deallocate | lib/AST/Expr.cpp:20 | releasing a live buffer removes it from the live set |
| NumericStorage.NumericStorage.constructor | include/flang/AST/Expr.h:130 | a new storage has width 0, value 0 and no buffer |
| NumericStorage.NumericStorage.GetIntValue | include/flang/AST/Expr.h:132-138 | reads the buffer when the width needs more than one word and the inline word otherwise, and returns the stored value without changing anything |
| NumericStorage.NumericStorage.SetIntValue | lib/AST/Expr.cpp:18-32 | afterwards the storage holds exactly `Val` at its width. The old buffer is released iff the old width needed more than one word. A new buffer is allocated and filled word by word iff the new width needs one. The arena's live set changes by exactly those two buffers |
| NumericStorage.NumericStorage.SetFloatValue | include/flang/AST/Expr.h:167-169 | `APFloatStorage::setValue` stores the float's bit pattern through `setIntValue` |
| NumericStorage.NumericStorage.GetFloatValue | include/flang/AST/Expr.h:163-166 | `getValue` reinterprets exactly the stored bits in the format their width selects |
| NumericStorage.GetIEEEFloatSemantics | include/flang/AST/Expr.h:148-159 | the width alone selects the format: 16 half, 32 single, 64 double, 128 quad; any other width is excluded |
| NumericStorage.BitcastToApInt | include/flang/AST/Expr.h:168 | the bit pattern of a float is a well-formed APInt of an IEEE width |
| NumericStorage.FromBits | include/flang/AST/Expr.h:164-165 | reading bits back gives a valid float carrying exactly those bits |
| NumericStorage.FloatBitsRoundTrip | include/flang/AST/Expr.h:161-170 | storing a float and reading it back gives the same format and bits |
| NumericStorage.SemanticsByWidthOnly | include/flang/AST/Expr.h:148-159 | two bit patterns are read in the same format exactly when their widths are equal |
| Literals.DigitValue | lib/AST/Expr.cpp:116 | a digit's value, as `getAsInteger` reads it, is below 36 |
| Literals.DigitChar | lib/AST/Expr.cpp:116 | the digit character for d < 16 reads back as d |
| Literals.FormatDigits | lib/AST/Expr.cpp:116 | spelling a number in radix 2-16 gives a non-empty string of valid digits |
| Literals.FormatDigitsRoundTrip | lib/AST/Expr.cpp:116 | reading back the digits of n in radix 2-16 gives n |
| Literals.LeadingZeroNeutral | lib/AST/Expr.cpp:116 | a leading zero does not change a digit string's value |
| Literals.DigitsValueBound | lib/AST/Expr.cpp:116 | n digits in radix 2^k denote a value below 2^(kn), so k bits per digit suffice |
| Literals.ModStep | lib/AST/Expr.cpp:41 | reducing modulo 2^64 before a decimal step gives the same word as reducing after it |
| Literals.NegMod | lib/AST/Expr.cpp:41 | the 64-bit word of -x is 2^64 minus the word of x, or zero |
| Literals.Decimal64 | lib/AST/Expr.cpp:41 | the 64-bit accumulation of a decimal digit string is the string's value modulo 2^64 |
| Literals.IntegerLiteralValue | lib/AST/Expr.cpp:38-43 | for text of at most 23 digits, which `APInt(64, Data, 10)` asserts, the result is a well-formed 64-bit value equal to the signed decimal value of the text modulo 2^64 |
| Literals.IntegerLiteralExact | lib/AST/Expr.cpp:41-42 | a digit string whose value is below 2^64 is stored exactly |
| Literals.IntegerLiteralRoundTrip | lib/AST/Expr.cpp:41-42 | every number below 2^64, spelled in decimal, fits the width check and is stored as that number |
| Literals.RFind | lib/AST/Expr.cpp:112 | `rfind` gives the last index holding the character, or npos when there is none |
| Literals.Slice | lib/AST/Expr.cpp:114 | `slice(start, end)`: the characters between the ends. A start past the string or an end before the start gives the empty string; npos or an end past the string runs to the string's end |
| Literals.BozRadix | lib/AST/Expr.cpp:96-110 | B selects radix 2, O radix 8, Z and X radix 16; each radix is 2 to the bits per digit of its kind |
| Literals.BozDigits | lib/AST/Expr.cpp:112-114 | the digits are the characters from index 2 up to the last occurrence of `Data[1]` |
| Literals.BozDigitsOfSpelling | lib/AST/Expr.cpp:112-114 | for a literal spelled prefix, quote, digits, quote (digits without the quote), the digits come back exactly |
| Literals.StripLeadingZeros | lib/AST/Expr.cpp:116 | removes exactly the leading zeros: the result is a suffix that is empty or starts with a non-zero digit |
| Literals.StripLeadingZerosValue | lib/AST/Expr.cpp:116 | removing leading zeros keeps a digit string's value |
| Literals.GetAsInteger | lib/AST/Expr.cpp:115-116 | `getAsInteger` succeeds exactly on a non-empty string of digits of the radix and then yields their value. The width is 64 for an all-zero string, else bits per digit times the digits after the leading zeros |
| Literals.ValidPrefix | lib/AST/Expr.cpp:116 | the longest prefix made of digits of the radix: all of it digits, and the next character, if any, not one |
| Literals.GetAsIntegerResult | lib/AST/Expr.cpp:115-117 | what `Val` holds after `getAsInteger`, success or not: unchanged for an empty string, the successful result when there is one, and otherwise the value of the valid prefix of the digits after the leading zeros, at bits per digit times their count |
| Literals.BozLiteral | lib/AST/Expr.cpp:93-118 | as intended, a well-formed BOZ token (prefix, quote, non-empty digits of its radix, quote) yields its prefix's kind and the value of its digits in its radix |
| Literals.BozSpelledValue | lib/AST/Expr.cpp:93-118 | a literal spelled prefix, quote, valid digits, quote is well formed and holds the value of its digits in the prefix's radix |
| Literals.BozBinaryExample | lib/AST/Expr.cpp:98-100 | `B'1010'` is the binary constant 10 |
| Literals.BozOctalExample | lib/AST/Expr.cpp:102-104 | `O'17'` is the octal constant 15 |
| Literals.BozHexExamples | lib/AST/Expr.cpp:106-108 | `Z'FF'` and `X'FF'` are both the hexadecimal constant 255 |
| Literals.BozRoundTrip | lib/AST/Expr.cpp:93-118 | any number spelled in the radix of any prefix, between quotes, reads back as that number with that prefix's kind |
| Literals.BozMalformedTokens | lib/AST/Expr.cpp:116 | `B''` and `B'12'` break the token contract, and `getAsInteger` reports failure on both |
| Literals.BinaryPrefixLosesKind | lib/AST/Expr.cpp:99 | as written, a `B` literal stores `BinaryExprClass`, whose value is a parameter. It answers `isBinaryKind` exactly when that value is 2, and none of the three kind queries when it lies outside 0-2 |
| Literals.BozKindStoredAsIntended | lib/AST/Expr.cpp:97-110 | as intended, each prefix stores the kind whose query it answers |
| Literals.BozAssertAlwaysFails | lib/AST/Expr.cpp:112-113 | as written, the asserted condition is false for every literal, since `Data[1]` always occurs in `Data` |
| Literals.BozClosingQuoteIntended | lib/AST/Expr.cpp:113 | the intended condition, a closing quote after index 1, holds for every quoted spelling |
| Literals.EmptyBozKeepsLeftover | lib/AST/Expr.cpp:115-117 | as written, `B''` is accepted silently and stores the default-constructed APInt |
| Literals.InvalidBozKeepsValidPrefix | lib/AST/Expr.cpp:115-117 | as written, `B'12'` is accepted silently and stores 1, the digit before the invalid one, two bits wide |
| Literals.BozValueAsWrittenOnWellFormed | lib/AST/Expr.cpp:112-117 | on a well-formed token the value stored as written equals the intended value, so the two differ only on malformed tokens |
| Literals.Lower | lib/AST/Expr.cpp:128 | lower-cases each character independently and keeps the length |
| Literals.LogicalLiteralValue | lib/AST/Expr.cpp:128 | the value is true exactly when the text is six characters that lower-case to `.true.` |
| Literals.LogicalLiteralSpellings | lib/AST/Expr.cpp:128 | true exactly for `.TRUE.` in any mix of cases, character by character |
| Literals.LogicalLiteralExamples | lib/AST/Expr.cpp:128 | `.FALSE.`, the empty string and `.TRUE` are false; `.TrUe.` is true |
| Literals.FirstNul | lib/AST/Expr.cpp:83 | the index of the first NUL, or the length when there is none |
| Literals.StrncpyImage | lib/AST/Expr.cpp:83 | what `strncpy` writes: the input up to its first NUL, then NUL padding to the same length |
| Literals.Strlen | lib/AST/Expr.cpp:83 | `strlen` is the index of the first NUL, below the length |
| Literals.CopyCharacterData | lib/AST/Expr.cpp:82-84 | the buffer is a fresh allocation of n+1 characters holding the `strncpy` image of the input followed by the NUL terminator |
| Literals.CharacterDataNulFree | lib/AST/Expr.cpp:82-84 | for a NUL-free literal, characters 0..n-1 of the buffer are the literal and character n is NUL |
| Literals.CharacterDataStrlen | lib/AST/Expr.cpp:82-84 | `strlen` of the buffer is the position of the literal's first NUL |
| Ast.ConstantExpr.constructor | include/flang/AST/Expr.h:89-90 | a constant starts with its tag, type, locations and payload, and no kind selector |
| Ast.ConstantExpr.SetType | include/flang/AST/Expr.h:70 | replaces the type and leaves the kind selector |
| Ast.ConstantExpr.SetKindSelector | include/flang/AST/Expr.h:93 | replaces the kind selector and leaves the type |
| Ast.NewStorage | lib/AST/Expr.cpp:42 | a fresh, valid storage owned by the arena holding the value |
| Ast.CreateIntegerConstant | lib/AST/Expr.cpp:38-48 | for text within the width check, a fresh INTEGER constant whose storage holds `APInt(64, Data, 10)`, the text's value modulo 2^64 |
| Ast.CreateRealConstant | lib/AST/Expr.cpp:50-62 | a fresh real constant of the given type storing the bit pattern of the parsed value |
| Ast.CreateComplexConstant | lib/AST/Expr.cpp:64-76 | a fresh complex constant with two distinct storages holding the bit patterns of both parts |
| Ast.CreateCharacterConstant | lib/AST/Expr.cpp:78-91 | a fresh CHARACTER constant owning a new NUL-terminated copy of the literal |
| Ast.CreateBozConstant | lib/AST/Expr.cpp:93-123 | as intended, for a well-formed token a fresh INTEGER BOZ constant with the prefix's kind and the value of its digits in its radix |
| Ast.CreateLogicalConstant | lib/AST/Expr.cpp:125-134 | a fresh LOGICAL constant, true exactly for `.TRUE.` in any case |
| Ast.VarDecl.constructor | lib/AST/Expr.cpp:215 | a declaration starts unused as a variable |
| Ast.MultiArgumentExpr.Arguments | lib/AST/Expr.cpp:156-167 | the arguments are read from whichever member holds them, and there are `NumArguments` of them |
| Ast.MultiArgumentExpr.constructor | lib/AST/Expr.cpp:156-167 | records the count. No argument gives a null array, one argument is kept inline, and more are copied in order into a fresh array by a loop. Reading them back gives the argument list |
| Ast.Spans | lib/AST/Expr.cpp:206-208 | a list contributes a start and an end for each item |
| Ast.SpansContain | lib/AST/Expr.cpp:206-208 | the spans of a list start at its first item's start, end at its last item's end, and contain every item's start and end |
| Ast.LayoutStartsAtLocStart | lib/AST/Expr.cpp:149-171 | each node's `getLocStart` is the first location in its source layout |
| Ast.LayoutEndsAtLocEnd | lib/AST/Expr.cpp:186-415 | each node's `getLocEnd` is the last location in its source layout (a DO increment excepted) |
| Ast.ChildInLayout | lib/AST/Expr.cpp:149-415 | every sub-expression but a DO increment has its start and end in its parent's layout |
| Ast.SpanCoversChildren | lib/AST/Expr.cpp:149-415 | for a well-placed node, `getLocStart` is at or before `getLocEnd`, and every sub-expression but a DO increment starts and ends inside the node's span |
| Ast.SpanCoversDescendants | lib/AST/Expr.cpp:149-415 | every sub-expression at any depth, outside DO increments, lies inside the span of the whole expression |
| Ast.ImpliedDoSpanExcludesIncrement | lib/AST/Expr.cpp:369-371 | an implied DO ends at its terminal value, so an increment after it lies outside its span |
| Ast.DowncastSound | include/flang/AST/Expr.h:356-360 | a checked downcast of a node to class k succeeds exactly when k is the class the node was created as |
| Ast.CreateUnary | lib/AST/Expr.cpp:256-265 | `.NOT.` gives LOGICAL and every other operator the operand's type, so the result is LOGICAL iff the operator is `.NOT.` or the operand is LOGICAL. The node spans from its location to the operand's end |
| Ast.CreateDefinedUnary | lib/AST/Expr.cpp:267-277 | operator `Defined`, the operand's type, the defined-unary tag, and not `isa<UnaryExpr>` |
| Ast.CreateBinary | lib/AST/Expr.cpp:279-290 | the given operator and type; the span runs from the left operand's start to the right operand's end |
| Ast.CreateDefinedBinary | include/flang/AST/Expr.h:668-672 | operator `Defined`, the defined-binary tag, an empty type, and not `isa<BinaryExpr>` |
| Ast.CreateSubstring | lib/AST/Expr.cpp:169-190 | type CHARACTER and a substring designator. It starts at the target's start. It ends at the end bound's end, else at the start bound's end, else at its own location |
| Ast.CreateArrayElement | lib/AST/Expr.cpp:192-198 | the target has an array type whose element type is the node's type, and the node starts at the target's start |
| Ast.CreateVarExpr | lib/AST/Expr.cpp:214-222 | marks the declaration used as a variable. The node has the declaration's type, is an object-name designator, and spans the identifier |
| ArraySpecs.ExactlyOneShapeClass | include/flang/AST/Expr.h:443-521 | every specification passes exactly one of the five subclass tests, the one for the class it was created as |
| ArraySpecs.LowerBound | include/flang/AST/Expr.h:452-495 | deferred-shape and assumed-size specifications have no lower bound |
| ArraySpecs.UpperBound | include/flang/AST/Expr.h:430-441 | only an explicit shape has an upper bound |
| ArraySpecs.CreateExplicitShape | lib/AST/Expr.cpp:424-431 | an explicit shape with the given upper bound and a null lower bound |
| ArraySpecs.CreateExplicitShapeWithLower | lib/AST/Expr.cpp:426-436 | an explicit shape with both bounds |
| ArraySpecs.CreateAssumedShape | lib/AST/Expr.cpp:438-445 | an assumed shape without a lower bound |
| ArraySpecs.CreateAssumedShapeWithLower | lib/AST/Expr.cpp:440-449 | an assumed shape with the given lower bound |
| ArraySpecs.CreateDeferredShape | lib/AST/Expr.cpp:451-456 | a deferred shape, with no bounds |
| ArraySpecs.CreateImpliedShape | lib/AST/Expr.cpp:458-465 | an implied shape at the given location, without a lower bound |
| ArraySpecs.CreateImpliedShapeWithLower | lib/AST/Expr.cpp:460-469 | an implied shape at the given location with the given lower bound |
| ArraySpecs.FactoriesRebuild | lib/AST/Expr.cpp:421-469 | every specification except an assumed-size one, which has no factory, is what its factory yields for its own kind, bounds and location |
| CharacterCodegen.SizeSub | lib/CodeGen/CGExprCharacter.cpp:123-131 | `size_t` subtraction is exact without underflow and wraps by 2^64 with it |
| CharacterCodegen.SignedOffset | lib/CodeGen/CGExprCharacter.cpp:126 | a GEP index is the size word read as a signed 64-bit value, congruent to it modulo 2^64 |
| CharacterCodegen.Advance | lib/CodeGen/CGExprCharacter.cpp:126 | GEP stays in the same buffer and moves by the index |
| CharacterCodegen.CountWrites | lib/CodeGen/CGExprCharacter.cpp:116 | counts the calls, at most all of them, that write into a value |
| CharacterCodegen.CodeGenFunction.EmitCall | lib/CodeGen/CGExprCharacter.cpp:116 | each runtime call is appended to the calls emitted so far |
| CharacterCodegen.SubstringValue | lib/CodeGen/CGExprCharacter.cpp:120-136 | the result points into the parent's buffer. Without a start the pointer is kept and the length becomes the end, or stays unchanged without one |
| CharacterCodegen.SubstringSelectsCharacters | lib/CodeGen/CGExprCharacter.cpp:120-136 | for (s:e) with 1 <= s <= e+1, the result points at character s, has length e-s+1 and ends where character e ends; (s:) runs to the parent's end |
| CharacterCodegen.SubstringStartZeroWraps | lib/CodeGen/CGExprCharacter.cpp:123-129 | a start of 0 points one character before the parent and yields length e+1 |
| CharacterCodegen.DesignatorValue | lib/CodeGen/CGExprCharacter.cpp:120-136 | a designator's value points into a buffer |
| CharacterCodegen.ConcatTempSize | lib/CodeGen/CGExprCharacter.cpp:99-102 | the temporary's size is the sum of the operand type lengths, each 1 without a length selector, wrapped modulo 2^64 |
| CharacterCodegen.ConcatTempHoldsOperands | lib/CodeGen/CGExprCharacter.cpp:99-102 | without overflow the temporary is no shorter than either operand's type, and two long when neither has a length selector |
| CharacterCodegen.CharacterExprEmitter.constructor | lib/CodeGen/CGExprCharacter.cpp:63-66 | a new emitter has an empty destination slot |
| CharacterCodegen.CharacterExprEmitter.TakeDestination | lib/CodeGen/CGExprCharacter.cpp:42-46 | returns the previous destination and leaves the slot empty |
| CharacterCodegen.CharacterExprEmitter.SetDestination | lib/CodeGen/CGExprCharacter.cpp:47-50 | requires a non-null pointer; afterwards the slot holds the value |
| CharacterCodegen.CharacterExprEmitter.VisitCharacterConstant | lib/CodeGen/CGExprCharacter.cpp:72-76 | a fresh global holding the stored string and its NUL, with length `strlen` of the stored value |
| CharacterCodegen.CharacterExprEmitter.ApplySubstring | lib/CodeGen/CGExprCharacter.cpp:122-135 | the step-by-step pointer and length updates compute the substring value |
| CharacterCodegen.CharacterExprEmitter.EmitExpr | lib/CodeGen/CGExprCharacter.cpp:68-160 | a preset destination is taken by exactly the expressions that consume it, and is written once. Every other value written is a new temporary. No assignment is emitted. Designators evaluate to their value without calls. A named constant evaluates its initializer with the same emitter, so it consumes the destination exactly when its initializer does |
| CharacterCodegen.CharacterExprEmitter.VisitConcat | lib/CodeGen/CGExprCharacter.cpp:92-118 | writes into the taken destination, or into a fresh temporary of the operands' size, with one final runtime concatenation. The result is that destination |
| CharacterCodegen.CharacterExprEmitter.EmitConcatInto | lib/CodeGen/CGExprCharacter.cpp:112-117 | evaluates both operands with no destination and then calls the runtime concatenation into the destination |
| CharacterCodegen.CharacterExprEmitter.ConcatDestination | lib/CodeGen/CGExprCharacter.cpp:94-109 | takes the preset destination, or allocates a temporary of the operands' size whose value (built by the intended `GetCharacterValueFromPtr`) has exactly the temporary's length |
| CharacterCodegen.CharacterExprEmitter.VisitCall | lib/CodeGen/CGExprCharacter.cpp:138-153 | the result goes into the taken destination, or into a fresh temporary of the result's length whose value has exactly that length |
| CharacterCodegen.EmitCharacterExpr | lib/CodeGen/CGExprCharacter.cpp:188-191 | a new emitter without destination evaluates a designator to its value without calls |
| CharacterCodegen.EmitCharacterAssignment | lib/CodeGen/CGExprCharacter.cpp:163-175 | the runtime assignment is called iff evaluating the right-hand side did not take the preset destination, and the left-hand side is written exactly once either way |
| CharacterCodegen.EmitLengthIntrinsic | lib/CodeGen/CGExprCharacter.cpp:218-235 | `LEN` yields the value's length and emits nothing; `LEN_TRIM` calls the runtime; no other intrinsic reaches it |
| CharacterCodegen.GetLexicalComparisonOp | lib/CodeGen/CGExprCharacter.cpp:237-249 | LLE, LLT, LGE and LGT map to ordering relational operators; other intrinsics are excluded |
| CharacterCodegen.LexicalComparisonMeaning | lib/CodeGen/CGExprCharacter.cpp:237-249 | applying the mapped operator to the runtime comparison result and zero gives the intrinsic's meaning in ISO/IEC 1539-1:2010, sections 13.7.96-13.7.99 |
| CharacterCodegen.LexicalComparisonInjective | lib/CodeGen/CGExprCharacter.cpp:237-249 | the four intrinsics map to four different operators |
| CharacterCodegen.EmitLexicalComparison | lib/CodeGen/CGExprCharacter.cpp:251-275 | LLE, LLT, LGE and LGT emit one runtime comparison of the two values. Its result compared with zero by the chosen operator holds exactly when the intrinsic's ordering holds |
| CharacterCodegen.ConcatTempLengthAsWrittenUndefined | lib/CodeGen/CGExprCharacter.cpp:177-186 | as written, the value built for a concatenation temporary has no defined length, whatever its storage |
| CharacterCodegen.GetCharacterValueFromPtr | lib/CodeGen/CGExprCharacter.cpp:182-186 | as intended, the value points at the storage's first character and, for storage of the type's size, has exactly the storage's length |

## Left out

- Real and complex literal parsing (lib/AST/Expr.cpp:50-76): decimal-to-IEEE conversion is floating point inside LLVM. The creation methods take the resulting bit pattern as a parameter.
- `print` and `dump`: diagnostic text output.
- The whole of lib/CodeGen/BackendUtil.cpp and lib/AST/StmtDumper.cpp: pass-manager configuration and text dumping.
- LLVM IR building and runtime-call details (`CreateGEP` as instructions, `CreateGlobalStringPtr`, `EmitCall*`, `GetRuntimeFunction*`). Pointers are (buffer, offset) pairs. The emitted runtime calls are recorded as a sequence.
- `VisitVarExpr` for a dummy argument or a local variable, `VisitReturnedValueExpr`, `VisitIntrinsicCallExpr` and `VisitArrayElementExpr` delegate to code that is not part of this model. Their values appear as `Operand` values. A named constant (`VisitVarExpr` on a PARAMETER) is modelled: it evaluates its initializer with the same emitter.
- The pointer-difference `INDEX` case (lib/CodeGen/CGExprCharacter.cpp:257-261): pointer arithmetic on values other code supplies.
- `CodeGenTypes::GetCharacterTypeLength` is not part of this model. A type's length is taken to be its length selector, or 1 without one, which is the rule the concatenation sizing itself uses. The intended `CodeGenFunction::GetCharacterTypeLength` returns that length.
- `EmitSizeIntToIntConversion` is not part of this model. `LEN` yields the size value itself.
- `ConvertComparisonResultToRelationalOp` is not part of this model. `RelationHolds` gives the meaning of a relational operator applied to the comparison result and zero.
- The union in `APNumericStorage` is two separate fields, so reading the inactive member is not modelled. APInt's masking of unused high bits is not modelled: a well-formed value is below 2^width.
- The arena is a ghost set of live buffers. Bump allocation itself is not modelled.
- `QualType` is a small datatype. Only constants can have their type rewritten (`setType`); other nodes keep the type they were created with. `setType` and `setKindSelector` may be called any number of times.
- `RangeExpr::setFirstExpr` / `setSecondExpr` (lib/AST/Expr.cpp:399-405): the tree is a value, so replacing a range bound means building a new `Range`.
- `ArrayElementExpr::getLocEnd`, `CallExpr::getLocEnd` and `IntrinsicCallExpr::getLocEnd` take `back()` of their argument list. Their end is defined only for a non-empty list (`EndDefined`).
- `ImpliedDoExpr`, `CallExpr`, `ReturnedValueExpr` and `UnresolvedIdentifierExpr` are modelled only as tree nodes with their types and span rules; their other members are not shown in the header.
- Identifier lengths stand for `IdentifierInfo::getLength`.
- Ast.CreateArrayElement: requires the target to have an array type, as `asArrayType()` does. Rank checking belongs to semantic analysis.
- CharacterCodegen.EmitCharacterAssignment: the left-hand side must be a designator whose pointer is not null, as `setDestination` asserts.
- CharacterCodegen.CharacterExprEmitter.EmitExpr: a substring of a concatenation or of a function call takes the destination through its target. Fortran syntax does not allow either form, so the model records that behaviour but does not treat it as an error.

## Findings

| source | as written | input that shows it | evidently intended | confidence | as-written member | corrected member |
|---|---|---|---|---|---|---|
| lib/AST/Expr.cpp:99 | `Kind = BinaryExprClass` assigns an enumerator of the expression-class enumeration, not BOZKind::Binary (2) | `B'1010'` | `Kind = Binary`, so `isBinaryKind()` holds | medium (the enumerator's value is not visible here), not executed | Literals.BinaryPrefixLosesKind | Literals.BozKindStoredAsIntended |
| lib/AST/Expr.cpp:113 | asserts `LastQuote == npos`, but `rfind(Data[1])` always finds index 1 | `Z'FF'` | `LastQuote != npos && LastQuote > 1`: a closing quote follows the opening one | high, not executed | Literals.BozAssertAlwaysFails | Literals.BozClosingQuoteIntended |
| lib/AST/Expr.cpp:116 | the failure result of `getAsInteger` is ignored: `B''` keeps the default APInt, and `B'12'` keeps 1, the digits before the invalid one | `B'12'` | the failure is asserted as the parser's contract violation; well-formed tokens get their full value | medium, not executed | Literals.InvalidBozKeepsValidPrefix | Literals.BozLiteral |
| lib/CodeGen/CGExprCharacter.cpp:177-180 | `GetCharacterTypeLength` computes a value but has no `return`, so `GetCharacterValueFromPtr` builds values of undefined length | any concatenation without a preset destination, e.g. the operand `A // B` of `C // (A // B)` | `return llvm::ConstantInt::get(...)`, so a temporary's value has its storage's length | high, not executed | CharacterCodegen.ConcatTempLengthAsWrittenUndefined | CharacterCodegen.GetCharacterValueFromPtr |
