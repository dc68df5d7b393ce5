# Bozon compiler: verified models

Bozon is a compiler for a C++-like language with compile-time execution. This project models those parts of it that
need neither LLVM nor input and output, and proves what they promise.

| module | part of the compiler |
|---|---|
| `BubbleSort`, `LexerGenerator`, `KeywordLexer` | the program that compiles the tables of tokens and keywords into nested switches |
| `ExecutorSpec`, `Executor`, `ExecutorMeaning` | the virtual machine for compile-time execution: as a transition system, as the class with its mutable fields, and what its instructions do |
| `Typespec`, `TypeParts`, `TypeMangling`, `TypeDecoding` | types, their equality, their symbol names, and the decoder that prints a symbol name |
| `ValueMangling`, `ValueUniqueness`, `FunctionMangling`, `PlainNames` | constant values in symbol names and their decoder, and the symbol names of functions |
| `SymbolSpelling` | the texts of all these names, written out |
| `Alignment`, `Layout`, `Padding` | sizes, alignments, offsets and `has_padding` |
| `TypePrototypes`, `TypePrototypeSet`, `TypeLowering`, `LoweringMeaning` | the hash-consed type prototypes, the lowering of types to them, and what it means in bytes |
| `SymbolTable`, `OperatorTable`, `GlobalScope` | the global symbol tables |
| `TypeHash`, `ConstantValues`, `FloatMeaning`, `Specializations`, `GenericParameters`, `SpecializationCache` | the hash of types, equality of constants, and the caches of generic specializations and instantiations |
| `Utf8`, `Utf8Search`, `Utf8Reverse`, `U8Strings` | the UTF-8 encoder, decoder, validator, searches and in-place edits, and the string class |
| `Arena` | the allocator of AST nodes |
| `EscapeSequences`, `EscapeMeaning` | the printer, verifier and reader of escape sequences, and what the sequences stand for |
| `Options`, `Sequences`, `Numerals`, `Bitwise` | shared vocabulary, and masks and shifts as arithmetic |

Code that changes state is a class or a method over arrays; each such method says what it does to a value, and the
lemmas are about that value. `Valid()` of a class is kept by every one of its methods, so what it says holds after any
sequence of calls; where a run matters (the virtual machine) there are lemmas about runs. Pure code is functions.
Pointers to declarations are numbers. `std::unordered_map` is a `map`, except for the specialization cache, where the
point is that hashing and equality agree: there it is a sequence of buckets.

Points where a reader of the source may be surprised:

- The caller's slot of a call is written twice. The instruction's own (empty) result is written after the call has been
  entered, through a pointer into the buffer that has moved into the saved frame (src/comptime/execute.cpp:4830), and
  the return value is written there when the caller is resumed. `ExecutorSpec.CallReturns` is about both.
- A failed push still leaves the pushed frame on the memory manager's stack; the code pops it again
  (src/comptime/executor_context.cpp:197-260).
- Equality of function types ignores the calling convention, their symbol names do not
  (`TypeMangling.ConventionsAreOnlyInNames`).
- An array of length zero can be aligned more strictly than the tuple around it (`Layout.AlignmentCanShrink`), and its
  padding counts although it has no bytes. `Padding.FlagMeansHole` therefore has a second case. Only the interface of
  the prototype set allows such arrays: the resolver rejects array types whose size is not positive
  (src/resolve/expression_resolver.cpp:817-840).
- `verify` accepts more than section 4 of RFC 3629 allows: overlong forms of three and four bytes, surrogates and values
  up to 2^21 - 1 (`Utf8.AcceptedBeyondStandard`). The model has the code's grammar, and
  `Utf8.StandardStringExactlyWhen` says which of the accepted strings the standard allows.
- `find`, `rfind` and `erase` compare bytes without looking at the end. They read behind it exactly when the string ends
  in the middle of the bytes they look for (`Utf8Search.ReadsInsideExactlyWhen`), which no verified string does.
- `reverse` moves maximal runs of bytes outside ASCII as a whole, so two neighbouring characters outside ASCII keep their
  order. The characters come out reversed exactly when every run is a palindrome (`Utf8Reverse.ReversedExactlyWhen`).
- The decoder of constant values takes the length in front of an enum value's name for the value
  (src/ast/constant_value.cpp:525-537), and begins the symbol of a function or type at the dot in front of it.
- An enum value without a name is encoded as a number, one with a name as the length of the name and the name. In an
  unsigned enum the two can be confused if the name can also be read as the next value or type. This is the only
  ambiguity (`ValueUniqueness.InjectiveExactlyWhen`), and the type does not rule it out: `E::s3` and an empty string
  encode like the number 2 of `E` and the string `s0.` (`FunctionMangling.SameTypeSameSymbol`). Names that do not look
  like the beginning of an encoding or of a type's name are safe (`PlainNames.PlainNamesSuffice`).
- The keyword table is sorted by the number of code points but compiled by the number of bytes. Labels are repeated
  exactly when equal sizes do not stand together in the sorted table. The table is a constant of the program and in
  ASCII, for which that cannot happen (`KeywordLexer.AsciiNeverSplits`); `KeywordLexer.LabelIsRepeated` is about another
  table.
- The decoder of type names prints `void`, an enum at the end, and the empty tuple as it should but leaves its iterator
  in front of them (`TypeDecoding.PrintsExactlyWhen`); the decoder of values does so for null and `void()`.
- A parameter that is a NaN is never found again, so every request makes another specialization
  (`Specializations.NaNIsNeverFound`).

Assumptions that the code leaves to its surroundings and that appear as preconditions: a function of the virtual machine
has a terminator as its last instruction and nowhere else; names of structs and enums identify their declarations and
contain no dot, and neither do the parts of a function's name; where only the printed text matters, no enum has an
empty name; typespecs are resolved; an empty typespec has no modifiers; generic parameters have constants. Names of
generic instantiations that contain the text of a value with a dot are outside the naming assumption.

## Model

| member | source | states |
|---|---|---|
| BubbleSort.Sort | src/core.h:62-83 | for any strict weak order, the array ends sorted and is a permutation of what it was |
| LexerGenerator.TokenLessOrders | scripts/generate_lexer.cpp:33-57 | the comparison that orders the token table is a strict weak order |
| LexerGenerator.EndOfGroup | scripts/generate_lexer.cpp:141-162 | the search for the end of a group stops behind exactly the tokens with the same code point at this level, and never runs past the table |
| LexerGenerator.GenerateHelper | scripts/generate_lexer.cpp:121-193 | the switch for a sorted slice has no repeated label at any depth, both assertions of the generator hold, and on every input that continues the slice's prefix the switch returns the longest token of the slice, or the default |
| LexerGenerator.GenerateRegularTokenLexer | scripts/generate_lexer.cpp:121-205 | for every table of distinct non-empty tokens closed under non-empty prefixes, in any order: the table ends sorted, and the switches return the longest token that begins the input and consume exactly its length |
| LexerGenerator.ClosureIsNecessary | scripts/generate_lexer.cpp:121-193 | no tree of switches can mean longest match for a table that is not closed under prefixes |
| KeywordLexer.GenerateKeywordLexer | scripts/generate_lexer.cpp:62-109 | the table ends sorted by length; no label is repeated exactly when keywords of equal size stand together in it, surely if no keyword of the given table separates two of one size by its length, and surely not if one does so strictly; without a repeated label an identifier gets a keyword's kind exactly when it is in the table with that kind |
| KeywordLexer.SplitsExactlyWhen | scripts/generate_lexer.cpp:90-98 | the two conditions on the given table agree if the number of code points determines the number of bytes |
| KeywordLexer.AsciiNeverSplits | scripts/generate_lexer.cpp:62-109 | in a table in ASCII no keyword separates two of one size |
| KeywordLexer.CompileKeywords | scripts/generate_lexer.cpp:207-254 | the loop gives every keyword a test under the label of its size, and one label to every stretch of equal sizes |
| KeywordLexer.DistinctExactlyWhen | scripts/generate_lexer.cpp:207-254 | opening a case whenever the size changes repeats no label exactly when equal sizes stand together |
| KeywordLexer.LookUpCorrect | scripts/generate_lexer.cpp:207-254 | without a repeated label the nested tests of size and text answer exactly as the table |
| KeywordLexer.LabelIsRepeated | scripts/generate_lexer.cpp:90-98 | a sorted table, not in ASCII, for which a label is repeated |
| ExecutorSpec.ExecuteIsExecuted | src/comptime/executor_context.cpp:173-260 | from the invariant every instruction has what it relies on, and leaves frames, value array and saved callers consistent, on the failed-push path too |
| ExecutorSpec.ExecutedCanAdvance | src/comptime/executor_context.cpp:1184-1226 | the assertions in `advance` hold after any instruction |
| ExecutorSpec.AdvanceKeepsInv | src/comptime/executor_context.cpp:1184-1226 | `advance` restores the invariant: value pointer at instruction index plus alloca offset, value array with allocas plus instructions entries, every saved call site a call with a successor, one memory frame more than saved callers, at most 1024 |
| ExecutorSpec.Step | src/comptime/executor_context.cpp:1303-1324 | one turn of the loop keeps the invariant, whatever the instruction and the memory manager do |
| ExecutorSpec.Exec | src/comptime/executor_context.cpp:1283-1324 | every run from the start state satisfies the invariant at its end |
| ExecutorSpec.RunKeepsInv | src/comptime/executor_context.cpp:1303-1324 | every state of every run satisfies the invariant |
| ExecutorSpec.StepShape | src/comptime/executor_context.cpp:1303-1324 | a turn leaves the saved callers alone, or pushes the running function, or resumes the last caller |
| ExecutorSpec.LowerFramesUntouched | src/comptime/executor_context.cpp:1303-1324 | while a run stays above a depth, nothing at or below that depth changes |
| ExecutorSpec.CallReturns | src/comptime/executor_context.cpp:222-259 | between a successful call and its matching return, with any nested calls: function, arguments, frame objects and every instruction value but the call's slot are as before, the slot holds the value returned last, and execution continues just after the call |
| ExecutorSpec.ReturnValueIsLast | src/comptime/executor_context.cpp:179-188 | the stored return value is the operand of the last executed `ret` |
| ExecutorSpec.CallOutcome | src/comptime/executor_context.cpp:197-260 | a call fails exactly when 1024 frames exist or the push fails, and then changes nothing but the error flag, its slot and the position |
| ExecutorSpec.CalleeSeesArguments | src/comptime/executor_context.cpp:222-259 | the callee's arguments are the caller's values at the indices the call names |
| ExecutorMeaning.AfterJump | src/comptime/execute.cpp:4150-4153 | execution goes on at the destination; nothing else changes but the jump's own slot, which becomes empty |
| ExecutorMeaning.AfterConditionalJump | src/comptime/execute.cpp:4155-4165 | the same, at the first destination if the operand's value is true and at the second if it is not |
| ExecutorMeaning.DestinationIsFound | src/comptime/execute.cpp:4167-4180 | the search among the sorted cases finds the one with the value, and takes the default if there is none |
| ExecutorMeaning.AfterSwitch | src/comptime/execute.cpp:4167-4210 | execution goes on at the case with the operand's value, or at the default |
| ExecutorMeaning.AfterOperation | src/comptime/execute.cpp:4790-4826 | the slot holds what the operation computed, the next instruction follows, and an error is reported exactly if the operation reports one |
| ExecutorMeaning.AfterCall | src/comptime/executor_context.cpp:222-259 | a successful call goes on at the callee's first instruction; its values are the plain addresses of the allocas, or addresses that name the frame exactly if the callee can leak addresses and the alloca is not always initialized, and then nothing |
| ExecutorMeaning.AtStart | src/comptime/executor_context.cpp:1283-1302 | the outermost function starts at its first instruction with plain addresses |
| ExecutorMeaning.AfterRet | src/comptime/execute.cpp:4230-4233 | `ret` hands over its operand, ends the run in the outermost function and resumes the caller in any other |
| ExecutorMeaning.AfterRetVoid | src/comptime/execute.cpp:4235-4238 | so does `ret_void`, without a value |
| ExecutorMeaning.SlotIsKept | src/comptime/executor_context.cpp:1303-1324 | over any run, a slot of an activation is not touched while its instruction is not executed, whatever is called in between |
| ExecutorMeaning.OperationIsKept | src/comptime/executor_context.cpp:1303-1324 | until an activation executes an operation again, its slot holds what the last execution computed |
| ExecutorMeaning.ReturnIsKept | src/comptime/executor_context.cpp:1303-1324 | until it executes a call again, the call's slot holds what the last execution returned |
| Executor.ExecutorContext.constructor | src/comptime/executor_context.h:27-47 | the initial fields |
| Executor.ExecutorContext.SetCurrentInstructionValue | src/comptime/executor_context.cpp:59-62 | writes through the value pointer, which may point into a saved frame's buffer |
| Executor.ExecutorContext.DoJump | src/comptime/executor_context.cpp:173-177 | sets the next instruction and nothing else |
| Executor.ExecutorContext.DoRet | src/comptime/executor_context.cpp:179-183 | stores the value and marks the return |
| Executor.ExecutorContext.DoRetVoid | src/comptime/executor_context.cpp:185-188 | marks the return |
| Executor.ExecutorContext.CallFunction | src/comptime/executor_context.cpp:197-260 | depth check, push, saving of the caller and entering of the callee in the fields refine `ExecutorSpec.CallFunction` |
| Executor.ExecutorContext.ExecuteCurrentInstruction | src/comptime/execute.cpp:4790-4831 | one instruction and the write of its result in the fields refine `ExecutorSpec.Execute` |
| Executor.ExecutorContext.Advance | src/comptime/executor_context.cpp:1184-1226 | jump, return and plain path in the fields refine `ExecutorSpec.Advance`; no buffer is shared or lost |
| Executor.ExecutorContext.ExecuteExpression | src/comptime/executor_context.cpp:1283-1324 | the loop reaches exactly the state of the run of the transition system |
| Typespec.EqualIsErasedEqual | src/ast/typespec.cpp:887-967 | types are equal exactly when they differ in nothing but calling conventions, at any depth |
| TypeParts.EqualIsSameHeads | src/ast/typespec.cpp:887-967 | types are equal exactly when every path into one leads to the same place in the other: same modifiers, declaration or size, and number of parts |
| Typespec.EqualityIsEquivalence | src/ast/typespec.cpp:887-967 | equality of types is reflexive, symmetric and transitive |
| TypeMangling.UniquelyDecodable | src/ast/typespec.cpp:605-690 | if two names, each followed by nothing or a dot, give the same text, the types and what follows are the same |
| TypeMangling.EqualNamesEqualTypes | src/ast/typespec.cpp:605-690 | equal symbol names mean types equal by `operator ==` |
| TypeMangling.NoDottedPrefix | src/ast/typespec.cpp:605-690 | no name begins with another type's name followed by a dot |
| TypeMangling.EqualTypesEqualNames | src/ast/typespec.cpp:605-690 | any two types have the same name exactly when they are the same, calling conventions included |
| TypeMangling.ConventionsAreOnlyInNames | src/ast/typespec.cpp:605-690 | function types that differ in their calling convention are equal but have different names |
| TypeMangling.GetSymbolName | src/ast/typespec.cpp:605-690 | the loops over modifiers and elements append exactly the name |
| TypeDecoding.DecodeOutcome | src/ast/typespec.cpp:692-885 | for every type and whatever follows its name, the decoder prints what the formatter prints and stops at the end of the name, or prints it with its iterator left inside the name, or fails or prints something longer, as the structure of the type says |
| TypeDecoding.DecodesExactlyWhen | src/ast/typespec.cpp:692-885 | decoding inverts naming exactly for structs behind modifiers other than variadic, non-empty tuples of such types, and slices with nothing behind them |
| TypeDecoding.PrintsExactlyWhen | src/ast/typespec.h:338-343 | the text alone is the formatter's for exactly these types and for `void`, an enum with nothing behind it, `typename` with something behind it, the empty tuple, and tuples whose last element is one of these |
| TypeDecoding.DecodeSymbolName | src/ast/typespec.cpp:692-885 | the decoder's loop, which moves an iterator and appends to a text, computes `Decode` |
| TypeDecoding.DecodeTypeList | src/ast/typespec.cpp:761-876 | the inner loop over counted element types stops at the first that is missing |
| ValueMangling.DecodeOutcome | src/ast/constant_value.cpp:477-622 | for every value and whatever follows its encoding, the decoder hands every payload to the formatter and stops at the end of the encoding, or hands it over but leaves a last null or void, or fails or hands over something else |
| ValueMangling.RoundTripExactlyWhen | src/ast/constant_value.cpp:210-622 | decoding gives the formatter what the value itself gives it, and stops at the end, exactly for values without null, void, functions, types and named enum values |
| ValueMangling.ShownExactlyWhen | src/ast/constant_value.h:249-255 | for a caller that does not look at the iterator, exactly for these and for values whose last element at every level is a null or void |
| ValueMangling.EnumNameIsMisread | src/ast/constant_value.cpp:520-548 | the length of an enum value's name is read as the value and the name is left over |
| ValueMangling.EnumNumberRoundTrip | src/ast/constant_value.cpp:254-278 | an enum value without a name is read back with its number, and as one of a signed enum if its text begins with zero |
| ValueUniqueness.EncodingIsInjective | src/ast/constant_value.cpp:210-329 | for any set of texts that may follow, two encodings of any values, functions and types included, with such texts behind them are the same text only for the same value and the same rest, if no text may follow both with and without a name in front that clashes: the name of a value of an unsigned enum in which the length of the name is a number without a name |
| ValueUniqueness.InjectiveExactlyWhen | src/ast/constant_value.cpp:210-329 | the encoding is injective in this sense exactly under that condition |
| ValueUniqueness.LengthClash | src/ast/constant_value.cpp:254-278 | a named value is the unnamed one with the name behind it |
| ValueUniqueness.AnythingFollows | src/ast/constant_value.cpp:210-329 | if anything with a dot may follow, the condition is that no name clashes |
| ValueUniqueness.ListsAreUniqueExactlyWhen | src/ast/constant_value.cpp:158-166 | lists of the same length have different texts exactly when no text of a list is a name that clashes and another such text |
| ValueUniqueness.TypedClash | src/ast/constant_value.cpp:254-278 | two pairs of an enum value and a string, different in both, with one encoding |
| ValueUniqueness.InjectiveWithoutEnums | src/ast/constant_value.cpp:210-329 | values that hold no enum value need no condition |
| FunctionMangling.SameSymbolSameSignature | src/ast/statement.cpp:108-137 | functions or operators with the same symbol have the same name, parameter types, generic constants and return type, if no name that clashes can be read as the next type or value |
| FunctionMangling.SameTypeSameSymbol | src/ast/statement.cpp:121-132 | the type in front of a constant does not prevent it: two functions of one name and type with different constants and one symbol |
| PlainNames.PlainNamesSuffice | src/ast/statement.cpp:108-137 | symbols are equal exactly when signatures are, if every name that clashes is plain: it is not a tag with digits behind it, `n`, `v`, or the first word of a type's name |
| FunctionMangling.GetSymbolName | src/ast/statement.cpp:108-137 | the loop over the parameters builds exactly the symbol |
| SymbolSpelling.Digits | src/ast/constant_value.cpp:215-222 | decimal numerals have their highest digit first |
| SymbolSpelling.HexDigits | src/ast/constant_value.cpp:223-230 | so have hexadecimal ones, which have a fixed width |
| SymbolSpelling.ModifiersAreSpelled | src/ast/typespec.cpp:614-644 | names, printed types and the decoder follow one table of modifiers |
| SymbolSpelling.VariadicIsSpelled | src/ast/typespec.cpp:614-644 | the mark of a variadic type has no dot |
| SymbolSpelling.WordsAreSpelled | src/ast/typespec.cpp:645-684 | the names of structs, enums, `void` and `typename`, and how they are printed |
| SymbolSpelling.ArraysAreSpelled | src/ast/typespec.cpp:645-684 | the names of arrays and slices |
| SymbolSpelling.ListsAreSpelled | src/ast/typespec.cpp:645-684 | the names of tuples and functions |
| SymbolSpelling.OpenTypesArePrinted | src/ast/typespec.cpp:1076-1130 | how types without a symbol name are printed |
| SymbolSpelling.ConventionsArePrinted | src/ast/typespec.cpp:800-845 | the decoder prints the name of the calling convention |
| SymbolSpelling.NumbersAreSpelled | src/ast/constant_value.cpp:210-329 | numbers and arrays of numbers follow one table of tags |
| SymbolSpelling.ScalarsAreSpelled | src/ast/constant_value.cpp:210-329 | the encodings of all other values that are no lists |
| SymbolSpelling.ValueListsAreSpelled | src/ast/constant_value.cpp:210-329 | the encodings of arrays, tuples and aggregates |
| SymbolSpelling.ParametersAreSpelled | src/ast/statement.cpp:108-137 | the types and constants of parameters in the symbol of a function |
| Numerals.WrappedIsRemainder | src/ast/constant_value.cpp:331-370 | digits are read up to multiples of the size of the integer type |
| ValueMangling.SymbolOffByOne | src/ast/constant_value.cpp:590-611 | the dot behind the length of a function or type name is not skipped, so the name that is read begins with the dot and its last character is left over |
| ValueMangling.ParseIntLoop | src/ast/constant_value.cpp:331-346 | reads the longest run of digits and gives its value with wrap-around |
| ValueMangling.ParseHexLoop | src/ast/constant_value.cpp:348-370 | reads the longest run of hexadecimal digits and gives its value with wrap-around |
| ValueMangling.EncodeForSymbolName | src/ast/constant_value.cpp:210-329 | appends exactly the encoding of the value |
| ValueMangling.DecodeFromSymbolName | src/ast/constant_value.cpp:477-622 | the decoder that moves an iterator computes `Decode` |
| ValueMangling.DecodeElemsLoop | src/ast/constant_value.cpp:372-391 | the loop over counted elements computes `DecodeElems` and fails at the first missing dot or element |
| ValueMangling.DecodeNumbersLoop | src/ast/constant_value.cpp:393-475 | the loop over counted numbers computes `DecodeNumbers` |
| Alignment.RoundUp | src/ast/type_prototype.cpp:117-134 | the result is the least aligned number that is not smaller |
| Bitwise.MaskIsRemainder | src/ast/type_prototype.cpp:125 | the mask of `round_up` gives the remainder |
| Bitwise.PopCountIsOne | src/ast/type_prototype.cpp:124 | one bit is set exactly in the powers of two, which is what `round_up` asserts |
| Layout.GetTypeSizeInfo | src/ast/type_prototype.cpp:144-172 | the loop computes offsets, size, alignment and padding of the aggregate |
| Layout.OffsetsAreLeast | src/ast/type_prototype.cpp:144-172 | every offset is the least aligned position behind the element before it |
| Layout.ElementsAreApart | src/ast/type_prototype.cpp:144-172 | elements are in order, do not overlap and end inside the aggregate |
| Layout.SizeIsLeast | src/ast/type_prototype.cpp:144-172 | the size is positive and the least multiple of the largest alignment that holds the elements; without bytes it is one, of alignment one |
| Layout.ShrinksExactlyWhen | src/ast/type_prototype.cpp:164-171 | an element is aligned more strictly than its aggregate exactly when no element has a byte and one has an alignment above one |
| Layout.AlignmentIsKept | src/ast/type_prototype.cpp:164-171 | this does not happen to an element that contains no array of length zero |
| Layout.AlignmentCanShrink | src/ast/type_prototype.cpp:164-200 | it happens to the aggregate of an array of no `i64` |
| Layout.InfoOf | src/ast/type_prototype.cpp:174-200 | every type has an alignment of zero or a power of two, zero only without bytes, and a size that is a multiple of it; so the assertion in `round_up` never fails |
| Padding.FlagOfAggregate | src/ast/type_prototype.cpp:144-172 | the flag of an aggregate is set exactly when an element has padding or a byte lies in no element |
| Padding.FlagMeansHole | src/ast/type_prototype.h:130-144 | `has_padding` is true exactly when some byte of the deep layout is covered by no value, or an array of length zero has elements with such a byte |
| Padding.NoPaddingMeansCovered | src/ast/type_prototype.h:130-144 | without padding every byte is covered, and without empty arrays only then |
| TypePrototypes.SameRefSameShape | src/ast/type_prototype.cpp:174-200 | two prototypes of a set are the same object exactly when they are deeply structurally equal |
| TypePrototypes.PrototypeEqIsDeep | src/ast/type_prototype.h:148-169 | the one-level `operator ==` is deep equality in a set |
| TypePrototypes.StoredLayout | src/ast/type_prototype.cpp:174-200 | the stored size, alignment and padding are those of the deep structure |
| TypePrototypes.ShapeStays | src/ast/type_prototype.cpp:174-200 | earlier results keep their structure and layout when the set grows |
| TypePrototypeSet.PrototypeSet.constructor | src/ast/type_prototype.cpp:89-104 | the empty set is well formed |
| TypePrototypeSet.PrototypeSet.GetAggregateType | src/ast/type_prototype.cpp:174-186 | an existing prototype is returned without change, otherwise one is added; maps and list stay in agreement |
| TypePrototypeSet.PrototypeSet.GetArrayType | src/ast/type_prototype.cpp:188-200 | the same for arrays |
| TypePrototypeSet.AnswerHasShape | src/ast/type_prototype.cpp:174-200 | the prototype that answers a request has the requested structure |
| TypeLowering.GetTypePrototype | src/ast/typespec.cpp:988-1072 | lowering a type yields a prototype with the structure of the type, keeps the set well formed and all earlier prototypes |
| LoweringMeaning.BuiltinHasItsBits | src/ast/type_prototype.cpp:89-104 | a builtin type has the bytes that the bits in its name need, and is aligned to them |
| LoweringMeaning.OptionalHasFlag | src/ast/typespec.cpp:1055-1067 | an optional of anything but a pointer, reference or function has its type at offset zero, one byte for the flag right behind it, and is larger than the type |
| LoweringMeaning.PointersAreOnePointer | src/ast/typespec.cpp:1051-1067 | pointers, references, and optionals of pointers and lvalue references have the size and alignment of one pointer |
| LoweringMeaning.FunctionsAreOnePointer | src/ast/typespec.cpp:1011-1012 | so have functions and optional functions |
| LoweringMeaning.SliceIsTwoPointers | src/ast/typespec.cpp:1019-1024 | a slice is two pointers, one behind the other |
| LoweringMeaning.ArrayIsItsElements | src/ast/typespec.cpp:1013-1018 | an array has the size of its elements times their number, and their alignment |
| LoweringMeaning.TupleIsItsTypes | src/ast/typespec.cpp:1025-1032 | a tuple has one element for each of its types, in their order |
| LoweringMeaning.TupleIsPlaced | src/ast/typespec.cpp:1025-1032 | each element has the layout of its type and lies at the least aligned place behind the one before, inside the tuple |
| LoweringMeaning.DeclaredIsItsPrototype | src/ast/typespec.cpp:995-1008 | declared types have their prototype, enums that of their underlying type, and broken ones a single byte |
| LoweringMeaning.VoidIsNothing | src/ast/typespec.cpp:1009-1010 | `void` has no bytes |
| LoweringMeaning.AnswerHasBytes | src/ast/typespec.cpp:988-1072 | the prototype that answers a request stores the size, alignment and padding of that structure |
| TypeLowering.LowerShapeStays | src/ast/typespec.cpp:988-1072 | the structure of a type stays the same when prototypes are added and more declarations are resolved |
| TypeLowering.EqualTypesLowerAlike | src/ast/typespec.cpp:988-1072 | equal types have the same structure in memory |
| TypeLowering.QualifiersDoNotMatter | src/ast/typespec.cpp:1048-1051 | neither does any sequence of outer `mut` and `consteval` change it |
| TypeLowering.SamePrototype | src/ast/typespec.cpp:988-1072 | two requests at any moments, each with what is declared by then, get the same object exactly when the types have the same structure; so they do for equal types if the first declarations still say the same |
| SymbolTable.MeaningStep | src/ast/scope.cpp:26-303 | the closed description of what an id's declarations mean changes by one step with every declaration |
| SymbolTable.AmbiguousExactlyWhen | src/ast/scope.cpp:26-303 | an id is ambiguous exactly when it has several declarations that are not all functions, and then has at least two entries |
| SymbolTable.UniqueIsDeclared | src/ast/scope.cpp:26-303 | an unambiguous id stands for its one declaration, or for an overload set with exactly its functions on one side and its aliases on the other |
| SymbolTable.ManyAreDeclared | src/ast/scope.cpp:26-303 | the entries of an ambiguous id include every declaration that is no function, and the functions that came first |
| SymbolTable.AddMeans | src/ast/scope.cpp:7-303 | adding a declaration changes the meaning of its id by that step and of no other id; every stored index stays in range and owned by exactly one id |
| OperatorTable.SetIsDeclared | src/ast/scope.cpp:172-210 | an operator's set holds exactly its operators and exactly its aliases, and every declared operator has one |
| OperatorTable.ExtendMatches | src/ast/scope.cpp:172-210 | a known operator's set gets the declaration at its end |
| OperatorTable.AppendMatches | src/ast/scope.cpp:172-210 | an unknown operator gets a set of its own |
| GlobalScope.AddRefines | src/ast/scope.cpp:7-303 | after the declaration every lookup still means what the whole history says |
| GlobalScope.ReachedFromOneId | src/ast/scope.h:84-116 | every stored symbol is reachable from one id and from only one |
| GlobalScope.SymbolList.AddVariable | src/ast/scope.cpp:26-55 | the lookup of the given id, or of the declaration's own if none is given, moves by one step for a variable, and every other id means what it meant |
| GlobalScope.SymbolList.AddVariadicVariable | src/ast/scope.cpp:57-86 | the lookup of the given id, or of the declaration's own if none is given, moves by one step for a variadic variable with its expansions, and every other id means what it meant |
| GlobalScope.SymbolList.AddFunction | src/ast/scope.cpp:88-130 | the lookup of the given id, or of the declaration's own if none is given, moves by one step for a function, in a new set, an existing set or as a second entry, or dropped, and every other id means what it meant |
| GlobalScope.SymbolList.AddFunctionAlias | src/ast/scope.cpp:132-170 | the lookup of the given id, or of the declaration's own if none is given, moves by one step for a function alias, and every other id means what it meant |
| GlobalScope.SymbolList.AddTypeAlias | src/ast/scope.cpp:212-241 | the lookup of the given id, or of the declaration's own if none is given, moves by one step for a type alias, and every other id means what it meant |
| GlobalScope.SymbolList.AddStruct | src/ast/scope.cpp:243-272 | the lookup of the given id, or of the declaration's own if none is given, moves by one step for a struct, and every other id means what it meant |
| GlobalScope.SymbolList.AddEnum | src/ast/scope.cpp:274-303 | the lookup of the given id, or of the declaration's own if none is given, moves by one step for an enum, and every other id means what it meant |
| GlobalScope.SymbolList.AddOperator | src/ast/scope.cpp:172-210 | every operator has one set with exactly its declarations in order |
| GlobalScope.SymbolList.GetSymbolIndexById | src/ast/scope.cpp:305-316 | none, the index of the one entry, or ambiguous, as the history says |
| GlobalScope.SymbolList.GetAmbiguousSymbolsById | src/ast/scope.cpp:318-329 | the entries of an ambiguous id, at least two and different, and nothing for any other id |
| GlobalScope.Scope.AddVariable | src/ast/scope.cpp:331-338 | in the table of all symbols the given id, or the declaration's own if none is given, moves by one step and no other id does; so in the export table if the declaration is exported, which is unchanged otherwise |
| GlobalScope.Scope.AddVariadicVariable | src/ast/scope.cpp:340-351 | the same |
| GlobalScope.Scope.AddFunction | src/ast/scope.cpp:353-360 | the same |
| GlobalScope.Scope.AddFunctionAlias | src/ast/scope.cpp:362-369 | the same |
| GlobalScope.Scope.AddOperator | src/ast/scope.cpp:371-387 | both operator tables take the declaration in, the export table exactly if it is exported |
| GlobalScope.Scope.AddTypeAlias | src/ast/scope.cpp:389-396 | the same |
| GlobalScope.Scope.AddStruct | src/ast/scope.cpp:398-405 | the same |
| GlobalScope.Scope.AddEnum | src/ast/scope.cpp:407-414 | the same |
| TypeHash.GetHash | src/ast/typespec.cpp:442-493 | the loops compute the hash |
| TypeHash.HashOfErased | src/ast/typespec.cpp:442-493 | the hash does not see calling conventions |
| TypeHash.EqualTypesHashAlike | src/ast/typespec.cpp:442-493 | equal types have equal hashes, for any `std::hash` |
| TypeHash.EmptyTypeWithModifiers | src/ast/typespec.cpp:442-493 | that would be false if an empty type could have modifiers |
| ConstantValues.EqualIsSameCanonical | src/ast/constant_value.cpp:624-678 | constants are equal exactly when neither holds a NaN and they agree up to the sign of zeros and the calling conventions of types |
| ConstantValues.EqualIsIdentity | src/ast/constant_value.cpp:624-678 | without floating-point numbers and types, constants are equal only to themselves |
| FloatMeaning.EqualAsNumbers | src/ast/constant_value.cpp:638-641 | floating-point constants are equal exactly when they are the same infinity or finite IEEE 754 numbers of the same value |
| GenericParameters.GenericExactlyWhen | src/ast/statement.h:428-436 | a parameter is generic exactly when its type begins with `consteval` or some part of it, at any depth, leaves something open: `auto`, `typename`, an auto reference, a leading variadic, an array of size zero or a generic struct |
| GenericParameters.SameAnswerExactlyWhen | src/ast/statement.cpp:172-197 | two requests at any moments get the same specialization exactly when their parameters have equal types and, where the type takes one, equal constants |
| GenericParameters.DifferentConstants | src/ast/statement.cpp:172-197 | requests that differ in such a constant never get the same specialization |
| GenericParameters.OtherInitializers | src/ast/statement.cpp:172-197 | the initializer of any other parameter does not matter |
| GenericParameters.FailsExactlyWhen | src/ast/statement.cpp:179-182 | a request fails exactly when a generic parameter has an erroneous argument |
| Specializations.GenericErased | src/ast/statement.h:428-436 | whether a parameter is generic depends on nothing that equality ignores |
| Specializations.ParamEqualTo | src/ast/statement.h:823-852 | the comparison is element-wise, and its assertions hold |
| Specializations.ParamsEqIsSameKeys | src/ast/statement.h:823-852 | parameters are equal exactly when no generic one holds a NaN and their keys agree |
| Specializations.ParamHash | src/ast/statement.h:811-821 | the loop computes the hash of the parameters |
| Specializations.EqualParamsHashAlike | src/ast/statement.h:811-852 | equal parameters have equal hashes |
| Specializations.OnlyOneFits | src/ast/statement.cpp:172-197 | no two specializations fit the same request |
| Specializations.AskedAgain | src/ast/statement.cpp:172-197 | asking again at any later moment gives the same body exactly when no generic parameter holds a NaN |
| Specializations.NaNIsNeverFound | src/ast/statement.cpp:172-197 | parameters with a NaN in a generic one make a new specialization every time |
| SpecializationCache.FitIsInBucket | src/ast/statement.h:854-859 | a specialization that fits is in the bucket that is searched |
| SpecializationCache.FunctionBody.Find | src/ast/statement.cpp:184-187 | the hashed search finds what a linear search finds |
| SpecializationCache.FunctionBody.AddSpecializedBody | src/ast/statement.cpp:172-197 | nothing for an erroneous argument, otherwise the specialization that a plain list would give; no two ever have equal parameters |
| SpecializationCache.TypeInfo.AddGenericInstantiation | src/ast/statement.cpp:473-526 | the plain list of instantiations gives the same answers |
| Utf8.EncodeRoundTrip | include/bz/u8string.h:420-503 | decoding one encoded character gives it back |
| Utf8.RoundTrip | include/bz/u8string.h:420-503 | any sequence of values below 2^21 encodes to bytes that `verify` accepts and an iterator reads back |
| Utf8.Verify | include/bz/u8string_view.h:237-327 | accepts exactly the strings made of the four byte patterns |
| Utf8.VerifiedIsConcat | include/bz/u8string_view.h:237-327 | these are exactly the concatenations of the patterns |
| Utf8.StandardExactlyWhen | include/bz/u8string_view.h:237-327 | a pattern is one of section 4 of RFC 3629 exactly when it is the shortest encoding of a code point up to U+10FFFF that is no surrogate |
| Utf8.StandardStringExactlyWhen | include/bz/u8string_view.h:237-327 | the strings of section 4 of RFC 3629 are exactly the accepted ones that encode such code points in shortest form |
| Utf8.AcceptedBeyondStandard | include/bz/u8string_view.h:237-327 | an overlong form, a surrogate and a value above U+10FFFF that are accepted |
| Utf8.EncodedBits | include/bz/u8string.h:420-503 | the number of bytes of a character and the bits of all but its first byte, in order |
| Utf8.HeadBits | include/bz/u8string.h:420-503 | the bits and the mark of its first byte |
| Utf8.DecodedBits | include/bz/u8string_view.h:95-129 | the iterator puts the bits of the bytes together in their order |
| Utf8.EncoderMasks | include/bz/u8string.h:420-503 | the masked and shifted bytes of the encoder are the ones that the model writes with quotients and remainders |
| Utf8.DecoderMasks | include/bz/u8string_view.h:103-109 | so are the parts that the iterator puts together, for two bytes |
| Utf8.DecoderMasksThree | include/bz/u8string_view.h:110-118 | for three bytes |
| Utf8.DecoderMasksFour | include/bz/u8string_view.h:119-129 | for four bytes |
| Utf8.ContinuationMask | include/bz/u8string_view.h:237-327 | so are the tests of single bytes |
| Utf8.Length | include/bz/u8string_view.h:220-234 | on an accepted string, the number of steps of an iterator |
| Utf8.Iterate | include/bz/u8string_view.h:64-129 | walking over an accepted string stays inside it and ends at its end |
| Utf8Search.ReadsInsideExactlyWhen | include/bz/u8string_view.h:429-444 | no comparison reads behind the end exactly when the string does not end in the middle of the bytes that are looked for |
| Utf8Search.VerifiedIsNotCutOff | include/bz/u8string_view.h:429-444 | no verified string does |
| Utf8Search.MatchIsOccurrence | include/bz/u8string_view.h:391-464 | in a string of characters of any accepted form, bytes of a character are found exactly where a character with these bytes begins |
| Utf8Search.LeadIsBoundary | include/bz/u8string_view.h:429-444 | a byte that can begin the character is at the beginning of a character of the same size |
| Utf8Search.EncodedIsShortestForm | include/bz/u8string.h:420-503 | strings made by appending characters are in shortest form and have these characters |
| Utf8Search.MatchIsCodePoint | include/bz/u8string_view.h:391-464 | in shortest form, the bytes of a code point are found exactly where that code point is |
| Utf8Search.FindLeavesExactlyWhen | include/bz/u8string_view.h:391-464 | `find` reads behind the end exactly when the string is cut off inside the character with no match before |
| Utf8Search.FindStays | include/bz/u8string_view.h:391-464 | it does not on verified strings, nor on any bytes for an ASCII character |
| Utf8Search.Find | include/bz/u8string_view.h:391-464 | if it does not read behind the end: the first match at or after the start, or the end |
| Utf8Search.RfindMeets | include/bz/u8string_view.h:557-623 | `rfind` comes to any place where it reads behind the end before it finds a match |
| Utf8Search.Rfind | include/bz/u8string_view.h:557-623 | otherwise the last match, or null |
| Utf8Search.EraseMeets | include/bz/u8string.h:548-642 | `erase` jumps over no place where it reads behind the end |
| Utf8Search.EraseIsWithout | include/bz/u8string.h:548-642 | in a string of characters of any accepted form, the byte-level scan leaves exactly the characters with other bytes, in order |
| Utf8Search.EraseIsWithoutCodePoint | include/bz/u8string.h:548-642 | in shortest form these are the other code points |
| Utf8Search.EraseInPlace | include/bz/u8string.h:548-642 | if it does not read behind the end, the loop in the buffer leaves what the scan leaves |
| Utf8Reverse.ReversedTwice | include/bz/u8string.h:706-727 | reversing twice gives the original bytes |
| Utf8Reverse.ReversedIsVerified | include/bz/u8string.h:706-727 | a verified string stays verified, with as many characters |
| Utf8Reverse.ReversedExactlyWhen | include/bz/u8string.h:706-727 | the characters of a verified string come out in reverse order exactly when every maximal run outside ASCII is a palindrome |
| Utf8Reverse.ReversedCharacters | include/bz/u8string.h:706-727 | so they do without two neighbouring characters outside ASCII |
| Utf8Reverse.RunsAreKept | include/bz/u8string.h:706-727 | any two different characters outside ASCII alone in a string stay as they are |
| Utf8Reverse.Reverse | include/bz/u8string.h:706-727 | the in-place loops compute that reversal |
| U8Strings.U8String.Reserve | include/bz/u8string.h:374-387 | room for the capacity, the same contents, the same storage if it had the room, and otherwise the least power of two |
| U8Strings.U8String.Resize | include/bz/u8string.h:389-418 | cuts the contents or fills them up with zeros |
| U8Strings.U8String.AppendChar | include/bz/u8string.h:420-503 | appends the encoding of a value below 2^21 and nothing for others |
| U8Strings.U8String.Append | include/bz/u8string.h:505-523 | appends the bytes |
| U8Strings.U8String.Clear | include/bz/u8string.h:536-546 | empty, in the same storage |
| U8Strings.U8String.Erase | include/bz/u8string.h:548-642 | in either representation, leaves the characters with other bytes of a verified string, and the other code points of one in shortest form |
| U8Strings.U8String.ReverseContents | include/bz/u8string.h:706-727 | reverses in either representation |
| U8Strings.U8String.InitFromView | include/bz/u8string.h:163-182 | construction from a view has its bytes |
| U8Strings.U8String.CopyInto | include/bz/u8string.h:131-153 | a copy has the same bytes and shares no storage |
| U8Strings.U8String.Assign | include/bz/u8string.h:274-303 | copy assignment, also to itself |
| U8Strings.U8String.MoveAssign | include/bz/u8string.h:305-317 | takes the storage over and leaves an empty string |
| U8Strings.U8String.AssignView | include/bz/u8string.h:319-339 | assignment of a view |
| Arena.RoundUpToAlignment | src/ast/allocator.cpp:67-72 | the next multiple of the alignment |
| Arena.ArenaAllocator.SizedAllocate | src/ast/allocator.cpp:74-149 | a block of more than a megabyte gets a node of its own in front, any other goes behind the used part of the last node or into a new last node if it does not fit; the new block is added to blocks that are aligned, in bounds and pairwise disjoint; links stay mutually inverse, node sizes add up to the rounded requests, and the last node never has a successor |
| Arena.BlocksAreUsable | src/ast/allocator.cpp:74-149 | every block is aligned and inside its node, and no two share a byte |
| Arena.NewNodeKeeps | src/ast/allocator.cpp:78-119 | a new node at either end keeps that |
| Arena.BumpKeeps | src/ast/allocator.cpp:120-125 | so does a block behind the used part of the last node |
| EscapeSequences.VerifyEscapeSequence | src/escape_sequences.h:249-293 | nothing is reported exactly when there is a well-formed sequence with a valid value |
| EscapeSequences.GetEscapeSequence | src/escape_sequences.h:295-310 | from a place where nothing was reported: stays inside the string, meets its assertions, consumes the same characters and gives a valid code point |
| EscapeSequences.AddEscapeSequences | src/escape_sequences.h:312-339 | the loop appends the escaped form of every character |
| EscapeMeaning.ShortEscapes | src/escape_sequences.h:224-232 | the letters, the backslash and the quotes stand for the characters that they stand for in C++ |
| EscapeMeaning.HexEscapes | src/escape_sequences.h:233 | `x` and two digits stand for every value below 0x80, and for nothing above |
| EscapeMeaning.UnicodeEscapes | src/escape_sequences.h:234-235 | `u` and four digits, and `U` and eight, stand for every code point that is no surrogate, and for nothing else |
| EscapeMeaning.NothingElse | src/escape_sequences.h:249-293 | any other character and too few digits stand for nothing |
| EscapeMeaning.ShortPrinted | src/escape_sequences.h:312-339 | those characters are printed with their letters |
| EscapeMeaning.OthersPrinted | src/escape_sequences.h:312-339 | other control characters are printed with two digits, and every other character as it is |
| EscapeSequences.RoundTrip | src/escape_sequences.h:312-339 | reading the escaped form gives the string back |

## Left out

- Code generation inside `call_function`: bodies of called functions are generated on first use; the model has them all from the start.
- The instructions of the virtual machine: what an operation computes, whether it reports an error, which function a pointer names, and whether the memory manager can lay out a frame are inputs of a step; operands are modelled where they decide about control flow or are returned. The switch on strings is not modelled. `check_memory_leaks` and the conversion of the result are not modelled.
- Diagnostics: an error is the fact that one was reported; notes, highlights and suggestions are not modelled.
- The text that the lexer generator prints: it is modelled as the tree of switches it stands for. The actual token table is not repeated.
- The symbols of constructors and destructors (src/ast/statement.cpp:86-107): they begin with the decoded name of a type.
- The text of decoded constants: the decoder is modelled up to the payload it recovers, not up to the formatting of numbers.
- The type forms that the type decoder does not read back are excluded by an exact condition, not left out.
- 64-bit overflow of sizes in the layout, and 32-bit truncation of symbol indices.
- `std::hash` of addresses and sizes is an arbitrary function; the number of buckets of the specialization map is fixed, so rehashing by the standard library is not modelled, and a stored key is assumed not to change.
- The hash functions of the two maps of the prototype set: both hash exactly what they compare.
- Local scopes and `make_global_scope`: only the global tables are modelled.
- FunctionMangling.SameSymbolSameSignature: its condition is sufficient but not necessary, because it lets types and values stand in any order behind a constant; for lists of values the condition is exact (`ValueUniqueness.ListsAreUniqueExactlyWhen`).
- Utf8Search.Find: where it reads behind the end of the string, nothing is said of the result. The same for `Rfind`, `EraseInPlace` and `U8String.Erase`. Values above 2^21 - 1, for which there is no encoding, are not looked for.
- `u8string(length, c)` for characters of several bytes: it reserves no space. Searches for strings, `find_any`, `substring` and comparisons are not modelled.
- Freeing memory, failing allocations and appending a string to itself.
- The bytes of a short string and the two pointers they overlay are separate fields of the model.
