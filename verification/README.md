# Verification of Tenzor's self-contained algorithms

Tenzor is a tensor library; around its engine stand generators, source rewriters, checkers and border code
that are algorithms in their own right. This project models those algorithms in Dafny, one module per source
file or component, and proves what each of them is for. `dafny verify dfyconfig.toml` checks everything.

| module | what it models |
|---|---|
| `GlslUint` | 32-bit unsigned arithmetic of GLSL: wrapping sum, shifts by 0 and 16, bitwise and, or, not |
| `BFloat16` | the emitted rounding, packing and unpacking of bfloat16, against the real values of the patterns |
| `HalfWordStore` | the emitted `writeBF16Element`: its compare-and-swap loop and its plain variant, in every interleaving |
| `CallScanner`, `CallCounts` | the scan of a call's arguments, and what it finds, said by counting |
| `DeviceArg`, `DeviceArgCalls`, `DeviceArgProofs`, `DeviceArgRescan`, `DeviceArgPasses`, `DeviceArgNesting` | the rewriter that gives parity-test calls a `device` argument |
| `DeviceArgEdits`, `DeviceArgSecondPass`, `DeviceArgTwoPasses`, `DeviceArgComments` | what its two passes together do to a call, exactly |
| `DeviceArgAngles` | the angle-aware scan its documentation describes, against the one it makes |
| `CommentBlanker`, `CppComments` | the C++ comment blanker of the skip counter, as a lexer and as its pattern, against comments as C++ reads them |
| `CppText`, `Wrappers` | helpers shared by the modules |
| `PythonText`, `ArgSplitter`, `ToleranceBaseline` | the tolerance audit: argument splitting, baseline file, strict and clean gates |
| `ProtoSpec` | the wire-format checker: block parser (with the message objects its stack and its result share) and comparison |
| `NumpyView` | zero-copy export to and import from NumPy in checked 64-bit arithmetic |
| `BorderOwnership` | storage counts and DLPack handles at the borders to NumPy and PyTorch |
| `CudaDeviceGuard`, `TorchDeviceString` | the device guard of the PyTorch border, and PyTorch's device strings |
| `MaxPool` | the six loops of the benchmark's max pooling |
| `ShaderEmbed` | shader bytes to a C++ array, and a reader for such an array |
| `NestedValues` | flattening with a stack, and the largest difference |
| `Coverage` | line counting, the best record per source, sums by subsystem |

Code that loops or changes state is a method or a class whose contract gives its result as a function of its
input or old state; the properties are lemmas about those functions. Pure code is functions.

## Where the code does not do what its text promises

Each of these is a lemma; the code is modelled as it is.

- The rewriter's documentation says that commas in `vector<T, U>` are skipped over; the angle depth is never
  changed, so they separate. The arguments found are the documented ones exactly if no separating comma stands in
  an angle bracket (`DeviceArgAngles.ArgumentsAreDocumented`, `DeviceArgAngles.SpliceIsDocumented`).
- White space between a function's name and its parenthesis is dropped, so undoing an insertion restores the
  file exactly if no rewritten call had any (`DeviceArgProofs.UndoByNameExactly`).
- A name inside a comment is taken for a call. For all names, a call with such a comment among its arguments gets
  `device` from both passes (`DeviceArgComments.CommentedNameSplicesTwice`). A call gains one argument for every
  rewritten call whose second comma separates its own arguments, and none otherwise
  (`DeviceArgTwoPasses.TwoPassesCount`). A line break between such a name and its parenthesis is dropped with the
  white space, which joins a line comment with the code behind it (`DeviceArgSecondPass.LineBreakJoinsComment`).
- For the comment blanker a digit separator opens a character literal, a quote inside a raw string opens or closes
  a string, and a quote left open on its line (an apostrophe in `#error` text, say) is closed by one on a later
  line, so a comment can stay. It is right exactly if no C++ comment starts inside what its pattern takes for a
  literal, and no comment of the pattern inside a C++ literal (`CppComments.BlankingIsRightExactly`). That holds for
  every text whose numbers pair their separators, whose raw strings hold neither quotes nor backslashes, and whose
  quotes close on their line or not at all (`CppComments.OrdinaryIsRight`).
- `<` counts as a bracket for the argument splitter, so a comparison hides a comma
  (`ArgSplitter.LessThanHidesComma`).
- The proto parser knows no enum inside a message; the enum's closing brace ends the message
  (`ProtoSpec.UnknownBlockEndsMessage`, and in nested messages `ProtoSpec.BlockInMessage`). When the tables are still
  right, for an enum at any depth, is stated by `ProtoSpec.CutMessageIsRightExactly`.
- The wire type it expects for a field whose type is an enum by name is that of a message
  (`ProtoSpec.WireIsProtobufs`).
- Rounding can turn a NaN into an infinity or a zero (`BFloat16.NaNKeptExactly`, `BFloat16.NaNLost`).
- Two plain writers of one word can lose a store (`HalfWordStore.PlainWritersCanLoseAStore`); when they do not is
  stated by `HalfWordStore.PlainStoresLandExactly`.
- A DLPack handle wrapped around a null buffer, as an empty tensor has one, is never released, because the
  storage runs its deleter only for a buffer that is not null; and one whose import throws after a storage took
  its deleter is released twice, by the storage and by the caller (`BorderOwnership.HandleIsReleasedOnce`).
- An export that throws after taking its reference loses it (`BorderOwnership.OnlyLostTicketsLeak`).
- A device index above the largest int raises the number parser's exception, not the documented one
  (`TorchDeviceString.AcceptedStrings`).
- Max pooling takes one window that sticks out of the input if the kernel is larger by less than the stride
  (`MaxPool.WindowsFitExactly`).
- The comparison of nested values does not compare their nesting (`NestedValues.ShapeIsNotCompared`).

The NumPy export promises and makes only the check of the farthest element. It relies on an offset that is not
negative (`NumpyView.ViewIsSafeExactly`), which is guarded elsewhere: `as_strided` refuses a negative one
(src/ops/transform.cpp:1056), and a slice starts inside its dimension (src/core/tensor.cpp:2170-2181).

## Model

| member | source | states |
|---|---|---|
| BFloat16.RoundBitsIsRoundTiesToEven | scripts/generate_bf16_shaders.py:24-31 | for every float32 pattern that is no NaN, a pattern is what the conversion yields if and only if it is roundTiesToEven (IEEE 754-2019, section 4.3.1) of the real value: no bfloat16 value is nearer, ties have an even significand; subnormals, binade edges and overflow to infinity included |
| BFloat16.OverflowThreshold | scripts/generate_bf16_shaders.py:24-31 | a finite value rounds to infinity exactly from the midpoint above the largest finite bfloat16 on |
| BFloat16.RoundingIsMonotone | scripts/generate_bf16_shaders.py:24-31 | rounding keeps the order of real values |
| BFloat16.SignCommutes | scripts/generate_bf16_shaders.py:24-31 | flipping the sign bit before or after rounding is the same |
| BFloat16.RoundBitsIs | scripts/generate_bf16_shaders.py:28-29 | the 32-bit sum wraps exactly from 0xFFFF8000 on, and what the conversion is on either side |
| BFloat16.RoundingFixesBFloat16 | scripts/generate_bf16_shaders.py:24-31 | every widened bfloat16, NaN patterns included, rounds to itself |
| BFloat16.PackUnpack | scripts/generate_bf16_shaders.py:251-267 | packing what was unpacked gives back every 32-bit word |
| BFloat16.UnpackPack | scripts/generate_bf16_shaders.py:251-267 | unpacking what was packed gives each component, rounded independently of the other |
| BFloat16.ReadAgreesWithUnpack | scripts/generate_bf16_shaders.py:18-22 | `readBF16` and `unpackBF16x2` agree on both halves of every word |
| BFloat16.NaNKeptExactly | scripts/generate_bf16_shaders.py:28-29 | exactly which NaN patterns stay NaN |
| BFloat16.NaNLost | scripts/generate_bf16_shaders.py:28-29 | concrete NaN patterns that do not |
| HalfWordStore.WriteElementAtomic | scripts/generate_bf16_shaders.py:214-230 | the emitted loop on a buffer word, against any interference, ends as the step-by-step account of one invocation says; other words stay |
| HalfWordStore.WriteElementPlain | scripts/generate_bf16_shaders.py:231-245 | alone, the plain variant stores the rounded bits in its half and keeps the other half and all other words |
| HalfWordStore.NewWordHalves | scripts/generate_bf16_shaders.py:225 | a merged word has the new bits in its own half and the old ones in the other |
| HalfWordStore.LandingChangesOwnHalfOnly | scripts/generate_bf16_shaders.py:225-227 | a successful compare-and-swap changes nothing but its own half; any other step of an atomic invocation leaves the word alone |
| HalfWordStore.HalvesHoldLastStore | scripts/generate_bf16_shaders.py:223-229 | after every run each half holds the bits of the last store that landed in it, or its initial bits |
| HalfWordStore.LandsOnce | scripts/generate_bf16_shaders.py:227 | an invocation lands at most once |
| HalfWordStore.FailuresHaveRivals | scripts/generate_bf16_shaders.py:223-229 | the failed attempts of one invocation map one to one to distinct successful swaps by others |
| HalfWordStore.TurnsAreCounted | scripts/generate_bf16_shaders.py:224 | the attempt counter is the number of compare-and-swaps made |
| HalfWordStore.LoopIsBounded | scripts/generate_bf16_shaders.py:224 | no invocation makes more than 1024 of them |
| HalfWordStore.GivingUpNeedsRivals | scripts/generate_bf16_shaders.py:223-229 | an invocation that gives up met at least 1024 competing successful stores |
| HalfWordStore.NoStoreIsLost | scripts/generate_bf16_shaders.py:214-230 | with at most one writer per half, once all returned through a swap that succeeded, each half holds its writer's bits and an unwritten half its initial bits |
| HalfWordStore.PlainStoresLandExactly | scripts/generate_bf16_shaders.py:231-245 | for every run of plain writers, one per half, that all returned: each half holds its writer's bits if and only if every store that falls between another writer's load and store writes bits the word held from the start |
| HalfWordStore.PlainWritersCanLoseAStore | scripts/generate_bf16_shaders.py:238-244 | an interleaving of two plain writers that loses a store |
| HalfWordStore.AloneTheFirstAttemptLands | scripts/generate_bf16_shaders.py:223-227 | without interference the first attempt lands |
| HalfWordStore.LoopLandsUnlessDisturbed | scripts/generate_bf16_shaders.py:224-229 | the loop lands if one attempt finds the word it expects |
| HalfWordStore.ReadBack | scripts/generate_bf16_shaders.py:18-22 | after a store was merged into any word, the emitted reader finds the stored value, rounded, in its half, and the other half as before |
| CallScanner.ScanArguments | tools/refactor_parity_tests.py:122-175 | the argument walk finds the separating commas and the end that the recursive scan defines |
| CallScanner.SkipLiteralOrComment | tools/refactor_parity_tests.py:131-155 | the three skipping loops stop where the literal or comment ends |
| CallCounts.SkippedIs | tools/refactor_parity_tests.py:131-155 | what is skipped is exactly a literal up to its closing quote, a line comment up to the end of its line, or a block comment up to its first close |
| CallCounts.CallByCounting | tools/refactor_parity_tests.py:123-175 | said by counting characters that stand as code: a comma separates arguments of a call if and only if as many parentheses, braces and brackets were closed as opened before it, and the call ends at the first parenthesis that closes more |
| CallScanner.CommasInOrder | tools/refactor_parity_tests.py:129-175 | the commas found are commas, in increasing order, before the closing parenthesis |
| CallScanner.ReplayToComma | tools/refactor_parity_tests.py:129-175 | compositionality: text copied up to a top-level comma scans alike wherever it stands |
| CallScanner.ReplayToEnd | tools/refactor_parity_tests.py:129-175 | the same up to the closing parenthesis |
| DeviceArg.InsertDeviceArg | tools/refactor_parity_tests.py:93-198 | the two nested loops terminate and produce the rewriting that the segments define |
| DeviceArgCalls.CallsRewritten | tools/refactor_parity_tests.py:112-181 | for every place: a call of the name, as a word of its own with white space at most before its parenthesis, is rewritten if and only if it closes, has three arguments (four to replace one) and stands in no rewritten call; nothing else is |
| DeviceArgCalls.SpansAreSites | tools/refactor_parity_tests.py:112-198 | those are the calls the results about the output speak of |
| DeviceArgProofs.SegmentsTile | tools/refactor_parity_tests.py:114-197 | the pieces taken from the input tile it: put back together they are the whole text |
| DeviceArgProofs.UndoByNameExactly | tools/refactor_parity_tests.py:182-196 | removing the insertions and renaming back gives the file verbatim if and only if no rewritten call had white space behind its name |
| DeviceArgProofs.SpaceIsDropped | tools/refactor_parity_tests.py:183-185 | a text that undoing does not restore, because of such white space |
| DeviceArgProofs.NothingToRewrite | tools/refactor_parity_tests.py:177-181 | a file whose calls all have too few arguments is left as it is |
| DeviceArgRescan.RescanInPlace | tools/refactor_parity_tests.py:182-196 | in any surroundings, re-scanning a rewritten call yields the old arguments with `device` at index 2, inserted or in place of the third, whatever nesting, strings, escapes or comments they contain; it ends at the old parenthesis |
| DeviceArgAngles.AngleScanIsOutside | tools/refactor_parity_tests.py:105-107 | the documented scan ends where the real one does and finds exactly those of its commas that stand in no angle bracket |
| DeviceArgAngles.ArgumentsAreDocumented | tools/refactor_parity_tests.py:105-107 | for every text and call, the arguments found are the documented ones if and only if no separating comma stands in an angle bracket |
| DeviceArgAngles.SpliceIsDocumented | tools/refactor_parity_tests.py:186-196 | the splice uses the documented commas if and only if none of those it uses stands in an angle bracket |
| DeviceArgRescan.TemplateCommaSeparates | tools/refactor_parity_tests.py:105-107 | an example of a template argument list that is cut at its comma |
| DeviceArgPasses.EveryRewrittenCallRescans | tools/refactor_parity_tests.py:114-198 | that holds for every rewritten call at its place in the whole output |
| DeviceArgPasses.SitesInOrder | tools/refactor_parity_tests.py:114-197 | the rewritten calls lie one behind the other, in the input and in the output |
| DeviceArgPasses.StrictPasses | tools/refactor_parity_tests.py:242-246 | the two passes, one on the other's output |
| DeviceArgPasses.NoCallSplicedTwice | tools/refactor_parity_tests.py:242-246 | for two different identifiers, a second pass never takes a call the first one wrote for a call of its own name |
| DeviceArgEdits.ScanAcross | tools/refactor_parity_tests.py:129-175 | replacing a stretch of quiet characters changes a scan across it only by the commas of the stretch, and only if it is reached at the top level |
| DeviceArgSecondPass.PassCounts | tools/refactor_parity_tests.py:111-198 | after a whole pass every call of the text, wherever it stands and whatever contains it, if no line break of a rewritten head joins a comment of it with its code, still closes and has one argument more for every rewritten call whose second comma separates its own arguments |
| DeviceArgSecondPass.PassKeepsName | tools/refactor_parity_tests.py:182-197 | and a call by the new name is one by that name at its new place |
| DeviceArgSecondPass.LineBreakJoinsComment | tools/refactor_parity_tests.py:113-115 | an example without that condition: a call with one argument and no part in the second comma has four after the rewriting and closes one parenthesis early |
| DeviceArgTwoPasses.TwoPassesCount | tools/refactor_parity_tests.py:242-246 | after both passes a call of the first one is a call by the new name, has exactly that many arguments more, and with none of them ` device` still at index 2 |
| DeviceArgTwoPasses.TwoPassesSpliceOnce | tools/refactor_parity_tests.py:242-246 | if the second pass's calls inside it are reached as code, and those around it splice outside it, a call of the first pass keeps its argument count and its ` device` at index 2 |
| DeviceArgTwoPasses.EnclosingCallIsApart | tools/refactor_parity_tests.py:156-175 | a call around it that reaches it as code splices outside it |
| DeviceArgTwoPasses.StrictPassesSpliceOnce | tools/refactor_parity_tests.py:242-246 | both statements for the tool's own names |
| DeviceArgComments.CommentedNameSplicesTwice | tools/refactor_parity_tests.py:242-246 | for all names, a call with the second name in a comment has two `device` arguments after both passes |
| DeviceArgNesting.OuterCallKeepsItsArguments | tools/refactor_parity_tests.py:156-175 | rewriting one call that is reached as code among the arguments of another leaves the outer call its argument count, under any new name |
| DeviceArgNesting.CommentedNameAddsAnArgument | tools/refactor_parity_tests.py:113-115 | an example of a name inside a comment that adds an argument to the call around it |
| CommentBlanker.LexerIsPattern | scripts/count_skips.py:315-321 | the lexer's token at a position is exactly what the pattern matches there: a closed literal, a block comment up to its first close, a line comment up to the end of its line; and none where the pattern matches nothing |
| CommentBlanker.OnlyCommentsChange | scripts/count_skips.py:324-334 | length and line breaks stay; a character changes exactly if it stands in a comment and is neither a line break nor a space, and becomes a space |
| CommentBlanker.LiteralStaysLiteral | scripts/count_skips.py:332 | a literal stays, and stays a literal, whatever it contains |
| CommentBlanker.StillUnclosed | scripts/count_skips.py:324-334 | blanking comments gives no unterminated quote a partner |
| CommentBlanker.StripIsIdempotent | scripts/count_skips.py:324-334 | blanking twice is blanking once, on every text, unterminated quotes and comments included |
| CommentBlanker.DigitSeparatorShieldsComment | scripts/count_skips.py:315-318 | an example of a comment between two digit separators that stays |
| CppComments.BlankingIsRightExactly | scripts/count_skips.py:315-334 | for every text, exactly the C++ comments are blanked if and only if no C++ comment starts inside a literal of the pattern and no comment of the pattern inside a C++ literal |
| CppComments.InStepIsRight | scripts/count_skips.py:315-334 | the blanker is right on every text where the pattern passes each number, word and raw string of C++ in whole tokens |
| CppComments.OrdinaryIsRight | scripts/count_skips.py:315-334 | and so on every text whose numbers pair their separators, whose raw strings hold neither quotes nor backslashes, and whose quotes close on their line or not at all |
| CppComments.StrayLiteralShieldsComment | scripts/count_skips.py:315-334 | every C++ comment that starts inside what the pattern takes for a literal stays |
| CppComments.RawStringShieldsComment | scripts/count_skips.py:315-318 | an example with a raw string |
| CppComments.OpenQuoteShieldsComment | scripts/count_skips.py:315-318 | an example with a quote left open on its line |
| ArgSplitter.SplitTopLevelArgs | tools/audit_tolerances.py:96-129 | the loop returns the stripped pieces that the bracket depths define |
| ArgSplitter.DepthIsCount | tools/audit_tolerances.py:101-118 | the bracket depth is the number of opening brackets of all four kinds less that of the closing ones, arrows left aside |
| ArgSplitter.JoinGivesBack | tools/audit_tolerances.py:101-128 | the pieces before stripping rejoin with commas to the text if and only if it has no unmatched closing bracket before its last character and does not end in a top-level comma |
| ArgSplitter.SplitGivesBack | tools/audit_tolerances.py:101-128 | splitting gives back the pieces a text was joined from if and only if all but the last are balanced without top-level comma and the last is not cut or dropped |
| ArgSplitter.ThirdArgument | tools/audit_tolerances.py:98-100 | the third argument of a comparison is found, whatever the first two contain, if their brackets match |
| ArgSplitter.LessThanHidesComma | tools/audit_tolerances.py:108-117 | an arrow is no bracket, a less-than sign is one |
| ToleranceBaseline.LoadBaseline | tools/audit_tolerances.py:207-220 | the loading loop returns the stripped lines that are neither empty nor comments |
| ToleranceBaseline.LoadedAreClean | tools/audit_tolerances.py:207-220 | whatever a file contains, every token read is non-empty, stripped, on one line and no comment |
| ToleranceBaseline.WrittenIsLoaded | tools/audit_tolerances.py:279-296 | reading a written baseline gives back its tokens, in whatever order they were written, if and only if every token is so |
| ToleranceBaseline.ViolationTokenIsClean | tools/audit_tolerances.py:223-233 | exactly which violation tokens are |
| ToleranceBaseline.ViolationTokenIsInjective | tools/audit_tolerances.py:223-233 | different violations have different tokens if test name and value hold no bar |
| ToleranceBaseline.Audit | tools/audit_tolerances.py:264-380 | one run: exit code 2 without root; an update rewrites the baseline and passes; otherwise 0 if and only if, under the clean gate, every token loaded is still a violation and, under the strict gate, every violation is loaded, and else 1 |
| ToleranceBaseline.UpdateThenBothGates | tools/audit_tolerances.py:279-343 | right after an update both gates pass if and only if the tokens survive the file format |
| ToleranceBaseline.BaselineIsStable | tools/audit_tolerances.py:207-220 | writing what was read changes nothing |
| ProtoSpec.ParseProto | tools/check_tensorboard_wire_format.py:136-216 | the parsing loop, with message objects shared by stack and result, computes the tables of the state machine |
| ProtoSpec.ParseOfPrint | tools/check_tensorboard_wire_format.py:136-216 | for every properly nested tree, printed one construct per line, the result holds for each outermost message exactly its own and its oneofs' fields, never those of nested messages |
| ProtoSpec.RunBody | tools/check_tensorboard_wire_format.py:157-214 | inside any message, at any depth, the lines of a body fill that message with its direct fields and change nothing else |
| ProtoSpec.FillHoldsLast | tools/check_tensorboard_wire_format.py:190-214 | a number is declared if a field carries it, and the last such field gives name and wire type, the latter as protobuf encodes it with every user's type taken for a message |
| ProtoSpec.CollectHoldsLast | tools/check_tensorboard_wire_format.py:164-172 | a name is found if an outermost message has it, and the last such message gives the fields |
| ProtoSpec.BlockInMessage | tools/check_tensorboard_wire_format.py:178-186 | inside any open message, an enum at any depth of an item ends the message it stands in; what follows it there is read into the message around, and the closing brace then ends that one |
| ProtoSpec.UnknownBlockEndsMessage | tools/check_tensorboard_wire_format.py:136-216 | the tables of a whole file any of whose messages hold enums, at any depth: what follows the first item with an enum in an outermost message is read as if it stood outside, and so on |
| ProtoSpec.CutMessageIsRightExactly | tools/check_tensorboard_wire_format.py:136-216 | with one such message anywhere in a file, all tables are the intended ones if and only if that message was read with all its fields or is hidden by one of its name with the same fields or behind it, and every message of it now outside hides no other table; without repeated names: none is outside and no field is missing |
| ProtoSpec.WireTypes | tools/check_tensorboard_wire_format.py:76-99 | the wire type of every declaration, maps and packed lists included, by literal lists of type names |
| ProtoSpec.WireIsProtobufs | tools/check_tensorboard_wire_format.py:76-99 | it is that of the protobuf encoding if and only if the field has no user's enum for its type, or is a packed list |
| ProtoSpec.Check | tools/check_tensorboard_wire_format.py:306-361 | the failures counted: one for a missing message or encoder, else the number of distinct pairs whose number the message lacks or declares with another wire type |
| ProtoSpec.CheckIsAgreement | tools/check_tensorboard_wire_format.py:306-361 | from file to verdict: no failure if and only if both required messages exist, the encoder emits something for each, and every emitted pair of number and wire type is declared so by the message |
| NumpyView.CreateNumpyArray | python/numpy_interop.cpp:355-461 | the loops compute the export decision: overflow, no-copy error, copy, or view with start and byte strides |
| NumpyView.ViewIsInBounds | python/numpy_interop.cpp:379-461 | a view of a tensor with non-negative offset: every index of the shape addresses exactly the element it means, fully inside the storage bytes, even though byte strides may wrap |
| NumpyView.ViewNeeds | python/numpy_interop.cpp:302-312 | only an aligned CPU tensor without negative stride is viewed |
| NumpyView.FallbackIsNeeded | python/numpy_interop.cpp:379-411 | for an aligned CPU tensor without empty dimension, negative stride or overflow, the copy is taken if and only if some index falls outside the storage, and the view otherwise |
| NumpyView.OverflowIsFarthest | include/tenzor/core/checked_math.hpp:15-49 | with non-negative strides the checked sum fails exactly if the farthest element exceeds 64 bits |
| NumpyView.ViewIsSafeExactly | python/numpy_interop.cpp:379-411 | a view is safe if and only if the offset is not negative or the shape is empty |
| NumpyView.NegativeOffsetIsExported | python/numpy_interop.cpp:379-461 | a view that starts before the storage |
| NumpyView.NoCopyIsStrict | python/numpy_interop.cpp:393-430 | asking for no copy turns exactly the copies into errors |
| NumpyView.NumpyToTensor | python/numpy_interop.cpp:314-348 | an import shares the buffer if and only if the element count fits 64 bits, the target is the CPU, the array is row-major and writeable, and every dimension above 1 has a positive stride; and exactly which others copy, overflow or find the source too short, how many bytes they copy, and that a copy never reads more than the source holds |
| NumpyView.NumelOverflow | python/numpy_interop.cpp:528-538 | an import is refused exactly if the product of some leading dimensions overflows, even before a dimension of size 0 |
| NumpyView.SharedElementsAgree | python/numpy_interop.cpp:314-348 | where the buffer is shared, the row-major tensor finds every element at the byte where the array keeps it, within its items |
| BorderOwnership.Border.TakeReference | python/numpy_interop.cpp:438-459 | a capsule or blob, or an export that then throws, takes one reference and changes nothing else |
| BorderOwnership.Border.DropReference | include/tenzor/core/intrusive_ptr.hpp:83-88 | dropping a holder; the last one frees the storage and runs its deleter |
| BorderOwnership.Border.TensorFromTorch | python/torch_interop.cpp:422-460 | the import step by step for every outcome, late exceptions included: which deleter calls it makes, and the copy that follows an import given up |
| BorderOwnership.CountsAreHolders | python/torch_interop.cpp:275-310 | in every run a storage's count is the number of its holders, lost tickets included, it is freed exactly when there are none, once, and no holder refers to freed storage |
| BorderOwnership.OnlyLostTicketsLeak | python/torch_interop.cpp:293-310 | when all that can be dropped was dropped, a storage was freed if and only if no export lost a ticket to it |
| BorderOwnership.HandleIsReleasedOnce | src/core/dlpack.cpp:216-358 | in every run, exactly which handles have been released never, once and twice: once unless the buffer is still in use, the wrapped data are null, or the importer threw after a storage took a deleter for data that are not null |
| BorderOwnership.NullBufferLeaks | src/core/storage.cpp:142-147 | a run that never releases its handle, and one that releases it twice |
| CudaDeviceGuard.Guard.Enter | python/torch_interop.cpp:69-88 | the guard's constructor: what it selects, remembers and throws |
| CudaDeviceGuard.Run | python/torch_interop.cpp:66-95 | running a program of scopes with guard objects ends on the device, with the exception and the copies that the program's meaning says |
| CudaDeviceGuard.GuardsAreTransparent | python/torch_interop.cpp:66-95 | for any failing calls, a program throws and copies as it does with its guards resolved: a guard that cannot ask or select fails, and any other lets its body through, exceptions included |
| CudaDeviceGuard.DeviceIsRestored | python/torch_interop.cpp:66-95 | if restoring calls succeed, every program of nested scopes, exceptions, handlers and failing calls comes back to its device, and every copy ran on the device of its innermost scope |
| CudaDeviceGuard.EndsOnLastStray | python/torch_interop.cpp:66-95 | every program, with any failing calls, ends on the device left last by a scope that nobody put back, and so comes back to its own if and only if none was left or the last one is its own |
| CudaDeviceGuard.FailedRestoreMisplacesCopy | python/torch_interop.cpp:89-93 | a failed restore sends the enclosing scope's next copy to the wrong device |
| TorchDeviceString.RoundTrip | python/torch_interop.cpp:225-260 | parsing what was printed gives the device back if and only if it is the CPU with index 0 or a CUDA device with an index that is not negative |
| TorchDeviceString.AcceptedStrings | python/torch_interop.cpp:236-260 | exactly which strings are accepted, the devices they name, and which raise the number parser's exception; an empty or non-digit suffix is always rejected |
| TorchDeviceString.PrintOfParse | python/torch_interop.cpp:225-260 | printing what was parsed gives the string back if and only if it has an index without leading zeros, or is `cpu` |
| MaxPool.MaxPool2d | benchmarks/benchmark_training.cpp:135-184 | the loops read and write in bounds, write every output cell exactly once, in order, and leave the pooled input; an exception is raised if and only if the kernel is larger than a side by at least twice the stride |
| MaxPool.CellIsMax | benchmarks/benchmark_training.cpp:158-177 | the value of an output cell, on the flat buffers: no element of its window is greater, as a real or infinite number, and it is one of them, or minus infinity if all are NaN or minus infinity |
| MaxPool.FilledIsPooled | benchmarks/benchmark_training.cpp:152-177 | a buffer whose cells hold these values is the pooled input, each cell at its row-major position |
| MaxPool.MaxIsUnique | benchmarks/benchmark_training.cpp:162-173 | there is only one such value |
| MaxPool.WindowsTaken | benchmarks/benchmark_training.cpp:142-143 | for a kernel no larger than the input, the windows taken are exactly those that lie inside |
| MaxPool.NegativeSize | benchmarks/benchmark_training.cpp:142-143 | exactly when a size is negative |
| MaxPool.WindowsFitExactly | benchmarks/benchmark_training.cpp:142-143 | all windows visited lie inside if and only if the kernel is no larger than the input or larger by at least the stride |
| ShaderEmbed.PackWords | scripts/embed_shaders.py:81-90 | each word is made of four bytes of the file, the lowest first; the words in memory are the file followed by fewer than four zero bytes |
| ShaderEmbed.LiteralIs | scripts/embed_shaders.py:99 | a literal is `0x` and the eight hexadecimal digits, the highest first |
| ShaderEmbed.WriteArray | scripts/embed_shaders.py:92-106 | the row loop prints the rows, and the stated size is the number of words |
| ShaderEmbed.ReadOfRows | scripts/embed_shaders.py:92-104 | reading the printed rows, one comma between neighbours and none trailing, gives back every word list |
| ShaderEmbed.EmbedShader | scripts/embed_shaders.py:81-106 | for every file: the array reads back to words whose memory is the padded file, of the stated size |
| NestedValues.Flatten | tools/check_param_group_serialization.py:130-139 | the stack loop terminates, equals the recursive flattening, and gives every number of the nest once, from left to right |
| NestedValues.FlatIsLeaves | tools/check_param_group_serialization.py:130-139 | the flattened numbers are those at the paths of the nest, in the order of the paths, and there is no other path |
| NestedValues.DistanceMeaning | tools/check_param_group_serialization.py:142-147 | the distance is zero if and only if the flattened sequences are equal, infinite if and only if their lengths differ, and otherwise the largest gap |
| NestedValues.DistanceOfNumbers | tools/check_param_group_serialization.py:142-147 | two bare numbers are their difference apart |
| NestedValues.ShapeIsNotCompared | tools/check_param_group_serialization.py:142-147 | different nestings at distance zero |
| Coverage.CountLines | scripts/coverage_summary.py:86-96 | the counts are the numbers of lines with a count that is not negative, or positive, that gcc did not make up; the second is not greater |
| Coverage.Aggregate | scripts/coverage_summary.py:145-170 | for each source some record counts for, and no other, the lexicographically greatest pair of its records is kept |
| Coverage.SummaryMeans | scripts/coverage_summary.py:145-170 | a source is in the summary if and only if it is not left aside and a record counts a line of it; it holds a record with the most executable lines and, among those, the most executed |
| Coverage.OrderDoesNotMatter | scripts/coverage_summary.py:145-170 | the summary is the same for every order and repetition of the records |
| Coverage.ExecutedStaysBelow | scripts/coverage_summary.py:165-170 | executed lines never exceed executable ones in the summary |
| Coverage.Sum | scripts/coverage_summary.py:172-191 | the summing loops compute the sums over all files, and over the files of each subsystem that has any, with their number |
| Coverage.SubsystemOfSource | scripts/coverage_summary.py:46-57 | a source below `src` belongs to the directory directly below it, a file in `src` to `src`, and any other to none |
| Coverage.SubsystemOfBackend | scripts/coverage_summary.py:51-53 | each backend is a subsystem of its own |
| Coverage.SubsystemsAddUp | scripts/coverage_summary.py:183-191 | the subsystems add up exactly to the totals, and their file counts to the number of files |

## Left out

- Memory ordering on the GPU: the first, unprotected read of the retry loop counts as an atomic read, and every step of an invocation as indivisible.
- HalfWordStore.WriteElementAtomic: other invocations appear as an arbitrary change of the word before each attempt; the interleavings themselves are the transition system in the same module.
- Floating point arithmetic: bfloat16 works on bit patterns and their exact values; the other comparisons take numbers as reals, and max pooling does not tell the two zeros apart.
- DeviceArg.InsertDeviceArg: word characters are the ASCII ones; letters outside ASCII next to a name are not modelled.
- DeviceArgTwoPasses.TwoPassesCount: not stated for a call that has a name inside a line comment with a line break between that name and its parenthesis; dropping that line break joins the comment with the code behind it, so that it need not even close where it did (DeviceArgSecondPass.LineBreakJoinsComment).
- DeviceArgSecondPass.PassCounts: the same.
- DeviceArgAngles.AngleScanIsOutside: the documentation does not say how angle brackets close; a `>` that closes nothing, or stands in an arrow, is taken for an operator.
- CppComments.BlankingIsRightExactly: line splices, trigraphs, header names and identifiers outside ASCII; C++ text is taken as it is after splicing, and a quote left open on its line, on which the C++ standard puts no requirement, as a token of its own.
- The other steps of `refactor_file`, which are regular-expression substitutions.
- The other rewriting of the shader generator, by regular expressions, and the finding of the buffer's name.
- The skip patterns and reasons that `scan_cxx` counts after blanking, and its dictionaries.
- The audit's scan for tolerances and its number formatting; violations come as tokens, and the order in which an update sorts them is not modelled.
- Matching proto lines against their patterns: lines come classified, one construct per line.
- ProtoSpec.ParseOfPrint: oneofs hold only fields, as the protobuf grammar requires, and messages no enums; for those see UnknownBlockEndsMessage.
- ProtoSpec.UnknownBlockEndsMessage: a second enum behind the first one's item within a nested message; within an outermost message there may be more.
- Slicing and scraping the encoder's source: the emitted pairs are an input of the comparison.
- NumpyView.CreateNumpyArray: storages of 2^63 bytes or more, which no allocator provides; the dtype tables; the copy itself.
- NumpyView.SharedElementsAgree: NumPy's C-contiguity flag is taken to mean what NumPy documents.
- NumpyView.NumpyToTensor: the object-dtype rejection, the re-alignment of a misaligned source and the warnings.
- BorderOwnership.CountsAreHolders: a count that drops to zero and the deletion that follows are one step; counts do not reach 2^64.
- BorderOwnership.Border.TensorFromTorch: handles come with a deleter; data conversion, and a failure of the copy that follows, are not modelled.
- The importer's strided copy loop and its lanes.
- CudaDeviceGuard.Run: a failing call that selects a device leaves the current one selected, and the current device is never negative.
- MaxPool.MaxPool2d: sizes whose products exceed 64 bits, and moving the tensor between devices.
- The parsing of gcov's files, percentages and reports.
- Autograd, kernels, allocators, dispatch, JIT, ONNX and collectives.
