# Models of the vitamin elaborator and command line

A Dafny model of the parts of the vitamin Verilog tool chain in which one step has to mean the same as another, or a
protocol has to keep something at every step, and proofs of what those parts promise. `dafny verify dfyconfig.toml`
checks everything.

## What is modelled

* **Array addressing** (`Bits`, `Ir`, `RowMajor`, `Words`, `Emitter`, `IndexSeal`, `IndexSigns`, `Geometry`, `ArrayGeom`,
  `FlattenSource`). The elaborator appends nodes to an expression arena; the simulator evaluates them in four-state,
  context-sized, wrapping arithmetic. `ArrayGeom` builds the address expression the way the elaborator does, and its
  methods promise the value of what they build in every store. `Geometry` says what that value is in numbers,
  `IndexSigns` for which indices the address is that of the source; `FlattenSource` adds the lowering of indices.
* **Unpacked-array formals** (`FormalClass`, `ArrayFormal`, `FormalCalls`). Packing an array into one wide value,
  reading elements back, forwarding it down a chain of calls.
* **Array assignment** (`ArrayAssign`, `SliceCopy`, `SliceRuns`, `EvalReads`, `AliasGuard`). One copy per element, in
  place, its leading indices evaluated again each time, against evaluating the whole source first.
* **Associative-array keys** (`AssocKey`, `KeywordKeys`). Truncation, extension and reinterpretation against a cast, and
  the keyword atoms, whose index is not cast.
* **Substitution and read sets** (`Substitution`, `ReadSet`, `ReadRuns`, `FrameReads`, `BodyRuns`). The meaning of a
  substituted tree; the collected read set of a frame body and when two runs that agree on it are one run, for every
  meaning of operators, system calls and frame functions.
* **Filelists** (`Strings`, `CommentStrip`, `StripLines`, `Paths`, `PathText`, `Filelist`, `IncludeTree`, `FileTokens`,
  `FilelistArgs`, `ArgTokens`). Comment removal, lexical normalisation, the recursive expander with its cycle and depth
  guards, what its tokens stand for, and the deduplicated command line.
* **The work library** (`Escapes`, `Manifest`, `ManifestParse`, `ManifestRoundTrip`, `ManifestContent`, `WorkLib`,
  `WorkAccount`, `WorkDir`). The manifest's text and its reader, and the recording of a unit with every state the disk
  goes through.
* **Linking and staleness** (`LinkClosure`, `LinkMerge`, `LinkAccount`, `Freshness`). First-library-wins resolution, the
  breadth-first closure, the merge, and the stamp shortcut of the staleness gate.
* **Block-locals and the hierarchy printer** (`BlockLocal`, `ScopeKeys`, `CaptureReach`, `HierTree`, `HierText`).

Methods follow the loops and the updates of the code they cite and are proved against specification functions; the lemmas
say what those functions mean. `Wrappers` and `Sequences` hold what several modules share.

The file system, the environment and the clock are parameters: a map from path to identity and text, a function from
token to expansion, the successive states of a file, and which file operations of a call succeed. Digests are an
arbitrary function of the bytes, of which nothing is assumed.

## What the proofs found

Where a promise does not hold of the code, the model keeps the code, shows an input, and states when the promise does hold.

* The bounds check of an array dimension is exact only for bounds its 32-bit constants can hold
  (`Geometry.GuardExactlyWhenRepresentable`).
* A signed array index is evaluated as unsigned in the address. A remainder, a narrow signed operand in a 32-bit sum, and
  a signed expression wider than 32 bits then mean another number (`IndexSeal.SignedRemainderIsNotStable`,
  `IndexSigns.NarrowOperandMoves`, `IndexSigns.WideRemainderMoves`). An index keeps its meaning when its nodes pass
  `IndexSigns.Stable`; the check is exact on literals and nets (`IndexSigns.LeafStableExactly`), for a remainder of stable
  operands the condition is `IndexSigns.RemainderIndexExactly`, and above that it goes one way
  (`IndexSigns.DifferenceCancels`). The address theorems speak of the unsigned readings and hold without it.
* The shape gate of array formals clamps a negative base to zero, so an index names another element in the callee
  (`ArrayFormal.CopyByIndexExactly`). An actual declared `[1]` never matches a formal declared `[1]`
  (`FormalClass.SameDeclarationMatches`).
* The aliasing guard of array assignment does not look into casts (`AliasGuard.GuardMissesCast`); `AliasGuard.GuardExactly`
  says which indices it misses.
* The index of an associative array declared `[int]`, `[byte]` and so on is not cast to the key type
  (`KeywordKeys.UnsignedByteKey`, `KeywordKeys.ByteSumKey`); `KeywordKeys.KeywordKeyExactly` and
  `KeywordKeys.SumKeyExactly` say when the key is the cast one all the same.
* Substitution copies node kinds it does not list, formals and all; `Substitution.SubstMeansExactly` says when that is
  harmless.
* The read set of a body leaves out the delay of a nonblocking assignment (`ReadRuns.StmtCompleteExactly`) and whatever
  called functions and tasks read themselves (`FrameReads.CalledReadIsMissed`); `FrameReads.DecidesExactly` and
  `BodyRuns.DecidesBodyExactly` say when it decides the statement, and the body, all the same. The recorded calls leave out
  functions called in a target's index (`ReadRuns.IndexCallIsNotRecorded`, `ReadRuns.BodyCallsExactly`).
* Two leading `..` cancel in the lexical normal form (`Paths.NormalLeadsThere`, `Paths.ClimbsAreLost`).
* Inside a tree entered by `-F`, a file named by `-f` is read against its own directory, although the comment and the
  warning speak of the invocation directory (`IncludeTree.BigStays`).
* Sources repeated on the command line are dropped only when it names a filelist (`FilelistArgs.RepeatsLeft`).
* The manifest reader takes more than the canonical text (`ManifestRoundTrip.NotOnlyCanonical`,
  `ManifestContent.AnyWithItsContent`), and the newline check
  before writing does not look at unit names and kinds (`WorkLib.UncleanUnitIsWritten`).
* A blob already there is taken for the unit's own by its name; `WorkDir.BlobIsGiven` and `WorkDir.AddedIsRecorded` say
  that this is wrong exactly when it has other bytes and the same half digest.
* Merged items follow the search order, merged time scales the load order (`LinkMerge.FirstLoadedScale`).
* The stamp of the staleness gate can miss a same-length write between read and stat, a write that puts the time back,
  and a file that has become unreadable (`Freshness.SameLengthRace`, `Freshness.FrozenTime`,
  `Freshness.UnreadablePasses`); for the first, `Freshness.SafeExactly` says exactly when.
* The block-local classifier alone can withdraw a scope when another body is fed; only the narrowed update of the feed is
  monotone (`BlockLocal.ClassifierCanWithdraw`, `BlockLocal.WithdrawnExactly`).

## Model

| member | source | states |
|---|---|---|
| `Emitter.Elaborator.Push` | crates/elaborate/src/expr_ctx.rs:576-630 | a pushed node gets the next id; every earlier node stays as it was |
| `Emitter.Elaborator.ConstU32` | crates/elaborate/src/const_eval.rs:1842-1845 | a literal node of the given number and width is appended, nothing else changes |
| `Ir.ShapeExtends` | crates/sim-ir/src/selfwidth.rs:184-595 | appending to the arena changes no existing node's self-determined width or sign |
| `Ir.EvalExtends` | crates/sim-engine/src/eval/eval_core.rs:852-1073 | appending to the arena changes no existing node's value, in any context and any store |
| `EvalReads.EvalAgrees` | crates/elaborate/src/ast_query.rs:683-757 | two stores that agree on the nets an expression reads give it the same value, in any context |
| `Words.ArithIsWord` | crates/sim-engine/src/eval/binops.rs:82-229 | an emitted add, subtract or multiply of two 32-bit words means the sum, difference or product modulo 2^32; an unknown operand makes it unknown |
| `Words.ArithReads` | crates/sim-engine/src/eval/binops.rs:82-229 | and over operands of at most 32 bits it is read, in unsigned 32-bit arithmetic, as the operation on what they are read as |
| `Words.CompareIsGuard` | crates/sim-engine/src/eval/binops.rs:325-327 | an emitted comparison against an unsigned word is a one-bit guard with the truth value of the unsigned comparison, whatever the other side's sign and width; unknown when an operand is |
| `Words.TernaryIsWord` | crates/sim-engine/src/eval/binops.rs:638-658 | a conditional on a guard means the chosen word, known or not; with an unknown guard it is unknown, unless both arms are the same known word |
| `RowMajor.OffsetBound` | crates/elaborate/src/array_geom.rs:720-817 | an in-range index list has a row-major offset below the product of the sizes |
| `RowMajor.OffsetInjective` | crates/elaborate/src/array_geom.rs:720-817 | a row-major prefix plus a residual below its row determines both |
| `RowMajor.PositionInverts` | crates/elaborate/src/packed.rs:2332-2356 | every position below the product is the row-major offset of its own digits |
| `RowMajor.AddressBijection` | crates/elaborate/src/array_geom.rs:720-817 | index lists and words of the array correspond one to one |
| `Geometry.CoordMeaning` | crates/elaborate/src/array_geom.rs:125-170 | the wrapped coordinate is the distance of the index from the lower bound (from the upper, when ascending), for any representable bound |
| `Geometry.GuardMeaning` | crates/elaborate/src/array_geom.rs:91-117 | the emitted bounds check is true exactly on the declared range |
| `Geometry.GuardExactlyWhenRepresentable` | crates/elaborate/src/array_geom.rs:91-117 | for every bound and every 32-bit size: the bounds check is the range check on all 32-bit indices if and only if the bounds fit the 32-bit constants the code clamps them to |
| `Geometry.SourceIndex` | crates/elaborate/src/array_geom.rs:91-170 | for a signed 32-bit source index, in range means between the declared bounds, and the coordinate is the difference from the lower one |
| `Geometry.OneDimension` | crates/elaborate/src/array_geom.rs:720-817 | one dimension carries no guard: its coordinate is below the size exactly when the index is in range |
| `Geometry.FlatWordMeaning` | crates/elaborate/src/array_geom.rs:720-817 | two or more dimensions, any representable bounds, total size at most 2^24: the 32-bit wrapped sum under the guard is the row-major offset when every index is in range, 0x8000_0000 when one is out of range, unknown otherwise |
| `Geometry.SentinelStable` | crates/elaborate/src/packed.rs:2359-2372 | a residual below 2^24 added to the out-of-bounds word stays outside the array |
| `Geometry.RowAddress` | crates/elaborate/src/array_geom.rs:179-254 | a valid partial prefix plus a residual addresses a word of the selected row, without wrapping |
| `Geometry.RowBijection` | crates/elaborate/src/array_geom.rs:179-254 | two prefix-and-residual pairs address the same word exactly when they are the same row and the same residual |
| `IndexSeal.SignedRemainderIsNotStable` | crates/elaborate/src/packed.rs:748-930 | a 32-bit signed remainder passes the seal unchanged and means another number in the unsigned address arithmetic: -7 % 5 is -2 alone and 4 there |
| `IndexSeal.LeavesAreStable` | crates/elaborate/src/packed.rs:748-930 | nets, array words, selects, concatenations and 32-bit literals do not have that problem |
| `IndexSigns.StableHolds` | crates/sim-engine/src/eval/eval_core.rs:852-1073 | a check on the nodes alone: unsigned expressions, leaves as wide as the context, sums, differences, products and conditionals of such; what passes it has one value in signed and unsigned context, in every store |
| `IndexSigns.LeafStableExactly` | crates/sim-engine/src/eval/eval_core.rs:852-1073 | for literals and nets the check is exact: a leaf that fails it differs in some store |
| `IndexSigns.DifferenceCancels` | crates/sim-engine/src/eval/binops.rs:82-229 | above the leaves it is not: the difference of a narrow signed net with itself fails the check and never differs |
| `IndexSigns.StableIsOwn` | crates/elaborate/src/packed.rs:748-930 | an index of any width that passes it seals to its own self-determined word, by its own sign |
| `IndexSigns.NarrowOperandMoves` | crates/elaborate/src/packed.rs:748-930 | not only remainders fail: a 32-bit signed zero plus an 8-bit signed -1 is -1 alone and 255 in the address |
| `IndexSigns.WideRemainderMoves` | crates/elaborate/src/packed.rs:748-930 | a 40-bit signed -7 % 5 is multiplied by an unsigned 1 and cut: -2 alone, 4 in the address |
| `IndexSigns.RemainderIndexExactly` | crates/elaborate/src/packed.rs:748-930 | for stable 32-bit operands and a positive divisor, a signed remainder keeps its value in the address if and only if the dividend is not negative, or the divisor divides both it and 2^32 |
| `ArrayGeom.ExtendToWord` | crates/elaborate/src/packed.rs:224-273 | the extension nodes mean the index widened to 32 bits by its own sign, or unknown |
| `ArrayGeom.LowWord` | crates/elaborate/src/packed.rs:748-930 | an index wider than 32 bits is cut to its low word, and one unknown bit makes all of it unknown |
| `IndexSeal.SealedReads` | crates/elaborate/src/packed.rs:748-930 | a sign-stable index that seals to 32 bits has one reading: the index modulo 2^32 |
| `ArrayGeom.SealIndexUnsigned` | crates/elaborate/src/packed.rs:748-930 | whenever the sealed form has at most 32 bits, in every store: what unsigned arithmetic reads it as, and what it is alone; it is the index modulo 2^32 unless the index is handed over as it is; an unsigned constant, or a provably unsigned packed offset, keeps its value with one zero bit on top |
| `ArrayGeom.DimCoord` | crates/elaborate/src/array_geom.rs:125-170 | the emitted coordinate means the 32-bit coordinate of the index, for each of the four bound cases; a negative ascending bound is reported once |
| `ArrayGeom.DimGuard` | crates/elaborate/src/array_geom.rs:91-117 | the emitted guard means the range check, on the coordinate when the lower bound is negative and on the index otherwise |
| `ArrayGeom.Strides` | crates/elaborate/src/array_geom.rs:179-254 | the stride of a dimension is the saturating product of the sizes after it |
| `ArrayGeom.NegativeAscendingCounts` | crates/elaborate/src/array_geom.rs:125-170 | one error for each dimension among those reached that counts up from a negative bound |
| `ArrayGeom.FlattenStep` | crates/elaborate/src/array_geom.rs:179-254 | one index is sealed, guarded and added to the sum, and the conjunction and sum then mean one guard and one term more; a first index that needs no arithmetic stays its sealed self |
| `ArrayGeom.OrdinaryIndices` | crates/elaborate/src/packed.rs:748-930 | a word index of known width that is not constant, may be named again if narrow and signed, and passes the node check, seals to 32 bits or less and is read one way in every store, whatever its width |
| `ArrayGeom.FlattenWordEids` | crates/elaborate/src/array_geom.rs:179-254 | whenever the sealed indices have at most 32 bits, in every store: the expression built selects `FlatWord` of what the address reads the indices as, and that is `FlatWord` of their own words when they pass the stability check; nothing already in the arena changes |
| `FlattenSource.FlattenWord` | crates/elaborate/src/array_geom.rs:720-817 | the twin that lowers each index between the steps: for any lowering that only appends, and whose sealed indices have at most 32 bits, the expression selects `FlatWord` of what the address reads the lowered indices as, in every store |
| `FlattenSource.NetsLower` | crates/elaborate/src/array_geom.rs:720-817 | nets of any width and sign are such indices: lowered anywhere, each is read as its own number modulo 2^32 |
| `FlattenSource.BothWays` | crates/elaborate/src/array_geom.rs:179-254 | what the two twins build for the same indices, in two arenas, selects one word in every store |
| `ArrayGeom.WordExprAt` | crates/elaborate/src/packed.rs:2359-2372 | base plus offset, with no node added when either is trivial |
| `FormalClass.ClassifyUnpackedArray` | crates/elaborate/src/array_formal.rs:290-408 | the first dimension that cannot be classified decides the refusal; otherwise the descriptor holds the classified dimensions, their saturating product and the element width |
| `FormalClass.DimensionExactly` | crates/elaborate/src/array_formal.rs:325-352 | which dimensions classify, what they classify to as far as 32 bits hold it, and which refusal every other has |
| `FormalClass.ElementExactly` | crates/elaborate/src/array_formal.rs:290-408 | an element is an atom or a vector `[m:0]` with a constant `m` that is not negative, with its number of bits for its width; every other element has its own refusal |
| `FormalClass.CountExactly` | crates/elaborate/src/array_formal.rs:290-408 | the count is the number of elements, or the largest 32-bit number when there are more |
| `FormalClass.FirstBadExactly` | crates/elaborate/src/array_formal.rs:290-408 | the refusal is that of the first dimension that has one |
| `FormalClass.SameDeclarationMatches` | crates/elaborate/src/array_formal.rs:183-210 | a net declared with the formal's own dimension passes the shape gate exactly unless the dimension is `[1]`, or its size is clamped on one side and wrapped on the other |
| `FormalClass.ClassifiedAsDeclared` | crates/elaborate/src/array_formal.rs:325-352 | the 32-bit casts keep a dimension exactly when its size and base fit 32 bits |
| `FormalClass.OwnDeclarationPasses` | crates/elaborate/src/array_formal.rs:183-210 | an actual declared like the formal is accepted and has no negative bound |
| `ArrayFormal.ReadThroughSlot` | crates/elaborate/src/array_formal.rs:419-427 | for every extent list and every index list, in range, out of range or unknown: reading through the packed extents is reading the array |
| `ArrayFormal.CopyByIndex` | crates/elaborate/src/array_formal.rs:183-239 | with non-negative bounds, a matching actual is read element for element through the slot |
| `ArrayFormal.CopyByPosition` | crates/elaborate/src/array_formal.rs:161-171 | whatever the bases, position for position the callee reads the caller's element |
| `ArrayFormal.CopyByIndexExactly` | crates/elaborate/src/array_formal.rs:183-210 | index for index the copy is exact if and only if no bound of the actual is negative |
| `ArrayFormal.ShiftedBaseDiffers` | crates/elaborate/src/array_formal.rs:200-206 | for every matching actual with a negative bound, an array value and an index list on which caller and callee differ |
| `ArrayFormal.ForwardChain` | crates/elaborate/src/array_formal.rs:66-77 | however long a chain of whole-value forwards, the last callee reads the first caller's elements |
| `FormalCalls.PackHierArrayActual` | crates/elaborate/src/array_formal.rs:220-239 | a value is built exactly when the shapes match, and in every store it is the packed array, or the forwarded slot |
| `FormalCalls.LowerArrayRead` | crates/elaborate/src/arrays.rs:140-204 | in every store the read means the word at the flat address of what the indices are read as, or unknown; of their own words when they are stable |
| `FormalCalls.LowerPackedRead` | crates/elaborate/src/packed.rs:2037-2111 | in every store the read means the element of the slot, signed when the element type is, likewise |
| `FormalCalls.PassByValue` | crates/elaborate/src/array_formal.rs:161-171 | binding the packed actual and reading it back gives the caller's own element, in every pair of states |
| `ArrayAssign.ResidualInjective` | crates/elaborate/src/packed.rs:2332-2356 | different positions of a sub-array have different word offsets |
| `ArrayAssign.ResidualOnto` | crates/elaborate/src/packed.rs:2332-2356 | every word of the sub-array is some position's |
| `ArrayAssign.LeftToRight` | crates/elaborate/src/packed.rs:2332-2356 | position p is the element whose every index stands as far from the left of its declared range as the digit says |
| `ArrayAssign.ResidualWordOffsets` | crates/elaborate/src/packed.rs:2332-2356 | the stride-and-digit loop yields the declared left-to-right offsets |
| `ArrayAssign.InOrderIsAllAtOnce` | crates/elaborate/src/arrays.rs:688-720 | when no copy reads what an earlier one wrote, copying in order is copying all at once |
| `ArrayAssign.AllAtOnceWrites` | crates/elaborate/src/arrays.rs:688-720 | copying all at once leaves each named word with the source's old element |
| `ArrayAssign.AllAtOnceKeeps` | crates/elaborate/src/arrays.rs:688-720 | and every other word as it was |
| `ArrayAssign.SlicesUntangled` | crates/elaborate/src/arrays.rs:625-722 | two slices of one array with equally many leading indices are the same row or share no word |
| `SliceCopy.SliceLeftToRight` | crates/elaborate/src/packed.rs:2332-2356 | a position of a slice is the element whose every remaining index stands as far from the left of its declared range as the digit says, whatever the leading indices take away |
| `SliceCopy.OrdinarySlice` | crates/elaborate/src/arrays.rs:625-722 | a side with ordinary leading indices, fewer than the dimensions, meets all that is asked of a side |
| `SliceCopy.AssignArray` | crates/elaborate/src/arrays.rs:625-722 | the first reason of size, element type, blocking delay, aliasing and count decides the refusal, one error and no statement; otherwise one copy per position with the given form and delay, each naming that position of both slices in every state |
| `SliceCopy.AcceptedExactly` | crates/elaborate/src/arrays.rs:625-722 | accepted exactly when the sizes left are the same one by one, width, kind and sign of the elements are the same, a delay is nonblocking, no leading index is seen to read the target, and there are at most 4096 elements |
| `SliceRuns.UntouchedHolds` | crates/elaborate/src/arrays.rs:641-652 | when no leading index reads the target, no write to it moves the base of either slice |
| `SliceRuns.PassedIsUntouched` | crates/elaborate/src/arrays.rs:641-652 | an accepted assignment is such a one, unless an index names the target below a node the guard does not look into |
| `SliceRuns.RunIsInOrder` | crates/elaborate/src/arrays.rs:688-720 | when no leading index reads the target and the sealed indices have at most 32 bits, running the statements is copying in order, in every store |
| `SliceRuns.ElementWiseIsWhole` | crates/elaborate/src/arrays.rs:302-318 | then running them leaves the store that evaluating the whole source first would leave, for every shape, direction and pair of slices |
| `SliceRuns.AcceptedIsWhole` | crates/elaborate/src/arrays.rs:625-722 | from what can be checked beforehand: every accepted blocking assignment whose sealed indices have at most 32 bits and hide no target has that effect, in every store |
| `SliceRuns.DeferredIsWhole` | crates/elaborate/src/arrays.rs:688-720 | the nonblocking form has it whatever the indices read |
| `AliasGuard.GuardSound` | crates/elaborate/src/ast_query.rs:391-460 | over the node kinds it names, an index the guard passes keeps its value whatever is written to the target |
| `AliasGuard.MovesExactly` | crates/elaborate/src/ast_query.rs:391-460 | an index can move while the target is written if and only if it names the target somewhere, at any depth |
| `AliasGuard.GuardExactly` | crates/elaborate/src/ast_query.rs:391-460 | an index the guard passes can move if and only if it names the target below a node the guard does not look into |
| `AliasGuard.LiveIsInOrder` | crates/elaborate/src/arrays.rs:641-652 | when no index names the target, evaluating all leading indices of both sides again at each copy changes nothing |
| `AliasGuard.GuardMissesCast` | crates/elaborate/src/ast_query.rs:458 | a cast hides the target from the guard: `a[int'(a[0][0])] = b` passes it and ends in two rows |
| `AssocKey.FoldKeyShape` | crates/elaborate/src/assoc_key.rs:54-134 | a key type is accepted exactly when its bounds fold and its width and sign fit a signed 64-bit key; a refusal is one error |
| `AssocKey.KeyBitsExactly` | crates/elaborate/src/assoc_key.rs:54-134 | the folded width of a vector is the number of index lists its ranges admit, each range counting both bounds |
| `AssocKey.NeverUnknown` | crates/elaborate/src/packed.rs:1177-1240 | when the analysis says an expression cannot be unknown, it is known in every context and every store |
| `AssocKey.ExtendSignedOnce` | crates/elaborate/src/single_mention.rs:26-43 | the emitted nodes sign-extend, naming the operand once |
| `AssocKey.Truncate` | crates/elaborate/src/assoc_key.rs:149-228 | truncation keeps the low bits and turns one unknown bit anywhere into an unknown key |
| `AssocKey.CastWider` | crates/elaborate/src/assoc_key.rs:149-228 | a key type wider than the expression keeps its value unless it drops the sign |
| `AssocKey.ConvertKey` | crates/elaborate/src/assoc_key.rs:149-228 | for every source width and sign and every admitted key type but the keyword atoms, the engine's signed 64-bit key of the node built is the value cast to the key type, and none exactly when a bit is unknown; under a keyword atom the index is handed over as it is |
| `KeywordKeys.KeepsWidens` | crates/sim-engine/src/eval/eval_core.rs:852-1073 | a check on the nodes alone: literals, nets, selects, concatenations, replications, sign casts, comparisons, remainders and conditionals of such; what passes it has in a 64-bit context its own value extended, in every store |
| `KeywordKeys.KeywordKeyExactly` | crates/elaborate/src/assoc_key.rs:149-155 | for an index that passes it, the uncast key of a keyword atom is the cast key if and only if the index is unknown or the integer its low 64 bits spell lies in the key type; that integer is the index itself for every width a key type admits |
| `KeywordKeys.SumKeyExactly` | crates/elaborate/src/assoc_key.rs:149-155 | for a sum, difference or product of such operands the key is the exact result; it is the cast key if and only if that lies in the key type, and in the sum's own type when the key type is wider |
| `KeywordKeys.UnsignedByteKey` | crates/elaborate/src/assoc_key.rs:149-155 | `[byte]` indexed by an unsigned 8-bit 200 stores 200, where the cast is -56 |
| `KeywordKeys.ByteSumKey` | crates/elaborate/src/assoc_key.rs:149-155 | `[byte]` indexed by the 8-bit sum 200 + 100 stores 300, where the cast is 44 |
| `Substitution.SubstMeans` | crates/elaborate/src/ast_query.rs:10-88 | under every meaning of names and operators, the substituted tree has the value of the original with each formal bound to its actual's value, all at once |
| `Substitution.SubstMeansExactly` | crates/elaborate/src/ast_query.rs:83-87 | for all bindings: it has that meaning under every meaning of names and operators if and only if every formal below a node that is copied whole is bound to itself |
| `Substitution.SwapSwaps` | crates/elaborate/src/ast_query.rs:10-20 | swapping two formals swaps them: an actual is not substituted again |
| `ReadSet.Collector.CollectExprReadsCalls` | crates/elaborate/src/ast_query.rs:683-757 | the walk adds exactly the reads and appends exactly the calls of an expression |
| `ReadSet.Collector.CollectLvalReads` | crates/elaborate/src/lvalue.rs:654-670 | the walk adds the reads of an lvalue's word, offset and width expressions, and records no call |
| `ReadSet.Collector.CollectBlockReads` | crates/elaborate/src/ast_query.rs:630-671 | statements and the branch condition of one block |
| `ReadSet.Collector.FrameStarReadSet` | crates/elaborate/src/ast_query.rs:604-626 | the result is the union over the blocks, task binds included |
| `ReadRuns.StmtReadsExactly` | crates/elaborate/src/ast_query.rs:630-671 | a net is collected from a statement exactly when an index of its target, the value assigned, or something printed reads it |
| `ReadRuns.BodyReadsExactly` | crates/elaborate/src/ast_query.rs:604-626 | a net is in the set of a body exactly when a statement, a branch condition or a bind of some block reads it |
| `ReadRuns.ReadsExact` | crates/elaborate/src/ast_query.rs:683-757 | a net is in the collected reads of an expression if and only if, under some meaning of the operators, the value can depend on it |
| `ReadRuns.StmtCompleteExactly` | crates/elaborate/src/ast_query.rs:630-671 | the collected reads decide everything a statement evaluates if and only if the delay of a nonblocking assignment reads nothing else |
| `FrameReads.DecidesExactly` | crates/elaborate/src/ast_query.rs:630-671 | for functions that read given nets of their own: the collected reads of a statement decide it under every meaning of the operators if and only if its delay and every function it calls read nothing that was not collected |
| `FrameReads.CalledReadIsMissed` | crates/elaborate/src/ast_query.rs:683-757 | in `q = f();` with a function that reads a net, nothing is collected and the value moves with the net |
| `BodyRuns.ReadSetComplete` | crates/elaborate/src/ast_query.rs:604-626 | two runs from stores agreeing on the read set take the same path, make the same events with the same values and go on agreeing, for every number of blocks and every meaning of the operators, when no reachable block has a delay, function or task that reads a net outside the set |
| `BodyRuns.DecidesBodyExactly` | crates/elaborate/src/ast_query.rs:604-626 | and only then: otherwise two stores agree on the set and their runs differ |
| `ReadRuns.UnderCalls` | crates/elaborate/src/ast_query.rs:683-757 | a function is collected from an expression if and only if a call node of it stands under the expression |
| `ReadRuns.StmtCallsExactly` | crates/elaborate/src/ast_query.rs:630-671 | the calls recorded for a statement are all it makes if and only if every function with a call node below an index of the target or below the delay has one below its values too |
| `ReadRuns.BodyCallsExactly` | crates/elaborate/src/ast_query.rs:604-626 | and the same for a body: every call is recorded if and only if each function with a call node below a target's index, a delay or a write-back is recorded for some other place |
| `ReadRuns.IndexCallIsNotRecorded` | crates/elaborate/src/lvalue.rs:654-670 | a function called inside a target's index is missing from the recorded calls |
| `CommentStrip.StripComments` | crates/cli/src/filelist.rs:171-232 | the one-pass loop yields what removing comments first and joining lines after yields, or the line of the comment that never closes |
| `CommentStrip.UncommentedModes` | crates/cli/src/filelist.rs:190-227 | comment removal keeps exactly the characters a left-to-right automaton classes as code, in order |
| `CommentStrip.FailsExactly` | crates/cli/src/filelist.rs:197-213 | stripping fails with line n if and only if a block comment that is really open never closes and n - 1 newlines stand before it |
| `CommentStrip.NothingJoins` | crates/cli/src/filelist.rs:178-227 | two neighbouring characters of the output are neighbouring code characters of the body, or one of them is an inserted separator |
| `CommentStrip.NoOpenerSurvives` | crates/cli/src/filelist.rs:171-232 | the output contains no `//` and no `/*` |
| `StripLines.SurvivesExactly` | crates/cli/src/filelist.rs:178-227 | position by position: a character reaches the output exactly when it is code, the first character of its logical line that is neither comment nor space is not `#`, and it is neither the newline of the line nor behind a backslash that ends it |
| `StripLines.OrderStays` | crates/cli/src/filelist.rs:178-227 | what is copied keeps the order of the body, and each character is the one that stands at its position |
| `StripLines.NewlinesCount` | crates/cli/src/filelist.rs:201-227 | the line counted is that of the positions that hold a newline |
| `Paths.LexicalNormalize` | crates/cli/src/filelist.rs:86-100 | the component loop yields the normal form: a head that depends on the parity of the climbs, then the names |
| `Paths.NormalLeadsThere` | crates/cli/src/filelist.rs:86-100 | the normal form leads where the path leads if and only if the path is absolute or climbs at most one level above its start |
| `Paths.NormalFormsAgree` | crates/cli/src/filelist.rs:86-100 | absolute paths have one normal form exactly when they lead to one place and climb above the root equally often modulo 2 |
| `Paths.NormalTwice` | crates/cli/src/filelist.rs:86-100 | normalising is idempotent |
| `Paths.ClimbsAreLost` | crates/cli/src/filelist.rs:91-95 | `../../a` becomes `a`, and `/..` keeps a form different from `/` |
| `PathText.RenderBack` | crates/cli/src/filelist.rs:274-284 | a rendered path is read back as itself |
| `PathText.TargetIsThere` | crates/cli/src/filelist.rs:274-300 | a target resolved against an absolute base, rendered and looked up is the normal form of the base followed by its components, or of its own when it is absolute |
| `Filelist.Expander.ExpandFile` | crates/cli/src/filelist.rs:290-360 | on every return the stack and the identities are as before, free of repeats and at most 256 deep; output, opened files, warnings and the one error are those of the expansion function |
| `Filelist.Expander.ExpandTokens` | crates/cli/src/filelist.rs:364-478 | the token loop does what the file's requests ask, in order, up to the first failure |
| `Filelist.Expander.PushIncdirs` | crates/cli/src/filelist.rs:444-462 | each nonempty segment is resolved against the frame's base; a wildcard in any of them is the error and nothing is passed on |
| `IncludeTree.SpliceExactly` | crates/cli/src/filelist.rs:290-478 | over every file system: expansion succeeds if and only if the includes form a finite tree at most 256 deep with no file below itself, and then the output is that tree's pre-order splice and the opened files are its pre-order |
| `IncludeTree.FailureIsReal` | crates/cli/src/filelist.rs:296-325 | a reported cycle is an include chain back to an active file, the depth error has a chain of 256 different files behind it, and unreadable and unterminated files are so |
| `IncludeTree.BigStays` | crates/cli/src/filelist.rs:374-378 | every file below one entered by `-F` is read against its own directory, those named by `-f` included |
| `FileTokens.ExpandsExactly` | crates/cli/src/filelist.rs:290-478 | expansion succeeds exactly when a tree of files tells itself: each file read from its own directory inside `-F` and from the invocation directory elsewhere, each token accounted for in order, every relative word, `+incdir+` piece and target the normal form from that directory, absolute ones unchanged, wildcards nowhere; the output is the tree's words |
| `FileTokens.SplitIsWords` | crates/cli/src/filelist.rs:380 | the tokens are the longest stretches without space, all of them, in order |
| `FilelistArgs.SpliceArgs` | crates/cli/src/filelist.rs:500-533 | every filelist of the command line is spliced in place and everything else passed on |
| `FilelistArgs.Dedup` | crates/cli/src/filelist.rs:543-565 | the loop keeps the words that are not a source named before, and tells whether it dropped one |
| `FilelistArgs.DedupKeeps` | crates/cli/src/filelist.rs:543-565 | flags and their values all stay in order; the sources' identities are the same set, each once |
| `FilelistArgs.DedupTwice` | crates/cli/src/filelist.rs:543-565 | deduplicating again drops nothing |
| `FilelistArgs.ExpandArgv` | crates/cli/src/filelist.rs:484-570 | the flat command line and the filelists opened, or a failure; without a filelist the arguments are untouched |
| `FilelistArgs.RepeatsLeft` | crates/cli/src/filelist.rs:484-570 | the flat command line repeats a source if and only if none of the arguments is a filelist and the arguments repeat one |
| `ArgTokens.ArgsExactly` | crates/cli/src/filelist.rs:500-533 | the command line is spliced exactly when its filelists tell themselves, and every other word stays where it stood |
| `ArgTokens.KeptExactly` | crates/cli/src/filelist.rs:543-565 | by position: a word is dropped exactly when it names a source, being neither a flag nor a flag's value, that an earlier word names by physical identity or path |
| `ArgTokens.FlatExactly` | crates/cli/src/filelist.rs:484-570 | the command line as a whole: untouched without a filelist, otherwise spliced and deduplicated, or a failure when a filelist does not tell itself or dropped duplicates disagree |
| `ArgTokens.PathsDecide` | crates/cli/src/filelist.rs:543-565 | where no physical identity is known, two words name one source exactly when they have one normal form |
| `Escapes.Unescape` | crates/cli/src/worklib.rs:82-95 | the loop drops one backslash before each character, and a lone final one |
| `Escapes.EscStep` | crates/cli/src/worklib.rs:78-80 | the two replacement passes are one character-by-character escape |
| `Escapes.UnescEsc` | crates/cli/src/worklib.rs:78-95 | unescaping takes escaping back, for every string |
| `Escapes.HexOf` | crates/cli/src/worklib.rs:58-64 | two lower-case digits per byte |
| `Escapes.Unhex` | crates/cli/src/worklib.rs:66-75 | 64 hexadecimal digits of either case, or nothing |
| `Escapes.UnhexHex` | crates/cli/src/worklib.rs:58-75 | reading a written digest gives the digest |
| `Manifest.Emit` | crates/cli/src/worklib.rs:100-135 | the emitter writes the canonical lines: banner, version, name, and per unit its blob and five arrays |
| `Manifest.EmitStrArray` | crates/cli/src/worklib.rs:203-214 | an empty array on one line, otherwise one element per line |
| `ManifestParse.LineReader.StrArray` | crates/cli/src/worklib.rs:224-249 | the shared line iterator yields the array and stands after it, or the error with its line |
| `ManifestParse.LineReader.DigestArray` | crates/cli/src/worklib.rs:251-266 | each entry splits at its first two spaces into a digest and a path |
| `ManifestParse.LineReader.CuEntry` | crates/cli/src/worklib.rs:166-187 | one unit: blob, defines, include directories, sources, includes, units |
| `ManifestParse.Parse` | crates/cli/src/worklib.rs:139-189 | the reader yields the specified library or the specified error with its line |
| `ManifestRoundTrip.RoundTrip` | crates/cli/src/worklib.rs:97-189 | reading the written text gives the library back if and only if no string holds a newline and no unit kind a space |
| `ManifestRoundTrip.ParsedIsClean` | crates/cli/src/worklib.rs:139-189 | whatever text is read, the library read from it fits the line form |
| `ManifestRoundTrip.EmitInjective` | crates/cli/src/worklib.rs:15-18 | so the text, and its digest, keys one library |
| `ManifestRoundTrip.NotOnlyCanonical` | crates/cli/src/worklib.rs:139-152 | a text without the banner line is read as well: the reader takes more than the canonical form |
| `ManifestContent.ContentDecides` | crates/cli/src/worklib.rs:139-189 | any two texts that agree in the lines that say something, without trailing space, are read as one library, or both are errors |
| `ManifestContent.AnyWithItsContent` | crates/cli/src/worklib.rs:139-189 | so every text with the content of a library's own text is read as that library |
| `ManifestContent.ContentIsInjective` | crates/cli/src/worklib.rs:15-18 | and two clean libraries never share their content |
| `ManifestContent.ErrorsAreReal` | crates/cli/src/worklib.rs:139-266 | a refusal points at a line that says something, and not what the error says was expected there, or at an entry that does not split |
| `WorkAccount.EmptyUnitLines` | crates/cli/src/worklib.rs:100-135 | the lines of a library with one empty unit, literally |
| `WorkAccount.OneTextLines` | crates/cli/src/worklib.rs:203-214 | an array with one text is three lines |
| `WorkAccount.TextsAre` | crates/cli/src/worklib.rs:100-135 | how a define, a source and a unit are spelled in their arrays |
| `WorkAccount.SpelledAs` | crates/cli/src/worklib.rs:58-80 | a backslash and a quote are escaped by a backslash, and a digest is two lower-case digits a byte |
| `WorkDir.Supersede` | crates/cli/src/worklib.rs:330-346 | the loop keeps the units sharing no source path with the new one, and the place of the first that does |
| `WorkDir.Redefinition` | crates/cli/src/worklib.rs:347-356 | the first retained unit name the new unit defines again |
| `WorkAccount.RecordedAt` | crates/cli/src/worklib.rs:330-359 | the new unit takes the place of the first that shares a source path with it, or the last place; the others that share one go and the rest keep their order |
| `WorkAccount.DecidesExactly` | crates/cli/src/worklib.rs:286-359 | which refusal is given, in the code's order: an unreadable manifest, another library's, a line break in a recorded string, the first unit name in manifest order that is defined again; otherwise the library is written with the unit in its place |
| `WorkAccount.LiveIs` | crates/cli/src/worklib.rs:371-372 | the blobs that count are those the units name |
| `WorkLib.BlobNamesAgree` | crates/cli/src/worklib.rs:327-328 | two blob names agree exactly when the first half of the digests does |
| `WorkLib.NewCusApart` | crates/cli/src/worklib.rs:280-285 | after supersession and the redefinition check, no two units share a source path or a unit name |
| `WorkLib.AddAgain` | crates/cli/src/worklib.rs:282-284 | a unit with sources, added again, takes its own place: the list of units is unchanged |
| `WorkLib.DecideAgain` | crates/cli/src/worklib.rs:282-284 | repeating an identical add decides on the manifest already on disk |
| `WorkLib.PlanIsSound` | crates/cli/src/worklib.rs:286-360 | from a good library, what is written is sound and names only blobs that were there and the one given |
| `WorkLib.UncleanUnitIsWritten` | crates/cli/src/worklib.rs:313-325 | the newline check leaves unit names and kinds out: one that does not fit the line form is accepted, and the manifest no longer reads back |
| `WorkDir.Store.AddCu` | crates/cli/src/worklib.rs:286-384 | a refusal changes nothing; otherwise every state the disk goes through is before or after the manifest change as specified, and a good library stays good at every step, whichever operations fail; content addressing goes on, and an added unit reads back with the bytes given exactly when no blob of other bytes shares their half digest |
| `WorkDir.Store.Collect` | crates/cli/src/worklib.rs:373-383 | collection removes only blobs no unit names, one state at a time |
| `WorkDir.StagesAreGood` | crates/cli/src/worklib.rs:361-383 | at every step the manifest reads, names only existing blobs, and keeps its units apart |
| `WorkDir.BlobIsGiven` | crates/cli/src/worklib.rs:327-328 | content addressing goes on for every hash, and the unit's blob holds the bytes given exactly when no earlier blob of other bytes has the same half digest |
| `WorkDir.AddedIsRecorded` | crates/cli/src/worklib.rs:327-369 | after an add the library read back has the unit given, with its bytes in that unit's blob, exactly when no blob of other bytes shares their half digest |
| `LinkClosure.BuildUnitMap` | crates/cli/src/staged.rs:71-78 | a name maps to the first unit, in search order, that lists it, and every listed name is mapped |
| `LinkClosure.Load` | crates/cli/src/staged.rs:80-166 | the loop terminates; on success it has loaded the least set of units holding the tops' winners and closed under what they instantiate, each once, in the order of first mention; a failure names a top nobody lists, or a needed blob that cannot be read |
| `LinkAccount.ResolvesExactly` | crates/cli/src/staged.rs:71-78 | a name resolves to (library, unit) exactly when that unit lists it and no earlier library, and no earlier unit of the library, does |
| `LinkAccount.LoadedExactly` | crates/cli/src/staged.rs:80-166 | what is loaded is exactly what a chain of instantiations from a top leads to |
| `LinkAccount.AskedInOrder` | crates/cli/src/staged.rs:80-166 | loaded units stand in the order of their first mention, the tops first and then unit by unit |
| `LinkMerge.Merge` | crates/cli/src/staged.rs:168-219 | the merge loops yield the specified items, emitted names and time scales |
| `LinkMerge.NamesOnce` | crates/cli/src/staged.rs:168-216 | each name is emitted once |
| `LinkMerge.OnlyFromWinner` | crates/cli/src/staged.rs:200-212 | an emitted item comes from the unit that wins its name, or its name is listed nowhere |
| `LinkMerge.NothingLost` | crates/cli/src/staged.rs:189-216 | every item without a name, and every entitled name, is in the result |
| `LinkMerge.LinkedIsComplete` | crates/cli/src/staged.rs:143-154 | with accurate manifests every top and every instantiated name that any library lists is defined in the merged unit, only by its winner's item |
| `LinkAccount.MergedExactly` | crates/cli/src/staged.rs:168-216 | the merged items are, of all items as they come by in load order, those without a name and the first of each name that comes from the unit the name resolves to, in that order |
| `LinkMerge.FirstLoadedScale` | crates/cli/src/staged.rs:182-187 | the time unit and the time precision of a name are those of the first loaded unit that sets them, whoever wins the name |
| `LinkMerge.ScaleIsSome` | crates/cli/src/staged.rs:182-187 | and a name has one exactly when some loaded unit sets it |
| `LinkMerge.FinestPrecision` | crates/cli/src/staged.rs:178-181 | the merged precision is the finest of all loaded units' |
| `LinkAccount.FinalPrecision` | crates/cli/src/staged.rs:178-219 | a nanosecond when no unit sets a precision |
| `LinkAccount.FilesAre` | crates/cli/src/staged.rs:245-263 | the files recorded are the sources and includes of the loaded units |
| `LinkMerge.Consumed` | crates/cli/src/staged.rs:245-263 | the record names every source and include of every loaded unit, once per content |
| `Freshness.StampVerified` | crates/cli/src/pipeline.rs:825-842 | a stamp is given only when the bytes read hash to the digest and the length still agrees at the stat |
| `Freshness.CheckFresh` | crates/cli/src/pipeline.rs:844-872 | a matching fingerprint is trusted, anything else is hashed |
| `Freshness.FingerprintsEqual` | crates/cli/src/pipeline.rs:841-861 | two fingerprints are one exactly when second, nanosecond and length all are, and there is one exactly for a present file with a time |
| `Freshness.FastPathAgrees` | crates/cli/src/pipeline.rs:844-872 | over every history in which changes show in the fingerprint, and for a stamp taken undisturbed of a file that stays readable, the fast path says what a rehash says |
| `Freshness.SafeExactly` | crates/cli/src/pipeline.rs:825-872 | for a file that stays readable and whose changes show in its fingerprint: the fast path agrees with a rehash at every later instant if and only if no write came between the read and the stat that keeps the length and leaves another digest |
| `Freshness.AgreesExactly` | crates/cli/src/pipeline.rs:849-866 | for any stamp and file the two agree exactly unless a matching fingerprint hides an unreadable or changed file |
| `Freshness.Gate` | crates/cli/src/staged.rs:609-678 | the gate passes when every input is fresh and otherwise names the first that is not |
| `Freshness.GateIsExact` | crates/cli/src/staged.rs:602-678 | with such stamps it passes if and only if every consumed input still has the recorded content |
| `Freshness.SameLengthRace` | crates/cli/src/pipeline.rs:830-834 | the length comparison misses a same-length write between the read and the stat |
| `Freshness.FrozenTime` | crates/cli/src/pipeline.rs:849-866 | a same-length write that puts the modification time back is trusted |
| `Freshness.UnreadablePasses` | crates/cli/src/pipeline.rs:849-866 | a file that has become unreadable passes on its fingerprint |
| `HierTree.RenderHierTree` | crates/cli/src/frontend.rs:530-565 | for every instance table, the text of the recursive pre-order of every root's tree |
| `HierTree.Walk` | crates/cli/src/frontend.rs:539-557 | the explicit stack terminates and prints the recursive pre-order |
| `HierTree.DepthBound` | crates/cli/src/frontend.rs:539-557 | no chain of parents above a rooted instance comes back to itself, whatever the table |
| `HierTree.EachOnce` | crates/cli/src/frontend.rs:530-565 | an instance is printed at depth d exactly when a root is d steps above it, and once |
| `HierTree.ForestIsWhole` | crates/cli/src/frontend.rs:530-565 | a table with parents before children is printed whole |
| `HierText.OrderIsTreeOrder` | crates/cli/src/frontend.rs:534-557 | a line stands before the lines below it in the tree and before those of later siblings, wherever the two part |
| `HierText.TextExactly` | crates/cli/src/frontend.rs:530-565 | the text has one line for each rooted instance, in that order: two spaces a level, the part of the path after its last dot, and the module |
| `CaptureReach.Explore` | crates/elaborate/src/block_local_class.rs:229-252 | the queue ends with every start and everything its states name; each state is a start or was added by an earlier one |
| `CaptureReach.PathTo` | crates/elaborate/src/block_local_class.rs:253-261 | the walk back through the parents terminates and yields a genuine mention path with the state's flag |
| `CaptureReach.QueuedIsReached` | crates/elaborate/src/block_local_class.rs:222-252 | a state is queued exactly when a genuine path leads to it with its flag |
| `CaptureReach.ReachedCapturing` | crates/elaborate/src/block_local_class.rs:229-282 | exactly the capturing routines, in order: an `Other` routine on any path, a static task on a path with no automatic task before it; each with a genuine path, through no automatic task whenever there is such a path |
| `CaptureReach.CapturesExactly` | crates/elaborate/src/block_local_class.rs:222-282 | a routine captures exactly when a path of names, each standing in the text before, leads to it, and it is of the `Other` lane, or a static task with no automatic task before it on the path |
| `BlockLocal.CoexistMeans` | crates/elaborate/src/block_local_class.rs:285-288 | two branches coexist if and only if some choice of generate arms elaborates both |
| `BlockLocal.Classify` | crates/elaborate/src/block_local_class.rs:552-738 | the map holds a name at a block exactly when the two filters and the two-block floor keep one of its spans there |
| `BlockLocal.ScopedExactly` | crates/elaborate/src/block_local_class.rs:552-738 | from the reasons and the spans alone: a block has a scope for the name exactly when a declaration there earns it and the module has the name or a second declaration earns one; static shadows only and static initialised ones only all earn it, static ones with and without initialiser unless they clash, and otherwise the eligible ones that clash with no other |
| `BlockLocal.StaticPairsStay` | crates/elaborate/src/block_local_class.rs:640-712 | static shadows of a module name keep their scopes, nested or not, and so do two or more static initialised declarations |
| `BlockLocal.GatheredIs` | crates/elaborate/src/block_local_class.rs:550-552 | what is gathered under a name is what the bodies declare under it |
| `BlockLocal.NoKeptNesting` | crates/elaborate/src/block_local_class.rs:694-708 | unless all its declarations are static shadows or all are static initialised ones, no two kept blocks of a name nest while some choice of arms elaborates both |
| `BlockLocal.OrderIsIrrelevant` | crates/elaborate/src/block_local_class.rs:550-552 | feeding the same bodies in any order classifies every block the same way |
| `BlockLocal.Scoper.FeedBody` | crates/elaborate/src/block_local_feed.rs:65-82 | a body is fed once; entries are only added, and only inside the body's own span |
| `BlockLocal.ClassifierCanWithdraw` | crates/elaborate/src/block_local_feed.rs:54-57 | the joint classifier alone can withdraw a scope elsewhere |
| `BlockLocal.FeedOnlyAdds` | crates/elaborate/src/block_local_feed.rs:54-57 | it cannot when the new declarations nest with no old one and the all-static exemptions stand |
| `BlockLocal.WithdrawnExactly` | crates/elaborate/src/block_local_feed.rs:54-57 | for new declarations that nest with no old one: a kept block is withdrawn if and only if the feed costs the name the exemption and the block is around an old one, or costs the second only and it nests beside an old one that can coexist, or too few candidates are left |
| `ScopeKeys.ScopePrefix` | crates/elaborate/src/block_local_class.rs:1163-1179 | enclosing scoped blocks count, the declaring block only when it selects the declaration |
| `ScopeKeys.WalkOut` | crates/elaborate/src/scope.rs:180-237 | the outward walk finds the innermost scope that holds the name, and stops at a closed one |
| `ScopeKeys.FindsInnermost` | crates/elaborate/src/scope.rs:180-237 | a lookup finds the innermost enclosing block at which a local of the name is reserved |
| `ScopeKeys.FindsOwn` | crates/elaborate/src/block_local_class.rs:1148-1162 | at every nesting depth, a statement inside a selecting block finds that block's own net if and only if no local of the name is reserved at a block between |
| `ScopeKeys.KeysDiffer` | crates/elaborate/src/block_local_class.rs:1135-1146 | two locals share a prefix if and only if they are reserved at one block, and a selected one is reserved at its own |
| `ScopeKeys.PrefixExactly` | crates/elaborate/src/block_local_class.rs:1163-1179 | one segment for each enclosing block that is scoped at all, and one for the declaring block exactly when the map selects one of the names declared together there |
| `ScopeKeys.LookupExactly` | crates/elaborate/src/scope.rs:180-237 | a lookup answers with a scope if and only if the scope is at or around its start, holds the name, and every scope passed on the way holds nothing of that name and is transparent |
| `ScopeKeys.UnselectedShares` | crates/elaborate/src/block_local_class.rs:1155-1158 | an unselected local, with no scoped block between, is reserved under the prefix of the selecting block around it |

## Left out

- Emitter.Elaborator.Push: the records kept beside the arena for diagnostics (source locations, scopes, provenance) are not modelled.
- ArrayGeom.SealIndexUnsigned: a sealed form of more than 32 bits (an unsigned constant or packed offset of 32 bits and more, a wide index handed over as it is) keeps its number but gets no 32-bit meaning; the facts about the index (constant, repeatable, provably unsigned) are inputs.
- ArrayGeom.FlattenWordEids: likewise, lists with such an index get no address.
- FlattenSource.FlattenWord: how an index is lowered is a parameter, any procedure that only appends nodes and whose index is read alike wherever it is lowered; indices that cannot be lowered are not modelled.
- IndexSigns.StableHolds: one way only above literals, nets and remainders of stable operands; an expression that fails the check may still cancel, as a difference with itself does.
- Ir.EvalExtends: operators the modelled passes do not emit, real and string values, and system functions other than the sign casts take their value from the store; widths above 2^24 are clamped as in the engine.
- AssocKey.NeverUnknown: node kinds the model does not interpret answer "may be unknown", where the code looks further.
- KeywordKeys.KeepsWidens: one way only; a sum that happens not to wrap fails the check (`KeywordKeys.SumKeyExactly` covers sums of operands that pass), and node kinds the model does not interpret fail it.
- ManifestContent.ContentDecides: how far the spelling of a line may differ (escapes, indentation, the case of digits) is left to the reader's definition.
- FormalCalls.LowerPackedRead: whole elements only, no bit or part select of an element.
- SliceCopy.AssignArray: assignment patterns are not modelled; when a delayed nonblocking copy matures is left to the scheduler.
- ArrayFormal.CopyByIndex: sizes up to 2^24 words and bits, as the elaborator allows for arrays.
- BodyRuns.ReadSetComplete: a run ends at a delay, wait, fork or return; what a function or task reads itself is an input, and effects on a net may depend on that net and the evaluated values.
- CommentStrip.StripComments: works on characters; the code scans bytes, where the marks never occur inside a longer character.
- FileTokens.ExpandsExactly: the invocation directory is absolute, as the operating system gives it; the text of warnings is part of `Filelist.Expander.ExpandFile` only.
- Filelist.Expander.ExpandFile: the file system does not change during the expansion, and a body is text when it can be read.
- FilelistArgs.ExpandArgv: the comparison of inherited time scales between dropped duplicates is a parameter; the expansion of environment references inside a token is too.
- WorkDir.Store.AddCu: one process; a write is atomic or fails, and reading the manifest does not fail.
- LinkClosure.Load: names instantiated by a unit, and the decoding of a blob, are parameters; source maps are dropped by the code as well.
- CaptureReach.ReachedCapturing: the form in which a name is looked for in a routine's text is a parameter, and the gathering of routines from the syntax tree is not modelled. That the path found is a shortest one is not stated.
- BlockLocal.Classify: which declarations are admitted, and for which reason, is an input.
- ScopeKeys.FindsOwn: prefixes are sequences of segments, not dotted strings; a block's start identifies it.
- HierTree.RenderHierTree: instance indices are unbounded numbers.
- Freshness.FastPathAgrees: the file does not change between the stat and the read of one check.
- Parsing, preprocessing, elaboration proper, the simulator, command-line parsing, diagnostics' wording, VCD output, process handling and the corpus runner.
