# Verified models of four algorithms in the vendored Clang headers

Most functions in `include/clang` forward to one compiler builtin.  Four places are algorithms written
out in C; this project models those four and proves what they are for.

* **`__swp`** (section 8.5 "Swap" of the Arm C Language Extensions): a load-exclusive/store-exclusive
  retry loop.  `SwapProtocol` is a step system with any number of threads, one word and an exclusive
  monitor; a load-exclusive tags its thread, every store that takes effect clears all tags, and a
  store-exclusive succeeds exactly when its thread is still tagged.  Tags may be lost for no reason and
  other agents may store to the word.  `SwapAtomic` proves that it implements an indivisible exchange,
  `SwapBound` that it terminates, with an exact bound, and `SwapMachine` runs the loop itself as an
  imperative method on a shared machine whose history is a run of that system, so the theorems of the
  other modules apply to it.  An endless call is described by what holds after its first n passes, for
  every n.
* **The integer horizontal reductions of AVX-512F.**  `Folds` treats the combining networks over 2^k
  lanes and any associative, commutative operator; `Reductions` writes out the three integer
  definitions of the macro `_mm512_mask_reduce_operator`, the eight lane operators, the fill constants
  and the mask moves; `ReductionLaws` says what each reduction computes and how reductions relate.
* **`cmse_check_address_range`** (the address range check intrinsic of the ARMv8-M Security Extensions:
  Requirements on Development Tools).  `AddressRange` models the function with its 32-bit wrap-around,
  its granule shortcut and both switches, against an explicit attribution table for each of the four
  query instructions; `AddressRangeLaws` gives its meaning and its laws.
* **Lane and bit permutations.**  `DataProcessing` has the rotations and reversals of section 9.2 of the
  Arm C Language Extensions over words of any width; `Unpack` has the sixteen unpack intrinsics with
  their literal index lists, and the perfect-shuffle theorem for any block size and number of blocks.
  `Words` provides machine words as integers of explicit width, with every operator described bit by bit.

Environment assumptions are explicit: the builtins have their instruction's meaning (load/store
exclusive, TT, byte swap, bit reversal, shuffle, select, lane-wise arithmetic), and the attribution
tables consist of contiguous regions of whole 32-byte granules that cover the 32-bit address space.

## Where the code does less, or other, than its comments say

* `include/clang/arm_cmse.h:162` says that comparing the two query results checks that the range crosses
  no region boundary.  The results can be equal although it does.  Three theorems say exactly when each
  of three things a caller may expect holds over all ranges.
  A range passes exactly when it lies in one region and every byte is permitted, if and only if no two
  regions share a granting query result (`CheckIsExact`, `MeaningIsExact`).
  Every part of a range that passes also passes, if and only if no region with another result lies
  between two that share a granting one (`SubrangeIsExact`; the same condition for `SplitIsExact`).
  Every byte of a range that passes is permitted, if and only if no region that does not grant the
  request lies between two that share a granting result (`BytesAreExact`).  `AmbiguousExample` is a
  table and a range that break all three.
* `include/clang/avx512fintrin.h:9303-9305` describes every reduction as repeated halving.  The 64-bit
  min and max keep all eight lanes in every step; the result is the same (`BodyIsFold`).

## Model

| member | source | states |
|---|---|---|
| `SwapMachine.Machine.Swp` | include/clang/arm_acle.h:72-79 | one call followed for any number n of passes under any, also endless, interference, which happens exactly as given between its accesses; when it returns it has made exactly one successful store, of its argument, at a point between call and return where the word held the returned value; when it has not returned it has stored nothing, failed n times and been disturbed at least n times; undisturbed, it returns the word and stores the argument in one pass of one load and one store |
| `SwapMachine.Machine.Retry` | include/clang/arm_acle.h:75-77 | the do-while loop, followed for any number n of passes: each is one load-exclusive and one store-exclusive with exactly the given interference before each access; it ends with a successful store of the argument as its last step and no earlier one, or all n passes failed; undisturbed, its first pass succeeds |
| `SwapMachine.Machine.Pass` | include/clang/arm_acle.h:75-77 | one pass is a load-exclusive and a store-exclusive with the given interference before and between them; its status is 0 exactly when the store took effect, and nothing in between means success |
| `SwapMachine.Machine.LoadExclusive` | include/clang/arm_acle.h:76 | returns the word and sets the reservation of the thread, nothing else |
| `SwapMachine.Machine.StoreExclusive` | include/clang/arm_acle.h:77 | 0 and the word written and all reservations cleared when the reservation still stands, in which case the loaded value is still the current one; otherwise 1 and the word unchanged |
| `SwapMachine.Machine.Others` | include/clang/arm_acle.h:72-79 | exactly those of the given events happen that are possible and not steps of this thread, in order (`InterferenceExtend` and `InterferenceOfRun` say which these are) |
| `SwapMachine.InterferenceExtend` | include/clang/arm_acle.h:72-79 | one more given event happens exactly when it is enabled after what has happened before it and is not a step of the calling thread |
| `SwapMachine.InterferenceOfRun` | include/clang/arm_acle.h:72-79 | events of others that can happen one after the other all happen, as given |
| `SwapMachine.DrivenPass` | include/clang/arm_acle.h:75-77 | the accesses of a call are alternately loads and stores with the given interference, and nothing else, before each |
| `SwapMachine.UndisturbedHistory` | include/clang/arm_acle.h:75-77 | with nothing in between, a pass is one load and the store that follows it at once, with the same value |
| `SwapProtocol.StepKeepsInv` | include/clang/arm_acle.h:73-78 | every step keeps: a thread that holds its reservation has the current memory value in `v` |
| `SwapProtocol.RunKeepsInv` | include/clang/arm_acle.h:73-78 | that invariant in every reachable state of every interleaving |
| `SwapProtocol.WinReplacesItsValue` | include/clang/arm_acle.h:75-78 | a successful store replaces exactly the value its call returns |
| `SwapProtocol.SwapsFormChain` | include/clang/arm_acle.h:72-79 | in every run the completed calls and the outside stores, in the order they take effect, form one chain from the initial to the current memory value; when nothing is stored from outside, the completed calls alone do |
| `SwapProtocol.ChainAt` | include/clang/arm_acle.h:72-79 | what the chain says: the first call returns the initial value, each later one what the one before it stored, and the last argument is in memory |
| `SwapProtocol.Conservation` | include/clang/arm_acle.h:73-78 | in every run the initial value, the arguments of completed swaps and the values stored from outside are, as a multiset, the returned values, the values overwritten from outside and the current memory value; when nothing is stored from outside, only the values of the calls appear |
| `SwapAtomic.StepRefines` | include/clang/arm_acle.h:72-79 | each step is one step of the atomic machine or invisible to it |
| `SwapAtomic.RunRefines` | include/clang/arm_acle.h:72-79 | every run of the retry loop, spurious failures and outside stores included, is a run of indivisible exchanges with the same final state |
| `SwapAtomic.SameVisible` | include/clang/arm_acle.h:72-79 | that atomic run has the same calls, returns and outside stores in the same order |
| `SwapAtomic.EffectBetweenCallAndReturn` | include/clang/arm_acle.h:72-79 | a returned call has exactly one exchange, after its call and before its return, with its argument and result |
| `SwapAtomic.SwapIsAtomic` | include/clang/arm_acle.h:72-79 | linearizability: the three facts above together, for every run from an initial state |
| `SwapAtomic.ExchangeReturnsLastStored` | include/clang/arm_acle.h:72-79 | every exchange returns the value stored last before it, outside stores included |
| `SwapAtomic.AtomicRunRealized` | include/clang/arm_acle.h:72-79 | conversely every run of atomic exchanges can be produced by the retry loop |
| `SwapAtomic.RealizedRunAbstracts` | include/clang/arm_acle.h:72-79 | the run so produced shows exactly the given exchanges |
| `SwapBound.AccessesAreBounded` | include/clang/arm_acle.h:75-77 | in every run, c calls with l spurious losses and w outside stores make at most c(c+1) + 2l + 2cw exclusive accesses and c(c-1)/2 + l + cw failing stores |
| `SwapBound.UndisturbedAccesses` | include/clang/arm_acle.h:75-77 | the bounds c(c+1) and c(c-1)/2 when a store fails only because another call stored |
| `SwapBound.BoundIsAttained` | include/clang/arm_acle.h:75-77 | for every n some run of n calls makes exactly n(n+1) accesses with n(n-1)/2 failures, so the bounds cannot be improved |
| `SwapBound.StepCost` | include/clang/arm_acle.h:75-77 | the termination measure: each exclusive access is paid for by a drop of the potential of the state |
| `SwapBound.WinnerFailsAtMostItsRank` | include/clang/arm_acle.h:75-77 | the call whose store succeeds as number k, from 0, failed at most k times, one more per outside store or spurious loss |
| `SwapBound.OwnFailsAreCaused` | include/clang/arm_acle.h:75-77 | the failures of one call are at most the stores and losses that disturbed it since it began |
| `SwapBound.RunsAreShort` | include/clang/arm_acle.h:72-79 | a run with c calls, l spurious losses and w outside stores has at most c(c+3) + 3l + 2cw + w events |
| `SwapBound.EverySchedulerFinishes` | include/clang/arm_acle.h:72-79 | however far a run has followed a scheduler, fair or not, from any point of any run, it is within that bound, and every call has returned or the picked thread can take its next step |
| `SwapBound.SchedulerReaches` | include/clang/arm_acle.h:72-79 | following any scheduler leads to a run in which every call has returned |
| `SwapBound.NextIsOnly` | include/clang/arm_acle.h:75-77 | a thread in a call has exactly one step it can take |
| `SwapBound.OwnFailsExtend` | include/clang/arm_acle.h:75-77 | the failures of a call are its failing stores since it began |
| `SwapBound.DisturbancesExtend` | include/clang/arm_acle.h:75-77 | the disturbances of a call are, since it began, the successful stores, the outside stores and the losses of its own reservation |
| `Folds.NetworkIsFold` | include/clang/avx512fintrin.h:9298-9317 | for every 2^k lanes, every number of halving steps and every associative, commutative operator, each lane of the final vector is the left fold of the input |
| `Folds.ButterflyIsFold` | include/clang/avx512fintrin.h:9486-9493 | every lane of the full-width network is the left fold |
| `Folds.FoldPermute` | include/clang/avx512fintrin.h:9298-9306 | the fold does not depend on the order of the lanes |
| `Folds.FoldSelect` | include/clang/avx512fintrin.h:9335-9357 | replacing inactive lanes by a unit leaves the fold of the active lanes |
| `Reductions.Halving64IsNetwork` | include/clang/avx512fintrin.h:9308-9317 | the macro body for 64-bit add, mul, and, or is two halvings and one exchange of the general network |
| `Reductions.Halving32IsNetwork` | include/clang/avx512fintrin.h:9392-9403 | the macro body for 32-bit lanes (and its twin at 9540-9551) is two halvings and two exchanges |
| `Reductions.Exchanging64IsNetwork` | include/clang/avx512fintrin.h:9486-9493 | the macro body for 64-bit min and max is the full-width network |
| `Reductions.BodyIsFold` | include/clang/avx512fintrin.h:9308-9317 | every lane of the final vector of each body, not only the returned lane 0, is the fold |
| `Reductions.CombineAC` | include/clang/avx512fintrin.h:9319-9333 | each of the eight lane operators, with its wrap-around or signedness, is associative and commutative |
| `Reductions.FillIsUnit` | include/clang/avx512fintrin.h:9335-9357 | each fill constant is neutral for its operator at its own width and signedness |
| `Reductions.FillIsLeast` | include/clang/avx512fintrin.h:9515-9537 | the fill constant of min or max never beats a lane |
| `Reductions.MaskedIs512` | include/clang/avx512fintrin.h:5228-5256 | the mask moves keep active lanes and put the fill constant into inactive ones |
| `ReductionLaws.ReduceIsTotal` | include/clang/avx512fintrin.h:9319-9333 | every unmasked reduction is the plain left fold of its lanes |
| `ReductionLaws.MaskReduceIsTotal` | include/clang/avx512fintrin.h:9335-9357 | every masked reduction is the left fold of exactly the lanes whose mask bit is set |
| `ReductionLaws.ReduceHasItsType` | include/clang/avx512fintrin.h:9319-9357 | every masked and unmasked reduction is a value of its declared type, unsigned for the unsigned min and max and signed otherwise, congruent to the fold |
| `ReductionLaws.EmptyMask` | include/clang/avx512fintrin.h:9425-9447 | with no active lane the result is the identity of the operator as a value of the result type |
| `ReductionLaws.ReduceAdd` | include/clang/avx512fintrin.h:9319-9321 | reduce_add is the exact sum of the (active) lanes wrapped once |
| `ReductionLaws.ReduceMul` | include/clang/avx512fintrin.h:9323-9325 | reduce_mul is the exact product of the (active) lanes wrapped once |
| `ReductionLaws.ReduceAnd` | include/clang/avx512fintrin.h:9327-9329 | a bit of reduce_and is set exactly when it is set in every (active) lane, and the result is a value of the signed result type |
| `ReductionLaws.ReduceOr` | include/clang/avx512fintrin.h:9331-9333 | a bit of reduce_or is set exactly when it is set in some (active) lane, and the result is a value of the signed result type |
| `ReductionLaws.ReduceExtremum` | include/clang/avx512fintrin.h:9495-9537 | reduce_max and reduce_min are the greatest and least (active) lane value, signed or unsigned as named |
| `ReductionLaws.ReducePermuted` | include/clang/avx512fintrin.h:9298-9306 | permuting the lanes changes no unmasked reduction |
| `ReductionLaws.MaskReduceByActive` | include/clang/avx512fintrin.h:9335-9357 | a masked reduction depends only on which words the active lanes hold, and how often |
| `ReductionLaws.MaskReducePermuted` | include/clang/avx512fintrin.h:9335-9357 | permuting lanes and mask bits together changes no masked reduction |
| `ReductionLaws.ReduceZip` | include/clang/avx512fintrin.h:9319-9333 | the reduction of lane-wise combined vectors combines the two reductions |
| `ReductionLaws.MaskSplit` | include/clang/avx512fintrin.h:9335-9357 | reducing under the union of two masks combines the two masked reductions: disjoint masks for add and mul, any masks for and, or, min, max |
| `ReductionLaws.MaskComplement` | include/clang/avx512fintrin.h:9319-9357 | a full reduction combines the reductions under a mask and its complement |
| `ReductionLaws.MaskNegation` | include/clang/avx512fintrin.h:9319-9357 | the same for the C complement of the mask, as an unsigned mask of one bit for each lane |
| `ReductionLaws.UnpackPreservesReductions` | include/clang/avx512fintrin.h:4202-4281 | reductions of unpacklo and unpackhi of two vectors combine to what the reductions of the vectors combine to |
| `ReductionLaws.CrossWidth` | include/clang/avx512fintrin.h:9415-9423 | the 32-bit and/or of a vector is the and/or of the low and high half of its 64-bit reduction |
| `ReductionLaws.JoinedLane` | include/clang/avx512fintrin.h:9415-9423 | the 64-bit view of a vector of 32-bit lanes: wide lane j is narrow lane 2j plus 2^k times narrow lane 2j+1 |
| `ReductionLaws.JoinedBit` | include/clang/avx512fintrin.h:9415-9423 | the same bit by bit |
| `AddressRange.WrapTest` | include/clang/arm_cmse.h:126-130 | for sizes of at least 1 the wrap test fires exactly when the range leaves the 32-bit address space |
| `AddressRange.EmptyRange` | include/clang/arm_cmse.h:126-130 | size 0 always gives the null pointer, also at address 0 where the wrap test does not fire |
| `AddressRange.GranuleTest` | include/clang/arm_cmse.h:132-133 | `(begin ^ end) < 0x20` holds exactly when both addresses share a 32-byte granule |
| `AddressRange.SameGranule` | include/clang/arm_cmse.h:132-160 | addresses of one granule have the same attribution |
| `AddressRange.CheckWithoutShortcut` | include/clang/arm_cmse.h:124-194 | the check with the shortcut removed: skipping the second query never changes the answer |
| `AddressRange.CheckByte` | include/clang/arm_cmse.h:124-194 | the check of one byte is the test on its query result |
| `AddressRangeLaws.QueryChosen` | include/clang/arm_cmse.h:137-194 | flags 0, 4, 16 and 20 choose the TT, TTT, TTA and TTAT query for both ends, the last two in secure mode only, and the range passes exactly when both results agree and the field that flags 1, 2 and 8 ask for is set |
| `AddressRangeLaws.GrantsIsField` | include/clang/arm_cmse.h:165-194 | which field the second switch reads for every flag word, and that every other flag word is refused |
| `AddressRangeLaws.OtherTablesUnused` | include/clang/arm_cmse.h:138-160 | the answer depends on the chosen query instruction only |
| `AddressRange.Sound` | include/clang/arm_cmse.h:162-194 | when query results tell granting regions apart, a range that passes lies in one region and every byte of it passes |
| `AddressRange.Complete` | include/clang/arm_cmse.h:162-194 | a range in one region whose every byte passes always passes |
| `AddressRange.SpanningRange` | include/clang/arm_cmse.h:162-164 | two regions with the same granting result: a concrete range that passes although it spans both |
| `AddressRange.CheckIsExact` | include/clang/arm_cmse.h:124-194 | the two-endpoint check agrees with the per-byte check on all ranges if and only if no two regions share a granting query result |
| `AddressRangeLaws.GrantsIsPermits` | include/clang/arm_cmse.h:166-194 | the second switch, which reads one field, grants exactly the conjunction of all requests |
| `AddressRangeLaws.UnsupportedRefused` | include/clang/arm_cmse.h:138-193 | every unsupported flag combination gives the null pointer |
| `AddressRangeLaws.CheckMeaning` | include/clang/arm_cmse.h:124-194 | for supported flags and consistent query results: a range that does not wrap, lies in one region and has every requested permission at every byte passes; only such ranges pass when no two regions share a granting query result |
| `AddressRangeLaws.MeaningIsExact` | include/clang/arm_cmse.h:124-194 | exactly those ranges pass, over all ranges, if and only if no two regions share a granting query result |
| `AddressRangeLaws.WeakerRequest` | include/clang/arm_cmse.h:138-193 | a request that asks for less passes wherever the stronger one does, for every selected query instruction |
| `AddressRangeLaws.ReadWriteImpliesRead` | include/clang/arm_cmse.h:171-190 | passing with read-write implies passing with read |
| `AddressRangeLaws.NonsecureAlone` | include/clang/arm_cmse.h:171-182 | in secure mode, passing with access and non-secure implies passing with non-secure alone |
| `AddressRangeLaws.Subrange` | include/clang/arm_cmse.h:126-194 | a part of a range that passes, passes when its ends have the query result of the range, and hence always when no region with another result lies between two that share a granting one |
| `AddressRangeLaws.SubrangeIsExact` | include/clang/arm_cmse.h:126-194 | passing carries over to all parts if and only if no region with another result lies between two that share a granting one |
| `AddressRangeLaws.InterruptedRange` | include/clang/arm_cmse.h:162-164 | where a region with another result does lie between: a concrete range passes and a part of it does not |
| `AddressRangeLaws.Split` | include/clang/arm_cmse.h:126-194 | two parts that pass with the same query result make a range that passes; conversely, when no region with another result lies between two that share a granting one, a range passes only if its parts do with the same result |
| `AddressRangeLaws.SplitIsExact` | include/clang/arm_cmse.h:126-194 | the splitting law holds for all ranges and cuts if and only if no region with another result lies between two that share a granting one |
| `AddressRangeLaws.ByteOfRange` | include/clang/arm_cmse.h:162-194 | every byte of a range that passes has the requested permission, when every region between two that share a granting result grants too |
| `AddressRangeLaws.UnpermittedByte` | include/clang/arm_cmse.h:162-164 | otherwise: a concrete range that passes over a byte without permission |
| `AddressRangeLaws.BytesAreExact` | include/clang/arm_cmse.h:124-194 | every byte of every passing range has the requested permission if and only if no region without it lies between two that share a granting query result |
| `AddressRangeLaws.AmbiguousExample` | include/clang/arm_cmse.h:162-164 | a concrete table and range: the check passes over an unreadable byte |
| `DataProcessing.RorBit` | include/clang/arm_acle.h:114-128 | rotation by y moves bit (i+y) mod width to bit i, for every width |
| `DataProcessing.RorCompose` | include/clang/arm_acle.h:114-128 | rotations compose by adding their counts |
| `DataProcessing.RorComposeWrapping` | include/clang/arm_acle.h:114-128 | also when the sum of the counts wraps in 32 bits |
| `DataProcessing.RorInverse` | include/clang/arm_acle.h:114-128 | every rotation has an inverse |
| `DataProcessing.RbitConjugatesRor` | include/clang/arm_acle.h:223-226 | bit reversal turns a rotation by y into one by -y |
| `DataProcessing.BswapBit` | include/clang/arm_acle.h:176-194 | byte reversal, bit by bit, for any number of bytes |
| `DataProcessing.BswapByte` | include/clang/arm_acle.h:176-194 | byte k of the reversed word is byte n-1-k of the word |
| `DataProcessing.BswapInvolution` | include/clang/arm_acle.h:176-194 | byte reversal is its own inverse |
| `DataProcessing.RbitBit` | include/clang/arm_acle.h:222-236 | bit reversal, bit by bit, for any width |
| `DataProcessing.RbitInvolution` | include/clang/arm_acle.h:222-236 | bit reversal is its own inverse |
| `DataProcessing.Rev16Bit` | include/clang/arm_acle.h:196-200 | `__rev16` exchanges neighbouring bytes |
| `DataProcessing.Rev16SwapsHalfwords` | include/clang/arm_acle.h:196-200 | each halfword of `__rev16(t)` is that of `t` with its bytes swapped |
| `DataProcessing.Rev16EitherOrder` | include/clang/arm_acle.h:196-200 | rotating before reversing gives the same word |
| `DataProcessing.Rev16Involution` | include/clang/arm_acle.h:196-200 | `__rev16` is its own inverse |
| `DataProcessing.Rev16llSwapsHalfwords` | include/clang/arm_acle.h:202-205 | the same on the four halfwords of 64 bits |
| `DataProcessing.Rev16llInvolution` | include/clang/arm_acle.h:202-205 | `__rev16ll` is its own inverse |
| `DataProcessing.Rbitll32IsReversal` | include/clang/arm_acle.h:228-236 | the 32-bit-state `__rbitll`, two 32-bit reversals exchanged, is true 64-bit reversal |
| `Unpack.RiffleRotatesIndex` | include/clang/avx512bwintrin.h:1260-1366 | one unpack pair on a block pair of 2^m lanes is a perfect shuffle: lane q receives the lane whose m-bit index is q rotated by one |
| `Unpack.RifflesRotateIndex` | include/clang/avx512bwintrin.h:1260-1366 | k steps rotate the index bits by k |
| `Unpack.StepsByBlock` | include/clang/avx512bwintrin.h:1260-1366 | on whole vectors every block goes through those shuffles on its own |
| `Unpack.StepsCycle` | include/clang/avx512bwintrin.h:1260-1366 | m unpack pairs restore both vectors, for every block size 2^(m-1) and any number of blocks |
| `Unpack.StepsUndo` | include/clang/avx512bwintrin.h:1260-1366 | m-1 further pairs undo one |
| `Unpack.UnpackConserves` | include/clang/avx512fintrin.h:4202-4281 | the two unpacked vectors hold exactly the lanes of the operands |
| `Unpack.ShuffleIsUnpack` | include/clang/avx512fintrin.h:4202-4281 | an index list made of the per-block rows computes an unpack, for any lane width and any number of blocks |
| `Unpack.Mm512UnpackHiEpi8` | include/clang/avx512bwintrin.h:1260-1278 | the literal index list of this intrinsic is the block-wise interleaving of upper halves |
| `Unpack.Mm512UnpackHiEpi16` | include/clang/avx512bwintrin.h:1295-1305 | the literal index list of this intrinsic is the block-wise interleaving of upper halves |
| `Unpack.Mm512UnpackLoEpi8` | include/clang/avx512bwintrin.h:1322-1340 | the literal index list of this intrinsic is the block-wise interleaving of lower halves |
| `Unpack.Mm512UnpackLoEpi16` | include/clang/avx512bwintrin.h:1357-1367 | the literal index list of this intrinsic is the block-wise interleaving of lower halves |
| `Unpack.Mm512UnpackHiEpi32` | include/clang/avx512fintrin.h:4202-4209 | the literal index list of this intrinsic is the block-wise interleaving of upper halves |
| `Unpack.Mm512UnpackLoEpi32` | include/clang/avx512fintrin.h:4228-4235 | the literal index list of this intrinsic is the block-wise interleaving of lower halves |
| `Unpack.Mm512UnpackHiEpi64` | include/clang/avx512fintrin.h:4254-4258 | the literal index list of this intrinsic is the block-wise interleaving of upper halves |
| `Unpack.Mm512UnpackLoEpi64` | include/clang/avx512fintrin.h:4277-4281 | the literal index list of this intrinsic is the block-wise interleaving of lower halves |
| `Unpack.Mm256UnpackHiEpi8` | include/clang/avx2intrin.h:653-656 | the literal index list of this intrinsic is the block-wise interleaving of upper halves |
| `Unpack.Mm256UnpackHiEpi16` | include/clang/avx2intrin.h:659-662 | the literal index list of this intrinsic is the block-wise interleaving of upper halves |
| `Unpack.Mm256UnpackHiEpi32` | include/clang/avx2intrin.h:665-668 | the literal index list of this intrinsic is the block-wise interleaving of upper halves |
| `Unpack.Mm256UnpackHiEpi64` | include/clang/avx2intrin.h:671-674 | the literal index list of this intrinsic is the block-wise interleaving of upper halves |
| `Unpack.Mm256UnpackLoEpi8` | include/clang/avx2intrin.h:677-680 | the literal index list of this intrinsic is the block-wise interleaving of lower halves |
| `Unpack.Mm256UnpackLoEpi16` | include/clang/avx2intrin.h:683-686 | the literal index list of this intrinsic is the block-wise interleaving of lower halves |
| `Unpack.Mm256UnpackLoEpi32` | include/clang/avx2intrin.h:689-692 | the literal index list of this intrinsic is the block-wise interleaving of lower halves |
| `Unpack.Mm256UnpackLoEpi64` | include/clang/avx2intrin.h:695-698 | the literal index list of this intrinsic is the block-wise interleaving of lower halves |

## Left out

- AddressRangeLaws.CheckMeaning: assumes (as does `MeaningIsExact`) that the fields of a query result agree with each other (read-write implies read; in secure mode the non-secure fields are the plain ones for memory that is not secure), which the instructions guarantee and the header relies on.
- Memory order, alignment faults and the size of the exclusives reservation granule: the monitor covers exactly the one word.
- Addresses that no region covers: the tables must cover the address space.  A background area can be given as a region of its own, with a result it may share with another one.
- The bit layout of `cmse_address_info_t`, big-endian or little-endian: the result is a record of its named fields, which fill the word; in the non-secure build some of those fields are unnamed bits, which the comparison of whole words still sees.
- The other `arm_cmse.h` helpers (function-pointer variants, non-secure function pointers, `cmse_nonsecure_caller`): casts and single tests.
- `__rorl`, `__revl`, `__rev16l`, `__rbitl`: selection by the size of `long` between functions that are modelled.
- `__clz`, `__cls`, `__revsh` and all other one-builtin wrappers of the headers (AES, carry-less multiply, ADX, AMX, CDE, compress, expand, gather, scatter and so on): no algorithm in the source.
- Floating-point operations and the `_pd`/`_ps` reductions: their addition is not associative and rounding lives in the builtins.
- Masked and zero-masked unpack wrappers, casts, comparison macros and other `set` constructors: one line each.
- Barriers, hints, system registers, memory tagging, transactional memory and plain loads and stores: hardware effects.
- `include/__xvsa_common.h` and the preprocessor configuration, except the switches `__ARM_CMSE_SECURE_MODE` and `__ARM_32BIT_STATE`: no behaviour.
