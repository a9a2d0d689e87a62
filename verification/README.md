# JAX loop primitives, Mosaic GPU shape utilities and the FFI call front end, in Dafny

This project models three parts of JAX.

**Loop primitives** (`jax/_src/lax/control_flow/loops.py`). This covers the
bookkeeping that `scan`, `while_loop`, `fori_loop` and `associative_scan`
do around a traced body:

- the reference semantics of `scan` and the unrolled implementation that
  must agree with it;
- the carry fixpoints of the JVP, batching and dead-code rules;
- the checks and operand layout of `scan` transposition;
- the batch-dimension bookkeeping of the `scan` and `while` batching rules;
- the forwarding front ends, which move loop-invariant carries into the
  constants;
- effect joining and the abstract evaluation of `while`;
- the `fori_loop` lowering, and Blelloch's parallel prefix algorithm with
  the cumulative-reduction shape rules.

Traced bodies and the JAX transformations (`jvp_jaxpr`, `batch_jaxpr`,
`dce_jaxpr`, `_jaxpr_forwarding`) are parameters. The model states only the
properties of them the loop code relies on.

**Mosaic GPU utilities** (`jax/experimental/mosaic/gpu/utils.py`). This
covers:

- row-major strides, tiling, `ceil_div`, and the `Partition` and
  `Partition1D` work-splitting helpers;
- `parse_indices` and `DynamicSlice`;
- the memref fold/unfold/reshape helpers, with their shapes, strides and
  reassociation lists;
- the static divisibility analysis `is_known_divisible`;
- the parity bookkeeping of `BarrierRef`.

MLIR values are replaced by what the code computes about them: static
shapes, strides and offsets, and 32-bit words.

**The FFI call front end** (`jax/_src/ffi.py`). This covers:

- layout conversion;
- the argument validation of `ffi_call`;
- the input/output alias checks;
- hashable keyword attributes and their round trip;
- the abstract evaluation, differentiation and batching rules of
  `ffi_call_p`.

Python errors are the `Error` values of module `Results`. A `Result` is
either `Ok(value)` or `Err(error)`. Python lists are sequences. Python dicts
are item sequences with distinct keys, and `KeyOrder.ToMap` reads such a
sequence as a map.

## Model

| member | source | states |
|---|---|---|
| CarryFixpoint.Iterate | jax/_src/lax/control_flow/loops.py:586-597 | when the bounded loop of rounds succeeds, its carry is a fixpoint of the round and includes the starting flags |
| CarryFixpoint.Fixpoint | jax/_src/lax/control_flow/loops.py:586-597 | with `1 + len(carry)` rounds, a success is a fixpoint of the round that is above the seed |
| CarryFixpoint.FixpointConverges | jax/_src/lax/control_flow/loops.py:586-597 | a round that never clears a flag always reaches its fixpoint within `1 + len(carry)` rounds, so the "Fixpoint not reached" assertion cannot fire |
| CarryFixpoint.IterateConverges | jax/_src/lax/control_flow/loops.py:587-595 | each round that changes the carry sets at least one more flag, so more rounds than unset flags suffice |
| CarryFixpoint.NonExtensiveCanFail | jax/_src/lax/control_flow/loops.py:595-597 | a round that may clear flags can oscillate and hit the assertion failure |
| CarryFixpoint.FixpointIsLeast | jax/_src/lax/control_flow/loops.py:586-597 | for a monotone round, the fixpoint found lies below every post-fixpoint above the seed, so the rule marks no more carries than needed |
| CarryFixpoint.IterateIsLeast | jax/_src/lax/control_flow/loops.py:586-597 | every intermediate carry stays below any post-fixpoint above the seed |
| CarryFixpoint.ScanRoundExtensive | jax/_src/lax/control_flow/loops.py:588-590 | a transform that honours `instantiate=carry` gives a scan round that never clears a carry flag |
| CarryFixpoint.WhileRoundExtensive | jax/_src/lax/control_flow/loops.py:1743-1745 | the while round, which instantiates the carry, never clears a flag |
| CarryFixpoint.DceRoundExtensive | jax/_src/lax/control_flow/loops.py:1171-1176 | the DCE round, whose instantiate covers the used carry outputs, never clears a used-carry flag |
| CarryFixpoint.ScanCarryFlags | jax/_src/lax/control_flow/loops.py:586-597 | a successful carry vector covers the initial carry flags and is stable under one more round |
| CarryFixpoint.ScanCarryFlagsConverge | jax/_src/lax/control_flow/loops.py:1121-1133 | the scan JVP and batching carry loops succeed for every transform that honours instantiate |
| CarryFixpoint.WhileCarryFlags | jax/_src/lax/control_flow/loops.py:1743-1750 | a successful result covers the initial carry flags and is stable under the while round |
| CarryFixpoint.WhileCarryFlagsConverge | jax/_src/lax/control_flow/loops.py:1743-1750 | the while batching fixpoint is always reached |
| CarryFixpoint.ScanDce | jax/_src/lax/control_flow/loops.py:1163-1202 | the equation is dropped only when no output is used and there are no effects; otherwise the used outputs grow, and the new `num_consts`/`num_carry` count the used inputs, with used carry inputs matching used carry outputs |
| CarryFixpoint.ScanDceConverges | jax/_src/lax/control_flow/loops.py:1171-1183 | the DCE fixpoint loop always succeeds |
| ScanParams.MapLeading | jax/_src/lax/control_flow/loops.py:1343 | stripping the leading dimension succeeds exactly when that dimension is `length`, and prepending it back gives the original type |
| ScanParams.NormaliseUnroll | jax/_src/lax/control_flow/loops.py:321-324 | `unroll=True` fully unrolls and `False` means 1; an integer below 1 is a `ValueError`; the result is positive |
| ScanParams.ImplSplit | jax/_src/lax/control_flow/loops.py:467-472 | trips times unroll plus the remainder is the length; the remainder is below unroll except when a single full trip is moved into the remainder block |
| ScanParams.FullUnrollHasNoTrips | jax/_src/lax/control_flow/loops.py:467-472 | with `unroll=True` and length at least 2 no while loop is emitted: everything runs as the remainder |
| ScanParams.StackOutputs | jax/_src/lax/control_flow/loops.py:554-572 | carry outputs keep their type and every extensive output gains a leading `length` dimension |
| ScanParams.ScanAbstractEval | jax/_src/lax/control_flow/loops.py:557-572 | an argument-count mismatch is an error; otherwise the outputs are the body's outputs with stacked extensive outputs |
| ScanParams.AllEqual | jax/_src/lax/control_flow/loops.py:1347-1350 | list comparison through `safe_map`: a length mismatch is an error, and otherwise the result is equality |
| ScanParams.MapAll | jax/_src/lax/control_flow/loops.py:1343 | every scanned operand's per-iteration type, failing when some operand's leading dimension is not `length` |
| ScanParams.ScanTypecheck | jax/_src/lax/control_flow/loops.py:1316-1363 | the equation type-checks exactly when the parameters are in range, `linear` has one flag per operand, every scanned operand has a leading `length` axis, and the four type agreements hold: body carry in equals carry out, and the body's const, carry and per-iteration inputs equal the consts, the init and the scanned operands without their leading axis; a bad parameter or `linear` length is a `JaxprTypeError`; every other failure is a `JaxprTypeError` or an assertion failure, the latter from a `safe_map` length mismatch or a scanned operand without a leading `length` axis; on success the carry outputs have the types of the carry operands |
| ScanParams.TypecheckAgreesWithAbstractEval | jax/_src/lax/control_flow/loops.py:1316-1363 | on a well-typed equation, the typecheck rule and abstract evaluation compute the same output types |
| ScanSemantics.ScanFwdAppend | jax/_src/lax/control_flow/loops.py:259-268 | scanning a concatenation scans the halves in turn and concatenates their outputs |
| ScanSemantics.ScanRevAppend | jax/_src/lax/control_flow/loops.py:259-268 | a reverse scan over a concatenation scans the second half first |
| ScanSemantics.ScanRevIsReversedFwd | jax/_src/lax/control_flow/loops.py:259-268 | a reverse scan equals the forward scan of the reversed inputs, with its outputs reversed |
| ScanSemantics.InnerLoop | jax/_src/lax/control_flow/loops.py:488-500 | the unrolled inner loop over one block computes the reference scan of the block, in either direction |
| ScanSemantics.DisableJitScan | jax/_src/lax/control_flow/loops.py:255-268 | under `disable_jit`, a zero-length scan is an error, and any other scan returns the reference carry and the stacked outputs |
| ScanSemantics.Blocks | jax/_src/lax/control_flow/loops.py:482-483 | the reshape into `num_trips` blocks of `unroll` elements loses and reorders nothing |
| ScanSemantics.RolledTrips | jax/_src/lax/control_flow/loops.py:502-520 | the rolled while loop over blocks computes the scan of the flattened blocks |
| ScanSemantics.ScanImpl | jax/_src/lax/control_flow/loops.py:462-528 | the unrolled implementation (blocks plus remainder, in either direction) equals the reference scan for every positive unroll |
| ScanSemantics.ForiRefSnoc | jax/_src/lax/control_flow/loops.py:2292-2302 | one more iteration of the reference loop applies the body at the last index |
| ScanSemantics.ForiScanIsFori | jax/_src/lax/control_flow/loops.py:2310-2316 | the scan body of `fori_loop` advances the counter and reproduces the reference loop |
| ScanSemantics.ForiWhile | jax/_src/lax/control_flow/loops.py:2292-2302 | the while form of `fori_loop` computes the reference loop from `lower` to `upper` |
| ScanSemantics.Fori | jax/_src/lax/control_flow/loops.py:2404-2450 | every successful path yields the reference loop result; with concrete bounds it fails, with `ValueError`, exactly for an integer `unroll` below 1 on a compiled loop, because the eager `disable_jit` scan (loops.py lines 255-268) returns before `unroll` is checked; with traced bounds, exactly for an integer `unroll` other than 1 |
| AssociativeScan.Reduced | jax/_src/lax/control_flow/loops.py:2703-2706 | pairwise combination halves the length |
| AssociativeScan.Interleave | jax/_src/lax/control_flow/loops.py:2735-2745 | interleaving two halves whose lengths differ by at most one gives their total length |
| AssociativeScan.Evens | jax/_src/lax/control_flow/loops.py:2711-2725 | the even-position results fill the positions the odd results leave |
| AssociativeScan.Scan | jax/_src/lax/control_flow/loops.py:2694-2726 | the parallel scan preserves the length |
| AssociativeScan.ScanIsPrefixFold | jax/_src/lax/control_flow/loops.py:2694-2726 | for an associative `fn`, element `k` of the result is the left fold of the first `k+1` elements |
| AssociativeScan.ScanReverseIsSuffixFold | jax/_src/lax/control_flow/loops.py:2654-2655 | with `reverse=True`, element `k` is the fold of the suffix starting at `k`, taken in reversed order |
| AssociativeScan.ScanReverse | jax/_src/lax/control_flow/loops.py:2728-2731 | the reversed scan preserves the length |
| AssociativeScan.InterleaveOdd | jax/_src/lax/control_flow/loops.py:2735-2745 | odd positions of the interleaving come from the second list |
| AssociativeScan.InterleaveEven | jax/_src/lax/control_flow/loops.py:2735-2745 | even positions come from the first list |
| AssociativeScan.ScanOddPosition | jax/_src/lax/control_flow/loops.py:2708-2726 | odd positions of the result are the recursive scan of the pairwise reduction |
| AssociativeScan.ScanEvenPosition | jax/_src/lax/control_flow/loops.py:2711-2726 | even positions past the first combine the previous odd result with the element |
| AssociativeScan.FoldReduced | jax/_src/lax/control_flow/loops.py:2703-2709 | folding the first `j` pairwise sums is folding the first `2j` elements |
| AssociativeScan.CumredShape | jax/_src/lax/control_flow/loops.py:2768-2774 | the cumulative reductions accept exactly the axes in `[0, ndim)`, keep the shape, and otherwise raise `ValueError` |
| AssociativeScan.CumredBatchAxisTracksDim | jax/_src/lax/control_flow/loops.py:2812-2817 | after batching, the shifted axis names the same logical dimension, never the batch dimension, and passes the shape rule |
| ScanTranspose.PatternsMeanOrderings | jax/_src/lax/control_flow/loops.py:891-896 | the list comparisons mean "every non-linear const precedes every linear one" and "every linear scanned operand precedes every non-linear one" |
| ScanTranspose.FalsesThenTruesHasConstsPattern | jax/_src/lax/control_flow/loops.py:893 | residual consts followed by linear consts match the `[False]*num_ires + [True]*...` comparison |
| ScanTranspose.TruesThenFalsesHasXsPattern | jax/_src/lax/control_flow/loops.py:895 | linear scanned operands followed by residuals match the `[True]*... + [False]*num_eres` comparison |
| ScanTranspose.TransposeCheck | jax/_src/lax/control_flow/loops.py:890-896 | transposition is refused with `NotImplementedError` exactly when the residuals are not at the edges; `num_ires`/`num_eres` count the non-linear consts and scanned operands |
| ScanTranspose.TransposeCheckAt | jax/_src/lax/control_flow/loops.py:890-896 | a const is linear exactly from `num_ires` on, and a scanned operand exactly before the trailing `num_eres` |
| ScanTranspose.ConstsPatternAt | jax/_src/lax/control_flow/loops.py:893 | position-wise reading of the consts comparison |
| ScanTranspose.XsPatternAt | jax/_src/lax/control_flow/loops.py:895 | position-wise reading of the scanned-operand comparison |
| ScanTranspose.TransposeParams | jax/_src/lax/control_flow/loops.py:947-961 | the transposed scan runs in the opposite direction, its `linear` covers its operands, and its carry holds at least the original carry |
| ScanTranspose.TransposedIsTransposable | jax/_src/lax/control_flow/loops.py:947-961 | the transposed scan's own linearity flags pass the transposition check, so it can be transposed again |
| ScanTranspose.MergeCts | jax/_src/lax/control_flow/loops.py:1050-1051 | merging cotangents with `None` for mutable operands keeps one entry per operand |
| ScanTranspose.MergeCtsAt | jax/_src/lax/control_flow/loops.py:1050-1051 | an operand gets a cotangent exactly when it is not mutable |
| ScanTranspose.Assemble | jax/_src/lax/control_flow/loops.py:1052 | the assembled cotangent list has one entry per operand |
| ScanTranspose.AssembleAt | jax/_src/lax/control_flow/loops.py:1052 | residual and mutable positions get `None`; immutable consts, the carry and immutable scanned operands get values |
| ScanTranspose.TransposeResult | jax/_src/lax/control_flow/loops.py:1048-1052 | the transpose rule returns one cotangent slot per operand of the scan |
| ScanTranspose.TransposeResultAt | jax/_src/lax/control_flow/loops.py:1048-1052 | operand `i` gets a cotangent exactly when it is a carry, or linear and not mutable |
| ScanTranspose.AssembleAtOperand | jax/_src/lax/control_flow/loops.py:1048-1052 | the same statement phrased on the residual counts the check computed |
| LoopBatching.Batched | jax/_src/lax/control_flow/loops.py:1113 | an operand is batched exactly when it has a batch dimension |
| LoopBatching.MoveTo | jax/_src/lax/control_flow/loops.py:1143-1148 | `moveaxis` puts a batched operand's dimension at the requested axis and leaves unbatched operands alone |
| LoopBatching.PrepareScanCarry | jax/_src/lax/control_flow/loops.py:1137-1142 | a carry is broadcast exactly when it must be batched and is not, and afterwards its batch axis is 0 iff it must be batched |
| LoopBatching.ScanPrepare | jax/_src/lax/control_flow/loops.py:1137-1148 | consts end batched at axis 0, carries as the fixpoint demands, scanned operands at axis 1 |
| LoopBatching.ScanOutDims | jax/_src/lax/control_flow/loops.py:1153-1154 | carry outputs are batched at 0 exactly when the fixpoint says so, and stacked outputs at 1 exactly when batched |
| LoopBatching.ScanBatchingRule | jax/_src/lax/control_flow/loops.py:1108-1154 | each carry enters the loop batched as it leaves it; a carry batched on entry leaves batched at axis 0 |
| LoopBatching.ScanBatchingSucceeds | jax/_src/lax/control_flow/loops.py:1121-1133 | the scan batching rule succeeds for every batching transform that honours instantiate |
| LoopBatching.PrepareWhileCarry | jax/_src/lax/control_flow/loops.py:1786-1797 | a carry is broadcast exactly when it is unbatched but must be batched; unbatching a batched carry is impossible |
| LoopBatching.PrepareWhileInit | jax/_src/lax/control_flow/loops.py:1786-1797 | preparation fails exactly when some batched carry would need to lose its batch dimension, and otherwise gives each carry its wanted batch axis |
| LoopBatching.WhileCarryDims | jax/_src/lax/control_flow/loops.py:1757-1778 | a batched predicate batches every carry at 0; otherwise batched carries sit at the predicate's rank |
| LoopBatching.WhilePrepare | jax/_src/lax/control_flow/loops.py:1757-1802 | when the fixpoint covers the batched carries, preparation succeeds, consts are untouched, and each carry enters at the batch axis it leaves with |
| LoopBatching.WhileBatchingRule | jax/_src/lax/control_flow/loops.py:1727-1802 | ordered IO effects are refused, and so is a batched predicate with IO effects; otherwise carries keep their batch axis through the loop, batched carries stay batched, and all outputs are at 0 or all at the predicate rank |
| LoopBatching.BatchedOnEntryStaysBatched | jax/_src/lax/control_flow/loops.py:1738-1750 | every carry batched on entry is batched in the fixpoint |
| LoopBatching.WhileBatchingSucceeds | jax/_src/lax/control_flow/loops.py:1743-1750 | without IO effects the while batching rule always succeeds |
| LoopForwarding.MoveFlags | jax/_src/lax/control_flow/loops.py:330 | a carry is moved to the consts exactly when the body forwards its own input to it |
| LoopForwarding.ForwardCarries | jax/_src/lax/control_flow/loops.py:329-338 | the carry-forwarding front end stacks one output per iteration |
| LoopForwarding.ForwardingPreservesScan | jax/_src/lax/control_flow/loops.py:329-367 | moving forwarded carries into the consts and merging them back gives exactly the result of the unmodified scan |
| LoopForwarding.ScanCommutes | jax/_src/lax/control_flow/loops.py:329-338 | a step function that simulates another through an abstraction map gives a scan that simulates the other scan, in either direction |
| LoopForwarding.ScanFwdCommutes | jax/_src/lax/control_flow/loops.py:329-338 | the same simulation for the forward scan |
| LoopForwarding.StepCommutes | jax/_src/lax/control_flow/loops.py:329-338 | one iteration of the moved body simulates one iteration of the original body |
| LoopForwarding.MovedBodyOn | jax/_src/lax/control_flow/loops.py:333-335 | the moved body reads the moved carries as leading consts and returns the kept carries and all stacked outputs |
| LoopForwarding.MovedOutputsUnchanged | jax/_src/lax/control_flow/loops.py:365-366 | merging the moved values back into the kept carry outputs restores the full carry |
| LoopForwarding.PartitionAgrees | jax/_src/lax/control_flow/loops.py:333-335 | two carries that agree on the moved positions have the same moved part |
| LoopForwarding.MergePadded | jax/_src/lax/control_flow/loops.py:365-366 | merging with the flags padded by `False` for the stacked outputs leaves those outputs at the end |
| LoopForwarding.MergeNoFlags | jax/_src/lax/control_flow/loops.py:365-366 | merging with no flag set returns the list unchanged |
| LoopForwarding.ExtToExt | jax/_src/lax/control_flow/loops.py:347-349 | a stacked output stays forwarded exactly when it forwards a scanned operand, renumbered among the scanned operands |
| LoopForwarding.ExtIndexSurvivesMove | jax/_src/lax/control_flow/loops.py:347-349 | the renumbering is unaffected by carries moved into the consts |
| LoopForwarding.Prune | jax/_src/lax/control_flow/loops.py:350-351 | pruning forwarded stacked outputs never adds outputs |
| LoopForwarding.Reassemble | jax/_src/lax/control_flow/loops.py:359-363 | reassembly succeeds exactly when the computed outputs fill the unforwarded slots, and forwarded slots take their operand |
| LoopForwarding.PruneReassemble | jax/_src/lax/control_flow/loops.py:350-363 | pruning and then reassembling the outputs of a body that forwards as claimed restores the full output list |
| LoopForwarding.StepSlices | jax/_src/lax/control_flow/loops.py:340-349 | each iteration's stacked outputs forward the claimed slices of the scanned operands |
| LoopForwarding.SlicesFwd | jax/_src/lax/control_flow/loops.py:340-349 | every iteration of a forward scan forwards its slices |
| LoopForwarding.SlicesRev | jax/_src/lax/control_flow/loops.py:340-349 | every iteration of a reverse scan forwards its slices |
| LoopForwarding.SlicesScan | jax/_src/lax/control_flow/loops.py:340-349 | the stacked outputs of a scan forward the claimed slices at every iteration |
| LoopForwarding.Column | jax/_src/lax/control_flow/loops.py:359-363 | one stacked output is the column of the per-iteration outputs |
| LoopForwarding.Columns | jax/_src/lax/control_flow/loops.py:359-363 | the scanned operands seen as stacked columns |
| LoopForwarding.ForwardedColumn | jax/_src/lax/control_flow/loops.py:359-363 | a forwarded stacked output equals the scanned operand it forwards |
| LoopForwarding.ExtIndicesInRange | jax/_src/lax/control_flow/loops.py:340-349 | forwarding indices name inputs of the body |
| LoopForwarding.ReassembleColumns | jax/_src/lax/control_flow/loops.py:350-363 | stacked outputs that forward their slices are restored by pruning and reassembling from the operands |
| LoopForwarding.ExtForwardingPreservesOutputs | jax/_src/lax/control_flow/loops.py:340-363 | the stacked-output forwarding rewrite returns exactly the outputs of the unmodified scan |
| LoopForwarding.ScanLength | jax/_src/lax/control_flow/loops.py:259-268 | a scan stacks one output per scanned element |
| WhileRules.WhileLoop | jax/_src/lax/control_flow/loops.py:1552-1556 | when the loop stops, the predicate is false on the final carry |
| WhileRules.WhileMoveFlags | jax/_src/lax/control_flow/loops.py:1650-1655 | a carry is moved exactly when the body forwards it unchanged and the predicate does not read it |
| WhileRules.WhileFrontEnd | jax/_src/lax/control_flow/loops.py:1647-1673 | the rewritten loop returns a carry of the original arity |
| WhileRules.WhileStepCommutes | jax/_src/lax/control_flow/loops.py:1657-1670 | one step of the pruned loop simulates one step of the original, including the predicate |
| WhileRules.MovedBodyStep | jax/_src/lax/control_flow/loops.py:1657-1670 | the moved body's kept outputs, merged with the moved values, are the original body's outputs |
| WhileRules.ForwardedCarriesUnchanged | jax/_src/lax/control_flow/loops.py:1650-1655 | moved carries are the same after every iteration |
| WhileRules.WhileSimulates | jax/_src/lax/control_flow/loops.py:1657-1673 | the pruned loop stops exactly when the original does, with the same final carry once merged |
| WhileRules.WhileForwardingPreserves | jax/_src/lax/control_flow/loops.py:1647-1673 | the while forwarding front end computes exactly the original loop's result |
| WhileRules.WhileKeepsArity | jax/_src/lax/control_flow/loops.py:1552-1556 | the loop keeps the carry length |
| WhileRules.JoinWhileEffects | jax/_src/lax/control_flow/loops.py:1676-1691 | the joined set is exactly the renumbered predicate effects together with the renumbered body effects: each of them is in it, and nothing else is; predicate inputs past the predicate's consts shift by the body's const count, body inputs shift by the predicate's const count, and the joined effects have exactly the kinds of the originals |
| WhileRules.RemapNamesSameOperand | jax/_src/lax/control_flow/loops.py:1676-1691 | a renumbered index names, among the `while` operands, the same value the predicate or body input named |
| WhileRules.JoinedIndicesInRange | jax/_src/lax/control_flow/loops.py:1676-1691 | renumbered input effects index the `while` operands |
| WhileRules.WhileAbstractEval | jax/_src/lax/control_flow/loops.py:1693-1725 | fails exactly on a jaxpr arity mismatch (`JaxprTypeError`) or on a disallowed effect (`NotImplementedError`); otherwise returns the body's output types and the joined effects |
| WhileRules.ShortOperandsTruncate | jax/_src/lax/control_flow/loops.py:1695-1703 | when there are fewer operands than the two const counts, the arity check passes with counts that do not describe the operands |
| Lists.MoveRight | jax/_src/lax/control_flow/loops.py:1532-1535 | `_move_right` permutes the list, keeps the tail, and puts the unmoved prefix elements first in order |
| Lists.MoveRightInverse | jax/_src/lax/control_flow/loops.py:1532-1535 | merging the two groups back by the flags restores the original list |
| Lists.MergePartition | jax/_src/lax/control_flow/loops.py:1050-1051 | `merge_lists` after `partition_list` by the same flags is the identity |
| Lists.PartitionMerge | jax/_src/lax/control_flow/loops.py:1050-1051 | `partition_list` after `merge_lists` recovers both lists |
| Lists.MergeIndex | jax/_src/lax/control_flow/loops.py:1050-1051 | element `i` of a merge comes from the list its flag selects, at the count of earlier equal flags |
| Lists.Split3 | jax/_src/lax/control_flow/loops.py:1048-1049 | `split_list` into three parts concatenates back to the input, with the requested sizes when they fit |
| Lists.Partition | jax/_src/lax/control_flow/loops.py:1534 | `partition_list` splits by the flags, with the unset group first |
| Lists.Merge | jax/_src/lax/control_flow/loops.py:1050-1051 | `merge_lists` yields one element per flag |
| Lists.PartitionMultiset | jax/_src/lax/control_flow/loops.py:1534 | partitioning loses and invents no element |
| MosaicShapes.ContiguousStrides | jax/experimental/mosaic/gpu/utils.py:111-117 | the last stride is 1 and each stride is the next stride times the next dimension |
| MosaicShapes.CheckDivisible | jax/experimental/mosaic/gpu/utils.py:1265-1268 | no error exactly when every dimension divides exactly; a zero divisor is `ZeroDivisionError` |
| MosaicShapes.QuotientAt | jax/experimental/mosaic/gpu/utils.py:1269-1272 | each quotient times its divisor is the dimension |
| MosaicShapes.ProductQuotients | jax/experimental/mosaic/gpu/utils.py:1269-1272 | the quotients' product times the divisors' product is the element count |
| MosaicShapes.TileShape | jax/experimental/mosaic/gpu/utils.py:1260-1273 | tiling succeeds exactly when the tiling is no longer than the shape and divides its trailing dimensions; the result keeps the leading dimensions, replaces each tiled dimension by its quotient (which times the tile gives the dimension back) and ends with the tiling itself |
| MosaicShapes.TileUntile | jax/experimental/mosaic/gpu/utils.py:1260-1273 | multiplying each tile count by its tile size recovers the original shape |
| MosaicShapes.TileShapeProduct | jax/experimental/mosaic/gpu/utils.py:1260-1273 | tiling keeps the number of elements |
| MosaicShapes.CeilDiv | jax/experimental/mosaic/gpu/utils.py:1515-1516 | for positive `y`, the result is the least `q` with `q*y >= x`; `y == 0` raises `ZeroDivisionError` |
| MosaicShapes.DimsValidMeans | jax/experimental/mosaic/gpu/utils.py:1178-1186 | the `seen_dims` loop accepts exactly in-range, pairwise distinct source dimensions |
| MosaicShapes.CheckBlocks | jax/experimental/mosaic/gpu/utils.py:1187-1189 | no error exactly when every partitioned target dimension divides by its source count |
| MosaicShapes.SourceBounds | jax/experimental/mosaic/gpu/utils.py:1166-1176 | `num_chunks` is taken as is; otherwise chunk sizes must divide the elements and the bounds are the quotients |
| MosaicShapes.ValidateDims | jax/experimental/mosaic/gpu/utils.py:1178-1189 | the dimension and divisibility checks pass exactly for a valid partition |
| MosaicShapes.PartitionAsWritten | jax/experimental/mosaic/gpu/utils.py:1148-1189 | as written, a partition is refused when neither count is given, and every accepted partition is valid |
| MosaicShapes.NewPartition | jax/experimental/mosaic/gpu/utils.py:1148-1189 | as intended: accepted exactly when one of `num_chunks`/`chunk_size` is given and the checks pass; the source bounds are the given or derived counts |
| MosaicShapes.PartitionAgreesUnlessBoth | jax/experimental/mosaic/gpu/utils.py:1162 | the two readings agree unless both counts are given |
| MosaicShapes.PartitionBothGiven | jax/experimental/mosaic/gpu/utils.py:1162 | as written, passing both `num_chunks` and an inconsistent `chunk_size` is accepted; as intended it is a `ValueError` |
| MosaicShapes.TargetBlockShape | jax/experimental/mosaic/gpu/utils.py:1196-1198 | unpartitioned dimensions keep their full extent |
| MosaicShapes.BlockShapeAt | jax/experimental/mosaic/gpu/utils.py:1196-1198 | a partitioned dimension's block times its source count is the full extent |
| MosaicShapes.GetBase | jax/experimental/mosaic/gpu/utils.py:1200-1211 | succeeds exactly when the coordinates cover the partitioned source dimensions; base `i` is the offset (0 when absent) plus, for a partitioned dimension, the block size times its source coordinate |
| MosaicShapes.BlockInBounds | jax/experimental/mosaic/gpu/utils.py:1200-1211 | for source coordinates in range, every block lies inside the target bounds |
| MosaicShapes.Partition1DAsWritten | jax/experimental/mosaic/gpu/utils.py:1217-1237 | as written, refused when neither count is given, and valid when accepted |
| MosaicShapes.NewPartition1D | jax/experimental/mosaic/gpu/utils.py:1217-1237 | as intended: exactly one count given, dividing the elements; the source bound is the chunk count |
| MosaicShapes.OneDimNumChunks | jax/experimental/mosaic/gpu/utils.py:1166-1168 | a one-dimensional partition by chunk count succeeds exactly when it divides the elements |
| MosaicShapes.OneDimChunkSize | jax/experimental/mosaic/gpu/utils.py:1169-1176 | by chunk size: it must divide a non-zero element count, and the count times the size is the elements |
| MosaicShapes.SingleQuotient | jax/experimental/mosaic/gpu/utils.py:1169-1176 | the one-dimensional quotient is exact and zero only for zero elements |
| MosaicShapes.Partition1DAgreesUnlessBoth | jax/experimental/mosaic/gpu/utils.py:1226 | the two readings of `Partition1D` agree unless both counts are given |
| MosaicShapes.Partition1DBothGiven | jax/experimental/mosaic/gpu/utils.py:1226 | as written, both counts given is accepted; as intended it is a `ValueError` |
| MosaicShapes.Refine | jax/experimental/mosaic/gpu/utils.py:1245-1257 | refining a one-dimensional partition partitions one block, succeeding exactly when that new partition is valid; with `chunk` the new base offset is the old offset plus the block size times `chunk`, and without it there is none |
| MosaicShapes.RefineChunkSize | jax/experimental/mosaic/gpu/utils.py:1245-1257 | refining a chunk-size partition by chunk size `d` splits each chunk into chunks of size `d` |
| MosaicIndexing.MakeDynamicSlice | jax/experimental/mosaic/gpu/utils.py:395-399 | construction succeeds exactly for a non-negative static base and length, and otherwise raises `ValueError` |
| MosaicIndexing.IntAxis | jax/experimental/mosaic/gpu/utils.py:684-691 | an integer index is in bounds iff in `[-bound, bound)`; a negative one counts from the end; the axis is squeezed with size 1 |
| MosaicIndexing.SliceAxisAsWritten | jax/experimental/mosaic/gpu/utils.py:692-709 | as written: a step other than 1 is `NotImplementedError`; a unit-step slice is accepted exactly when bounds are unchecked or the normalised start is in `[0, bound)` and the normalised stop in `[0, bound]`, and then selects `stop - start` elements from the start |
| MosaicIndexing.SliceAxis | jax/experimental/mosaic/gpu/utils.py:692-709 | as intended: the same acceptance test plus `start <= stop` when checked, with an explicit stop of 0 kept; the window is `stop - start` elements from the start |
| MosaicIndexing.SliceStart | jax/experimental/mosaic/gpu/utils.py:695-697 | a missing or zero start is 0, a positive start is kept and a negative one counts from the end |
| MosaicIndexing.SliceStopAsWritten | jax/experimental/mosaic/gpu/utils.py:698-700 | as written, a missing stop and an explicit 0 both mean the axis end; a negative stop counts from the end |
| MosaicIndexing.SliceStop | jax/experimental/mosaic/gpu/utils.py:698-700 | as intended, only a missing stop means the axis end; 0 stays 0 |
| MosaicIndexing.SliceReadingsAgree | jax/experimental/mosaic/gpu/utils.py:692-709 | away from a stop of 0 the two slice readings agree, except that the intended one refuses a checked slice that the source accepts with a negative size |
| MosaicIndexing.DsAxis | jax/experimental/mosaic/gpu/utils.py:710-719 | a `DynamicSlice` is refused only when its static end exceeds the bound; it keeps its base and length |
| MosaicIndexing.ValueAxis | jax/experimental/mosaic/gpu/utils.py:720-725 | a dynamic scalar index must be index-typed and selects one squeezed element |
| MosaicIndexing.ParseAxis | jax/experimental/mosaic/gpu/utils.py:683-727 | an unsupported index type is `NotImplementedError`; an axis is squeezed exactly for integer and scalar indices |
| MosaicIndexing.Pad | jax/experimental/mosaic/gpu/utils.py:674-677 | the index is padded with full slices up to the rank |
| MosaicIndexing.ParseAxes | jax/experimental/mosaic/gpu/utils.py:681-727 | the axes parse exactly when each index parses against its dimension |
| MosaicIndexing.Unzip | jax/experimental/mosaic/gpu/utils.py:728-729 | bases, sizes and squeeze flags line up with the parsed axes |
| MosaicIndexing.ParseIndicesAsWritten | jax/experimental/mosaic/gpu/utils.py:671-729 | as written, parsing succeeds exactly when every dimension's padded index parses under the as-written slice rule, indices beyond the rank being ignored; a failure is the error of some dimension's index; a success describes every dimension of the shape |
| MosaicIndexing.ParseIndicesAsWrittenAt | jax/experimental/mosaic/gpu/utils.py:681-727 | as written, each dimension of the result is the as-written parse of its padded index |
| MosaicIndexing.ParseIndices | jax/experimental/mosaic/gpu/utils.py:671-729 | as intended, an index longer than the rank is an `IndexError`; success is exactly every padded axis parsing |
| MosaicIndexing.ParseIndicesAt | jax/experimental/mosaic/gpu/utils.py:681-727 | each dimension of the result is the parse of its padded index |
| MosaicIndexing.PaddedAxesAreWhole | jax/experimental/mosaic/gpu/utils.py:674-677 | dimensions past the index take the whole axis, unsqueezed |
| MosaicIndexing.IntIndexNormalised | jax/experimental/mosaic/gpu/utils.py:684-691 | a checked integer index becomes an in-bounds, non-negative base of size 1 |
| MosaicIndexing.StaticWindowsInBounds | jax/experimental/mosaic/gpu/utils.py:683-727 | with bounds checking, every static window lies inside its axis |
| MosaicIndexing.ParseAxisAgreesOffSlices | jax/experimental/mosaic/gpu/utils.py:684-727 | the two readings differ only on slices |
| MosaicIndexing.OneAxis | jax/experimental/mosaic/gpu/utils.py:681-729 | a one-dimensional index parses to its single axis or its error |
| MosaicIndexing.ZeroStopTakesWholeAxis | jax/experimental/mosaic/gpu/utils.py:698 | as written, `x[0:0]` selects the whole axis because `stop or bound` treats 0 as missing; as intended it is empty |
| MosaicIndexing.ReversedSliceNegativeSize | jax/experimental/mosaic/gpu/utils.py:701-708 | as written, `x[3:1]` passes the bounds check with size -2; as intended it is refused |
| MosaicIndexing.ExtraIndicesDropped | jax/experimental/mosaic/gpu/utils.py:681 | as written, `zip` silently drops indices beyond the rank, even out-of-bounds ones; as intended that is an `IndexError` |
| MosaicMemref.InsertDesc | jax/experimental/mosaic/gpu/utils.py:447 | inserting into a list sorted by decreasing stride keeps it sorted and adds exactly the element |
| MosaicMemref.SortDesc | jax/experimental/mosaic/gpu/utils.py:447 | `sorted(..., reverse=True)` on strides gives a permutation in non-increasing stride order |
| MosaicMemref.SortDescSorted | jax/experimental/mosaic/gpu/utils.py:447 | the stable sort leaves an already ordered list unchanged |
| MosaicMemref.IsContiguousSlice | jax/experimental/mosaic/gpu/utils.py:436-452 | identity layouts are contiguous; a strided slice is contiguous iff, sorted by stride, each stride is the next one times its size |
| MosaicMemref.RowMajorContiguous | jax/experimental/mosaic/gpu/utils.py:436-452 | every slice of a row-major memref is contiguous |
| MosaicMemref.FoldShape | jax/experimental/mosaic/gpu/utils.py:562 | folding `k` dimensions removes `k-1` dimensions |
| MosaicMemref.FoldShapeAt | jax/experimental/mosaic/gpu/utils.py:562 | the folded dimension is the product of the folded ones, and the others are unchanged |
| MosaicMemref.FoldShapeProduct | jax/experimental/mosaic/gpu/utils.py:562 | folding keeps the number of elements |
| MosaicMemref.FoldAssoc | jax/experimental/mosaic/gpu/utils.py:583-586 | one reassociation group per result dimension |
| MosaicMemref.FoldAssocCovers | jax/experimental/mosaic/gpu/utils.py:583-586 | the groups list every source dimension once, in order |
| MosaicMemref.FoldStrides | jax/experimental/mosaic/gpu/utils.py:571-573 | the folded dimension takes the innermost stride |
| MosaicMemref.MemrefFold | jax/experimental/mosaic/gpu/utils.py:552-587 | out-of-range dimensions are a `ValueError`, a non-contiguous strided slice is `NotImplementedError`, and success folds the shape with a covering reassociation |
| MosaicMemref.FoldKeepsRowMajor | jax/experimental/mosaic/gpu/utils.py:566-573 | folding a row-major memref succeeds and keeps it row-major |
| MosaicMemref.FillProduct | jax/experimental/mosaic/gpu/utils.py:596-602 | filling the missing factor with `q` multiplies the known product by `q` |
| MosaicMemref.UnfoldStridesAt | jax/experimental/mosaic/gpu/utils.py:610-616 | each inserted stride is the unfolded stride times the product of the inner factors |
| MosaicMemref.UnfoldAssocCovers | jax/experimental/mosaic/gpu/utils.py:625-627 | the groups list every result dimension once, in order |
| MosaicMemref.UnfoldWith | jax/experimental/mosaic/gpu/utils.py:602-629 | unfolding yields the unfolded shape and a covering reassociation |
| MosaicMemref.MemrefUnfoldAsWritten | jax/experimental/mosaic/gpu/utils.py:590-629 | as written, success needs at most one missing factor and divisibility by the known ones |
| MosaicMemref.UnfoldFactors | jax/experimental/mosaic/gpu/utils.py:596-602 | an inferred factor makes the factors multiply to the dimension |
| MosaicMemref.MemrefUnfold | jax/experimental/mosaic/gpu/utils.py:590-629 | as intended, the factors always multiply to the unfolded dimension; the rest of the shape is unchanged and the given factors appear as given |
| MosaicMemref.UnfoldProduct | jax/experimental/mosaic/gpu/utils.py:590-629 | unfolding keeps the number of elements |
| MosaicMemref.FoldUndoesUnfold | jax/experimental/mosaic/gpu/utils.py:552-629 | folding the unfolded dimensions back restores the shape |
| MosaicMemref.UnfoldStridesInserted | jax/experimental/mosaic/gpu/utils.py:609-617 | on a strided memref each new stride is the old stride times the sizes inside it |
| MosaicMemref.UnfoldAgreesWhenInferred | jax/experimental/mosaic/gpu/utils.py:594-602 | with one inferred factor the two readings agree |
| MosaicMemref.UnfoldKnownFactorsMismatch | jax/experimental/mosaic/gpu/utils.py:596-602 | as written, unfolding 8 into `[2, 2]` is accepted; as intended it is a `ValueError` |
| MosaicMemref.UnfoldGiven | jax/experimental/mosaic/gpu/utils.py:590-629 | unfolding by factors whose product is the dimension always succeeds and splices them in |
| MosaicMemref.FoldUntil | jax/experimental/mosaic/gpu/utils.py:464-477 | success returns an end position whose run of dimensions multiplies exactly to the target |
| MosaicMemref.FoldUntilFrom | jax/experimental/mosaic/gpu/utils.py:467-477 | the loop returns the target and a position past the start |
| MosaicMemref.FoldUntilFromProduct | jax/experimental/mosaic/gpu/utils.py:467-470 | the accumulated product over the returned run is the target |
| MosaicMemref.FoldUntilSucceeds | jax/experimental/mosaic/gpu/utils.py:464-477 | on positive dimensions, `fold_until` succeeds exactly when some prefix of the run multiplies to the target |
| MosaicMemref.FoldUntilNeverExhausts | jax/experimental/mosaic/gpu/utils.py:475-477 | when the remaining dimensions hold enough elements, the "Unreachable" assertion indeed never fires |
| MosaicMemref.UnfoldStep | jax/experimental/mosaic/gpu/utils.py:480-486 | the unfold branch keeps the prefixes equal and the remaining element counts balanced |
| MosaicMemref.FoldStep | jax/experimental/mosaic/gpu/utils.py:487-493 | the fold branch keeps the same invariant |
| MosaicMemref.MatchStep | jax/experimental/mosaic/gpu/utils.py:494-496 | equal dimensions advance both positions |
| MosaicMemref.TrailingFold | jax/experimental/mosaic/gpu/utils.py:499-501 | the trailing fold produces the target shape |
| MosaicMemref.TrailingUnfold | jax/experimental/mosaic/gpu/utils.py:503-505 | the trailing unfold by `[d, 1, ..., 1]` produces the target shape |
| MosaicMemref.Reshape | jax/experimental/mosaic/gpu/utils.py:455-507 | `_reshape` either reaches exactly the target shape or raises `NotImplementedError` |
| MosaicMemref.ReshapeStep | jax/experimental/mosaic/gpu/utils.py:479-496 | one pass of the loop (unfold a larger source dimension, fold a run of smaller ones, or step past an equal one) keeps the two shapes equal on a strictly longer prefix with equal remaining products, or raises `NotImplementedError` |
| MosaicMemref.ReshapeTrailing | jax/experimental/mosaic/gpu/utils.py:498-507 | once either shape is used up, folding or unfolding the trailing unit dimensions yields exactly the target shape |
| MosaicMemref.StaticPositive | jax/experimental/mosaic/gpu/utils.py:518-524 | a static shape with a positive element count has no zero dimension |
| MosaicMemref.MemrefReshape | jax/experimental/mosaic/gpu/utils.py:510-549 | a size change or a non-positive target dimension is a `ValueError`; success has the requested shape; the same shape is a no-op, and scalars reshape without folding |
| MosaicDivisibility.IsKnownDivisible | jax/experimental/mosaic/gpu/utils.py:1562-1599 | a divisor of 1 is always known to divide; with any other divisor, an exhausted depth or an opaque value is never known divisible |
| MosaicDivisibility.KnownDivisibleSound | jax/experimental/mosaic/gpu/utils.py:1562-1599 | over unbounded integers, when the analysis answers yes, the value is divisible for every assignment of the unknowns |
| MosaicDivisibility.WrappedProductNotDivisible | jax/experimental/mosaic/gpu/utils.py:1578-1582 | the `MulIOp` rule reports `x * 3` divisible by 3, yet with `x` = 1431655766 the 32-bit wrapped product is 2, so soundness does not carry over to fixed-width values |
| MosaicDivisibility.KnownDivisibleMonotone | jax/experimental/mosaic/gpu/utils.py:1562-1599 | a larger depth bound never loses an answer |
| MosaicDivisibility.KnownDivisibleLooksOnlyToDepth | jax/experimental/mosaic/gpu/utils.py:1566-1569 | the answer depends only on the operations within the depth bound |
| MosaicDivisibility.AndNeedsPowerOfTwo | jax/experimental/mosaic/gpu/utils.py:1592-1597 | `and` with a multiple of 12 is known divisible by 4 but not by 6: only power-of-two divisors survive a bitwise and |
| MosaicDivisibility.SingleBit | jax/experimental/mosaic/gpu/utils.py:1594 | `bit_count() == 1` holds exactly for powers of two |
| MosaicDivisibility.MultipleOfPow2 | jax/experimental/mosaic/gpu/utils.py:1594-1597 | a multiple of `2^k` is a value whose low `k` bits are clear |
| MosaicDivisibility.BitAndMultiple | jax/experimental/mosaic/gpu/utils.py:1594-1597 | a bitwise and with a multiple of `2^k` is a multiple of `2^k` |
| MosaicDivisibility.EvalMinMax | jax/experimental/mosaic/gpu/utils.py:1585-1587 | `min`/`max` return one of their operands |
| MosaicBarrier.Initialize | jax/experimental/mosaic/gpu/utils.py:773-792 | a barrier group must be one-dimensional, and more than 32 barriers is `NotImplementedError`; the group starts at offset 0 |
| MosaicBarrier.InitializeValid | jax/experimental/mosaic/gpu/utils.py:773-792 | every barrier of a new group has a bit in the parity word |
| MosaicBarrier.GetItemAsWritten | jax/experimental/mosaic/gpu/utils.py:801-816 | as written, only the upper bound of a static offset is checked; the result is one barrier at the summed `i32` offset |
| MosaicBarrier.GetItem | jax/experimental/mosaic/gpu/utils.py:801-816 | as intended, a static offset is accepted exactly when it names a barrier of the group |
| MosaicBarrier.GetItemValid | jax/experimental/mosaic/gpu/utils.py:801-816 | selecting from a valid group gives a barrier whose bit exists |
| MosaicBarrier.Iter | jax/experimental/mosaic/gpu/utils.py:794-799 | a single barrier yields itself; a group yields one barrier per member |
| MosaicBarrier.IterValid | jax/experimental/mosaic/gpu/utils.py:794-799 | iteration visits the barriers in order, each valid |
| MosaicBarrier.UpdateParities | jax/experimental/mosaic/gpu/utils.py:836-842 | the update is defined exactly for offsets below 32 |
| MosaicBarrier.ParityIsBit | jax/experimental/mosaic/gpu/utils.py:836-842 | the parity read is the barrier's own bit |
| MosaicBarrier.UpdateTogglesOnlyOwnBit | jax/experimental/mosaic/gpu/utils.py:836-842 | the update flips the barrier's bit and no other |
| MosaicBarrier.UpdateTwice | jax/experimental/mosaic/gpu/utils.py:836-842 | two updates restore the word, and the second reads the opposite parity |
| MosaicBarrier.ValidUpdates | jax/experimental/mosaic/gpu/utils.py:836-842 | every barrier of a valid group can update its parity |
| MosaicBarrier.NegativeOffsetAccepted | jax/experimental/mosaic/gpu/utils.py:804-805 | as written, `barriers[-1]` gives offset `2^32 - 1`, where the parity update is undefined; as intended it is an `IndexError` |
| MosaicBarrier.GetItemAgreesOnNonNegative | jax/experimental/mosaic/gpu/utils.py:803-816 | the readings differ only on negative static offsets |
| FfiLayouts.ConvertForLowering | jax/_src/ffi.py:140-151 | no layout is row-major; a `Layout` is reversed into minor-to-major order; a tiled one is a `ValueError`; a plain sequence is taken as given |
| FfiLayouts.DefaultIsRowMajor | jax/_src/ffi.py:320-329 | the default layout equals the explicit identity order and is a permutation of the dimensions |
| FfiLayouts.ExplicitIsMajorToMinor | jax/_src/ffi.py:320-329 | for `ffi_call`, a plain sequence means the same as an untiled `Layout` |
| FfiLayouts.ConvertLayouts | jax/_src/ffi.py:320-329 | converting a list succeeds exactly when each pair converts, pairing avals and layouts like `zip` |
| FfiLayouts.DefaultLayoutsAgree | jax/_src/ffi.py:320-329 | a list of `None` layouts gives the default row-major layouts |
| FfiLayouts.ShiftPermutation | jax/_src/ffi.py:673-679 | shifting a layout for the batch dimension keeps it a permutation and makes the batch dimension most major |
| FfiLayouts.ShiftDefault | jax/_src/ffi.py:673-679 | shifting the default layout gives the default layout of the batched shape |
| FfiLayouts.ShiftAll | jax/_src/ffi.py:673-679 | every present layout is shifted, and absent ones stay absent |
| FfiLayouts.ShiftBatched | jax/_src/ffi.py:681-688 | only the layouts of batched inputs are shifted |
| FfiLayouts.BatchLayouts | jax/_src/ffi.py:673-728 | `None` and unknown methods are `NotImplementedError`; sequential methods keep the layouts; vectorized methods shift outputs, and inputs (all or the batched ones) |
| FfiLayouts.LegacyAllBatched | jax/_src/ffi.py:681-703 | with every input batched, `legacy_vectorized` treats layouts like `expand_dims` |
| FfiLayouts.LegacyNoneBatched | jax/_src/ffi.py:681-688 | with no input batched, `legacy_vectorized` keeps the input layouts |
| FfiLayouts.BatchKeepsPermutations | jax/_src/ffi.py:673-728 | batching keeps every output layout a permutation |
| FfiCall.CompatibleMeans | jax/_src/ffi.py:310-317 | an input may alias an output when both are tokens or both are arrays of equal shape and dtype |
| FfiCall.CompatibleEquivalence | jax/_src/ffi.py:310-317 | compatibility is an equivalence that ignores only the weak-type flag |
| FfiCall.ResultAvals | jax/_src/ffi.py:296-306 | a result without shape and dtype is a `ValueError`; otherwise tokens stay tokens and shapes become strong-typed avals |
| FfiCall.SetUp | jax/_src/ffi.py:440-464 | the call is set up exactly when the removed `vectorized` argument is absent, the `vmap_method` is known, the results are valid, and no legacy config comes with API version 4 |
| FfiCall.StaticLayouts | jax/_src/ffi.py:468-487 | no layouts gives the defaults; a list of the wrong length or an invalid layout is a `ValueError`; otherwise each layout is converted |
| FfiCall.PyIndex | jax/_src/ffi.py:503-504 | Python list indexing: in range means `[-len, len)`, and negative indices count from the end |
| FfiCall.AliasPairsAsWritten | jax/_src/ffi.py:489-516 | as written, the aliases are accepted exactly when each index is below its list's length and at least minus that length, the values it names with Python indexing are compatible, and their layouts agree; success keeps the pairs; a failure is a `ValueError`, or an `IndexError` only when some index lies below minus the length |
| FfiCall.AliasPairs | jax/_src/ffi.py:489-516 | as intended, the aliases are accepted exactly when both indices are in range, the avals are compatible, and the layouts agree |
| FfiCall.AliasPairsAgree | jax/_src/ffi.py:489-516 | the two readings agree on non-negative indices |
| FfiCall.NegativeAliasAccepted | jax/_src/ffi.py:493 | as written, the alias `{-1: 0}` passes the `i_idx >= len(args)` check and aliases the last input; as intended it is refused; `{-2: 0}` with one input reaches the lookup and raises `IndexError` |
| FfiCall.Aliases | jax/_src/ffi.py:489-516 | under either check, accepted aliases are the dictionary's items sorted by input index; errors are `ValueError`, or `IndexError` under the as-written check |
| FfiCall.AliasesRecorded | jax/_src/ffi.py:489-516 | under either check, the aliases are accepted exactly when every pair of the dictionary passes it; the recorded aliases are sorted by input index and describe the same mapping as the dictionary |
| FfiCall.AliasesOrderIndependent | jax/_src/ffi.py:491 | under either check, equal alias dictionaries, whatever their insertion order, give the same recorded aliases |
| FfiCall.Call | jax/_src/ffi.py:466-530 | with `AsWrittenCheck` the program as it stands, with `IntendedCheck` the corrected alias check: set-up failures are `ValueError`, unhashable attributes are `TypeError`, and `IndexError` arises only under the as-written check; a bound call has one layout per input and output, and every alias passes the chosen check |
| FfiCall.CallBinds | jax/_src/ffi.py:518-530 | under either check, including the as-written one that binds negative keys, the bound aliases describe the caller's mapping sorted by input index, and the attributes hold every keyword argument sorted by name |
| FfiCall.CallChecksAgree | jax/_src/ffi.py:489-516 | without negative alias indices the as-written and intended calls are identical |
| FfiCall.NegativeAliasCall | jax/_src/ffi.py:493 | as written, a call with `input_output_aliases={-1: 0}` binds the alias `(-1, 0)`; the intended check refuses it with `ValueError` |
| FfiCall.AbstractEval | jax/_src/ffi.py:604-613 | the outputs are the result avals, with the FFI effect exactly when the call has side effects |
| FfiCall.Differentiate | jax/_src/ffi.py:616-627 | JVP and transposition of an FFI call always raise `ValueError` |
| FfiKwargs.WrapValue | jax/_src/ffi.py:546-561 | wrapping fails with `TypeError` exactly for unhashable values |
| FfiKwargs.WrapItems | jax/_src/ffi.py:546-561 | wrapping a list of items fails exactly when one value is unhashable, and otherwise keeps names and wraps each value |
| FfiKwargs.WrapFails | jax/_src/ffi.py:546-561 | `_wrap_kwargs_hashable` fails exactly when some keyword argument is unhashable |
| FfiKwargs.WrapSorted | jax/_src/ffi.py:548 | the wrapped attributes keep every argument, strictly sorted by name |
| FfiKwargs.UnwrapItems | jax/_src/ffi.py:564-573 | unwrapping keeps the names and unwraps each value |
| FfiKwargs.UnwrapWrapValue | jax/_src/ffi.py:564-573 | unwrapping a wrapped value gives back an equal value |
| FfiKwargs.UnwrapWrap | jax/_src/ffi.py:546-573 | lowering sees the caller's keyword arguments: the same names with equal values |
| FfiKwargs.HashableDictEq | jax/_src/ffi.py:576-590 | two `HashableDict`s are equal exactly when the dictionaries are equal |
| FfiKwargs.WrapOrderIndependent | jax/_src/ffi.py:546-561 | equal keyword dictionaries give equal attributes, whatever their insertion order |
| FfiKwargs.StrLessStrictTotal | jax/_src/ffi.py:548 | Python string comparison is a strict total order, so sorting by name is well defined |
| FfiCall.IntLessStrictTotal | jax/_src/ffi.py:491 | integer comparison is a strict total order, so sorting aliases is well defined |
| KeyOrder.SortSorted | jax/_src/ffi.py:548 | `sorted(d.items())` of a dictionary gives a permutation of its items, strictly increasing by key |
| KeyOrder.SortedUnique | jax/_src/ffi.py:581 | two lists sorted by key with the same items are equal, so equal dictionaries sort identically |
| KeyOrder.SameMapSameItems | jax/_src/ffi.py:581 | equal dictionaries have the same items |
| KeyOrder.SameItemsSameMap | jax/_src/ffi.py:570 | `dict(items)` depends only on the items, not their order |
| KeyOrder.ToMapAt | jax/_src/ffi.py:570 | every item is in `dict(items)` with its value |
| KeyOrder.ToMapKeys | jax/_src/ffi.py:570 | every key of `dict(items)` comes from an item |

## Left out

- MosaicShapes.GetBase: bases, offsets and coordinates are unbounded integers standing for `index`-typed MLIR values, so the fixed width of `arith.muli` and `arith.addi` is not modelled.
- Tracing, jaxpr construction, MLIR lowering, `custom_call`, `ffi_lowering` and the callback registry. These are modelled, where the loop and FFI code depends on them, as parameters (bodies, transformation rules, forwarding reports).
- The JAX transformations (`jvp_jaxpr`, `batch_jaxpr`, `dce_jaxpr`, partial evaluation) are opaque functions on flag vectors. The model states only that they honour `instantiate`.
- `jax/_src/util.py` is not part of this model. `split_list`, `partition_list`, `merge_lists` and `safe_map` are modelled from their behaviour (module `Lists`).
- `_scan_partial_eval`, `_scan_known_hoisting`, the split-transpose path of `_scan_transpose`, and the state-discharge and padding rules. These are large jaxpr rewrites with no separable bookkeeping.
- The `while` lowering and `_pred_bcast_select_hlo`, the `while` partial evaluation and its JVP. These build MLIR or jaxprs only.
- Floating point, dtype promotion, weak types, sharding and `vma`. Avals are shapes and dtype names; weak types appear only in alias compatibility.
- WhileRules.WhileLoop: runs with a `fuel` bound, so a loop that does not stop within the fuel is reported as `None` rather than diverging. Non-termination of a `while_loop` is not modelled.
- The argument moves and broadcasts of `ffi_batching_rule` and the `vmap` fallback. Only the layout bookkeeping is modelled (FfiLayouts.BatchLayouts).
- `int(i_idx)` conversion of alias keys. The model takes integer keys.
- Hashing of values inside `HashableArray` and `HashableDict`. Only the equality that hashing must respect is modelled.
- MosaicMemref.MemrefFold: requires `fold_rank >= 1`. The source's behaviour for `fold_rank < 1` (an empty product) is not modelled.
- MosaicMemref.MemrefUnfold: requires the known factors to be positive. Zero or negative factors, and NumPy's product of an empty list of factors, are not modelled.
- The `dim == rank` branch of `memref_unfold` is unreachable once `new_shape[dim]` has been read. The model refuses such a `dim` with `IndexError`.
- Negative dimension arguments of `memref_unfold` (Python would index from the end). The model takes `dim` as a natural number.
- Dynamic dimensions and non-strided affine layouts of memrefs. Only identity and strided layouts are modelled.
- MosaicMemref.Reshape: requires non-empty shapes of positive dimensions with equal element counts, the only case `memref_reshape` passes on to it.
- MosaicDivisibility.IsKnownDivisible: integers are unbounded and the divisor is positive. Wrap-around of fixed-width MLIR arithmetic and the `index` type's width are not modelled.
- MosaicDivisibility.KnownDivisibleSound: soundness is proved over unbounded integers only. On i32 or index values that wrap around, the multiply, add and subtract rules are unsound for divisors that are not powers of two (MosaicDivisibility.WrappedProductNotDivisible). The analysis relies on its callers' offsets not overflowing, and the model does not state that assumption.
- `DynamicSlice` with a dynamic base is only bounds-checked through its static length.
- Barrier `init`, `arrive` and `wait` inline assembly and the barrier base address. Only offsets and the parity word are modelled.
- Shape polymorphism (`is_constant_dim`), `tree_flatten`/`tree_unflatten` of pytrees and the axis canonicalisation of `associative_scan`. The scan is modelled on one flat sequence along its scanned axis.

## Findings

| source | as written | input that shows it | evidently intended | confidence | as-written member | corrected member |
|---|---|---|---|---|---|---|
| jax/experimental/mosaic/gpu/utils.py:1162 | `if num_chunks is None == chunk_size is None` is a chained comparison, so it raises only when both are `None` | `Partition((4,), partition=(0,), num_chunks=(2,), chunk_size=(3,))` is accepted with 2 chunks (MosaicShapes.PartitionBothGiven) | exactly one of `num_chunks` and `chunk_size` must be given | high; not executed | MosaicShapes.PartitionAsWritten | MosaicShapes.NewPartition |
| jax/experimental/mosaic/gpu/utils.py:1226 | the same chained comparison in `Partition1D` | `Partition1D(4, num_chunks=2, chunk_size=3)` is accepted (MosaicShapes.Partition1DBothGiven) | exactly one count must be given | high; not executed | MosaicShapes.Partition1DAsWritten | MosaicShapes.NewPartition1D |
| jax/experimental/mosaic/gpu/utils.py:698 | `idx.stop or bound` treats a stop of 0 as missing | `x[0:0]` on an axis of 4 selects all 4 elements (MosaicIndexing.ZeroStopTakesWholeAxis) | an empty slice | medium; not executed | MosaicIndexing.ParseIndicesAsWritten | MosaicIndexing.ParseIndices |
| jax/experimental/mosaic/gpu/utils.py:701-708 | the bounds check does not require `stop >= start` | `x[3:1]` on an axis of 4 gives a slice of size -2 (MosaicIndexing.ReversedSliceNegativeSize) | reversed slices refused with `IndexError` | medium; not executed | MosaicIndexing.ParseIndicesAsWritten | MosaicIndexing.ParseIndices |
| jax/experimental/mosaic/gpu/utils.py:681 | `zip(indices, shape)` drops indices beyond the rank | indices `(1, 7)` on shape `(4,)` parse as `(1,)` (MosaicIndexing.ExtraIndicesDropped) | too many indices is an `IndexError` | medium; not executed | MosaicIndexing.ParseIndicesAsWritten | MosaicIndexing.ParseIndices |
| jax/experimental/mosaic/gpu/utils.py:596-602 | with no factor to infer, the given factors are only checked to divide the dimension | unfolding a dimension of 8 into `[2, 2]` gives a memref of 4 elements (MosaicMemref.UnfoldKnownFactorsMismatch) | the factors multiply to the dimension | high; not executed | MosaicMemref.MemrefUnfoldAsWritten | MosaicMemref.MemrefUnfold |
| jax/experimental/mosaic/gpu/utils.py:804-805 | a static offset is checked against the upper bound only | `barriers[-1]` on a group of 4 gives offset `2^32 - 1`, whose parity bit does not exist (MosaicBarrier.NegativeOffsetAccepted) | negative offsets refused with `IndexError` | medium; not executed | MosaicBarrier.GetItemAsWritten | MosaicBarrier.GetItem |
| jax/_src/ffi.py:493 | an input index is checked against the upper bound only | `input_output_aliases={-1: 0}` aliases the last input (FfiCall.NegativeAliasAccepted, FfiCall.NegativeAliasCall) | negative indices refused with `ValueError` | medium; not executed | FfiCall.AliasPairsAsWritten | FfiCall.AliasPairs |
