/** The axis bookkeeping of the `vmap` rules of `scan` and `while_loop`:
    where each operand's batch axis is moved before the loop is re-bound, and
    which batch axis each output carries. The array operations themselves
    (`moveaxis`, `broadcast`) are recorded, not performed. */
module LoopBatching {
  import opened Lists
  import opened Results
  import opened CarryFixpoint

  /** A batch dimension: `None` is `not_mapped`. */
  type BDim = Option<int>

  /** `[d is not not_mapped for d in dims]`. */
  function Batched(dims: seq<BDim>): (r: seq<bool>)
    ensures |r| == |dims|
    ensures forall i :: 0 <= i < |dims| ==> (r[i] <==> dims[i].Some?)
  {
    seq(|dims|, i requires 0 <= i < |dims| => dims[i].Some?)
  }

  /** What the rule does to one operand before re-binding the loop. */
  datatype Prep = Keep | MoveAxis(src: int, dst: int) | Broadcast(dst: int)

  /** The batch dimension of an operand once it has been prepared. */
  function AxisAfter(d: BDim, p: Prep): BDim {
    match p
    case Keep => d
    case MoveAxis(_, dst) => Some(dst)
    case Broadcast(dst) => Some(dst)
  }

  /** Consts and scanned operands: `moveaxis(x, d, axis)` when batched
      elsewhere, unchanged otherwise. */
  function MoveTo(d: BDim, axis: int): (p: Prep)
    ensures !p.Broadcast?
    ensures AxisAfter(d, p) == if d.Some? then Some(axis) else None
  {
    if d.Some? && d.value != axis then MoveAxis(d.value, axis) else Keep
  }

  /** A scan carry: broadcast exactly when it is batched now but was not
      batched on entry, moved to axis 0 when it was, left alone otherwise. */
  function PrepareScanCarry(d: BDim, now: bool): (p: Prep)
    ensures p.Broadcast? <==> now && d.None?
    ensures AxisAfter(d, p) == if now then Some(0) else d
  {
    if now && d.None? then Broadcast(0)
    else if now then MoveAxis(d.value, 0)
    else Keep
  }

  /** `new_consts + new_init + new_xs` of `_scan_batching_rule`. */
  function ScanPrepare(dims: seq<BDim>, numConsts: nat, numCarry: nat, carryBatched: seq<bool>): (r: seq<Prep>)
    requires numConsts + numCarry <= |dims| && |carryBatched| == numCarry
    ensures |r| == |dims|
    ensures forall i :: 0 <= i < numConsts ==>
      AxisAfter(dims[i], r[i]) == if dims[i].Some? then Some(0) else None
    ensures forall i :: numConsts <= i < numConsts + numCarry ==>
      AxisAfter(dims[i], r[i]) == if carryBatched[i - numConsts] then Some(0) else dims[i]
    ensures forall i :: numConsts <= i < numConsts + numCarry ==>
      (r[i].Broadcast? <==> carryBatched[i - numConsts] && dims[i].None?)
    ensures forall i :: numConsts + numCarry <= i < |dims| ==>
      AxisAfter(dims[i], r[i]) == if dims[i].Some? then Some(1) else None
  {
    seq(|dims|, i requires 0 <= i < |dims| =>
      if i < numConsts then MoveTo(dims[i], 0)
      else if i < numConsts + numCarry then PrepareScanCarry(dims[i], carryBatched[i - numConsts])
      else MoveTo(dims[i], 1))
  }

  /** Output batch dimensions: 0 for a batched carry, 1 for a batched
      stacked output. */
  function ScanOutDims(carryBatched: seq<bool>, ysBatched: seq<bool>): (r: seq<BDim>)
    ensures |r| == |carryBatched| + |ysBatched|
    ensures forall j :: 0 <= j < |carryBatched| ==> (r[j].Some? <==> carryBatched[j])
    ensures forall j :: 0 <= j < |carryBatched| && r[j].Some? ==> r[j] == Some(0)
    ensures forall k :: |carryBatched| <= k < |r| ==> (r[k].Some? <==> ysBatched[k - |carryBatched|])
    ensures forall k :: |carryBatched| <= k < |r| && r[k].Some? ==> r[k] == Some(1)
  {
    seq(|carryBatched|, j requires 0 <= j < |carryBatched| => if carryBatched[j] then Some(0) else None) +
    seq(|ysBatched|, k requires 0 <= k < |ysBatched| => if ysBatched[k] then Some(1) else None)
  }

  /** The prepared operands and the output batch dimensions of a rule. */
  datatype Batching = Batching(prep: seq<Prep>, outDims: seq<BDim>)

  /** `_scan_batching_rule`: settle which carries are batched, prepare the
      operands, and report the output axes. `rule` stands for
      `batching.batch_jaxpr` on the body. */
  function ScanBatchingRule(rule: BodyRule, dims: seq<BDim>, numConsts: nat, numCarry: nat,
                            numYs: nat): (r: Result<Batching>)
    requires numConsts + numCarry <= |dims|
    ensures r.Ok? ==> |r.value.prep| == |dims| && numCarry <= |r.value.outDims|
    ensures r.Ok? ==> forall j :: 0 <= j < numCarry ==>
      AxisAfter(dims[numConsts + j], r.value.prep[numConsts + j]) == r.value.outDims[j]
    ensures r.Ok? ==> forall j :: 0 <= j < numCarry && dims[numConsts + j].Some? ==>
      r.value.outDims[j] == Some(0)
    ensures r.Ok? ==> forall i :: 0 <= i < numConsts ==>
      AxisAfter(dims[i], r.value.prep[i]) == if dims[i].Some? then Some(0) else None
    ensures r.Ok? ==> forall i :: numConsts + numCarry <= i < |dims| ==>
      AxisAfter(dims[i], r.value.prep[i]) == if dims[i].Some? then Some(1) else None
  {
    var batched := Batched(dims);
    var carryBatched :- ScanCarryFlags(rule, batched, numConsts, numCarry, numYs);
    var carryIn := batched[numConsts..numConsts + numCarry];
    assert forall j :: 0 <= j < numCarry ==> carryIn[j] == batched[numConsts + j];
    var out := rule(batched[..numConsts] + carryBatched + batched[numConsts + numCarry..],
                    carryBatched + Repeat(false, numYs));
    var ysBatched := if numCarry <= |out| then out[numCarry..] else [];
    Ok(Batching(ScanPrepare(dims, numConsts, numCarry, carryBatched), ScanOutDims(carryBatched, ysBatched)))
  }

  /** The carry fixpoint of the scan rule is always reached when
      `batch_jaxpr` honours `instantiate`. */
  lemma ScanBatchingSucceeds(rule: BodyRule, dims: seq<BDim>, numConsts: nat, numCarry: nat, numYs: nat)
    requires numConsts + numCarry <= |dims|
    requires HonoursInstantiate(rule)
    ensures ScanBatchingRule(rule, dims, numConsts, numCarry, numYs).Ok?
  {
    ScanCarryFlagsConverge(rule, Batched(dims), numConsts, numCarry, numYs);
  }

  /** One carry of `_while_loop_batching_rule`: broadcast into the new axis,
      keep, or move; an operand batched on entry that has no new axis trips
      the rule's `assert`. */
  function PrepareWhileCarry(was: BDim, want: BDim): (r: Result<Prep>)
    ensures r.Err? <==> was.Some? && want.None?
    ensures r.Ok? ==> AxisAfter(was, r.value) == want
    ensures r.Ok? ==> (r.value.Broadcast? <==> was.None? && want.Some?)
  {
    if was.None? && want.Some? then Ok(Broadcast(want.value))
    else if was.None? && want.None? then Ok(Keep)
    else if want.None? then Err(AssertionFailure)
    else Ok(MoveAxis(was.value, want.value))
  }

  function PrepareWhileInit(was: seq<BDim>, want: seq<BDim>): (r: Result<seq<Prep>>)
    requires |was| == |want|
    ensures r.Err? <==> exists j :: 0 <= j < |was| && was[j].Some? && want[j].None?
    ensures r.Ok? ==> |r.value| == |was|
    ensures r.Ok? ==> forall j :: 0 <= j < |was| ==> AxisAfter(was[j], r.value[j]) == want[j]
  {
    if |was| == 0 then Ok([])
    else
      var h :- PrepareWhileCarry(was[0], want[0]);
      var t :- PrepareWhileInit(was[1..], want[1..]);
      assert forall j :: 1 <= j < |was| ==> was[1..][j - 1] == was[j] && want[1..][j - 1] == want[j];
      Ok([h] + t)
  }

  /** The carry axes of the re-bound while loop: all at 0 when the predicate
      is batched, otherwise at the predicate's rank for batched carries. */
  function WhileCarryDims(carryBat: seq<bool>, predBat: bool, condRank: nat): (r: seq<BDim>)
    ensures |r| == |carryBat|
    ensures predBat ==> forall j :: 0 <= j < |r| ==> r[j] == Some(0)
    ensures !predBat ==> forall j :: 0 <= j < |r| ==> r[j] == if carryBat[j] then Some(condRank) else None
  {
    if predBat then Repeat(Some(0), |carryBat|)
    else seq(|carryBat|, j requires 0 <= j < |carryBat| => if carryBat[j] then Some(condRank) else None)
  }

  /** The end of `_while_loop_batching_rule` once the carry and predicate
      flags are settled: consts pass through unmoved, each init operand is
      prepared for its carry axis. */
  function WhilePrepare(initDims: seq<BDim>, carryBat: seq<bool>, predBat: bool, condRank: nat,
                        numConsts: nat): (r: Result<Batching>)
    requires |initDims| == |carryBat|
    ensures (forall j :: 0 <= j < |initDims| && initDims[j].Some? ==> carryBat[j]) ==> r.Ok?
    ensures r.Ok? ==> |r.value.prep| == numConsts + |initDims| && |r.value.outDims| == |initDims|
    ensures r.Ok? ==> forall i :: 0 <= i < numConsts ==> r.value.prep[i] == Keep
    ensures r.Ok? ==> forall j :: 0 <= j < |initDims| ==>
      AxisAfter(initDims[j], r.value.prep[numConsts + j]) == r.value.outDims[j]
    ensures r.Ok? ==> forall j :: 0 <= j < |initDims| && initDims[j].Some? ==> r.value.outDims[j].Some?
    ensures r.Ok? && predBat ==> forall j :: 0 <= j < |initDims| ==> r.value.outDims[j] == Some(0)
    ensures r.Ok? && !predBat ==> forall j :: 0 <= j < |initDims| ==>
      r.value.outDims[j] == if carryBat[j] then Some(condRank) else None
  {
    var carryDims := WhileCarryDims(carryBat, predBat, condRank);
    var initPrep :- PrepareWhileInit(initDims, carryDims);
    var prep := Repeat(Keep, numConsts) + initPrep;
    assert forall j :: 0 <= j < |initDims| ==> prep[numConsts + j] == initPrep[j];
    Ok(Batching(prep, carryDims))
  }

  /** `_while_loop_batching_rule`. `rule` stands for `batch_jaxpr` on the
      body, `predBatched` for whether the batched predicate comes out
      batched, and the two flags for the I/O effects of the jaxprs. */
  function WhileBatchingRule(rule: BodyRule, predBatched: seq<bool> -> bool, dims: seq<BDim>,
                             condNconsts: nat, bodyNconsts: nat, condRank: nat,
                             orderedIO: bool, unorderedIO: bool): (r: Result<Batching>)
    requires condNconsts + bodyNconsts <= |dims|
    ensures orderedIO ==> r == Err(BareException)
    ensures r.Ok? ==> |r.value.prep| == |dims| && |r.value.outDims| == |dims| - condNconsts - bodyNconsts
    ensures r.Ok? ==> forall i :: 0 <= i < condNconsts + bodyNconsts ==> r.value.prep[i] == Keep
    ensures r.Ok? ==> forall j :: 0 <= j < |r.value.outDims| ==>
      AxisAfter(dims[condNconsts + bodyNconsts..][j], r.value.prep[condNconsts + bodyNconsts + j]) == r.value.outDims[j]
    ensures r.Ok? ==> forall j :: 0 <= j < |r.value.outDims| && dims[condNconsts + bodyNconsts..][j].Some? ==>
      r.value.outDims[j].Some?
    ensures r.Ok? ==> (forall j :: 0 <= j < |r.value.outDims| ==> r.value.outDims[j] == Some(0)) ||
                      (forall j :: 0 <= j < |r.value.outDims| ==> r.value.outDims[j] in {None, Some(condRank)})
    ensures r.Ok? && unorderedIO ==>
      forall j :: 0 <= j < |r.value.outDims| ==> r.value.outDims[j] in {None, Some(condRank)}
  {
    if orderedIO then Err(BareException)
    else
      var batched := Batched(dims);
      var carryBat :- WhileCarryFlags(rule, batched, condNconsts, bodyNconsts);
      var predBat := predBatched(batched[..condNconsts] + carryBat);
      if predBat && unorderedIO then Err(BareException)
      else WhilePrepare(dims[condNconsts + bodyNconsts..], carryBat, predBat, condRank, condNconsts + bodyNconsts)
  }

  lemma BatchedOnEntryStaysBatched(dims: seq<BDim>, k: nat, carry: seq<bool>)
    requires k <= |dims|
    requires Leq(Batched(dims)[k..], carry)
    ensures forall j :: 0 <= j < |dims| - k && dims[k..][j].Some? ==> carry[j]
  {
    forall j | 0 <= j < |dims| - k && dims[k..][j].Some? ensures carry[j] {
      assert Batched(dims)[k..][j] == Batched(dims)[k + j];
    }
  }

  /** Neither the carry fixpoint nor the `assert new_axis is not not_mapped`
      can fail: only the I/O effect checks reject a while loop. */
  lemma WhileBatchingSucceeds(rule: BodyRule, predBatched: seq<bool> -> bool, dims: seq<BDim>,
                              condNconsts: nat, bodyNconsts: nat, condRank: nat)
    requires condNconsts + bodyNconsts <= |dims|
    requires HonoursInstantiate(rule)
    ensures WhileBatchingRule(rule, predBatched, dims, condNconsts, bodyNconsts, condRank, false, false).Ok?
  {
    var batched := Batched(dims);
    var k := condNconsts + bodyNconsts;
    WhileCarryFlagsConverge(rule, batched, condNconsts, bodyNconsts);
    var carryBat := WhileCarryFlags(rule, batched, condNconsts, bodyNconsts).value;
    BatchedOnEntryStaysBatched(dims, k, carryBat);
  }
}
