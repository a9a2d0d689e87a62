/** Parameter bookkeeping of the `scan` primitive: normalisation of the
    `unroll` argument, the trip/remainder split of the unrolled
    implementation, and the output types computed by abstract evaluation and
    by the type checker. */
module ScanParams {
  import opened Lists
  import opened Results

  /** An abstract value: a shape and a dtype name. Weak types and varying
      manual axes are not modelled. */
  datatype Aval = Aval(shape: seq<int>, dtype: string)

  /** `core.unmapped_aval(length, 0, a)`: the stacked type of a per-iteration
      output. */
  function PrependDim(n: int, a: Aval): Aval {
    Aval([n] + a.shape, a.dtype)
  }

  /** `core.mapped_aval(length, 0, a)`: the per-iteration type of a scanned
      input, whose leading dimension must be `length`. */
  function MapLeading(n: int, a: Aval): (r: Result<Aval>)
    ensures r.Ok? <==> |a.shape| > 0 && a.shape[0] == n
    ensures r.Ok? ==> PrependDim(n, r.value) == a
  {
    if |a.shape| == 0 || a.shape[0] != n then Err(AssertionFailure)
    else Ok(Aval(a.shape[1..], a.dtype))
  }

  // ----- unroll -----

  /** The `unroll` argument as the user passes it. */
  datatype Unroll = UnrollBool(b: bool) | UnrollInt(n: int)

  /** `True` fully unrolls (`max(length, 1)`), `False` means 1, and an
      integer below 1 is rejected. */
  function NormaliseUnroll(u: Unroll, length: nat): (r: Result<nat>)
    ensures r.Err? <==> u.UnrollInt? && u.n < 1
    ensures r.Ok? ==> r.value >= 1
    ensures r.Ok? && u.UnrollInt? ==> r.value == u.n
    ensures r.Ok? && u.UnrollBool? ==> (r.value == 1 <==> !u.b || length <= 1)
    ensures r.Ok? && u.UnrollBool? && u.b ==> r.value >= length
  {
    match u
    case UnrollBool(b) => Ok(if b then (if length > 1 then length else 1) else 1)
    case UnrollInt(n) => if n < 1 then Err(ValueError) else Ok(n)
  }

  /** `divmod(length, unroll)`, except that a loop whose length is exactly one
      unrolled block is put entirely into the remainder block, so that no
      while loop is emitted for it. */
  function ImplSplit(length: nat, unroll: nat): (r: (nat, nat))
    requires unroll >= 1
    ensures r.0 * unroll + r.1 == length
    ensures r.1 < unroll || (r.0 == 0 && r.1 == length)
    ensures unroll != 1 && length == unroll ==> r == (0, length)
    ensures r.0 >= 1 ==> r.0 == length / unroll && r.1 == length % unroll
  {
    var numTrips := length / unroll;
    var remainder := length % unroll;
    if unroll != 1 && numTrips == 1 && remainder == 0 then (0, length) else (numTrips, remainder)
  }

  /** `unroll=True` never leaves a while loop: the whole scan is one remainder
      block (or, when the length is 0 or 1, a loop of single steps). */
  lemma FullUnrollHasNoTrips(length: nat)
    ensures var u := NormaliseUnroll(UnrollBool(true), length).value;
      var (trips, rem) := ImplSplit(length, u);
      (length >= 2 ==> trips == 0 && rem == length) &&
      (length <= 1 ==> u == 1 && trips == length && rem == 0)
  {
    var u := NormaliseUnroll(UnrollBool(true), length).value;
    if length >= 2 {
      assert u == length;
      assert length / length == 1 && length % length == 0;
    }
  }

  // ----- abstract evaluation and type checking -----

  /** The operands of a `scan` equation in the order `consts ++ init ++ xs`. */
  datatype ScanEqn = ScanEqn(numConsts: int, numCarry: int, length: int, unroll: int,
                             linear: seq<bool>, jaxprIn: seq<Aval>, jaxprOut: seq<Aval>)

  /** The stacked output types: carry types as they are, one `length` axis in
      front of every per-iteration output. */
  function StackOutputs(outs: seq<Aval>, numCarry: nat, length: int): (r: seq<Aval>)
    ensures |r| == |outs|
    ensures forall i :: 0 <= i < |outs| && i < numCarry ==> r[i] == outs[i]
    ensures forall i :: numCarry <= i < |outs| ==> r[i] == PrependDim(length, outs[i])
  {
    var (carry, ys) := SplitAt(outs, numCarry);
    carry + seq(|ys|, i requires 0 <= i < |ys| => PrependDim(length, ys[i]))
  }

  /** `_scan_abstract_eval`: the operand count must be the body's input
      count. */
  function ScanAbstractEval(args: seq<Aval>, e: ScanEqn): (r: Result<seq<Aval>>)
    requires e.numCarry >= 0
    ensures r.Err? <==> |args| != |e.jaxprIn|
    ensures r.Ok? ==> r.value == StackOutputs(e.jaxprOut, e.numCarry, e.length)
  {
    if |args| != |e.jaxprIn| then Err(ValueError)
    else Ok(StackOutputs(e.jaxprOut, e.numCarry, e.length))
  }

  /** `all(safe_map(eq, a, b))`: `safe_map` asserts equal lengths. */
  function AllEqual(a: seq<Aval>, b: seq<Aval>): (r: Result<bool>)
    ensures r.Err? <==> |a| != |b|
    ensures r.Ok? ==> (r.value <==> a == b)
  {
    if |a| != |b| then Err(AssertionFailure) else Ok(a == b)
  }

  function MapAll(n: int, xs: seq<Aval>): (r: Result<seq<Aval>>)
    ensures r.Ok? ==> |r.value| == |xs|
    ensures r.Ok? ==> forall i :: 0 <= i < |xs| ==> PrependDim(n, r.value[i]) == xs[i]
    ensures r.Err? ==> exists i :: 0 <= i < |xs| && MapLeading(n, xs[i]).Err?
    ensures r.Err? ==> r.error == AssertionFailure
  {
    if |xs| == 0 then Ok([])
    else
      var h :- MapLeading(n, xs[0]);
      var t :- MapAll(n, xs[1..]);
      assert forall i :: 1 <= i < |xs| ==> xs[1..][i - 1] == xs[i];
      Ok([h] + t)
  }

  /** The four type agreements of a scan equation whose counts are in
      range: the body's carry inputs and carry outputs have the same types,
      and the body's inputs are the consts' types, the init types and the
      scanned operands' types without their leading `length` axis. */
  predicate TypesAgree(avals: seq<Aval>, e: ScanEqn)
    requires e.numConsts >= 0 && e.numCarry >= 0
  {
    var (constAvals, initAvals, xAvals) := Split3(avals, e.numConsts, e.numCarry);
    var (constJ, initJ, xJ) := Split3(e.jaxprIn, e.numConsts, e.numCarry);
    var carryJ := SplitAt(e.jaxprOut, e.numCarry).0;
    var xMapped := MapAll(e.length, xAvals);
    xMapped.Ok? && initJ == carryJ && constJ == constAvals && initJ == initAvals && xJ == xMapped.value
  }

  /** `_scan_typecheck`: parameter ranges, the `linear` length, and the four
      type agreements (carry in/out of the body, consts, init, scanned
      inputs); the result is the init types followed by the stacked outputs.
      A disagreement between lists of equal length is a `JaxprTypeError`. */
  function ScanTypecheck(avals: seq<Aval>, e: ScanEqn): (r: Result<seq<Aval>>)
    ensures r.Ok? <==>
      e.numConsts >= 0 && e.numCarry >= 0 && e.unroll > 0 && e.length >= 0 &&
      |e.linear| == |avals| && TypesAgree(avals, e)
    ensures (e.numConsts < 0 || e.numCarry < 0 || e.unroll <= 0 || e.length < 0 ||
             |e.linear| != |avals|) ==> r == Err(JaxprTypeError)
    ensures r.Err? ==> r.error == JaxprTypeError || r.error == AssertionFailure
    ensures r.Ok? ==> |r.value| == |e.jaxprOut|
    ensures r.Ok? ==> forall i :: 0 <= i < |e.jaxprOut| && i < e.numCarry ==>
      e.numConsts + i < |avals| && r.value[i] == avals[e.numConsts + i]
  {
    if e.numConsts < 0 || e.numCarry < 0 || e.unroll <= 0 || e.length < 0 then Err(JaxprTypeError)
    else if |e.linear| != |avals| then Err(JaxprTypeError)
    else
      var (constAvals, initAvals, xAvals) := Split3(avals, e.numConsts, e.numCarry);
      var (constJ, initJ, xJ) := Split3(e.jaxprIn, e.numConsts, e.numCarry);
      var (carryJ, ysMapped) := SplitAt(e.jaxprOut, e.numCarry);
      var xMapped :- MapAll(e.length, xAvals);
      var carryOk :- AllEqual(initJ, carryJ);
      if !carryOk then Err(JaxprTypeError)
      else
        var constOk :- AllEqual(constJ, constAvals);
        if !constOk then Err(JaxprTypeError)
        else
          var initOk :- AllEqual(initJ, initAvals);
          if !initOk then Err(JaxprTypeError)
          else
            var xOk :- AllEqual(xJ, xMapped);
            if !xOk then Err(JaxprTypeError)
            else
              assert |initAvals| == |carryJ| == |initJ|;
              assert forall i :: 0 <= i < |initAvals| ==> initAvals[i] == avals[e.numConsts + i];
              Ok(initAvals + seq(|ysMapped|, i requires 0 <= i < |ysMapped| => PrependDim(e.length, ysMapped[i])))
  }

  /** A well-typed equation has the output types that abstract evaluation
      computes: the checker's init types are the body's carry-out types. */
  lemma TypecheckAgreesWithAbstractEval(avals: seq<Aval>, e: ScanEqn)
    requires ScanTypecheck(avals, e).Ok?
    requires |avals| == |e.jaxprIn|
    ensures ScanAbstractEval(avals, e).Ok?
    ensures ScanTypecheck(avals, e).value == ScanAbstractEval(avals, e).value
  {
    var (constAvals, initAvals, xAvals) := Split3(avals, e.numConsts, e.numCarry);
    var (constJ, initJ, xJ) := Split3(e.jaxprIn, e.numConsts, e.numCarry);
    var (carryJ, ysMapped) := SplitAt(e.jaxprOut, e.numCarry);
    assert initJ == carryJ && initJ == initAvals;
  }
}
