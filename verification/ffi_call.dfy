/** `jax.ffi.ffi_call` (jax/_src/ffi.py): the checks made when a foreign
    call is set up and when it is applied to arguments, the static layouts
    and input/output aliases it binds, and the rules of the `ffi_call`
    primitive for abstract evaluation and differentiation. */
module FfiCall {
  import opened Results
  import opened KeyOrder
  import opened FfiLayouts
  import opened FfiKwargs

  /** `getattr(a, "dtype", ())`: the token has no dtype. */
  function Dtype(a: Aval): Option<string> {
    if a.Token? then None else Some(a.dtype)
  }

  /** `_check_compatible_avals`: two tokens, or two values agreeing on
      shape (the token's being empty) and on dtype. */
  predicate Compatible(a: Aval, b: Aval) {
    if a.Token? && b.Token? then true
    else if AvalShape(a) != AvalShape(b) then false
    else if Dtype(a) != Dtype(b) then false
    else true
  }

  /** An input may alias an output when both are tokens, or both are
      arrays of the same shape and dtype; a token never aliases an array,
      not even a scalar one. */
  lemma CompatibleMeans(a: Aval, b: Aval)
    ensures Compatible(a, b) <==>
      (a.Token? && b.Token?) ||
      (a.Shaped? && b.Shaped? && a.shape == b.shape && a.dtype == b.dtype)
  {
    if a.Token? != b.Token? {
      assert Dtype(a) != Dtype(b);
    }
  }

  /** A value without its weak-type flag. */
  function Erase(a: Aval): Aval {
    if a.Token? then Token else a.(weakType := false)
  }

  /** Compatibility is an equivalence: it ignores the weak-type flag and
      nothing else. */
  lemma CompatibleEquivalence(a: Aval, b: Aval, c: Aval)
    ensures Compatible(a, a)
    ensures Compatible(a, b) ==> Compatible(b, a)
    ensures Compatible(a, b) && Compatible(b, c) ==> Compatible(a, c)
    ensures Compatible(a, b) <==> Erase(a) == Erase(b)
  {
    CompatibleMeans(a, b);
    CompatibleMeans(b, a);
    CompatibleMeans(b, c);
    CompatibleMeans(a, c);
    CompatibleMeans(a, a);
  }

  /** An element of `result_shape_dtypes`: a token, an object with `shape`
      and `dtype`, or an object lacking one of them. */
  datatype ResultSpec =
    | TokenSpec
    | ShapeDtype(shape: seq<int>, dtype: string)
    | NoShapeDtype

  /** `_result_avals`. */
  function ResultAvals(specs: seq<ResultSpec>): (r: Result<seq<Aval>>)
    ensures r.Err? <==> exists i :: 0 <= i < |specs| && specs[i].NoShapeDtype?
    ensures r.Err? ==> r.error == ValueError
    ensures r.Ok? ==> |r.value| == |specs|
    ensures r.Ok? ==> forall i :: 0 <= i < |specs| ==>
      (specs[i].TokenSpec? ==> r.value[i] == Token) &&
      (specs[i].ShapeDtype? ==> r.value[i] == Shaped(specs[i].shape, specs[i].dtype, false))
  {
    if |specs| == 0 then Ok([])
    else
      var rest := ResultAvals(specs[1..]);
      if specs[0].NoShapeDtype? then Err(ValueError)
      else if rest.Err? then
        assert forall i :: 0 <= i < |specs| - 1 ==> specs[1..][i] == specs[i + 1];
        Err(rest.error)
      else
        var head := if specs[0].TokenSpec? then Token else Shaped(specs[0].shape, specs[0].dtype, false);
        Ok([head] + rest.value)
  }

  /** `result_shape_dtypes`: a sequence of results with optional output
      layouts, or a single result with its one output layout. */
  datatype ResultShapes =
    | Many(specs: seq<ResultSpec>, layouts: Option<seq<LayoutOption>>)
    | Single(spec: ResultSpec, layout: LayoutOption)

  function Specs(rs: ResultShapes): seq<ResultSpec> {
    if rs.Many? then rs.specs else [rs.spec]
  }

  /** The arguments of `ffi_call` that are checked before any input is
      seen. `vectorizedGiven` says whether the removed `vectorized`
      argument was passed, `legacyConfig` whether `legacy_backend_config`
      is not `None`. */
  datatype Options = Options(
    vectorizedGiven: bool,
    vmapMethod: VmapMethod,
    results: ResultShapes,
    apiVersion: int,
    legacyConfig: bool,
    inputLayouts: Option<seq<LayoutOption>>,
    aliases: Option<seq<(int, int)>>,
    hasSideEffect: bool)

  /** What setting up a call yields: the result avals and the output
      layouts, a single result's layout put in a one-element list. */
  datatype Setup = Setup(resultAvals: seq<Aval>, outputLayouts: Option<seq<LayoutOption>>)

  /** The checks `ffi_call` makes before returning its wrapped function:
      every failure is a `ValueError`. */
  function SetUp(o: Options): (r: Result<Setup>)
    ensures r.Ok? <==>
      !o.vectorizedGiven && AllowedMethod(o.vmapMethod) &&
      (forall i :: 0 <= i < |Specs(o.results)| ==> !Specs(o.results)[i].NoShapeDtype?) &&
      !(o.apiVersion >= 4 && o.legacyConfig)
    ensures r.Err? ==> r.error == ValueError
    ensures r.Ok? ==> |r.value.resultAvals| == |Specs(o.results)|
    ensures r.Ok? && o.results.Single? ==> r.value.outputLayouts == Some([o.results.layout])
    ensures r.Ok? && o.results.Many? ==> r.value.outputLayouts == o.results.layouts
  {
    if o.vectorizedGiven then Err(ValueError)
    else if !AllowedMethod(o.vmapMethod) then Err(ValueError)
    else
      var avals :- ResultAvals(Specs(o.results));
      var layouts := if o.results.Many? then o.results.layouts else Some([o.results.layout]);
      if o.apiVersion >= 4 && o.legacyConfig then Err(ValueError)
      else Ok(Setup(avals, layouts))
  }

  /** The static layouts of the inputs or outputs: the defaults when none
      are given, otherwise one per value, converted. */
  function StaticLayouts(avals: seq<Aval>, layouts: Option<seq<LayoutOption>>): (r: Result<seq<seq<int>>>)
    ensures layouts.None? ==> r == Ok(DefaultLayouts(avals))
    ensures layouts.Some? && |layouts.value| != |avals| ==> r == Err(ValueError)
    ensures r.Err? ==> r.error == ValueError
    ensures r.Ok? ==> |r.value| == |avals|
    ensures r.Ok? <==> (layouts.None? ||
      (|layouts.value| == |avals| &&
       forall i :: 0 <= i < |avals| ==> ConvertForFfiCall(avals[i], layouts.value[i]).Ok?))
    ensures r.Ok? && layouts.Some? ==> forall i :: 0 <= i < |avals| ==>
      r.value[i] == ConvertForFfiCall(avals[i], layouts.value[i]).value
  {
    if layouts.None? then Ok(DefaultLayouts(avals))
    else if |layouts.value| != |avals| then Err(ValueError)
    else ConvertLayouts(avals, layouts.value)
  }

  /** Python's `xs[i]`: negative indices count from the end. */
  function PyIndex<T>(xs: seq<T>, i: int): (r: Result<T>)
    ensures r.Ok? <==> -|xs| <= i < |xs|
    ensures r.Err? ==> r.error == IndexError
    ensures 0 <= i < |xs| ==> r == Ok(xs[i])
  {
    if 0 <= i < |xs| then Ok(xs[i])
    else if -|xs| <= i < 0 then Ok(xs[|xs| + i])
    else Err(IndexError)
  }

  /** `<` on input indices: `sorted(items)` orders the alias pairs by
      their input index, the keys of a dict being distinct. */
  predicate IntLess(a: int, b: int) {
    a < b
  }

  lemma IntLessStrictTotal()
    ensures StrictTotal(IntLess)
  {
  }

  /** What an alias must satisfy as written: each index is below the
      length of its list and is then looked up with Python indexing, so an
      index from `-n` to `-1` names a value counted from the end; the two
      values found must be compatible and their layouts the same. */
  predicate AliasOkAsWritten(p: (int, int), ins: seq<Aval>, outs: seq<Aval>, inL: seq<seq<int>>, outL: seq<seq<int>>)
    requires |inL| == |ins| && |outL| == |outs|
  {
    -|ins| <= p.0 < |ins| && -|outs| <= p.1 < |outs| &&
    Compatible(PyIndex(ins, p.0).value, PyIndex(outs, p.1).value) &&
    PyIndex(inL, p.0) == PyIndex(outL, p.1)
  }

  /** The alias checks as written: an index is only compared with the
      upper end of its range, and then looked up with Python indexing, which
      raises `IndexError` below `-n`. */
  function AliasPairsAsWritten(ps: seq<(int, int)>, ins: seq<Aval>, outs: seq<Aval>,
                               inL: seq<seq<int>>, outL: seq<seq<int>>): (r: Result<seq<(int, int)>>)
    requires |inL| == |ins| && |outL| == |outs|
    ensures r.Ok? <==> forall k :: 0 <= k < |ps| ==> AliasOkAsWritten(ps[k], ins, outs, inL, outL)
    ensures r.Ok? ==> r.value == ps
    ensures r.Err? ==> r.error == ValueError || r.error == IndexError
    ensures r.Err? && r.error == IndexError ==>
      exists k :: 0 <= k < |ps| && (ps[k].0 < -|ins| || ps[k].1 < -|outs|)
  {
    if |ps| == 0 then Ok([])
    else
      var (i, o) := ps[0];
      if i >= |ins| then Err(ValueError)
      else if o >= |outs| then Err(ValueError)
      else if PyIndex(ins, i).Err? then Err(IndexError)
      else if PyIndex(outs, o).Err? then Err(IndexError)
      else if !Compatible(PyIndex(ins, i).value, PyIndex(outs, o).value) then Err(ValueError)
      else if PyIndex(inL, i) != PyIndex(outL, o) then Err(ValueError)
      else
        var rest := AliasPairsAsWritten(ps[1..], ins, outs, inL, outL);
        assert forall k :: 0 <= k < |ps| - 1 ==> ps[1..][k] == ps[k + 1];
        if rest.Err? then Err(rest.error)
        else Ok([ps[0]] + rest.value)
  }

  /** What an alias must satisfy: both indices name a value, the two
      values are compatible and their layouts are the same. */
  predicate AliasOk(p: (int, int), ins: seq<Aval>, outs: seq<Aval>, inL: seq<seq<int>>, outL: seq<seq<int>>)
    requires |inL| == |ins| && |outL| == |outs|
  {
    0 <= p.0 < |ins| && 0 <= p.1 < |outs| &&
    Compatible(ins[p.0], outs[p.1]) && inL[p.0] == outL[p.1]
  }

  /** The alias checks as intended: an index outside `[0, n)` is a
      `ValueError`, as the error message says. */
  function AliasPairs(ps: seq<(int, int)>, ins: seq<Aval>, outs: seq<Aval>,
                      inL: seq<seq<int>>, outL: seq<seq<int>>): (r: Result<seq<(int, int)>>)
    requires |inL| == |ins| && |outL| == |outs|
    ensures r.Ok? <==> forall k :: 0 <= k < |ps| ==> AliasOk(ps[k], ins, outs, inL, outL)
    ensures r.Ok? ==> r.value == ps
    ensures r.Err? ==> r.error == ValueError
  {
    if |ps| == 0 then Ok([])
    else
      var (i, o) := ps[0];
      if !(0 <= i < |ins|) then Err(ValueError)
      else if !(0 <= o < |outs|) then Err(ValueError)
      else if !Compatible(ins[i], outs[o]) then Err(ValueError)
      else if inL[i] != outL[o] then Err(ValueError)
      else
        var rest := AliasPairs(ps[1..], ins, outs, inL, outL);
        if rest.Err? then
          assert forall k :: 0 <= k < |ps| - 1 ==> ps[1..][k] == ps[k + 1];
          Err(rest.error)
        else
          Ok([ps[0]] + rest.value)
  }

  /** The two readings agree when no index is negative. */
  lemma {:induction false} AliasPairsAgree(ps: seq<(int, int)>, ins: seq<Aval>, outs: seq<Aval>,
                                           inL: seq<seq<int>>, outL: seq<seq<int>>)
    requires |inL| == |ins| && |outL| == |outs|
    requires forall k :: 0 <= k < |ps| ==> ps[k].0 >= 0 && ps[k].1 >= 0
    ensures AliasPairsAsWritten(ps, ins, outs, inL, outL) == AliasPairs(ps, ins, outs, inL, outL)
  {
    if |ps| > 0 {
      AliasPairsAgree(ps[1..], ins, outs, inL, outL);
    }
  }

  /** As written, `input_output_aliases={-1: 0}` passes the checks and
      binds the alias `(-1, 0)`, which names no input of the custom call;
      as intended it is refused. An index below `-n` reaches the lookup
      and raises `IndexError` instead of the `ValueError` of the message. */
  lemma NegativeAliasAccepted()
    ensures AliasPairsAsWritten([(-1, 0)], [Shaped([2], "float32", false)], [Shaped([2], "float32", false)],
                                [[0]], [[0]]) == Ok([(-1, 0)])
    ensures AliasPairs([(-1, 0)], [Shaped([2], "float32", false)], [Shaped([2], "float32", false)],
                       [[0]], [[0]]) == Err(ValueError)
    ensures AliasPairsAsWritten([(-2, 0)], [Shaped([2], "float32", false)], [Shaped([2], "float32", false)],
                                [[0]], [[0]]) == Err(IndexError)
  {
    var a := Shaped([2], "float32", false);
    assert PyIndex([a], -1) == Ok(a);
    assert PyIndex([[0]], -1) == Ok([0]);
    assert Compatible(a, a);
  }

  /** Which alias check a call applies: the source's, or the intended one
      that refuses negative indices. */
  datatype AliasCheck = AsWrittenCheck | IntendedCheck

  predicate AliasAccepted(check: AliasCheck, p: (int, int), ins: seq<Aval>, outs: seq<Aval>,
                          inL: seq<seq<int>>, outL: seq<seq<int>>)
    requires |inL| == |ins| && |outL| == |outs|
  {
    if check == AsWrittenCheck then AliasOkAsWritten(p, ins, outs, inL, outL)
    else AliasOk(p, ins, outs, inL, outL)
  }

  /** The alias checks of `ffi_call`, over `sorted(input_output_aliases.items())`. */
  function Aliases(check: AliasCheck, items: seq<(int, int)>, ins: seq<Aval>, outs: seq<Aval>,
                   inL: seq<seq<int>>, outL: seq<seq<int>>): (r: Result<seq<(int, int)>>)
    requires |inL| == |ins| && |outL| == |outs|
    ensures r.Ok? ==> r.value == SortByKey(IntLess, items)
    ensures r.Err? ==> r.error == ValueError || (check == AsWrittenCheck && r.error == IndexError)
  {
    var s := SortByKey(IntLess, items);
    if check == AsWrittenCheck then AliasPairsAsWritten(s, ins, outs, inL, outL)
    else AliasPairs(s, ins, outs, inL, outL)
  }

  /** Aliases are accepted exactly when every pair the caller gave passes
      the check; accepted aliases are recorded in increasing input order
      and, as a dictionary, are exactly the ones the caller gave. */
  lemma AliasesRecorded(check: AliasCheck, items: seq<(int, int)>, ins: seq<Aval>, outs: seq<Aval>,
                        inL: seq<seq<int>>, outL: seq<seq<int>>)
    requires |inL| == |ins| && |outL| == |outs|
    requires DistinctKeys(items)
    ensures Aliases(check, items, ins, outs, inL, outL).Ok? <==>
      forall k :: 0 <= k < |items| ==> AliasAccepted(check, items[k], ins, outs, inL, outL)
    ensures Aliases(check, items, ins, outs, inL, outL).Ok? ==>
      SortedBy(IntLess, Aliases(check, items, ins, outs, inL, outL).value) &&
      ToMap(Aliases(check, items, ins, outs, inL, outL).value) == ToMap(items)
  {
    var s := SortByKey(IntLess, items);
    IntLessStrictTotal();
    SortSorted(IntLess, items);
    SortedDistinct(IntLess, s);
    SameItemsSameMap(s, items);
    AliasesChecksEach(check, s, ins, outs, inL, outL);
    AllAcceptedPermuted(check, items, s, ins, outs, inL, outL);
  }

  /** The chosen check accepts a list exactly when it accepts each pair. */
  lemma AliasesChecksEach(check: AliasCheck, s: seq<(int, int)>, ins: seq<Aval>, outs: seq<Aval>,
                          inL: seq<seq<int>>, outL: seq<seq<int>>)
    requires |inL| == |ins| && |outL| == |outs|
    ensures (if check == AsWrittenCheck then AliasPairsAsWritten(s, ins, outs, inL, outL)
             else AliasPairs(s, ins, outs, inL, outL)).Ok? <==>
      forall k :: 0 <= k < |s| ==> AliasAccepted(check, s[k], ins, outs, inL, outL)
  {
  }

  /** Whether every pair passes does not depend on the pairs' order. */
  lemma AllAcceptedPermuted(check: AliasCheck, a: seq<(int, int)>, b: seq<(int, int)>, ins: seq<Aval>,
                            outs: seq<Aval>, inL: seq<seq<int>>, outL: seq<seq<int>>)
    requires |inL| == |ins| && |outL| == |outs|
    requires multiset(a) == multiset(b)
    ensures (forall k :: 0 <= k < |a| ==> AliasAccepted(check, a[k], ins, outs, inL, outL)) <==>
            (forall k :: 0 <= k < |b| ==> AliasAccepted(check, b[k], ins, outs, inL, outL))
  {
    if forall k :: 0 <= k < |a| ==> AliasAccepted(check, a[k], ins, outs, inL, outL) {
      forall k | 0 <= k < |b| ensures AliasAccepted(check, b[k], ins, outs, inL, outL) {
        assert b[k] in multiset(a);
      }
    }
    if forall k :: 0 <= k < |b| ==> AliasAccepted(check, b[k], ins, outs, inL, outL) {
      forall k | 0 <= k < |a| ensures AliasAccepted(check, a[k], ins, outs, inL, outL) {
        assert a[k] in multiset(b);
      }
    }
  }

  /** The same alias dictionary, whatever its insertion order, gives the
      same checks and the same bound aliases. */
  lemma AliasesOrderIndependent(check: AliasCheck, a: seq<(int, int)>, b: seq<(int, int)>, ins: seq<Aval>,
                                outs: seq<Aval>, inL: seq<seq<int>>, outL: seq<seq<int>>)
    requires |inL| == |ins| && |outL| == |outs|
    requires DistinctKeys(a) && DistinctKeys(b) && ToMap(a) == ToMap(b)
    ensures Aliases(check, a, ins, outs, inL, outL) == Aliases(check, b, ins, outs, inL, outL)
  {
    IntLessStrictTotal();
    SortSorted(IntLess, a);
    SortSorted(IntLess, b);
    SameMapSameItems(a, b);
    SortedUnique(IntLess, SortByKey(IntLess, a), SortByKey(IntLess, b));
  }

  /** The parameters `ffi_call` binds the primitive with. */
  datatype Bound = Bound(
    resultAvals: seq<Aval>,
    inputLayouts: seq<seq<int>>,
    outputLayouts: seq<seq<int>>,
    aliases: seq<(int, int)>,
    attributes: seq<(string, Attr)>)

  /** `ffi_call(...)(*args, **kwargs)` up to binding the primitive: set-up
      checks, layout conversion, alias checks and keyword wrapping, in the
      source's order. `AsWrittenCheck` is the program as it stands;
      `IntendedCheck` refuses negative alias indices. */
  function Call(check: AliasCheck, o: Options, args: seq<Aval>, kwargs: seq<(string, KwArg)>): (r: Result<Bound>)
    ensures r.Err? ==> r.error == ValueError || r.error == TypeError ||
                       (check == AsWrittenCheck && r.error == IndexError)
    ensures r.Ok? ==> |r.value.inputLayouts| == |args| && |r.value.outputLayouts| == |r.value.resultAvals|
    ensures r.Ok? ==> |r.value.resultAvals| == |Specs(o.results)|
    ensures r.Ok? ==> forall k :: 0 <= k < |r.value.aliases| ==>
      AliasAccepted(check, r.value.aliases[k], args, r.value.resultAvals, r.value.inputLayouts, r.value.outputLayouts)
    ensures SetUp(o).Err? ==> r == Err(ValueError)
    ensures r.Err? && r.error == TypeError ==> exists i :: 0 <= i < |kwargs| && kwargs[i].1.Unhashable?
  {
    var setup :- SetUp(o);
    var inL :- StaticLayouts(args, o.inputLayouts);
    var outL :- StaticLayouts(setup.resultAvals, setup.outputLayouts);
    var aliases :- if o.aliases.None? then Ok([])
                   else Aliases(check, o.aliases.value, args, setup.resultAvals, inL, outL);
    WrapFails(kwargs);
    var attrs :- Wrap(kwargs);
    Ok(Bound(setup.resultAvals, inL, outL, aliases, attrs))
  }

  /** A call that binds: its aliases are the caller's dictionary, sorted,
      each passing the check, and its attributes are the keyword arguments
      sorted by name. */
  lemma CallBinds(check: AliasCheck, o: Options, args: seq<Aval>, kwargs: seq<(string, KwArg)>)
    requires o.aliases.Some? ==> DistinctKeys(o.aliases.value)
    requires DistinctKeys(kwargs)
    requires Call(check, o, args, kwargs).Ok?
    ensures o.aliases.Some? ==> ToMap(Call(check, o, args, kwargs).value.aliases) == ToMap(o.aliases.value)
    ensures o.aliases.Some? ==> SortedBy(IntLess, Call(check, o, args, kwargs).value.aliases)
    ensures o.aliases.None? ==> Call(check, o, args, kwargs).value.aliases == []
    ensures SortedBy(StrLess, Call(check, o, args, kwargs).value.attributes)
    ensures |Call(check, o, args, kwargs).value.attributes| == |kwargs|
  {
    var b := Call(check, o, args, kwargs).value;
    if o.aliases.Some? {
      AliasesRecorded(check, o.aliases.value, args, b.resultAvals, b.inputLayouts, b.outputLayouts);
    }
    WrapSorted(kwargs);
  }

  /** Without negative alias indices the two checks give the same call. */
  lemma CallChecksAgree(o: Options, args: seq<Aval>, kwargs: seq<(string, KwArg)>)
    requires o.aliases.Some? ==> forall k :: 0 <= k < |o.aliases.value| ==>
      o.aliases.value[k].0 >= 0 && o.aliases.value[k].1 >= 0
    ensures Call(AsWrittenCheck, o, args, kwargs) == Call(IntendedCheck, o, args, kwargs)
  {
    if o.aliases.Some? && SetUp(o).Ok? {
      var setup := SetUp(o).value;
      var inL := StaticLayouts(args, o.inputLayouts);
      var outL := StaticLayouts(setup.resultAvals, setup.outputLayouts);
      if inL.Ok? && outL.Ok? {
        var items := o.aliases.value;
        var s := SortByKey(IntLess, items);
        forall k | 0 <= k < |s| ensures s[k].0 >= 0 && s[k].1 >= 0 {
          assert s[k] in multiset(items);
        }
        AliasPairsAgree(s, args, setup.resultAvals, inL.value, outL.value);
      }
    }
  }

  /** As written, a call with `input_output_aliases={-1: 0}` binds the
      alias `(-1, 0)`; the intended check refuses the call. */
  lemma NegativeAliasCall(o: Options, a: Aval)
    requires o == Options(false, Sequential, Single(ShapeDtype([2], "float32"), NoLayout), 4, false,
                          None, Some([(-1, 0)]), false)
    requires a == Shaped([2], "float32", false)
    ensures Call(AsWrittenCheck, o, [a], []).Ok?
    ensures Call(AsWrittenCheck, o, [a], []).value.aliases == [(-1, 0)]
    ensures Call(IntendedCheck, o, [a], []) == Err(ValueError)
  {
    var avals := ResultAvals([ShapeDtype([2], "float32")]).value;
    assert avals == [a];
    assert SetUp(o) == Ok(Setup([a], Some([NoLayout])));
    var l := ConvertForLowering(a, NoLayout).value;
    assert DefaultLayouts([a]) == [l];
    assert StaticLayouts([a], None) == Ok([l]);
    assert StaticLayouts([a], Some([NoLayout])).value == [l];
    assert SortByKey(IntLess, [(-1, 0)]) == [(-1, 0)];
    NegativeAliasAccepted();
    assert Aliases(AsWrittenCheck, [(-1, 0)], [a], [a], [l], [l]) == Ok([(-1, 0)]);
    assert Aliases(IntendedCheck, [(-1, 0)], [a], [a], [l], [l]) == Err(ValueError);
    assert Wrap([]) == Ok([]);
  }

  /** The effect an FFI call with side effects carries. */
  datatype Effect = FfiEffect

  /** `ffi_call_abstract_eval`: the results have the declared avals, and
      the call is effectful exactly when it has side effects. */
  function AbstractEval(resultAvals: seq<Aval>, hasSideEffect: bool): (r: (seq<Aval>, set<Effect>))
    ensures r.0 == resultAvals
    ensures FfiEffect in r.1 <==> hasSideEffect
    ensures r.1 <= {FfiEffect}
  {
    (resultAvals, if hasSideEffect then {FfiEffect} else {})
  }

  /** The two differentiation rules of the primitive. */
  datatype DiffRule = Jvp | Transpose

  /** `ffi_call_jvp` and `ffi_call_transpose`: an FFI call cannot be
      differentiated, whatever its arguments. */
  function Differentiate(rule: DiffRule, args: seq<Aval>): (r: Result<seq<Aval>>)
    ensures r == Err(ValueError)
  {
    Err(ValueError)
  }
}
