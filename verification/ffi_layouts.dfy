/** Layouts of foreign function calls (jax/_src/ffi.py): the user states a
    layout in major-to-minor order, either as a `Layout` object or as a
    plain sequence of dimensions; the custom-call API wants it in
    minor-to-major order. Under `vmap` a new leading batch dimension is
    added, which shifts every dimension of a layout by one. */
module FfiLayouts {
  import opened Results
  import opened Lists

  /** An abstract value: the token, or an array with a shape, a dtype name
      and a weak-type flag (which layout and alias checks ignore). */
  datatype Aval =
    | Token
    | Shaped(shape: seq<int>, dtype: string, weakType: bool)

  /** `_aval_shape`: the token has the empty shape. */
  function AvalShape(a: Aval): seq<int> {
    if a.Token? then [] else a.shape
  }

  /** `FfiLayoutOptions`: no layout, a `Layout` object given in
      major-to-minor order (possibly with a tiling), or a plain sequence of
      dimensions. */
  datatype LayoutOption =
    | NoLayout
    | LayoutObj(majorToMinor: seq<int>, tiled: bool)
    | Explicit(dims: seq<int>)

  /** `_convert_layout_for_lowering`: a layout in the minor-to-major order
      of the custom-call API. Without a layout the array is row-major; a
      `Layout` is reversed; a plain sequence is taken as already
      minor-to-major. Tiled layouts are refused. */
  function ConvertForLowering(a: Aval, l: LayoutOption): (r: Result<seq<int>>)
    ensures r.Err? <==> l.LayoutObj? && l.tiled
    ensures r.Err? ==> r.error == ValueError
    ensures l.NoLayout? ==> |r.value| == |AvalShape(a)|
    ensures l.NoLayout? ==>
      forall i :: 0 <= i < |AvalShape(a)| ==> r.value[i] == |AvalShape(a)| - 1 - i
    ensures l.LayoutObj? && r.Ok? ==> |r.value| == |l.majorToMinor|
    ensures l.LayoutObj? && r.Ok? ==>
      forall i :: 0 <= i < |l.majorToMinor| ==> r.value[i] == l.majorToMinor[|l.majorToMinor| - 1 - i]
    ensures l.Explicit? ==> r == Ok(l.dims)
  {
    match l
    case NoLayout => Ok(Reverse(Range(|AvalShape(a)|)))
    case LayoutObj(m2m, tiled) => if tiled then Err(ValueError) else Ok(Reverse(m2m))
    case Explicit(dims) => Ok(dims)
  }

  /** The layout `ffi_call` hands to lowering for one value: a user's plain
      sequence is reversed first, because `ffi_call` reads it
      major-to-minor. */
  function ConvertForFfiCall(a: Aval, l: LayoutOption): Result<seq<int>> {
    ConvertForLowering(a, if l.Explicit? then Explicit(Reverse(l.dims)) else l)
  }

  /** For `ffi_call`, a plain sequence means the same as an untiled
      `Layout` with that major-to-minor order. */
  lemma ExplicitIsMajorToMinor(a: Aval, dims: seq<int>)
    ensures ConvertForFfiCall(a, Explicit(dims)) == ConvertForFfiCall(a, LayoutObj(dims, false))
  {
  }

  /** For `ffi_call`, no layout means the row-major order `0, 1, …`. */
  lemma DefaultIsRowMajor(a: Aval)
    ensures ConvertForFfiCall(a, NoLayout) == ConvertForFfiCall(a, Explicit(Range(|AvalShape(a)|)))
    ensures IsPermutation(ConvertForFfiCall(a, NoLayout).value)
  {
    var n := |AvalShape(a)|;
    assert Reverse(Range(n)) == Reverse(Reverse(Reverse(Range(n))));
  }

  /** `_convert_layouts_for_ffi_call`: the layouts of values paired with
      their layouts, stopping at the shorter of the two lists like `zip`. */
  function ConvertLayouts(avals: seq<Aval>, layouts: seq<LayoutOption>): (r: Result<seq<seq<int>>>)
    ensures r.Err? ==> r.error == ValueError
    ensures r.Ok? <==>
      forall i :: 0 <= i < |avals| && i < |layouts| ==> ConvertForFfiCall(avals[i], layouts[i]).Ok?
    ensures r.Ok? ==> |r.value| == if |avals| < |layouts| then |avals| else |layouts|
    ensures r.Ok? ==> forall i :: 0 <= i < |r.value| ==>
      r.value[i] == ConvertForFfiCall(avals[i], layouts[i]).value
  {
    if |avals| == 0 || |layouts| == 0 then Ok([])
    else
      var head := ConvertForFfiCall(avals[0], layouts[0]);
      if head.Err? then Err(head.error)
      else
        var rest := ConvertLayouts(avals[1..], layouts[1..]);
        if rest.Err? then
          Err(rest.error)
        else
          Ok([head.value] + rest.value)
  }

  /** The default layouts of a list of values, `map(_convert_layout_for_lowering, avals)`. */
  function DefaultLayouts(avals: seq<Aval>): (r: seq<seq<int>>)
    ensures |r| == |avals|
  {
    seq(|avals|, i requires 0 <= i < |avals| => ConvertForLowering(avals[i], NoLayout).value)
  }

  /** Giving no layouts at all is the same as giving no layout for each
      value. */
  lemma DefaultLayoutsAgree(avals: seq<Aval>)
    ensures ConvertLayouts(avals, Repeat(NoLayout, |avals|)) == Ok(DefaultLayouts(avals))
  {
    var r := ConvertLayouts(avals, Repeat(NoLayout, |avals|));
    assert r.Ok?;
    assert r.value == DefaultLayouts(avals);
  }

  /** A minor-to-major layout of a value that gains a new leading batch
      dimension: every dimension moves up by one and the new dimension 0
      becomes the most major, `tuple(n + 1 for n in layout) + (0,)`. */
  function ShiftLayout(l: seq<int>): seq<int> {
    seq(|l|, i requires 0 <= i < |l| => l[i] + 1) + [0]
  }

  /** Shifting keeps a layout a permutation of the dimensions and puts the
      batch dimension last, the most major place in minor-to-major order. */
  lemma ShiftPermutation(l: seq<int>)
    requires IsPermutation(l)
    ensures IsPermutation(ShiftLayout(l))
    ensures |ShiftLayout(l)| == |l| + 1 && ShiftLayout(l)[|l|] == 0
  {
    var s := ShiftLayout(l);
    forall i, j | 0 <= i < j < |s| ensures s[i] != s[j] {
      if j < |l| {
        assert s[i] == l[i] + 1 && s[j] == l[j] + 1;
      } else {
        assert s[i] == l[i] + 1 && l[i] >= 0;
      }
    }
  }

  /** The shifted row-major layout of a value is the row-major layout of
      the value with the batch dimension in front. */
  lemma ShiftDefault(a: Aval, n: int)
    requires a.Shaped?
    ensures ShiftLayout(ConvertForLowering(a, NoLayout).value) ==
      ConvertForLowering(a.(shape := [n] + a.shape), NoLayout).value
  {
    var r := |a.shape|;
    var lhs := ShiftLayout(ConvertForLowering(a, NoLayout).value);
    var rhs := ConvertForLowering(a.(shape := [n] + a.shape), NoLayout).value;
    assert |lhs| == r + 1 == |rhs|;
    forall i | 0 <= i < r + 1 ensures lhs[i] == rhs[i] {
      if i < r {
        assert lhs[i] == (r - 1 - i) + 1;
      }
    }
  }

  /** The `vmap_method` of an FFI call. `Unset` is `None`; `OtherMethod`
      is any other string. */
  datatype VmapMethod =
    | Sequential
    | SequentialUnrolled
    | ExpandDims
    | BroadcastAll
    | LegacyVectorized
    | Unset
    | OtherMethod

  /** The methods `ffi_call` accepts. */
  predicate AllowedMethod(m: VmapMethod) {
    !m.OtherMethod?
  }

  /** The methods the batching rule can apply. */
  predicate BatchableMethod(m: VmapMethod) {
    !m.OtherMethod? && !m.Unset?
  }

  /** Layouts as the primitive stores them: a tuple of optional
      minor-to-major layouts, or no layouts at all. */
  type Layouts = Option<seq<Option<seq<int>>>>

  function ShiftOne(l: Option<seq<int>>): Option<seq<int>> {
    if l.None? then None else Some(ShiftLayout(l.value))
  }

  /** Every layout shifted for the batch dimension. */
  function ShiftAll(ls: Layouts): (r: Layouts)
    ensures r.None? <==> ls.None?
    ensures r.Some? ==> |r.value| == |ls.value|
    ensures r.Some? ==> forall i :: 0 <= i < |ls.value| ==> r.value[i] == ShiftOne(ls.value[i])
  {
    if ls.None? then None
    else Some(seq(|ls.value|, i requires 0 <= i < |ls.value| => ShiftOne(ls.value[i])))
  }

  /** The layouts of the batched inputs shifted, zipped with whether each
      input is batched. */
  function ShiftBatched(ls: Layouts, batched: seq<bool>): (r: Layouts)
    ensures r.None? <==> ls.None?
    ensures r.Some? ==> |r.value| == if |ls.value| < |batched| then |ls.value| else |batched|
    ensures r.Some? ==> forall i :: 0 <= i < |ls.value| && i < |batched| ==>
      r.value[i] == if batched[i] then ShiftOne(ls.value[i]) else ls.value[i]
  {
    if ls.None? then None
    else
      var n := if |ls.value| < |batched| then |ls.value| else |batched|;
      Some(seq(n, i requires 0 <= i < n => if batched[i] then ShiftOne(ls.value[i]) else ls.value[i]))
  }

  /** The layout part of `ffi_batching_rule`: the new input and output
      layouts for a call whose inputs are batched as `batched` says.
      Outputs gain the batch dimension under every method but the
      sequential ones; inputs gain it under `expand_dims` and
      `broadcast_all`, and only where batched under `legacy_vectorized`.
      Any other method, `None` included, cannot be batched. */
  function BatchLayouts(m: VmapMethod, batched: seq<bool>, inLayouts: Layouts, outLayouts: Layouts):
    (r: Result<(Layouts, Layouts)>)
    ensures r.Ok? <==> BatchableMethod(m)
    ensures r.Err? ==> r.error == NotImplementedError
    ensures r.Ok? && (m.Sequential? || m.SequentialUnrolled?) ==> r.value == (inLayouts, outLayouts)
    ensures r.Ok? && !(m.Sequential? || m.SequentialUnrolled?) ==> r.value.1 == ShiftAll(outLayouts)
    ensures r.Ok? && (m.ExpandDims? || m.BroadcastAll?) ==> r.value.0 == ShiftAll(inLayouts)
    ensures r.Ok? && m.LegacyVectorized? ==> r.value.0 == ShiftBatched(inLayouts, batched)
  {
    var out := if m.Sequential? || m.SequentialUnrolled? then outLayouts else ShiftAll(outLayouts);
    match m
    case LegacyVectorized => Ok((ShiftBatched(inLayouts, batched), out))
    case ExpandDims => Ok((ShiftAll(inLayouts), out))
    case BroadcastAll => Ok((ShiftAll(inLayouts), out))
    case Sequential => Ok((inLayouts, out))
    case SequentialUnrolled => Ok((inLayouts, out))
    case _ => Err(NotImplementedError)
  }

  /** When every input is batched, `legacy_vectorized` lays the inputs out
      as `expand_dims` does. */
  lemma LegacyAllBatched(inLayouts: Layouts, outLayouts: Layouts, batched: seq<bool>)
    requires inLayouts.Some? ==> |batched| == |inLayouts.value|
    requires forall i :: 0 <= i < |batched| ==> batched[i]
    ensures BatchLayouts(LegacyVectorized, batched, inLayouts, outLayouts) ==
      BatchLayouts(ExpandDims, batched, inLayouts, outLayouts)
  {
    if inLayouts.Some? {
      assert ShiftBatched(inLayouts, batched).value == ShiftAll(inLayouts).value;
    }
  }

  /** When no input is batched, `legacy_vectorized` leaves the input
      layouts as they are. */
  lemma LegacyNoneBatched(inLayouts: Layouts, outLayouts: Layouts, batched: seq<bool>)
    requires inLayouts.Some? ==> |batched| == |inLayouts.value|
    requires forall i :: 0 <= i < |batched| ==> !batched[i]
    ensures BatchLayouts(LegacyVectorized, batched, inLayouts, outLayouts).value.0 == inLayouts
  {
    if inLayouts.Some? {
      assert ShiftBatched(inLayouts, batched).value == inLayouts.value;
    }
  }

  /** Batching keeps each layout a permutation of its value's dimensions:
      a permutation layout stays one after shifting. */
  lemma BatchKeepsPermutations(m: VmapMethod, batched: seq<bool>, inLayouts: Layouts, outLayouts: Layouts, i: nat)
    requires BatchableMethod(m)
    requires outLayouts.Some? && i < |outLayouts.value|
    requires outLayouts.value[i].Some? && IsPermutation(outLayouts.value[i].value)
    ensures BatchLayouts(m, batched, inLayouts, outLayouts).value.1.value[i].Some?
    ensures IsPermutation(BatchLayouts(m, batched, inLayouts, outLayouts).value.1.value[i].value)
  {
    if !(m.Sequential? || m.SequentialUnrolled?) {
      ShiftPermutation(outLayouts.value[i].value);
    }
  }
}
