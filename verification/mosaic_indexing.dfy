/** Index parsing of the Mosaic GPU code generator: `DynamicSlice` and
    `parse_indices`, which turn a NumPy-style index tuple over a memref shape
    into per-axis base indices, slice sizes and squeeze flags. MLIR values
    are abstracted to a marker: only their presence and whether they have
    index type matter here. */
module MosaicIndexing {
  import opened Results
  import opened Lists

  /** A base index: a Python integer, or a dynamic index-typed value. */
  datatype Base = Static(n: int) | Dynamic

  /** `ds(base, length)`: `length` elements starting at `base`. */
  datatype DynamicSlice = DynamicSlice(base: Base, length: int)

  /** One element of the index tuple. `ValueIndex` is an `ir.Value` (or an
      operation, which stands for its result); `OtherIndex` is any other
      Python object. */
  datatype Index =
    | IntIndex(i: int)
    | SliceIndex(start: Option<int>, stop: Option<int>, step: Option<int>)
    | DsIndex(ds: DynamicSlice)
    | ValueIndex(isIndexType: bool)
    | OtherIndex

  /** What one axis contributes to the three result lists. */
  datatype Axis = Axis(base: Base, size: int, squeezed: bool)

  /** The three lists `parse_indices` returns. */
  datatype Parsed = Parsed(bases: seq<Base>, sizes: seq<int>, squeezed: seq<bool>)

  /** The invariant `DynamicSlice.__post_init__` establishes. */
  predicate ValidDynamicSlice(ds: DynamicSlice) {
    (ds.base.Static? ==> ds.base.n >= 0) && ds.length >= 0
  }

  /** `DynamicSlice(base, length)`: a static base and the length must be
      non-negative. */
  function MakeDynamicSlice(base: Base, length: int): (r: Result<DynamicSlice>)
    ensures r.Ok? <==> ValidDynamicSlice(DynamicSlice(base, length))
    ensures r.Ok? ==> r.value == DynamicSlice(base, length)
    ensures r.Err? ==> r.error == ValueError
  {
    if base.Static? && base.n < 0 then Err(ValueError)
    else if length < 0 then Err(ValueError)
    else Ok(DynamicSlice(base, length))
  }

  /** Every dynamic slice in the tuple was built by `MakeDynamicSlice`. */
  predicate ValidIndices(index: seq<Index>) {
    forall i :: 0 <= i < |index| && index[i].DsIndex? ==> ValidDynamicSlice(index[i].ds)
  }

  /** Python's `x or default` on an optional integer: `None` and `0` are both
      falsy. */
  function OrElse(x: Option<int>, default: int): int {
    if x.None? || x.value == 0 then default else x.value
  }

  /** The full slice `slice(None)` used for padding. */
  const FullSlice: Index := SliceIndex(None, None, None)

  /** An integer index: in bounds means `-bound <= idx < bound`; a negative
      index counts from the end. */
  function IntAxis(idx: int, bound: int, checkOob: bool): (r: Result<Axis>)
    ensures r.Ok? <==> !checkOob || -bound <= idx < bound
    ensures r.Err? ==> r.error == IndexError
    ensures r.Ok? ==> r.value.squeezed && r.value.size == 1 && r.value.base.Static?
    ensures r.Ok? && idx >= 0 ==> r.value.base.n == idx
    ensures r.Ok? && idx < 0 ==> r.value.base.n - idx == bound
    ensures r.Ok? && checkOob ==> 0 <= r.value.base.n < bound
  {
    if checkOob && (idx >= bound || (idx < 0 && -idx > bound)) then Err(IndexError)
    else Ok(Axis(Static(if idx >= 0 then idx else bound + idx), 1, true))
  }

  /** `idx.start or 0`, then a negative start counts from the end. */
  function SliceStart(start: Option<int>, bound: int): (s: int)
    ensures start.None? || start.value == 0 ==> s == 0
    ensures start.Some? && start.value > 0 ==> s == start.value
    ensures start.Some? && start.value < 0 ==> s == bound + start.value
  {
    var s0 := OrElse(start, 0);
    if s0 < 0 then bound + s0 else s0
  }

  /** `idx.stop or bound` as written: a missing stop and an explicit `0`
      both end the slice at `bound` (which the negative-stop rule would
      shift again for a negative `bound`); a negative stop counts from the
      end. */
  function SliceStopAsWritten(stop: Option<int>, bound: int): (e: int)
    ensures stop.None? || stop.value == 0 ==> e == if bound < 0 then bound + bound else bound
    ensures stop.Some? && stop.value > 0 ==> e == stop.value
    ensures stop.Some? && stop.value < 0 ==> e == bound + stop.value
  {
    var e0 := OrElse(stop, bound);
    if e0 < 0 then bound + e0 else e0
  }

  /** The stop of a Python slice: only a missing stop means `bound`. */
  function SliceStop(stop: Option<int>, bound: int): (e: int)
    ensures stop.None? ==> e == if bound < 0 then bound + bound else bound
    ensures stop.Some? && stop.value >= 0 ==> e == stop.value
    ensures stop.Some? && stop.value < 0 ==> e == bound + stop.value
  {
    var e0 := if stop.None? then bound else stop.value;
    if e0 < 0 then bound + e0 else e0
  }

  /** A static slice as written: `stop` goes through `or`, so `0` becomes
      `bound`, and nothing compares `stop` with `start`. A unit-step slice
      is accepted unless bounds are checked and the normalised start lies
      outside `[0, bound)` or the normalised stop outside `[0, bound]`; it
      selects `stop - start` elements from `start`. */
  function SliceAxisAsWritten(start: Option<int>, stop: Option<int>, step: Option<int>,
                              bound: int, checkOob: bool): (r: Result<Axis>)
    ensures step.Some? && step.value != 1 ==> r == Err(NotImplementedError)
    ensures var s, e := SliceStart(start, bound), SliceStopAsWritten(stop, bound);
      r.Ok? <==> (step.None? || step.value == 1) && (!checkOob || (0 <= s < bound && 0 <= e <= bound))
    ensures r.Ok? ==>
      var s, e := SliceStart(start, bound), SliceStopAsWritten(stop, bound);
      r.value == Axis(Static(s), e - s, false)
    ensures r.Ok? && checkOob ==> 0 <= r.value.base.n < bound && r.value.base.n + r.value.size <= bound
    ensures r.Err? ==> r.error == NotImplementedError || r.error == IndexError
  {
    if step.Some? && step.value != 1 then Err(NotImplementedError)
    else
      var s := SliceStart(start, bound);
      var e := SliceStopAsWritten(stop, bound);
      if checkOob && (s < 0 || s >= bound || e < 0 || e > bound) then Err(IndexError)
      else Ok(Axis(Static(s), e - s, false))
  }

  /** A static slice as intended: an explicit `stop` of `0` stays `0`, and a
      bounds-checked slice may not end before it starts. */
  function SliceAxis(start: Option<int>, stop: Option<int>, step: Option<int>,
                     bound: int, checkOob: bool): (r: Result<Axis>)
    ensures step.Some? && step.value != 1 ==> r == Err(NotImplementedError)
    ensures var s, e := SliceStart(start, bound), SliceStop(stop, bound);
      r.Ok? <==> (step.None? || step.value == 1) && (!checkOob || (0 <= s < bound && s <= e <= bound))
    ensures r.Ok? ==>
      var s, e := SliceStart(start, bound), SliceStop(stop, bound);
      r.value == Axis(Static(s), e - s, false)
    ensures r.Ok? && checkOob ==>
      0 <= r.value.base.n < bound && 0 <= r.value.size && r.value.base.n + r.value.size <= bound
    ensures r.Err? ==> r.error == NotImplementedError || r.error == IndexError
  {
    if step.Some? && step.value != 1 then Err(NotImplementedError)
    else
      var s := SliceStart(start, bound);
      var e := SliceStop(stop, bound);
      if checkOob && (s < 0 || s >= bound || e < 0 || e > bound || e < s) then Err(IndexError)
      else Ok(Axis(Static(s), e - s, false))
  }

  /** Away from an explicit `stop` of `0` the two slice readings differ
      only where the intended one refuses a checked slice that ends before
      it starts, which the source accepts with a negative size. */
  lemma SliceReadingsAgree(start: Option<int>, stop: Option<int>, step: Option<int>,
                           bound: int, checkOob: bool)
    requires stop != Some(0)
    ensures SliceAxis(start, stop, step, bound, checkOob) == SliceAxisAsWritten(start, stop, step, bound, checkOob) ||
      (checkOob && SliceAxisAsWritten(start, stop, step, bound, checkOob).Ok? &&
       SliceAxisAsWritten(start, stop, step, bound, checkOob).value.size < 0 &&
       SliceAxis(start, stop, step, bound, checkOob) == Err(IndexError))
  {
    assert SliceStop(stop, bound) == SliceStopAsWritten(stop, bound);
  }

  /** A `DynamicSlice`: only a static base can be bounds-checked. */
  function DsAxis(ds: DynamicSlice, bound: int, checkOob: bool): (r: Result<Axis>)
    ensures r.Ok? <==> !(checkOob && ds.base.Static? && ds.base.n + ds.length > bound)
    ensures r.Err? ==> r.error == IndexError
    ensures r.Ok? ==> r.value == Axis(ds.base, ds.length, false)
  {
    if checkOob && ds.base.Static? && ds.base.n + ds.length > bound then Err(IndexError)
    else Ok(Axis(ds.base, ds.length, false))
  }

  /** A dynamic value must have index type; it selects one squeezed
      element. */
  function ValueAxis(isIndexType: bool): (r: Result<Axis>)
    ensures r.Ok? <==> isIndexType
    ensures r.Err? ==> r.error == ValueError
    ensures r.Ok? ==> r.value == Axis(Dynamic, 1, true)
  {
    if !isIndexType then Err(ValueError) else Ok(Axis(Dynamic, 1, true))
  }

  /** Which slice rule to apply: the source's, or the intended one. */
  datatype Variant = AsWritten | Intended

  /** One iteration of the `parse_indices` loop. */
  function ParseAxis(idx: Index, bound: int, checkOob: bool, v: Variant): (r: Result<Axis>)
    ensures idx.OtherIndex? ==> r == Err(NotImplementedError)
    ensures r.Ok? ==> (r.value.squeezed <==> idx.IntIndex? || idx.ValueIndex?)
    ensures r.Ok? && r.value.squeezed ==> r.value.size == 1
  {
    match idx
    case IntIndex(i) => IntAxis(i, bound, checkOob)
    case SliceIndex(start, stop, step) =>
      if v == AsWritten then SliceAxisAsWritten(start, stop, step, bound, checkOob)
      else SliceAxis(start, stop, step, bound, checkOob)
    case DsIndex(ds) => DsAxis(ds, bound, checkOob)
    case ValueIndex(t) => ValueAxis(t)
    case OtherIndex => Err(NotImplementedError)
  }

  /** The index tuple after `index += (slice(None),) * trailing_dims`; a
      negative count adds nothing. */
  function Pad(index: seq<Index>, rank: nat): (r: seq<Index>)
    ensures |r| == if |index| < rank then rank else |index|
    ensures forall i :: 0 <= i < |index| ==> r[i] == index[i]
    ensures forall i :: |index| <= i < |r| ==> r[i] == FullSlice
  {
    if |index| < rank then index + Repeat(FullSlice, rank - |index|) else index
  }

  /** The loop over `zip(index, shape)`, stopping at the first error. */
  function ParseAxes(index: seq<Index>, shape: seq<int>, checkOob: bool, v: Variant): (r: Result<seq<Axis>>)
    requires |index| == |shape|
    ensures r.Ok? ==> |r.value| == |shape|
    ensures r.Ok? ==> forall i :: 0 <= i < |shape| ==> ParseAxis(index[i], shape[i], checkOob, v) == Ok(r.value[i])
    ensures r.Ok? <==> forall i :: 0 <= i < |shape| ==> ParseAxis(index[i], shape[i], checkOob, v).Ok?
    ensures r.Err? ==> exists i :: 0 <= i < |shape| && ParseAxis(index[i], shape[i], checkOob, v) == Err(r.error)
  {
    if |index| == 0 then Ok([])
    else match ParseAxis(index[0], shape[0], checkOob, v)
      case Err(e) => Err(e)
      case Ok(a) =>
        match ParseAxes(index[1..], shape[1..], checkOob, v)
        case Err(e) =>
          var j :| 0 <= j < |shape| - 1 && ParseAxis(index[1..][j], shape[1..][j], checkOob, v) == Err(e);
          assert index[1..][j] == index[j + 1] && shape[1..][j] == shape[j + 1];
          Err(e)
        case Ok(rest) =>
          var r := [a] + rest;
          assert forall i :: 1 <= i < |shape| ==> index[i] == index[1..][i - 1] && shape[i] == shape[1..][i - 1];
          Ok(r)
  }

  /** Splits the per-axis results into the three returned lists. */
  function Unzip(axes: seq<Axis>): (p: Parsed)
    ensures |p.bases| == |p.sizes| == |p.squeezed| == |axes|
    ensures forall i :: 0 <= i < |axes| ==> axes[i] == Axis(p.bases[i], p.sizes[i], p.squeezed[i])
  {
    Parsed(seq(|axes|, i requires 0 <= i < |axes| => axes[i].base),
           seq(|axes|, i requires 0 <= i < |axes| => axes[i].size),
           seq(|axes|, i requires 0 <= i < |axes| => axes[i].squeezed))
  }

  /** `parse_indices(index, shape, check_oob=...)` as written: extra indices
      beyond the rank are dropped by `zip`. */
  function ParseIndicesAsWritten(index: seq<Index>, shape: seq<int>, checkOob: bool): (r: Result<Parsed>)
    ensures r.Ok? ==> |r.value.bases| == |r.value.sizes| == |r.value.squeezed| == |shape|
    ensures r.Ok? <==>
      forall i :: 0 <= i < |shape| ==> ParseAxis(Pad(index, |shape|)[i], shape[i], checkOob, AsWritten).Ok?
    ensures r.Err? ==>
      exists i :: 0 <= i < |shape| && ParseAxis(Pad(index, |shape|)[i], shape[i], checkOob, AsWritten) == Err(r.error)
  {
    var padded := Pad(index, |shape|)[..|shape|];
    match ParseAxes(padded, shape, checkOob, AsWritten)
    case Err(e) => Err(e)
    case Ok(axes) => Ok(Unzip(axes))
  }

  /** `parse_indices` as intended: more indices than dimensions is an
      `IndexError`, and slices follow `SliceAxis`. */
  function ParseIndices(index: seq<Index>, shape: seq<int>, checkOob: bool): (r: Result<Parsed>)
    ensures |index| > |shape| ==> r == Err(IndexError)
    ensures r.Ok? ==> |r.value.bases| == |r.value.sizes| == |r.value.squeezed| == |shape|
    ensures r.Ok? <==> (|index| <= |shape| &&
      forall i :: 0 <= i < |shape| ==> ParseAxis(Pad(index, |shape|)[i], shape[i], checkOob, Intended).Ok?)
    ensures r.Err? && |index| <= |shape| ==>
      exists i :: 0 <= i < |shape| && ParseAxis(Pad(index, |shape|)[i], shape[i], checkOob, Intended) == Err(r.error)
  {
    if |index| > |shape| then Err(IndexError)
    else match ParseAxes(Pad(index, |shape|), shape, checkOob, Intended)
      case Err(e) => Err(e)
      case Ok(axes) => Ok(Unzip(axes))
  }

  /** Axis `i` of the result is what the loop computes for the (padded)
      index at `i` against dimension `i`. */
  lemma ParseIndicesAt(index: seq<Index>, shape: seq<int>, checkOob: bool, i: nat)
    requires ParseIndices(index, shape, checkOob).Ok? && i < |shape|
    ensures ParseAxis(Pad(index, |shape|)[i], shape[i], checkOob, Intended) ==
      Ok(Axis(ParseIndices(index, shape, checkOob).value.bases[i],
              ParseIndices(index, shape, checkOob).value.sizes[i],
              ParseIndices(index, shape, checkOob).value.squeezed[i]))
  {
    var axes := ParseAxes(Pad(index, |shape|), shape, checkOob, Intended).value;
    assert ParseAxis(Pad(index, |shape|)[i], shape[i], checkOob, Intended) == Ok(axes[i]);
  }

  /** As written, axis `i` of the result is likewise what the loop computes
      for the (padded) index at `i`, whatever indices lie beyond the rank. */
  lemma ParseIndicesAsWrittenAt(index: seq<Index>, shape: seq<int>, checkOob: bool, i: nat)
    requires ParseIndicesAsWritten(index, shape, checkOob).Ok? && i < |shape|
    ensures ParseAxis(Pad(index, |shape|)[i], shape[i], checkOob, AsWritten) ==
      Ok(Axis(ParseIndicesAsWritten(index, shape, checkOob).value.bases[i],
              ParseIndicesAsWritten(index, shape, checkOob).value.sizes[i],
              ParseIndicesAsWritten(index, shape, checkOob).value.squeezed[i]))
  {
    var padded := Pad(index, |shape|)[..|shape|];
    var axes := ParseAxes(padded, shape, checkOob, AsWritten).value;
    assert padded[i] == Pad(index, |shape|)[i];
    assert ParseAxis(padded[i], shape[i], checkOob, AsWritten) == Ok(axes[i]);
  }

  /** Missing trailing axes are taken whole: base 0, the full extent, not
      squeezed. */
  lemma PaddedAxesAreWhole(index: seq<Index>, shape: seq<int>, checkOob: bool, i: nat)
    requires ParseIndices(index, shape, checkOob).Ok? && |index| <= i < |shape| && shape[i] >= 0
    ensures ParseIndices(index, shape, checkOob).value.bases[i] == Static(0)
    ensures ParseIndices(index, shape, checkOob).value.sizes[i] == shape[i]
    ensures !ParseIndices(index, shape, checkOob).value.squeezed[i]
  {
    ParseIndicesAt(index, shape, checkOob, i);
    assert Pad(index, |shape|)[i] == FullSlice;
  }

  /** An integer index is squeezed to one element at its normalised
      position, which bounds checking keeps inside the dimension. */
  lemma IntIndexNormalised(index: seq<Index>, shape: seq<int>, i: nat)
    requires ParseIndices(index, shape, true).Ok? && i < |index| && index[i].IntIndex?
    ensures ParseIndices(index, shape, true).value.squeezed[i]
    ensures ParseIndices(index, shape, true).value.sizes[i] == 1
    ensures ParseIndices(index, shape, true).value.bases[i] ==
      Static(if index[i].i >= 0 then index[i].i else shape[i] + index[i].i)
    ensures 0 <= ParseIndices(index, shape, true).value.bases[i].n < shape[i]
  {
    ParseIndicesAt(index, shape, true, i);
  }

  /** With bounds checking, every statically known window lies inside its
      dimension: it starts at or after 0, has a non-negative size and ends
      at or before the bound. */
  lemma StaticWindowsInBounds(index: seq<Index>, shape: seq<int>, i: nat)
    requires ValidIndices(index)
    requires ParseIndices(index, shape, true).Ok? && i < |shape|
    requires ParseIndices(index, shape, true).value.bases[i].Static?
    ensures 0 <= ParseIndices(index, shape, true).value.bases[i].n
    ensures 0 <= ParseIndices(index, shape, true).value.sizes[i]
    ensures ParseIndices(index, shape, true).value.bases[i].n +
            ParseIndices(index, shape, true).value.sizes[i] <= shape[i]
  {
    ParseIndicesAt(index, shape, true, i);
    var idx := Pad(index, |shape|)[i];
    if idx.DsIndex? {
      assert i < |index| && idx == index[i];
    }
  }

  /** Both variants agree on every index that is not a slice. */
  lemma ParseAxisAgreesOffSlices(idx: Index, bound: int, checkOob: bool)
    requires !idx.SliceIndex?
    ensures ParseAxis(idx, bound, checkOob, AsWritten) == ParseAxis(idx, bound, checkOob, Intended)
  {
  }

  /** Parsing a one-index tuple against a one-dimensional shape. */
  lemma OneAxis(idx: Index, bound: int, v: Variant)
    ensures ParseAxis(idx, bound, true, v).Err? ==>
      ParseAxes([idx], [bound], true, v) == Err(ParseAxis(idx, bound, true, v).error)
    ensures ParseAxis(idx, bound, true, v).Ok? ==>
      var a := ParseAxis(idx, bound, true, v).value;
      ParseAxes([idx], [bound], true, v) == Ok([a]) &&
      Unzip([a]) == Parsed([a.base], [a.size], [a.squeezed])
  {
    assert [idx][1..] == [] && [bound][1..] == [];
    if ParseAxis(idx, bound, true, v).Ok? {
      var a := ParseAxis(idx, bound, true, v).value;
      assert ParseAxes([], [], true, v) == Ok([]);
      assert [a] + [] == [a];
      var u := Unzip([a]);
      assert u.bases == [a.base] && u.sizes == [a.size] && u.squeezed == [a.squeezed];
    }
  }

  /** As written, `x[0:0]` selects the whole axis instead of nothing. */
  lemma ZeroStopTakesWholeAxis()
    ensures ParseIndicesAsWritten([SliceIndex(Some(0), Some(0), None)], [4], true) ==
      Ok(Parsed([Static(0)], [4], [false]))
    ensures ParseIndices([SliceIndex(Some(0), Some(0), None)], [4], true) ==
      Ok(Parsed([Static(0)], [0], [false]))
  {
    var ix := [SliceIndex(Some(0), Some(0), None)];
    assert Pad(ix, 1)[..1] == ix;
    assert Pad(ix, 1) == ix;
    OneAxis(ix[0], 4, AsWritten);
    OneAxis(ix[0], 4, Intended);
  }

  /** As written, `x[3:1]` passes the bounds check with size `-2`. */
  lemma ReversedSliceNegativeSize()
    ensures ParseIndicesAsWritten([SliceIndex(Some(3), Some(1), None)], [4], true) ==
      Ok(Parsed([Static(3)], [-2], [false]))
    ensures ParseIndices([SliceIndex(Some(3), Some(1), None)], [4], true) == Err(IndexError)
  {
    var ix := [SliceIndex(Some(3), Some(1), None)];
    assert Pad(ix, 1)[..1] == ix;
    assert Pad(ix, 1) == ix;
    OneAxis(ix[0], 4, AsWritten);
    OneAxis(ix[0], 4, Intended);
  }

  /** As written, an index tuple longer than the shape is accepted and its
      extra entries are ignored. */
  lemma ExtraIndicesDropped()
    ensures ParseIndicesAsWritten([IntIndex(1), IntIndex(7)], [4], true) ==
      Ok(Parsed([Static(1)], [1], [true]))
    ensures ParseIndices([IntIndex(1), IntIndex(7)], [4], true) == Err(IndexError)
  {
    var ix := [IntIndex(1), IntIndex(7)];
    assert Pad(ix, 1)[..1] == [IntIndex(1)];
    OneAxis(IntIndex(1), 4, AsWritten);
  }
}
