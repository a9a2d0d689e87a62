/** Shape arithmetic of the Mosaic GPU code generator: row-major strides,
    `tile_shape`, `ceil_div`, and the `Partition` / `Partition1D` split of an
    array into equally sized blocks. Values are the Python integers the
    builder computes before it emits any MLIR. */
module MosaicShapes {
  import opened Results
  import opened Lists

  /** Python's `//`: the quotient rounded towards negative infinity (Dafny's
      own `/` rounds so that the remainder is never negative). */
  function FloorDiv(x: int, y: int): int
    requires y != 0
  {
    if y > 0 then x / y else (-x) / (-y)
  }

  /** `x // y` is the floor of `x / y`: `y` times it lies within one `y` of
      `x`, on the side the sign of `y` dictates. */
  lemma FloorDivBounds(x: int, y: int)
    requires y != 0
    ensures y > 0 ==> y * FloorDiv(x, y) <= x < y * FloorDiv(x, y) + y
    ensures y < 0 ==> y * FloorDiv(x, y) >= x > y * FloorDiv(x, y) + y
  {
    var d := if y > 0 then y else -y;
    var a := if y > 0 then x else -x;
    var q := a / d;
    assert a == d * q + a % d;
    assert FloorDiv(x, y) == q;
    if y < 0 {
      assert y * q == -(d * q);
    }
  }

  /** A product in `[0, d)` of `d > 0` and an integer has a zero factor. */
  lemma SmallMultiple(d: int, m: int)
    requires d > 0 && 0 <= d * m < d
    ensures m == 0
  {
    if m >= 1 {
      MulMonotone(d, 1, m);
      assert false;
    } else if m <= -1 {
      MulMonotone(d, m, -1);
      assert false;
    }
  }

  /** Euclidean division of an exact multiple returns the factor and
      leaves no remainder. */
  lemma DivExact(a: int, d: int, k: int)
    requires d != 0 && a == d * k
    ensures a / d == k && a % d == 0
  {
    var q, r := a / d, a % d;
    if d > 0 {
      assert a == d * q + r && 0 <= r < d;
      assert d * (k - q) == r;
      SmallMultiple(d, k - q);
    } else {
      assert a == d * q + r && 0 <= r < -d;
      assert (-d) * (q - k) == r;
      SmallMultiple(-d, q - k);
    }
  }

  /** When `y` divides `x`, `x // y` is the exact quotient. */
  lemma ExactFloorDiv(x: int, y: int)
    requires y != 0 && x % y == 0
    ensures FloorDiv(x, y) * y == x
  {
    var k := x / y;
    assert x == y * k + x % y;
    if y < 0 {
      assert -x == (-y) * k;
      DivExact(-x, -y, k);
    }
  }

  /** The row-major stride of every dimension: the product of all the
      dimensions after it. */
  function RowMajorStrides(xs: seq<int>): (r: seq<int>)
    ensures |r| == |xs|
  {
    seq(|xs|, i requires 0 <= i < |xs| => Product(xs[i + 1..]))
  }

  /** `get_contiguous_strides(xs)`: walks the shape from the last dimension,
      recording the running product before multiplying it in. */
  method ContiguousStrides(xs: seq<int>) returns (r: seq<int>)
    ensures r == RowMajorStrides(xs)
    ensures |xs| > 0 ==> r[|xs| - 1] == 1
    ensures forall i :: 0 <= i < |xs| - 1 ==> r[i] == r[i + 1] * xs[i + 1]
  {
    var acc: seq<int> := [];
    var stride := 1;
    var k := |xs|;
    while k > 0
      invariant 0 <= k <= |xs|
      invariant |acc| == |xs| - k
      invariant stride == Product(xs[k..])
      invariant forall j :: 0 <= j < |acc| ==> acc[j] == Product(xs[|xs| - j..])
    {
      acc := acc + [stride];
      ProductFrom(xs, k - 1);
      stride := stride * xs[k - 1];
      k := k - 1;
    }
    r := Reverse(acc);
    forall i | 0 <= i < |xs| - 1
      ensures r[i] == r[i + 1] * xs[i + 1]
    {
      ProductFrom(xs, i + 1);
    }
    assert xs[|xs|..] == [];
  }

  lemma ProductFrom(xs: seq<int>, k: nat)
    requires k < |xs|
    ensures Product(xs[k..]) == Product(xs[k + 1..]) * xs[k]
  {
    assert xs[k..][1..] == xs[k + 1..];
  }

  /** Every dimension of `dims` is divisible by the matching divisor. */
  predicate Divisible(dims: seq<int>, divisors: seq<int>) {
    |dims| == |divisors| &&
    forall i :: 0 <= i < |dims| ==> divisors[i] != 0 && dims[i] % divisors[i] == 0
  }

  /** The `for s, t in zip(...): if s % t: raise` loop shared by `tile_shape`
      and `Partition`: the first pair that divides by zero or leaves a
      remainder decides the error. */
  function CheckDivisible(dims: seq<int>, divisors: seq<int>): (r: Option<Error>)
    requires |dims| == |divisors|
    ensures r.None? <==> Divisible(dims, divisors)
    ensures r.Some? ==> r.value == ZeroDivisionError || r.value == ValueError
  {
    if |dims| == 0 then None
    else if divisors[0] == 0 then Some(ZeroDivisionError)
    else if dims[0] % divisors[0] != 0 then Some(ValueError)
    else
      var rest := CheckDivisible(dims[1..], divisors[1..]);
      assert Divisible(dims, divisors) <==> Divisible(dims[1..], divisors[1..]) by {
        if Divisible(dims[1..], divisors[1..]) {
          forall i | 0 <= i < |dims| ensures divisors[i] != 0 && dims[i] % divisors[i] == 0 {
            if i > 0 { assert dims[i] == dims[1..][i - 1] && divisors[i] == divisors[1..][i - 1]; }
          }
        }
      }
      rest
  }

  /** `s // t` for each pair, exact because the pair divides. */
  function Quotients(dims: seq<int>, divisors: seq<int>): (q: seq<int>)
    requires Divisible(dims, divisors)
    ensures |q| == |dims|
  {
    seq(|dims|, i requires 0 <= i < |dims| && Divisible(dims, divisors) => FloorDiv(dims[i], divisors[i]))
  }

  /** Each quotient multiplies back to its dimension. */
  lemma QuotientAt(dims: seq<int>, divisors: seq<int>, i: nat)
    requires Divisible(dims, divisors) && i < |dims|
    ensures Quotients(dims, divisors)[i] * divisors[i] == dims[i]
  {
    ExactFloorDiv(dims[i], divisors[i]);
  }

  /** The product of quotients times the product of divisors is the product
      of the divided dimensions. */
  lemma {:induction false} ProductQuotients(dims: seq<int>, divisors: seq<int>)
    requires Divisible(dims, divisors)
    ensures Product(Quotients(dims, divisors)) * Product(divisors) == Product(dims)
  {
    var q := Quotients(dims, divisors);
    if |dims| > 0 {
      var d', t' := dims[1..], divisors[1..];
      assert Divisible(d', t') by {
        forall i | 0 <= i < |d'| ensures t'[i] != 0 && d'[i] % t'[i] == 0 {
          assert d'[i] == dims[i + 1] && t'[i] == divisors[i + 1];
        }
      }
      ProductQuotients(d', t');
      var q' := Quotients(d', t');
      assert q[1..] == q' by {
        forall i | 0 <= i < |q'| ensures q[1..][i] == q'[i] {
          assert q[i + 1] == FloorDiv(dims[i + 1], divisors[i + 1]);
        }
      }
      var a, b := Product(q'), Product(t');
      QuotientAt(dims, divisors, 0);
      assert Product(q) == q[0] * a;
      assert Product(divisors) == divisors[0] * b;
      Rearrange(q[0], a, divisors[0], b);
    }
  }

  lemma Rearrange(x: int, y: int, z: int, w: int)
    ensures (x * y) * (z * w) == (x * z) * (y * w)
  {
  }

  /** `tile_shape(shape, tiling)`: the trailing `len(tiling)` dimensions are
      divided by the tile and the tile itself is appended. */
  function TileShape(shape: seq<int>, tiling: seq<int>): (r: Result<seq<int>>)
    ensures r.Ok? <==> |tiling| <= |shape| && Divisible(shape[|shape| - |tiling|..], tiling)
    ensures |tiling| > |shape| ==> r == Err(ValueError)
    ensures r.Err? ==> r.error == ValueError || r.error == ZeroDivisionError
    ensures r.Ok? && |tiling| == 0 ==> r.value == shape
    ensures r.Ok? && |tiling| > 0 ==> |r.value| == |shape| + |tiling|
    ensures r.Ok? && |tiling| > 0 ==>
      r.value[..|shape| - |tiling|] == shape[..|shape| - |tiling|] && r.value[|shape|..] == tiling
    ensures r.Ok? && |tiling| > 0 ==> forall i :: 0 <= i < |tiling| ==>
      r.value[|shape| - |tiling| + i] * tiling[i] == shape[|shape| - |tiling| + i]
  {
    if |tiling| > |shape| then Err(ValueError)
    else if |tiling| == 0 then Ok(shape)
    else
      var n := |shape| - |tiling|;
      match CheckDivisible(shape[n..], tiling)
      case Some(e) => Err(e)
      case None =>
        var q := Quotients(shape[n..], tiling);
        var t := shape[..n] + q + tiling;
        assert t[..n] == shape[..n] && t[|shape|..] == tiling;
        assert forall i :: 0 <= i < |tiling| ==> t[n + i] * tiling[i] == shape[n + i] by {
          forall i | 0 <= i < |tiling| ensures t[n + i] * tiling[i] == shape[n + i] {
            QuotientAt(shape[n..], tiling, i);
          }
        }
        Ok(t)
  }

  /** Inverse of tiling with `k` tile dimensions: each tiled dimension
      multiplied back by its tile, the tile dimensions dropped. */
  function Untile(tiled: seq<int>, k: nat): (r: seq<int>)
    requires 2 * k <= |tiled|
    ensures |r| == |tiled| - k
  {
    var n := |tiled| - 2 * k;
    tiled[..n] + seq(k, i requires 0 <= i < k => tiled[n + i] * tiled[n + k + i])
  }

  /** Tiling loses nothing: untiling the result gives the shape back. */
  lemma TileUntile(shape: seq<int>, tiling: seq<int>)
    requires TileShape(shape, tiling).Ok? && |tiling| > 0
    ensures Untile(TileShape(shape, tiling).value, |tiling|) == shape
  {
    var n := |shape| - |tiling|;
    var q := Quotients(shape[n..], tiling);
    var r := TileShape(shape, tiling).value;
    assert r == shape[..n] + q + tiling;
    var u := Untile(r, |tiling|);
    forall i | 0 <= i < |shape| ensures u[i] == shape[i] {
      if i >= n {
        assert r[i] == q[i - n] && r[i + |tiling|] == tiling[i - n];
        QuotientAt(shape[n..], tiling, i - n);
      }
    }
  }

  /** Tiling preserves the element count. */
  lemma TileShapeProduct(shape: seq<int>, tiling: seq<int>)
    requires TileShape(shape, tiling).Ok?
    ensures Product(TileShape(shape, tiling).value) == Product(shape)
  {
    if |tiling| > 0 {
      var n := |shape| - |tiling|;
      var pre, suf := shape[..n], shape[n..];
      var q := Quotients(suf, tiling);
      assert TileShape(shape, tiling).value == pre + q + tiling;
      ProductAppend(pre + q, tiling);
      ProductAppend(pre, q);
      ProductAppend(pre, suf);
      ProductQuotients(suf, tiling);
      assert pre + suf == shape;
      var a, b, c := Product(pre), Product(q), Product(tiling);
      assert (a * b) * c == a * (b * c);
    }
  }

  /** `ceil_div(x, y)`, that is `(x + y - 1) // y`. */
  function CeilDiv(x: int, y: int): (r: Result<int>)
    ensures r.Err? <==> y == 0
    ensures r.Err? ==> r.error == ZeroDivisionError
    ensures y > 0 ==> (r.value - 1) * y < x <= r.value * y
  {
    if y == 0 then Err(ZeroDivisionError)
    else
      FloorDivBounds(x + y - 1, y);
      Ok(FloorDiv(x + y - 1, y))
  }

  /** A split of `target_bounds` into blocks: dimension `i` is cut into
      `source_bounds[p]` chunks when `partition[i] == p`, and kept whole when
      it is `None`. */
  datatype Partition = Partition(targetBounds: seq<int>, partition: seq<Option<int>>, sourceBounds: seq<int>)

  /** Every named source dimension indexes `source_bounds`. */
  predicate DimsInRange(ps: seq<Option<int>>, n: int) {
    forall i :: 0 <= i < |ps| && ps[i].Some? ==> 0 <= ps[i].value < n
  }

  /** No source dimension is named twice. */
  predicate DimsDistinct(ps: seq<Option<int>>) {
    forall i, j :: 0 <= i < j < |ps| && ps[i].Some? && ps[j].Some? ==> ps[i].value != ps[j].value
  }

  /** None of the named source dimensions is in `seen`. */
  predicate DimsUnseen(ps: seq<Option<int>>, seen: set<int>) {
    forall i :: 0 <= i < |ps| && ps[i].Some? ==> ps[i].value !in seen
  }

  /** The `seen_dims` loop of `Partition.__init__`. */
  function DimsValid(ps: seq<Option<int>>, n: int, seen: set<int>): bool {
    if |ps| == 0 then true
    else match ps[0]
      case None => DimsValid(ps[1..], n, seen)
      case Some(p) => 0 <= p < n && p !in seen && DimsValid(ps[1..], n, seen + {p})
  }

  /** The loop accepts exactly the in-range, pairwise distinct dimensions
      not already seen. */
  lemma {:induction false} DimsValidMeans(ps: seq<Option<int>>, n: int, seen: set<int>)
    ensures DimsValid(ps, n, seen) <==> DimsInRange(ps, n) && DimsDistinct(ps) && DimsUnseen(ps, seen)
  {
    if |ps| > 0 {
      var t := ps[1..];
      var seen' := if ps[0].Some? then seen + {ps[0].value} else seen;
      DimsValidMeans(t, n, seen');
      var lhs := DimsInRange(ps, n) && DimsDistinct(ps) && DimsUnseen(ps, seen);
      var rhs := (ps[0].Some? ==> 0 <= ps[0].value < n && ps[0].value !in seen) &&
                 DimsInRange(t, n) && DimsDistinct(t) && DimsUnseen(t, seen');
      if lhs {
        assert DimsInRange(t, n) by {
          forall i | 0 <= i < |t| && t[i].Some? ensures 0 <= t[i].value < n { assert t[i] == ps[i + 1]; }
        }
        assert DimsDistinct(t) by {
          forall i, j | 0 <= i < j < |t| && t[i].Some? && t[j].Some? ensures t[i].value != t[j].value {
            assert t[i] == ps[i + 1] && t[j] == ps[j + 1];
          }
        }
        assert DimsUnseen(t, seen') by {
          forall i | 0 <= i < |t| && t[i].Some? ensures t[i].value !in seen' {
            assert t[i] == ps[i + 1];
            if ps[0].Some? { assert ps[0].value != ps[i + 1].value; }
          }
        }
      }
      if rhs {
        assert DimsInRange(ps, n) by {
          forall i | 0 <= i < |ps| && ps[i].Some? ensures 0 <= ps[i].value < n {
            if i > 0 { assert ps[i] == t[i - 1]; }
          }
        }
        assert DimsDistinct(ps) by {
          forall i, j | 0 <= i < j < |ps| && ps[i].Some? && ps[j].Some? ensures ps[i].value != ps[j].value {
            assert ps[j] == t[j - 1];
            if i > 0 { assert ps[i] == t[i - 1]; }
          }
        }
        assert DimsUnseen(ps, seen) by {
          forall i | 0 <= i < |ps| && ps[i].Some? ensures ps[i].value !in seen {
            if i > 0 { assert ps[i] == t[i - 1]; }
          }
        }
      }
      assert lhs <==> rhs;
    }
  }

  /** Every partitioned target dimension is a whole number of its chunks. */
  predicate BlocksDivide(tbs: seq<int>, ps: seq<Option<int>>, sb: seq<int>)
    requires |tbs| == |ps| && DimsInRange(ps, |sb|)
  {
    forall i :: 0 <= i < |tbs| && ps[i].Some? ==> sb[ps[i].value] != 0 && tbs[i] % sb[ps[i].value] == 0
  }

  /** The final `tb % self.source_bounds[p]` loop. */
  function CheckBlocks(tbs: seq<int>, ps: seq<Option<int>>, sb: seq<int>): (r: Option<Error>)
    requires |tbs| == |ps| && DimsInRange(ps, |sb|)
    ensures r.None? <==> BlocksDivide(tbs, ps, sb)
    ensures r.Some? ==> r.value == ZeroDivisionError || r.value == ValueError
  {
    if |tbs| == 0 then None
    else if ps[0].Some? && sb[ps[0].value] == 0 then Some(ZeroDivisionError)
    else if ps[0].Some? && tbs[0] % sb[ps[0].value] != 0 then Some(ValueError)
    else
      assert DimsInRange(ps[1..], |sb|) by {
        forall i | 0 <= i < |ps| - 1 && ps[1..][i].Some? ensures 0 <= ps[1..][i].value < |sb| {
          assert ps[1..][i] == ps[i + 1];
        }
      }
      var rest := CheckBlocks(tbs[1..], ps[1..], sb);
      assert BlocksDivide(tbs, ps, sb) <==> BlocksDivide(tbs[1..], ps[1..], sb) by {
        if BlocksDivide(tbs[1..], ps[1..], sb) {
          forall i | 0 <= i < |tbs| && ps[i].Some?
            ensures sb[ps[i].value] != 0 && tbs[i] % sb[ps[i].value] == 0
          {
            if i > 0 { assert tbs[i] == tbs[1..][i - 1] && ps[i] == ps[1..][i - 1]; }
          }
        }
      }
      rest
  }

  /** The invariant every constructed `Partition` satisfies. */
  predicate ValidPartition(pt: Partition) {
    |pt.targetBounds| == |pt.partition| &&
    DimsInRange(pt.partition, |pt.sourceBounds|) &&
    DimsDistinct(pt.partition) &&
    BlocksDivide(pt.targetBounds, pt.partition, pt.sourceBounds)
  }

  /** `source_bounds` as `__init__` derives it once one of `num_chunks` and
      `chunk_size` is known to be given: `num_chunks` wins, otherwise each
      element count is divided by its chunk size. */
  function SourceBounds(elements: seq<int>, numChunks: Option<seq<int>>, chunkSize: Option<seq<int>>): (r: Result<seq<int>>)
    requires numChunks.Some? || chunkSize.Some?
    ensures numChunks.Some? ==> r == Ok(numChunks.value)
    ensures numChunks.None? ==> (r.Ok? <==> Divisible(elements, chunkSize.value))
    ensures numChunks.None? && r.Ok? ==> r.value == Quotients(elements, chunkSize.value)
  {
    if numChunks.Some? then Ok(numChunks.value)
    else if |chunkSize.value| != |elements| then Err(ValueError)
    else match CheckDivisible(elements, chunkSize.value)
      case Some(e) => Err(e)
      case None => Ok(Quotients(elements, chunkSize.value))
  }

  /** The checks of `__init__` that follow the choice of `source_bounds`. */
  function ValidateDims(elements: seq<int>, partition: seq<Option<int>>, sb: seq<int>): (r: Result<Partition>)
    requires |elements| == |partition|
    ensures r.Ok? <==> DimsInRange(partition, |sb|) && DimsDistinct(partition) &&
                       BlocksDivide(elements, partition, sb)
    ensures r.Ok? ==> r.value == Partition(elements, partition, sb)
  {
    DimsValidMeans(partition, |sb|, {});
    if !DimsValid(partition, |sb|, {}) then Err(ValueError)
    else match CheckBlocks(elements, partition, sb)
      case Some(e) => Err(e)
      case None => Ok(Partition(elements, partition, sb))
  }

  /** `Partition.__init__` as written. Python chains
      `num_chunks is None == chunk_size is None` into
      `num_chunks is None and None == chunk_size and chunk_size is None`,
      so only the case where neither is given is rejected. */
  function PartitionAsWritten(elements: seq<int>, partition: seq<Option<int>>,
                              numChunks: Option<seq<int>>, chunkSize: Option<seq<int>>): (r: Result<Partition>)
    ensures r.Ok? ==> ValidPartition(r.value)
    ensures numChunks.None? && chunkSize.None? ==> r == Err(ValueError)
  {
    if |elements| != |partition| then Err(ValueError)
    else if numChunks.None? && None == chunkSize && chunkSize.None? then Err(ValueError)
    else match SourceBounds(elements, numChunks, chunkSize)
      case Err(e) => Err(e)
      case Ok(sb) => ValidateDims(elements, partition, sb)
  }

  /** `Partition.__init__` as its error message intends: exactly one of
      `num_chunks` and `chunk_size` must be given. */
  function NewPartition(elements: seq<int>, partition: seq<Option<int>>,
                        numChunks: Option<seq<int>>, chunkSize: Option<seq<int>>): (r: Result<Partition>)
    ensures r.Ok? <==>
      |elements| == |partition| && numChunks.Some? != chunkSize.Some? &&
      (chunkSize.Some? ==> Divisible(elements, chunkSize.value)) &&
      (var sb := if numChunks.Some? then numChunks.value else Quotients(elements, chunkSize.value);
       DimsInRange(partition, |sb|) && DimsDistinct(partition) && BlocksDivide(elements, partition, sb))
    ensures r.Ok? ==> ValidPartition(r.value) && r.value.targetBounds == elements && r.value.partition == partition
    ensures r.Ok? && numChunks.Some? ==> r.value.sourceBounds == numChunks.value
    ensures r.Ok? && chunkSize.Some? ==> r.value.sourceBounds == Quotients(elements, chunkSize.value)
  {
    if |elements| != |partition| then Err(ValueError)
    else if numChunks.None? == chunkSize.None? then Err(ValueError)
    else match SourceBounds(elements, numChunks, chunkSize)
      case Err(e) => Err(e)
      case Ok(sb) => ValidateDims(elements, partition, sb)
  }

  /** The two agree whenever at most one of `num_chunks` and `chunk_size` is
      given: the chained comparison only differs when both are. */
  lemma PartitionAgreesUnlessBoth(elements: seq<int>, partition: seq<Option<int>>,
                                  numChunks: Option<seq<int>>, chunkSize: Option<seq<int>>)
    requires numChunks.None? || chunkSize.None?
    ensures PartitionAsWritten(elements, partition, numChunks, chunkSize) == NewPartition(elements, partition, numChunks, chunkSize)
  {
  }

  /** Giving both is accepted as written, silently ignoring `chunk_size`. */
  lemma PartitionBothGiven()
    ensures PartitionAsWritten([4], [Some(0)], Some([2]), Some([3])) == Ok(Partition([4], [Some(0)], [2]))
    ensures NewPartition([4], [Some(0)], Some([2]), Some([3])) == Err(ValueError)
  {
    assert DimsValid([Some(0)], 1, {});
  }

  /** `target_block_shape`: the extent of one block in every dimension. */
  function TargetBlockShape(pt: Partition): (r: seq<int>)
    requires ValidPartition(pt)
    ensures |r| == |pt.targetBounds|
    ensures forall i :: 0 <= i < |r| && pt.partition[i].None? ==> r[i] == pt.targetBounds[i]
  {
    seq(|pt.targetBounds|, i requires 0 <= i < |pt.targetBounds| && ValidPartition(pt) =>
      match pt.partition[i]
      case None => pt.targetBounds[i]
      case Some(p) => FloorDiv(pt.targetBounds[i], pt.sourceBounds[p]))
  }

  /** A partitioned dimension is exactly `source_bounds[p]` blocks long. */
  lemma BlockShapeAt(pt: Partition, i: nat)
    requires ValidPartition(pt) && i < |pt.targetBounds| && pt.partition[i].Some?
    ensures TargetBlockShape(pt)[i] * pt.sourceBounds[pt.partition[i].value] == pt.targetBounds[i]
  {
    ExactFloorDiv(pt.targetBounds[i], pt.sourceBounds[pt.partition[i].value]);
  }

  /** `get_base(*source_coords)`: the first target coordinate of the block at
      `source_coords`, shifted by `base_offset` when one is given. A missing
      coordinate or offset is Python's `IndexError`. */
  function GetBase(pt: Partition, coords: seq<int>, baseOffset: Option<seq<int>>): (r: Result<seq<int>>)
    requires ValidPartition(pt)
    ensures r.Ok? <==> (forall i :: 0 <= i < |pt.partition| && pt.partition[i].Some? ==> pt.partition[i].value < |coords|) &&
                       (baseOffset.Some? ==> |baseOffset.value| >= |pt.partition|)
    ensures r.Ok? ==> |r.value| == |pt.targetBounds|
    ensures r.Ok? ==> forall i :: 0 <= i < |r.value| ==>
      r.value[i] == (if baseOffset.Some? then baseOffset.value[i] else 0) +
                    (if pt.partition[i].Some? then TargetBlockShape(pt)[i] * coords[pt.partition[i].value] else 0)
  {
    var block := TargetBlockShape(pt);
    if exists i :: 0 <= i < |pt.partition| && pt.partition[i].Some? && pt.partition[i].value >= |coords| then Err(IndexError)
    else if baseOffset.Some? && |baseOffset.value| < |pt.partition| then Err(IndexError)
    else Ok(seq(|block|, i requires 0 <= i < |block| =>
      (if baseOffset.Some? then baseOffset.value[i] else 0) +
      (match pt.partition[i] case None => 0 case Some(p) => block[i] * coords[p])))
  }

  /** Blocks stay inside the target: with non-negative bounds, positive chunk
      counts and every source coordinate in range, the block at `coords`
      starts at or after 0 and ends at or before the target bound. */
  lemma BlockInBounds(pt: Partition, coords: seq<int>, i: nat)
    requires ValidPartition(pt) && i < |pt.targetBounds|
    requires forall k :: 0 <= k < |pt.targetBounds| ==> pt.targetBounds[k] >= 0
    requires forall k :: 0 <= k < |pt.sourceBounds| ==> pt.sourceBounds[k] > 0
    requires |coords| == |pt.sourceBounds|
    requires forall k :: 0 <= k < |coords| ==> 0 <= coords[k] < pt.sourceBounds[k]
    ensures GetBase(pt, coords, None).Ok?
    ensures 0 <= GetBase(pt, coords, None).value[i]
    ensures GetBase(pt, coords, None).value[i] + TargetBlockShape(pt)[i] <= pt.targetBounds[i]
  {
    var block := TargetBlockShape(pt);
    var base := GetBase(pt, coords, None).value;
    match pt.partition[i]
    case None =>
      assert base[i] == 0;
    case Some(p) =>
      var b, c, s := block[i], coords[p], pt.sourceBounds[p];
      assert base[i] == b * c;
      BlockShapeAt(pt, i);
      assert b * s == pt.targetBounds[i];
      assert b >= 0;
      assert b * c + b == b * (c + 1);
      assert b * (c + 1) <= b * s by { MulMonotone(b, c + 1, s); }
  }

  lemma MulMonotone(b: int, x: int, y: int)
    requires b >= 0 && x <= y
    ensures b * x <= b * y
  {
    assert b * y - b * x == b * (y - x);
  }

  /** `Partition1D.__init__` as written: the same chained comparison, then a
      one-dimensional `Partition` over source dimension 0. */
  function Partition1DAsWritten(elements: int, numChunks: Option<int>, chunkSize: Option<int>): (r: Result<Partition>)
    ensures numChunks.None? && chunkSize.None? ==> r == Err(ValueError)
    ensures r.Ok? ==> ValidPartition(r.value)
  {
    if numChunks.None? && None == chunkSize && chunkSize.None? then Err(ValueError)
    else if numChunks.Some? then NewPartition([elements], [Some(0)], Some([numChunks.value]), None)
    else NewPartition([elements], [Some(0)], None, Some([chunkSize.value]))
  }

  /** `Partition1D.__init__` with exactly one of the two required. */
  function NewPartition1D(elements: int, numChunks: Option<int>, chunkSize: Option<int>): (r: Result<Partition>)
    ensures r.Ok? <==>
      (numChunks.Some? != chunkSize.Some? &&
       (numChunks.Some? ==> numChunks.value != 0 && elements % numChunks.value == 0) &&
       (chunkSize.Some? ==> chunkSize.value != 0 && elements % chunkSize.value == 0 && elements != 0))
    ensures r.Ok? ==> ValidPartition(r.value) && r.value.targetBounds == [elements] && r.value.partition == [Some(0)]
    ensures r.Ok? && numChunks.Some? ==> r.value.sourceBounds == [numChunks.value]
    ensures r.Ok? && chunkSize.Some? ==> |r.value.sourceBounds| == 1 && r.value.sourceBounds[0] * chunkSize.value == elements
  {
    if numChunks.None? == chunkSize.None? then Err(ValueError)
    else if numChunks.Some? then
      OneDimNumChunks(elements, numChunks.value);
      NewPartition([elements], [Some(0)], Some([numChunks.value]), None)
    else
      OneDimChunkSize(elements, chunkSize.value);
      NewPartition([elements], [Some(0)], None, Some([chunkSize.value]))
  }

  /** The one-dimensional partition into `n` chunks. */
  lemma OneDimNumChunks(e: int, n: int)
    ensures NewPartition([e], [Some(0)], Some([n]), None).Ok? <==> n != 0 && e % n == 0
  {
    assert DimsInRange([Some(0)], 1) && DimsDistinct([Some(0)]);
    assert BlocksDivide([e], [Some(0)], [n]) <==> n != 0 && e % n == 0 by {
      assert [e][0] == e && [n][0] == n;
    }
  }

  /** The one-dimensional partition into chunks of `c` elements. */
  lemma OneDimChunkSize(e: int, c: int)
    ensures NewPartition([e], [Some(0)], None, Some([c])).Ok? <==> c != 0 && e % c == 0 && e != 0
    ensures NewPartition([e], [Some(0)], None, Some([c])).Ok? ==>
      |NewPartition([e], [Some(0)], None, Some([c])).value.sourceBounds| == 1 &&
      NewPartition([e], [Some(0)], None, Some([c])).value.sourceBounds[0] * c == e
  {
    assert DimsInRange([Some(0)], 1) && DimsDistinct([Some(0)]);
    SingleQuotient(e, c);
    if c != 0 && e % c == 0 {
      var q := Quotients([e], [c]);
      assert BlocksDivide([e], [Some(0)], q) <==> q[0] != 0 && e % q[0] == 0;
      if q[0] != 0 {
        DivExact(e, q[0], c);
      }
    }
  }

  lemma SingleQuotient(e: int, c: int)
    ensures Divisible([e], [c]) <==> c != 0 && e % c == 0
    ensures Divisible([e], [c]) ==> |Quotients([e], [c])| == 1 && Quotients([e], [c])[0] * c == e
    ensures Divisible([e], [c]) ==> (Quotients([e], [c])[0] == 0 <==> e == 0)
  {
    assert [e][0] == e && [c][0] == c;
    if c != 0 && e % c == 0 {
      QuotientAt([e], [c], 0);
    }
  }

  /** The two constructors agree unless both arguments are given. */
  lemma Partition1DAgreesUnlessBoth(elements: int, numChunks: Option<int>, chunkSize: Option<int>)
    requires numChunks.None? || chunkSize.None?
    ensures Partition1DAsWritten(elements, numChunks, chunkSize) == NewPartition1D(elements, numChunks, chunkSize)
  {
  }

  /** Giving both is accepted as written and `chunk_size` is ignored. */
  lemma Partition1DBothGiven()
    ensures Partition1DAsWritten(4, Some(2), Some(3)) == Ok(Partition([4], [Some(0)], [2]))
    ensures NewPartition1D(4, Some(2), Some(3)) == Err(ValueError)
  {
    assert DimsValid([Some(0)], 1, {});
  }

  /** The partitions `Partition1D` builds: one target dimension split along
      its only source dimension. */
  predicate IsPartition1D(pt: Partition) {
    ValidPartition(pt) && pt.partition == [Some(0)] && |pt.sourceBounds| == 1
  }

  /** `Partition1D.refine(chunk=..., num_chunks=..., chunk_size=...)` on a
      one-dimensional partition whose base offset is `baseOffset`: a new
      one-dimensional partition of a single block, together with its base
      offset, which is the base of block `chunk` when `chunk` is given and
      absent otherwise. */
  function Refine(pt: Partition, baseOffset: Option<int>, chunk: Option<int>,
                  numChunks: Option<int>, chunkSize: Option<int>): (r: Result<(Partition, Option<int>)>)
    requires IsPartition1D(pt)
    ensures r.Ok? <==> NewPartition1D(TargetBlockShape(pt)[0], numChunks, chunkSize).Ok?
    ensures r.Ok? ==> IsPartition1D(r.value.0) && r.value.0.targetBounds == [TargetBlockShape(pt)[0]]
    ensures r.Ok? && chunk.None? ==> r.value.1 == None
    ensures r.Ok? && chunk.Some? ==>
      r.value.1 == Some((if baseOffset.Some? then baseOffset.value else 0) + TargetBlockShape(pt)[0] * chunk.value)
  {
    var offset := if baseOffset.Some? then Some([baseOffset.value]) else None;
    var base := if chunk.Some? then Some(GetBase(pt, [chunk.value], offset).value[0]) else None;
    match NewPartition1D(TargetBlockShape(pt)[0], numChunks, chunkSize)
    case Err(e) => Err(e)
    case Ok(p) => Ok((p, base))
  }

  /** Refining a `chunk_size = c` partition by `chunk_size = d` cuts each
      chunk of `c` elements into `c / d` chunks of `d`. */
  lemma RefineChunkSize(n: int, c: int, d: int)
    requires NewPartition1D(n, None, Some(c)).Ok?
    requires Refine(NewPartition1D(n, None, Some(c)).value, None, None, None, Some(d)).Ok?
    ensures Refine(NewPartition1D(n, None, Some(c)).value, None, None, None, Some(d)).value.0.sourceBounds[0] * d == c
  {
    var pt := NewPartition1D(n, None, Some(c)).value;
    var s := pt.sourceBounds[0];
    var b := TargetBlockShape(pt)[0];
    SingleQuotient(n, c);
    BlockShapeAt(pt, 0);
    assert s * c == n && b * s == n && s != 0;
    DivExact(n, s, b);
    DivExact(n, s, c);
  }
}
