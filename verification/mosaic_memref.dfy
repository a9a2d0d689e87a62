/** Shape and stride bookkeeping of the Mosaic GPU memref helpers:
    `_is_contiguous_shape_slice`, `memref_fold`, `memref_unfold`, `_reshape`
    and `memref_reshape`. A memref is its static shape and its layout; the
    `collapse_shape` / `expand_shape` operations are represented by the
    result type and the reassociation list the helpers pass to them. */
module MosaicMemref {
  import opened Results
  import opened Lists
  import opened MosaicShapes

  /** A memref layout: the identity affine map of the memref's rank, or a
      strided layout with an offset and one stride per dimension. */
  datatype Layout = Identity | Strided(offset: int, strides: seq<int>)

  datatype MemRef = MemRef(shape: seq<int>, layout: Layout)

  predicate WellFormed(m: MemRef) {
    m.layout.Strided? ==> |m.layout.strides| == |m.shape|
  }

  /** The layout `strided<[1]>`. */
  const Contig1D: Layout := Strided(0, [1])

  /** The layouts the helpers replace by an identity map. */
  predicate IdentityLike(m: MemRef) {
    m.layout.Identity? || m.layout == Contig1D
  }

  /** `get_strides_and_offset()`: an identity layout is row-major with offset
      0. */
  function StridesOf(m: MemRef): (r: seq<int>)
    requires WellFormed(m)
    ensures |r| == |m.shape|
  {
    if m.layout.Identity? then RowMajorStrides(m.shape) else m.layout.strides
  }

  function OffsetOf(m: MemRef): int {
    if m.layout.Identity? then 0 else m.layout.offset
  }

  // ---------------------------------------------------------------------
  // `_is_contiguous_shape_slice`

  /** A dimension as the contiguity check sees it: its stride and size. */
  datatype Dim = Dim(stride: int, size: int)

  /** Strides never increase from one element to the next. */
  predicate Descending(s: seq<Dim>) {
    forall i :: 0 <= i < |s| - 1 ==> s[i].stride >= s[i + 1].stride
  }

  /** Inserts `x` before the first entry with a smaller stride, so after
      every entry with an equal one. */
  function InsertDesc(x: Dim, l: seq<Dim>): (r: seq<Dim>)
    ensures |r| == |l| + 1
    ensures multiset(r) == multiset(l) + multiset{x}
    ensures r[0] == x || (|l| > 0 && r[0] == l[0])
    ensures Descending(l) ==> Descending(r)
  {
    if |l| == 0 || l[0].stride < x.stride then [x] + l
    else
      var rest := InsertDesc(x, l[1..]);
      assert l == [l[0]] + l[1..];
      assert Descending(l) ==> Descending(l[1..]);
      [l[0]] + rest
  }

  /** `sorted(dims, key=stride, reverse=True)`: Python's sort is stable even
      in reverse, so dimensions with equal strides keep their order. An
      insertion sort that places each element after the equal ones already
      placed yields exactly that order. */
  function SortDesc(s: seq<Dim>): (r: seq<Dim>)
    ensures |r| == |s|
    ensures multiset(r) == multiset(s)
    ensures Descending(r)
  {
    if |s| == 0 then []
    else
      assert s == s[..|s| - 1] + [s[|s| - 1]];
      InsertDesc(s[|s| - 1], SortDesc(s[..|s| - 1]))
  }

  /** An entry no larger than everything in a descending list goes last. */
  lemma {:induction false} InsertLast(x: Dim, l: seq<Dim>)
    requires forall i :: 0 <= i < |l| ==> l[i].stride >= x.stride
    ensures InsertDesc(x, l) == l + [x]
  {
    if |l| > 0 {
      InsertLast(x, l[1..]);
      assert [l[0]] + (l[1..] + [x]) == l + [x];
    }
  }

  /** Sorting a list that is already descending changes nothing. */
  lemma {:induction false} SortDescSorted(s: seq<Dim>)
    requires Descending(s)
    ensures SortDesc(s) == s
  {
    if |s| > 0 {
      var init, last := s[..|s| - 1], s[|s| - 1];
      InitLast(s);
      DescendingSplit(init, last);
      SortDescSorted(init);
      InsertLast(last, init);
    }
  }

  /** A non-empty list is its front followed by its last entry. */
  lemma InitLast(s: seq<Dim>)
    requires |s| > 0
    ensures s[..|s| - 1] + [s[|s| - 1]] == s
  {
  }

  /** The front of a descending list is descending, and its last entry has
      the smallest stride. */
  lemma DescendingSplit(init: seq<Dim>, last: Dim)
    requires Descending(init + [last])
    ensures Descending(init)
    ensures forall i :: 0 <= i < |init| ==> init[i].stride >= last.stride
  {
    var s := init + [last];
    forall i | 0 <= i < |init| ensures init[i].stride >= last.stride {
      DescendingFar(s, i, |init|);
      assert s[i] == init[i];
    }
    forall i | 0 <= i < |init| - 1 ensures init[i].stride >= init[i + 1].stride {
      assert s[i] == init[i] && s[i + 1] == init[i + 1];
    }
  }

  lemma {:induction false} DescendingFar(s: seq<Dim>, i: nat, j: nat)
    requires Descending(s) && i <= j < |s|
    ensures s[i].stride >= s[j].stride
    decreases j - i
  {
    if i < j {
      DescendingFar(s, i + 1, j);
    }
  }

  /** Each dimension fits exactly into the next larger stride. */
  predicate Fits(ss: seq<Dim>) {
    forall k :: 0 <= k < |ss| - 1 ==> ss[k + 1].stride * ss[k + 1].size == ss[k].stride
  }

  /** The dimensions `lo .. hi` of `m`. */
  function DimsOf(m: MemRef, lo: nat, hi: nat): (r: seq<Dim>)
    requires WellFormed(m) && lo <= hi <= |m.shape|
    ensures |r| == hi - lo
  {
    var strides := StridesOf(m);
    seq(hi - lo, i requires 0 <= i < hi - lo => Dim(strides[lo + i], m.shape[lo + i]))
  }

  /** `_is_contiguous_shape_slice(ref_ty, slice(lo, hi))`: any layout that is
      not strided counts as contiguous; a strided one must have its
      dimensions, largest stride first, each fit the next. */
  function IsContiguousSlice(m: MemRef, lo: nat, hi: nat): (r: bool)
    requires WellFormed(m) && lo <= hi <= |m.shape|
    ensures m.layout.Identity? ==> r
    ensures m.layout.Strided? ==> (r <==> Fits(SortDesc(DimsOf(m, lo, hi))))
  {
    if !m.layout.Strided? then true
    else Fits(SortDesc(DimsOf(m, lo, hi)))
  }

  /** Row-major strides of a shape with positive dimensions never
      increase. */
  lemma RowMajorDescending(shape: seq<int>, i: nat)
    requires AllPositive(shape) && i + 1 < |shape|
    ensures RowMajorStrides(shape)[i] >= RowMajorStrides(shape)[i + 1]
  {
    ProductFrom(shape, i + 1);
    assert AllPositive(shape[i + 2..]);
    ProductPositive(shape[i + 2..]);
    var p := Product(shape[i + 2..]);
    MulAtLeast(p, shape[i + 1]);
  }

  /** A memref laid out row-major (explicitly, or by an identity map) is
      contiguous on every slice of its dimensions. */
  lemma RowMajorContiguous(m: MemRef, lo: nat, hi: nat)
    requires WellFormed(m) && lo <= hi <= |m.shape| && AllPositive(m.shape)
    requires StridesOf(m) == RowMajorStrides(m.shape)
    ensures m.layout.Strided? ==> IsContiguousSlice(m, lo, hi)
  {
    var ds := DimsOf(m, lo, hi);
    forall i | 0 <= i < |ds| - 1 ensures ds[i].stride >= ds[i + 1].stride {
      RowMajorPairAt(m, lo, hi, i);
    }
    SortDescSorted(ds);
    forall k | 0 <= k < |ds| - 1 ensures ds[k + 1].stride * ds[k + 1].size == ds[k].stride {
      RowMajorPairAt(m, lo, hi, k);
    }
  }

  /** Two neighbouring dimensions of a row-major slice: the stride does not
      grow and the inner one fits the outer exactly. */
  lemma RowMajorPairAt(m: MemRef, lo: nat, hi: nat, i: nat)
    requires WellFormed(m) && lo <= hi <= |m.shape| && i + 1 < hi - lo && AllPositive(m.shape)
    requires StridesOf(m) == RowMajorStrides(m.shape)
    ensures DimsOf(m, lo, hi)[i].stride >= DimsOf(m, lo, hi)[i + 1].stride
    ensures DimsOf(m, lo, hi)[i + 1].stride * DimsOf(m, lo, hi)[i + 1].size == DimsOf(m, lo, hi)[i].stride
  {
    var a, b := DimsOf(m, lo, hi)[i], DimsOf(m, lo, hi)[i + 1];
    var rs := RowMajorStrides(m.shape);
    assert a == Dim(rs[lo + i], m.shape[lo + i]);
    assert b == Dim(rs[lo + i + 1], m.shape[lo + i + 1]);
    RowMajorDescending(m.shape, lo + i);
    ProductFrom(m.shape, lo + i + 1);
  }

  // ---------------------------------------------------------------------
  // `memref_fold`

  /** `new_shape[dim:dim + k] = [prod(new_shape[dim:dim + k])]`. */
  function FoldShape(shape: seq<int>, dim: nat, k: nat): (r: seq<int>)
    requires dim + k <= |shape| && k >= 1
    ensures |r| == |shape| - k + 1
  {
    shape[..dim] + [Product(shape[dim..dim + k])] + shape[dim + k..]
  }

  /** The folded dimension holds the product of the dimensions it replaces;
      every other dimension is kept, shifted past the fold. */
  lemma FoldShapeAt(shape: seq<int>, dim: nat, k: nat, i: nat)
    requires dim + k <= |shape| && k >= 1 && i < |shape| - k + 1
    ensures i < dim ==> FoldShape(shape, dim, k)[i] == shape[i]
    ensures i == dim ==> FoldShape(shape, dim, k)[i] == Product(shape[dim..dim + k])
    ensures i > dim ==> FoldShape(shape, dim, k)[i] == shape[i + k - 1]
  {
  }

  /** Folding keeps the element count. */
  lemma FoldShapeProduct(shape: seq<int>, dim: nat, k: nat)
    requires dim + k <= |shape| && k >= 1
    ensures Product(FoldShape(shape, dim, k)) == Product(shape)
  {
    var a, b, c := shape[..dim], shape[dim..dim + k], shape[dim + k..];
    assert a + b + c == shape by {
      assert shape == shape[..dim] + shape[dim..];
      assert shape[dim..] == shape[dim..dim + k] + shape[dim + k..];
    }
    ProductSingle(Product(b));
    ProductReplaceMiddle(a, [Product(b)], b, c);
  }

  /** Replacing a middle part by one with the same product keeps the
      product of the whole. */
  lemma ProductReplaceMiddle(a: seq<int>, x: seq<int>, y: seq<int>, c: seq<int>)
    requires Product(x) == Product(y)
    ensures Product(a + x + c) == Product(a + y + c)
  {
    ProductAppend(a, x);
    ProductAppend(a, y);
    ProductAppend(a + x, c);
    ProductAppend(a + y, c);
  }

  lemma ProductSingle(x: int)
    ensures Product([x]) == x
  {
    assert [x][1..] == [];
  }

  /** Singleton groups `[[lo], [lo + 1], ..., [lo + n - 1]]`. */
  function Singletons(lo: int, n: nat): (r: seq<seq<int>>)
    ensures |r| == n
  {
    seq(n, i requires 0 <= i < n => [lo + i])
  }

  /** `list(range(lo, lo + n))`. */
  function Span(lo: int, n: nat): (r: seq<int>)
    ensures |r| == n
    ensures forall i :: 0 <= i < n ==> r[i] == lo + i
  {
    seq(n, i requires 0 <= i < n => lo + i)
  }

  lemma {:induction false} FlattenSingletons(lo: int, n: nat)
    ensures Flatten(Singletons(lo, n)) == Span(lo, n)
    decreases n
  {
    if n > 0 {
      assert Singletons(lo, n)[1..] == Singletons(lo + 1, n - 1);
      FlattenSingletons(lo + 1, n - 1);
      assert [lo] + Span(lo + 1, n - 1) == Span(lo, n);
    }
  }

  /** Three consecutive spans make one. */
  lemma SpanJoin(lo: int, a: nat, b: nat, c: nat)
    ensures Span(lo, a) + Span(lo + a, b) + Span(lo + a + b, c) == Span(lo, a + b + c)
  {
  }

  /** The reassociation list of `memref_fold`: one singleton group per
      dimension before `dim`, one group for the folded dimensions, one
      singleton group per dimension after them. */
  function FoldAssoc(rank: nat, dim: nat, k: nat): (r: seq<seq<int>>)
    requires dim + k <= rank
    ensures |r| == rank - k + 1
  {
    Singletons(0, dim) + [Span(dim, k)] + Singletons(dim + k, rank - dim - k)
  }

  /** Every original dimension appears in exactly one group, in order. */
  lemma FoldAssocCovers(rank: nat, dim: nat, k: nat)
    requires dim + k <= rank
    ensures Flatten(FoldAssoc(rank, dim, k)) == Range(rank)
  {
    var a, b, c := Singletons(0, dim), [Span(dim, k)], Singletons(dim + k, rank - dim - k);
    FlattenAppend(a + b, c);
    FlattenAppend(a, b);
    FlattenSingletons(0, dim);
    FlattenSingletons(dim + k, rank - dim - k);
    assert Flatten(b) == Span(dim, k) + Flatten(b[1..]);
    assert b[1..] == [];
    assert Span(dim, k) + [] == Span(dim, k);
    SpanJoin(0, dim, k, rank - dim - k);
    assert Span(0, rank) == Range(rank);
  }

  /** `new_strides[dim:dim + k] = [new_strides[dim + k - 1]]`. */
  function FoldStrides(strides: seq<int>, dim: nat, k: nat): (r: seq<int>)
    requires dim + k <= |strides| && k >= 1
    ensures |r| == |strides| - k + 1
  {
    strides[..dim] + [strides[dim + k - 1]] + strides[dim + k..]
  }

  /** `memref_fold(ref, dim, fold_rank)`: the folded memref and the
      reassociation list handed to `collapse_shape`. */
  function MemrefFold(m: MemRef, dim: int, k: int): (r: Result<(MemRef, seq<seq<int>>)>)
    requires WellFormed(m) && k >= 1
    ensures r.Ok? <==> 0 <= dim && dim + k <= |m.shape| &&
                       (IdentityLike(m) || IsContiguousSlice(m, dim, dim + k))
    ensures dim < 0 || dim + k > |m.shape| ==> r == Err(ValueError)
    ensures r.Err? && 0 <= dim && dim + k <= |m.shape| ==> r.error == NotImplementedError
    ensures r.Ok? ==> WellFormed(r.value.0) && |r.value.0.shape| == |m.shape| - k + 1
    ensures r.Ok? ==> r.value.0.shape == FoldShape(m.shape, dim, k)
    ensures r.Ok? ==> |r.value.1| == |r.value.0.shape| && Flatten(r.value.1) == Range(|m.shape|)
  {
    if dim < 0 then Err(ValueError)
    else if dim + k > |m.shape| then Err(ValueError)
    else
      var shape := FoldShape(m.shape, dim, k);
      var assoc := FoldAssoc(|m.shape|, dim, k);
      FoldAssocCovers(|m.shape|, dim, k);
      if IdentityLike(m) then Ok((MemRef(shape, Identity), assoc))
      else if IsContiguousSlice(m, dim, dim + k) then
        Ok((MemRef(shape, Strided(OffsetOf(m), FoldStrides(StridesOf(m), dim, k))), assoc))
      else Err(NotImplementedError)
  }

  /** Folding a row-major strided memref gives the row-major strides of the
      folded shape: the folded dimension takes the stride of its innermost
      part. */
  lemma FoldKeepsRowMajor(m: MemRef, dim: nat, k: nat)
    requires WellFormed(m) && k >= 1 && dim + k <= |m.shape| && AllPositive(m.shape)
    requires m.layout.Strided? && m.layout.strides == RowMajorStrides(m.shape)
    ensures MemrefFold(m, dim, k).Ok?
    ensures MemrefFold(m, dim, k).value.0.layout.Strided? ==>
      MemrefFold(m, dim, k).value.0.layout.strides == RowMajorStrides(MemrefFold(m, dim, k).value.0.shape)
  {
    RowMajorContiguous(m, dim, dim + k);
    var shape := FoldShape(m.shape, dim, k);
    var fs := FoldStrides(RowMajorStrides(m.shape), dim, k);
    forall i | 0 <= i < |shape| ensures fs[i] == RowMajorStrides(shape)[i] {
      FoldRowMajorAt(m.shape, dim, k, i);
    }
  }

  lemma FoldRowMajorAt(shape: seq<int>, dim: nat, k: nat, i: nat)
    requires dim + k <= |shape| && k >= 1 && i < |shape| - k + 1
    ensures FoldStrides(RowMajorStrides(shape), dim, k)[i] == RowMajorStrides(FoldShape(shape, dim, k))[i]
  {
    FoldSuffix(shape, dim, k, i);
  }

  /** The dimensions after position `i` of a folded shape have the same
      product as those after the matching position of the original. */
  lemma FoldSuffix(shape: seq<int>, dim: nat, k: nat, i: nat)
    requires dim + k <= |shape| && k >= 1 && i < |shape| - k + 1
    ensures Product(FoldShape(shape, dim, k)[i + 1..]) ==
      Product(shape[if i < dim then i + 1 else i + k..])
  {
    var f := FoldShape(shape, dim, k);
    if i < dim {
      var t := shape[i + 1..];
      assert t[..dim - i - 1] == shape[i + 1..dim];
      assert t[dim - i - 1..dim - i - 1 + k] == shape[dim..dim + k];
      assert t[dim - i - 1 + k..] == shape[dim + k..];
      assert f[i + 1..] == shape[i + 1..dim] + [Product(shape[dim..dim + k])] + shape[dim + k..];
      assert f[i + 1..] == FoldShape(t, dim - i - 1, k);
      FoldShapeProduct(shape[i + 1..], dim - i - 1, k);
    } else {
      assert f[i + 1..] == shape[i + k..];
    }
  }

  // ---------------------------------------------------------------------
  // `memref_unfold`

  /** `sum(f is None for f in factors)`. */
  function NumNone(fs: seq<Option<int>>): (n: nat)
    ensures n <= |fs|
  {
    if |fs| == 0 then 0 else (if fs[0].None? then 1 else 0) + NumNone(fs[1..])
  }

  /** `np.prod([f for f in factors if f is not None])`; positive when the
      given factors are. */
  function KnownProduct(fs: seq<Option<int>>): (p: int)
    ensures KnownPositive(fs) ==> p > 0
  {
    if |fs| == 0 then 1
    else
      assert KnownPositive(fs) ==> KnownPositive(fs[1..]) by {
        if KnownPositive(fs) {
          forall i | 0 <= i < |fs| - 1 && fs[1..][i].Some? ensures fs[1..][i].value > 0 {
            assert fs[1..][i] == fs[i + 1];
          }
        }
      }
      (if fs[0].Some? then fs[0].value else 1) * KnownProduct(fs[1..])
  }

  /** Every given factor is a positive dimension size. */
  predicate KnownPositive(fs: seq<Option<int>>) {
    forall i :: 0 <= i < |fs| && fs[i].Some? ==> fs[i].value > 0
  }

  /** The factors with the missing one, if any, set to `q`. */
  function Fill(fs: seq<Option<int>>, q: int): (r: seq<int>)
    ensures |r| == |fs|
    ensures forall i :: 0 <= i < |fs| ==> r[i] == if fs[i].Some? then fs[i].value else q
  {
    seq(|fs|, i requires 0 <= i < |fs| => if fs[i].Some? then fs[i].value else q)
  }

  /** Filling in `q` multiplies the known product by `q` once per missing
      factor. */
  lemma {:induction false} FillProduct(fs: seq<Option<int>>, q: int)
    requires NumNone(fs) <= 1
    ensures Product(Fill(fs, q)) == if NumNone(fs) == 1 then KnownProduct(fs) * q else KnownProduct(fs)
  {
    if |fs| > 0 {
      var f, t := Fill(fs, q), Fill(fs[1..], q);
      assert f[1..] == t;
      FillProduct(fs[1..], q);
      var p, k := Product(t), KnownProduct(fs[1..]);
      assert Product(f) == f[0] * p;
      if fs[0].None? {
        assert p == k;
        assert KnownProduct(fs) == 1 * k;
        MulComm(q, k);
      } else {
        var v := fs[0].value;
        assert KnownProduct(fs) == v * k;
        if NumNone(fs) == 1 {
          assert p == k * q;
          MulAssoc(v, k, q);
        }
      }
    }
  }

  lemma MulComm(x: int, y: int)
    ensures x * y == y * x
  {
  }

  lemma MulAssoc(x: int, y: int, z: int)
    ensures x * (y * z) == (x * y) * z
  {
  }

  /** The strides `memref_unfold` inserts for `factors` at a dimension of
      stride `s`: walking the factors from the last, each gets the running
      stride before its size is multiplied in. */
  function UnfoldStrides(s: int, fs: seq<int>): (r: seq<int>)
    ensures |r| == |fs|
    decreases |fs|
  {
    if |fs| == 0 then []
    else UnfoldStrides(s * fs[|fs| - 1], fs[..|fs| - 1]) + [s]
  }

  /** The inserted strides are successive products of the later factors,
      ending at the original stride. */
  lemma {:induction false} UnfoldStridesAt(s: int, fs: seq<int>, k: nat)
    requires k < |fs|
    ensures UnfoldStrides(s, fs)[k] == s * Product(fs[k + 1..])
    decreases |fs|
  {
    var n := |fs|;
    if k == n - 1 {
      assert fs[k + 1..] == [];
    } else {
      var init, last := fs[..n - 1], fs[n - 1];
      UnfoldStridesAt(s * last, init, k);
      assert fs[k + 1..] == init[k + 1..] + [last];
      ProductAppend(init[k + 1..], [last]);
      ProductSingle(last);
      var p := Product(init[k + 1..]);
      assert (s * last) * p == s * (p * last);
    }
  }

  /** `new_shape[dim:dim + 1] = factors`. */
  function UnfoldShape(shape: seq<int>, dim: nat, factors: seq<int>): (r: seq<int>)
    requires dim < |shape|
    ensures |r| == |shape| + |factors| - 1
  {
    shape[..dim] + factors + shape[dim + 1..]
  }

  /** The reassociation list of `memref_unfold`: one group per original
      dimension, the unfolded one owning `len(factors)` new dimensions. */
  function UnfoldAssoc(rank: nat, dim: nat, n: nat): (r: seq<seq<int>>)
    requires dim < rank
    ensures |r| == rank
  {
    Singletons(0, dim) + [Span(dim, n)] + Singletons(dim + n, rank - dim - 1)
  }

  /** Every new dimension belongs to exactly one group, in order. */
  lemma UnfoldAssocCovers(rank: nat, dim: nat, n: nat)
    requires dim < rank
    ensures Flatten(UnfoldAssoc(rank, dim, n)) == Range(rank + n - 1)
  {
    var a, b, c := Singletons(0, dim), [Span(dim, n)], Singletons(dim + n, rank - dim - 1);
    FlattenAppend(a + b, c);
    FlattenAppend(a, b);
    FlattenSingletons(0, dim);
    FlattenSingletons(dim + n, rank - dim - 1);
    assert Flatten(b) == Span(dim, n) + Flatten(b[1..]);
    assert b[1..] == [];
    assert Span(dim, n) + [] == Span(dim, n);
    SpanJoin(0, dim, n, rank - dim - 1);
    assert Span(0, rank + n - 1) == Range(rank + n - 1);
  }

  /** The memref `memref_unfold` builds once the factors are known. */
  function UnfoldWith(m: MemRef, dim: nat, factors: seq<int>): (r: (MemRef, seq<seq<int>>))
    requires WellFormed(m) && dim < |m.shape|
    ensures WellFormed(r.0) && r.0.shape == UnfoldShape(m.shape, dim, factors)
    ensures |r.1| == |m.shape| && Flatten(r.1) == Range(|r.0.shape|)
  {
    var shape := UnfoldShape(m.shape, dim, factors);
    var assoc := UnfoldAssoc(|m.shape|, dim, |factors|);
    UnfoldAssocCovers(|m.shape|, dim, |factors|);
    if IdentityLike(m) then (MemRef(shape, Identity), assoc)
    else
      var st := m.layout.strides;
      (MemRef(shape, Strided(m.layout.offset, st[..dim] + UnfoldStrides(st[dim], factors) + st[dim + 1..])), assoc)
  }

  /** `memref_unfold(ref, dim, factors)` as written: with every factor
      given, their product only has to divide the dimension. */
  function MemrefUnfoldAsWritten(m: MemRef, dim: nat, fs: seq<Option<int>>): (r: Result<(MemRef, seq<seq<int>>)>)
    requires WellFormed(m) && KnownPositive(fs)
    ensures r.Ok? <==> NumNone(fs) <= 1 && dim < |m.shape| && m.shape[dim] % KnownProduct(fs) == 0
    ensures r.Ok? ==> |r.value.0.shape| == |m.shape| + |fs| - 1
    ensures r.Ok? && NumNone(fs) == 1 ==> Product(r.value.0.shape[dim..dim + |fs|]) == m.shape[dim]
  {
    if NumNone(fs) > 1 then Err(ValueError)
    else if dim >= |m.shape| then Err(IndexError)
    else
      var kp := KnownProduct(fs);
      if m.shape[dim] % kp != 0 then Err(ValueError)
      else
        var factors := Fill(fs, FloorDiv(m.shape[dim], kp));
        UnfoldFactors(m.shape, dim, fs);
        Ok(UnfoldWith(m, dim, factors))
  }

  /** Filling the missing factor with `dim // known` recovers the dimension
      exactly. */
  lemma UnfoldFactors(shape: seq<int>, dim: nat, fs: seq<Option<int>>)
    requires dim < |shape| && KnownPositive(fs) && NumNone(fs) <= 1
    requires shape[dim] % KnownProduct(fs) == 0
    ensures NumNone(fs) == 1 ==>
      Product(Fill(fs, FloorDiv(shape[dim], KnownProduct(fs)))) == shape[dim]
    ensures UnfoldShape(shape, dim, Fill(fs, FloorDiv(shape[dim], KnownProduct(fs))))[dim..dim + |fs|] ==
      Fill(fs, FloorDiv(shape[dim], KnownProduct(fs)))
  {
    var kp := KnownProduct(fs);
    var q := FloorDiv(shape[dim], kp);
    FillProduct(fs, q);
    ExactFloorDiv(shape[dim], kp);
    assert kp * q == q * kp;
  }

  /** `memref_unfold` as intended: when no factor is left to infer, the
      given factors must multiply to the dimension exactly. */
  function MemrefUnfold(m: MemRef, dim: nat, fs: seq<Option<int>>): (r: Result<(MemRef, seq<seq<int>>)>)
    requires WellFormed(m) && KnownPositive(fs)
    ensures r.Ok? <==> NumNone(fs) <= 1 && dim < |m.shape| && m.shape[dim] % KnownProduct(fs) == 0 &&
                       (NumNone(fs) == 0 ==> KnownProduct(fs) == m.shape[dim])
    ensures r.Err? ==> r.error == ValueError || r.error == IndexError
    ensures r.Ok? ==> WellFormed(r.value.0) && |r.value.0.shape| == |m.shape| + |fs| - 1
    ensures r.Ok? ==> r.value.0.shape[..dim] == m.shape[..dim] && r.value.0.shape[dim + |fs|..] == m.shape[dim + 1..]
    ensures r.Ok? ==> Product(r.value.0.shape[dim..dim + |fs|]) == m.shape[dim]
    ensures r.Ok? ==> forall i :: 0 <= i < |fs| && fs[i].Some? ==> r.value.0.shape[dim + i] == fs[i].value
    ensures r.Ok? ==> |r.value.1| == |m.shape| && Flatten(r.value.1) == Range(|r.value.0.shape|)
  {
    if NumNone(fs) > 1 then Err(ValueError)
    else if dim >= |m.shape| then Err(IndexError)
    else
      var kp := KnownProduct(fs);
      if m.shape[dim] % kp != 0 then Err(ValueError)
      else if NumNone(fs) == 0 && kp != m.shape[dim] then Err(ValueError)
      else
        var factors := Fill(fs, FloorDiv(m.shape[dim], kp));
        UnfoldFactors(m.shape, dim, fs);
        FillProduct(fs, FloorDiv(m.shape[dim], kp));
        Ok(UnfoldWith(m, dim, factors))
  }

  /** Unfolding keeps the element count. */
  lemma UnfoldProduct(m: MemRef, dim: nat, fs: seq<Option<int>>)
    requires WellFormed(m) && KnownPositive(fs) && MemrefUnfold(m, dim, fs).Ok?
    ensures Product(MemrefUnfold(m, dim, fs).value.0.shape) == Product(m.shape)
  {
    var s := MemrefUnfold(m, dim, fs).value.0.shape;
    var n := |fs|;
    var a, b, c := m.shape[..dim], s[dim..dim + n], m.shape[dim + 1..];
    assert s == a + b + c;
    ProductAppend(a + b, c);
    ProductAppend(a, b);
    ProductAppend(a + [m.shape[dim]], c);
    ProductAppend(a, [m.shape[dim]]);
    ProductSingle(m.shape[dim]);
    assert a + [m.shape[dim]] + c == m.shape;
  }

  /** Folding the unfolded dimensions back gives the original shape. */
  lemma FoldUndoesUnfold(m: MemRef, dim: nat, fs: seq<Option<int>>)
    requires WellFormed(m) && KnownPositive(fs) && |fs| >= 1 && MemrefUnfold(m, dim, fs).Ok?
    ensures FoldShape(MemrefUnfold(m, dim, fs).value.0.shape, dim, |fs|) == m.shape
  {
    var s := MemrefUnfold(m, dim, fs).value.0.shape;
    assert s[..dim] == m.shape[..dim];
    assert m.shape == m.shape[..dim] + [m.shape[dim]] + m.shape[dim + 1..];
  }

  /** The strides `memref_unfold` inserts for a strided layout: each new
      dimension's stride is the original stride times the sizes of the new
      dimensions after it, so the last one keeps the original stride. */
  lemma UnfoldStridesInserted(m: MemRef, dim: nat, fs: seq<Option<int>>, k: nat)
    requires WellFormed(m) && KnownPositive(fs) && MemrefUnfold(m, dim, fs).Ok?
    requires !IdentityLike(m) && k < |fs|
    ensures MemrefUnfold(m, dim, fs).value.0.layout.Strided?
    ensures MemrefUnfold(m, dim, fs).value.0.layout.strides[dim + k] ==
      m.layout.strides[dim] * Product(MemrefUnfold(m, dim, fs).value.0.shape[dim + k + 1..dim + |fs|])
  {
    var r := MemrefUnfold(m, dim, fs).value.0;
    var kp := KnownProduct(fs);
    var factors := Fill(fs, FloorDiv(m.shape[dim], kp));
    assert r == UnfoldWith(m, dim, factors).0;
    var st := m.layout.strides;
    var ins := UnfoldStrides(st[dim], factors);
    assert r.layout.strides == st[..dim] + ins + st[dim + 1..];
    assert r.layout.strides[dim + k] == ins[k];
    UnfoldStridesAt(st[dim], factors, k);
    assert r.shape[dim + k + 1..dim + |fs|] == factors[k + 1..];
  }

  /** The two readings differ only when every factor is given: with one
      factor left to infer they agree. */
  lemma UnfoldAgreesWhenInferred(m: MemRef, dim: nat, fs: seq<Option<int>>)
    requires WellFormed(m) && KnownPositive(fs) && NumNone(fs) == 1
    ensures MemrefUnfoldAsWritten(m, dim, fs) == MemrefUnfold(m, dim, fs)
  {
  }

  /** As written, unfolding a dimension of 8 into the factors 2 and 2 is
      accepted and the new memref has only 4 elements. */
  lemma UnfoldKnownFactorsMismatch()
    ensures MemrefUnfoldAsWritten(MemRef([8], Identity), 0, [Some(2), Some(2)]).Ok?
    ensures MemrefUnfoldAsWritten(MemRef([8], Identity), 0, [Some(2), Some(2)]).value.0.shape == [2, 2]
    ensures MemrefUnfold(MemRef([8], Identity), 0, [Some(2), Some(2)]) == Err(ValueError)
  {
    var fs: seq<Option<int>> := [Some(2), Some(2)];
    assert fs[1..][1..] == [];
    assert KnownProduct(fs) == 4;
    assert NumNone(fs) == 0;
    assert Fill(fs, 2) == [2, 2];
  }

  // ---------------------------------------------------------------------
  // `_reshape` and `memref_reshape`

  /** The loop of `fold_until` from position `to`, with `dim` the product of
      the dimensions already folded. */
  function FoldUntilFrom(shape: seq<int>, to: nat, dim: int, target: int): (r: Result<(nat, int)>)
    requires to <= |shape|
    ensures r.Ok? ==> to < r.value.0 <= |shape| && r.value.1 == target
    ensures r.Err? ==> r.error == AssertionFailure || r.error == NotImplementedError
    decreases |shape| - to
  {
    if to == |shape| then Err(AssertionFailure)
    else
      var d := dim * shape[to];
      if d == target then Ok((to + 1, d))
      else if d > target then Err(NotImplementedError)
      else FoldUntilFrom(shape, to + 1, d, target)
  }

  /** When the loop stops successfully, the dimensions it folded multiply
      (with what was folded before) to the target. */
  lemma {:induction false} FoldUntilFromProduct(shape: seq<int>, to: nat, dim: int, target: int)
    requires to <= |shape| && FoldUntilFrom(shape, to, dim, target).Ok?
    ensures dim * Product(shape[to..FoldUntilFrom(shape, to, dim, target).value.0]) == target
    decreases |shape| - to
  {
    var d := dim * shape[to];
    var j := FoldUntilFrom(shape, to, dim, target).value.0;
    assert shape[to..j][1..] == shape[to + 1..j];
    if d == target {
      assert shape[to + 1..j] == [];
    } else {
      FoldUntilFromProduct(shape, to + 1, d, target);
      var p := Product(shape[to + 1..j]);
      MulAssoc(dim, shape[to], p);
    }
  }

  /** With positive dimensions, the loop succeeds exactly when some run of
      dimensions starting at `to` multiplies (with `dim`) to the target. */
  lemma {:induction false} FoldUntilFromHits(shape: seq<int>, to: nat, dim: int, target: int, j: nat)
    requires to < j <= |shape| && AllPositive(shape) && dim > 0
    requires dim * Product(shape[to..j]) == target
    ensures FoldUntilFrom(shape, to, dim, target).Ok?
    decreases |shape| - to
  {
    var d := dim * shape[to];
    assert shape[to..j][1..] == shape[to + 1..j];
    var p := Product(shape[to + 1..j]);
    MulAssoc(dim, shape[to], p);
    assert d * p == target;
    assert AllPositive(shape[to + 1..j]);
    ProductPositive(shape[to + 1..j]);
    assert d > 0 by {
      assert dim * shape[to] > 0;
    }
    if d < target {
      FoldUntilFromHits(shape, to + 1, d, target, j);
    } else {
      MulAtLeast(d, p);
    }
  }

  /** The loop never runs off the end when the remaining dimensions multiply
      to at least the target. */
  lemma {:induction false} FoldUntilFromReaches(shape: seq<int>, to: nat, dim: int, target: int)
    requires to <= |shape| && AllPositive(shape) && 0 < dim < target
    requires dim * Product(shape[to..]) >= target
    ensures FoldUntilFrom(shape, to, dim, target) != Err(AssertionFailure)
    decreases |shape| - to
  {
    if to < |shape| {
      var d := dim * shape[to];
      assert shape[to..][1..] == shape[to + 1..];
      var p := Product(shape[to + 1..]);
      MulAssoc(dim, shape[to], p);
      assert d > 0 by {
        assert dim * shape[to] > 0;
      }
      if d < target {
        FoldUntilFromReaches(shape, to + 1, d, target);
      }
    }
  }

  /** `fold_until(shape, off, target)`: the end of the shortest run of
      dimensions from `off` whose product is `target`. */
  function FoldUntil(shape: seq<int>, off: nat, target: int): (r: Result<(nat, int)>)
    ensures off >= |shape| ==> r == Err(IndexError)
    ensures off < |shape| && shape[off] >= target ==> r == Err(AssertionFailure)
    ensures r.Ok? ==> off < r.value.0 <= |shape| && r.value.1 == target
    ensures r.Ok? ==> Product(shape[off..r.value.0]) == target
    ensures r.Err? ==> r.error in {IndexError, AssertionFailure, NotImplementedError}
  {
    if off >= |shape| then Err(IndexError)
    else if !(shape[off] < target) then Err(AssertionFailure)
    else
      var r := FoldUntilFrom(shape, off, 1, target);
      if r.Ok? then
        FoldUntilFromProduct(shape, off, 1, target);
        r
      else r
  }

  /** `fold_until` succeeds exactly when a run of dimensions from `off`
      multiplies to the target (the target being larger than the first). */
  lemma FoldUntilSucceeds(shape: seq<int>, off: nat, target: int)
    requires off < |shape| && AllPositive(shape) && shape[off] < target
    ensures FoldUntil(shape, off, target).Ok? <==>
      (exists j :: off < j <= |shape| && Product(shape[off..j]) == target)
  {
    if FoldUntil(shape, off, target).Ok? {
      var j := FoldUntil(shape, off, target).value.0;
      assert off < j <= |shape| && Product(shape[off..j]) == target;
    }
    if j :| off < j <= |shape| && Product(shape[off..j]) == target {
      FoldUntilFromHits(shape, off, 1, target, j);
    }
  }

  /** `fold_until` fails only by refusing to split a dimension when the
      remaining dimensions hold at least the target. */
  lemma FoldUntilNeverExhausts(shape: seq<int>, off: nat, target: int)
    requires off < |shape| && AllPositive(shape) && shape[off] < target
    requires Product(shape[off..]) >= target
    ensures FoldUntil(shape, off, target).Err? ==> FoldUntil(shape, off, target).error == NotImplementedError
  {
    FoldUntilFromReaches(shape, off, 1, target);
  }

  /** `[f for f in xs]` passed as factors: all of them given. */
  function Given(xs: seq<int>): (r: seq<Option<int>>)
    ensures |r| == |xs| && NumNone(r) == 0 && KnownProduct(r) == Product(xs)
    ensures forall i :: 0 <= i < |xs| ==> r[i] == Some(xs[i])
  {
    if |xs| == 0 then []
    else
      var r := [Some(xs[0])] + Given(xs[1..]);
      assert r[1..] == Given(xs[1..]);
      r
  }

  /** Unfolding a positive dimension into given positive factors that
      multiply to it puts exactly those factors in its place. */
  lemma UnfoldGiven(m: MemRef, dim: nat, xs: seq<int>)
    requires WellFormed(m) && dim < |m.shape| && AllPositive(xs) && Product(xs) == m.shape[dim]
    ensures KnownPositive(Given(xs))
    ensures MemrefUnfold(m, dim, Given(xs)).Ok?
    ensures MemrefUnfold(m, dim, Given(xs)).value.0.shape == m.shape[..dim] + xs + m.shape[dim + 1..]
  {
    var fs := Given(xs);
    ProductPositive(xs);
    DivExact(m.shape[dim], m.shape[dim], 1);
    var q := FloorDiv(m.shape[dim], KnownProduct(fs));
    assert Fill(fs, q) == xs;
  }

  lemma Cancel(a: int, x: int, y: int)
    requires a > 0 && a * x == a * y
    ensures x == y
  {
    if x < y {
      MulMonotone(a, x + 1, y);
    } else if y < x {
      MulMonotone(a, y + 1, x);
    }
  }

  /** The loop state of `_reshape`: `sh0` is the current shape, its first
      `i` dimensions already agree with the target `sh1`, and the rest of
      both hold the same number of elements. */
  predicate ReshapeState(sh0: seq<int>, sh1: seq<int>, i: nat) {
    1 <= |sh0| && i <= |sh0| && i <= |sh1| && sh0[..i] == sh1[..i] &&
    AllPositive(sh0) && AllPositive(sh1) && Product(sh0[i..]) == Product(sh1[i..])
  }

  /** Splitting the first remaining dimension off a product. */
  lemma ProductHead(xs: seq<int>, i: nat)
    requires i < |xs|
    ensures Product(xs[i..]) == xs[i] * Product(xs[i + 1..])
  {
    assert xs[i..][1..] == xs[i + 1..];
  }

  /** Splitting a suffix product at `j`. */
  lemma ProductSplit(xs: seq<int>, i: nat, j: nat)
    requires i <= j <= |xs|
    ensures Product(xs[i..]) == Product(xs[i..j]) * Product(xs[j..])
  {
    assert xs[i..] == xs[i..j] + xs[j..];
    ProductAppend(xs[i..j], xs[j..]);
  }

  /** The first remaining dimension bounds the remaining product. */
  lemma HeadAtMostProduct(xs: seq<int>, i: nat)
    requires i < |xs| && AllPositive(xs)
    ensures xs[i] <= Product(xs[i..])
  {
    ProductHead(xs, i);
    assert AllPositive(xs[i + 1..]);
    ProductPositive(xs[i + 1..]);
    MulAtLeast(xs[i], Product(xs[i + 1..]));
  }

  /** The unfold step of `_reshape` keeps the loop state. */
  lemma UnfoldStep(sh0: seq<int>, sh1: seq<int>, i: nat, idx: nat)
    requires ReshapeState(sh0, sh1, i) && i < |sh0| && i < idx <= |sh1|
    requires Product(sh1[i..idx]) == sh0[i]
    ensures ReshapeState(sh0[..i] + sh1[i..idx] + sh0[i + 1..], sh1, idx)
  {
    var n := sh0[..i] + sh1[i..idx] + sh0[i + 1..];
    assert n[..idx] == sh1[..idx] by {
      assert sh1[..idx] == sh1[..i] + sh1[i..idx];
    }
    assert n[idx..] == sh0[i + 1..];
    ProductHead(sh0, i);
    ProductSplit(sh1, i, idx);
    Cancel(sh0[i], Product(sh0[i + 1..]), Product(sh1[idx..]));
    assert AllPositive(n) by {
      forall k | 0 <= k < |n| ensures n[k] > 0 {
        if k < i { assert n[k] == sh0[k]; }
        else if k < idx { assert n[k] == sh1[k]; }
        else { assert n[k] == sh0[k - idx + i + 1]; }
      }
    }
  }

  /** The fold step of `_reshape` keeps the loop state. */
  lemma FoldStep(sh0: seq<int>, sh1: seq<int>, i: nat, idx: nat)
    requires ReshapeState(sh0, sh1, i) && i < |sh1| && i < idx <= |sh0|
    requires Product(sh0[i..idx]) == sh1[i]
    ensures ReshapeState(sh0[..i] + [sh1[i]] + sh0[idx..], sh1, i + 1)
  {
    var n := sh0[..i] + [sh1[i]] + sh0[idx..];
    assert n[..i + 1] == sh1[..i + 1] by {
      assert sh1[..i + 1] == sh1[..i] + [sh1[i]];
    }
    assert n[i + 1..] == sh0[idx..];
    ProductHead(sh1, i);
    ProductSplit(sh0, i, idx);
    Cancel(sh1[i], Product(sh0[idx..]), Product(sh1[i + 1..]));
    assert AllPositive(n) by {
      forall k | 0 <= k < |n| ensures n[k] > 0 {
        if k < i { assert n[k] == sh0[k]; }
        else if k > i { assert n[k] == sh0[k - i - 1 + idx]; }
      }
    }
  }

  /** Stepping past dimensions that already agree keeps the loop state. */
  lemma MatchStep(sh0: seq<int>, sh1: seq<int>, i: nat)
    requires ReshapeState(sh0, sh1, i) && i < |sh0| && i < |sh1| && sh0[i] == sh1[i]
    ensures ReshapeState(sh0, sh1, i + 1)
  {
    assert sh1[..i + 1] == sh1[..i] + [sh1[i]];
    assert sh0[..i + 1] == sh0[..i] + [sh0[i]];
    ProductHead(sh0, i);
    ProductHead(sh1, i);
    Cancel(sh0[i], Product(sh0[i + 1..]), Product(sh1[i + 1..]));
  }

  /** `_reshape(ref, sh0, sh1)`: reshapes by folding runs of source
      dimensions into one target dimension and unfolding one source
      dimension into a run of target dimensions, then folds or unfolds the
      trailing unit dimensions. Either it reaches exactly the target shape
      or it reports a reshape it cannot express. */
  method Reshape(m: MemRef, sh1: seq<int>) returns (r: Result<MemRef>)
    requires WellFormed(m) && |m.shape| > 0 && |sh1| > 0
    requires AllPositive(m.shape) && AllPositive(sh1) && Product(m.shape) == Product(sh1)
    ensures r.Ok? ==> WellFormed(r.value) && r.value.shape == sh1
    ensures r.Err? ==> r.error == NotImplementedError
  {
    var ref, sh0, i := m, m.shape, 0;
    while i < |sh0| && i < |sh1|
      invariant WellFormed(ref) && ref.shape == sh0
      invariant ReshapeState(sh0, sh1, i)
      decreases |sh1| - i
    {
      var step := ReshapeStep(ref, sh1, i);
      if step.Err? {
        return Err(step.error);
      }
      ref, sh0, i := step.value.0, step.value.0.shape, step.value.1;
    }
    r := ReshapeTrailing(ref, sh1, i);
  }

  /** One pass of the `_reshape` loop at dimension `i`: unfold a source
      dimension larger than the target one, fold a run of source dimensions
      smaller than it, or step past a dimension that already agrees. Each
      pass keeps the shapes agreeing on a longer prefix. */
  method ReshapeStep(ref: MemRef, sh1: seq<int>, i: nat) returns (r: Result<(MemRef, nat)>)
    requires WellFormed(ref) && ReshapeState(ref.shape, sh1, i)
    requires i < |ref.shape| && i < |sh1|
    ensures r.Ok? ==> WellFormed(r.value.0) && ReshapeState(r.value.0.shape, sh1, r.value.1)
    ensures r.Ok? ==> i < r.value.1
    ensures r.Err? ==> r.error == NotImplementedError
  {
    var sh0 := ref.shape;
    if sh0[i] > sh1[i] {
      HeadAtMostProduct(sh0, i);
      FoldUntilNeverExhausts(sh1, i, sh0[i]);
      var f := FoldUntil(sh1, i, sh0[i]);
      if f.Err? {
        return Err(f.error);
      }
      var idx := f.value.0;
      assert AllPositive(sh1[i..idx]);
      UnfoldGiven(ref, i, sh1[i..idx]);
      UnfoldStep(sh0, sh1, i, idx);
      return Ok((MemrefUnfold(ref, i, Given(sh1[i..idx])).value.0, idx));
    } else if sh0[i] < sh1[i] {
      HeadAtMostProduct(sh1, i);
      FoldUntilNeverExhausts(sh0, i, sh1[i]);
      var f := FoldUntil(sh0, i, sh1[i]);
      if f.Err? {
        return Err(f.error);
      }
      var idx := f.value.0;
      var g := MemrefFold(ref, i, idx - i);
      if g.Err? {
        return Err(g.error);
      }
      FoldStep(sh0, sh1, i, idx);
      return Ok((g.value.0, i + 1));
    } else {
      MatchStep(sh0, sh1, i);
      return Ok((ref, i + 1));
    }
  }

  /** The end of `_reshape`: once one shape is used up, the other's
      remaining dimensions are ones, folded into or unfolded out of the
      last matched dimension. */
  method ReshapeTrailing(ref: MemRef, sh1: seq<int>, i: nat) returns (r: Result<MemRef>)
    requires WellFormed(ref) && ReshapeState(ref.shape, sh1, i) && |sh1| > 0
    requires i == |ref.shape| || i == |sh1|
    ensures r.Ok? ==> WellFormed(r.value) && r.value.shape == sh1
    ensures r.Err? ==> r.error == NotImplementedError
  {
    var sh0 := ref.shape;
    if i < |sh0| {
      TrailingFold(sh0, sh1, i);
      var g := MemrefFold(ref, i - 1, |sh0| - i + 1);
      if g.Err? {
        return Err(g.error);
      }
      return Ok(g.value.0);
    }
    if i < |sh1| {
      TrailingUnfold(sh0, sh1, i);
      var xs := [sh0[i - 1]] + Repeat(1, |sh1| - i);
      UnfoldGiven(ref, i - 1, xs);
      return Ok(MemrefUnfold(ref, i - 1, Given(xs)).value.0);
    }
    return Ok(ref);
  }

  /** After the loop, leftover source dimensions are all 1, and folding them
      into the last matched dimension gives the target. */
  lemma TrailingFold(sh0: seq<int>, sh1: seq<int>, i: nat)
    requires ReshapeState(sh0, sh1, i) && i < |sh0| && i == |sh1| && i >= 1
    ensures FoldShape(sh0, i - 1, |sh0| - i + 1) == sh1
  {
    assert sh1[i..] == [];
    assert AllPositive(sh0[i..]);
    ProductHead(sh0, i - 1);
    ProductSingle(sh0[i - 1]);
    assert sh0[i - 1..|sh0|] == sh0[i - 1..];
    assert sh0[..i - 1] + [sh0[i - 1]] == sh0[..i];
  }

  /** After the loop, leftover target dimensions are all 1, so unfolding the
      last matched dimension into itself followed by ones gives the
      target. */
  lemma TrailingUnfold(sh0: seq<int>, sh1: seq<int>, i: nat)
    requires ReshapeState(sh0, sh1, i) && i == |sh0| && i < |sh1|
    ensures AllPositive([sh0[i - 1]] + Repeat(1, |sh1| - i))
    ensures Product([sh0[i - 1]] + Repeat(1, |sh1| - i)) == sh0[i - 1]
    ensures sh0[..i - 1] + ([sh0[i - 1]] + Repeat(1, |sh1| - i)) + sh0[i..] == sh1
  {
    assert sh0[i..] == [];
    assert AllPositive(sh1[i..]);
    ProductOneMeansOnes(sh1[i..]);
    assert sh1[i..] == Repeat(1, |sh1| - i);
    ProductOneMeansOnes(Repeat(1, |sh1| - i));
    ProductAppend([sh0[i - 1]], Repeat(1, |sh1| - i));
    ProductSingle(sh0[i - 1]);
    assert sh1 == sh1[..i] + sh1[i..];
    assert sh0[..i - 1] + [sh0[i - 1]] == sh0;
  }

  /** Static memref dimensions are never negative. */
  predicate StaticShape(shape: seq<int>) {
    forall i :: 0 <= i < |shape| ==> shape[i] >= 0
  }

  /** A static shape holding a positive number of elements has no zero
      dimension. */
  lemma {:induction false} StaticPositive(shape: seq<int>)
    requires StaticShape(shape) && Product(shape) > 0
    ensures AllPositive(shape)
  {
    if |shape| > 0 {
      assert StaticShape(shape[1..]);
      var p := Product(shape[1..]);
      if p <= 0 {
        MulMonotone(shape[0], p, 0);
        assert false;
      }
      StaticPositive(shape[1..]);
      assert forall i :: 1 <= i < |shape| ==> shape[i] == shape[1..][i - 1];
    }
  }

  /** `memref_reshape(ref, shape)`: same element count and positive target
      dimensions are required; equal shapes return the memref itself;
      reshapes from or to rank 0 keep the identity layout or the offset;
      the rest goes through `_reshape`. */
  method MemrefReshape(m: MemRef, shape: seq<int>) returns (r: Result<MemRef>)
    requires WellFormed(m) && StaticShape(m.shape)
    ensures Product(m.shape) != Product(shape) ==> r == Err(ValueError)
    ensures (exists i :: 0 <= i < |shape| && shape[i] <= 0) ==> r == Err(ValueError)
    ensures r.Err? ==> r.error == ValueError || r.error == NotImplementedError
    ensures r.Ok? ==> WellFormed(r.value) && r.value.shape == shape
    ensures r.Ok? && m.shape == shape ==> r.value == m
    ensures r.Ok? && |m.shape| == 0 && m.shape != shape ==>
      r.value.layout == if m.layout.Identity? then Identity else Strided(m.layout.offset, Repeat(1, |shape|))
    ensures r.Ok? && |m.shape| > 0 && |shape| == 0 ==>
      r.value.layout == if IdentityLike(m) then Identity else Strided(OffsetOf(m), [])
    ensures Product(m.shape) == Product(shape) && AllPositive(shape) && (m.shape == shape || |m.shape| == 0 || |shape| == 0) ==> r.Ok?
  {
    if Product(m.shape) != Product(shape) {
      return Err(ValueError);
    }
    if !AllPositive(shape) {
      return Err(ValueError);
    }
    if m.shape == shape {
      return Ok(m);
    }
    if |m.shape| == 0 {
      var layout := if m.layout.Identity? then Identity else Strided(m.layout.offset, Repeat(1, |shape|));
      return Ok(MemRef(shape, layout));
    }
    if |shape| == 0 {
      var layout := if IdentityLike(m) then Identity else Strided(OffsetOf(m), []);
      return Ok(MemRef(shape, layout));
    }
    ProductPositive(shape);
    StaticPositive(m.shape);
    r := Reshape(m, shape);
  }
}
