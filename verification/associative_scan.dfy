/** `associative_scan`: the recursive odd/even (Blelloch) prefix scan, and
    the shape and batching rules of the cumulative-reduction primitives that
    are lowered to it. A pytree of operands is modelled as one sequence of
    elements along the scanned axis. */
module AssociativeScan {
  import opened Lists
  import opened Results

  ghost predicate AssociativeAt<T>(op: (T, T) -> T, a: T, b: T, c: T) {
    op(op(a, b), c) == op(a, op(b, c))
  }

  /** `fn` is associative. The quantifier fires only on an explicit
      `AssociativeAt` term, which keeps it from rewriting every nested
      `fn` application in sight. */
  ghost predicate Associative<T(!new)>(op: (T, T) -> T) {
    forall a: T, b: T, c: T :: AssociativeAt(op, a, b, c)
  }

  /** Combining a non-empty sequence left to right: `fn(fn(a, b), c)`. */
  function Fold<T>(op: (T, T) -> T, s: seq<T>): T
    requires |s| > 0
  {
    if |s| == 1 then s[0] else op(Fold(op, s[..|s| - 1]), s[|s| - 1])
  }

  /** `fn(e[0], e[1]), fn(e[2], e[3]), ...`: the even-indexed elements of
      `elems[:-1]` combined with the odd-indexed ones. */
  function Reduced<T>(op: (T, T) -> T, e: seq<T>): (r: seq<T>)
    ensures |r| == |e| / 2
  {
    seq(|e| / 2, i requires 0 <= i < |e| / 2 => op(e[2 * i], e[2 * i + 1]))
  }

  /** `_interleave(a, b)`: `a[0], b[0], a[1], b[1], ...`, for `|a|` equal to
      `|b|` or one more. */
  function Interleave<T>(a: seq<T>, b: seq<T>): (r: seq<T>)
    requires |a| == |b| || |a| == |b| + 1
    ensures |r| == |a| + |b|
  {
    seq(|a| + |b|, k requires 0 <= k < |a| + |b| => if k % 2 == 0 then a[k / 2] else b[k / 2])
  }

  /** The even positions: `elems[0]`, then `fn` of each odd position's
      value (`odd[:-1]` when the length is even, all of `odd` when it is
      odd) with `elems[2::2]`. */
  function Evens<T>(op: (T, T) -> T, e: seq<T>, odd: seq<T>): (r: seq<T>)
    requires |e| >= 2 && |odd| == |e| / 2
    ensures |r| == |e| - |odd| && (|r| == |odd| || |r| == |odd| + 1)
  {
    var m := |e| - |odd| - 1;
    assert 2 * m < |e|;
    [e[0]] + seq(m, j requires 0 <= j < m => op(odd[j], e[2 * j + 2]))
  }

  /** `_scan` of `associative_scan`: scan the pairwise-reduced elements to
      get the odd positions, then fill each even position from the odd
      position before it. */
  function Scan<T>(op: (T, T) -> T, e: seq<T>): (r: seq<T>)
    ensures |r| == |e|
    decreases |e|
  {
    if |e| < 2 then e
    else
      var odd := Scan(op, Reduced(op, e));
      Interleave(Evens(op, e, odd), odd)
  }

  /** With `reverse=True` the elements are reversed before and after. */
  function ScanReverse<T>(op: (T, T) -> T, e: seq<T>): (r: seq<T>)
    ensures |r| == |e|
  {
    Reverse(Scan(op, Reverse(e)))
  }

  lemma InterleaveOdd<T>(a: seq<T>, b: seq<T>, i: nat)
    requires (|a| == |b| || |a| == |b| + 1) && i < |b|
    ensures Interleave(a, b)[2 * i + 1] == b[i]
  {
    var k := 2 * i + 1;
    assert k % 2 == 1 && k / 2 == i;
  }

  lemma InterleaveEven<T>(a: seq<T>, b: seq<T>, i: nat)
    requires (|a| == |b| || |a| == |b| + 1) && i < |a|
    ensures Interleave(a, b)[2 * i] == a[i]
  {
    var k := 2 * i;
    assert k % 2 == 0 && k / 2 == i;
  }

  lemma EvensAt<T>(op: (T, T) -> T, e: seq<T>, odd: seq<T>, i: nat)
    requires |e| >= 2 && |odd| == |e| / 2 && 1 <= i < |e| - |odd|
    ensures 2 * i < |e| && Evens(op, e, odd)[i] == op(odd[i - 1], e[2 * i])
  {
  }

  lemma ReducedAt<T>(op: (T, T) -> T, e: seq<T>, i: nat)
    requires i < |e| / 2
    ensures 2 * i + 1 < |e| && Reduced(op, e)[i] == op(e[2 * i], e[2 * i + 1])
  {
  }

  /** Odd position `k = 2i + 1` of `Scan` is element `i` of the recursive
      scan. */
  lemma ScanOddPosition<T>(op: (T, T) -> T, e: seq<T>, k: nat, i: nat)
    requires 2 <= |e| && k < |e| && k == 2 * i + 1
    ensures i < |e| / 2 && Scan(op, e)[k] == Scan(op, Reduced(op, e))[i]
  {
    var odd := Scan(op, Reduced(op, e));
    InterleaveOdd(Evens(op, e, odd), odd, i);
  }

  /** Even position `k = 2i`, `i >= 1`, combines odd position `k - 1` with
      `e[k]`. */
  lemma ScanEvenPosition<T>(op: (T, T) -> T, e: seq<T>, k: nat, i: nat)
    requires 2 <= |e| && 1 <= i && k < |e| && k == 2 * i
    ensures i - 1 < |e| / 2 && Scan(op, e)[k] == op(Scan(op, Reduced(op, e))[i - 1], e[k])
  {
    var odd := Scan(op, Reduced(op, e));
    InterleaveEven(Evens(op, e, odd), odd, i);
    EvensAt(op, e, odd, i);
  }

  /** The pairwise-reduced prefix of length `j` folds to the same value as
      the original prefix of length `n = 2j`. */
  lemma {:induction false} FoldReduced<T(!new)>(op: (T, T) -> T, e: seq<T>, j: nat, n: nat)
    requires Associative(op)
    requires 1 <= j && n == 2 * j && n <= |e|
    ensures j <= |Reduced(op, e)| && Fold(op, Reduced(op, e)[..j]) == Fold(op, e[..n])
  {
    var red := Reduced(op, e);
    if j == 1 {
      ReducedAt(op, e, 0);
      assert e[..2][..1] == [e[0]];
    } else {
      FoldReduced(op, e, j - 1, n - 2);
      assert red[..j][..j - 1] == red[..j - 1];
      assert e[..n][..n - 1] == e[..n - 1];
      assert e[..n - 1][..n - 2] == e[..n - 2];
      var p := Fold(op, e[..n - 2]);
      ReducedAt(op, e, j - 1);
      assert AssociativeAt(op, p, e[n - 2], e[n - 1]);
    }
  }

  lemma FoldSnoc<T>(op: (T, T) -> T, e: seq<T>, k: nat)
    requires 0 < k < |e|
    ensures Fold(op, e[..k + 1]) == op(Fold(op, e[..k]), e[k])
  {
    assert e[..k + 1][..k] == e[..k];
  }

  /** Odd position `k = 2i + 1` holds the fold of `e[..k + 1]`, once the
      recursive scan and the pairwise reduction are known to agree with the
      folds. */
  lemma OddCase<T>(op: (T, T) -> T, e: seq<T>, k: nat, i: nat)
    requires 2 <= |e| && k < |e| && k == 2 * i + 1 && i < |Reduced(op, e)|
    requires Scan(op, Reduced(op, e))[i] == Fold(op, Reduced(op, e)[..i + 1])
    requires Fold(op, Reduced(op, e)[..i + 1]) == Fold(op, e[..k + 1])
    ensures Scan(op, e)[k] == Fold(op, e[..k + 1])
  {
    ScanOddPosition(op, e, k, i);
  }

  /** Even position `k = 2i`, `i >= 1`, holds the fold of `e[..k + 1]`. */
  lemma EvenCase<T>(op: (T, T) -> T, e: seq<T>, k: nat, i: nat)
    requires 2 <= |e| && 1 <= i && k < |e| && k == 2 * i && i - 1 < |Reduced(op, e)|
    requires Scan(op, Reduced(op, e))[i - 1] == Fold(op, Reduced(op, e)[..i])
    requires Fold(op, Reduced(op, e)[..i]) == Fold(op, e[..k])
    requires Fold(op, e[..k + 1]) == op(Fold(op, e[..k]), e[k])
    ensures Scan(op, e)[k] == Fold(op, e[..k + 1])
  {
    ScanEvenPosition(op, e, k, i);
  }

  /** Element `k` of the result combines the first `k + 1` elements left to
      right, whenever `fn` is associative. */
  lemma {:induction false} ScanIsPrefixFold<T(!new)>(op: (T, T) -> T, e: seq<T>, k: nat)
    requires Associative(op)
    requires k < |e|
    ensures Scan(op, e)[k] == Fold(op, e[..k + 1])
    decreases |e|, 1
  {
    if k == 0 {
      assert e[..1] == [e[0]];
      if |e| >= 2 {
        var odd := Scan(op, Reduced(op, e));
        InterleaveEven(Evens(op, e, odd), odd, 0);
      }
    } else {
      var i := k / 2;
      if k == 2 * i + 1 {
        OddStep(op, e, k, i);
      } else {
        EvenStep(op, e, k, i);
      }
    }
  }

  lemma {:induction false} OddStep<T(!new)>(op: (T, T) -> T, e: seq<T>, k: nat, i: nat)
    requires Associative(op)
    requires 2 <= |e| && k < |e| && k == 2 * i + 1
    ensures Scan(op, e)[k] == Fold(op, e[..k + 1])
    decreases |e|, 0
  {
    ScanIsPrefixFold(op, Reduced(op, e), i);
    FoldReduced(op, e, i + 1, k + 1);
    OddCase(op, e, k, i);
  }

  lemma {:induction false} EvenStep<T(!new)>(op: (T, T) -> T, e: seq<T>, k: nat, i: nat)
    requires Associative(op)
    requires 2 <= |e| && 1 <= i && k < |e| && k == 2 * i
    ensures Scan(op, e)[k] == Fold(op, e[..k + 1])
    decreases |e|, 0
  {
    ScanIsPrefixFold(op, Reduced(op, e), i - 1);
    FoldReduced(op, e, i, k);
    FoldSnoc(op, e, k);
    EvenCase(op, e, k, i);
  }

  /** With `reverse`, element `k` combines from the last element down to
      `k`: `[..., f(f(z, y), x), f(z, y), z]`. */
  lemma ScanReverseIsSuffixFold<T(!new)>(op: (T, T) -> T, e: seq<T>)
    requires Associative(op)
    ensures forall k :: 0 <= k < |e| ==> ScanReverse(op, e)[k] == Fold(op, Reverse(e[k..]))
  {
    var re := Reverse(e);
    forall k | 0 <= k < |e| ensures ScanReverse(op, e)[k] == Fold(op, Reverse(e[k..])) {
      ScanIsPrefixFold(op, re, |e| - 1 - k);
      assert re[..|e| - 1 - k + 1] == Reverse(e[k..]);
    }
  }

  // ----- cumulative reductions -----

  /** `_cumred_shape_rule`: the axis must name a dimension; the shape is
      unchanged. */
  function CumredShape(shape: seq<int>, axis: int): (r: Result<seq<int>>)
    ensures r.Ok? <==> 0 <= axis < |shape|
    ensures r.Ok? ==> r.value == shape
    ensures r.Err? ==> r.error == ValueError
  {
    if axis < 0 then Err(ValueError)
    else if axis >= |shape| then Err(ValueError)
    else Ok(shape)
  }

  /** The operand shape once a batch dimension of size `b` is inserted at
      `bdim`. */
  function InsertDim(shape: seq<int>, bdim: nat, b: int): (r: seq<int>)
    requires bdim <= |shape|
    ensures |r| == |shape| + 1 && r[bdim] == b
  {
    shape[..bdim] + [b] + shape[bdim..]
  }

  /** `_cumred_batch_rule`: the reduction axis as seen in the batched
      operand. */
  function CumredBatchAxis(axis: nat, bdim: nat): nat {
    if axis < bdim then axis else axis + 1
  }

  /** The shifted axis names the same logical dimension of the batched
      operand, and never the batch dimension itself. */
  lemma CumredBatchAxisTracksDim(shape: seq<int>, axis: nat, bdim: nat, b: int)
    requires axis < |shape| && bdim <= |shape|
    ensures CumredBatchAxis(axis, bdim) != bdim
    ensures InsertDim(shape, bdim, b)[CumredBatchAxis(axis, bdim)] == shape[axis]
    ensures CumredShape(InsertDim(shape, bdim, b), CumredBatchAxis(axis, bdim)).Ok?
  {
  }
}
