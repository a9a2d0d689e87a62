/** The bookkeeping of `_scan_transpose`: which linearity patterns it
    accepts, the parameters of the reversed scan it emits, and where the
    cotangents it returns land among the original operands. The transposed
    body itself (`_transpose_scan_jaxpr`, `backward_pass`) is not modelled. */
module ScanTranspose {
  import opened Lists
  import opened Results

  /** No linear operand precedes a non-linear one: the shape
      `[False] * k + [True] * m`, stated position by position. */
  predicate FalsesThenTrues(bs: seq<bool>) {
    forall i, j :: 0 <= i < j < |bs| && bs[i] ==> bs[j]
  }

  /** No non-linear operand precedes a linear one: `[True] * m + [False] * e`. */
  predicate TruesThenFalses(bs: seq<bool>) {
    forall i, j :: 0 <= i < j < |bs| && bs[j] ==> bs[i]
  }

  /** The comparison the source makes on the consts flags: the list equals
      `[False] * num_ires + [True] * (len - num_ires)`, with `num_ires` the
      number of unset flags. */
  predicate ConstsPatternAsWritten(bs: seq<bool>) {
    bs == Repeat(false, |bs| - Count(bs)) + Repeat(true, Count(bs))
  }

  /** The comparison on the scanned-operand flags:
      `[True] * (len - num_eres) + [False] * num_eres`. */
  predicate XsPatternAsWritten(bs: seq<bool>) {
    bs == Repeat(true, Count(bs)) + Repeat(false, |bs| - Count(bs))
  }

  lemma AllTrueCount(bs: seq<bool>)
    requires forall j :: 0 <= j < |bs| ==> bs[j]
    ensures Count(bs) == |bs|
    ensures bs == Repeat(true, |bs|)
  {
    CountMonotone(Repeat(true, |bs|), bs);
    CountRepeat(true, |bs|);
  }

  lemma AllFalseCount(bs: seq<bool>)
    requires forall j :: 0 <= j < |bs| ==> !bs[j]
    ensures Count(bs) == 0
    ensures bs == Repeat(false, |bs|)
  {
    CountMonotone(bs, Repeat(false, |bs|));
    CountRepeat(false, |bs|);
  }

  lemma {:induction false} FalsesThenTruesHasConstsPattern(bs: seq<bool>)
    requires FalsesThenTrues(bs)
    ensures ConstsPatternAsWritten(bs)
  {
    if |bs| > 0 {
      if bs[0] {
        assert forall j :: 0 <= j < |bs| ==> bs[j] by {
          forall j | 0 <= j < |bs| ensures bs[j] {
            if j > 0 { assert bs[0] ==> bs[j]; }
          }
        }
        AllTrueCount(bs);
        assert Repeat(false, 0) + Repeat(true, |bs|) == Repeat(true, |bs|);
      } else {
        var t := bs[1..];
        assert FalsesThenTrues(t) by {
          forall i, j | 0 <= i < j < |t| && t[i] ensures t[j] {
            assert bs[i + 1] ==> bs[j + 1];
          }
        }
        FalsesThenTruesHasConstsPattern(t);
        assert Count(bs) == Count(t);
        var n := |t| - Count(t);
        assert Repeat(false, n + 1) == [false] + Repeat(false, n);
        assert bs == [false] + t;
      }
    }
  }

  lemma {:induction false} TruesThenFalsesHasXsPattern(bs: seq<bool>)
    requires TruesThenFalses(bs)
    ensures XsPatternAsWritten(bs)
  {
    if |bs| > 0 {
      if !bs[0] {
        assert forall j :: 0 <= j < |bs| ==> !bs[j] by {
          forall j | 0 <= j < |bs| ensures !bs[j] {
            if j > 0 { assert bs[0] || !bs[j]; }
          }
        }
        AllFalseCount(bs);
        assert Repeat(true, 0) + Repeat(false, |bs|) == Repeat(false, |bs|);
      } else {
        var t := bs[1..];
        assert TruesThenFalses(t) by {
          forall i, j | 0 <= i < j < |t| && t[j] ensures t[i] {
            assert bs[j + 1] ==> bs[i + 1];
          }
        }
        TruesThenFalsesHasXsPattern(t);
        assert Count(bs) == Count(t) + 1;
        var m := Count(t);
        assert Repeat(true, m + 1) == [true] + Repeat(true, m);
        assert bs == [true] + t;
      }
    }
  }

  /** The list comparisons the source makes accept exactly the orderings
      stated position by position. */
  lemma PatternsMeanOrderings(bs: seq<bool>)
    ensures ConstsPatternAsWritten(bs) <==> FalsesThenTrues(bs)
    ensures XsPatternAsWritten(bs) <==> TruesThenFalses(bs)
  {
    if FalsesThenTrues(bs) { FalsesThenTruesHasConstsPattern(bs); }
    if TruesThenFalses(bs) { TruesThenFalsesHasXsPattern(bs); }
  }

  /** The split of an accepted `linear` tuple: `numIres` intensive residuals
      lead the consts and `numEres` extensive residuals end the scanned
      operands. */
  datatype Pattern = Pattern(numIres: nat, numEres: nat)

  /** The pattern check at the top of `_scan_transpose`: consts must be
      non-linear then linear and scanned operands linear then non-linear;
      anything else is `NotImplementedError`. The carry flags are not
      checked. */
  function TransposeCheck(linear: seq<bool>, numConsts: nat, numCarry: nat): (r: Result<Pattern>)
    requires numConsts + numCarry <= |linear|
    ensures r.Err? ==> r.error == NotImplementedError
    ensures r.Ok? <==> FalsesThenTrues(linear[..numConsts]) &&
                       TruesThenFalses(linear[numConsts + numCarry..])
    ensures r.Ok? ==> r.value.numIres <= numConsts
    ensures r.Ok? ==> r.value.numEres <= |linear| - numConsts - numCarry
    ensures r.Ok? ==> r.value.numIres == numConsts - Count(linear[..numConsts])
    ensures r.Ok? ==> r.value.numEres == |linear| - numConsts - numCarry - Count(linear[numConsts + numCarry..])
  {
    var (constsLin, initLin, xsLin) := Split3(linear, numConsts, numCarry);
    PatternsMeanOrderings(constsLin);
    PatternsMeanOrderings(xsLin);
    assert constsLin == linear[..numConsts];
    assert xsLin == linear[numConsts + numCarry..];
    var numIres := |constsLin| - Count(constsLin);
    var numEres := |xsLin| - Count(xsLin);
    if !ConstsPatternAsWritten(constsLin) then Err(NotImplementedError)
    else if !XsPatternAsWritten(xsLin) then Err(NotImplementedError)
    else Ok(Pattern(numIres, numEres))
  }

  /** Where an accepted tuple is linear: every const from `numIres` on, and
      every scanned operand before the last `numEres`. */
  lemma TransposeCheckAt(linear: seq<bool>, numConsts: nat, numCarry: nat, i: nat)
    requires numConsts + numCarry <= |linear|
    requires TransposeCheck(linear, numConsts, numCarry).Ok?
    requires i < |linear|
    ensures var p := TransposeCheck(linear, numConsts, numCarry).value;
      (i < numConsts ==> (linear[i] <==> i >= p.numIres)) &&
      (numConsts + numCarry <= i ==> (linear[i] <==> i < |linear| - p.numEres))
  {
    if i < numConsts {
      var c := linear[..numConsts];
      PatternsMeanOrderings(c);
      ConstsPatternAt(c, i);
      assert linear[i] == c[i];
    } else if numConsts + numCarry <= i {
      var x := linear[numConsts + numCarry..];
      PatternsMeanOrderings(x);
      XsPatternAt(x, i - numConsts - numCarry);
      assert linear[i] == x[i - numConsts - numCarry];
    }
  }

  lemma ConstsPatternAt(bs: seq<bool>, j: nat)
    requires ConstsPatternAsWritten(bs) && j < |bs|
    ensures bs[j] <==> j >= |bs| - Count(bs)
  {
    var n := |bs| - Count(bs);
    if j < n {
      assert bs[j] == Repeat(false, n)[j];
    } else {
      assert bs[j] == Repeat(true, Count(bs))[j - n];
    }
  }

  lemma XsPatternAt(bs: seq<bool>, j: nat)
    requires XsPatternAsWritten(bs) && j < |bs|
    ensures bs[j] <==> j < Count(bs)
  {
    var n := Count(bs);
    if j < n {
      assert bs[j] == Repeat(true, n)[j];
    } else {
      assert bs[j] == Repeat(false, |bs| - n)[j - n];
    }
  }

  /** The parameters of the scan that `_scan_transpose` binds (the
      non-split path): it runs backwards, its consts are the intensive
      residuals and the cotangent refs of mutable consts, its carry the
      cotangents of the pure consts and of the carry. */
  datatype TransposedScan = TransposedScan(reverse: bool, numConsts: nat, numCarry: nat,
                                           linear: seq<bool>, numOperands: nat)

  /** `mutable[i]` says whether operand `i`'s type is a mutable reference;
      `ctIsZero[k]` whether the cotangent of output `k` is a symbolic zero.
      Only the cotangents of the scanned outputs that are not zeros become
      operands. */
  function TransposeParams(linear: seq<bool>, numConsts: nat, numCarry: nat, reverse: bool,
                           mutable: seq<bool>, ctIsZero: seq<bool>): (r: Result<TransposedScan>)
    requires numConsts + numCarry <= |linear|
    requires |mutable| == |linear|
    requires numCarry <= |ctIsZero|
    ensures r.Ok? <==> TransposeCheck(linear, numConsts, numCarry).Ok?
    ensures r.Ok? ==> r.value.reverse == !reverse
    ensures r.Ok? ==> |r.value.linear| == r.value.numOperands
    ensures r.Ok? ==> r.value.numConsts + r.value.numCarry <= r.value.numOperands
    ensures r.Ok? ==> r.value.numCarry >= numCarry
  {
    var p :- TransposeCheck(linear, numConsts, numCarry);
    var constMut := mutable[p.numIres..numConsts];
    var numXsLin := |linear| - numConsts - numCarry - p.numEres;
    var xsMut := mutable[numConsts + numCarry..numConsts + numCarry + numXsLin];
    var numMutConsts := Count(constMut);
    var numImmutConsts := |constMut| - numMutConsts;
    var numNonzeroYs := |ctIsZero| - numCarry - Count(ctIsZero[numCarry..]);
    var lin := Repeat(false, p.numIres) +
               Repeat(true, numMutConsts + numImmutConsts + numCarry + Count(xsMut) + numNonzeroYs) +
               Repeat(false, p.numEres);
    Ok(TransposedScan(!reverse, p.numIres + numMutConsts, numImmutConsts + numCarry, lin, |lin|))
  }

  /** A run of non-linear, then linear, then non-linear flags, cut anywhere
      inside the linear run, has the accepted shape on both sides of the cut. */
  lemma ThreeRuns(a: nat, b: nat, c: nat, k1: nat, k2: nat)
    requires a <= k1 <= k2 <= a + b
    ensures var l := Repeat(false, a) + Repeat(true, b) + Repeat(false, c);
            FalsesThenTrues(l[..k1]) && TruesThenFalses(l[k2..])
  {
    var l := Repeat(false, a) + Repeat(true, b) + Repeat(false, c);
    assert forall i :: 0 <= i < |l| ==> (l[i] <==> a <= i < a + b);
  }

  /** The emitted scan is itself of a shape `_scan_transpose` accepts, so a
      scan can be transposed twice. */
  lemma TransposedIsTransposable(linear: seq<bool>, numConsts: nat, numCarry: nat, reverse: bool,
                                 mutable: seq<bool>, ctIsZero: seq<bool>)
    requires numConsts + numCarry <= |linear|
    requires |mutable| == |linear|
    requires numCarry <= |ctIsZero|
    requires TransposeParams(linear, numConsts, numCarry, reverse, mutable, ctIsZero).Ok?
    ensures var t := TransposeParams(linear, numConsts, numCarry, reverse, mutable, ctIsZero).value;
            TransposeCheck(t.linear, t.numConsts, t.numCarry).Ok?
  {
    var t := TransposeParams(linear, numConsts, numCarry, reverse, mutable, ctIsZero).value;
    var p := TransposeCheck(linear, numConsts, numCarry).value;
    var constMut := mutable[p.numIres..numConsts];
    var numXsLin := |linear| - numConsts - numCarry - p.numEres;
    var xsMut := mutable[numConsts + numCarry..numConsts + numCarry + numXsLin];
    var numMutConsts := Count(constMut);
    var numImmutConsts := |constMut| - numMutConsts;
    var numNonzeroYs := |ctIsZero| - numCarry - Count(ctIsZero[numCarry..]);
    var b := numMutConsts + numImmutConsts + numCarry + Count(xsMut) + numNonzeroYs;
    assert t.linear == Repeat(false, p.numIres) + Repeat(true, b) + Repeat(false, p.numEres);
    assert t.numConsts == p.numIres + numMutConsts;
    assert t.numCarry == numImmutConsts + numCarry;
    ThreeRuns(p.numIres, b, p.numEres, t.numConsts, t.numConsts + t.numCarry);
  }

  function Somes<T>(xs: seq<T>): (r: seq<Option<T>>)
    ensures |r| == |xs|
    ensures forall i :: 0 <= i < |xs| ==> r[i] == Some(xs[i])
  {
    seq(|xs|, i requires 0 <= i < |xs| => Some(xs[i]))
  }

  /** The list handed back for one run of operands of which `mut` marks the
      mutable ones: `merge_lists(mut, cts, [None] * sum(mut))`. */
  function MergeCts<T>(mut: seq<bool>, cts: seq<T>): (r: seq<Option<T>>)
    requires |cts| == |mut| - Count(mut)
    ensures |r| == |mut|
  {
    Merge(mut, Somes(cts), Repeat(None, Count(mut)))
  }

  /** A cotangent is present exactly where the operand is not mutable. */
  lemma MergeCtsAt<T>(mut: seq<bool>, cts: seq<T>, k: nat)
    requires |cts| == |mut| - Count(mut)
    requires k < |mut|
    ensures MergeCts(mut, cts)[k].Some? <==> !mut[k]
  {
    MergeIndex(mut, Somes(cts), Repeat(None, Count(mut)), k);
  }

  /** `[None] * ires + ct_consts + ct_init + ct_xs + [None] * eres`, the
      cotangent for every operand of the transposed scan. */
  function Assemble<T>(numIres: nat, constMut: seq<bool>, numCarry: nat, xsMut: seq<bool>,
                       numEres: nat, outs: seq<T>): (r: seq<Option<T>>)
    requires |outs| == (|constMut| - Count(constMut)) + numCarry + (|xsMut| - Count(xsMut))
    ensures |r| == numIres + |constMut| + numCarry + |xsMut| + numEres
  {
    var m := |constMut| - Count(constMut);
    Repeat(None, numIres) + MergeCts(constMut, outs[..m]) + Somes(outs[m..m + numCarry]) +
    MergeCts(xsMut, outs[m + numCarry..]) + Repeat(None, numEres)
  }

  lemma AssembleAt<T>(numIres: nat, constMut: seq<bool>, numCarry: nat, xsMut: seq<bool>,
                      numEres: nat, outs: seq<T>, i: nat)
    requires |outs| == (|constMut| - Count(constMut)) + numCarry + (|xsMut| - Count(xsMut))
    requires i < numIres + |constMut| + numCarry + |xsMut| + numEres
    ensures var c0 := numIres + |constMut|;
            var x0 := c0 + numCarry;
            Assemble(numIres, constMut, numCarry, xsMut, numEres, outs)[i].Some? <==>
              (numIres <= i < c0 && !constMut[i - numIres]) || (c0 <= i < x0) ||
              (x0 <= i < x0 + |xsMut| && !xsMut[i - x0])
  {
    var m := |constMut| - Count(constMut);
    var a := Repeat(None, numIres);
    var b := MergeCts(constMut, outs[..m]);
    var c := Somes(outs[m..m + numCarry]);
    var d := MergeCts(xsMut, outs[m + numCarry..]);
    var e: seq<Option<T>> := Repeat(None, numEres);
    var r := Assemble(numIres, constMut, numCarry, xsMut, numEres, outs);
    assert r == a + b + c + d + e;
    At5(a, b, c, d, e, i);
    var c0 := numIres + |constMut|;
    var x0 := c0 + numCarry;
    if numIres <= i < c0 {
      MergeCtsAt(constMut, outs[..m], i - numIres);
    } else if x0 <= i < x0 + |xsMut| {
      MergeCtsAt(xsMut, outs[m + numCarry..], i - x0);
    }
  }

  /** Indexing a concatenation of five pieces. */
  lemma At5<T>(a: seq<T>, b: seq<T>, c: seq<T>, d: seq<T>, e: seq<T>, i: nat)
    requires i < |a| + |b| + |c| + |d| + |e|
    ensures var r := a + b + c + d + e;
      var i1 := |a|; var i2 := i1 + |b|; var i3 := i2 + |c|; var i4 := i3 + |d|;
      (i < i1 ==> r[i] == a[i]) && (i1 <= i < i2 ==> r[i] == b[i - i1]) &&
      (i2 <= i < i3 ==> r[i] == c[i - i2]) && (i3 <= i < i4 ==> r[i] == d[i - i3]) &&
      (i4 <= i ==> r[i] == e[i - i4])
  {
  }

  /** How many values the emitted scan returns: cotangents for the pure
      consts, the carry, and the pure linear scanned operands. */
  function NumTransposedOuts(mutable: seq<bool>, numConsts: nat, numCarry: nat, p: Pattern): nat
    requires p.numIres <= numConsts && numConsts + numCarry + p.numEres <= |mutable|
  {
    var constMut := mutable[p.numIres..numConsts];
    var xsMut := mutable[numConsts + numCarry..|mutable| - p.numEres];
    (|constMut| - Count(constMut)) + numCarry + (|xsMut| - Count(xsMut))
  }

  /** The list `_scan_transpose` returns: `None` for every residual and for
      every mutable operand (whose cotangent was accumulated in place), the
      emitted scan's outputs in order everywhere else. */
  function TransposeResult<T>(linear: seq<bool>, numConsts: nat, numCarry: nat,
                              mutable: seq<bool>, outs: seq<T>): (r: seq<Option<T>>)
    requires numConsts + numCarry <= |linear|
    requires |mutable| == |linear|
    requires TransposeCheck(linear, numConsts, numCarry).Ok?
    requires |outs| == NumTransposedOuts(mutable, numConsts, numCarry,
                                         TransposeCheck(linear, numConsts, numCarry).value)
    ensures |r| == |linear|
  {
    var p := TransposeCheck(linear, numConsts, numCarry).value;
    Assemble(p.numIres, mutable[p.numIres..numConsts], numCarry,
             mutable[numConsts + numCarry..|linear| - p.numEres], p.numEres, outs)
  }

  /** The position-wise statement for a tuple already split into its
      residual counts. */
  lemma AssembleAtOperand<T>(linear: seq<bool>, numConsts: nat, numCarry: nat, mutable: seq<bool>,
                             numIres: nat, numEres: nat, outs: seq<T>, i: nat)
    requires numIres <= numConsts && numConsts + numCarry + numEres <= |linear| == |mutable|
    requires |outs| == NumTransposedOuts(mutable, numConsts, numCarry, Pattern(numIres, numEres))
    requires i < |linear|
    requires i < numConsts ==> (linear[i] <==> i >= numIres)
    requires numConsts + numCarry <= i ==> (linear[i] <==> i < |linear| - numEres)
    ensures Assemble(numIres, mutable[numIres..numConsts], numCarry,
                     mutable[numConsts + numCarry..|linear| - numEres], numEres, outs)[i].Some? <==>
      (numConsts <= i < numConsts + numCarry) || (linear[i] && !mutable[i])
  {
    var constMut := mutable[numIres..numConsts];
    var xsMut := mutable[numConsts + numCarry..|linear| - numEres];
    AssembleAt(numIres, constMut, numCarry, xsMut, numEres, outs, i);
    if numIres <= i < numConsts {
      assert constMut[i - numIres] == mutable[i];
    } else if numConsts + numCarry <= i < |linear| - numEres {
      assert xsMut[i - numConsts - numCarry] == mutable[i];
    }
  }

  /** A returned cotangent is present exactly at the carry and at the linear
      operands that are not mutable references. */
  lemma TransposeResultAt<T>(linear: seq<bool>, numConsts: nat, numCarry: nat,
                             mutable: seq<bool>, outs: seq<T>, i: nat)
    requires numConsts + numCarry <= |linear|
    requires |mutable| == |linear|
    requires TransposeCheck(linear, numConsts, numCarry).Ok?
    requires |outs| == NumTransposedOuts(mutable, numConsts, numCarry,
                                         TransposeCheck(linear, numConsts, numCarry).value)
    requires i < |linear|
    ensures TransposeResult(linear, numConsts, numCarry, mutable, outs)[i].Some? <==>
      (numConsts <= i < numConsts + numCarry) || (linear[i] && !mutable[i])
  {
    var p := TransposeCheck(linear, numConsts, numCarry).value;
    TransposeCheckAt(linear, numConsts, numCarry, i);
    AssembleAtOperand(linear, numConsts, numCarry, mutable, p.numIres, p.numEres, outs, i);
  }
}
