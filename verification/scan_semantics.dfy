/** What a `scan` computes, over an abstract step function `f(carry, x) ==
    (carry', y)`: the reference fold, the eager loop run under
    `disable_jit`, the unrolled implementation `_scan_impl`, and `fori_loop`
    built on top of either `scan` or a while loop. The closed-over consts of
    the body are part of `f`. */
module ScanSemantics {
  import opened Lists
  import opened Results
  import ScanParams

  /** Forward scan: a left fold over `xs`, collecting one output per step. */
  function ScanFwd<C, X, Y>(f: (C, X) -> (C, Y), c: C, xs: seq<X>): (r: (C, seq<Y>))
    ensures |r.1| == |xs|
  {
    if |xs| == 0 then (c, [])
    else
      var (c1, ys) := ScanFwd(f, c, xs[..|xs| - 1]);
      var (c2, y) := f(c1, xs[|xs| - 1]);
      (c2, ys + [y])
  }

  /** Reverse scan: the fold visits `xs` from the last element to the first,
      and output `k` is the one produced from `xs[k]`. */
  function ScanRev<C, X, Y>(f: (C, X) -> (C, Y), c: C, xs: seq<X>): (r: (C, seq<Y>))
    ensures |r.1| == |xs|
  {
    if |xs| == 0 then (c, [])
    else
      var (c1, ys) := ScanRev(f, c, xs[1..]);
      var (c2, y) := f(c1, xs[0]);
      (c2, [y] + ys)
  }

  function Scan<C, X, Y>(f: (C, X) -> (C, Y), c: C, xs: seq<X>, reverse: bool): (C, seq<Y>) {
    if reverse then ScanRev(f, c, xs) else ScanFwd(f, c, xs)
  }

  /** Scanning a concatenation scans the halves one after the other. */
  lemma {:induction false} ScanFwdAppend<C, X, Y>(f: (C, X) -> (C, Y), c: C, a: seq<X>, b: seq<X>)
    ensures ScanFwd(f, c, a + b).0 == ScanFwd(f, ScanFwd(f, c, a).0, b).0
    ensures ScanFwd(f, c, a + b).1 == ScanFwd(f, c, a).1 + ScanFwd(f, ScanFwd(f, c, a).0, b).1
    decreases |b|
  {
    var ra := ScanFwd(f, c, a);
    if |b| == 0 {
      assert a + b == a;
      assert ScanFwd(f, ra.0, b) == (ra.0, []);
    } else {
      var b' := b[..|b| - 1];
      var x := b[|b| - 1];
      assert (a + b)[..|a + b| - 1] == a + b';
      assert (a + b)[|a + b| - 1] == x;
      ScanFwdAppend(f, c, a, b');
      var rb' := ScanFwd(f, ra.0, b');
      var step := f(rb'.0, x);
      assert ScanFwd(f, ra.0, b) == (step.0, rb'.1 + [step.1]);
      assert ScanFwd(f, c, a + b) == (step.0, (ra.1 + rb'.1) + [step.1]);
      assert (ra.1 + rb'.1) + [step.1] == ra.1 + (rb'.1 + [step.1]);
    }
  }

  /** Reverse-scanning a concatenation scans the second half first. */
  lemma {:induction false} ScanRevAppend<C, X, Y>(f: (C, X) -> (C, Y), c: C, a: seq<X>, b: seq<X>)
    ensures ScanRev(f, c, a + b).0 == ScanRev(f, ScanRev(f, c, b).0, a).0
    ensures ScanRev(f, c, a + b).1 == ScanRev(f, ScanRev(f, c, b).0, a).1 + ScanRev(f, c, b).1
    decreases |a|
  {
    var rb := ScanRev(f, c, b);
    if |a| == 0 {
      assert a + b == b;
      assert ScanRev(f, rb.0, a) == (rb.0, []);
    } else {
      assert (a + b)[1..] == a[1..] + b;
      assert (a + b)[0] == a[0];
      ScanRevAppend(f, c, a[1..], b);
      var ra' := ScanRev(f, rb.0, a[1..]);
      var step := f(ra'.0, a[0]);
      assert ScanRev(f, rb.0, a) == (step.0, [step.1] + ra'.1);
      assert ScanRev(f, c, a + b) == (step.0, [step.1] + (ra'.1 + rb.1));
      assert [step.1] + (ra'.1 + rb.1) == ([step.1] + ra'.1) + rb.1;
    }
  }

  lemma ReverseInit<T>(xs: seq<T>)
    requires |xs| > 0
    ensures Reverse(xs)[..|xs| - 1] == Reverse(xs[1..])
    ensures Reverse(xs)[|xs| - 1] == xs[0]
  {
  }

  lemma ReverseCons<T>(y: T, ys: seq<T>)
    ensures Reverse([y] + ys) == Reverse(ys) + [y]
  {
  }

  /** The reverse scan is the forward scan of the reversed input, with the
      outputs put back in input order: the `reverse=True` contract of the
      documentation. */
  lemma {:induction false} ScanRevIsReversedFwd<C, X, Y>(f: (C, X) -> (C, Y), c: C, xs: seq<X>)
    ensures ScanRev(f, c, xs).0 == ScanFwd(f, c, Reverse(xs)).0
    ensures ScanRev(f, c, xs).1 == Reverse(ScanFwd(f, c, Reverse(xs)).1)
    decreases |xs|
  {
    if |xs| > 0 {
      ReverseInit(xs);
      ScanRevIsReversedFwd(f, c, xs[1..]);
      var (c1, ys) := ScanRev(f, c, xs[1..]);
      var (c2, y) := f(c1, xs[0]);
      ReverseCons(y, ys);
      ReverseReverse(ScanFwd(f, c, Reverse(xs[1..])).1);
      ReverseReverse(ScanRev(f, c, xs).1);
    }
  }

  /** The eager loop: `for i in maybe_reversed(range(n))`, appending each
      output, then reversing the outputs back when `reverse` is set. The
      `inner` helper of `_scan_impl` is the same loop. */
  method InnerLoop<C, X, Y>(f: (C, X) -> (C, Y), c0: C, xs: seq<X>, reverse: bool) returns (c: C, ys: seq<Y>)
    ensures (c, ys) == Scan(f, c0, xs, reverse)
  {
    var n := |xs|;
    c := c0;
    var acc: seq<Y> := [];
    for k := 0 to n
      invariant !reverse ==> (c, acc) == ScanFwd(f, c0, xs[..k])
      invariant reverse ==> c == ScanRev(f, c0, xs[n - k..]).0 && acc == Reverse(ScanRev(f, c0, xs[n - k..]).1)
    {
      var i := if reverse then n - k - 1 else k;
      var step := f(c, xs[i]);
      if reverse {
        assert xs[n - k - 1..][1..] == xs[n - k..];
        ReverseCons(step.1, ScanRev(f, c0, xs[n - k..]).1);
      } else {
        assert xs[..k + 1][..k] == xs[..k];
      }
      c := step.0;
      acc := acc + [step.1];
    }
    if reverse {
      assert xs[n - n..] == xs;
      ReverseReverse(ScanRev(f, c0, xs).1);
      ys := Reverse(acc);
    } else {
      assert xs[..n] == xs;
      ys := acc;
    }
  }

  /** `scan` under `disable_jit`: a zero-length scan is rejected because
      its output type is unknown; otherwise the eager loop. */
  method DisableJitScan<C, X, Y>(f: (C, X) -> (C, Y), init: C, xs: seq<X>, reverse: bool) returns (r: Result<(C, seq<Y>)>)
    ensures r.Err? <==> |xs| == 0
    ensures r.Ok? ==> r.value == Scan(f, init, xs, reverse) && |r.value.1| == |xs|
  {
    if |xs| == 0 {
      return Err(ValueError);
    }
    var c, ys := InnerLoop(f, init, xs, reverse);
    return Ok((c, ys));
  }

  /** `lax.reshape(x, (num_trips, unroll, ...))`: consecutive blocks of
      `unroll` elements. */
  function Blocks<X>(xs: seq<X>, numTrips: nat, unroll: nat): (r: seq<seq<X>>)
    requires |xs| == numTrips * unroll
    ensures |r| == numTrips
    ensures Flatten(r) == xs
    decreases numTrips
  {
    if numTrips == 0 then []
    else
      assert |xs[unroll..]| == (numTrips - 1) * unroll;
      [xs[..unroll]] + Blocks(xs[unroll..], numTrips - 1, unroll)
  }

  /** The rolled part of `_scan_impl`: one while-loop iteration per block,
      each running the unrolled steps of its block; in reverse, iteration
      `i_` takes block `num_trips - i_ - 1`. Writing each block's outputs at
      its index is appending (or, in reverse, prepending) them. */
  method RolledTrips<C, X, Y>(f: (C, X) -> (C, Y), c0: C, xss: seq<seq<X>>, reverse: bool)
      returns (c: C, ys: seq<Y>)
    ensures (c, ys) == Scan(f, c0, Flatten(xss), reverse)
  {
    var numTrips := |xss|;
    c, ys := c0, [];
    for t := 0 to numTrips
      invariant !reverse ==> (c, ys) == ScanFwd(f, c0, Flatten(xss[..t]))
      invariant reverse ==> (c, ys) == ScanRev(f, c0, Flatten(xss[numTrips - t..]))
    {
      var i := if reverse then numTrips - t - 1 else t;
      var c', blockYs := InnerLoop(f, c, xss[i], reverse);
      if reverse {
        var rest := xss[numTrips - t..];
        assert xss[i..] == [xss[i]] + rest;
        FlattenAppend([xss[i]], rest);
        assert Flatten([xss[i]]) == xss[i];
        ScanRevAppend(f, c0, xss[i], Flatten(rest));
        ys := blockYs + ys;
      } else {
        assert xss[..t + 1] == xss[..t] + [xss[t]];
        FlattenAppend(xss[..t], [xss[t]]);
        assert Flatten([xss[t]]) == xss[t];
        ScanFwdAppend(f, c0, Flatten(xss[..t]), xss[t]);
        ys := ys + blockYs;
      }
      c := c';
    }
    assert xss[..numTrips] == xss && xss[numTrips - numTrips..] == xss;
  }

  /** `_scan_impl`: `num_trips` rolled iterations of `unroll` unrolled steps,
      plus a remainder block. Going forward the remainder is the tail of the
      input; in reverse it is the head, and the rolled iterations run from the
      last block down. The result is the reference scan for every
      `unroll >= 1`. */
  method ScanImpl<C, X, Y>(f: (C, X) -> (C, Y), init: C, xs: seq<X>, reverse: bool, unroll: nat) returns (c: C, ys: seq<Y>)
    requires unroll >= 1
    ensures (c, ys) == Scan(f, init, xs, reverse)
  {
    var (numTrips, remainder) := ScanParams.ImplSplit(|xs|, unroll);
    var split := numTrips * unroll;
    var blocks: seq<X>, rem: seq<X>;
    if !reverse {
      blocks, rem := xs[..split], xs[split..];
      assert xs == blocks + rem;
      ScanFwdAppend(f, init, blocks, rem);
    } else {
      rem, blocks := xs[..remainder], xs[remainder..];
      assert xs == rem + blocks;
      ScanRevAppend(f, init, rem, blocks);
    }
    c, ys := RolledTrips(f, init, Blocks(blocks, numTrips, unroll), reverse);
    if remainder > 0 {
      var c', ysRem := InnerLoop(f, c, rem, reverse);
      c := c';
      ys := if reverse then ysRem + ys else ys + ysRem;
    } else {
      assert rem == [];
      assert Scan(f, c, rem, reverse) == (c, []);
      assert ys + [] == ys && [] + ys == ys;
    }
  }

  // ----- fori_loop -----

  /** `for i in range(lower, upper): val = body_fun(i, val)`. */
  function ForiRef<A>(lower: int, upper: int, body: (int, A) -> A, val: A): A
    decreases upper - lower
  {
    if lower >= upper then val else ForiRef(lower + 1, upper, body, body(lower, val))
  }

  lemma {:induction false} ForiRefSnoc<A>(lower: int, upper: int, body: (int, A) -> A, val: A)
    requires lower <= upper
    ensures ForiRef(lower, upper + 1, body, val) == body(upper, ForiRef(lower, upper, body, val))
    decreases upper - lower
  {
    if lower < upper {
      ForiRefSnoc(lower + 1, upper, body, body(lower, val));
    }
  }

  /** `_fori_scan_body_fun`: the scan carries `(i, val)` and steps it to
      `(i + 1, body_fun(i, val))`, with nothing scanned over. */
  function ForiScanBody<A>(body: (int, A) -> A): ((int, A), ()) -> ((int, A), ()) {
    (c: (int, A), u: ()) => ((c.0 + 1, body(c.0, c.1)), ())
  }

  /** After `n` scan steps the counter has advanced by `n` and the value is the
      reference loop's. */
  lemma {:induction false} ForiScanIsFori<A>(lower: int, body: (int, A) -> A, val: A, n: nat)
    ensures ScanFwd(ForiScanBody(body), (lower, val), Repeat((), n)).0 == (lower + n, ForiRef(lower, lower + n, body, val))
  {
    if n > 0 {
      assert Repeat((), n)[..n - 1] == Repeat((), n - 1);
      ForiScanIsFori(lower, body, val, n - 1);
      ForiRefSnoc(lower, lower + n - 1, body, val);
    }
  }

  /** `_fori_body_fun` under `while_loop(_fori_cond_fun, ...)`: the carry
      `(i, upper, val)` steps while `i < upper`. */
  method ForiWhile<A>(lower: int, upper: int, body: (int, A) -> A, init: A) returns (val: A)
    ensures val == ForiRef(lower, upper, body, init)
  {
    var i := lower;
    val := init;
    while i < upper
      invariant (if lower <= upper then lower <= i <= upper else i == lower)
      invariant ForiRef(i, upper, body, val) == ForiRef(lower, upper, body, init)
      decreases upper - i
    {
      val := body(i, val);
      i := i + 1;
    }
  }

  /** `fori_loop`. With concrete bounds it runs a scan of length
      `max(upper - lower, 0)`; otherwise a while loop, which accepts no
      `unroll` other than `False`, `1` or (since `True != 1` is false in
      Python) `True`. Under `disable_jit` the scan is the eager Python loop,
      which returns before `unroll` is looked at (an empty eager loop returns
      `init` outright), so only a compiled scan rejects an integer `unroll`
      below 1. */
  method Fori<A>(lower: int, upper: int, body: (int, A) -> A, init: A,
                 concreteBounds: bool, unroll: Option<ScanParams.Unroll>, disableJit: bool) returns (r: Result<A>)
    ensures r.Ok? ==> r.value == ForiRef(lower, upper, body, init)
    ensures r.Err? <==>
      if concreteBounds then
        !disableJit && unroll.Some? && unroll.value.UnrollInt? && unroll.value.n < 1
      else unroll.Some? && unroll.value.UnrollInt? && unroll.value.n != 1
    ensures r.Err? ==> r.error == ValueError
  {
    if concreteBounds {
      var length: nat := if upper - lower > 0 then upper - lower else 0;
      var xs := Repeat((), length);
      var c: (int, A);
      if disableJit {
        if length == 0 {
          assert ForiRef(lower, upper, body, init) == init;
          return Ok(init);
        }
        var s := DisableJitScan(ForiScanBody(body), (lower, init), xs, false);
        c := s.value.0;
      } else {
        var u := if unroll.None? then ScanParams.UnrollBool(false) else unroll.value;
        var un := ScanParams.NormaliseUnroll(u, length);
        if un.Err? {
          return Err(ValueError);
        }
        var ys;
        c, ys := ScanImpl(ForiScanBody(body), (lower, init), xs, false, un.value);
      }
      ForiScanIsFori(lower, body, init, length);
      if lower >= upper {
        assert ForiRef(lower, upper, body, init) == init;
      }
      return Ok(c.1);
    }
    if unroll.Some? && unroll.value.UnrollInt? && unroll.value.n != 1 {
      return Err(ValueError);
    }
    var v := ForiWhile(lower, upper, body, init);
    return Ok(v);
  }
}
