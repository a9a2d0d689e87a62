/** The forwarding optimisations of the `scan` front end. A carry that the
    body returns unchanged is read-only, so it is turned into a const before
    the loop is bound and merged back into the outputs afterwards; a stacked
    output that is one of the scanned inputs is dropped from the loop and
    taken from the input directly. Both must leave every output as it would
    be without the optimisation. */
module LoopForwarding {
  import opened Lists
  import opened Results
  import opened ScanSemantics

  /** A loop body over flat values: `consts ++ carry ++ x` in,
      `carry ++ y` out. */
  type Body<!V> = seq<V> -> seq<V>

  /** `fwd[k] == Some(i)`: output `k` is input `i`. */
  ghost predicate ForwardsAt<V>(out: seq<V>, ins: seq<V>, fwd: seq<Option<nat>>) {
    |out| == |fwd| &&
    forall k :: 0 <= k < |fwd| && fwd[k].Some? ==> fwd[k].value < |ins| && out[k] == ins[fwd[k].value]
  }

  /** What `pe._jaxpr_forwarding` reports about a body: one entry per
      output, holding for every input list of the body's arity. */
  ghost predicate Forwards<V(!new)>(body: Body<V>, numIn: nat, fwd: seq<Option<nat>>) {
    (forall k :: 0 <= k < |fwd| && fwd[k].Some? ==> fwd[k].value < numIn) &&
    forall ins: seq<V> {:trigger ForwardsAt(body(ins), ins, fwd)} :: |ins| == numIn ==> ForwardsAt(body(ins), ins, fwd)
  }

  /** One iteration of a bound scan: the carry is the first `numCarry`
      outputs. */
  function Step<V>(body: Body<V>, consts: seq<V>, numCarry: nat): (seq<V>, seq<V>) -> (seq<V>, seq<V>) {
    (c: seq<V>, x: seq<V>) => SplitAt(body(consts + c + x), numCarry)
  }

  /** `move_to_const`: carry `i` is forwarded from its own input, which sits
      after the `numConsts` consts. */
  function MoveFlags(carryFwd: seq<Option<nat>>, numConsts: nat): (m: seq<bool>)
    ensures |m| == |carryFwd|
    ensures forall i :: 0 <= i < |m| ==> (m[i] <==> carryFwd[i] == Some(numConsts + i))
  {
    seq(|carryFwd|, i requires 0 <= i < |carryFwd| => carryFwd[i] == Some(numConsts + i))
  }

  /** The body after `prune_closed_jaxpr_outputs` drops the moved carry
      outputs and `move_binders_to_front` puts the moved carry inputs first:
      `moved ++ consts ++ kept ++ x` in, `kept ++ y` out. Inputs of another
      arity are not given to it. */
  function MovedBody<V>(body: Body<V>, m: seq<bool>, numConsts: nat): Body<V> {
    (ins: seq<V>) => RunMoved(body, m, numConsts, ins)
  }

  function RunMoved<V>(body: Body<V>, m: seq<bool>, numConsts: nat, ins: seq<V>): seq<V> {
    var k := Count(m);
    var nk := |m| - k;
    if |ins| < k + numConsts + nk then []
    else
      var out := body(ins[k..k + numConsts] + Merge(m, ins[k + numConsts..k + numConsts + nk], ins[..k]) +
                      ins[k + numConsts + nk..]);
      var (co, ys) := SplitAt(out, |m|);
      if |co| == |m| then Partition(m, co).0 + ys else []
  }

  /** The carry half of the `scan` front end: with no carry to move the scan
      is bound as is; otherwise the moved carries become leading consts, the
      loop runs on the rest, and `merge_lists` puts the moved values back at
      their carry positions (its count check is the `Err` case). */
  function ForwardCarries<V>(body: Body<V>, consts: seq<V>, init: seq<V>, xs: seq<seq<V>>,
                             carryFwd: seq<Option<nat>>, reverse: bool): (r: Result<(seq<V>, seq<seq<V>>)>)
    requires |carryFwd| == |init|
    ensures r.Ok? ==> |r.value.1| == |xs|
  {
    var m := MoveFlags(carryFwd, |consts|);
    if Count(m) == 0 then Ok(Scan(Step(body, consts, |init|), init, xs, reverse))
    else
      var (kept, moved) := Partition(m, init);
      var (c, ys) := Scan(Step(MovedBody(body, m, |consts|), moved + consts, |kept|), kept, xs, reverse);
      ScanLength(Step(MovedBody(body, m, |consts|), moved + consts, |kept|), kept, xs, reverse);
      if |c| != |kept| then Err(AssertionFailure) else Ok((Merge(m, c, moved), ys))
  }

  lemma ScanLength<C, X, Y>(f: (C, X) -> (C, Y), c: C, xs: seq<X>, reverse: bool)
    ensures |Scan(f, c, xs, reverse).1| == |xs|
  {
  }

  /** `g` simulates `f` through `h`: one step of `f` from `h(e)` is `h` of
      one step of `g` from `e`, with the same output. */
  ghost predicate Commutes<C, D(!new), X(!new), Y>(f: (C, X) -> (C, Y), g: (D, X) -> (D, Y), h: D -> C,
                                       dom: D -> bool, ok: X -> bool) {
    forall e: D, x: X :: dom(e) && ok(x) ==>
      dom(g(e, x).0) && f(h(e), x) == (h(g(e, x).0), g(e, x).1)
  }

  lemma {:induction false} ScanFwdCommutes<C, D(!new), X(!new), Y>(f: (C, X) -> (C, Y), g: (D, X) -> (D, Y), h: D -> C,
                                                       dom: D -> bool, ok: X -> bool, d: D, xs: seq<X>)
    requires Commutes(f, g, h, dom, ok)
    requires dom(d) && forall t :: 0 <= t < |xs| ==> ok(xs[t])
    ensures dom(ScanFwd(g, d, xs).0)
    ensures ScanFwd(f, h(d), xs) == (h(ScanFwd(g, d, xs).0), ScanFwd(g, d, xs).1)
    decreases |xs|
  {
    if |xs| > 0 {
      var front := xs[..|xs| - 1];
      var x := xs[|xs| - 1];
      ScanFwdCommutes(f, g, h, dom, ok, d, front);
      var rg := ScanFwd(g, d, front);
      assert ok(x);
      assert dom(rg.0);
      var sg := g(rg.0, x);
      assert f(h(rg.0), x) == (h(sg.0), sg.1);
    }
  }

  /** Scans of `f` and of a simulating `g` agree through `h`, in either
      direction. */
  lemma ScanCommutes<C, D(!new), X(!new), Y>(f: (C, X) -> (C, Y), g: (D, X) -> (D, Y), h: D -> C,
                                 dom: D -> bool, ok: X -> bool, d: D, xs: seq<X>, reverse: bool)
    requires Commutes(f, g, h, dom, ok)
    requires dom(d) && forall t :: 0 <= t < |xs| ==> ok(xs[t])
    ensures dom(Scan(g, d, xs, reverse).0)
    ensures Scan(f, h(d), xs, reverse) == (h(Scan(g, d, xs, reverse).0), Scan(g, d, xs, reverse).1)
  {
    if reverse {
      var rx := Reverse(xs);
      ScanFwdCommutes(f, g, h, dom, ok, d, rx);
      ScanRevIsReversedFwd(f, h(d), xs);
      ScanRevIsReversedFwd(g, d, xs);
    } else {
      ScanFwdCommutes(f, g, h, dom, ok, d, xs);
    }
  }

  /** Two carry vectors that agree on the flagged positions have the same
      flagged part. */
  lemma {:induction false} PartitionAgrees<T>(m: seq<bool>, a: seq<T>, b: seq<T>)
    requires |a| == |m| && |b| == |m|
    requires forall i :: 0 <= i < |m| && m[i] ==> a[i] == b[i]
    ensures Partition(m, a).1 == Partition(m, b).1
  {
    if |m| > 0 {
      PartitionAgrees(m[1..], a[1..], b[1..]);
    }
  }

  /** Putting the moved carries back: the map from the loop's carry to the
      original carry. */
  function Restore<V>(m: seq<bool>, moved: seq<V>): seq<V> -> seq<V>
    requires |moved| == Count(m)
  {
    (e: seq<V>) => if |e| == |m| - Count(m) then Merge(m, e, moved) else []
  }

  lemma Slices4<V>(a: seq<V>, b: seq<V>, c: seq<V>, d: seq<V>)
    ensures var s := a + b + c + d;
            s[..|a|] == a && s[|a|..|a| + |b|] == b && s[|a| + |b|..|a| + |b| + |c|] == c &&
            s[|a| + |b| + |c|..] == d
  {
    var s := a + b + c + d;
    assert s[..|a|] == a;
    assert s[|a|..|a| + |b|] == b;
    assert s[|a| + |b|..|a| + |b| + |c|] == c;
    assert s[|a| + |b| + |c|..] == d;
  }

  /** On an input list of its arity, the moved body rebuilds the original
      body's input and returns the kept carry outputs and the stacked
      outputs. */
  lemma MovedBodyOn<V>(body: Body<V>, m: seq<bool>, moved: seq<V>, consts: seq<V>, e: seq<V>, x: seq<V>)
    requires |moved| == Count(m) && |e| == |m| - Count(m)
    requires |body(consts + Merge(m, e, moved) + x)| >= |m|
    ensures var out := body(consts + Merge(m, e, moved) + x);
            MovedBody(body, m, |consts|)(moved + consts + e + x) ==
              Partition(m, out[..|m|]).0 + out[|m|..]
  {
    var ins := moved + consts + e + x;
    Slices4(moved, consts, e, x);
    var k := |moved|;
    var nc := |consts|;
    var nk := |e|;
    assert ins[k..k + nc] == consts;
    assert ins[k + nc..k + nc + nk] == e;
    assert ins[..k] == moved;
    assert ins[k + nc + nk..] == x;
    var out := body(consts + Merge(m, e, moved) + x);
    assert SplitAt(out, |m|) == (out[..|m|], out[|m|..]);
    assert RunMoved(body, m, nc, ins) == Partition(m, out[..|m|]).0 + out[|m|..];
  }

  /** The moved carry outputs are the moved carry inputs. */
  lemma MovedOutputsUnchanged<V>(m: seq<bool>, co: seq<V>, e: seq<V>, moved: seq<V>)
    requires |moved| == Count(m) && |e| == |m| - Count(m) && |co| == |m|
    requires forall i :: 0 <= i < |m| && m[i] ==> co[i] == Merge(m, e, moved)[i]
    ensures Merge(m, Partition(m, co).0, moved) == co
  {
    PartitionAgrees(m, co, Merge(m, e, moved));
    PartitionMerge(m, e, moved);
    MergePartition(m, co);
  }

  /** One step of the moved body simulates one step of the original body,
      because every moved carry output equals its input. */
  lemma StepCommutes<V(!new)>(body: Body<V>, consts: seq<V>, init: seq<V>, carryFwd: seq<Option<nat>>,
                              extFwd: seq<Option<nat>>, numXs: nat, e: seq<V>, x: seq<V>)
    requires |carryFwd| == |init|
    requires Forwards(body, |consts| + |init| + numXs, carryFwd + extFwd)
    requires var m := MoveFlags(carryFwd, |consts|);
             |e| == |m| - Count(m) && |x| == numXs
    ensures var m := MoveFlags(carryFwd, |consts|);
            var moved := Partition(m, init).1;
            var f := Step(body, consts, |init|);
            var g := Step(MovedBody(body, m, |consts|), moved + consts, |m| - Count(m));
            var h := Restore(m, moved);
            |g(e, x).0| == |m| - Count(m) && f(h(e), x) == (h(g(e, x).0), g(e, x).1)
  {
    var m := MoveFlags(carryFwd, |consts|);
    var n := |init|;
    var moved := Partition(m, init).1;
    var c := Merge(m, e, moved);
    var orig := consts + c + x;
    var out := body(orig);
    assert ForwardsAt(out, orig, carryFwd + extFwd);
    var co := out[..n];
    var ys := out[n..];
    forall i | 0 <= i < n && m[i] ensures co[i] == c[i] {
      assert (carryFwd + extFwd)[i] == Some(|consts| + i);
      assert orig[|consts| + i] == c[i];
    }
    MovedOutputsUnchanged(m, co, e, moved);
    MovedBodyOn(body, m, moved, consts, e, x);
    var kept := Partition(m, co).0;
    assert (kept + ys)[..|kept|] == kept && (kept + ys)[|kept|..] == ys;
  }

  /** Moving read-only carries to consts and merging them back changes
      nothing: the forwarded scan returns the final carry and the stacked
      outputs of the scan as written. */
  lemma ForwardingPreservesScan<V(!new)>(body: Body<V>, consts: seq<V>, init: seq<V>, xs: seq<seq<V>>,
                                         carryFwd: seq<Option<nat>>, extFwd: seq<Option<nat>>,
                                         numXs: nat, reverse: bool)
    requires |carryFwd| == |init|
    requires Forwards(body, |consts| + |init| + numXs, carryFwd + extFwd)
    requires forall t :: 0 <= t < |xs| ==> |xs[t]| == numXs
    ensures ForwardCarries(body, consts, init, xs, carryFwd, reverse) ==
            Ok(Scan(Step(body, consts, |init|), init, xs, reverse))
  {
    var m := MoveFlags(carryFwd, |consts|);
    if Count(m) > 0 {
      var (kept, moved) := Partition(m, init);
      var nk := |m| - Count(m);
      var f := Step(body, consts, |init|);
      var g := Step(MovedBody(body, m, |consts|), moved + consts, nk);
      var h := Restore(m, moved);
      var dom := (e: seq<V>) => |e| == nk;
      var ok := (x: seq<V>) => |x| == numXs;
      forall e: seq<V>, x: seq<V> | dom(e) && ok(x)
        ensures dom(g(e, x).0) && f(h(e), x) == (h(g(e, x).0), g(e, x).1)
      {
        StepCommutes(body, consts, init, carryFwd, extFwd, numXs, e, x);
      }
      assert Commutes(f, g, h, dom, ok);
      ScanCommutes(f, g, h, dom, ok, kept, xs, reverse);
      MergePartition(m, init);
      assert h(kept) == init;
    }
  }

  /** `merge_lists(move_to_const + [False] * num_ys, carry + ys, moved)`:
      padding the flags with unset entries leaves the stacked outputs after
      the merged carry. */
  lemma {:induction false} MergePadded<T>(m: seq<bool>, a: seq<T>, b: seq<T>, moved: seq<T>)
    requires |a| == |m| - Count(m) && |moved| == Count(m)
    ensures Count(m + Repeat(false, |b|)) == Count(m)
    ensures Merge(m + Repeat(false, |b|), a + b, moved) == Merge(m, a, moved) + b
  {
    var pad := Repeat(false, |b|);
    CountAppend(m, pad);
    CountRepeat(false, |b|);
    if |m| == 0 {
      assert m + pad == pad;
      assert a + b == b;
      MergeNoFlags(pad, b, moved);
    } else {
      var mp := m + pad;
      assert mp[0] == m[0];
      assert mp[1..] == m[1..] + pad;
      if m[0] {
        MergePadded(m[1..], a, b, moved[1..]);
        assert Merge(mp, a + b, moved) == [moved[0]] + Merge(m[1..], a, moved[1..]) + b;
      } else {
        assert (a + b)[1..] == a[1..] + b;
        assert (a + b)[0] == a[0];
        MergePadded(m[1..], a[1..], b, moved);
        assert Merge(mp, a + b, moved) == [a[0]] + Merge(m[1..], a[1..], moved) + b;
      }
    }
  }

  lemma {:induction false} MergeNoFlags<T>(m: seq<bool>, a: seq<T>, moved: seq<T>)
    requires forall i :: 0 <= i < |m| ==> !m[i]
    requires |a| == |m| && |moved| == 0
    ensures Count(m) == 0
    ensures Merge(m, a, moved) == a
  {
    if |m| > 0 {
      MergeNoFlags(m[1..], a[1..], moved);
    }
  }

  // ----- extensive outputs forwarded from extensive inputs -----

  /** `ext_to_ext_fwd`, computed after the carry move from the new const
      and carry counts: a stacked output forwarded from a scanned input is
      replaced by that input's position among the non-const operands. */
  function ExtToExt(extFwd: seq<Option<nat>>, numConsts: nat, numCarry: nat): (r: seq<Option<nat>>)
    ensures |r| == |extFwd|
    ensures forall j :: 0 <= j < |r| ==>
      (r[j].Some? <==> extFwd[j].Some? && extFwd[j].value >= numConsts + numCarry)
    ensures forall j :: 0 <= j < |r| && r[j].Some? ==> r[j].value + numConsts == extFwd[j].value
  {
    seq(|extFwd|, j requires 0 <= j < |extFwd| =>
      if extFwd[j].Some? && extFwd[j].value >= numCarry + numConsts
      then Some(extFwd[j].value - numConsts) else None)
  }

  /** The carry move shifts count from carry to consts without changing
      their sum, so the forwarded index still names the same scanned
      operand: the reason the source does not re-index. */
  lemma ExtIndexSurvivesMove<A>(extFwd: seq<Option<nat>>, numConsts: nat, numCarry: nat, moved: nat,
                                kept: seq<A>, xsOps: seq<A>, j: nat)
    requires moved <= numCarry && |kept| == numCarry - moved
    requires j < |extFwd|
    requires ExtToExt(extFwd, numConsts + moved, numCarry - moved)[j].Some?
    ensures ExtToExt(extFwd, numConsts, numCarry)[j].Some?
    ensures var f := ExtToExt(extFwd, numConsts + moved, numCarry - moved)[j].value;
            var i := extFwd[j].value;
            f < |kept| + |xsOps| <==> i - numConsts - numCarry < |xsOps|
    ensures var f := ExtToExt(extFwd, numConsts + moved, numCarry - moved)[j].value;
            var i := extFwd[j].value;
            f < |kept| + |xsOps| ==> (kept + xsOps)[f] == xsOps[i - numConsts - numCarry]
  {
  }

  /** `prune_closed_jaxpr_outputs(jaxpr, [i is None for i in fwd])`: the
      stacked outputs the loop still computes. */
  function Prune<A>(fwd: seq<Option<nat>>, full: seq<A>): (r: seq<A>)
    requires |full| == |fwd|
    ensures |r| <= |full|
  {
    if |fwd| == 0 then []
    else if fwd[0].None? then [full[0]] + Prune(fwd[1..], full[1..])
    else Prune(fwd[1..], full[1..])
  }

  function NumNone(fwd: seq<Option<nat>>): nat {
    if |fwd| == 0 then 0 else (if fwd[0].None? then 1 else 0) + NumNone(fwd[1..])
  }

  /** The list comprehension over `ext_to_ext_fwd` that draws computed
      outputs from an iterator and forwarded ones from the operands, then
      asserts that the iterator is used up. */
  function Reassemble<A>(fwd: seq<Option<nat>>, outs: seq<A>, inFlat: seq<A>): (r: Result<seq<A>>)
    ensures r.Ok? ==> |r.value| == |fwd|
    ensures r.Ok? <==> |outs| == NumNone(fwd) &&
                       forall j :: 0 <= j < |fwd| && fwd[j].Some? ==> fwd[j].value < |inFlat|
    ensures r.Ok? ==> forall j :: 0 <= j < |fwd| && fwd[j].Some? ==> r.value[j] == inFlat[fwd[j].value]
  {
    if |fwd| == 0 then (if |outs| == 0 then Ok([]) else Err(AssertionFailure))
    else
      assert forall j :: 1 <= j < |fwd| ==> fwd[1..][j - 1] == fwd[j];
      match fwd[0]
      case None =>
        if |outs| == 0 then Err(StopIteration)
        else
          var rest :- Reassemble(fwd[1..], outs[1..], inFlat);
          Ok([outs[0]] + rest)
      case Some(f) =>
        if f >= |inFlat| then Err(IndexError)
        else
          var rest :- Reassemble(fwd[1..], outs, inFlat);
          Ok([inFlat[f]] + rest)
  }

  /** Pruning the forwarded outputs and drawing them back from the operands
      gives every output back in place, provided each forwarded output is
      the operand it names. */
  lemma {:induction false} PruneReassemble<A>(fwd: seq<Option<nat>>, full: seq<A>, inFlat: seq<A>)
    requires |full| == |fwd|
    requires forall j :: 0 <= j < |fwd| && fwd[j].Some? ==>
      fwd[j].value < |inFlat| && full[j] == inFlat[fwd[j].value]
    ensures Reassemble(fwd, Prune(fwd, full), inFlat) == Ok(full)
  {
    if |fwd| > 0 {
      assert forall j :: 1 <= j < |fwd| ==> fwd[1..][j - 1] == fwd[j] && full[1..][j - 1] == full[j];
      PruneReassemble(fwd[1..], full[1..], inFlat);
      assert full == [full[0]] + full[1..];
    }
  }

  /** What one iteration's stacked-output slice owes to its input slice:
      one value per output, and each output forwarded from a scanned input
      is that input's slice. */
  ghost predicate SliceForwarded<V>(extFwd: seq<Option<nat>>, offset: nat, x: seq<V>, y: seq<V>) {
    |y| == |extFwd| &&
    forall j :: 0 <= j < |extFwd| && extFwd[j].Some? && extFwd[j].value >= offset ==>
      extFwd[j].value - offset < |x| && y[j] == x[extFwd[j].value - offset]
  }

  /** One step of the scan honours the forwarding of its stacked outputs. */
  lemma StepSlices<V(!new)>(body: Body<V>, consts: seq<V>, carryFwd: seq<Option<nat>>, extFwd: seq<Option<nat>>,
                            numXs: nat, c: seq<V>, x: seq<V>)
    requires |c| == |carryFwd| && |x| == numXs
    requires Forwards(body, |consts| + |c| + numXs, carryFwd + extFwd)
    ensures |Step(body, consts, |c|)(c, x).0| == |c|
    ensures SliceForwarded(extFwd, |consts| + |c|, x, Step(body, consts, |c|)(c, x).1)
  {
    var n := |c|;
    var ins := consts + c + x;
    var out := body(ins);
    assert ForwardsAt(out, ins, carryFwd + extFwd);
    assert Step(body, consts, n)(c, x) == (out[..n], out[n..]);
    forall j | 0 <= j < |extFwd| && extFwd[j].Some? && extFwd[j].value >= |consts| + n
      ensures extFwd[j].value - (|consts| + n) < |x| && out[n..][j] == x[extFwd[j].value - (|consts| + n)]
    {
      assert (carryFwd + extFwd)[n + j] == extFwd[j];
      assert ins[extFwd[j].value] == x[extFwd[j].value - (|consts| + n)];
    }
  }

  /** Forward scan: every iteration's outputs forward that iteration's
      slices, and the carry keeps its length. */
  lemma {:induction false} SlicesFwd<V(!new)>(body: Body<V>, consts: seq<V>, carryFwd: seq<Option<nat>>,
                                            extFwd: seq<Option<nat>>, numXs: nat, c: seq<V>, xs: seq<seq<V>>)
    requires |c| == |carryFwd|
    requires Forwards(body, |consts| + |c| + numXs, carryFwd + extFwd)
    requires forall t :: 0 <= t < |xs| ==> |xs[t]| == numXs
    ensures |ScanFwd(Step(body, consts, |c|), c, xs).0| == |c|
    ensures forall t :: 0 <= t < |xs| ==>
      SliceForwarded(extFwd, |consts| + |c|, xs[t], ScanFwd(Step(body, consts, |c|), c, xs).1[t])
    decreases |xs|
  {
    if |xs| > 0 {
      var f := Step(body, consts, |c|);
      var front := xs[..|xs| - 1];
      SlicesFwd(body, consts, carryFwd, extFwd, numXs, c, front);
      var r := ScanFwd(f, c, front);
      StepSlices(body, consts, carryFwd, extFwd, numXs, r.0, xs[|xs| - 1]);
      var ys := ScanFwd(f, c, xs).1;
      assert ys == r.1 + [f(r.0, xs[|xs| - 1]).1];
      forall t | 0 <= t < |xs| ensures SliceForwarded(extFwd, |consts| + |c|, xs[t], ys[t]) {
        if t < |xs| - 1 { assert xs[t] == front[t] && ys[t] == r.1[t]; }
      }
    }
  }

  /** The same for the reverse scan. */
  lemma {:induction false} SlicesRev<V(!new)>(body: Body<V>, consts: seq<V>, carryFwd: seq<Option<nat>>,
                                            extFwd: seq<Option<nat>>, numXs: nat, c: seq<V>, xs: seq<seq<V>>)
    requires |c| == |carryFwd|
    requires Forwards(body, |consts| + |c| + numXs, carryFwd + extFwd)
    requires forall t :: 0 <= t < |xs| ==> |xs[t]| == numXs
    ensures |ScanRev(Step(body, consts, |c|), c, xs).0| == |c|
    ensures forall t :: 0 <= t < |xs| ==>
      SliceForwarded(extFwd, |consts| + |c|, xs[t], ScanRev(Step(body, consts, |c|), c, xs).1[t])
    decreases |xs|
  {
    if |xs| > 0 {
      var f := Step(body, consts, |c|);
      var rest := xs[1..];
      SlicesRev(body, consts, carryFwd, extFwd, numXs, c, rest);
      var r := ScanRev(f, c, rest);
      StepSlices(body, consts, carryFwd, extFwd, numXs, r.0, xs[0]);
      var ys := ScanRev(f, c, xs).1;
      assert ys == [f(r.0, xs[0]).1] + r.1;
      forall t | 0 <= t < |xs| ensures SliceForwarded(extFwd, |consts| + |c|, xs[t], ys[t]) {
        if t > 0 { assert xs[t] == rest[t - 1] && ys[t] == r.1[t - 1]; }
      }
    }
  }

  /** Every iteration's outputs forward that iteration's slices. */
  ghost predicate AllSlicesForwarded<V>(extFwd: seq<Option<nat>>, offset: nat, xs: seq<seq<V>>, ys: seq<seq<V>>) {
    |ys| == |xs| && forall t :: 0 <= t < |xs| ==> SliceForwarded(extFwd, offset, xs[t], ys[t])
  }

  lemma SlicesScan<V(!new)>(body: Body<V>, consts: seq<V>, carryFwd: seq<Option<nat>>,
                           extFwd: seq<Option<nat>>, numXs: nat, c: seq<V>, xs: seq<seq<V>>, reverse: bool)
    requires |c| == |carryFwd|
    requires Forwards(body, |consts| + |c| + numXs, carryFwd + extFwd)
    requires forall t :: 0 <= t < |xs| ==> |xs[t]| == numXs
    ensures |Scan(Step(body, consts, |c|), c, xs, reverse).1| == |xs|
    ensures AllSlicesForwarded(extFwd, |consts| + |c|, xs, Scan(Step(body, consts, |c|), c, xs, reverse).1)
  {
    if reverse {
      SlicesRev(body, consts, carryFwd, extFwd, numXs, c, xs);
    } else {
      SlicesFwd(body, consts, carryFwd, extFwd, numXs, c, xs);
    }
  }

  /** The stacked array of output (or operand) `k`: its slice from every
      iteration. */
  function Column<V>(rows: seq<seq<V>>, k: nat): (r: seq<V>)
    requires forall t :: 0 <= t < |rows| ==> k < |rows[t]|
    ensures |r| == |rows|
    ensures forall t :: 0 <= t < |rows| ==> r[t] == rows[t][k]
  {
    seq(|rows|, t requires 0 <= t < |rows| => rows[t][k])
  }

  /** The first `n` stacked arrays of a list of per-iteration rows. */
  function Columns<V>(rows: seq<seq<V>>, n: nat): (r: seq<seq<V>>)
    requires forall t :: 0 <= t < |rows| ==> n <= |rows[t]|
    ensures |r| == n
    ensures forall k :: 0 <= k < n ==> r[k] == Column(rows, k)
  {
    seq(n, k requires 0 <= k < n => Column(rows, k))
  }

  /** A forwarded stacked output is the stacked operand it names. */
  lemma ForwardedColumn<V>(extFwd: seq<Option<nat>>, offset: nat, xs: seq<seq<V>>, ys: seq<seq<V>>,
                           numXs: nat, j: nat)
    requires |ys| == |xs|
    requires forall t :: 0 <= t < |xs| ==> |xs[t]| == numXs
    requires forall t :: 0 <= t < |xs| ==> SliceForwarded(extFwd, offset, xs[t], ys[t])
    requires j < |extFwd| && extFwd[j].Some? && offset <= extFwd[j].value < offset + numXs
    ensures forall t :: 0 <= t < |ys| ==> j < |ys[t]|
    ensures Column(ys, j) == Column(xs, extFwd[j].value - offset)
  {
    var k := extFwd[j].value - offset;
    forall t | 0 <= t < |xs| ensures j < |ys[t]| && ys[t][j] == xs[t][k] {
      assert SliceForwarded(extFwd, offset, xs[t], ys[t]);
    }
  }

  /** Every input index the forwarding analysis reports for a stacked
      output names an input of the body. */
  lemma ExtIndicesInRange<V(!new)>(body: Body<V>, numIn: nat, carryFwd: seq<Option<nat>>, extFwd: seq<Option<nat>>)
    requires Forwards(body, numIn, carryFwd + extFwd)
    ensures forall j :: 0 <= j < |extFwd| && extFwd[j].Some? ==> extFwd[j].value < numIn
  {
    forall j | 0 <= j < |extFwd| && extFwd[j].Some? ensures extFwd[j].value < numIn {
      assert (carryFwd + extFwd)[|carryFwd| + j] == extFwd[j];
    }
  }

  /** The stacked outputs `ys` (one row per iteration) come back whole
      when the ones forwarded from scanned inputs are pruned from the loop
      and drawn from the operand list: the `numConsts` consts are not in
      that list, the `kept` carries and the stacked scanned operands are. */
  ghost predicate Restored<V>(extFwd: seq<Option<nat>>, numConsts: nat, kept: seq<seq<V>>,
                              xs: seq<seq<V>>, ys: seq<seq<V>>, numXs: nat) {
    (forall t :: 0 <= t < |xs| ==> |xs[t]| == numXs) &&
    (forall t :: 0 <= t < |ys| ==> |ys[t]| == |extFwd|) &&
    var full := Columns(ys, |extFwd|);
    var fwd := ExtToExt(extFwd, numConsts, |kept|);
    Reassemble(fwd, Prune(fwd, full), kept + Columns(xs, numXs)) == Ok(full)
  }

  /** The stacked outputs of a scan whose every iteration forwards its
      slices (`SliceForwarded`) are restored by pruning the forwarded ones and
      drawing them from the operand list `kept ++ xsOps`. */
  lemma ReassembleColumns<V>(extFwd: seq<Option<nat>>, offset: nat, xs: seq<seq<V>>, ys: seq<seq<V>>,
                             numXs: nat, numConsts: nat, kept: seq<seq<V>>)
    requires |ys| == |xs| && numConsts + |kept| == offset
    requires forall t :: 0 <= t < |xs| ==> |xs[t]| == numXs
    requires AllSlicesForwarded(extFwd, offset, xs, ys)
    requires forall j :: 0 <= j < |extFwd| && extFwd[j].Some? ==> extFwd[j].value < offset + numXs
    ensures Restored(extFwd, numConsts, kept, xs, ys, numXs)
  {
    assert forall t :: 0 <= t < |ys| ==> |ys[t]| == |extFwd| by {
      forall t | 0 <= t < |ys| ensures |ys[t]| == |extFwd| { assert SliceForwarded(extFwd, offset, xs[t], ys[t]); }
    }
    var full := Columns(ys, |extFwd|);
    var xsOps := Columns(xs, numXs);
    var fwd := ExtToExt(extFwd, numConsts, |kept|);
    var inFlat := kept + xsOps;
    forall j | 0 <= j < |fwd| && fwd[j].Some?
      ensures fwd[j].value < |inFlat| && full[j] == inFlat[fwd[j].value]
    {
      var k := extFwd[j].value - offset;
      ForwardedColumn(extFwd, offset, xs, ys, numXs, j);
      assert inFlat[|kept| + k] == xsOps[k];
    }
    PruneReassemble(fwd, full, inFlat);
  }

  /** Dropping the outputs forwarded from scanned inputs and taking them
      from the operands list (`kept` carries, then the stacked scanned
      operands) restores every stacked output, after the carry move as
      well. */
  lemma ExtForwardingPreservesOutputs<V(!new)>(body: Body<V>, consts: seq<V>, init: seq<V>, xs: seq<seq<V>>,
                                               carryFwd: seq<Option<nat>>, extFwd: seq<Option<nat>>,
                                               numXs: nat, reverse: bool, moved: nat, kept: seq<seq<V>>)
    requires |carryFwd| == |init|
    requires Forwards(body, |consts| + |init| + numXs, carryFwd + extFwd)
    requires forall t :: 0 <= t < |xs| ==> |xs[t]| == numXs
    requires moved <= |init| && |kept| == |init| - moved
    ensures Restored(extFwd, |consts| + moved, kept, xs, Scan(Step(body, consts, |init|), init, xs, reverse).1, numXs)
  {
    var offset := |consts| + |init|;
    var ys := Scan(Step(body, consts, |init|), init, xs, reverse).1;
    SlicesScan(body, consts, carryFwd, extFwd, numXs, init, xs, reverse);
    ExtIndicesInRange(body, |consts| + |init| + numXs, carryFwd, extFwd);
    ReassembleColumns(extFwd, offset, xs, ys, numXs, |consts| + moved, kept);
  }
}
