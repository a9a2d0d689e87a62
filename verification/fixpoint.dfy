/** The carry fixpoint that the scan and while rules all run: starting from the
    flags of the initial carry, re-run the body transform and OR its carry
    output flags in until they stop changing, giving up (`assert False,
    "Fixpoint not reached"`) after `1 + len(carry)` rounds.

    The body transform (`ad.jvp_jaxpr`, `pe.partial_eval_jaxpr_nounits`,
    `batching.batch_jaxpr`, `pe.dce_jaxpr`, ...) is an opaque function on flag
    vectors. The source passes it `instantiate=` the current carry flags, which
    forces every carry flag that is set on input to be set on output; that
    guarantee is `HonoursInstantiate` below, and it is what makes the loop
    converge. */
module CarryFixpoint {
  import opened Lists
  import opened Results

  /** A per-round transform on carry flags that never clears a flag. */
  ghost predicate Extensive(p: seq<bool> -> seq<bool>, n: nat) {
    forall x: seq<bool> {:trigger p(x)} :: |x| == n ==> Leq(x, p(x))
  }

  ghost predicate Monotone(p: seq<bool> -> seq<bool>, n: nat) {
    forall x: seq<bool>, y: seq<bool> {:trigger p(x), p(y)} ::
      |x| == n && Leq(x, y) ==> Leq(p(x), p(y))
  }

  /** The loop body `for _ in range(rounds): ...` with the carry flags `c`.
      A length mismatch between the transform's output and the carry is the
      `safe_map` assertion of the source. */
  function Iterate(p: seq<bool> -> seq<bool>, c: seq<bool>, rounds: nat): (r: Result<seq<bool>>)
    ensures r.Ok? ==> p(r.value) == r.value
    ensures r.Ok? ==> Leq(c, r.value)
    decreases rounds
  {
    if rounds == 0 then Err(AssertionFailure)
    else
      var out := p(c);
      if out == c then Ok(c)
      else if |out| != |c| then Err(AssertionFailure)
      else Iterate(p, Or(c, out), rounds - 1)
  }

  /** The fixpoint as every rule runs it: at most `1 + len(seed)` rounds. */
  function Fixpoint(p: seq<bool> -> seq<bool>, seed: seq<bool>): (r: Result<seq<bool>>)
    ensures r.Ok? ==> p(r.value) == r.value && Leq(seed, r.value)
  {
    Iterate(p, seed, 1 + |seed|)
  }

  /** Each round that does not stop sets at least one more flag, so
      `|c| - Count(c) + 1` rounds always suffice for an extensive transform. */
  lemma {:induction false} IterateConverges(p: seq<bool> -> seq<bool>, c: seq<bool>, rounds: nat)
    requires Extensive(p, |c|)
    requires rounds > |c| - Count(c)
    ensures Iterate(p, c, rounds).Ok?
    decreases rounds
  {
    var out := p(c);
    assert Leq(c, out);
    if out != c {
      var next := Or(c, out);
      assert next == out;
      CountMonotone(c, out);
      IterateConverges(p, next, rounds - 1);
    }
  }

  /** The `assert False, "Fixpoint not reached"` branch is unreachable
      whenever the transform honours its `instantiate` argument. */
  lemma FixpointConverges(p: seq<bool> -> seq<bool>, seed: seq<bool>)
    requires Extensive(p, |seed|)
    ensures Fixpoint(p, seed).Ok?
  {
    IterateConverges(p, seed, 1 + |seed|);
  }

  /** Without that guarantee the loop can spin: a transform that clears every
      flag never agrees with a carry that has one set. */
  lemma NonExtensiveCanFail()
    ensures Fixpoint((x: seq<bool>) => Repeat(false, |x|), [true]) == Err(AssertionFailure)
  {
    var p := (x: seq<bool>) => Repeat(false, |x|);
    assert p([true]) == [false];
    assert Or([true], [false]) == [true];
    assert Iterate(p, [true], 0) == Err(AssertionFailure);
    assert Iterate(p, [true], 1) == Iterate(p, [true], 0);
    assert Iterate(p, [true], 2) == Iterate(p, [true], 1);
  }

  /** For a monotone transform the result is the least flag vector above the
      seed that the transform cannot grow: the fixpoint computes exactly the
      flags that must be set, and no more. */
  lemma {:induction false} IterateIsLeast(p: seq<bool> -> seq<bool>, c: seq<bool>, rounds: nat, y: seq<bool>)
    requires Monotone(p, |c|)
    requires Leq(c, y) && Leq(p(y), y)
    requires Iterate(p, c, rounds).Ok?
    ensures Leq(Iterate(p, c, rounds).value, y)
    decreases rounds
  {
    var out := p(c);
    if out != c {
      assert |out| == |c|;
      assert Leq(p(c), p(y));
      var next := Or(c, out);
      assert Leq(next, y);
      IterateIsLeast(p, next, rounds - 1, y);
    }
  }

  lemma FixpointIsLeast(p: seq<bool> -> seq<bool>, seed: seq<bool>, y: seq<bool>)
    requires Monotone(p, |seed|)
    requires Leq(seed, y) && Leq(p(y), y)
    requires Fixpoint(p, seed).Ok?
    ensures Leq(Fixpoint(p, seed).value, y)
  {
    IterateIsLeast(p, seed, 1 + |seed|, y);
  }

  // ----- the three shapes in which the rules instantiate the fixpoint -----

  /** An opaque body transform: given the flags of every body input and the
      `instantiate` flags of every body output, the flags of every output. */
  type BodyRule = (seq<bool>, seq<bool>) -> seq<bool>

  /** The transform returns one flag per output and sets every output flag it
      was asked to instantiate. */
  ghost predicate HonoursInstantiate(rule: BodyRule) {
    forall ins: seq<bool>, inst: seq<bool> {:trigger rule(ins, inst)} :: Leq(inst, rule(ins, inst))
  }

  function Take(s: seq<bool>, n: nat): (r: seq<bool>)
    ensures n <= |s| ==> r == s[..n]
  {
    if n <= |s| then s[..n] else s
  }

  function Slice(s: seq<bool>, lo: nat, n: nat): (r: seq<bool>)
    ensures lo + n <= |s| ==> r == s[lo..lo + n]
  {
    if lo + n <= |s| then s[lo..lo + n] else s
  }

  /** One round of the scan rules (JVP, linearize, partial eval, custom
      partial eval, batching): the body sees `consts ++ carry ++ xs` flags and
      is asked to instantiate the carry outputs; the first `|carry|` output
      flags are the new carry flags. */
  function ScanRound(rule: BodyRule, constFlags: seq<bool>, xsFlags: seq<bool>, numYs: nat): seq<bool> -> seq<bool> {
    (c: seq<bool>) => Take(rule(constFlags + c + xsFlags, c + Repeat(false, numYs)), |c|)
  }

  /** One round of the while rules (JVP, batching, partial eval): the body sees
      `body_consts ++ carry` and its outputs are exactly the carry. */
  function WhileRound(rule: BodyRule, bconstFlags: seq<bool>): seq<bool> -> seq<bool> {
    (c: seq<bool>) => rule(bconstFlags + c, c)
  }

  /** One round of the scan DCE rule, which runs backwards: `rule` maps the
      used-output flags and the instantiate flags of the inputs to used-input
      flags; the carry slice of the used inputs is the new used-carry vector. */
  function DceRound(rule: BodyRule, numConsts: nat, numXs: nat, usedExtensive: seq<bool>): seq<bool> -> seq<bool> {
    (u: seq<bool>) =>
      Slice(rule(u + usedExtensive, Repeat(false, numConsts) + u + Repeat(false, numXs)), numConsts, |u|)
  }

  lemma ScanRoundExtensive(rule: BodyRule, constFlags: seq<bool>, xsFlags: seq<bool>, numYs: nat, n: nat)
    requires HonoursInstantiate(rule)
    ensures Extensive(ScanRound(rule, constFlags, xsFlags, numYs), n)
  {
    var p := ScanRound(rule, constFlags, xsFlags, numYs);
    forall x: seq<bool> | |x| == n ensures Leq(x, p(x)) {
      var inst := x + Repeat(false, numYs);
      var out := rule(constFlags + x + xsFlags, inst);
      assert Leq(inst, out);
      assert p(x) == out[..|x|];
    }
  }

  lemma WhileRoundExtensive(rule: BodyRule, bconstFlags: seq<bool>, n: nat)
    requires HonoursInstantiate(rule)
    ensures Extensive(WhileRound(rule, bconstFlags), n)
  {
    var p := WhileRound(rule, bconstFlags);
    forall x: seq<bool> | |x| == n ensures Leq(x, p(x)) {
      assert Leq(x, rule(bconstFlags + x, x));
    }
  }

  lemma DceRoundExtensive(rule: BodyRule, numConsts: nat, numXs: nat, usedExtensive: seq<bool>, n: nat)
    requires HonoursInstantiate(rule)
    ensures Extensive(DceRound(rule, numConsts, numXs, usedExtensive), n)
  {
    var p := DceRound(rule, numConsts, numXs, usedExtensive);
    forall x: seq<bool> | |x| == n ensures Leq(x, p(x)) {
      var inst := Repeat(false, numConsts) + x + Repeat(false, numXs);
      var out := rule(x + usedExtensive, inst);
      assert Leq(inst, out);
      assert p(x) == out[numConsts..numConsts + |x|];
      forall i | 0 <= i < |x| ensures x[i] ==> p(x)[i] {
        assert inst[numConsts + i] == x[i];
      }
    }
  }

  /** The carry flags a scan rule settles on, from the flags of all operands
      (`split_list(flags, [num_consts, num_carry])`). */
  function ScanCarryFlags(rule: BodyRule, flags: seq<bool>, numConsts: nat, numCarry: nat, numYs: nat): (r: Result<seq<bool>>)
    requires numConsts + numCarry <= |flags|
    ensures r.Ok? ==> Leq(flags[numConsts..numConsts + numCarry], r.value)
    ensures r.Ok? ==> ScanRound(rule, flags[..numConsts], flags[numConsts + numCarry..], numYs)(r.value) == r.value
  {
    var (constF, carryF, xsF) := Split3(flags, numConsts, numCarry);
    assert carryF == flags[numConsts..numConsts + numCarry];
    assert constF == flags[..numConsts] && xsF == flags[numConsts + numCarry..];
    Fixpoint(ScanRound(rule, constF, xsF, numYs), carryF)
  }

  lemma ScanCarryFlagsConverge(rule: BodyRule, flags: seq<bool>, numConsts: nat, numCarry: nat, numYs: nat)
    requires numConsts + numCarry <= |flags|
    requires HonoursInstantiate(rule)
    ensures ScanCarryFlags(rule, flags, numConsts, numCarry, numYs).Ok?
  {
    var (constF, carryF, xsF) := Split3(flags, numConsts, numCarry);
    ScanRoundExtensive(rule, constF, xsF, numYs, |carryF|);
    FixpointConverges(ScanRound(rule, constF, xsF, numYs), carryF);
  }

  /** The carry flags a while rule settles on, from the flags of
      `cond_consts ++ body_consts ++ carry`. */
  function WhileCarryFlags(rule: BodyRule, flags: seq<bool>, condNconsts: nat, bodyNconsts: nat): (r: Result<seq<bool>>)
    requires condNconsts + bodyNconsts <= |flags|
    ensures r.Ok? ==> Leq(flags[condNconsts + bodyNconsts..], r.value)
    ensures r.Ok? ==> WhileRound(rule, flags[condNconsts..condNconsts + bodyNconsts])(r.value) == r.value
  {
    var (_, bconstF, carryF) := Split3(flags, condNconsts, bodyNconsts);
    assert bconstF == flags[condNconsts..condNconsts + bodyNconsts];
    assert carryF == flags[condNconsts + bodyNconsts..];
    Fixpoint(WhileRound(rule, bconstF), carryF)
  }

  lemma WhileCarryFlagsConverge(rule: BodyRule, flags: seq<bool>, condNconsts: nat, bodyNconsts: nat)
    requires condNconsts + bodyNconsts <= |flags|
    requires HonoursInstantiate(rule)
    ensures WhileCarryFlags(rule, flags, condNconsts, bodyNconsts).Ok?
  {
    var (_, bconstF, carryF) := Split3(flags, condNconsts, bodyNconsts);
    WhileRoundExtensive(rule, bconstF, |carryF|);
    FixpointConverges(WhileRound(rule, bconstF), carryF);
  }

  /** What `_scan_dce_rule` produces: which operands stay, and the arity of
      the pruned scan. `None` for the equation means it is dropped. */
  datatype DceOutcome = DceOutcome(usedInputs: seq<bool>, usedOutputs: seq<bool>, keepEqn: bool,
                                   numConsts: nat, numCarry: nat)

  /** `_scan_dce_rule`: with no used output and no effect every input is
      unused and the equation is dropped; otherwise the used-carry fixpoint
      runs and the equation keeps the used operands. */
  function ScanDce(rule: BodyRule, usedOutputs: seq<bool>, hasEffects: bool,
                   numConsts: nat, numCarry: nat, numXs: nat): (r: Result<DceOutcome>)
    requires numCarry <= |usedOutputs|
    ensures r.Ok? && !r.value.keepEqn ==>
      Count(usedOutputs) == 0 && !hasEffects && r.value.usedInputs == Repeat(false, numConsts + numCarry + numXs)
    ensures r.Ok? && r.value.keepEqn ==>
      |r.value.usedOutputs| == |usedOutputs| && Leq(usedOutputs, r.value.usedOutputs) &&
      |r.value.usedInputs| == numConsts + numCarry + numXs &&
      r.value.numConsts == Count(r.value.usedInputs[..numConsts]) &&
      // the pruned scan's carry inputs and carry outputs agree in number
      r.value.numCarry == Count(r.value.usedInputs[numConsts..numConsts + numCarry]) &&
      r.value.numCarry == Count(r.value.usedOutputs[..numCarry])
  {
    if Count(usedOutputs) == 0 && !hasEffects then
      Ok(DceOutcome(Repeat(false, numConsts + numCarry + numXs), usedOutputs, false, 0, 0))
    else
      var (usedCarryOut, usedExt) := SplitAt(usedOutputs, numCarry);
      var p := DceRound(rule, numConsts, numXs, usedExt);
      var fix :- Fixpoint(p, usedCarryOut);
      var usedInputs := rule(fix + usedExt, Repeat(false, numConsts) + fix + Repeat(false, numXs));
      if |usedInputs| != numConsts + numCarry + numXs then Err(AssertionFailure)
      else
        assert usedInputs[numConsts..numConsts + numCarry] == fix;
        assert (fix + usedExt)[..numCarry] == fix;
        Ok(DceOutcome(usedInputs, fix + usedExt, true,
                      Count(usedInputs[..numConsts]), Count(usedInputs[numConsts..numConsts + numCarry])))
  }

  lemma ScanDceConverges(rule: BodyRule, usedOutputs: seq<bool>, hasEffects: bool,
                         numConsts: nat, numCarry: nat, numXs: nat)
    requires numCarry <= |usedOutputs|
    requires HonoursInstantiate(rule)
    requires forall outs: seq<bool>, inst: seq<bool> {:trigger rule(outs, inst)} ::
      |rule(outs, inst)| == |inst|
    ensures ScanDce(rule, usedOutputs, hasEffects, numConsts, numCarry, numXs).Ok?
  {
    var (usedCarryOut, usedExt) := SplitAt(usedOutputs, numCarry);
    DceRoundExtensive(rule, numConsts, numXs, usedExt, |usedCarryOut|);
    FixpointConverges(DceRound(rule, numConsts, numXs, usedExt), usedCarryOut);
  }
}
