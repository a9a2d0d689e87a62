/** The `while_loop` front end and the bookkeeping of the `while` primitive:
    moving read-only carries that the predicate does not read into body
    consts, the arity checks of abstract evaluation, and the renumbering of
    input effects when the predicate's and the body's effects are joined. */
module WhileRules {
  import opened Lists
  import opened Results
  import opened ScanParams
  import opened LoopForwarding

  // ----- reference semantics -----

  /** `while_p` over flat values: the predicate sees `condConsts ++ carry`,
      the body `bodyConsts ++ carry`. `fuel` bounds the number of iterations
      looked at; `None` means the loop has not stopped within it. */
  function WhileLoop<V>(cond: seq<V> -> bool, body: Body<V>, condConsts: seq<V>, bodyConsts: seq<V>,
                        c: seq<V>, fuel: nat): (r: Option<seq<V>>)
    ensures r.Some? ==> !cond(condConsts + r.value)
    decreases fuel
  {
    if fuel == 0 then None
    else if !cond(condConsts + c) then Some(c)
    else WhileLoop(cond, body, condConsts, bodyConsts, body(bodyConsts + c), fuel - 1)
  }

  // ----- moving read-only carries to consts -----

  /** `move_to_const`: carry `j` is moved when the body forwards it from its
      own input (`body_fwd[j] == len(body_consts) + j`) and the predicate does
      not read it. `condUsed` is the set of predicate inputs `pe.dce_jaxpr`
      finds used; the source instantiates all predicate consts and every
      carry that is not forwarded, so those are kept whatever it finds. */
  function WhileMoveFlags(bodyFwd: seq<Option<nat>>, condUsed: seq<bool>, condNconsts: nat,
                          bodyNconsts: nat): (m: seq<bool>)
    requires |condUsed| == condNconsts + |bodyFwd|
    ensures |m| == |bodyFwd|
    ensures forall j :: 0 <= j < |m| ==>
      (m[j] <==> bodyFwd[j] == Some(bodyNconsts + j) && !condUsed[condNconsts + j])
  {
    var carryNofwd := seq(|bodyFwd|, j requires 0 <= j < |bodyFwd| => bodyFwd[j] != Some(bodyNconsts + j));
    var pads := Repeat(true, condNconsts) + carryNofwd;
    var keep := Or(condUsed, pads);
    // the carry part of `keep`, negated
    var m := seq(|bodyFwd|, j requires 0 <= j < |bodyFwd| => !keep[condNconsts + j]);
    assert forall j :: 0 <= j < |m| ==> pads[condNconsts + j] == carryNofwd[j];
    m
  }

  /** What `pe.dce_jaxpr` promises about the pruned predicate `condD`: on
      the predicate consts and the kept carries it decides as the original
      predicate does on the full carry. */
  ghost predicate DropsMoved<V(!new)>(cond: seq<V> -> bool, condD: seq<V> -> bool, m: seq<bool>, numConsts: nat) {
    forall cc: seq<V>, c: seq<V> {:trigger cond(cc + c)} :: |cc| == numConsts && |c| == |m| ==>
      condD(cc + Partition(m, c).0) == cond(cc + c)
  }

  /** The `while_loop` front end: with nothing to move the loop is bound as
      is; otherwise the moved carries lead the body consts, the pruned
      predicate and the moved body run on the kept carries, and
      `merge_lists` puts the moved values back (its count check is the `Err`
      case). */
  function WhileFrontEnd<V>(cond: seq<V> -> bool, condD: seq<V> -> bool, body: Body<V>,
                            condConsts: seq<V>, bodyConsts: seq<V>, init: seq<V>,
                            bodyFwd: seq<Option<nat>>, condUsed: seq<bool>, fuel: nat): (r: Option<Result<seq<V>>>)
    requires |bodyFwd| == |init| && |condUsed| == |condConsts| + |init|
    ensures r.Some? && r.value.Ok? ==> |r.value.value| == |init|
  {
    var m := WhileMoveFlags(bodyFwd, condUsed, |condConsts|, |bodyConsts|);
    if Count(m) == 0 then
      match WhileLoop(cond, body, condConsts, bodyConsts, init, fuel)
      case None => None
      case Some(c) => Some(if |c| == |init| then Ok(c) else Err(AssertionFailure))
    else
      var (kept, moved) := Partition(m, init);
      match WhileLoop(condD, MovedBody(body, m, |bodyConsts|), condConsts, moved + bodyConsts, kept, fuel)
      case None => None
      case Some(c) => Some(if |c| == |kept| then Ok(Merge(m, c, moved)) else Err(AssertionFailure))
  }

  /** One iteration of the moved loop simulates one iteration of the loop as
      written on the merged carry: same decision, and the merged new carry is
      the new carry. */
  lemma WhileStepCommutes<V(!new)>(cond: seq<V> -> bool, condD: seq<V> -> bool, body: Body<V>,
                                   condConsts: seq<V>, bodyConsts: seq<V>, bodyFwd: seq<Option<nat>>,
                                   m: seq<bool>, moved: seq<V>, k: seq<V>)
    requires |m| == |bodyFwd| && |moved| == Count(m) && |k| == |m| - Count(m)
    requires forall j :: 0 <= j < |m| && m[j] ==> bodyFwd[j] == Some(|bodyConsts| + j)
    requires Forwards(body, |bodyConsts| + |m|, bodyFwd)
    requires DropsMoved(cond, condD, m, |condConsts|)
    ensures condD(condConsts + k) == cond(condConsts + Merge(m, k, moved))
    ensures var out := body(bodyConsts + Merge(m, k, moved));
            var out' := MovedBody(body, m, |bodyConsts|)(moved + bodyConsts + k);
            |out| == |m| && |out'| == |k| && Merge(m, out', moved) == out
  {
    PartitionMerge(m, k, moved);
    var c := Merge(m, k, moved);
    assert cond(condConsts + c) == condD(condConsts + Partition(m, c).0);
    MovedBodyStep(body, bodyConsts, bodyFwd, m, moved, k);
  }

  lemma MovedBodyStep<V(!new)>(body: Body<V>, bodyConsts: seq<V>, bodyFwd: seq<Option<nat>>,
                               m: seq<bool>, moved: seq<V>, k: seq<V>)
    requires |m| == |bodyFwd| && |moved| == Count(m) && |k| == |m| - Count(m)
    requires forall j :: 0 <= j < |m| && m[j] ==> bodyFwd[j] == Some(|bodyConsts| + j)
    requires Forwards(body, |bodyConsts| + |m|, bodyFwd)
    ensures var out := body(bodyConsts + Merge(m, k, moved));
            var out' := MovedBody(body, m, |bodyConsts|)(moved + bodyConsts + k);
            |out| == |m| && |out'| == |k| && Merge(m, out', moved) == out
  {
    var c := Merge(m, k, moved);
    var ins := bodyConsts + c;
    var out := body(ins);
    ForwardedCarriesUnchanged(body, bodyConsts, bodyFwd, m, c);
    MovedOutputsUnchanged(m, out, k, moved);
    var e: seq<V> := [];
    assert bodyConsts + c + e == ins;
    assert moved + bodyConsts + k + e == moved + bodyConsts + k;
    MovedBodyOn(body, m, moved, bodyConsts, k, e);
    assert out[..|m|] == out && out[|m|..] == e;
    var kept := Partition(m, out).0;
    assert kept + e == kept;
    assert MovedBody(body, m, |bodyConsts|)(moved + bodyConsts + k) == kept;
  }

  /** A carry the body forwards from its own input comes out unchanged. */
  lemma ForwardedCarriesUnchanged<V(!new)>(body: Body<V>, bodyConsts: seq<V>, bodyFwd: seq<Option<nat>>,
                                           m: seq<bool>, c: seq<V>)
    requires |m| == |bodyFwd| && |c| == |m|
    requires forall j :: 0 <= j < |m| && m[j] ==> bodyFwd[j] == Some(|bodyConsts| + j)
    requires Forwards(body, |bodyConsts| + |m|, bodyFwd)
    ensures |body(bodyConsts + c)| == |m|
    ensures forall j :: 0 <= j < |m| && m[j] ==> body(bodyConsts + c)[j] == c[j]
  {
    var ins := bodyConsts + c;
    assert ForwardsAt(body(ins), ins, bodyFwd);
    forall j | 0 <= j < |m| && m[j] ensures body(ins)[j] == c[j] {
      assert ins[|bodyConsts| + j] == c[j];
    }
  }

  /** The moved loop, run from kept carries `k`, stops exactly when the loop
      as written stops from the merged carry, and merging its result gives
      that loop's result. */
  lemma {:induction false} WhileSimulates<V(!new)>(cond: seq<V> -> bool, condD: seq<V> -> bool, body: Body<V>,
                                                 condConsts: seq<V>, bodyConsts: seq<V>, bodyFwd: seq<Option<nat>>,
                                                 m: seq<bool>, moved: seq<V>, k: seq<V>, fuel: nat)
    requires |m| == |bodyFwd| && |moved| == Count(m) && |k| == |m| - Count(m)
    requires forall j :: 0 <= j < |m| && m[j] ==> bodyFwd[j] == Some(|bodyConsts| + j)
    requires Forwards(body, |bodyConsts| + |m|, bodyFwd)
    requires DropsMoved(cond, condD, m, |condConsts|)
    ensures var a := WhileLoop(condD, MovedBody(body, m, |bodyConsts|), condConsts, moved + bodyConsts, k, fuel);
            var b := WhileLoop(cond, body, condConsts, bodyConsts, Merge(m, k, moved), fuel);
            a.Some? == b.Some? && (a.Some? ==> |a.value| == |k| && Merge(m, a.value, moved) == b.value)
    decreases fuel
  {
    WhileStepCommutes(cond, condD, body, condConsts, bodyConsts, bodyFwd, m, moved, k);
    if fuel > 0 && condD(condConsts + k) {
      var k' := MovedBody(body, m, |bodyConsts|)(moved + bodyConsts + k);
      WhileSimulates(cond, condD, body, condConsts, bodyConsts, bodyFwd, m, moved, k', fuel - 1);
    }
  }

  /** Moving read-only, unread carries to consts changes nothing: the front
      end stops exactly when the loop as written does and returns its final
      carry. */
  lemma WhileForwardingPreserves<V(!new)>(cond: seq<V> -> bool, condD: seq<V> -> bool, body: Body<V>,
                                          condConsts: seq<V>, bodyConsts: seq<V>, init: seq<V>,
                                          bodyFwd: seq<Option<nat>>, condUsed: seq<bool>, fuel: nat)
    requires |bodyFwd| == |init| && |condUsed| == |condConsts| + |init|
    requires Forwards(body, |bodyConsts| + |init|, bodyFwd)
    requires DropsMoved(cond, condD, WhileMoveFlags(bodyFwd, condUsed, |condConsts|, |bodyConsts|), |condConsts|)
    ensures var r := WhileFrontEnd(cond, condD, body, condConsts, bodyConsts, init, bodyFwd, condUsed, fuel);
            var w := WhileLoop(cond, body, condConsts, bodyConsts, init, fuel);
            r.Some? == w.Some? && (r.Some? ==> r.value == Ok(w.value))
  {
    var m := WhileMoveFlags(bodyFwd, condUsed, |condConsts|, |bodyConsts|);
    if Count(m) == 0 {
      WhileKeepsArity(cond, body, condConsts, bodyConsts, init, bodyFwd, fuel);
    } else {
      var (kept, moved) := Partition(m, init);
      WhileSimulates(cond, condD, body, condConsts, bodyConsts, bodyFwd, m, moved, kept, fuel);
      MergePartition(m, init);
    }
  }

  /** A body that returns one value per carry keeps the carry's length. */
  lemma {:induction false} WhileKeepsArity<V(!new)>(cond: seq<V> -> bool, body: Body<V>, condConsts: seq<V>,
                                                  bodyConsts: seq<V>, c: seq<V>, bodyFwd: seq<Option<nat>>, fuel: nat)
    requires |bodyFwd| == |c|
    requires Forwards(body, |bodyConsts| + |c|, bodyFwd)
    ensures var w := WhileLoop(cond, body, condConsts, bodyConsts, c, fuel);
            w.Some? ==> |w.value| == |c|
    decreases fuel
  {
    if fuel > 0 && cond(condConsts + c) {
      var ins := bodyConsts + c;
      assert ForwardsAt(body(ins), ins, bodyFwd);
      WhileKeepsArity(cond, body, condConsts, bodyConsts, body(ins), bodyFwd, fuel - 1);
    }
  }

  // ----- joining the effects of predicate and body -----

  /** An effect of a jaxpr; an input effect names one of its inputs. */
  datatype Effect = InputEffect(kind: string, index: int) | OtherEffect(kind: string)

  function Kinds(es: set<Effect>): set<string> {
    set e | e in es :: e.kind
  }

  /** Where predicate input `i` sits among the operands
      `cond_consts ++ body_consts ++ carry`. */
  function CondOperand(i: int, condNconsts: nat, bodyNconsts: nat): int {
    if i >= condNconsts then i + bodyNconsts else i
  }

  /** Where body input `i` sits among the operands. */
  function BodyOperand(i: int, condNconsts: nat): int {
    i + condNconsts
  }

  function RemapCond(e: Effect, condNconsts: nat, bodyNconsts: nat): Effect {
    match e
    case InputEffect(k, i) => InputEffect(k, CondOperand(i, condNconsts, bodyNconsts))
    case OtherEffect(_) => e
  }

  function RemapBody(e: Effect, condNconsts: nat): Effect {
    match e
    case InputEffect(k, i) => InputEffect(k, BodyOperand(i, condNconsts))
    case OtherEffect(_) => e
  }

  /** `_join_while_effects`: both effect sets with input indices renumbered
      to the `while` operands. Every effect of either jaxpr is in the
      result, renumbered; nothing else is: no effect kind is invented, other
      effects pass unchanged, and an input effect keeps its kind. */
  function JoinWhileEffects(bodyEffs: set<Effect>, condEffs: set<Effect>, bodyNconsts: nat,
                            condNconsts: nat): (r: set<Effect>)
    ensures forall e :: e in condEffs ==> RemapCond(e, condNconsts, bodyNconsts) in r
    ensures forall e :: e in bodyEffs ==> RemapBody(e, condNconsts) in r
    ensures forall e :: e in r ==>
      (exists c :: c in condEffs && RemapCond(c, condNconsts, bodyNconsts) == e) ||
      (exists b :: b in bodyEffs && RemapBody(b, condNconsts) == e)
    ensures Kinds(r) == Kinds(condEffs) + Kinds(bodyEffs)
    ensures forall e :: e in condEffs && e.OtherEffect? ==> e in r
    ensures forall e :: e in bodyEffs && e.OtherEffect? ==> e in r
    ensures forall e :: e in r && e.InputEffect? ==>
      (exists i :: InputEffect(e.kind, i) in condEffs && CondOperand(i, condNconsts, bodyNconsts) == e.index) ||
      (exists i :: InputEffect(e.kind, i) in bodyEffs && BodyOperand(i, condNconsts) == e.index)
  {
    var fromCond := set e | e in condEffs :: RemapCond(e, condNconsts, bodyNconsts);
    var fromBody := set e | e in bodyEffs :: RemapBody(e, condNconsts);
    var r := fromCond + fromBody;
    assert Kinds(fromCond) == Kinds(condEffs) by {
      forall k | k in Kinds(condEffs) ensures k in Kinds(fromCond) {
        var e :| e in condEffs && e.kind == k;
        assert RemapCond(e, condNconsts, bodyNconsts) in fromCond;
      }
    }
    assert Kinds(fromBody) == Kinds(bodyEffs) by {
      forall k | k in Kinds(bodyEffs) ensures k in Kinds(fromBody) {
        var e :| e in bodyEffs && e.kind == k;
        assert RemapBody(e, condNconsts) in fromBody;
      }
    }
    assert Kinds(r) == Kinds(fromCond) + Kinds(fromBody);
    forall e | e in condEffs && e.OtherEffect? ensures e in r {
      assert RemapCond(e, condNconsts, bodyNconsts) == e;
    }
    forall e | e in bodyEffs && e.OtherEffect? ensures e in r {
      assert RemapBody(e, condNconsts) == e;
    }
    r
  }

  /** The renumbering points at the same operand: predicate input `i` and
      `while` operand `CondOperand(i)` are the same value, and so are body
      input `i` and operand `BodyOperand(i)`. */
  lemma RemapNamesSameOperand<V>(cc: seq<V>, bc: seq<V>, carry: seq<V>, i: nat)
    ensures i < |cc| + |carry| ==>
      CondOperand(i, |cc|, |bc|) < |cc| + |bc| + |carry| &&
      (cc + carry)[i] == (cc + bc + carry)[CondOperand(i, |cc|, |bc|)]
    ensures i < |bc| + |carry| ==>
      BodyOperand(i, |cc|) < |cc| + |bc| + |carry| &&
      (bc + carry)[i] == (cc + bc + carry)[BodyOperand(i, |cc|)]
  {
    var ops := cc + bc + carry;
    if i < |cc| + |carry| {
      if i < |cc| {
        assert (cc + carry)[i] == cc[i] == ops[i];
      } else {
        assert (cc + carry)[i] == carry[i - |cc|] == ops[i + |bc|];
      }
    }
    if i < |bc| + |carry| {
      if i < |bc| {
        assert (bc + carry)[i] == bc[i] == ops[i + |cc|];
      } else {
        assert (bc + carry)[i] == carry[i - |bc|] == ops[i + |cc|];
      }
    }
  }

  /** Effects whose indices are valid inputs of the predicate or body have
      valid operand indices after the join. */
  lemma JoinedIndicesInRange(bodyEffs: set<Effect>, condEffs: set<Effect>, bodyNconsts: nat,
                             condNconsts: nat, numCarry: nat)
    requires forall e :: e in condEffs && e.InputEffect? ==> 0 <= e.index < condNconsts + numCarry
    requires forall e :: e in bodyEffs && e.InputEffect? ==> 0 <= e.index < bodyNconsts + numCarry
    ensures forall e :: e in JoinWhileEffects(bodyEffs, condEffs, bodyNconsts, condNconsts) && e.InputEffect? ==>
      0 <= e.index < condNconsts + bodyNconsts + numCarry
  {
    var r := JoinWhileEffects(bodyEffs, condEffs, bodyNconsts, condNconsts);
    forall e | e in r && e.InputEffect? ensures 0 <= e.index < condNconsts + bodyNconsts + numCarry {
      if i :| InputEffect(e.kind, i) in condEffs && CondOperand(i, condNconsts, bodyNconsts) == e.index {
        assert InputEffect(e.kind, i).index == i;
      } else {
        var i :| InputEffect(e.kind, i) in bodyEffs && BodyOperand(i, condNconsts) == e.index;
        assert InputEffect(e.kind, i).index == i;
      }
    }
  }

  // ----- abstract evaluation -----

  /** `_while_loop_abstract_eval`: the operands split (with Python slicing)
      into predicate consts, body consts and carry; predicate and body arities
      must match, and every joined effect must be of an allowed kind. The
      result is the body's output types and the joined effects. */
  function WhileAbstractEval(avals: seq<Aval>, condIn: nat, bodyIn: nat, bodyOut: seq<Aval>,
                             condNconsts: nat, bodyNconsts: nat, condEffs: set<Effect>,
                             bodyEffs: set<Effect>, allowed: set<string>): (r: Result<(seq<Aval>, set<Effect>)>)
    ensures condNconsts + bodyNconsts <= |avals| ==>
      (r.Ok? <==> condIn == |avals| - bodyNconsts && bodyIn == |avals| - condNconsts &&
                  Kinds(condEffs) + Kinds(bodyEffs) <= allowed)
    ensures r.Err? ==> r.error == JaxprTypeError || r.error == NotImplementedError
    ensures r.Err? && r.error == NotImplementedError ==> !(Kinds(condEffs) + Kinds(bodyEffs) <= allowed)
    ensures r.Ok? ==> r.value.0 == bodyOut &&
                      r.value.1 == JoinWhileEffects(bodyEffs, condEffs, bodyNconsts, condNconsts)
  {
    var (cc, bc, carry) := Split3(avals, condNconsts, bodyNconsts);
    if condIn != |cc| + |carry| then Err(JaxprTypeError)
    else if bodyIn != |bc| + |carry| then Err(JaxprTypeError)
    else
      var joined := JoinWhileEffects(bodyEffs, condEffs, bodyNconsts, condNconsts);
      if !(Kinds(joined) <= allowed) then Err(NotImplementedError)
      else Ok((bodyOut, joined))
  }

  /** Too few operands for the declared consts: Python slicing leaves the
      carry empty, so the check compares the arities with the truncated
      lists rather than failing on the split. */
  lemma ShortOperandsTruncate(avals: seq<Aval>, condIn: nat, bodyIn: nat, bodyOut: seq<Aval>,
                              condNconsts: nat, bodyNconsts: nat, allowed: set<string>)
    requires condNconsts <= |avals| < condNconsts + bodyNconsts
    requires condIn == condNconsts && bodyIn == |avals| - condNconsts
    ensures WhileAbstractEval(avals, condIn, bodyIn, bodyOut, condNconsts, bodyNconsts, {}, {}, allowed).Ok?
  {
    var (cc, bc, carry) := Split3(avals, condNconsts, bodyNconsts);
    assert |cc| == condNconsts;
    assert |bc| == |avals| - condNconsts && carry == [];
    assert Kinds({}) == {};
  }
}
