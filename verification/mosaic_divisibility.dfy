/** `is_known_divisible` of the Mosaic GPU utilities
    (jax/experimental/mosaic/gpu/utils.py): a conservative, depth-bounded
    check that an integer SSA value is a multiple of a divisor, looking only
    at the operations that define it. Values are modelled as mathematical
    integers. */
module MosaicDivisibility {
  import opened MosaicShapes

  /** The four min/max operations the check treats alike. */
  datatype MinMax = MaxS | MinS | MaxU | MinU

  /** An integer SSA value, described by the operation that defines it.
      `Arg` is a value with no defining operation (a block argument);
      `Opaque` is one defined by an operation the check does not know. Both
      take their value from an environment. */
  datatype Expr =
    | Arg(id: nat)
    | Opaque(id: nat)
    | Constant(c: int)
    | IndexCast(a: Expr)
    | MulI(a: Expr, b: Expr)
    | Select(cond: Expr, t: Expr, f: Expr)
    | MinMaxI(kind: MinMax, a: Expr, b: Expr)
    | AddI(a: Expr, b: Expr)
    | SubI(a: Expr, b: Expr)
    | AndI(a: Expr, b: Expr)

  /** The default `max_depth`. */
  const DefaultDepth: int := 10

  function Abs(x: int): nat {
    if x < 0 then -x else x
  }

  /** Bitwise and on two's-complement integers of unbounded width. */
  function BitAnd(a: int, b: int): int
    decreases Abs(a) + Abs(b)
  {
    if a == 0 || b == 0 then 0
    else if a == -1 then b
    else if b == -1 then a
    else 2 * BitAnd(a / 2, b / 2) + (if a % 2 == 1 && b % 2 == 1 then 1 else 0)
  }

  /** Unsigned comparison of two's-complement values: a negative value has
      its top bit set, so it is larger than every non-negative one. */
  predicate UnsignedLess(a: int, b: int) {
    if (a < 0) == (b < 0) then a < b else a >= 0
  }

  function EvalMinMax(kind: MinMax, x: int, y: int): (r: int)
    ensures r == x || r == y
  {
    match kind
    case MaxS => if x < y then y else x
    case MinS => if x < y then x else y
    case MaxU => if UnsignedLess(x, y) then y else x
    case MinU => if UnsignedLess(x, y) then x else y
  }

  /** The value an expression denotes, with `env` giving the values of
      arguments and of unknown operations. */
  function Eval(e: Expr, env: nat -> int): int {
    match e
    case Arg(id) => env(id)
    case Opaque(id) => env(id)
    case Constant(c) => c
    case IndexCast(a) => Eval(a, env)
    case MulI(a, b) => Eval(a, env) * Eval(b, env)
    case Select(c, t, f) => if Eval(c, env) != 0 then Eval(t, env) else Eval(f, env)
    case MinMaxI(k, a, b) => EvalMinMax(k, Eval(a, env), Eval(b, env))
    case AddI(a, b) => Eval(a, env) + Eval(b, env)
    case SubI(a, b) => Eval(a, env) - Eval(b, env)
    case AndI(a, b) => BitAnd(Eval(a, env), Eval(b, env))
  }

  /** `int.bit_count()` of a non-negative integer. */
  function BitCount(n: nat): nat {
    if n == 0 then 0 else n % 2 + BitCount(n / 2)
  }

  function Pow2(k: nat): (r: nat)
    ensures r >= 1
  {
    if k == 0 then 1 else 2 * Pow2(k - 1)
  }

  /** `is_known_divisible(value, divisor, max_depth)`. */
  function IsKnownDivisible(e: Expr, divisor: int, depth: int): (r: bool)
    requires divisor > 0
    ensures divisor == 1 ==> r
    ensures divisor != 1 && depth < 0 ==> !r
    ensures divisor != 1 && (e.Arg? || e.Opaque?) ==> !r
  {
    if divisor == 1 then true
    else if depth < 0 || e.Arg? then false
    else
      match e
      case IndexCast(a) => IsKnownDivisible(a, divisor, depth - 1)
      case Constant(c) => c % divisor == 0
      case MulI(a, b) => IsKnownDivisible(a, divisor, depth - 1) || IsKnownDivisible(b, divisor, depth - 1)
      case Select(_, t, f) => IsKnownDivisible(t, divisor, depth - 1) && IsKnownDivisible(f, divisor, depth - 1)
      case MinMaxI(_, a, b) => IsKnownDivisible(a, divisor, depth - 1) && IsKnownDivisible(b, divisor, depth - 1)
      case AddI(a, b) => IsKnownDivisible(a, divisor, depth - 1) && IsKnownDivisible(b, divisor, depth - 1)
      case SubI(a, b) => IsKnownDivisible(a, divisor, depth - 1) && IsKnownDivisible(b, divisor, depth - 1)
      case AndI(a, b) =>
        BitCount(divisor) == 1 &&
        (IsKnownDivisible(a, divisor, depth - 1) || IsKnownDivisible(b, divisor, depth - 1))
      case _ => false
  }

  // ---------------------------------------------------------------------
  // Arithmetic facts

  lemma MulMultiple(d: int, a: int, b: int)
    requires d > 0 && a % d == 0
    ensures (a * b) % d == 0
  {
    var q := a / d;
    assert a == d * q;
    assert a * b == d * (q * b);
    DivExact(a * b, d, q * b);
  }

  lemma AddMultiple(d: int, a: int, b: int)
    requires d > 0 && a % d == 0 && b % d == 0
    ensures (a + b) % d == 0 && (a - b) % d == 0
  {
    var p, q := a / d, b / d;
    assert a == d * p && b == d * q;
    DivExact(a + b, d, p + q);
    DivExact(a - b, d, p - q);
  }

  /** A power of two is the only positive number with a single set bit. */
  lemma {:induction false} SingleBit(n: nat)
    ensures BitCount(n) == 1 <==> exists k: nat :: n == Pow2(k)
  {
    if BitCount(n) == 1 {
      var k := LogOf(n);
    }
    if k: nat :| n == Pow2(k) {
      Pow2BitCount(k);
    }
  }

  lemma {:induction false} LogOf(n: nat) returns (k: nat)
    requires BitCount(n) == 1
    ensures n == Pow2(k)
  {
    if n % 2 == 1 {
      NoBits(n / 2);
      k := 0;
    } else {
      k := LogOf(n / 2);
      k := k + 1;
    }
  }

  lemma {:induction false} NoBits(n: nat)
    requires BitCount(n) == 0
    ensures n == 0
  {
    if n > 0 {
      NoBits(n / 2);
    }
  }

  lemma {:induction false} Pow2BitCount(k: nat)
    ensures BitCount(Pow2(k)) == 1
  {
    if k > 0 {
      Pow2BitCount(k - 1);
      assert Pow2(k) / 2 == Pow2(k - 1);
    }
  }

  /** The low `k` bits of `a` are clear. */
  predicate LowBitsClear(k: nat, a: int) {
    k == 0 || (a % 2 == 0 && LowBitsClear(k - 1, a / 2))
  }

  /** Being a multiple of `2^k` is having the low `k` bits clear. */
  lemma {:induction false} MultipleOfPow2(k: nat, a: int)
    ensures a % Pow2(k) == 0 <==> LowBitsClear(k, a)
  {
    if k > 0 {
      MultipleOfPow2(k - 1, a / 2);
      if a % Pow2(k) == 0 {
        HalveMultiple(k, a);
      }
      if LowBitsClear(k, a) {
        DoubleMultiple(k, a / 2);
      }
    }
  }

  lemma {:induction false} ZeroBitsClear(k: nat)
    ensures LowBitsClear(k, 0)
  {
    if k > 0 {
      ZeroBitsClear(k - 1);
    }
  }

  /** Masking anything with a value whose low `k` bits are clear leaves
      them clear. */
  lemma {:induction false} BitAndKeepsLowBits(k: nat, a: int, b: int)
    requires LowBitsClear(k, a)
    ensures LowBitsClear(k, BitAnd(a, b))
  {
    if k > 0 {
      if a == 0 || b == 0 {
        ZeroBitsClear(k);
      } else if b != -1 {
        BitAndEven(a, b);
        var x := BitAnd(a / 2, b / 2);
        BitAndKeepsLowBits(k - 1, a / 2, b / 2);
        assert (2 * x) / 2 == x;
      }
    }
  }

  /** Masking a multiple of `2^k` with anything keeps it a multiple of
      `2^k`. */
  lemma BitAndMultiple(k: nat, a: int, b: int)
    requires a % Pow2(k) == 0
    ensures BitAnd(a, b) % Pow2(k) == 0
  {
    MultipleOfPow2(k, a);
    BitAndKeepsLowBits(k, a, b);
    MultipleOfPow2(k, BitAnd(a, b));
  }

  lemma BitAndEven(a: int, b: int)
    requires a % 2 == 0 && a != 0 && b != 0 && b != -1
    ensures BitAnd(a, b) == 2 * BitAnd(a / 2, b / 2)
  {
  }

  lemma HalveMultiple(k: nat, a: int)
    requires k > 0 && a % Pow2(k) == 0
    ensures a % 2 == 0 && (a / 2) % Pow2(k - 1) == 0
  {
    var p, m := Pow2(k - 1), a / Pow2(k);
    assert a == Pow2(k) * m;
    assert a == 2 * (p * m);
    DivExact(a, 2, p * m);
    DivExact(a / 2, p, m);
  }

  lemma DoubleMultiple(k: nat, x: int)
    requires k > 0 && x % Pow2(k - 1) == 0
    ensures (2 * x) % Pow2(k) == 0
  {
    var p, n := Pow2(k - 1), x / Pow2(k - 1);
    assert x == p * n;
    assert 2 * x == (2 * p) * n;
    DivExact(2 * x, Pow2(k), n);
  }

  lemma {:induction false} BitAndComm(a: int, b: int)
    ensures BitAnd(a, b) == BitAnd(b, a)
    decreases Abs(a) + Abs(b)
  {
    if a != 0 && b != 0 && a != -1 && b != -1 {
      BitAndComm(a / 2, b / 2);
    }
  }

  // ---------------------------------------------------------------------
  // Properties

  /** Soundness: whenever the check answers yes, the value is a multiple of
      the divisor, whatever the arguments and unknown operations hold. */
  lemma {:induction false} KnownDivisibleSound(e: Expr, divisor: int, depth: int, env: nat -> int)
    requires divisor > 0 && IsKnownDivisible(e, divisor, depth)
    ensures Eval(e, env) % divisor == 0
  {
    if divisor == 1 {
      return;
    }
    match e
    case IndexCast(a) =>
      KnownDivisibleSound(a, divisor, depth - 1, env);
    case Constant(c) =>
    case MulI(a, b) =>
      if IsKnownDivisible(a, divisor, depth - 1) {
        KnownDivisibleSound(a, divisor, depth - 1, env);
        MulMultiple(divisor, Eval(a, env), Eval(b, env));
      } else {
        KnownDivisibleSound(b, divisor, depth - 1, env);
        MulMultiple(divisor, Eval(b, env), Eval(a, env));
      }
    case Select(c, t, f) =>
      KnownDivisibleSound(t, divisor, depth - 1, env);
      KnownDivisibleSound(f, divisor, depth - 1, env);
    case MinMaxI(k, a, b) =>
      KnownDivisibleSound(a, divisor, depth - 1, env);
      KnownDivisibleSound(b, divisor, depth - 1, env);
    case AddI(a, b) =>
      KnownDivisibleSound(a, divisor, depth - 1, env);
      KnownDivisibleSound(b, divisor, depth - 1, env);
      AddMultiple(divisor, Eval(a, env), Eval(b, env));
    case SubI(a, b) =>
      KnownDivisibleSound(a, divisor, depth - 1, env);
      KnownDivisibleSound(b, divisor, depth - 1, env);
      AddMultiple(divisor, Eval(a, env), Eval(b, env));
    case AndI(a, b) =>
      var k := LogOf(divisor);
      if IsKnownDivisible(a, divisor, depth - 1) {
        KnownDivisibleSound(a, divisor, depth - 1, env);
        BitAndMultiple(k, Eval(a, env), Eval(b, env));
      } else {
        KnownDivisibleSound(b, divisor, depth - 1, env);
        BitAndMultiple(k, Eval(b, env), Eval(a, env));
        BitAndComm(Eval(a, env), Eval(b, env));
      }
  }

  /** A larger depth budget never turns a yes into a no. */
  lemma {:induction false} KnownDivisibleMonotone(e: Expr, divisor: int, depth: int)
    requires divisor > 0 && IsKnownDivisible(e, divisor, depth)
    ensures IsKnownDivisible(e, divisor, depth + 1)
  {
    if divisor != 1 {
      match e
      case IndexCast(a) =>
        KnownDivisibleMonotone(a, divisor, depth - 1);
      case Constant(_) =>
      case MulI(a, b) =>
        if IsKnownDivisible(a, divisor, depth - 1) {
          KnownDivisibleMonotone(a, divisor, depth - 1);
        } else {
          KnownDivisibleMonotone(b, divisor, depth - 1);
        }
      case Select(_, t, f) =>
        KnownDivisibleMonotone(t, divisor, depth - 1);
        KnownDivisibleMonotone(f, divisor, depth - 1);
      case MinMaxI(_, a, b) =>
        KnownDivisibleMonotone(a, divisor, depth - 1);
        KnownDivisibleMonotone(b, divisor, depth - 1);
      case AddI(a, b) =>
        KnownDivisibleMonotone(a, divisor, depth - 1);
        KnownDivisibleMonotone(b, divisor, depth - 1);
      case SubI(a, b) =>
        KnownDivisibleMonotone(a, divisor, depth - 1);
        KnownDivisibleMonotone(b, divisor, depth - 1);
      case AndI(a, b) =>
        if IsKnownDivisible(a, divisor, depth - 1) {
          KnownDivisibleMonotone(a, divisor, depth - 1);
        } else {
          KnownDivisibleMonotone(b, divisor, depth - 1);
        }
    }
  }

  /** The expression cut off below `levels` levels: deeper operands become
      unknown values. */
  function Prune(e: Expr, levels: nat): (r: Expr) {
    if levels == 0 then Opaque(0)
    else
      match e
      case Arg(_) => e
      case Opaque(_) => e
      case Constant(_) => e
      case IndexCast(a) => IndexCast(Prune(a, levels - 1))
      case MulI(a, b) => MulI(Prune(a, levels - 1), Prune(b, levels - 1))
      case Select(c, t, f) => Select(Prune(c, levels - 1), Prune(t, levels - 1), Prune(f, levels - 1))
      case MinMaxI(k, a, b) => MinMaxI(k, Prune(a, levels - 1), Prune(b, levels - 1))
      case AddI(a, b) => AddI(Prune(a, levels - 1), Prune(b, levels - 1))
      case SubI(a, b) => SubI(Prune(a, levels - 1), Prune(b, levels - 1))
      case AndI(a, b) => AndI(Prune(a, levels - 1), Prune(b, levels - 1))
  }

  /** The depth bound: with `max_depth = n` the answer depends only on the
      top `n + 1` levels of operations. */
  lemma {:induction false} KnownDivisibleLooksOnlyToDepth(e: Expr, divisor: int, depth: int)
    requires divisor > 0 && depth >= 0
    ensures IsKnownDivisible(Prune(e, depth + 1), divisor, depth) == IsKnownDivisible(e, divisor, depth)
  {
    if divisor != 1 && depth > 0 {
      match e
      case Arg(_) =>
      case Opaque(_) =>
      case Constant(_) =>
      case IndexCast(a) =>
        KnownDivisibleLooksOnlyToDepth(a, divisor, depth - 1);
      case MulI(a, b) =>
        KnownDivisibleLooksOnlyToDepth(a, divisor, depth - 1);
        KnownDivisibleLooksOnlyToDepth(b, divisor, depth - 1);
      case Select(_, t, f) =>
        KnownDivisibleLooksOnlyToDepth(t, divisor, depth - 1);
        KnownDivisibleLooksOnlyToDepth(f, divisor, depth - 1);
      case MinMaxI(_, a, b) =>
        KnownDivisibleLooksOnlyToDepth(a, divisor, depth - 1);
        KnownDivisibleLooksOnlyToDepth(b, divisor, depth - 1);
      case AddI(a, b) =>
        KnownDivisibleLooksOnlyToDepth(a, divisor, depth - 1);
        KnownDivisibleLooksOnlyToDepth(b, divisor, depth - 1);
      case SubI(a, b) =>
        KnownDivisibleLooksOnlyToDepth(a, divisor, depth - 1);
        KnownDivisibleLooksOnlyToDepth(b, divisor, depth - 1);
      case AndI(a, b) =>
        KnownDivisibleLooksOnlyToDepth(a, divisor, depth - 1);
        KnownDivisibleLooksOnlyToDepth(b, divisor, depth - 1);
    }
  }

  /** Masking applies only for power-of-two divisors: `x & 4` with `x` a
      multiple of 6 is not reported divisible by 6, while `x & 4` with `x` a
      multiple of 4 is reported divisible by 4. */
  lemma AndNeedsPowerOfTwo()
    ensures !IsKnownDivisible(AndI(Constant(12), Arg(0)), 6, DefaultDepth)
    ensures IsKnownDivisible(AndI(Constant(12), Arg(0)), 4, DefaultDepth)
  {
    assert BitCount(6) == 2 by {
      assert BitCount(3) == 2;
    }
    assert BitCount(4) == 1 by {
      assert BitCount(2) == 1;
    }
  }

  /** Soundness rests on unbounded values. The operations work on 32-bit
      or 64-bit integers, where a product wraps around; for a divisor that
      is not a power of two a wrapped multiple need not stay one.
      The analysis reports `x * 3` divisible by 3, yet when the argument
      `x` holds 1431655766 the 32-bit product is 2. */
  lemma WrappedProductNotDivisible(env: nat -> int)
    requires env(0) == 1431655766
    ensures IsKnownDivisible(MulI(Arg(0), Constant(3)), 3, DefaultDepth)
    ensures Eval(MulI(Arg(0), Constant(3)), env) % 0x1_0000_0000 == 2
  {
    assert IsKnownDivisible(Constant(3), 3, DefaultDepth - 1);
    WrappedProduct(env);
  }

  /** The wrapped product itself. */
  lemma WrappedProduct(env: nat -> int)
    requires env(0) == 1431655766
    ensures Eval(MulI(Arg(0), Constant(3)), env) % 0x1_0000_0000 == 2
  {
    var x := Eval(MulI(Arg(0), Constant(3)), env);
    assert x == 1431655766 * 3;
    assert x == 0x1_0000_0000 + 2;
  }
}
