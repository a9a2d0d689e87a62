/** List bookkeeping shared by every loop rule: the helpers the source imports
    as `split_list`, `partition_list` and `merge_lists`, the scan module's
    `_move_right`, and counting, products and pointwise flag operations. */
module Lists {

  function Repeat<T>(x: T, n: nat): (r: seq<T>)
    ensures |r| == n
    ensures forall i :: 0 <= i < n ==> r[i] == x
  {
    if n == 0 then [] else [x] + Repeat(x, n - 1)
  }

  /** `sum(flags)`: how many flags are set. */
  function Count(bs: seq<bool>): (n: nat)
    ensures n <= |bs|
  {
    if |bs| == 0 then 0 else (if bs[0] then 1 else 0) + Count(bs[1..])
  }

  lemma {:induction false} CountAppend(a: seq<bool>, b: seq<bool>)
    ensures Count(a + b) == Count(a) + Count(b)
  {
    if |a| > 0 {
      assert (a + b)[0] == a[0];
      assert (a + b)[1..] == a[1..] + b;
      CountAppend(a[1..], b);
    } else {
      assert a + b == b;
    }
  }

  lemma CountRepeat(x: bool, n: nat)
    ensures Count(Repeat(x, n)) == if x then n else 0
  {
    if n > 0 {
      assert Repeat(x, n)[1..] == Repeat(x, n - 1);
      CountRepeat(x, n - 1);
    }
  }

  lemma {:induction false} CountAllTrue(bs: seq<bool>)
    requires Count(bs) == |bs|
    ensures forall i :: 0 <= i < |bs| ==> bs[i]
  {
    if |bs| > 0 {
      CountAllTrue(bs[1..]);
      forall i | 0 <= i < |bs| ensures bs[i] {
        if i > 0 { assert bs[i] == bs[1..][i - 1]; }
      }
    }
  }

  lemma {:induction false} CountNoneTrue(bs: seq<bool>)
    requires Count(bs) == 0
    ensures forall i :: 0 <= i < |bs| ==> !bs[i]
  {
    if |bs| > 0 {
      CountNoneTrue(bs[1..]);
      forall i | 0 <= i < |bs| ensures !bs[i] {
        if i > 0 { assert bs[i] == bs[1..][i - 1]; }
      }
    }
  }

  /** Pointwise `operator.or_` over two flag vectors of equal length. */
  function Or(a: seq<bool>, b: seq<bool>): (r: seq<bool>)
    requires |a| == |b|
    ensures |r| == |a|
    ensures forall i :: 0 <= i < |a| ==> r[i] == (a[i] || b[i])
  {
    seq(|a|, i requires 0 <= i < |a| => a[i] || b[i])
  }

  /** Pointwise implication: every flag set in `a` is set in `b`. */
  predicate Leq(a: seq<bool>, b: seq<bool>) {
    |a| == |b| && forall i :: 0 <= i < |a| ==> a[i] ==> b[i]
  }

  lemma {:induction false} CountMonotone(a: seq<bool>, b: seq<bool>)
    requires Leq(a, b)
    ensures Count(a) <= Count(b)
    ensures Count(a) == Count(b) ==> a == b
  {
    if |a| > 0 {
      assert Leq(a[1..], b[1..]);
      CountMonotone(a[1..], b[1..]);
      if Count(a) == Count(b) {
        assert a[0] == b[0];
        assert a == [a[0]] + a[1..];
        assert b == [b[0]] + b[1..];
      }
    }
  }

  /** `split_list(xs, [n])`: Python slicing, so an `n` beyond the end
      truncates instead of failing. */
  function SplitAt<T>(xs: seq<T>, n: nat): (r: (seq<T>, seq<T>))
    ensures r.0 + r.1 == xs
    ensures |r.0| == if n <= |xs| then n else |xs|
  {
    if n <= |xs| then (xs[..n], xs[n..]) else (xs, [])
  }

  /** `split_list(xs, [a, b])`, the three-way split into consts, carry and
      sequence operands used by every scan rule. */
  function Split3<T>(xs: seq<T>, a: nat, b: nat): (r: (seq<T>, seq<T>, seq<T>))
    ensures r.0 + r.1 + r.2 == xs
    ensures a + b <= |xs| ==> |r.0| == a && |r.1| == b && |r.2| == |xs| - a - b
    ensures a + b <= |xs| ==> forall i :: 0 <= i < |xs| ==>
      xs[i] == (if i < a then r.0[i] else if i < a + b then r.1[i - a] else r.2[i - a - b])
  {
    var (p, rest) := SplitAt(xs, a);
    var (q, s) := SplitAt(rest, b);
    (p, q, s)
  }

  /** `partition_list(bs, l)`: the elements whose flag is false, then those
      whose flag is true, each in original order. */
  function Partition<T>(bs: seq<bool>, l: seq<T>): (r: (seq<T>, seq<T>))
    requires |bs| == |l|
    ensures |r.0| == |bs| - Count(bs) && |r.1| == Count(bs)
  {
    if |bs| == 0 then ([], [])
    else
      var (f, t) := Partition(bs[1..], l[1..]);
      if bs[0] then (f, [l[0]] + t) else ([l[0]] + f, t)
  }

  /** `merge_lists(bs, l0, l1)`: the inverse of `Partition`, drawing from `l1`
      where the flag is set and from `l0` elsewhere. */
  function Merge<T>(bs: seq<bool>, l0: seq<T>, l1: seq<T>): (r: seq<T>)
    requires |l1| == Count(bs) && |l0| == |bs| - Count(bs)
    ensures |r| == |bs|
  {
    if |bs| == 0 then []
    else if bs[0] then [l1[0]] + Merge(bs[1..], l0, l1[1..])
    else [l0[0]] + Merge(bs[1..], l0[1..], l1)
  }

  lemma {:induction false} MergePartition<T>(bs: seq<bool>, l: seq<T>)
    requires |bs| == |l|
    ensures Merge(bs, Partition(bs, l).0, Partition(bs, l).1) == l
  {
    if |bs| > 0 {
      MergePartition(bs[1..], l[1..]);
      assert l == [l[0]] + l[1..];
    }
  }

  lemma {:induction false} PartitionMerge<T>(bs: seq<bool>, l0: seq<T>, l1: seq<T>)
    requires |l1| == Count(bs) && |l0| == |bs| - Count(bs)
    ensures Partition(bs, Merge(bs, l0, l1)) == (l0, l1)
  {
    if |bs| > 0 {
      var m := Merge(bs, l0, l1);
      if bs[0] {
        PartitionMerge(bs[1..], l0, l1[1..]);
        assert m[1..] == Merge(bs[1..], l0, l1[1..]);
        assert l1 == [l1[0]] + l1[1..];
      } else {
        PartitionMerge(bs[1..], l0[1..], l1);
        assert m[1..] == Merge(bs[1..], l0[1..], l1);
        assert l0 == [l0[0]] + l0[1..];
      }
    }
  }

  /** Where position `i` lands: its rank among the positions with the same flag. */
  lemma {:induction false} MergeIndex<T>(bs: seq<bool>, l0: seq<T>, l1: seq<T>, i: nat)
    requires |l1| == Count(bs) && |l0| == |bs| - Count(bs)
    requires i < |bs|
    ensures Count(bs[..i]) <= |l1| && i - Count(bs[..i]) <= |l0|
    ensures bs[i] ==> Count(bs[..i]) < |l1| && Merge(bs, l0, l1)[i] == l1[Count(bs[..i])]
    ensures !bs[i] ==> i - Count(bs[..i]) < |l0| && Merge(bs, l0, l1)[i] == l0[i - Count(bs[..i])]
  {
    CountPrefix(bs, i);
    if i > 0 {
      CountPrefixTail(bs, i);
      if bs[0] {
        MergeIndex(bs[1..], l0, l1[1..], i - 1);
      } else {
        MergeIndex(bs[1..], l0[1..], l1, i - 1);
      }
    }
  }

  /** The flags before position `i` leave room for the flag at `i`. */
  lemma CountPrefix(bs: seq<bool>, i: nat)
    requires i < |bs|
    ensures Count(bs[..i]) + (if bs[i] then 1 else 0) <= Count(bs)
    ensures i - Count(bs[..i]) + (if bs[i] then 0 else 1) <= |bs| - Count(bs)
  {
    assert bs == bs[..i] + bs[i..];
    CountAppend(bs[..i], bs[i..]);
    assert bs[i..] == [bs[i]] + bs[i + 1..];
    CountAppend([bs[i]], bs[i + 1..]);
  }

  lemma CountPrefixTail(bs: seq<bool>, i: nat)
    requires 0 < i <= |bs|
    ensures Count(bs[..i]) == (if bs[0] then 1 else 0) + Count(bs[1..][..i - 1])
  {
    assert bs[1..][..i - 1] == bs[1..i];
    assert bs[..i] == [bs[0]] + bs[1..i];
    CountAppend([bs[0]], bs[1..i]);
  }


  /** `_move_right(lst, to_move)`: among the first `|toMove|` entries, those
      not flagged keep their order in front of the flagged ones; the tail
      beyond `toMove` is untouched. */
  function MoveRight<T>(lst: seq<T>, toMove: seq<bool>): (r: seq<T>)
    requires |toMove| <= |lst|
    ensures |r| == |lst|
    ensures multiset(r) == multiset(lst)
    ensures r[|toMove|..] == lst[|toMove|..]
    ensures r[..|toMove| - Count(toMove)] == Partition(toMove, lst[..|toMove|]).0
  {
    var (head, rest) := SplitAt(lst, |toMove|);
    var (left, right) := Partition(toMove, head);
    PartitionMultiset(toMove, head);
    assert lst == head + rest;
    assert (left + right + rest)[..|left|] == left;
    left + right + rest
  }

  lemma {:induction false} PartitionMultiset<T>(bs: seq<bool>, l: seq<T>)
    requires |bs| == |l|
    ensures multiset(Partition(bs, l).0) + multiset(Partition(bs, l).1) == multiset(l)
  {
    if |bs| > 0 {
      PartitionMultiset(bs[1..], l[1..]);
      assert l == [l[0]] + l[1..];
    }
  }

  /** Undoing `_move_right`: merging the moved entries back by their flags. */
  lemma MoveRightInverse<T>(lst: seq<T>, toMove: seq<bool>)
    requires |toMove| <= |lst|
    ensures var k := |toMove| - Count(toMove);
            var r := MoveRight(lst, toMove);
            Merge(toMove, r[..k], r[k..|toMove|]) + r[|toMove|..] == lst
  {
    var n := |toMove|;
    var k := n - Count(toMove);
    var head := lst[..n];
    var p := Partition(toMove, head);
    var r := MoveRight(lst, toMove);
    assert r == p.0 + p.1 + lst[n..];
    assert r[..k] == p.0;
    assert r[k..n] == p.1;
    assert r[n..] == lst[n..];
    MergePartition(toMove, head);
    assert lst == head + lst[n..];
  }

  function Product(s: seq<int>): int {
    if |s| == 0 then 1 else s[0] * Product(s[1..])
  }

  lemma {:induction false} ProductAppend(a: seq<int>, b: seq<int>)
    ensures Product(a + b) == Product(a) * Product(b)
  {
    if |a| > 0 {
      assert (a + b)[0] == a[0];
      assert (a + b)[1..] == a[1..] + b;
      ProductAppend(a[1..], b);
      assert Product(a + b) == a[0] * (Product(a[1..]) * Product(b));
    } else {
      assert a + b == b;
    }
  }

  predicate AllPositive(s: seq<int>) {
    forall i :: 0 <= i < |s| ==> s[i] > 0
  }

  lemma {:induction false} ProductPositive(s: seq<int>)
    requires AllPositive(s)
    ensures Product(s) > 0
  {
    if |s| > 0 {
      assert AllPositive(s[1..]);
      ProductPositive(s[1..]);
    }
  }

  lemma {:induction false} ProductOneMeansOnes(s: seq<int>)
    requires AllPositive(s) && Product(s) == 1
    ensures forall i :: 0 <= i < |s| ==> s[i] == 1
  {
    if |s| > 0 {
      assert AllPositive(s[1..]);
      ProductPositive(s[1..]);
      var p := Product(s[1..]);
      assert s[0] * p == 1;
      MulAtLeast(s[0], p);
      MulAtLeast(p, s[0]);
      ProductOneMeansOnes(s[1..]);
      forall i | 0 <= i < |s| ensures s[i] == 1 {
        if i > 0 { assert s[i] == s[1..][i - 1]; }
      }
    }
  }

  lemma MulAtLeast(a: int, b: int)
    requires a >= 0 && b >= 1
    ensures a <= a * b
  {
    assert a * b - a == a * (b - 1);
  }

  /** Concatenation of a list of lists. */
  function Flatten<X>(xss: seq<seq<X>>): (r: seq<X>) {
    if |xss| == 0 then [] else xss[0] + Flatten(xss[1..])
  }

  lemma {:induction false} FlattenAppend<X>(a: seq<seq<X>>, b: seq<seq<X>>)
    ensures Flatten(a + b) == Flatten(a) + Flatten(b)
    decreases |a|
  {
    if |a| == 0 {
      assert a + b == b;
    } else {
      assert (a + b)[1..] == a[1..] + b;
      FlattenAppend(a[1..], b);
    }
  }

  /** `range(n)`. */
  function Range(n: nat): (r: seq<int>)
    ensures |r| == n
    ensures forall i :: 0 <= i < n ==> r[i] == i
  {
    seq(n, i => i)
  }

  /** `xs[::-1]`. */
  function Reverse<T>(xs: seq<T>): (r: seq<T>)
    ensures |r| == |xs|
    ensures forall i :: 0 <= i < |xs| ==> r[i] == xs[|xs| - 1 - i]
  {
    seq(|xs|, i requires 0 <= i < |xs| => xs[|xs| - 1 - i])
  }

  lemma ReverseReverse<T>(xs: seq<T>)
    ensures Reverse(Reverse(xs)) == xs
  {
  }

  /** `s` lists each of `0 .. |s|-1` exactly once. */
  predicate IsPermutation(s: seq<int>) {
    (forall i :: 0 <= i < |s| ==> 0 <= s[i] < |s|) &&
    (forall i, j :: 0 <= i < j < |s| ==> s[i] != s[j])
  }
}
