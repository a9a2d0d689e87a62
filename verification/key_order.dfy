/** Python dictionaries as lists of items with distinct keys, and
    `sorted(d.items())` for such a list: with distinct keys the order of the
    items is the order of their keys. */
module KeyOrder {

  /** A strict total order on keys. */
  ghost predicate StrictTotal<K(!new)>(lt: (K, K) -> bool) {
    (forall a :: !lt(a, a)) &&
    (forall a, b, c :: lt(a, b) && lt(b, c) ==> lt(a, c)) &&
    (forall a, b :: a != b ==> lt(a, b) || lt(b, a))
  }

  /** The items of a dictionary: no key occurs twice. */
  predicate DistinctKeys<K(==), V(==)>(s: seq<(K, V)>) {
    forall i, j :: 0 <= i < j < |s| ==> s[i].0 != s[j].0
  }

  /** Keys strictly increase along the list. */
  predicate SortedBy<K(==), V(==)>(lt: (K, K) -> bool, s: seq<(K, V)>) {
    forall i, j :: 0 <= i < j < |s| ==> lt(s[i].0, s[j].0)
  }

  /** Places an item before the first item with a larger key. */
  function InsertByKey<K(==), V(==)>(lt: (K, K) -> bool, x: (K, V), s: seq<(K, V)>): (r: seq<(K, V)>)
    ensures multiset(r) == multiset(s) + multiset{x}
  {
    if |s| == 0 || lt(x.0, s[0].0) then [x] + s
    else
      var t := InsertByKey(lt, x, s[1..]);
      assert s == [s[0]] + s[1..];
      [s[0]] + t
  }

  /** `sorted(items)` for items with distinct keys. */
  function SortByKey<K(==), V(==)>(lt: (K, K) -> bool, s: seq<(K, V)>): (r: seq<(K, V)>)
    ensures multiset(r) == multiset(s)
  {
    if |s| == 0 then []
    else
      assert s == [s[0]] + s[1..];
      InsertByKey(lt, s[0], SortByKey(lt, s[1..]))
  }

  lemma {:induction false} InsertSorted<K(!new), V>(lt: (K, K) -> bool, x: (K, V), s: seq<(K, V)>)
    requires StrictTotal(lt) && SortedBy(lt, s)
    requires forall i :: 0 <= i < |s| ==> s[i].0 != x.0
    ensures SortedBy(lt, InsertByKey(lt, x, s))
  {
    if |s| == 0 || lt(x.0, s[0].0) {
      SortedCons(lt, x, s);
    } else {
      var t := s[1..];
      SortedTail(lt, s);
      InsertSorted(lt, x, t);
      var r := InsertByKey(lt, x, t);
      InsertHead(lt, x, t);
      if |t| > 0 {
        assert lt(s[0].0, t[0].0) by {
          assert t[0] == s[1];
        }
      }
      SortedCons(lt, s[0], r);
    }
  }

  /** The first item after an insertion is the inserted one or the old
      first. */
  lemma InsertHead<K, V>(lt: (K, K) -> bool, x: (K, V), s: seq<(K, V)>)
    ensures |InsertByKey(lt, x, s)| == |s| + 1
    ensures InsertByKey(lt, x, s)[0] == x || (|s| > 0 && InsertByKey(lt, x, s)[0] == s[0])
  {
    assert |multiset(InsertByKey(lt, x, s))| == |multiset(s)| + 1;
  }

  /** An item with a smaller key than the head of a sorted list extends
      it. */
  lemma SortedCons<K(!new), V>(lt: (K, K) -> bool, y: (K, V), t: seq<(K, V)>)
    requires StrictTotal(lt) && SortedBy(lt, t)
    requires |t| > 0 ==> lt(y.0, t[0].0)
    ensures SortedBy(lt, [y] + t)
  {
    var r := [y] + t;
    forall i, j | 0 <= i < j < |r| ensures lt(r[i].0, r[j].0) {
      if i == 0 {
        assert r[j] == t[j - 1];
        if j > 1 {
          assert lt(t[0].0, t[j - 1].0);
        }
      } else {
        assert r[i] == t[i - 1] && r[j] == t[j - 1];
      }
    }
  }

  /** Sorting items with distinct keys orders them strictly by key. */
  lemma {:induction false} SortSorted<K(!new), V>(lt: (K, K) -> bool, s: seq<(K, V)>)
    requires StrictTotal(lt) && DistinctKeys(s)
    ensures SortedBy(lt, SortByKey(lt, s))
  {
    if |s| > 0 {
      assert DistinctKeys(s[1..]) by {
        forall i, j | 0 <= i < j < |s| - 1 ensures s[1..][i].0 != s[1..][j].0 {
          assert s[1..][i] == s[i + 1] && s[1..][j] == s[j + 1];
        }
      }
      SortSorted(lt, s[1..]);
      var t := SortByKey(lt, s[1..]);
      forall i | 0 <= i < |t| ensures t[i].0 != s[0].0 {
        assert t[i] in multiset(s[1..]);
        var k :| 0 <= k < |s[1..]| && s[1..][k] == t[i];
        assert s[k + 1] == t[i];
      }
      InsertSorted(lt, s[0], t);
    }
  }

  /** Two lists sorted strictly by key holding the same items are the same
      list: `sorted` gives one canonical order. */
  lemma {:induction false} SortedUnique<K(!new), V>(lt: (K, K) -> bool, a: seq<(K, V)>, b: seq<(K, V)>)
    requires StrictTotal(lt) && SortedBy(lt, a) && SortedBy(lt, b)
    requires multiset(a) == multiset(b)
    ensures a == b
  {
    if |a| > 0 {
      assert |b| == |multiset(b)| == |multiset(a)| == |a|;
      SortedHeads(lt, a, b);
      assert a == [a[0]] + a[1..] && b == [b[0]] + b[1..];
      assert multiset(a[1..]) == multiset(a) - multiset{a[0]};
      assert multiset(b[1..]) == multiset(b) - multiset{b[0]};
      SortedTail(lt, a);
      SortedTail(lt, b);
      SortedUnique(lt, a[1..], b[1..]);
    } else {
      assert |b| == |multiset(b)| == 0;
    }
  }

  /** The tail of a sorted list is sorted. */
  lemma SortedTail<K(!new), V>(lt: (K, K) -> bool, a: seq<(K, V)>)
    requires SortedBy(lt, a) && |a| > 0
    ensures SortedBy(lt, a[1..])
  {
    forall p, q | 0 <= p < q < |a| - 1 ensures lt(a[1..][p].0, a[1..][q].0) {
      assert a[1..][p] == a[p + 1] && a[1..][q] == a[q + 1];
    }
  }

  /** Sorted lists holding the same items start with the same item. */
  lemma SortedHeads<K(!new), V>(lt: (K, K) -> bool, a: seq<(K, V)>, b: seq<(K, V)>)
    requires StrictTotal(lt) && SortedBy(lt, a) && SortedBy(lt, b)
    requires multiset(a) == multiset(b) && |a| > 0 && |b| > 0
    ensures a[0] == b[0]
  {
    assert a[0] in multiset(b);
    assert b[0] in multiset(a);
    var i :| 0 <= i < |b| && b[i] == a[0];
    var j :| 0 <= j < |a| && a[j] == b[0];
  }

  /** Keys sorted strictly are distinct. */
  lemma SortedDistinct<K(!new), V>(lt: (K, K) -> bool, s: seq<(K, V)>)
    requires StrictTotal(lt) && SortedBy(lt, s)
    ensures DistinctKeys(s)
  {
    forall i, j | 0 <= i < j < |s| ensures s[i].0 != s[j].0 {
      assert lt(s[i].0, s[j].0);
    }
  }

  /** `dict(items)`: later items overwrite earlier ones. */
  function ToMap<K(==), V(==)>(s: seq<(K, V)>): map<K, V> {
    if |s| == 0 then map[]
    else ToMap(s[..|s| - 1])[s[|s| - 1].0 := s[|s| - 1].1]
  }

  /** Every key of the dictionary comes from an item. */
  lemma {:induction false} ToMapKeys<K, V>(s: seq<(K, V)>, k: K)
    requires k in ToMap(s)
    ensures exists i :: 0 <= i < |s| && s[i].0 == k
  {
    var n := |s| - 1;
    if k != s[n].0 {
      ToMapKeys(s[..n], k);
      var i :| 0 <= i < n && s[..n][i].0 == k;
      assert s[i] == s[..n][i];
    }
  }

  /** With distinct keys, the dictionary maps each key to the value of its
      one item. */
  lemma {:induction false} ToMapAt<K, V>(s: seq<(K, V)>, i: nat)
    requires DistinctKeys(s) && i < |s|
    ensures s[i].0 in ToMap(s) && ToMap(s)[s[i].0] == s[i].1
  {
    var n := |s| - 1;
    if i < n {
      var init := s[..n];
      assert DistinctKeys(init) by {
        forall p, q | 0 <= p < q < n ensures init[p].0 != init[q].0 {
          assert init[p] == s[p] && init[q] == s[q];
        }
      }
      assert init[i] == s[i];
      ToMapAt(init, i);
      assert s[n].0 != s[i].0;
    }
  }

  /** Dictionaries built from the same items with distinct keys are equal,
      whatever the order of the items. */
  lemma SameItemsSameMap<K, V>(a: seq<(K, V)>, b: seq<(K, V)>)
    requires DistinctKeys(a) && DistinctKeys(b) && multiset(a) == multiset(b)
    ensures ToMap(a) == ToMap(b)
  {
    forall k | k in ToMap(a) ensures k in ToMap(b) && ToMap(a)[k] == ToMap(b)[k] {
      ToMapKeys(a, k);
      var i :| 0 <= i < |a| && a[i].0 == k;
      ToMapAt(a, i);
      assert a[i] in multiset(b);
      var j :| 0 <= j < |b| && b[j] == a[i];
      ToMapAt(b, j);
    }
    forall k | k in ToMap(b) ensures k in ToMap(a) {
      ToMapKeys(b, k);
      var j :| 0 <= j < |b| && b[j].0 == k;
      assert b[j] in multiset(a);
      var i :| 0 <= i < |a| && a[i] == b[j];
      ToMapAt(a, i);
    }
  }

  /** With distinct keys, equal dictionaries come from the same items. */
  lemma SameMapSameItems<K, V>(a: seq<(K, V)>, b: seq<(K, V)>)
    requires DistinctKeys(a) && DistinctKeys(b) && ToMap(a) == ToMap(b)
    ensures multiset(a) == multiset(b)
  {
    DistinctKeysMultiset(a);
    DistinctKeysMultiset(b);
    forall x: (K, V) | x in multiset(a) ensures x in multiset(b) {
      var i :| 0 <= i < |a| && a[i] == x;
      ToMapAt(a, i);
      ToMapKeys(b, x.0);
      var j :| 0 <= j < |b| && b[j].0 == x.0;
      ToMapAt(b, j);
      assert b[j] == x;
    }
    forall x: (K, V) | x in multiset(b) ensures x in multiset(a) {
      var j :| 0 <= j < |b| && b[j] == x;
      ToMapAt(b, j);
      ToMapKeys(a, x.0);
      var i :| 0 <= i < |a| && a[i].0 == x.0;
      ToMapAt(a, i);
      assert a[i] == x;
    }
    MultisetOfSets(multiset(a), multiset(b));
  }

  /** Items with distinct keys occur once each. */
  lemma {:induction false} DistinctKeysMultiset<K, V>(s: seq<(K, V)>)
    requires DistinctKeys(s)
    ensures forall x :: multiset(s)[x] <= 1
  {
    if |s| > 0 {
      var t := s[1..];
      assert DistinctKeys(t) by {
        forall p, q | 0 <= p < q < |t| ensures t[p].0 != t[q].0 {
          assert t[p] == s[p + 1] && t[q] == s[q + 1];
        }
      }
      DistinctKeysMultiset(t);
      assert s == [s[0]] + t;
      assert s[0] !in multiset(t) by {
        if s[0] in multiset(t) {
          var k :| 0 <= k < |t| && t[k] == s[0];
        }
      }
    }
  }

  lemma MultisetOfSets<X>(a: multiset<X>, b: multiset<X>)
    requires forall x :: a[x] <= 1 && b[x] <= 1
    requires forall x :: x in a ==> x in b
    requires forall x :: x in b ==> x in a
    ensures a == b
  {
    forall x ensures a[x] == b[x] {
      if x in a {
        assert x in b;
      } else {
        assert x !in b;
      }
    }
  }
}
