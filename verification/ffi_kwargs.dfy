/** Keyword arguments of an FFI call (jax/_src/ffi.py). They become
    attributes of the primitive, which must be hashable: arrays and
    dictionaries are wrapped in hashable copies, and the attributes are
    kept sorted by name so that equal keyword dictionaries give equal
    attributes. Lowering unwraps them again. */
module FfiKwargs {
  import opened Results
  import opened KeyOrder

  /** Python's `<` on strings: lexicographic by code point. */
  predicate StrLess(a: string, b: string) {
    if |a| == 0 then |b| > 0
    else |b| > 0 && (a[0] < b[0] || (a[0] == b[0] && StrLess(a[1..], b[1..])))
  }

  lemma {:induction false} StrLessIrreflexive(a: string)
    ensures !StrLess(a, a)
  {
    if |a| > 0 {
      StrLessIrreflexive(a[1..]);
    }
  }

  lemma {:induction false} StrLessTransitive(a: string, b: string, c: string)
    requires StrLess(a, b) && StrLess(b, c)
    ensures StrLess(a, c)
  {
    if |a| > 0 && a[0] == b[0] && b[0] == c[0] {
      StrLessTransitive(a[1..], b[1..], c[1..]);
    }
  }

  lemma {:induction false} StrLessTotal(a: string, b: string)
    requires a != b
    ensures StrLess(a, b) || StrLess(b, a)
  {
    if |a| > 0 && |b| > 0 && a[0] == b[0] {
      assert a == [a[0]] + a[1..] && b == [b[0]] + b[1..];
      StrLessTotal(a[1..], b[1..]);
    }
  }

  /** String comparison is a strict total order, so sorting by name is
      well defined. */
  lemma StrLessStrictTotal()
    ensures StrictTotal(StrLess)
  {
    forall a: string ensures !StrLess(a, a) {
      StrLessIrreflexive(a);
    }
    forall a: string, b: string, c: string | StrLess(a, b) && StrLess(b, c) ensures StrLess(a, c) {
      StrLessTransitive(a, b, c);
    }
    forall a: string, b: string | a != b ensures StrLess(a, b) || StrLess(b, a) {
      StrLessTotal(a, b);
    }
  }

  /** A keyword argument: a hashable scalar, a string, a NumPy array, a
      dictionary (its items in insertion order), or a value that cannot be
      hashed (a list, say). */
  datatype KwArg =
    | Scalar(x: int)
    | Text(s: string)
    | NdArray(elems: seq<int>)
    | DictArg(items: seq<(string, KwArg)>)
    | Unhashable

  /** An attribute of the primitive: a hashable value as is, or a
      `HashableArray` or `HashableDict` wrapper. */
  datatype Attr =
    | Plain(v: KwArg)
    | HashableArray(val: seq<int>)
    | HashableDict(items: seq<(string, KwArg)>)

  /** `HashableDict(d)`: the dictionary's items sorted by key. */
  function MakeHashableDict(items: seq<(string, KwArg)>): Attr {
    HashableDict(SortByKey(StrLess, items))
  }

  /** Wraps one value; `TypeError` when it cannot be hashed. */
  function WrapValue(v: KwArg): (r: Result<Attr>)
    ensures r.Err? <==> v.Unhashable?
    ensures r.Err? ==> r.error == TypeError
  {
    match v
    case NdArray(elems) => Ok(HashableArray(elems))
    case DictArg(items) => Ok(MakeHashableDict(items))
    case Unhashable => Err(TypeError)
    case _ => Ok(Plain(v))
  }

  /** Wraps already sorted items one by one. */
  function WrapItems(s: seq<(string, KwArg)>): (r: Result<seq<(string, Attr)>>)
    ensures r.Err? <==> exists i :: 0 <= i < |s| && s[i].1.Unhashable?
    ensures r.Err? ==> r.error == TypeError
    ensures r.Ok? ==> |r.value| == |s|
    ensures r.Ok? ==> forall i :: 0 <= i < |s| ==>
      r.value[i].0 == s[i].0 && Ok(r.value[i].1) == WrapValue(s[i].1)
  {
    if |s| == 0 then Ok([])
    else
      var head := WrapValue(s[0].1);
      var rest := WrapItems(s[1..]);
      if head.Err? then
        Err(head.error)
      else if rest.Err? then
        assert forall i :: 0 <= i < |s| - 1 ==> s[1..][i] == s[i + 1];
        Err(rest.error)
      else
        Ok([(s[0].0, head.value)] + rest.value)
  }

  /** `_wrap_kwargs_hashable`: the keyword arguments sorted by name, each
      wrapped. */
  function Wrap(kwargs: seq<(string, KwArg)>): Result<seq<(string, Attr)>> {
    WrapItems(SortByKey(StrLess, kwargs))
  }

  /** Wrapping fails, with `TypeError`, exactly when some argument cannot
      be hashed. */
  lemma WrapFails(kwargs: seq<(string, KwArg)>)
    ensures Wrap(kwargs).Err? <==> exists i :: 0 <= i < |kwargs| && kwargs[i].1.Unhashable?
  {
    var s := SortByKey(StrLess, kwargs);
    if exists i :: 0 <= i < |kwargs| && kwargs[i].1.Unhashable? {
      var i :| 0 <= i < |kwargs| && kwargs[i].1.Unhashable?;
      assert kwargs[i] in multiset(s);
    }
    if exists j :: 0 <= j < |s| && s[j].1.Unhashable? {
      var j :| 0 <= j < |s| && s[j].1.Unhashable?;
      assert s[j] in multiset(kwargs);
    }
  }

  /** Otherwise wrapping keeps every argument and orders them strictly by
      name. */
  lemma WrapSorted(kwargs: seq<(string, KwArg)>)
    requires DistinctKeys(kwargs) && Wrap(kwargs).Ok?
    ensures |Wrap(kwargs).value| == |kwargs|
    ensures SortedBy(StrLess, Wrap(kwargs).value)
  {
    var s := SortByKey(StrLess, kwargs);
    assert |s| == |multiset(s)| == |kwargs|;
    StrLessStrictTotal();
    SortSorted(StrLess, kwargs);
  }

  /** `_unwrap_kwargs_hashable` for one value. */
  function UnwrapValue(a: Attr): KwArg {
    match a
    case Plain(v) => v
    case HashableArray(val) => NdArray(val)
    case HashableDict(items) => DictArg(items)
  }

  /** The items of the attributes with their values unwrapped. */
  function UnwrapItems(attrs: seq<(string, Attr)>): (r: seq<(string, KwArg)>)
    ensures |r| == |attrs|
    ensures forall i :: 0 <= i < |attrs| ==> r[i] == (attrs[i].0, UnwrapValue(attrs[i].1))
  {
    seq(|attrs|, i requires 0 <= i < |attrs| => (attrs[i].0, UnwrapValue(attrs[i].1)))
  }

  /** `_unwrap_kwargs_hashable`: a dictionary from names to the unwrapped
      values; a later item with the same name wins. */
  function Unwrap(attrs: seq<(string, Attr)>): map<string, KwArg> {
    ToMap(UnwrapItems(attrs))
  }

  /** Python's equality on keyword values: dictionaries compare as
      mappings, whatever the order of their items. */
  predicate SameValue(a: KwArg, b: KwArg) {
    if a.DictArg? && b.DictArg? then ToMap(a.items) == ToMap(b.items) else a == b
  }

  /** Dictionaries whose keys are unique, the form of every Python dict. */
  predicate IsDict(v: KwArg) {
    v.DictArg? ==> DistinctKeys(v.items)
  }

  /** Unwrapping a wrapped value gives back an equal value. */
  lemma UnwrapWrapValue(v: KwArg)
    requires !v.Unhashable? && IsDict(v)
    ensures SameValue(UnwrapValue(WrapValue(v).value), v)
  {
    if v.DictArg? {
      var s := SortByKey(StrLess, v.items);
      StrLessStrictTotal();
      SortSorted(StrLess, v.items);
      SortedDistinct(StrLess, s);
      SameItemsSameMap(s, v.items);
    }
  }

  /** Lowering sees the keyword arguments the caller gave: unwrapping the
      wrapped arguments restores the same names, each with an equal
      value. */
  lemma UnwrapWrap(kwargs: seq<(string, KwArg)>)
    requires DistinctKeys(kwargs) && Wrap(kwargs).Ok?
    requires forall i :: 0 <= i < |kwargs| ==> IsDict(kwargs[i].1)
    ensures Unwrap(Wrap(kwargs).value).Keys == ToMap(kwargs).Keys
    ensures forall k :: k in ToMap(kwargs) ==> SameValue(Unwrap(Wrap(kwargs).value)[k], ToMap(kwargs)[k])
  {
    var s := SortByKey(StrLess, kwargs);
    var w := Wrap(kwargs).value;
    var u := UnwrapItems(w);
    StrLessStrictTotal();
    SortSorted(StrLess, kwargs);
    SortedDistinct(StrLess, s);
    SameItemsSameMap(s, kwargs);
    assert DistinctKeys(u) by {
      forall i, j | 0 <= i < j < |u| ensures u[i].0 != u[j].0 {
        assert u[i].0 == s[i].0 && u[j].0 == s[j].0;
      }
    }
    forall k | k in ToMap(s) ensures k in ToMap(u) && SameValue(ToMap(u)[k], ToMap(s)[k]) {
      UnwrapWrapAt(kwargs, s, u, k);
    }
    forall k | k in ToMap(u) ensures k in ToMap(s) {
      ToMapKeys(u, k);
      var i :| 0 <= i < |u| && u[i].0 == k;
      ToMapAt(s, i);
    }
  }

  /** One name of `UnwrapWrap`. */
  lemma UnwrapWrapAt(kwargs: seq<(string, KwArg)>, s: seq<(string, KwArg)>, u: seq<(string, KwArg)>, k: string)
    requires s == SortByKey(StrLess, kwargs) && Wrap(kwargs).Ok? && u == UnwrapItems(Wrap(kwargs).value)
    requires forall i :: 0 <= i < |kwargs| ==> IsDict(kwargs[i].1)
    requires DistinctKeys(s) && DistinctKeys(u) && k in ToMap(s)
    ensures k in ToMap(u) && SameValue(ToMap(u)[k], ToMap(s)[k])
  {
    ToMapKeys(s, k);
    var i :| 0 <= i < |s| && s[i].0 == k;
    ToMapAt(s, i);
    ToMapAt(u, i);
    assert s[i] in multiset(kwargs);
    var j :| 0 <= j < |kwargs| && kwargs[j] == s[i];
    UnwrapWrapValue(s[i].1);
  }

  /** `HashableDict` equality: two wrapped dictionaries are equal exactly
      when the dictionaries map the same keys to the same values. */
  lemma HashableDictEq(a: seq<(string, KwArg)>, b: seq<(string, KwArg)>)
    requires DistinctKeys(a) && DistinctKeys(b)
    ensures MakeHashableDict(a) == MakeHashableDict(b) <==> ToMap(a) == ToMap(b)
  {
    var sa := SortByKey(StrLess, a);
    var sb := SortByKey(StrLess, b);
    StrLessStrictTotal();
    SortSorted(StrLess, a);
    SortSorted(StrLess, b);
    if ToMap(a) == ToMap(b) {
      SameMapSameItems(a, b);
      SortedUnique(StrLess, sa, sb);
    }
    if sa == sb {
      SortedDistinct(StrLess, sa);
      SameItemsSameMap(sa, a);
      SameItemsSameMap(sb, b);
    }
  }

  /** Equal keyword dictionaries, whatever their insertion order, give the
      same attributes, so the primitive's parameters compare equal. */
  lemma WrapOrderIndependent(a: seq<(string, KwArg)>, b: seq<(string, KwArg)>)
    requires DistinctKeys(a) && DistinctKeys(b) && ToMap(a) == ToMap(b)
    ensures Wrap(a) == Wrap(b)
  {
    StrLessStrictTotal();
    SortSorted(StrLess, a);
    SortSorted(StrLess, b);
    SameMapSameItems(a, b);
    SortedUnique(StrLess, SortByKey(StrLess, a), SortByKey(StrLess, b));
  }
}
