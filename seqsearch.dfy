/** Linear searches and filters over sequences, the shapes of Python's
    `for ... break` loops and list comprehensions. Their predicates and key
    functions are passed as named functions. */
module SeqSearch {

  /** The first index whose element satisfies `p`, or -1. */
  function FirstIndexWhere<T>(s: seq<T>, p: T -> bool): (i: int)
    ensures -1 <= i < |s|
    ensures 0 <= i ==> p(s[i])
    ensures forall j :: 0 <= j < |s| && (i < 0 || j < i) ==> !p(s[j])
  {
    if |s| == 0 then -1
    else if p(s[0]) then 0
    else
      var i := FirstIndexWhere(s[1..], p);
      if i < 0 then -1 else i + 1
  }

  /** The first index whose element has key `k`, or -1. */
  function FirstIndexOf<T, K(==)>(s: seq<T>, key: T -> K, k: K): (i: int)
    ensures -1 <= i < |s|
    ensures 0 <= i ==> key(s[i]) == k
    ensures forall j :: 0 <= j < |s| && (i < 0 || j < i) ==> key(s[j]) != k
  {
    if |s| == 0 then -1
    else if key(s[0]) == k then 0
    else
      var i := FirstIndexOf(s[1..], key, k);
      if i < 0 then -1 else i + 1
  }

  /** The last index whose element has key `k`, or -1. */
  function LastIndexOf<T, K(==)>(s: seq<T>, key: T -> K, k: K): (i: int)
    ensures -1 <= i < |s|
    ensures 0 <= i ==> key(s[i]) == k
    ensures forall j :: 0 <= j < |s| && i < j ==> key(s[j]) != k
  {
    if |s| == 0 then -1
    else if key(s[|s| - 1]) == k then |s| - 1
    else LastIndexOf(s[..|s| - 1], key, k)
  }

  lemma FirstIndexOfIs<T, K>(s: seq<T>, key: T -> K, k: K, i: int)
    requires -1 <= i < |s|
    requires 0 <= i ==> key(s[i]) == k
    requires forall j :: 0 <= j < |s| && (i < 0 || j < i) ==> key(s[j]) != k
    ensures FirstIndexOf(s, key, k) == i
  {
  }

  lemma FirstIndexWhereIs<T>(s: seq<T>, p: T -> bool, i: int)
    requires -1 <= i < |s|
    requires 0 <= i ==> p(s[i])
    requires forall j :: 0 <= j < |s| && (i < 0 || j < i) ==> !p(s[j])
    ensures FirstIndexWhere(s, p) == i
  {
  }

  lemma LastIndexOfIs<T, K>(s: seq<T>, key: T -> K, k: K, i: int)
    requires -1 <= i < |s|
    requires 0 <= i ==> key(s[i]) == k
    requires forall j :: 0 <= j < |s| && i < j ==> key(s[j]) != k
    ensures LastIndexOf(s, key, k) == i
  {
  }

  /** The dictionary that `d[key(x)] = value(x)` fills over `s` in order: the last
      element with a given key supplies its value. */
  function LastByKey<T, K, V>(s: seq<T>, key: T -> K, value: T -> V): map<K, V> {
    if s == [] then map[]
    else LastByKey(s[..|s| - 1], key, value)[key(s[|s| - 1]) := value(s[|s| - 1])]
  }

  /** The loop `for x in s: d[key(x)] = value(x)`, starting from an empty dictionary. */
  method FillByKey<T, K(==), V>(s: seq<T>, key: T -> K, value: T -> V) returns (m: map<K, V>)
    ensures m == LastByKey(s, key, value)
  {
    m := map[];
    var i := 0;
    while i < |s|
      invariant 0 <= i <= |s|
      invariant m == LastByKey(s[..i], key, value)
    {
      assert s[..i + 1][..i] == s[..i];
      m := m[key(s[i]) := value(s[i])];
      i := i + 1;
    }
    assert s[..i] == s;
  }

  /** The keys of `LastByKey` are the keys of the elements, and each maps to the value
      of the last element with that key. */
  lemma {:induction false} LastByKeySpec<T, K(!new), V>(s: seq<T>, key: T -> K, value: T -> V)
    ensures forall k :: k in LastByKey(s, key, value) <==> exists i :: 0 <= i < |s| && key(s[i]) == k
    ensures forall k :: k in LastByKey(s, key, value) ==> exists i :: (0 <= i < |s| && key(s[i]) == k
      && LastByKey(s, key, value)[k] == value(s[i]) && forall j :: i < j < |s| ==> key(s[j]) != k)
  {
    if s != [] {
      var init := s[..|s| - 1];
      var last := |s| - 1;
      assert forall i :: 0 <= i < |init| ==> init[i] == s[i];
      LastByKeySpec(init, key, value);
      var m0 := LastByKey(init, key, value);
      var m := LastByKey(s, key, value);
      assert m == m0[key(s[last]) := value(s[last])];
      forall k
        ensures k in m <==> exists i :: 0 <= i < |s| && key(s[i]) == k
      {
        if exists i :: 0 <= i < |s| && key(s[i]) == k {
          var i :| 0 <= i < |s| && key(s[i]) == k;
          if i < last {
            assert key(init[i]) == k;
          }
        }
      }
      forall k | k in m
        ensures exists i :: (0 <= i < |s| && key(s[i]) == k && m[k] == value(s[i])
          && forall j :: i < j < |s| ==> key(s[j]) != k)
      {
        if k == key(s[last]) {
          assert key(s[last]) == k && m[k] == value(s[last]);
        } else {
          assert k in m0;
          var i :| (0 <= i < |init| && key(init[i]) == k && m0[k] == value(init[i])
            && forall j :: i < j < |init| ==> key(init[j]) != k);
          assert key(s[i]) == k && m[k] == value(s[i]);
        }
      }
    }
  }

  /** `[x for x in s if p(x)]`. */
  function Filter<T(!new)>(s: seq<T>, p: T -> bool): (r: seq<T>)
    ensures |r| <= |s|
    ensures forall x :: x in r <==> x in s && p(x)
    ensures (|r| == 0) <==> FirstIndexWhere(s, p) < 0
    ensures |r| > 0 ==> r[0] == s[FirstIndexWhere(s, p)]
  {
    if |s| == 0 then []
    else if p(s[0]) then [s[0]] + Filter(s[1..], p)
    else
      assert forall x :: x in s[1..] ==> x in s;
      Filter(s[1..], p)
  }

  /** A filter keeps more than one element exactly when two positions satisfy the predicate. */
  lemma {:induction false} FilterMoreThanOne<T(!new)>(s: seq<T>, p: T -> bool)
    ensures |Filter(s, p)| > 1 <==> exists i, j :: 0 <= i < j < |s| && p(s[i]) && p(s[j])
  {
    if |s| > 0 {
      FilterMoreThanOne(s[1..], p);
      if p(s[0]) {
        if |Filter(s[1..], p)| > 0 {
          var k := FirstIndexWhere(s[1..], p);
          assert p(s[0]) && p(s[k + 1]);
        }
        if exists i, j :: 0 <= i < j < |s| && p(s[i]) && p(s[j]) {
          var i, j :| 0 <= i < j < |s| && p(s[i]) && p(s[j]);
          assert s[1..][j - 1] == s[j];
          assert Filter(s[1..], p) != [];
        }
      } else {
        if exists i, j :: 0 <= i < j < |s| && p(s[i]) && p(s[j]) {
          var i, j :| 0 <= i < j < |s| && p(s[i]) && p(s[j]);
          assert s[1..][i - 1] == s[i] && s[1..][j - 1] == s[j];
        }
        if exists i, j :: 0 <= i < j < |s| - 1 && p(s[1..][i]) && p(s[1..][j]) {
          var i, j :| 0 <= i < j < |s| - 1 && p(s[1..][i]) && p(s[1..][j]);
          assert s[i + 1] == s[1..][i] && s[j + 1] == s[1..][j];
        }
      }
    }
  }
}
