/** The orders the C++ standard library imposes on the core: std::map and
    std::set visit their keys in ascending order of the key type's operator<,
    std::basic_string compares lexicographically, and std::sort arranges a
    vector by a comparison. */
module Ordering {

  /** std::basic_string's operator<: lexicographic comparison, character by
      character (code points; for UTF-8 text this is the same order as
      comparing the bytes). */
  predicate StrLess(a: string, b: string)
    decreases |a|
  {
    |b| > 0 && (|a| == 0 || a[0] < b[0] || (a[0] == b[0] && StrLess(a[1..], b[1..])))
  }

  predicate IntLess(a: int, b: int) {
    a < b
  }

  ghost predicate StrictTotal<K(!new)>(lt: (K, K) -> bool) {
    && (forall x :: !lt(x, x))
    && (forall x, y, z :: lt(x, y) && lt(y, z) ==> lt(x, z))
    && (forall x, y :: x != y ==> lt(x, y) || lt(y, x))
  }

  lemma {:induction false} StrLessIrreflexive(a: string)
    ensures !StrLess(a, a)
    decreases |a|
  {
    if |a| > 0 {
      StrLessIrreflexive(a[1..]);
    }
  }

  lemma {:induction false} StrLessTransitive(a: string, b: string, c: string)
    requires StrLess(a, b) && StrLess(b, c)
    ensures StrLess(a, c)
    decreases |a|
  {
    if |a| > 0 && a[0] == b[0] && b[0] == c[0] {
      StrLessTransitive(a[1..], b[1..], c[1..]);
    }
  }

  lemma {:induction false} StrLessConnected(a: string, b: string)
    requires a != b
    ensures StrLess(a, b) || StrLess(b, a)
    decreases |a|
  {
    if |a| > 0 && |b| > 0 && a[0] == b[0] {
      assert a == [a[0]] + a[1..] && b == [b[0]] + b[1..];
      StrLessConnected(a[1..], b[1..]);
    }
  }

  lemma StrLessStrictTotal()
    ensures StrictTotal(StrLess)
  {
    forall x: string ensures !StrLess(x, x) {
      StrLessIrreflexive(x);
    }
    forall x: string, y: string, z: string | StrLess(x, y) && StrLess(y, z)
      ensures StrLess(x, z)
    {
      StrLessTransitive(x, y, z);
    }
    forall x: string, y: string | x != y
      ensures StrLess(x, y) || StrLess(y, x)
    {
      StrLessConnected(x, y);
    }
  }

  lemma IntLessStrictTotal()
    ensures StrictTotal(IntLess)
  {
  }

  lemma {:induction false} LeastExists<K(!new)>(s: set<K>, lt: (K, K) -> bool)
    requires s != {} && StrictTotal(lt)
    ensures exists m :: m in s && forall x :: x in s && x != m ==> lt(m, x)
    decreases |s|
  {
    var x :| x in s;
    if s != {x} {
      LeastExists(s - {x}, lt);
      var m :| m in s - {x} && forall y :: y in s - {x} && y != m ==> lt(m, y);
      if !lt(x, m) {
        assert forall y :: y in s && y != m ==> lt(m, y);
      } else {
        assert forall y :: y in s && y != x ==> lt(x, y);
      }
    }
  }

  /** The first element of a set in the order lt, as begin() of a std::set
      or std::map gives it. */
  function Least<K(!new)>(s: set<K>, lt: (K, K) -> bool): (m: K)
    requires s != {} && StrictTotal(lt)
    ensures m in s
    ensures forall x :: x in s && x != m ==> lt(m, x)
  {
    LeastExists(s, lt);
    var m :| m in s && forall x :: x in s && x != m ==> lt(m, x);
    m
  }

  ghost predicate StrictlySorted<K>(r: seq<K>, lt: (K, K) -> bool) {
    forall i, j :: 0 <= i < j < |r| ==> lt(r[i], r[j])
  }

  /** The elements of a set in ascending order: the visiting order of a
      range-for over a std::set or over the keys of a std::map. */
  function Sorted<K(!new)>(s: set<K>, lt: (K, K) -> bool): (r: seq<K>)
    requires StrictTotal(lt)
    ensures |r| == |s|
    ensures forall x :: x in r <==> x in s
    ensures StrictlySorted(r, lt)
    decreases |s|
  {
    if s == {} then []
    else
      var m := Least(s, lt);
      [m] + Sorted(s - {m}, lt)
  }

  /** The keys of a std::map<std::string, V> in iteration order. */
  function StrKeys<V>(m: map<string, V>): (r: seq<string>)
    ensures |r| == |m|
    ensures forall k :: k in r <==> k in m
    ensures StrictlySorted(r, StrLess)
  {
    StrLessStrictTotal();
    Sorted(m.Keys, StrLess)
  }

  /** The elements of a std::set<std::string> in iteration order. */
  function StrElems(s: set<string>): (r: seq<string>)
    ensures |r| == |s|
    ensures forall k :: k in r <==> k in s
    ensures StrictlySorted(r, StrLess)
  {
    StrLessStrictTotal();
    Sorted(s, StrLess)
  }

  /** The keys of a std::map<int, V> in iteration order. */
  function IntKeys<V>(m: map<int, V>): (r: seq<int>)
    ensures |r| == |m|
    ensures forall k :: k in r <==> k in m
    ensures forall i, j :: 0 <= i < j < |r| ==> r[i] < r[j]
  {
    IntLessStrictTotal();
    Sorted(m.Keys, IntLess)
  }

  /** A strictly sorted sequence has no repeated element. */
  lemma StrictlySortedDistinct<K(!new)>(r: seq<K>, lt: (K, K) -> bool, i: int, j: int)
    requires StrictTotal(lt) && StrictlySorted(r, lt)
    requires 0 <= i < |r| && 0 <= j < |r| && i != j
    ensures r[i] != r[j]
  {
  }

  /** The smallest key of a map<string, V> is the first one visited. */
  lemma FirstKeyIsLeast<V>(m: map<string, V>)
    requires |m| > 0
    ensures forall k :: k in m && k != StrKeys(m)[0] ==> StrLess(StrKeys(m)[0], k)
  {
    var r := StrKeys(m);
    forall k | k in m && k != r[0] ensures StrLess(r[0], k) {
      var j :| 0 <= j < |r| && r[j] == k;
      assert j != 0;
    }
  }

  // ---------------------------------------------------------------------
  // std::sort with a "greater" comparison, modelled by an insertion sort.

  ghost predicate NonIncreasing<T>(s: seq<T>, key: T -> int) {
    forall i, j :: 0 <= i < j < |s| ==> key(s[i]) >= key(s[j])
  }

  function InsertDesc<T>(x: T, s: seq<T>, key: T -> int): (r: seq<T>)
    requires NonIncreasing(s, key)
    ensures NonIncreasing(r, key)
    ensures multiset(r) == multiset(s) + multiset{x}
    ensures |r| == |s| + 1
    ensures forall y :: y in r ==> y == x || y in s
  {
    if s == [] then [x]
    else if key(x) >= key(s[0]) then [x] + s
    else
      var rest := InsertDesc(x, s[1..], key);
      assert s == [s[0]] + s[1..];
      BelowHead(x, s, rest, key);
      ConsNonIncreasing(s[0], rest, key);
      [s[0]] + rest
  }

  /** What InsertDesc puts after the head of s has keys no greater than the
      head's. */
  lemma BelowHead<T>(x: T, s: seq<T>, rest: seq<T>, key: T -> int)
    requires NonIncreasing(s, key) && |s| > 0 && key(x) < key(s[0])
    requires forall y :: y in rest ==> y == x || y in s[1..]
    ensures forall i :: 0 <= i < |rest| ==> key(rest[i]) <= key(s[0])
  {
    forall i | 0 <= i < |rest| ensures key(rest[i]) <= key(s[0]) {
      assert rest[i] in rest;
      if rest[i] != x {
        var j :| 0 <= j < |s[1..]| && s[1..][j] == rest[i];
        assert s[j + 1] == rest[i];
      }
    }
  }

  /** A head no smaller than every key of a non-increasing tail gives a
      non-increasing list. */
  lemma ConsNonIncreasing<T>(h: T, t: seq<T>, key: T -> int)
    requires NonIncreasing(t, key) && forall i :: 0 <= i < |t| ==> key(t[i]) <= key(h)
    ensures NonIncreasing([h] + t, key)
  {
    var r := [h] + t;
    forall i, j | 0 <= i < j < |r| ensures key(r[i]) >= key(r[j]) {
      assert r[j] == t[j - 1];
      if i > 0 {
        assert r[i] == t[i - 1];
      }
    }
  }

  /** The elements of s ordered by non-increasing key: what
      std::sort(begin, end) produces under a comparison that puts a larger
      key first. Among equal keys this model keeps the input order; std::sort
      is not stable and may order them differently. */
  function SortDesc<T>(s: seq<T>, key: T -> int): (r: seq<T>)
    ensures NonIncreasing(r, key)
    ensures multiset(r) == multiset(s)
    ensures |r| == |s|
  {
    if s == [] then []
    else
      assert s == [s[0]] + s[1..];
      InsertDesc(s[0], SortDesc(s[1..], key), key)
  }
}
