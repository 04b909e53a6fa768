/**
 * Orders and sorting: Python's comparison of `str` values, `sorted(results, key=lambda x: x[0])`
 * on lists of (key, value) pairs, and `sorted(s)` on a set of integers.
 */
module Ordering {

  /** `a <= b` on Python strings: lexicographic by code point, a proper prefix first. */
  predicate StrLe(a: string, b: string) {
    if a == [] then true
    else if b == [] then false
    else if a[0] != b[0] then a[0] < b[0]
    else StrLe(a[1..], b[1..])
  }

  /** `a <= b` on Python integers. */
  predicate IntLe(a: int, b: int) {
    a <= b
  }

  ghost predicate TotalOrder<K(!new)>(le: (K, K) -> bool) {
    && (forall x :: le(x, x))
    && (forall x, y :: le(x, y) && le(y, x) ==> x == y)
    && (forall x, y, z :: le(x, y) && le(y, z) ==> le(x, z))
    && (forall x, y :: le(x, y) || le(y, x))
  }

  lemma {:induction false} StrLeAntisymmetric(a: string, b: string)
    requires StrLe(a, b) && StrLe(b, a)
    ensures a == b
  {
    if a != [] && b != [] && a[0] == b[0] {
      StrLeAntisymmetric(a[1..], b[1..]);
      assert a == [a[0]] + a[1..] && b == [b[0]] + b[1..];
    }
  }

  lemma {:induction false} StrLeTransitive(a: string, b: string, c: string)
    requires StrLe(a, b) && StrLe(b, c)
    ensures StrLe(a, c)
  {
    if a != [] && b != [] && c != [] && a[0] == b[0] && b[0] == c[0] {
      StrLeTransitive(a[1..], b[1..], c[1..]);
    }
  }

  lemma {:induction false} StrLeTotal(a: string, b: string)
    ensures StrLe(a, b) || StrLe(b, a)
  {
    if a != [] && b != [] && a[0] == b[0] {
      StrLeTotal(a[1..], b[1..]);
    }
  }

  lemma {:induction false} StrLeReflexive(a: string)
    ensures StrLe(a, a)
  {
    if a != [] {
      StrLeReflexive(a[1..]);
    }
  }

  /** Python's string comparison is a total order. */
  lemma StrLeTotalOrder()
    ensures TotalOrder(StrLe)
  {
    forall x ensures StrLe(x, x) { StrLeReflexive(x); }
    forall x, y | StrLe(x, y) && StrLe(y, x) ensures x == y { StrLeAntisymmetric(x, y); }
    forall x, y, z | StrLe(x, y) && StrLe(y, z) ensures StrLe(x, z) { StrLeTransitive(x, y, z); }
    forall x, y ensures StrLe(x, y) || StrLe(y, x) { StrLeTotal(x, y); }
  }

  lemma IntLeTotalOrder()
    ensures TotalOrder(IntLe)
  {
  }

  /** Host strings sort as text, not as addresses: "10.0.0.10" comes before "10.0.0.2". */
  lemma HostOrderIsTextual()
    ensures StrLe("10.0.0.10", "10.0.0.2") && !StrLe("10.0.0.2", "10.0.0.10")
  {
  }

  /** The pairs are in ascending order of their keys. */
  predicate SortedBy<K, V>(s: seq<(K, V)>, le: (K, K) -> bool) {
    forall i, j :: 0 <= i < j < |s| ==> le(s[i].0, s[j].0)
  }

  /** Pairs with the same key are the same pair: the value is a function of the key. */
  predicate KeyFunctional<K(==), V(==)>(s: seq<(K, V)>) {
    forall x, y :: x in s && y in s && x.0 == y.0 ==> x == y
  }

  /** Inserts `x` before the first pair whose key is at least its own. */
  function Insert<K(==,!new), V(==)>(x: (K, V), s: seq<(K, V)>, le: (K, K) -> bool): (r: seq<(K, V)>)
    ensures |r| == |s| + 1
    ensures multiset(r) == multiset(s) + multiset{x}
  {
    if s == [] || le(x.0, s[0].0) then [x] + s
    else
      assert s == [s[0]] + s[1..];
      [s[0]] + Insert(x, s[1..], le)
  }

  lemma {:induction false} InsertSorted<K(!new), V>(x: (K, V), s: seq<(K, V)>, le: (K, K) -> bool)
    requires TotalOrder(le)
    requires SortedBy(s, le)
    ensures SortedBy(Insert(x, s, le), le)
  {
    if s != [] && !le(x.0, s[0].0) {
      var t := Insert(x, s[1..], le);
      InsertSorted(x, s[1..], le);
      assert s == [s[0]] + s[1..];
      forall j | 0 <= j < |t| ensures le(s[0].0, t[j].0) {
        assert t[j] in multiset(s[1..]) + multiset{x};
        if t[j] != x {
          assert t[j] in s[1..];
          var k :| 0 <= k < |s[1..]| && s[1..][k] == t[j];
          assert s[k + 1] == t[j];
        }
      }
    }
  }

  /**
   * `sorted(s, key=lambda p: p[0])`: a stable insertion sort by key. The result is
   * a permutation of `s` in ascending key order.
   */
  function SortByKey<K(==,!new), V(==)>(s: seq<(K, V)>, le: (K, K) -> bool): (r: seq<(K, V)>)
    requires TotalOrder(le)
    ensures |r| == |s|
    ensures multiset(r) == multiset(s)
    ensures SortedBy(r, le)
  {
    if s == [] then []
    else
      var t := SortByKey(s[1..], le);
      assert s == [s[0]] + s[1..];
      InsertSorted(s[0], t, le);
      Insert(s[0], t, le)
  }

  /** Two key-sorted permutations of each other start with the same pair. */
  lemma SortedHeadsEqual<K(!new), V>(a: seq<(K, V)>, b: seq<(K, V)>, le: (K, K) -> bool)
    requires TotalOrder(le)
    requires SortedBy(a, le) && SortedBy(b, le)
    requires multiset(a) == multiset(b)
    requires KeyFunctional(a)
    requires a != []
    ensures b != [] && a[0] == b[0]
  {
    assert a[0] in multiset(b);
    var j :| 0 <= j < |b| && b[j] == a[0];
    assert le(b[0].0, a[0].0) by {
      if j > 0 { assert le(b[0].0, b[j].0); }
    }
    assert b[0] in multiset(a);
    var i :| 0 <= i < |a| && a[i] == b[0];
    assert le(a[0].0, b[0].0) by {
      if i > 0 { assert le(a[0].0, a[i].0); }
    }
    assert a[i] in a && a[0] in a;
  }

  /**
   * Sorted orders are unique: two key-sorted permutations of each other are equal
   * as soon as equal keys carry equal values.
   */
  lemma {:induction false} SortedUnique<K(!new), V>(a: seq<(K, V)>, b: seq<(K, V)>, le: (K, K) -> bool)
    requires TotalOrder(le)
    requires SortedBy(a, le) && SortedBy(b, le)
    requires multiset(a) == multiset(b)
    requires KeyFunctional(a)
    ensures a == b
  {
    assert |a| == |multiset(a)| == |multiset(b)| == |b|;
    if a != [] {
      SortedHeadsEqual(a, b, le);
      SortedTail(a, le);
      SortedTail(b, le);
      KeyFunctionalTail(a);
      SortedUnique(a[1..], b[1..], le);
      assert a == [a[0]] + a[1..] && b == [b[0]] + b[1..];
    }
  }

  lemma SortedTail<K(!new), V>(a: seq<(K, V)>, le: (K, K) -> bool)
    requires SortedBy(a, le) && a != []
    ensures SortedBy(a[1..], le)
    ensures multiset(a[1..]) == multiset(a) - multiset{a[0]}
  {
    assert a == [a[0]] + a[1..];
  }

  lemma KeyFunctionalTail<K(!new), V>(a: seq<(K, V)>)
    requires KeyFunctional(a) && a != []
    ensures KeyFunctional(a[1..])
  {
    forall x, y | x in a[1..] && y in a[1..] && x.0 == y.0 ensures x == y {
      assert x in a && y in a;
    }
  }

  /** The sorted result depends only on the multiset of pairs, not on their order. */
  lemma SortIndependentOfOrder<K(!new), V>(a: seq<(K, V)>, b: seq<(K, V)>, le: (K, K) -> bool)
    requires TotalOrder(le)
    requires multiset(a) == multiset(b)
    requires KeyFunctional(a)
    ensures SortByKey(a, le) == SortByKey(b, le)
  {
    var sa, sb := SortByKey(a, le), SortByKey(b, le);
    assert KeyFunctional(sa) by {
      forall x, y | x in sa && y in sa && x.0 == y.0 ensures x == y {
        assert x in multiset(sa) && y in multiset(sa);
        assert x in a && y in a;
      }
    }
    SortedUnique(sa, sb, le);
  }

  /** Sorting a list that is already in key order gives it back unchanged. */
  lemma {:induction false} SortOfSorted<K(!new), V>(s: seq<(K, V)>, le: (K, K) -> bool)
    requires TotalOrder(le)
    requires SortedBy(s, le)
    ensures SortByKey(s, le) == s
  {
    if s != [] {
      assert SortedBy(s[1..], le);
      SortOfSorted(s[1..], le);
      assert s == [s[0]] + s[1..];
    }
  }

  /** `range(lo, hi + 1)`: the integers lo, lo + 1, ..., hi, and nothing when lo > hi. */
  function IntRange(lo: int, hi: int): (r: seq<int>)
    ensures |r| == if hi < lo then 0 else hi - lo + 1
    ensures forall k :: 0 <= k < |r| ==> r[k] == lo + k
    ensures forall n :: n in r <==> lo <= n <= hi
    decreases hi - lo
  {
    if hi < lo then [] else IntRange(lo, hi - 1) + [hi]
  }

  /** Integers in strictly ascending order, hence without duplicates. */
  predicate StrictlyAscending(s: seq<int>) {
    forall i, j :: 0 <= i < j < |s| ==> s[i] < s[j]
  }

  predicate NonDecreasing(s: seq<int>) {
    forall i, j :: 0 <= i < j < |s| ==> s[i] <= s[j]
  }

  lemma NonEmptyHasElement(s: set<int>)
    requires s != {}
    ensures exists x :: x in s
  {
    if forall x :: x !in s {
      assert false;
    }
  }

  lemma PickOne(s: set<int>) returns (x: int)
    requires s != {}
    ensures x in s
  {
    NonEmptyHasElement(s);
    x :| x in s;
  }

  lemma {:induction false} MinimumExists(s: set<int>)
    requires s != {}
    ensures exists m :: m in s && forall y :: y in s ==> m <= y
  {
    var x := PickOne(s);
    if s != {x} {
      MinimumExists(s - {x});
      var m :| m in s - {x} && forall y :: y in s - {x} ==> m <= y;
      var least := if x < m then x else m;
      forall y | y in s ensures least <= y {
        if y != x {
          assert y in s - {x};
        }
      }
    } else {
      forall y | y in s ensures x <= y {
        assert y in {x};
      }
    }
  }

  /** The least element of a non-empty set of integers. */
  function Least(s: set<int>): (m: int)
    requires s != {}
    ensures m in s && forall y :: y in s ==> m <= y
  {
    MinimumExists(s);
    var m :| m in s && forall y :: y in s ==> m <= y;
    m
  }

  /** `sorted(s)` for a set of integers: its elements, each once, in ascending order. */
  function SortedElements(s: set<int>): (r: seq<int>)
    ensures StrictlyAscending(r)
    ensures forall x :: x in r <==> x in s
    ensures |r| == |s|
    decreases s
  {
    if s == {} then []
    else
      var m := Least(s);
      var rest := SortedElements(s - {m});
      AscendingCons(m, rest);
      assert |s - {m}| == |s| - 1;
      [m] + rest
  }

  lemma AscendingCons(m: int, rest: seq<int>)
    requires StrictlyAscending(rest)
    requires forall x :: x in rest ==> m < x
    ensures StrictlyAscending([m] + rest)
  {
    var r := [m] + rest;
    forall i, j | 0 <= i < j < |r| ensures r[i] < r[j] {
      assert r[j] == rest[j - 1];
      if i > 0 {
        assert r[i] == rest[i - 1];
      } else {
        assert rest[j - 1] in rest;
      }
    }
  }

  /** Two strictly ascending lists with the same elements start with the same element. */
  lemma AscendingHeadsEqual(a: seq<int>, b: seq<int>)
    requires StrictlyAscending(a) && StrictlyAscending(b)
    requires forall x :: x in a <==> x in b
    requires a != []
    ensures b != [] && a[0] == b[0]
  {
    assert a[0] in a;
    assert a[0] in b;
    assert b[0] in b;
    var i :| 0 <= i < |a| && a[i] == b[0];
    var j :| 0 <= j < |b| && b[j] == a[0];
    assert a[0] <= a[i] && b[0] <= b[j];
  }

  /** Past equal heads, an element of one tail is in the other tail. */
  lemma AscendingTailElement(a: seq<int>, b: seq<int>, x: int)
    requires StrictlyAscending(a) && StrictlyAscending(b)
    requires forall y :: y in a <==> y in b
    requires a != [] && b != [] && a[0] == b[0]
    requires x in a[1..]
    ensures x in b[1..]
  {
    var i :| 1 <= i < |a| && a[i] == x;
    assert a[0] < a[i];
    assert x in b;
    var j :| 0 <= j < |b| && b[j] == x;
    assert j != 0;
    assert b[1..][j - 1] == x;
  }

  /** A strictly ascending list is determined by its set of elements. */
  lemma {:induction false} AscendingUnique(a: seq<int>, b: seq<int>)
    requires StrictlyAscending(a) && StrictlyAscending(b)
    requires forall x :: x in a <==> x in b
    ensures a == b
  {
    assert (a == []) <==> (b == []) by {
      if a != [] { assert a[0] in a; }
      if b != [] { assert b[0] in b; }
    }
    if a != [] {
      AscendingHeadsEqual(a, b);
      var ta, tb := a[1..], b[1..];
      forall x | x in ta ensures x in tb {
        AscendingTailElement(a, b, x);
      }
      forall x | x in tb ensures x in ta {
        AscendingTailElement(b, a, x);
      }
      AscendingUnique(ta, tb);
      assert a == [a[0]] + ta && b == [b[0]] + tb;
    }
  }

  /** `sorted(s)` is the one strictly ascending list that holds exactly the elements of `s`. */
  lemma SortedElementsUnique(s: set<int>, xs: seq<int>)
    requires StrictlyAscending(xs)
    requires forall x :: x in xs <==> x in s
    ensures xs == SortedElements(s)
  {
    AscendingUnique(xs, SortedElements(s));
  }
}
