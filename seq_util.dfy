/** Generic list operations: the boolean-mask selection `df[mask]` and counting. */
module SeqUtil {

  /** Keeps, in order, the elements satisfying `p`. */
  function Filter<T(!new)>(s: seq<T>, p: T -> bool): (r: seq<T>)
    ensures |r| <= |s|
    ensures forall x :: x in r <==> x in s && p(x)
    ensures multiset(r) <= multiset(s)
    ensures forall k :: 0 <= k < |r| ==> p(r[k])
  {
    if s == [] then []
    else
      var rest := Filter(s[1..], p);
      assert s == [s[0]] + s[1..];
      if p(s[0]) then [s[0]] + rest else rest
  }

  lemma {:induction false} FilterAppend<T(!new)>(a: seq<T>, b: seq<T>, p: T -> bool)
    ensures Filter(a + b, p) == Filter(a, p) + Filter(b, p)
  {
    if a != [] {
      var ab := a + b;
      assert ab[0] == a[0];
      assert ab[1..] == a[1..] + b;
      FilterAppend(a[1..], b, p);
      assert Filter(ab, p) == (if p(a[0]) then [a[0]] else []) + Filter(ab[1..], p);
      assert Filter(a, p) == (if p(a[0]) then [a[0]] else []) + Filter(a[1..], p);
    } else {
      assert a + b == b;
    }
  }

  /** A filter that keeps everything is the identity. */
  lemma {:induction false} FilterAll<T(!new)>(s: seq<T>, p: T -> bool)
    requires forall x :: x in s ==> p(x)
    ensures Filter(s, p) == s
  {
    if s != [] { FilterAll(s[1..], p); assert s == [s[0]] + s[1..]; }
  }

  /** The number of elements satisfying `p`. */
  function Count<T(!new)>(s: seq<T>, p: T -> bool): (n: nat)
    ensures n <= |s|
  {
    |Filter(s, p)|
  }

  /** No element occurs twice. */
  predicate Distinct<T(==)>(s: seq<T>) {
    forall i, j :: 0 <= i < j < |s| ==> s[i] != s[j]
  }

  lemma DistinctSnoc<T>(s: seq<T>, x: T)
    requires Distinct(s) && x !in s
    ensures Distinct(s + [x])
  {
    var r := s + [x];
    forall i, j | 0 <= i < j < |r| ensures r[i] != r[j] {
      assert r[i] == s[i];
    }
  }

  /** The elements of `s`, with repeats removed, in first-occurrence order (`dict.fromkeys`). */
  function Unique<T(==,!new)>(s: seq<T>): (r: seq<T>)
    ensures forall x :: x in r <==> x in s
    ensures forall i, j :: 0 <= i < j < |r| ==> r[i] != r[j]
    ensures |r| <= |s|
  {
    if s == [] then []
    else
      var r := Unique(s[..|s| - 1]);
      assert forall x :: x in s <==> x in s[..|s| - 1] || x == s[|s| - 1];
      if s[|s| - 1] in r then r else r + [s[|s| - 1]]
  }

  lemma UniqueSnoc<T(!new)>(s: seq<T>, x: T)
    ensures Unique(s + [x]) == if x in Unique(s) then Unique(s) else Unique(s) + [x]
  {
    assert (s + [x])[..|s|] == s;
  }

  /** `Unique` of three elements keeps the first, then each later one not seen before. */
  lemma Unique3<T(!new)>(a: T, b: T, c: T)
    ensures Unique([a, b, c]) == [a] + (if b == a then [] else [b]) + (if c == a || c == b then [] else [c])
  {
    assert Unique([a]) == [a] by { assert [a][..0] == []; }
    assert Unique([a, b]) == if b == a then [a] else [a, b] by { assert [a, b][..1] == [a]; }
    assert [a, b, c][..2] == [a, b];
    if b == a {
      assert Unique([a, b, c]) == if c == a then [a] else [a, c];
    } else {
      assert Unique([a, b, c]) == if c == a || c == b then [a, b] else [a, b, c];
    }
  }

  /** A list without repeats is its own `Unique`. */
  lemma {:induction false} UniqueDistinct<T(!new)>(s: seq<T>)
    requires forall i, j :: 0 <= i < j < |s| ==> s[i] != s[j]
    ensures Unique(s) == s
  {
    if s != [] {
      UniqueDistinct(s[..|s| - 1]);
    }
  }

  /** Two complementary masks split a list into two parts that together hold every element. */
  lemma {:induction false} FilterSplit<T(!new)>(s: seq<T>, p: T -> bool, q: T -> bool)
    requires forall x :: q(x) == !p(x)
    ensures multiset(Filter(s, p)) + multiset(Filter(s, q)) == multiset(s)
  {
    if s != [] {
      var x, t := s[0], s[1..];
      FilterSplit(t, p, q);
      FilterCons(s, p);
      FilterCons(s, q);
      MultisetCons(s);
      var a, b := Filter(t, p), Filter(t, q);
      if p(x) {
        assert Filter(s, p) == [x] + a && Filter(s, q) == [] + b;
        assert multiset([x] + a) == multiset{x} + multiset(a);
      } else {
        assert Filter(s, p) == [] + a && Filter(s, q) == [x] + b;
        assert multiset([x] + b) == multiset{x} + multiset(b);
      }
    }
  }

  lemma MultisetCons<T>(s: seq<T>)
    requires s != []
    ensures multiset(s) == multiset{s[0]} + multiset(s[1..])
  {
    assert s == [s[0]] + s[1..];
  }

  lemma FilterCons<T(!new)>(s: seq<T>, p: T -> bool)
    requires s != []
    ensures Filter(s, p) == (if p(s[0]) then [s[0]] else []) + Filter(s[1..], p)
  {
    if !p(s[0]) {
      assert [] + Filter(s[1..], p) == Filter(s[1..], p);
    }
  }

  /** A sub-multiset of a list's front stays one of the list when the last element, or nothing, is added. */
  lemma SubSnoc<T>(kept: seq<T>, s: seq<T>)
    requires s != [] && multiset(kept) <= multiset(s[..|s| - 1])
    ensures multiset(kept) <= multiset(s)
    ensures multiset(kept + [s[|s| - 1]]) <= multiset(s)
  {
    var x := s[|s| - 1];
    assert s == s[..|s| - 1] + [x];
    assert multiset(s) == multiset(s[..|s| - 1]) + multiset{x};
    assert multiset(kept + [x]) == multiset(kept) + multiset{x};
  }
}
