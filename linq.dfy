/**
 * The sequence operators the program takes from LINQ, as functions on
 * sequences: `Where` (Filter), `Distinct` (first-occurrence order) and the
 * stable `OrderBy` / `OrderByDescending` (SortBy with a "sorts no later
 * than" relation).
 */
module Linq {

  predicate NoDuplicates<T(==)>(s: seq<T>) {
    forall i, j :: 0 <= i < j < |s| ==> s[i] != s[j]
  }

  /** The elements of `s` that satisfy `p`, in their order in `s`. */
  function Filter<T(!new)>(s: seq<T>, p: T -> bool): (r: seq<T>)
    ensures |r| <= |s|
    ensures forall x :: x in r <==> x in s && p(x)
  {
    if s == [] then []
    else (if p(s[0]) then [s[0]] else []) + Filter(s[1..], p)
  }

  lemma {:induction false} FilterAppend<T(!new)>(a: seq<T>, b: seq<T>, p: T -> bool)
    ensures Filter(a + b, p) == Filter(a, p) + Filter(b, p)
  {
    if a == [] {
      assert a + b == b;
    } else {
      assert (a + b)[0] == a[0];
      assert (a + b)[1..] == a[1..] + b;
      FilterAppend(a[1..], b, p);
    }
  }

  /** A sequence is the part before position `k`, the element at `k` and the part after it. */
  lemma SplitAt<T>(s: seq<T>, k: nat)
    requires k < |s|
    ensures s == s[..k] + [s[k]] + s[k + 1..]
  {
  }

  /** Regrouping a concatenation of four pieces after the first. */
  lemma ConcatTail<T>(a: seq<T>, b: seq<T>, c: seq<T>, d: seq<T>)
    ensures a + b + c + d == a + (b + c + d)
  {
  }

  /** Splitting the last of five pieces in two and regrouping around the middle four. */
  lemma ConcatSplitLast<T>(a: seq<T>, b: seq<T>, c: seq<T>, d: seq<T>, e: seq<T>, f: seq<T>)
    ensures a + b + c + d + (e + f) == a + (b + c + d + e) + f
  {
  }

  /** Extending a prefix of `s`, appended to `a`, by one element. */
  lemma AppendPrefixStep<T>(a: seq<T>, s: seq<T>, j: nat)
    requires j < |s|
    ensures a + s[..j + 1] == (a + s[..j]) + [s[j]]
  {
    assert s[..j + 1] == s[..j] + [s[j]];
  }

  /** `Filter` seen from the end: the last element is kept after the others when it satisfies `p`. */
  lemma FilterLast<T(!new)>(s: seq<T>, p: T -> bool)
    requires s != []
    ensures Filter(s, p) == Filter(s[..|s| - 1], p) + if p(s[|s| - 1]) then [s[|s| - 1]] else []
  {
    var n := |s| - 1;
    var init, last := s[..n], [s[n]];
    assert init + last == s;
    FilterAppend(init, last, p);
    assert last[1..] == [];
  }

  /** Filtering with two predicates that agree on the elements gives the same result. */
  lemma {:induction false} FilterCongruent<T(!new)>(s: seq<T>, p: T -> bool, q: T -> bool)
    requires forall i :: 0 <= i < |s| ==> p(s[i]) == q(s[i])
    ensures Filter(s, p) == Filter(s, q)
  {
    if s != [] {
      FilterCongruent(s[1..], p, q);
    }
  }

  /** Position of the first occurrence of `x` in `s`. */
  function FirstIndex<T(==)>(s: seq<T>, x: T): (k: nat)
    requires x in s
    ensures k < |s| && s[k] == x
    ensures forall i :: 0 <= i < k ==> s[i] != x
  {
    if s[0] == x then 0 else 1 + FirstIndex(s[1..], x)
  }

  /**
   * `Enumerable.Distinct`: each element once, in the order of its first
   * occurrence.
   */
  function Distinct<T(==,!new)>(s: seq<T>): (r: seq<T>)
    ensures NoDuplicates(r)
    ensures forall x :: x in r <==> x in s
    ensures |r| <= |s|
  {
    if s == [] then []
    else
      var d := Distinct(s[..|s| - 1]);
      var x := s[|s| - 1];
      assert forall y :: y in s <==> y in s[..|s| - 1] || y == x;
      if x in d then d else d + [x]
  }

  /** Appending an element adds it to `Distinct` unless it is already there. */
  lemma DistinctStep<T(!new)>(s: seq<T>, x: T)
    ensures Distinct(s + [x]) == if x in Distinct(s) then Distinct(s) else Distinct(s) + [x]
  {
    assert (s + [x])[..|s|] == s;
  }

  lemma FirstIndexPrefix<T(!new)>(s: seq<T>, y: T)
    requires s != [] && y in s[..|s| - 1]
    ensures FirstIndex(s, y) == FirstIndex(s[..|s| - 1], y)
  {
    var p := s[..|s| - 1];
    var k := FirstIndex(p, y);
    assert s[k] == y;
    assert forall i :: 0 <= i < k ==> s[i] == p[i];
  }

  /**
   * The elements of `Distinct(s)` come in the order of their first
   * occurrences in `s`.
   */
  lemma {:induction false} DistinctInFirstOccurrenceOrder<T(!new)>(s: seq<T>, i: nat, j: nat)
    requires i < j < |Distinct(s)|
    ensures FirstIndex(s, Distinct(s)[i]) < FirstIndex(s, Distinct(s)[j])
  {
    var p := s[..|s| - 1];
    var d := Distinct(p);
    var x := s[|s| - 1];
    var r := Distinct(s);
    if x in d {
      assert r == d;
      DistinctInFirstOccurrenceOrder(p, i, j);
      FirstIndexPrefix(s, d[i]);
      FirstIndexPrefix(s, d[j]);
    } else {
      assert r == d + [x];
      FirstIndexPrefix(s, r[i]);
      if j < |d| {
        DistinctInFirstOccurrenceOrder(p, i, j);
        FirstIndexPrefix(s, r[j]);
      } else {
        assert r[j] == x && x !in p;
        assert FirstIndex(s, x) == |s| - 1;
      }
    }
  }

  /** `le(a, b)`: `a` may sort before `b`; a total preorder, as a key comparison is. */
  ghost predicate TotalPreorder<T(!new)>(le: (T, T) -> bool) {
    && (forall a, b :: le(a, b) || le(b, a))
    && (forall a, b, c :: le(a, b) && le(b, c) ==> le(a, c))
  }

  ghost predicate SortedBy<T>(s: seq<T>, le: (T, T) -> bool) {
    forall i, j :: 0 <= i < j < |s| ==> le(s[i], s[j])
  }

  /** Inserts `x` before the first element it may sort before. */
  function Insert<T>(x: T, s: seq<T>, le: (T, T) -> bool): (r: seq<T>)
    ensures multiset(r) == multiset(s) + multiset{x}
  {
    if s == [] || le(x, s[0]) then [x] + s
    else
      assert s == [s[0]] + s[1..];
      [s[0]] + Insert(x, s[1..], le)
  }

  /**
   * A stable sort, as `OrderBy` is: elements that compare equal keep their
   * order in the input.
   */
  function SortBy<T>(s: seq<T>, le: (T, T) -> bool): (r: seq<T>)
    ensures multiset(r) == multiset(s)
  {
    if s == [] then []
    else
      assert s == [s[0]] + s[1..];
      Insert(s[0], SortBy(s[1..], le), le)
  }

  lemma {:induction false} InsertSorted<T(!new)>(x: T, s: seq<T>, le: (T, T) -> bool)
    requires TotalPreorder(le) && SortedBy(s, le)
    ensures SortedBy(Insert(x, s, le), le)
  {
    if s == [] || le(x, s[0]) {
    } else {
      var t := Insert(x, s[1..], le);
      InsertSorted(x, s[1..], le);
      assert le(s[0], x);
      forall k | 0 <= k < |t| ensures le(s[0], t[k]) {
        assert t[k] in multiset(t);
        assert t[k] == x || t[k] in s[1..];
      }
    }
  }

  lemma {:induction false} SortBySorted<T(!new)>(s: seq<T>, le: (T, T) -> bool)
    requires TotalPreorder(le)
    ensures SortedBy(SortBy(s, le), le)
  {
    if s != [] {
      SortBySorted(s[1..], le);
      InsertSorted(s[0], SortBy(s[1..], le), le);
    }
  }

  ghost predicate Equivalent<T>(le: (T, T) -> bool, a: T, b: T) {
    le(a, b) && le(b, a)
  }

  /** Neither of two elements one of which does not sort before the other is equivalent to the same `v`. */
  lemma NotBothEquivalent<T(!new)>(le: (T, T) -> bool, x: T, y: T, v: T)
    requires TotalPreorder(le) && !le(x, y)
    ensures !(Equivalent(le, x, v) && Equivalent(le, y, v))
  {
  }

  lemma FilterConsCongruent<T(!new)>(y: T, a: seq<T>, b: seq<T>, p: T -> bool)
    requires Filter(a, p) == Filter(b, p)
    ensures Filter([y] + a, p) == Filter([y] + b, p)
  {
    assert ([y] + a)[1..] == a;
    assert ([y] + b)[1..] == b;
  }

  /** Two adjacent elements that `p` does not both keep can swap places without changing `Filter`. */
  lemma FilterSwapFront<T(!new)>(x: T, y: T, t: seq<T>, p: T -> bool)
    requires !(p(x) && p(y))
    ensures Filter([y] + ([x] + t), p) == Filter([x] + ([y] + t), p)
  {
    assert ([y] + ([x] + t))[1..] == [x] + t;
    assert ([x] + ([y] + t))[1..] == [y] + t;
    assert ([x] + t)[1..] == t;
    assert ([y] + t)[1..] == t;
  }

  lemma {:induction false} InsertStable<T(!new)>(x: T, s: seq<T>, le: (T, T) -> bool, v: T)
    requires TotalPreorder(le) && SortedBy(s, le)
    ensures Filter(Insert(x, s, le), y => Equivalent(le, y, v)) == Filter([x] + s, y => Equivalent(le, y, v))
  {
    var p := y => Equivalent(le, y, v);
    if s != [] && !le(x, s[0]) {
      var t := s[1..];
      assert SortedBy(t, le) by {
        forall i, j | 0 <= i < j < |t| ensures le(t[i], t[j]) {
          assert t[i] == s[i + 1] && t[j] == s[j + 1];
        }
      }
      InsertStable(x, t, le, v);
      NotBothEquivalent(le, x, s[0], v);
      assert Insert(x, s, le) == [s[0]] + Insert(x, t, le);
      FilterConsCongruent(s[0], Insert(x, t, le), [x] + t, p);
      FilterSwapFront(x, s[0], t, p);
      assert [s[0]] + t == s;
    }
  }

  /**
   * Stability: the elements equivalent to any `v` appear in the sorted
   * result in the same relative order as in the input.
   */
  lemma {:induction false} SortByStable<T(!new)>(s: seq<T>, le: (T, T) -> bool, v: T)
    requires TotalPreorder(le)
    ensures Filter(SortBy(s, le), y => Equivalent(le, y, v)) == Filter(s, y => Equivalent(le, y, v))
  {
    if s != [] {
      var p := y => Equivalent(le, y, v);
      SortByStable(s[1..], le, v);
      SortBySorted(s[1..], le);
      InsertStable(s[0], SortBy(s[1..], le), le, v);
      FilterAppend([s[0]], SortBy(s[1..], le), p);
      FilterAppend([s[0]], s[1..], p);
      assert [s[0]] + s[1..] == s;
    }
  }

  /** No two elements of `s` share a key. */
  ghost predicate KeysDistinct<T, K>(s: seq<T>, key: T -> K) {
    forall i, j :: 0 <= i < j < |s| ==> key(s[i]) != key(s[j])
  }

  /** Sorting keeps a key that is unique among the input elements unique. */
  lemma {:induction false} SortByKeepsKeysDistinct<T, K>(s: seq<T>, le: (T, T) -> bool, key: T -> K)
    requires KeysDistinct(s, key)
    ensures KeysDistinct(SortBy(s, le), key)
  {
    if s != [] {
      var t := SortBy(s[1..], le);
      SortByKeepsKeysDistinct(s[1..], le, key);
      forall k | 0 <= k < |t| ensures key(t[k]) != key(s[0]) {
        assert t[k] in multiset(s[1..]);
        assert t[k] in s[1..];
      }
      InsertKeepsKeysDistinct(s[0], t, le, key);
    }
  }

  lemma {:induction false} InsertKeepsKeysDistinct<T, K>(x: T, s: seq<T>, le: (T, T) -> bool, key: T -> K)
    requires KeysDistinct(s, key)
    requires forall k :: 0 <= k < |s| ==> key(s[k]) != key(x)
    ensures KeysDistinct(Insert(x, s, le), key)
  {
    var r := Insert(x, s, le);
    if s == [] || le(x, s[0]) {
      assert r == [x] + s;
      forall i, j | 0 <= i < j < |r| ensures key(r[i]) != key(r[j]) {
        assert r[j] == s[j - 1];
        if i > 0 { assert r[i] == s[i - 1]; }
      }
    } else {
      var t := Insert(x, s[1..], le);
      InsertKeepsKeysDistinct(x, s[1..], le, key);
      assert r == [s[0]] + t;
      forall k | 0 <= k < |t| ensures key(t[k]) != key(s[0]) {
        assert t[k] in multiset(t);
        assert t[k] == x || t[k] in s[1..];
      }
      forall i, j | 0 <= i < j < |r| ensures key(r[i]) != key(r[j]) {
        assert r[j] == t[j - 1];
        if i > 0 { assert r[i] == t[i - 1]; }
      }
    }
  }

  /** Keeping only some elements keeps a unique key unique. */
  lemma {:induction false} FilterKeepsKeysDistinct<T(!new), K>(s: seq<T>, p: T -> bool, key: T -> K)
    requires KeysDistinct(s, key)
    ensures KeysDistinct(Filter(s, p), key)
  {
    if s != [] {
      var t := Filter(s[1..], p);
      FilterKeepsKeysDistinct(s[1..], p, key);
      var r := Filter(s, p);
      if p(s[0]) {
        assert r == [s[0]] + t;
        forall k | 0 <= k < |t| ensures key(t[k]) != key(s[0]) {
          assert t[k] in s[1..];
        }
        forall i, j | 0 <= i < j < |r| ensures key(r[i]) != key(r[j]) {
          assert r[j] == t[j - 1];
          if i > 0 { assert r[i] == t[i - 1]; }
        }
      } else {
        assert r == t;
      }
    }
  }

  /** The sequences `f(x)` of the elements of `s`, one after the other. */
  function FlatMap<S, T>(s: seq<S>, f: S -> seq<T>): seq<T> {
    if s == [] then []
    else FlatMap(s[..|s| - 1], f) + f(s[|s| - 1])
  }

  lemma FlatMapStep<S, T>(s: seq<S>, i: nat, f: S -> seq<T>)
    requires i < |s|
    ensures FlatMap(s[..i + 1], f) == FlatMap(s[..i], f) + f(s[i])
  {
    assert s[..i + 1][..i] == s[..i];
  }

  /** An element of a flattened sequence comes from the sequence of one of the elements. */
  lemma {:induction false} FlatMapMembership<S, T>(s: seq<S>, f: S -> seq<T>, y: T)
    ensures y in FlatMap(s, f) <==> exists i :: 0 <= i < |s| && y in f(s[i])
  {
    if s != [] {
      var n := |s| - 1;
      var init := s[..n];
      FlatMapMembership(init, f, y);
      if y in FlatMap(init, f) {
        var i :| 0 <= i < |init| && y in f(init[i]);
        assert s[i] == init[i];
      } else if y !in f(s[n]) {
        forall i | 0 <= i < |s| ensures y !in f(s[i]) {
          if i < n {
            assert s[i] == init[i];
          }
        }
      }
    }
  }

  lemma {:induction false} FilterTwoFound<T(!new)>(s: seq<T>, p: T -> bool)
    requires |Filter(s, p)| >= 2
    ensures exists i, j :: 0 <= i < j < |s| && p(s[i]) && p(s[j])
  {
    var t := s[1..];
    if p(s[0]) {
      var y := Filter(t, p)[0];
      assert y in Filter(t, p);
      var k :| 0 <= k < |t| && t[k] == y;
      assert p(s[0]) && p(s[k + 1]);
    } else {
      FilterTwoFound(t, p);
      var i, j :| 0 <= i < j < |t| && p(t[i]) && p(t[j]);
      assert s[i + 1] == t[i] && s[j + 1] == t[j];
    }
  }

  lemma {:induction false} FilterTwoKept<T(!new)>(s: seq<T>, p: T -> bool, i: nat, j: nat)
    requires i < j < |s| && p(s[i]) && p(s[j])
    ensures |Filter(s, p)| >= 2
  {
    var t := s[1..];
    if i == 0 {
      assert s[j] == t[j - 1] && s[j] in Filter(t, p);
    } else {
      FilterTwoKept(t, p, i - 1, j - 1);
    }
  }

  /** Two elements satisfy `p` exactly when `Filter` keeps at least two. */
  lemma FilterTwo<T(!new)>(s: seq<T>, p: T -> bool)
    ensures |Filter(s, p)| >= 2 <==> exists i, j :: 0 <= i < j < |s| && p(s[i]) && p(s[j])
  {
    if |Filter(s, p)| >= 2 {
      FilterTwoFound(s, p);
    }
    if exists i, j :: 0 <= i < j < |s| && p(s[i]) && p(s[j]) {
      var i, j :| 0 <= i < j < |s| && p(s[i]) && p(s[j]);
      FilterTwoKept(s, p, i, j);
    }
  }

  /**
   * `Distinct` of a sequence followed by copies of one value `n` not in it:
   * `n` is added once, if there is at least one copy.
   */
  lemma {:induction false} DistinctAppendCopies<T(!new)>(x: seq<T>, y: seq<T>, n: T)
    requires n !in x
    requires forall k :: 0 <= k < |y| ==> y[k] == n
    ensures Distinct(x + y) == if y == [] then Distinct(x) else Distinct(x) + [n]
    decreases |y|
  {
    if y == [] {
      assert x + y == x;
    } else {
      var init := y[..|y| - 1];
      DistinctAppendCopies(x, init, n);
      assert x + y == (x + init) + [n];
      DistinctStep(x + init, n);
    }
  }
}
