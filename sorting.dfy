/** The stable sort behind `sort_by_cached_key`: elements are ordered by a
    total preorder on their (cached) keys, and elements with equivalent keys
    keep their original relative order. */
module Sorting {

  ghost predicate Total<T(!new)>(le: (T, T) -> bool) {
    forall a, b :: le(a, b) || le(b, a)
  }

  ghost predicate Transitive<T(!new)>(le: (T, T) -> bool) {
    forall a, b, c :: le(a, b) && le(b, c) ==> le(a, c)
  }

  ghost predicate TotalPreorder<T(!new)>(le: (T, T) -> bool) {
    Total(le) && Transitive(le)
  }

  ghost predicate SortedBy<T>(s: seq<T>, le: (T, T) -> bool) {
    forall i, j :: 0 <= i < j < |s| ==> le(s[i], s[j])
  }

  /** `a` and `b` have equal keys. */
  predicate Equivalent<T>(le: (T, T) -> bool, a: T, b: T) {
    le(a, b) && le(b, a)
  }

  /** The elements of `s` whose keys equal the key of `x`, in their order in `s`. */
  function Equivalents<T>(s: seq<T>, le: (T, T) -> bool, x: T): seq<T> {
    if s == [] then []
    else (if Equivalent(le, s[0], x) then [s[0]] else []) + Equivalents(s[1..], le, x)
  }

  /** Insert `x` before the first element whose key is not smaller. */
  function InsertBy<T>(x: T, s: seq<T>, le: (T, T) -> bool): (r: seq<T>)
    ensures multiset(r) == multiset(s) + multiset{x}
  {
    if s == [] || le(x, s[0]) then [x] + s
    else
      assert s == [s[0]] + s[1..];
      [s[0]] + InsertBy(x, s[1..], le)
  }

  /** Insertion sort: insert the head into the sorted tail. */
  function SortBy<T>(s: seq<T>, le: (T, T) -> bool): (r: seq<T>)
    ensures multiset(r) == multiset(s)
  {
    if s == [] then []
    else
      assert s == [s[0]] + s[1..];
      InsertBy(s[0], SortBy(s[1..], le), le)
  }

  lemma {:induction false} InsertSorted<T(!new)>(x: T, s: seq<T>, le: (T, T) -> bool)
    requires TotalPreorder(le) && SortedBy(s, le)
    ensures SortedBy(InsertBy(x, s, le), le)
  {
    if s != [] && !le(x, s[0]) {
      var t := InsertBy(x, s[1..], le);
      InsertSorted(x, s[1..], le);
      assert le(s[0], x);
      forall y | y in multiset(t) ensures le(s[0], y) {
        assert y in multiset(s[1..]) + multiset{x};
        if y != x {
          assert y in s[1..];
          var k :| 0 <= k < |s[1..]| && s[1..][k] == y;
          assert s[1 + k] == y;
        }
      }
      forall j | 0 <= j < |t| ensures le(s[0], t[j]) {
        assert t[j] in multiset(t);
      }
    }
  }

  /** The sort's result is ordered by the keys. */
  lemma {:induction false} SortBySorted<T(!new)>(s: seq<T>, le: (T, T) -> bool)
    requires TotalPreorder(le)
    ensures SortedBy(SortBy(s, le), le)
  {
    if s != [] {
      SortBySorted(s[1..], le);
      InsertSorted(s[0], SortBy(s[1..], le), le);
    }
  }

  lemma {:induction false} EquivalentsConcat<T>(a: seq<T>, b: seq<T>, le: (T, T) -> bool, y: T)
    ensures Equivalents(a + b, le, y) == Equivalents(a, le, y) + Equivalents(b, le, y)
  {
    if a == [] {
      assert a + b == b;
    } else {
      var h := if Equivalent(le, a[0], y) then [a[0]] else [];
      assert (a + b)[0] == a[0];
      assert (a + b)[1..] == a[1..] + b;
      EquivalentsConcat(a[1..], b, le, y);
      calc {
        Equivalents(a + b, le, y);
        h + Equivalents(a[1..] + b, le, y);
        h + (Equivalents(a[1..], le, y) + Equivalents(b, le, y));
        (h + Equivalents(a[1..], le, y)) + Equivalents(b, le, y);
      }
    }
  }

  lemma {:induction false} InsertEquivalents<T(!new)>(x: T, s: seq<T>, le: (T, T) -> bool, y: T)
    requires Transitive(le)
    ensures Equivalents(InsertBy(x, s, le), le, y)
         == (if Equivalent(le, x, y) then [x] else []) + Equivalents(s, le, y)
  {
    if s == [] || le(x, s[0]) {
      EquivalentsConcat([x], s, le, y);
    } else {
      InsertEquivalents(x, s[1..], le, y);
      EquivalentsConcat([s[0]], InsertBy(x, s[1..], le), le, y);
      if Equivalent(le, x, y) {
        // s[0] has a strictly smaller key than x, hence than y
        assert !Equivalent(le, s[0], y);
      }
    }
  }

  /** Stability: for every key, the elements carrying it appear in the result
      in the same order as in the input. */
  lemma {:induction false} SortByStable<T(!new)>(s: seq<T>, le: (T, T) -> bool, y: T)
    requires Transitive(le)
    ensures Equivalents(SortBy(s, le), le, y) == Equivalents(s, le, y)
  {
    if s != [] {
      SortByStable(s[1..], le, y);
      InsertEquivalents(s[0], SortBy(s[1..], le), le, y);
    }
  }
}
