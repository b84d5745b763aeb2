/**
 * `Array.prototype.sort` with a comparator, as a value: ECMAScript (since the
 * 2019 edition) requires the sort to be stable, so for a comparator `cmp` the
 * result is the stable sort of the input under `le(a, b) := cmp(a, b) <= 0`.
 * The sort is written as insertion from the back: a later element is placed
 * after every earlier element that may precede it.
 */
module Sorting {
  import opened Seqs

  /** `le` is total and transitive: a comparator that orders consistently. */
  ghost predicate TotalPreorder<T(!new)>(le: (T, T) -> bool)
  {
    && (forall a, b :: le(a, b) || le(b, a))
    && (forall a, b, c :: le(a, b) && le(b, c) ==> le(a, c))
  }

  /** Every element may precede every later one. */
  ghost predicate SortedBy<T>(s: seq<T>, le: (T, T) -> bool)
  {
    forall i, j :: 0 <= i < j < |s| ==> le(s[i], s[j])
  }

  /** `t` with `x` placed after the last element `e` that has `le(e, x)`. */
  function Insert<T>(t: seq<T>, x: T, le: (T, T) -> bool): (r: seq<T>)
    ensures multiset(r) == multiset(t) + multiset{x}
    ensures |r| == |t| + 1
  {
    if t == [] then [x]
    else if le(t[|t| - 1], x) then t + [x]
    else
      assert t == t[..|t| - 1] + [t[|t| - 1]];
      Insert(t[..|t| - 1], x, le) + [t[|t| - 1]]
  }

  /** The stable sort of `s` under `le`; its result is a permutation of `s`. */
  function SortBy<T>(s: seq<T>, le: (T, T) -> bool): (r: seq<T>)
    ensures multiset(r) == multiset(s)
    ensures |r| == |s|
  {
    if s == [] then []
    else
      assert s == s[..|s| - 1] + [s[|s| - 1]];
      Insert(SortBy(s[..|s| - 1], le), s[|s| - 1], le)
  }

  lemma {:induction false} InsertSorted<T(!new)>(t: seq<T>, x: T, le: (T, T) -> bool)
    requires TotalPreorder(le) && SortedBy(t, le)
    ensures SortedBy(Insert(t, x, le), le)
  {
    if t != [] {
      var last := t[|t| - 1];
      if !le(last, x) {
        var t' := t[..|t| - 1];
        InsertSorted(t', x, le);
        var r' := Insert(t', x, le);
        assert le(x, last);
        forall e | e in r' ensures le(e, last) {
          assert e in multiset(r');
        }
      }
    }
  }

  /** The result of `SortBy` is sorted when `le` is a total preorder. */
  lemma {:induction false} SortBySorted<T(!new)>(s: seq<T>, le: (T, T) -> bool)
    requires TotalPreorder(le)
    ensures SortedBy(SortBy(s, le), le)
  {
    if s != [] {
      SortBySorted(s[..|s| - 1], le);
      InsertSorted(SortBy(s[..|s| - 1], le), s[|s| - 1], le);
    }
  }

  lemma {:induction false} InsertStable<T(!new)>(t: seq<T>, x: T, le: (T, T) -> bool, p: T -> bool)
    requires forall a, b :: p(a) && p(b) ==> le(a, b)
    ensures Filter(Insert(t, x, le), p) == Filter(t, p) + (if p(x) then [x] else [])
  {
    if t == [] {
      FilterSnoc(t, x, p);
    } else if le(t[|t| - 1], x) {
      FilterSnoc(t, x, p);
    } else {
      var t', last := t[..|t| - 1], t[|t| - 1];
      var X, L := (if p(x) then [x] else []), (if p(last) then [last] else []);
      // `x` and `last` are not both selected, or `le(last, x)` would hold
      assert !(p(x) && p(last));
      var r' := Insert(t', x, le);
      assert Insert(t, x, le) == r' + [last];
      assert t == t' + [last];
      FilterSnoc(r', last, p);
      InsertStable(t', x, le, p);
      FilterSnoc(t', last, p);
      SwapAroundEmpty(Filter(t', p), X, L);
    }
  }

  /** Appending two sequences one of which is empty does not depend on their order. */
  lemma SwapAroundEmpty<T>(f: seq<T>, a: seq<T>, b: seq<T>)
    requires a == [] || b == []
    ensures f + a + b == f + b + a
  {
    if a == [] {
      assert f + a == f && f + b + a == f + b;
    } else {
      assert f + a + b == f + a && f + b == f;
    }
  }

  /**
   * Stability: among elements that `le` cannot tell apart (any predicate `p`
   * whose members may all precede each other), the sort keeps input order.
   */
  lemma {:induction false} SortByStable<T(!new)>(s: seq<T>, le: (T, T) -> bool, p: T -> bool)
    requires forall a, b :: p(a) && p(b) ==> le(a, b)
    ensures Filter(SortBy(s, le), p) == Filter(s, p)
  {
    if s != [] {
      var s', x := s[..|s| - 1], s[|s| - 1];
      calc {
        Filter(SortBy(s, le), p);
        Filter(Insert(SortBy(s', le), x, le), p);
        { InsertStable(SortBy(s', le), x, le, p); }
        Filter(SortBy(s', le), p) + (if p(x) then [x] else []);
        { SortByStable(s', le, p); }
        Filter(s', p) + (if p(x) then [x] else []);
        { FilterSnoc(s', x, p); assert s == s' + [x]; }
        Filter(s, p);
      }
    }
  }

  /** A comparator that never separates two elements leaves the order unchanged. */
  lemma SortByAllEqual<T(!new)>(s: seq<T>, le: (T, T) -> bool)
    requires forall a, b :: le(a, b)
    ensures SortBy(s, le) == s
  {
    var all := (x: T) => true;
    SortByStable(s, le, all);
    FilterAll(s, all);
    FilterAll(SortBy(s, le), all);
  }
}
