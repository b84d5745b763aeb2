/**
 * Sequence operations shared by the views: `Array.prototype.filter`, counting,
 * order-preserving subsequences, and the insertion-ordered de-duplication of a
 * JavaScript `Set`.
 */
module Seqs {
  import opened Wrappers

  /** The elements of `s` that satisfy `p`, in their original order. */
  function Filter<T(!new)>(s: seq<T>, p: T -> bool): (r: seq<T>)
    ensures |r| <= |s|
    ensures forall x :: x in r <==> x in s && p(x)
  {
    if s == [] then []
    else if p(s[|s| - 1]) then Filter(s[..|s| - 1], p) + [s[|s| - 1]]
    else Filter(s[..|s| - 1], p)
  }

  /** The first element of `s` that satisfies `p`, if any (a query's `.first()`). */
  function FirstMatch<T(!new)>(s: seq<T>, p: T -> bool): (r: Option<T>)
    ensures r.Some? ==> r.value in s && p(r.value)
    ensures r.None? ==> forall x :: x in s ==> !p(x)
  {
    if s == [] then None
    else if p(s[0]) then Some(s[0])
    else FirstMatch(s[1..], p)
  }

  /** Number of elements of `s` that satisfy `p` (`s.filter(p).length`). */
  function Count<T(!new)>(s: seq<T>, p: T -> bool): nat
  {
    |Filter(s, p)|
  }

  /** `a` can be obtained from `b` by deleting elements: order is kept. */
  ghost predicate IsSubsequence<T(!new)>(a: seq<T>, b: seq<T>)
    decreases |b|
  {
    if a == [] then true
    else if b == [] then false
    else if a[|a| - 1] == b[|b| - 1] then IsSubsequence(a[..|a| - 1], b[..|b| - 1])
    else IsSubsequence(a, b[..|b| - 1])
  }

  /** No element occurs twice. */
  ghost predicate NoDuplicates<T(!new)>(s: seq<T>)
  {
    forall i, j :: 0 <= i < j < |s| ==> s[i] != s[j]
  }

  /** The elements of `s`, each kept at its first occurrence (a `Set` spread back into an array). */
  function Dedup<T(==)>(s: seq<T>): (r: seq<T>)
  {
    if s == [] then []
    else if s[|s| - 1] in s[..|s| - 1] then Dedup(s[..|s| - 1])
    else Dedup(s[..|s| - 1]) + [s[|s| - 1]]
  }

  lemma {:induction false} FilterIsSubsequence<T(!new)>(s: seq<T>, p: T -> bool)
    ensures IsSubsequence(Filter(s, p), s)
  {
    if s != [] {
      var init := s[..|s| - 1];
      FilterIsSubsequence(init, p);
      if !p(s[|s| - 1]) {
        SubsequenceExtend(Filter(init, p), init, s[|s| - 1]);
      } else {
        assert (Filter(init, p) + [s[|s| - 1]])[..|Filter(s, p)| - 1] == Filter(init, p);
      }
    }
  }

  /** Appending an element to the larger sequence keeps a subsequence a subsequence. */
  lemma {:induction false} SubsequenceExtend<T(!new)>(a: seq<T>, b: seq<T>, x: T)
    requires IsSubsequence(a, b)
    ensures IsSubsequence(a, b + [x])
    decreases |b|, 1
  {
    var bx := b + [x];
    assert bx[..|bx| - 1] == b;
    if a != [] && a[|a| - 1] == x {
      // the last element of `a` is matched against `x` instead
      SubsequenceDropLast(a, b);
    }
  }

  /** Removing the last element of a subsequence keeps it a subsequence. */
  lemma {:induction false} SubsequenceDropLast<T(!new)>(a: seq<T>, b: seq<T>)
    requires a != [] && IsSubsequence(a, b)
    ensures IsSubsequence(a[..|a| - 1], b)
    decreases |b|, 0
  {
    var b' := b[..|b| - 1];
    assert b == b' + [b[|b| - 1]];
    if a[|a| - 1] != b[|b| - 1] {
      SubsequenceDropLast(a, b');
    }
    SubsequenceExtend(a[..|a| - 1], b', b[|b| - 1]);
  }

  /** Filtering with a predicate that holds everywhere keeps everything. */
  lemma {:induction false} FilterAll<T(!new)>(s: seq<T>, p: T -> bool)
    requires forall x :: x in s ==> p(x)
    ensures Filter(s, p) == s
  {
    if s != [] {
      FilterAll(s[..|s| - 1], p);
      assert s[..|s| - 1] + [s[|s| - 1]] == s;
    }
  }

  /** Two predicates that agree on the elements of `s` select the same elements. */
  lemma {:induction false} FilterCongruent<T(!new)>(s: seq<T>, p: T -> bool, q: T -> bool)
    requires forall x :: x in s ==> p(x) == q(x)
    ensures Filter(s, p) == Filter(s, q)
  {
    if s != [] {
      FilterCongruent(s[..|s| - 1], p, q);
    }
  }

  /** Filtering a sequence extended by one element. */
  lemma FilterSnoc<T(!new)>(s: seq<T>, y: T, p: T -> bool)
    ensures Filter(s + [y], p) == Filter(s, p) + (if p(y) then [y] else [])
  {
    assert (s + [y])[..|s|] == s;
  }

  /** Filter distributes over concatenation. */
  lemma {:induction false} FilterAppend<T(!new)>(a: seq<T>, b: seq<T>, p: T -> bool)
    ensures Filter(a + b, p) == Filter(a, p) + Filter(b, p)
    decreases |b|
  {
    if b == [] {
      assert a + b == a;
    } else {
      var b' := b[..|b| - 1];
      assert (a + b)[..|a + b| - 1] == a + b';
      FilterAppend(a, b', p);
    }
  }

  /** Elements selected by `p` and by its negation together account for all of `s`. */
  lemma {:induction false} CountSplit<T(!new)>(s: seq<T>, p: T -> bool, q: T -> bool)
    requires forall x :: x in s ==> q(x) == !p(x)
    ensures Count(s, p) + Count(s, q) == |s|
  {
    if s != [] {
      CountSplit(s[..|s| - 1], p, q);
    }
  }

  /** If no element satisfies both `p` and `q`, together they select at most `|s|` elements. */
  lemma {:induction false} CountDisjoint<T(!new)>(s: seq<T>, p: T -> bool, q: T -> bool)
    requires forall x :: x in s ==> !(p(x) && q(x))
    ensures Count(s, p) + Count(s, q) <= |s|
  {
    if s != [] {
      CountDisjoint(s[..|s| - 1], p, q);
    }
  }

  /** A filter's result has the multiset of the elements it keeps. */
  lemma {:induction false} FilterMultiset<T(!new)>(s: seq<T>, p: T -> bool, x: T)
    ensures multiset(Filter(s, p))[x] == if p(x) then multiset(s)[x] else 0
  {
    if s != [] {
      var init := s[..|s| - 1];
      FilterMultiset(init, p, x);
      assert s == init + [s[|s| - 1]];
    }
  }

  /** The de-duplication keeps exactly the elements of `s`, once each. */
  lemma {:induction false} DedupSpec<T(!new)>(s: seq<T>)
    ensures forall x :: x in Dedup(s) <==> x in s
    ensures NoDuplicates(Dedup(s))
  {
    if s != [] {
      var init := s[..|s| - 1];
      DedupSpec(init);
      assert s == init + [s[|s| - 1]];
    }
  }

  /** A permutation of a duplicate-free sequence is duplicate-free. */
  lemma NoDuplicatesPermutation<T(!new)>(a: seq<T>, b: seq<T>)
    requires NoDuplicates(a) && multiset(a) == multiset(b)
    ensures NoDuplicates(b)
  {
    forall i, j | 0 <= i < j < |b| ensures b[i] != b[j] {
      NoDuplicatesCountAtMostOne(a, b[i]);
      if b[i] == b[j] {
        TwoOccurrences(b, i, j);
      }
    }
  }

  lemma {:induction false} NoDuplicatesCountAtMostOne<T(!new)>(s: seq<T>, x: T)
    requires NoDuplicates(s)
    ensures multiset(s)[x] <= 1
  {
    if s != [] {
      var init := s[..|s| - 1];
      NoDuplicatesCountAtMostOne(init, x);
      assert s == init + [s[|s| - 1]];
      if s[|s| - 1] == x {
        assert x !in init;
      }
    }
  }

  lemma TwoOccurrences<T(!new)>(s: seq<T>, i: nat, j: nat)
    requires i < j < |s| && s[i] == s[j]
    ensures multiset(s)[s[i]] >= 2
  {
    assert s == s[..j] + [s[j]] + s[j + 1..];
    assert s[i] in multiset(s[..j]);
  }
}
