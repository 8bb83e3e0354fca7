/**
 * The sequence operators the modelled code relies on, written out:
 * `Where` (LINQ's Enumerable.Where, and equally every hand-written
 * `foreach ... if (p(x)) yield return x;` filter of the repository),
 * `Skip` and `Take`. A sequence here is what a consumer gets by pulling the
 * enumerable to exhaustion.
 */
module Linq {

  /** The elements of `s` that satisfy `p`, in the order `s` yields them. */
  function Where<T>(s: seq<T>, p: T -> bool): (r: seq<T>)
    ensures |r| <= |s|
  {
    if s == [] then []
    else if p(s[0]) then [s[0]] + Where(s[1..], p)
    else Where(s[1..], p)
  }

  /** The filter keeps exactly the elements of `s` that satisfy `p`. */
  lemma {:induction false} WhereMembers<T(!new)>(s: seq<T>, p: T -> bool)
    ensures forall x :: x in Where(s, p) <==> x in s && p(x)
  {
    if s != [] {
      WhereMembers(s[1..], p);
      assert s == [s[0]] + s[1..];
    }
  }

  /**
   * `sub` can be obtained from `s` by deleting elements, so its elements
   * appear in `s` in the same order: either both start with the same element
   * and the rests match, or `sub` is found in the rest of `s`.
   */
  predicate IsSubsequence<T(==)>(sub: seq<T>, s: seq<T>)
    decreases |s|
  {
    sub == []
    || (s != [] && ((sub[0] == s[0] && IsSubsequence(sub[1..], s[1..])) || IsSubsequence(sub, s[1..])))
  }

  /** The filter's result keeps the source order: it is a subsequence of the source. */
  lemma {:induction false} WhereIsSubsequence<T>(s: seq<T>, p: T -> bool)
    ensures IsSubsequence(Where(s, p), s)
  {
    if s != [] {
      WhereIsSubsequence(s[1..], p);
      if p(s[0]) {
        assert Where(s, p)[1..] == Where(s[1..], p);
      }
    }
  }

  /**
   * What a filter by `p` over `s` must yield, stated without `Where`: the
   * elements of `s` that satisfy `p`, each as often as it occurs in `s`,
   * in the order of `s`, and nothing else.
   */
  ghost predicate Selects<T(!new)>(r: seq<T>, s: seq<T>, p: T -> bool) {
    && IsSubsequence(r, s)
    && forall x :: multiset(r)[x] == if p(x) then multiset(s)[x] else 0
  }

  /** Each element occurs in the filter's result exactly as often as in the source when it passes, and never otherwise. */
  lemma {:induction false} WhereCount<T(!new)>(s: seq<T>, p: T -> bool)
    ensures forall x :: multiset(Where(s, p))[x] == if p(x) then multiset(s)[x] else 0
  {
    if s != [] {
      WhereCount(s[1..], p);
      assert s == [s[0]] + s[1..];
      if p(s[0]) {
        assert Where(s, p) == [s[0]] + Where(s[1..], p);
      }
    }
  }

  /** The filter yields what a filter must yield. */
  lemma WhereSelects<T(!new)>(s: seq<T>, p: T -> bool)
    ensures Selects(Where(s, p), s, p)
  {
    WhereIsSubsequence(s, p);
    WhereCount(s, p);
  }

  /** A subsequence holds no element more often than the sequence it is taken from. */
  lemma {:induction false} SubsequenceMultiset<T>(sub: seq<T>, s: seq<T>)
    requires IsSubsequence(sub, s)
    ensures multiset(sub) <= multiset(s)
    decreases |s|
  {
    if sub != [] {
      assert s == [s[0]] + s[1..];
      if sub[0] == s[0] && IsSubsequence(sub[1..], s[1..]) {
        SubsequenceMultiset(sub[1..], s[1..]);
        assert sub == [sub[0]] + sub[1..];
      } else {
        SubsequenceMultiset(sub, s[1..]);
      }
    }
  }

  /** Only one sequence yields what a filter must yield, and it is the filter's result. */
  lemma {:induction false} SelectsUnique<T(!new)>(r: seq<T>, s: seq<T>, p: T -> bool)
    requires Selects(r, s, p)
    ensures r == Where(s, p)
    decreases |s|
  {
    if s != [] {
      var x, t := s[0], s[1..];
      assert s == [x] + t;
      assert forall y :: multiset(s)[y] == multiset(t)[y] + if y == x then 1 else 0;
      if p(x) {
        assert multiset(r)[x] > multiset(t)[x];
        if !(r != [] && r[0] == x && IsSubsequence(r[1..], t)) {
          SubsequenceMultiset(r, t);
          assert false;
        }
        assert r == [x] + r[1..];
        assert Selects(r[1..], t, p);
        SelectsUnique(r[1..], t, p);
      } else {
        assert x !in r by {
          assert multiset(r)[x] == 0;
        }
        assert Selects(r, t, p);
        SelectsUnique(r, t, p);
      }
    }
  }

  /** Filtering distributes over concatenation: a pull over `a + b` yields `a`'s matches, then `b`'s. */
  lemma {:induction false} WhereAppend<T(!new)>(a: seq<T>, b: seq<T>, p: T -> bool)
    ensures Where(a + b, p) == Where(a, p) + Where(b, p)
  {
    if a == [] {
      assert a + b == b;
    } else {
      assert (a + b)[1..] == a[1..] + b;
      WhereAppend(a[1..], b, p);
    }
  }

  /** Filtering an already filtered sequence with the same predicate changes nothing. */
  lemma {:induction false} WhereIdempotent<T(!new)>(s: seq<T>, p: T -> bool)
    ensures Where(Where(s, p), p) == Where(s, p)
  {
    WhereMembers(s, p);
    WhereAllTrue(Where(s, p), p);
  }

  /** Two filters in a row keep what the conjunction of their predicates keeps. */
  lemma {:induction false} WhereFusion<T(!new)>(s: seq<T>, p: T -> bool, q: T -> bool, both: T -> bool)
    requires forall x :: both(x) == (p(x) && q(x))
    ensures Where(Where(s, p), q) == Where(s, both)
  {
    if s != [] {
      WhereFusion(s[1..], p, q, both);
    }
  }

  /** When every element passes, the filter returns the source unchanged. */
  lemma {:induction false} WhereAllTrue<T(!new)>(s: seq<T>, p: T -> bool)
    requires forall x :: x in s ==> p(x)
    ensures Where(s, p) == s
  {
    if s != [] {
      assert forall x :: x in s[1..] ==> x in s;
      WhereAllTrue(s[1..], p);
      assert s == [s[0]] + s[1..];
    }
  }

  /** When no element passes, the filter returns nothing. */
  lemma {:induction false} WhereAllFalse<T(!new)>(s: seq<T>, p: T -> bool)
    requires forall x :: x in s ==> !p(x)
    ensures Where(s, p) == []
  {
    if s != [] {
      assert forall x :: x in s[1..] ==> x in s;
      WhereAllFalse(s[1..], p);
    }
  }

  /** Filters that agree on every element of `s` give the same result. */
  lemma {:induction false} WhereCongruent<T(!new)>(s: seq<T>, p: T -> bool, q: T -> bool)
    requires forall x :: x in s ==> p(x) == q(x)
    ensures Where(s, p) == Where(s, q)
  {
    if s != [] {
      assert forall x :: x in s[1..] ==> x in s;
      WhereCongruent(s[1..], p, q);
    }
  }

  /** A predicate and its complement split the source: their results add up to it in length. */
  lemma {:induction false} WherePartition<T(!new)>(s: seq<T>, p: T -> bool, q: T -> bool)
    requires forall x :: x in s ==> p(x) != q(x)
    ensures |Where(s, p)| + |Where(s, q)| == |s|
  {
    if s != [] {
      assert forall x :: x in s[1..] ==> x in s;
      WherePartition(s[1..], p, q);
    }
  }

  /** Enumerable.Skip: drops the first `count` elements; a non-positive count drops nothing. */
  function Skip<T>(s: seq<T>, count: int): (r: seq<T>)
    ensures |r| == if count <= 0 then |s| else if count < |s| then |s| - count else 0
    ensures forall i :: 0 <= i < |r| ==> r[i] == s[|s| - |r| + i]
  {
    if count <= 0 then s else if count < |s| then s[count..] else []
  }

  /** Enumerable.Take: the first `count` elements; a non-positive count yields nothing. */
  function Take<T>(s: seq<T>, count: int): (r: seq<T>)
    ensures |r| == if count <= 0 then 0 else if count < |s| then count else |s|
    ensures forall i :: 0 <= i < |r| ==> r[i] == s[i]
  {
    if count <= 0 || s == [] then [] else [s[0]] + Take(s[1..], count - 1)
  }

  /** Skip then Take is the contiguous slice from `start` of at most `count` elements. */
  lemma SkipTakeSlice<T>(s: seq<T>, start: int, count: int)
    requires 0 <= start && 0 <= count
    ensures Take(Skip(s, start), count)
         == if start >= |s| then [] else s[start..if start + count <= |s| then start + count else |s|]
  {
  }
}
