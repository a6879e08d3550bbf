/**
  Ascending sort of day numbers, standing in for Python's `sorted` on a
  list of dates, and the facts about sorted lists the walk over worked days
  relies on.
*/
module Sorting {

  predicate Sorted(s: seq<int>) {
    forall i, j :: 0 <= i < j < |s| ==> s[i] <= s[j]
  }

  predicate StrictlySorted(s: seq<int>) {
    forall i, j :: 0 <= i < j < |s| ==> s[i] < s[j]
  }

  /** No value occurs twice. */
  predicate Distinct(s: seq<int>) {
    forall i, j :: 0 <= i < j < |s| ==> s[i] != s[j]
  }

  function Insert(x: int, s: seq<int>): (r: seq<int>)
    requires Sorted(s)
    ensures Sorted(r)
    ensures multiset(r) == multiset(s) + multiset{x}
  {
    if s == [] then [x]
    else if x <= s[0] then
      Prepend(x, s);
      [x] + s
    else
      var t := Insert(x, s[1..]);
      assert s == [s[0]] + s[1..];
      LowerBound(s[0], x, s[1..], t);
      Prepend(s[0], t);
      [s[0]] + t
  }

  /** A lower bound of a list and of `x` bounds any rearrangement of both. */
  lemma LowerBound(a: int, x: int, s: seq<int>, t: seq<int>)
    requires a <= x
    requires forall y :: y in s ==> a <= y
    requires multiset(t) == multiset(s) + multiset{x}
    ensures forall y :: y in t ==> a <= y
  {
    forall y | y in t ensures a <= y {
      assert y in multiset(t);
      if y != x {
        assert y in multiset(s);
        assert y in s;
      }
    }
  }

  lemma Prepend(a: int, t: seq<int>)
    requires Sorted(t)
    requires forall y :: y in t ==> a <= y
    ensures Sorted([a] + t)
  {
    var r := [a] + t;
    forall i, j | 0 <= i < j < |r| ensures r[i] <= r[j] {
      assert r[j] == t[j - 1];
      if i == 0 {
        assert t[j - 1] in t;
      } else {
        assert r[i] == t[i - 1];
      }
    }
  }

  /** The sorted rearrangement of `s`. */
  function Sort(s: seq<int>): (r: seq<int>)
    ensures Sorted(r)
    ensures multiset(r) == multiset(s)
  {
    if s == [] then []
    else
      assert s == [s[0]] + s[1..];
      Insert(s[0], Sort(s[1..]))
  }

  /** The elements of `s` smaller than `bound`, in their original order. */
  function Below(s: seq<int>, bound: int): (r: seq<int>)
    ensures forall x :: multiset(r)[x] == if x < bound then multiset(s)[x] else 0
  {
    if s == [] then []
    else
      var last := s[|s| - 1];
      assert s == s[..|s| - 1] + [last];
      Below(s[..|s| - 1], bound) + (if last < bound then [last] else [])
  }

  lemma {:induction false} BelowKeepsOrder(s: seq<int>, bound: int)
    requires Sorted(s)
    ensures Sorted(Below(s, bound))
  {
    if s != [] {
      var init, last := s[..|s| - 1], s[|s| - 1];
      BelowKeepsOrder(init, bound);
      if last < bound {
        var t := Below(init, bound);
        forall x | x in t ensures x <= last {
          assert x in multiset(t);
          assert x in init;
        }
        Append(t, last);
      }
    }
  }

  lemma Append(t: seq<int>, a: int)
    requires Sorted(t)
    requires forall y :: y in t ==> y <= a
    ensures Sorted(t + [a])
  {
    var r := t + [a];
    forall i, j | 0 <= i < j < |r| ensures r[i] <= r[j] {
      assert r[i] == t[i];
      if j == |t| {
        assert t[i] in t;
      } else {
        assert r[j] == t[j];
      }
    }
  }

  /** A multiset has exactly one sorted arrangement. */
  lemma {:induction false} SortedUnique(a: seq<int>, b: seq<int>)
    requires Sorted(a) && Sorted(b)
    requires multiset(a) == multiset(b)
    ensures a == b
  {
    assert |a| == |multiset(a)| == |multiset(b)| == |b|;
    if a != [] {
      HeadCounted(a);
      HeadCounted(b);
      MinimumFirst(a, b[0]);
      MinimumFirst(b, a[0]);
      assert a[0] == b[0];
      DropFirst(a);
      DropFirst(b);
      SameRemainder(a[1..], b[1..], multiset(a), a[0]);
      SortedUnique(a[1..], b[1..]);
      assert a == [a[0]] + a[1..];
      assert b == [b[0]] + b[1..];
    }
  }

  lemma SameRemainder(x: seq<int>, y: seq<int>, m: multiset<int>, h: int)
    requires multiset(x) == m - multiset{h} && multiset(y) == m - multiset{h}
    ensures multiset(x) == multiset(y)
  {
  }

  lemma HeadCounted(a: seq<int>)
    requires a != []
    ensures a[0] in multiset(a)
  {
  }

  /** Dropping the head of a non-empty sorted list leaves it sorted, one occurrence lighter. */
  lemma DropFirst(a: seq<int>)
    requires Sorted(a) && a != []
    ensures Sorted(a[1..])
    ensures multiset(a[1..]) == multiset(a) - multiset{a[0]}
  {
    assert a == [a[0]] + a[1..];
  }

  /** The first element of a non-empty sorted list bounds every element from below. */
  lemma MinimumFirst(a: seq<int>, y: int)
    requires Sorted(a) && a != []
    requires y in multiset(a)
    ensures a[0] <= y
  {
    assert y in a;
    var i :| 0 <= i < |a| && a[i] == y;
  }

  /** Sorting then dropping the values from `bound` up equals dropping then sorting. */
  lemma SortBelowCommute(s: seq<int>, bound: int)
    ensures Below(Sort(s), bound) == Sort(Below(s, bound))
  {
    BelowRearranged(s, Sort(s), bound, Sort(Below(s, bound)));
  }

  /** Dropping the values from `bound` up out of any sorted arrangement of `s` gives the sorted arrangement of the rest. */
  lemma BelowRearranged(s: seq<int>, sorted: seq<int>, bound: int, t: seq<int>)
    requires Sorted(sorted) && multiset(sorted) == multiset(s)
    requires Sorted(t) && multiset(t) == multiset(Below(s, bound))
    ensures Below(sorted, bound) == t
  {
    var b := Below(sorted, bound);
    BelowKeepsOrder(sorted, bound);
    forall x ensures multiset(b)[x] == multiset(t)[x] {
    }
    assert multiset(b) == multiset(t);
    SortedUnique(b, t);
  }

  /** A sorted list without repeated values is strictly increasing. */
  lemma SortedDistinctIsStrict(s: seq<int>)
    requires Sorted(s) && Distinct(s)
    ensures StrictlySorted(s)
  {
  }

  /** A rearrangement keeps the absence of repeated values; in particular sorting does. */
  lemma {:induction false} RearrangeKeepsDistinct(s: seq<int>, r: seq<int>)
    requires Distinct(s) && multiset(r) == multiset(s)
    ensures Distinct(r)
  {
    forall i, j | 0 <= i < j < |r| ensures r[i] != r[j] {
      if r[i] == r[j] {
        TwiceCounted(r, i, j);
        CountAtMostOne(s, r[i]);
      }
    }
  }

  /** A rearrangement has the same members. */
  lemma RearrangeKeepsMember(s: seq<int>, r: seq<int>, x: int)
    requires multiset(r) == multiset(s)
    ensures x in r <==> x in s
  {
    assert x in r <==> x in multiset(r);
    assert x in s <==> x in multiset(s);
  }

  /** A value found at two positions is counted at least twice. */
  lemma TwiceCounted(r: seq<int>, i: int, j: int)
    requires 0 <= i < j < |r| && r[i] == r[j]
    ensures multiset(r)[r[i]] >= 2
  {
    assert r == r[..j] + [r[j]] + r[j+1..];
    assert r[i] in r[..j];
    assert multiset(r[..j])[r[i]] >= 1;
  }

  lemma {:induction false} CountAtMostOne(s: seq<int>, x: int)
    requires Distinct(s)
    ensures multiset(s)[x] <= 1
  {
    if s != [] {
      assert s == [s[0]] + s[1..];
      CountAtMostOne(s[1..], x);
      if s[0] == x {
        assert x !in s[1..];
      }
    }
  }
}
