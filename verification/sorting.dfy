/**
 * The stable sort of `Array.prototype.sort` with a comparator, on sequences.
 * `le(a, b)` holds when the comparator does not put `b` before `a`
 * (`compare(a, b) <= 0`). The sort is an insertion sort that inserts each
 * element in front of the first later element it does not exceed, so elements
 * that compare equal keep their original order.
 */
module Sorting {

  /** `s` is ordered by `le`. */
  predicate SortedBy<T>(s: seq<T>, le: (T, T) -> bool) {
    forall i, j :: 0 <= i < j < |s| ==> le(s[i], s[j])
  }

  /** `le` is a total preorder: every two elements compare, and comparison chains. */
  ghost predicate TotalPreorder<T(!new)>(le: (T, T) -> bool) {
    && (forall a, b :: le(a, b) || le(b, a))
    && (forall a, b, c :: le(a, b) && le(b, c) ==> le(a, c))
  }

  /** Inserts `x` in front of the first element of `s` that it does not exceed. */
  function Insert<T>(x: T, s: seq<T>, le: (T, T) -> bool): (r: seq<T>)
    ensures multiset(r) == multiset(s) + multiset{x}
    ensures |r| == |s| + 1
  {
    if |s| == 0 || le(x, s[0]) then [x] + s
    else
      assert s == [s[0]] + s[1..];
      [s[0]] + Insert(x, s[1..], le)
  }

  /** The sorted permutation of `s`; as a multiset it is `s` itself. */
  function SortBy<T>(s: seq<T>, le: (T, T) -> bool): (r: seq<T>)
    ensures multiset(r) == multiset(s)
    ensures |r| == |s|
  {
    if |s| == 0 then []
    else
      assert s == [s[0]] + s[1..];
      Insert(s[0], SortBy(s[1..], le), le)
  }

  /** An element that does not exceed the head goes in front. */
  lemma InsertFront<T>(x: T, s: seq<T>, le: (T, T) -> bool)
    requires |s| == 0 || le(x, s[0])
    ensures Insert(x, s, le) == [x] + s
  {
  }

  /** Sorting `[x] + s` inserts `x` into the sorted `s`. */
  lemma SortByCons<T>(x: T, s: seq<T>, le: (T, T) -> bool)
    ensures SortBy([x] + s, le) == Insert(x, SortBy(s, le), le)
  {
    assert ([x] + s)[1..] == s;
  }

  /** Inserting into a sorted sequence keeps it sorted. */
  lemma {:induction false} InsertSorted<T(!new)>(x: T, s: seq<T>, le: (T, T) -> bool)
    requires TotalPreorder(le)
    requires SortedBy(s, le)
    ensures SortedBy(Insert(x, s, le), le)
  {
    if |s| == 0 || le(x, s[0]) {
    } else {
      var t := Insert(x, s[1..], le);
      InsertSorted(x, s[1..], le);
      forall k | 0 <= k < |t|
        ensures le(s[0], t[k])
      {
        assert t[k] in multiset(t);
        assert t[k] == x || t[k] in multiset(s[1..]);
        if t[k] != x {
          assert t[k] in s[1..];
        }
      }
    }
  }

  /** The result of `SortBy` is sorted whenever the comparator is a total preorder. */
  lemma {:induction false} SortBySorted<T(!new)>(s: seq<T>, le: (T, T) -> bool)
    requires TotalPreorder(le)
    ensures SortedBy(SortBy(s, le), le)
  {
    if |s| > 0 {
      SortBySorted(s[1..], le);
      InsertSorted(s[0], SortBy(s[1..], le), le);
    }
  }

  /**
   * Stability with respect to a rank: when `x` ranks below every element of `s`
   * and `s` never lists a lower-ranked element after an element it does not exceed,
   * the same holds after inserting `x`.
   */
  lemma {:induction false} InsertStable<T>(x: T, s: seq<T>, le: (T, T) -> bool, rank: T -> int)
    requires forall k :: 0 <= k < |s| ==> rank(x) < rank(s[k])
    requires forall i, j :: 0 <= i < j < |s| && le(s[j], s[i]) ==> rank(s[i]) < rank(s[j])
    ensures forall i, j :: 0 <= i < j < |Insert(x, s, le)| && le(Insert(x, s, le)[j], Insert(x, s, le)[i]) ==>
              rank(Insert(x, s, le)[i]) < rank(Insert(x, s, le)[j])
  {
    var r := Insert(x, s, le);
    if |s| == 0 || le(x, s[0]) {
      assert r == [x] + s;
      forall i, j | 0 <= i < j < |r| && le(r[j], r[i])
        ensures rank(r[i]) < rank(r[j])
      {
        if i > 0 {
          assert r[i] == s[i - 1] && r[j] == s[j - 1];
        }
      }
    } else {
      var t := Insert(x, s[1..], le);
      assert r == [s[0]] + t;
      InsertStable(x, s[1..], le, rank);
      forall i, j | 0 <= i < j < |r| && le(r[j], r[i])
        ensures rank(r[i]) < rank(r[j])
      {
        if i == 0 {
          var z := t[j - 1];
          assert z in multiset(t);
          if z != x {
            assert z in multiset(s[1..]);
            var k :| 1 <= k < |s| && s[k] == z;
          }
        } else {
          assert r[i] == t[i - 1] && r[j] == t[j - 1];
        }
      }
    }
  }

  /**
   * `SortBy` is stable: if `s` lists its elements in increasing `rank` (their
   * original positions), then whenever a later element of the result does not
   * exceed an earlier one (a tie, given sortedness), the earlier one came first in `s`.
   */
  lemma {:induction false} SortByStable<T>(s: seq<T>, le: (T, T) -> bool, rank: T -> int)
    requires forall i, j :: 0 <= i < j < |s| ==> rank(s[i]) < rank(s[j])
    ensures forall i, j :: 0 <= i < j < |SortBy(s, le)| && le(SortBy(s, le)[j], SortBy(s, le)[i]) ==>
              rank(SortBy(s, le)[i]) < rank(SortBy(s, le)[j])
  {
    if |s| > 0 {
      var t := SortBy(s[1..], le);
      SortByStable(s[1..], le, rank);
      forall k | 0 <= k < |t|
        ensures rank(s[0]) < rank(t[k])
      {
        assert t[k] in multiset(s[1..]);
        var m :| 1 <= m < |s| && s[m] == t[k];
      }
      InsertStable(s[0], t, le, rank);
    }
  }

  /** No element of `s` occurs twice. */
  predicate Distinct<T(==)>(s: seq<T>) {
    forall i, j :: 0 <= i < j < |s| ==> s[i] != s[j]
  }

  /** In a sequence without repeats every element occurs at most once. */
  lemma {:induction false} DistinctCount<T>(s: seq<T>, x: T)
    requires Distinct(s)
    ensures multiset(s)[x] <= 1
  {
    if |s| > 0 {
      assert s == [s[0]] + s[1..];
      DistinctCount(s[1..], x);
      if x == s[0] {
        assert x !in s[1..];
      }
    }
  }

  /** An element found at two positions occurs at least twice. */
  lemma RepeatCount<T>(s: seq<T>, i: nat, j: nat)
    requires i < j < |s| && s[i] == s[j]
    ensures multiset(s)[s[i]] >= 2
  {
    assert s == s[..j] + [s[j]] + s[j + 1..];
    assert s[i] in s[..j];
  }

  /** Sorting a sequence without repeats gives one without repeats. */
  lemma SortByDistinct<T>(s: seq<T>, le: (T, T) -> bool)
    requires Distinct(s)
    ensures Distinct(SortBy(s, le))
  {
    var r := SortBy(s, le);
    forall i, j | 0 <= i < j < |r|
      ensures r[i] != r[j]
    {
      if r[i] == r[j] {
        RepeatCount(r, i, j);
        DistinctCount(s, r[i]);
      }
    }
  }
}
