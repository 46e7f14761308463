/**
 * `Array.prototype.find` on sequences: the position of the first element that
 * satisfies a predicate, if any.
 */
module Search {
  import opened Options

  /** Position `i` holds the first element of `s` satisfying `p`. */
  predicate IsFirst<T>(s: seq<T>, i: int, p: T -> bool) {
    && 0 <= i < |s|
    && p(s[i])
    && forall j :: 0 <= j < i ==> !p(s[j])
  }

  /** No element of `s` satisfies `p`. */
  predicate NoneSatisfy<T>(s: seq<T>, p: T -> bool) {
    forall j :: 0 <= j < |s| ==> !p(s[j])
  }

  /** The position of the element `find` returns, or `None` where it returns `undefined`. */
  function FindFirst<T>(s: seq<T>, p: T -> bool): (i: Option<nat>)
    ensures i.Some? ==> IsFirst(s, i.value, p)
    ensures i.None? <==> NoneSatisfy(s, p)
  {
    if |s| == 0 then None
    else if p(s[0]) then Some(0)
    else
      var rest := s[1..];
      match FindFirst(rest, p)
      case None =>
        assert NoneSatisfy(s, p) by {
          forall j | 1 <= j < |s|
            ensures !p(s[j])
          {
            assert s[j] == rest[j - 1];
          }
        }
        None
      case Some(k) =>
        assert IsFirst(s, k + 1, p) by {
          assert s[k + 1] == rest[k];
          forall j | 1 <= j < k + 1
            ensures !p(s[j])
          {
            assert s[j] == rest[j - 1];
          }
        }
        Some(k + 1)
  }

  /** There is at most one first position. */
  lemma IsFirstUnique<T>(s: seq<T>, i: int, j: int, p: T -> bool)
    requires IsFirst(s, i, p) && IsFirst(s, j, p)
    ensures i == j
  {
  }

  /** Predicates that agree on every element of `s` find the same position. */
  lemma {:induction false} FindFirstAgree<T>(s: seq<T>, p: T -> bool, q: T -> bool)
    requires forall j :: 0 <= j < |s| ==> p(s[j]) == q(s[j])
    ensures FindFirst(s, p) == FindFirst(s, q)
  {
    if |s| > 0 {
      var rest := s[1..];
      assert forall j :: 0 <= j < |rest| ==> rest[j] == s[j + 1];
      FindFirstAgree(rest, p, q);
    }
  }
}
