/**
 * The sort inside `Graph::centrality`: `sort_by(|a, b| b.1.cmp(&a.1))`
 * orders (node, degree) entries by decreasing degree. The standard
 * library's `sort_by` is stable, so entries of equal degree keep the order
 * they had; the insertion sort below has the same outcome.
 */
module Ranking {

  /** A node with its degree, as `centrality` reports it. */
  type Score = (string, nat)

  /** How many entries `centrality` keeps (`take(5)`). */
  const TopCount: nat := 5

  function Min(a: int, b: int): int {
    if a <= b then a else b
  }

  predicate Distinct<T(==)>(s: seq<T>) {
    forall i, j :: 0 <= i < j < |s| ==> s[i] != s[j]
  }

  /** Degrees never increase from one entry to a later one. */
  predicate NonIncreasing(s: seq<Score>) {
    forall i, j :: 0 <= i < j < |s| ==> s[i].1 >= s[j].1
  }

  /** A sequence with a head is distinct when its tail is and does not hold the head. */
  lemma DistinctCons<T>(y: T, t: seq<T>)
    ensures Distinct([y] + t) <==> y !in t && Distinct(t)
  {
    var s := [y] + t;
    assert forall j :: 0 <= j < |t| ==> s[j + 1] == t[j];
    if Distinct(s) {
      forall j | 0 <= j < |t| ensures t[j] != y {
        assert s[0] != s[j + 1];
      }
      forall i, j | 0 <= i < j < |t| ensures t[i] != t[j] {
        assert s[i + 1] != s[j + 1];
      }
    }
    if y !in t && Distinct(t) {
      forall i, j | 0 <= i < j < |s| ensures s[i] != s[j] {
        if i > 0 {
          assert t[i - 1] != t[j - 1];
        } else {
          assert t[j - 1] in t;
        }
      }
    }
  }

  /** A sequence is its head followed by its tail, for distinctness and for contents. */
  lemma HeadAndTail<T>(s: seq<T>)
    requires s != []
    ensures Distinct(s) <==> s[0] !in s[1..] && Distinct(s[1..])
    ensures multiset(s) == multiset{s[0]} + multiset(s[1..])
  {
    assert s == [s[0]] + s[1..];
    DistinctCons(s[0], s[1..]);
  }

  /** A head whose degree bounds every later one keeps the order non-increasing. */
  lemma NonIncreasingCons(h: Score, t: seq<Score>)
    requires NonIncreasing(t)
    requires forall e :: e in t ==> e.1 <= h.1
    ensures NonIncreasing([h] + t)
  {
    var s := [h] + t;
    forall i, j | 0 <= i < j < |s| ensures s[i].1 >= s[j].1 {
      assert s[j] == t[j - 1];
      if i > 0 {
        assert s[i] == t[i - 1];
      } else {
        assert t[j - 1] in t;
      }
    }
  }

  /**
   * The step of `InsertByDegree` that keeps the head: when the head of `s`
   * outranks `x`, putting it in front of `x` inserted into the tail keeps
   * the order, the contents and distinctness.
   */
  lemma InsertBehindHead(x: Score, s: seq<Score>, rest: seq<Score>)
    requires s != [] && s[0].1 > x.1 && NonIncreasing(s)
    requires NonIncreasing(rest) && multiset(rest) == multiset(s[1..]) + multiset{x}
    requires Distinct(s[1..]) && x !in s[1..] ==> Distinct(rest)
    ensures NonIncreasing([s[0]] + rest)
    ensures multiset([s[0]] + rest) == multiset(s) + multiset{x}
    ensures Distinct(s) && x !in s ==> Distinct([s[0]] + rest)
  {
    assert s == [s[0]] + s[1..];
    assert forall e :: e in rest ==> e == x || e in s[1..] by {
      forall e | e in rest ensures e == x || e in s[1..] {
        assert e in multiset(rest);
      }
    }
    forall e | e in s[1..] ensures e.1 <= s[0].1 {
      var k :| 0 <= k < |s[1..]| && s[1..][k] == e;
      assert s[k + 1] == e;
    }
    NonIncreasingCons(s[0], rest);
    DistinctCons(s[0], s[1..]);
    DistinctCons(s[0], rest);
  }

  /** Places `x` in front of the first entry whose degree does not exceed its own. */
  function InsertByDegree(x: Score, s: seq<Score>): (r: seq<Score>)
    requires NonIncreasing(s)
    ensures NonIncreasing(r)
    ensures multiset(r) == multiset(s) + multiset{x}
    ensures Distinct(s) && x !in s ==> Distinct(r)
  {
    if s == [] || s[0].1 <= x.1 then
      DistinctCons(x, s);
      assert forall e :: e in s ==> e.1 <= x.1 by {
        forall e | e in s ensures e.1 <= x.1 {
          var k :| 0 <= k < |s| && s[k] == e;
          assert s[0].1 >= s[k].1;
        }
      }
      NonIncreasingCons(x, s);
      [x] + s
    else
      assert Distinct(s) ==> Distinct(s[1..]) by {
        assert s == [s[0]] + s[1..];
        DistinctCons(s[0], s[1..]);
      }
      var rest := InsertByDegree(x, s[1..]);
      InsertBehindHead(x, s, rest);
      [s[0]] + rest
  }

  /** The entries of `s` by decreasing degree, ties in their original order. */
  function SortByDegree(s: seq<Score>): (r: seq<Score>)
    ensures NonIncreasing(r)
    ensures multiset(r) == multiset(s)
    ensures Distinct(s) ==> Distinct(r)
  {
    if s == [] then []
    else
      var rest := SortByDegree(s[1..]);
      HeadAndTail(s);
      assert s[0] in rest <==> s[0] in s[1..] by {
        assert s[0] in rest <==> s[0] in multiset(rest);
      }
      InsertByDegree(s[0], rest)
  }
}
