/** Order-preserving selection over sequences: the `Array.prototype.filter`
    on which every removal and every view of the task list is built. */
module Seqs {

  /** Number of elements of `s` that satisfy `p`. */
  function Count<T>(p: T -> bool, s: seq<T>): nat
  {
    if |s| == 0 then 0
    else (if p(s[0]) then 1 else 0) + Count(p, s[1..])
  }

  /** `a` is obtained from `b` by deleting elements and keeping the rest in order. */
  predicate IsSubseq<T(==)>(a: seq<T>, b: seq<T>)
    decreases |b|
  {
    && |a| <= |b|
    && (|a| == 0 || (a[0] == b[0] && IsSubseq(a[1..], b[1..])) || IsSubseq(a, b[1..]))
  }

  /** Every pair of elements, taken in order, is related by `rel`. */
  predicate Pairwise<T>(rel: (T, T) -> bool, s: seq<T>)
  {
    forall i, j :: 0 <= i < j < |s| ==> rel(s[i], s[j])
  }

  /** The elements of `s` that satisfy `p`, in their original order. */
  function Filter<T(==)>(p: T -> bool, s: seq<T>): (r: seq<T>)
    ensures |r| == Count(p, s)
    ensures forall i :: 0 <= i < |r| ==> p(r[i])
    ensures forall i :: 0 <= i < |r| ==> r[i] in s
    ensures forall i :: 0 <= i < |s| && p(s[i]) ==> s[i] in r
    ensures IsSubseq(r, s)
  {
    if |s| == 0 then []
    else if p(s[0]) then
      var rest := Filter(p, s[1..]);
      assert ([s[0]] + rest)[1..] == rest;
      [s[0]] + rest
    else Filter(p, s[1..])
  }

  /** Filtering a pair of which only the first qualifies. */
  lemma FilterFirstOfTwo<T>(p: T -> bool, x: T, y: T)
    requires p(x) && !p(y)
    ensures Filter(p, [x, y]) == [x]
  {
    assert [x, y][1..] == [y] && [y][1..] == [];
  }

  /** A subsequence whose elements all satisfy `p` has at most as many
      elements as `s` has elements satisfying `p`. */
  lemma {:induction false} SubseqCountBound<T>(p: T -> bool, r: seq<T>, s: seq<T>)
    requires IsSubseq(r, s)
    requires forall i :: 0 <= i < |r| ==> p(r[i])
    ensures |r| <= Count(p, s)
    decreases |s|
  {
    if |r| == 0 {
    } else if r[0] == s[0] && IsSubseq(r[1..], s[1..]) {
      assert p(r[0]);
      SubseqCountBound(p, r[1..], s[1..]);
    } else {
      SubseqCountBound(p, r, s[1..]);
    }
  }

  /** `Filter` is characterised by its contract: the only subsequence of `s`
      that keeps only `p`-elements and keeps all of them is `Filter(p, s)`. */
  lemma {:induction false} FilterUnique<T>(p: T -> bool, r: seq<T>, s: seq<T>)
    requires IsSubseq(r, s)
    requires forall i :: 0 <= i < |r| ==> p(r[i])
    requires |r| == Count(p, s)
    ensures r == Filter(p, s)
    decreases |s|
  {
    if |r| == 0 {
    } else if r[0] == s[0] && IsSubseq(r[1..], s[1..]) {
      assert p(s[0]);
      FilterUnique(p, r[1..], s[1..]);
      assert r == [r[0]] + r[1..];
    } else {
      assert IsSubseq(r, s[1..]);
      SubseqCountBound(p, r, s[1..]);
      assert !p(s[0]);
      FilterUnique(p, r, s[1..]);
    }
  }

  /** Filtering keeps everything when every element already qualifies. */
  lemma {:induction false} FilterAll<T>(p: T -> bool, s: seq<T>)
    requires forall i :: 0 <= i < |s| ==> p(s[i])
    ensures Filter(p, s) == s
  {
    if |s| > 0 {
      FilterAll(p, s[1..]);
      assert s == [s[0]] + s[1..];
    }
  }

  /** Filtering twice with the same predicate is filtering once. */
  lemma FilterIdempotent<T>(p: T -> bool, s: seq<T>)
    ensures Filter(p, Filter(p, s)) == Filter(p, s)
  {
    FilterAll(p, Filter(p, s));
  }

  /** Filtering removes nothing when no element fails the predicate's test. */
  lemma {:induction false} FilterNone<T>(p: T -> bool, s: seq<T>)
    requires forall i :: 0 <= i < |s| ==> !p(s[i])
    ensures Filter(p, s) == []
  {
    if |s| > 0 {
      FilterNone(p, s[1..]);
    }
  }

  /** Two predicates that agree everywhere select the same elements. */
  lemma {:induction false} FilterExt<T>(p: T -> bool, q: T -> bool, s: seq<T>)
    requires forall x :: p(x) == q(x)
    ensures Filter(p, s) == Filter(q, s)
  {
    if |s| > 0 {
      FilterExt(p, q, s[1..]);
    }
  }

  /** Two filters in a row are one filter by the conjunction. */
  lemma {:induction false} FilterCompose<T>(p: T -> bool, q: T -> bool, pq: T -> bool, s: seq<T>)
    requires forall x :: pq(x) == (p(x) && q(x))
    ensures Filter(q, Filter(p, s)) == Filter(pq, s)
  {
    if |s| > 0 {
      FilterCompose(p, q, pq, s[1..]);
      if p(s[0]) {
        var rest := Filter(p, s[1..]);
        assert Filter(p, s) == [s[0]] + rest;
        assert ([s[0]] + rest)[1..] == rest;
      }
    }
  }

  /** The elements satisfying `p` and those satisfying its negation make up `s`. */
  lemma {:induction false} CountComplement<T>(p: T -> bool, q: T -> bool, s: seq<T>)
    requires forall x :: q(x) == !p(x)
    ensures Count(p, s) + Count(q, s) == |s|
  {
    if |s| > 0 {
      CountComplement(p, q, s[1..]);
    }
  }

  /** Every element of a subsequence is an element of the whole. */
  lemma {:induction false} SubseqMembers<T>(a: seq<T>, b: seq<T>)
    requires IsSubseq(a, b)
    ensures forall i :: 0 <= i < |a| ==> a[i] in b
    decreases |b|
  {
    if |a| == 0 {
    } else if a[0] == b[0] && IsSubseq(a[1..], b[1..]) {
      SubseqMembers(a[1..], b[1..]);
      forall i | 1 <= i < |a|
        ensures a[i] in b
      {
        assert a[i] == a[1..][i - 1];
      }
    } else {
      SubseqMembers(a, b[1..]);
    }
  }

  /** A property that holds of every ordered pair of `b` holds of every
      ordered pair of a subsequence of `b`. */
  lemma {:induction false} SubseqPairwise<T>(rel: (T, T) -> bool, a: seq<T>, b: seq<T>)
    requires IsSubseq(a, b)
    requires Pairwise(rel, b)
    ensures Pairwise(rel, a)
    decreases |b|
  {
    if |a| == 0 {
    } else if a[0] == b[0] && IsSubseq(a[1..], b[1..]) {
      SubseqPairwise(rel, a[1..], b[1..]);
      SubseqMembers(a[1..], b[1..]);
      forall i, j | 0 <= i < j < |a|
        ensures rel(a[i], a[j])
      {
        if i == 0 {
          assert a[j] == a[1..][j - 1];
          var k :| 0 <= k < |b[1..]| && b[1..][k] == a[j];
          assert b[k + 1] == a[j];
        } else {
          assert a[i] == a[1..][i - 1] && a[j] == a[1..][j - 1];
        }
      }
    } else {
      SubseqPairwise(rel, a, b[1..]);
    }
  }
}
