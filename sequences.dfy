/** Boolean-mask row selection (`df[mask]` in pandas) over sequences, and the
    order-preserving subsequence relation it produces. */
module Sequences {

  /** `a` is obtained from `b` by deleting elements, keeping the order of the rest. */
  ghost predicate IsSubsequence<T>(a: seq<T>, b: seq<T>)
    decreases |b|
  {
    if a == [] then true
    else if b == [] then false
    else (a[0] == b[0] && IsSubsequence(a[1..], b[1..])) || IsSubsequence(a, b[1..])
  }

  /** The rows of `s` for which the mask `p` holds, in their original order. */
  function Filter<T>(s: seq<T>, p: T -> bool): (r: seq<T>)
    ensures |r| <= |s|
    ensures forall i :: 0 <= i < |r| ==> p(r[i])
    ensures IsSubsequence(r, s)
    ensures forall k :: 0 <= k < |r| ==> r[k] in s
    ensures forall i :: 0 <= i < |s| && p(s[i]) ==> multiset(r)[s[i]] == multiset(s)[s[i]]
  {
    if s == [] then []
    else
      var rest := Filter(s[1..], p);
      assert s == [s[0]] + s[1..];
      SubsequenceStep(s[0], s[1..], p(s[0]), rest);
      var r := if p(s[0]) then [s[0]] + rest else rest;
      MembersStep(s[0], s[1..], p, rest, r);
      SelectsMultiset(s[0], s[1..], p, rest);
      r
  }

  /** Prepending `x` to the input keeps a subsequence one, with `x` in front when it is kept. */
  lemma SubsequenceStep<T>(x: T, tail: seq<T>, keep: bool, rest: seq<T>)
    requires IsSubsequence(rest, tail)
    ensures IsSubsequence(if keep then [x] + rest else rest, [x] + tail)
  {
    assert ([x] + tail)[1..] == tail;
    if keep {
      assert ([x] + rest)[1..] == rest;
    }
  }

  /** Prepending an accepted `x`, or dropping a rejected one, keeps every element accepted and from the input. */
  lemma MembersStep<T>(x: T, tail: seq<T>, p: T -> bool, rest: seq<T>, r: seq<T>)
    requires forall i :: 0 <= i < |rest| ==> p(rest[i]) && rest[i] in tail
    requires r == if p(x) then [x] + rest else rest
    ensures forall i :: 0 <= i < |r| ==> p(r[i]) && r[i] in [x] + tail
  {
    if p(x) {
      forall i | 1 <= i < |r| ensures r[i] in [x] + tail {
        assert r[i] == rest[i - 1];
      }
    }
  }

  lemma SelectsMultiset<T>(x: T, tail: seq<T>, p: T -> bool, rest: seq<T>)
    requires forall i :: 0 <= i < |tail| && p(tail[i]) ==> multiset(rest)[tail[i]] == multiset(tail)[tail[i]]
    requires forall k :: 0 <= k < |rest| ==> rest[k] in tail
    ensures forall i :: 0 <= i < |[x] + tail| && p(([x] + tail)[i]) ==>
      multiset(if p(x) then [x] + rest else rest)[([x] + tail)[i]] == multiset([x] + tail)[([x] + tail)[i]]
  {
    var s := [x] + tail;
    var r := if p(x) then [x] + rest else rest;
    assert multiset(s) == multiset([x]) + multiset(tail);
    assert p(x) ==> multiset(r) == multiset([x]) + multiset(rest);
    forall i | 0 <= i < |s| && p(s[i]) ensures multiset(r)[s[i]] == multiset(s)[s[i]] {
      SameCount(s[i], tail, p, rest);
    }
  }

  /** An accepted element occurs as often in the selection as in the input. */
  lemma SameCount<T>(y: T, tail: seq<T>, p: T -> bool, rest: seq<T>)
    requires forall i :: 0 <= i < |tail| && p(tail[i]) ==> multiset(rest)[tail[i]] == multiset(tail)[tail[i]]
    requires forall k :: 0 <= k < |rest| ==> rest[k] in tail
    requires p(y)
    ensures multiset(rest)[y] == multiset(tail)[y]
  {
    if y in tail {
      var i :| 0 <= i < |tail| && tail[i] == y;
    } else {
      assert y !in rest;
    }
  }

  /** Every row the mask accepts is kept. */
  lemma FilterKeeps<T>(s: seq<T>, p: T -> bool, x: T)
    requires x in s && p(x)
    ensures x in Filter(s, p)
  {
    var i :| 0 <= i < |s| && s[i] == x;
    assert multiset(s)[x] > 0;
  }

  /** A kept row was a row of the input. */
  lemma FilterFrom<T>(s: seq<T>, p: T -> bool, x: T)
    requires x in Filter(s, p)
    ensures x in s && p(x)
  {
  }

  /** Masking a second time with the same mask changes nothing. */
  lemma {:induction false} FilterIdempotent<T>(s: seq<T>, p: T -> bool)
    ensures Filter(Filter(s, p), p) == Filter(s, p)
  {
    if s != [] {
      FilterIdempotent(s[1..], p);
      var rest := Filter(s[1..], p);
      if p(s[0]) {
        assert ([s[0]] + rest)[1..] == rest;
      }
    }
  }

  /** A mask that accepts nothing in `s` leaves nothing. */
  lemma FilterNone<T>(s: seq<T>, p: T -> bool)
    requires forall i :: 0 <= i < |s| ==> !p(s[i])
    ensures Filter(s, p) == []
  {
    if Filter(s, p) != [] {
      FilterFrom(s, p, Filter(s, p)[0]);
    }
  }

  /** Masking with `p` after masking with `q` is masking once with both. */
  lemma {:induction false} FilterBoth<T>(s: seq<T>, p: T -> bool, q: T -> bool, pq: T -> bool)
    requires forall i :: 0 <= i < |s| ==> pq(s[i]) == (p(s[i]) && q(s[i]))
    ensures Filter(s, pq) == Filter(Filter(s, q), p)
  {
    if s != [] {
      FilterBoth(s[1..], p, q, pq);
      var rest := Filter(s[1..], q);
      if q(s[0]) {
        assert ([s[0]] + rest)[1..] == rest;
      }
    }
  }
}
