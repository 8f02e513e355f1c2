/** `Array.prototype.filter` on sequences, and what it means for order. */
module Seqs {

  /** `s.filter(keep)`. */
  function Filter<T(==,!new)>(s: seq<T>, keep: T -> bool): (r: seq<T>)
    ensures |r| <= |s|
    ensures forall x :: x in r <==> x in s && keep(x)
  {
    if |s| == 0 then []
    else (if keep(s[0]) then [s[0]] else []) + Filter(s[1..], keep)
  }

  /** Every kept element occurs as often as in `s`, every other one not at
      all: nothing is duplicated or merged. */
  lemma {:induction false} FilterCounts<T(!new)>(s: seq<T>, keep: T -> bool)
    ensures forall x :: multiset(Filter(s, keep))[x] == if keep(x) then multiset(s)[x] else 0
    decreases |s|
  {
    if |s| > 0 {
      FilterCounts(s[1..], keep);
      assert s == [s[0]] + s[1..];
      assert Filter(s, keep) == (if keep(s[0]) then [s[0]] else []) + Filter(s[1..], keep);
    }
  }

  /** `a[k] == b[idx[k]]` for a strictly increasing sequence of positions
      `idx`: `a` is `b` with some elements dropped and the rest in order. */
  ghost predicate SubsequenceVia<T>(a: seq<T>, b: seq<T>, idx: seq<nat>) {
    && |idx| == |a|
    && (forall k :: 0 <= k < |idx| ==> idx[k] < |b| && a[k] == b[idx[k]])
    && (forall k, l :: 0 <= k < l < |idx| ==> idx[k] < idx[l])
  }

  ghost predicate IsSubsequence<T>(a: seq<T>, b: seq<T>) {
    exists idx :: SubsequenceVia(a, b, idx)
  }

  /** The kept elements stay in their original relative order. */
  lemma FilterInOrder<T(!new)>(s: seq<T>, keep: T -> bool)
    ensures IsSubsequence(Filter(s, keep), s)
  {
    var idx := FilterKeepsOrder(s, keep);
  }

  /** The positions of `s` that the kept elements come from. */
  lemma {:induction false} FilterKeepsOrder<T(!new)>(s: seq<T>, keep: T -> bool)
    returns (idx: seq<nat>)
    ensures SubsequenceVia(Filter(s, keep), s, idx)
    ensures IsSubsequence(Filter(s, keep), s)
    decreases |s|
  {
    if |s| == 0 {
      idx := [];
    } else {
      var tail := FilterKeepsOrder(s[1..], keep);
      idx := ConsPositions(s, keep(s[0]), Filter(s[1..], keep), tail);
      assert Filter(s, keep) == (if keep(s[0]) then [s[0]] else []) + Filter(s[1..], keep);
    }
    assert SubsequenceVia(Filter(s, keep), s, idx);
  }

  /** Positions into the tail of `s`, shifted by one, with position 0 in
      front when the head is kept. */
  lemma ConsPositions<T>(s: seq<T>, first: bool, rest: seq<T>, tail: seq<nat>) returns (idx: seq<nat>)
    requires |s| > 0 && SubsequenceVia(rest, s[1..], tail)
    ensures SubsequenceVia((if first then [s[0]] else []) + rest, s, idx)
  {
    var shifted := seq(|tail|, k requires 0 <= k < |tail| => tail[k] + 1);
    assert SubsequenceVia(rest, s, shifted) by {
      forall k | 0 <= k < |shifted|
        ensures shifted[k] < |s| && rest[k] == s[shifted[k]]
      {
        assert rest[k] == s[1..][tail[k]];
      }
    }
    if first {
      idx := [0] + shifted;
    } else {
      idx := shifted;
      assert [] + rest == rest;
    }
  }
}
