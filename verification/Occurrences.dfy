/**
 Where a byte string occurs in another: occurrences by the place where they start, so that a scan
 of an encoding can be taken apart along its structure.
 */
module Occurrences {
  import opened Bytes

  /** `t` stands at a position inside `s`; it may run on into `behind`. */
  predicate StartsIn(s: bytes, behind: bytes, t: bytes) {
    exists i | 0 <= i < |s| :: At(s + behind, i, t)
  }

  predicate OccursBetween(data: bytes, t: bytes, lo: nat, hi: nat) {
    exists i: nat | lo <= i < hi :: At(data, i, t)
  }

  lemma StartsInIsBetween(s: bytes, behind: bytes, t: bytes)
    ensures StartsIn(s, behind, t) <==> OccursBetween(s + behind, t, 0, |s|)
  {
    hide At;
  }

  lemma BetweenSplits(data: bytes, t: bytes, lo: nat, mid: nat, hi: nat)
    requires lo <= mid <= hi
    ensures OccursBetween(data, t, lo, hi) <==> OccursBetween(data, t, lo, mid) || OccursBetween(data, t, mid, hi)
  {
    hide At;
    if i: nat :| lo <= i < hi && At(data, i, t) {
      if i < mid { assert OccursBetween(data, t, lo, mid); } else { assert OccursBetween(data, t, mid, hi); }
    }
  }

  lemma OneBetween(data: bytes, t: bytes, i: nat)
    ensures OccursBetween(data, t, i, i + 1) <==> At(data, i, t)
  {
    hide At;
  }

  lemma NoneInNothing(data: bytes, t: bytes, pos: nat)
    ensures !OccursBetween(data, t, pos, pos)
  {
  }

  /** No occurrence starts with a zero byte. */
  lemma NoneAt(data: bytes, t: bytes, i: nat)
    requires t != [] && t[0] != 0 && At(data, i, [0])
    ensures !OccursBetween(data, t, i, i + 1)
  {
    AtFirst(data, i, [0]);
    AtFirst(data, i, t);
  }

  lemma ContainsIsBetween(data: bytes, at: nat, tail: bytes, t: bytes)
    requires t != [] && At(data, at, tail) && at + |tail| == |data|
    ensures OccursBetween(data, t, at, |data|) <==> Contains(tail, t)
  {
    hide At;
    if i: nat :| at <= i < |data| && At(data, i, t) {
      SuffixOccurrence(data, at, tail, i, t);
    }
    if i :| 0 <= i <= |tail| && At(tail, i, t) {
      SuffixOccurrence(data, at, tail, at + i, t);
      AtIsSlice(tail, i, t);
    }
  }

  lemma SuffixOccurrence(data: bytes, at: nat, tail: bytes, i: nat, t: bytes)
    requires At(data, at, tail) && at + |tail| == |data| && at <= i
    ensures At(data, i, t) <==> At(tail, i - at, t)
  {
    if At(data, i, t) { AtWithin(data, at, tail, i, t); }
    if At(tail, i - at, t) { AtInside(data, at, tail, i - at, t); }
  }

  lemma AtWithin(data: bytes, pos: nat, s: bytes, i: nat, t: bytes)
    requires At(data, pos, s) && At(data, i, t) && pos <= i && i + |t| <= pos + |s|
    ensures At(s, i - pos, t)
  {
    hide At;
    AtIsElementwise(data, pos, s);
    AtIsElementwise(data, i, t);
    AtIsElementwise(s, i - pos, t);
    forall j | 0 <= j < |t| ensures s[i-pos+j] == t[j] {
      assert data[pos+(i-pos+j)] == s[i-pos+j] && data[i+j] == t[j];
    }
  }

  /** A text without NUL ends at the latest where one stands. */
  lemma EndsBeforeNul(data: bytes, i: nat, t: bytes, stop: nat)
    requires NulFree(t) && At(data, i, t) && i <= stop < |data| && data[stop] == 0
    ensures i + |t| <= stop
  {
    hide At;
    AtIsElementwise(data, i, t);
    forall m | i <= m < i + |t| ensures data[m] != 0 {
      assert data[i+(m-i)] == t[m-i];
    }
  }

  /** What precedes a NUL decides on its own where such a text occurs. */
  lemma NotAcrossNul(data: bytes, pos: nat, s: bytes, behind: bytes, t: bytes)
    requires t != [] && NulFree(t) && At(data, pos, s + behind + [0])
    ensures OccursBetween(data, t, pos, pos + |s|) <==> StartsIn(s, behind, t)
  {
    hide At, NulFree;
    var whole := s + behind;
    AtSplit(data, pos, whole, [0]);
    AtFirst(data, pos + |whole|, [0]);
    AtIsSlice(data, pos + |whole|, [0]);
    if i: nat :| pos <= i < pos + |s| && At(data, i, t) {
      EndsBeforeNul(data, i, t, pos + |whole|);
      AtWithin(data, pos, whole, i, t);
    }
    if i :| 0 <= i < |s| && At(whole, i, t) {
      AtInside(data, pos, whole, i, t);
    }
  }
}
