/**
 * The certified timestamp of a quorum (`CertifiedRecord::certified_timestamp`):
 * the timestamps are sorted in place, then the middle one is taken for an
 * odd count and the floor-average of the two middle ones for an even count.
 */
module Median {
  import opened Common
  import opened Sorting

  function Key(t: Timestamp): int {
    t
  }

  predicate Ascending(s: seq<Timestamp>) {
    forall i, j | 0 <= i < j < |s| :: s[i] <= s[j]
  }

  /** `Vec<Timestamp>::sort`. */
  function SortTimestamps(ts: seq<Timestamp>): (r: seq<Timestamp>)
    ensures |r| == |ts|
    ensures Ascending(r)
    ensures multiset(r) == multiset(ts)
  {
    var r := SortBy(ts, Key);
    assert SortedBy(r, Key);
    r
  }

  function Below(v: int): Timestamp -> bool {
    t => t < v
  }

  function Above(v: int): Timestamp -> bool {
    t => t > v
  }

  /** The number of timestamps strictly below `v`. */
  function CountBelow(ts: seq<Timestamp>, v: int): nat {
    Count(ts, Below(v))
  }

  /** The number of timestamps strictly above `v`. */
  function CountAbove(ts: seq<Timestamp>, v: int): nat {
    Count(ts, Above(v))
  }

  /**
   * `v` is the `k`-th smallest timestamp (from 0): it occurs in `ts`, at most
   * `k` timestamps lie below it and at most `|ts| - 1 - k` above it.
   */
  predicate RankedAt(ts: seq<Timestamp>, v: Timestamp, k: nat) {
    && v in ts
    && CountBelow(ts, v) <= k
    && CountAbove(ts, v) + k + 1 <= |ts|
  }

  /** `v` is the lower of the two middle timestamps of an even-length list. */
  predicate IsLowerMiddle(ts: seq<Timestamp>, v: Timestamp) {
    |ts| >= 2 && RankedAt(ts, v, |ts| / 2 - 1)
  }

  /** `v` is the upper of the two middle timestamps of an even-length list. */
  predicate IsUpperMiddle(ts: seq<Timestamp>, v: Timestamp) {
    RankedAt(ts, v, |ts| / 2)
  }

  /** For an even count, the two middle timestamps can be added without overflowing a `u128`. */
  predicate MedianFits(ts: seq<Timestamp>) {
    |ts| % 2 == 0 && |ts| > 0 ==>
      var s := SortTimestamps(ts);
      s[|s| / 2 - 1] + s[|s| / 2] < U128_LIMIT
  }

  /**
   * The certified timestamp. An empty list makes the source underflow
   * `mid - 1` and panic, and an overflowing sum panics too; both are excluded.
   */
  function CertifiedTimestamp(ts: seq<Timestamp>): (r: Timestamp)
    requires |ts| > 0 && MedianFits(ts)
    ensures exists i | 0 <= i < |ts| :: ts[i] <= r
    ensures exists j | 0 <= j < |ts| :: r <= ts[j]
  {
    var s := SortTimestamps(ts);
    if |s| % 2 == 0 then EvenMedian(ts, s); Middle(s) else OddMedian(ts, s); Middle(s)
  }

  /**
   * The certified timestamp is the median: for an odd count the middle-ranked
   * timestamp, for an even count the floor-average of the two middle-ranked
   * ones; either way it lies within the range of the inputs.
   */
  lemma CertifiedTimestampIsMedian(ts: seq<Timestamp>)
    requires |ts| > 0 && MedianFits(ts)
    ensures |ts| % 2 == 1 ==> RankedAt(ts, CertifiedTimestamp(ts), |ts| / 2)
    ensures |ts| % 2 == 0 ==>
      exists lo: Timestamp, hi: Timestamp ::
        IsLowerMiddle(ts, lo) && IsUpperMiddle(ts, hi) && lo <= hi && CertifiedTimestamp(ts) == (lo + hi) / 2
    ensures exists i | 0 <= i < |ts| :: ts[i] <= CertifiedTimestamp(ts)
    ensures exists j | 0 <= j < |ts| :: CertifiedTimestamp(ts) <= ts[j]
  {
    var s := SortTimestamps(ts);
    if |s| % 2 == 0 {
      EvenMedian(ts, s);
    } else {
      OddMedian(ts, s);
    }
  }

  /**
   * The middle of an already sorted list, computed with the source's checked
   * `u128` arithmetic: twice the result is, up to rounding down, the sum of
   * the two middle entries, which coincide for an odd length.
   */
  function Middle(s: seq<Timestamp>): (r: Timestamp)
    requires |s| > 0
    requires |s| % 2 == 0 ==> s[|s| / 2 - 1] + s[|s| / 2] < U128_LIMIT
    ensures 2 * r <= s[(|s| - 1) / 2] + s[|s| / 2] < 2 * r + 2
  {
    var m := |s| / 2;
    if |s| % 2 == 0 then TimestampDiv(TimestampAdd(s[m - 1], s[m]), 2) else s[m]
  }

  lemma OddMedian(ts: seq<Timestamp>, s: seq<Timestamp>)
    requires s == SortTimestamps(ts) && |s| % 2 == 1
    ensures RankedAt(ts, Middle(s), |ts| / 2)
    ensures exists i | 0 <= i < |ts| :: ts[i] <= Middle(s)
    ensures exists j | 0 <= j < |ts| :: Middle(s) <= ts[j]
  {
    SortedRank(ts, s, |s| / 2);
    var i := Witness(ts, s, 0);
    var j := Witness(ts, s, |s| - 1);
  }

  /** The even case, with the two middle timestamps as witnesses. */
  lemma EvenMedian(ts: seq<Timestamp>, s: seq<Timestamp>)
    requires s == SortTimestamps(ts) && |s| % 2 == 0 && |s| > 0 && MedianFits(ts)
    ensures exists lo: Timestamp, hi: Timestamp ::
      IsLowerMiddle(ts, lo) && IsUpperMiddle(ts, hi) && lo <= hi && Middle(s) == (lo + hi) / 2
    ensures exists i | 0 <= i < |ts| :: ts[i] <= Middle(s)
    ensures exists j | 0 <= j < |ts| :: Middle(s) <= ts[j]
  {
    var m := |s| / 2;
    var lo, hi := s[m - 1], s[m];
    SortedRank(ts, s, m - 1);
    SortedRank(ts, s, m);
    assert lo <= hi;
    MidpointBetween(lo, hi);
    assert Middle(s) == (lo + hi) / 2;
    assert IsLowerMiddle(ts, lo) && IsUpperMiddle(ts, hi) && lo <= hi && Middle(s) == (lo + hi) / 2;
    var i := Witness(ts, s, 0);
    var j := Witness(ts, s, |s| - 1);
    assert ts[i] <= lo && hi <= ts[j];
  }

  /** An element of the sorted copy occurs in the original, at index `i`. */
  lemma Witness(ts: seq<Timestamp>, s: seq<Timestamp>, k: nat) returns (i: nat)
    requires multiset(s) == multiset(ts) && k < |s|
    ensures i < |ts| && ts[i] == s[k]
  {
    assert s[k] in multiset(s);
    assert s[k] in multiset(ts);
    i :| 0 <= i < |ts| && ts[i] == s[k];
  }

  /** In a sorted copy of `ts`, the element at index `k` is the `k`-th smallest of `ts`. */
  lemma SortedRank(ts: seq<Timestamp>, s: seq<Timestamp>, k: nat)
    requires Ascending(s) && multiset(s) == multiset(ts) && k < |s|
    ensures RankedAt(ts, s[k], k)
  {
    var v := s[k];
    assert v in multiset(ts);
    CountWithinPrefix(s, Below(v), k);
    CountWithinSuffix(s, Above(v), k + 1);
    CountPermutation(s, ts, Below(v));
    CountPermutation(s, ts, Above(v));
  }

  /** The rank characterisation names a single timestamp. */
  lemma RankedAtUnique(ts: seq<Timestamp>, v: Timestamp, w: Timestamp, k: nat)
    requires RankedAt(ts, v, k) && RankedAt(ts, w, k)
    ensures v == w
  {
    if v < w {
      CountCover(ts, Above(v), Below(w));
    } else if w < v {
      CountCover(ts, Above(w), Below(v));
    }
  }

  /** Two ascending sequences with the same elements are equal. */
  lemma {:induction false} AscendingUnique(a: seq<Timestamp>, b: seq<Timestamp>)
    requires Ascending(a) && Ascending(b) && multiset(a) == multiset(b)
    ensures a == b
  {
    if |a| == 0 {
      assert |b| == |multiset(b)| == 0;
    } else {
      assert |b| == |multiset(b)| == |a|;
      assert a[0] in multiset(b);
      assert b[0] in multiset(a);
      assert a[0] == b[0];
      assert a == [a[0]] + a[1..];
      assert b == [b[0]] + b[1..];
      assert multiset(a[1..]) == multiset(a) - multiset{a[0]};
      assert multiset(b[1..]) == multiset(b) - multiset{b[0]};
      assert Ascending(a[1..]) && Ascending(b[1..]);
      AscendingUnique(a[1..], b[1..]);
    }
  }

  /** Sorting an already ascending list leaves it unchanged. */
  lemma SortKeepsAscending(ts: seq<Timestamp>)
    requires Ascending(ts)
    ensures SortTimestamps(ts) == ts
  {
    AscendingUnique(SortTimestamps(ts), ts);
  }

  /** The certified timestamp does not depend on the order in which timestamps were collected. */
  lemma CertifiedTimestampOrderIndependent(a: seq<Timestamp>, b: seq<Timestamp>)
    requires |a| > 0 && MedianFits(a) && multiset(a) == multiset(b)
    ensures |b| > 0 && MedianFits(b)
    ensures CertifiedTimestamp(a) == CertifiedTimestamp(b)
  {
    SortIgnoresOrder(a, b);
  }

  /** Permutations of one another sort to the same list. */
  lemma SortIgnoresOrder(a: seq<Timestamp>, b: seq<Timestamp>)
    requires multiset(a) == multiset(b)
    ensures |a| == |b| && SortTimestamps(a) == SortTimestamps(b)
  {
    assert |b| == |multiset(b)| == |a|;
    AscendingUnique(SortTimestamps(a), SortTimestamps(b));
  }

  /**
   * `certified_timestamp` takes `&mut self`: it returns the median and leaves
   * the record's timestamps sorted; nothing else in the record changes.
   */
  function CertifyRecord(rec: CertifiedRecord): (r: (Timestamp, CertifiedRecord))
    requires |rec.timestamps| > 0 && MedianFits(rec.timestamps)
    ensures r.0 == CertifiedTimestamp(rec.timestamps)
    ensures Ascending(r.1.timestamps) && multiset(r.1.timestamps) == multiset(rec.timestamps)
    ensures r.1.message == rec.message && r.1.quorumSignature == rec.quorumSignature
  {
    (CertifiedTimestamp(rec.timestamps), rec.(timestamps := SortTimestamps(rec.timestamps)))
  }

  /** Three timestamps: the middle one. */
  lemma OddExample(ts: seq<Timestamp>)
    requires |ts| == 3 && ts[0] == 100 && ts[1] == 103 && ts[2] == 105
    ensures CertifiedTimestamp(ts) == 103
  {
    assert Ascending(ts);
    SortKeepsAscending(ts);
  }

  /**
   * Four timestamps: the floor-average of the two middle ones, which is not
   * the lower middle value 103 and is not one of the inputs.
   */
  lemma EvenExampleAverages(ts: seq<Timestamp>)
    requires |ts| == 4 && ts[0] == 100 && ts[1] == 103 && ts[2] == 105 && ts[3] == 999
    ensures MedianFits(ts)
    ensures CertifiedTimestamp(ts) == 104
    ensures 104 !in ts
  {
    assert Ascending(ts);
    SortKeepsAscending(ts);
    assert CertifiedTimestamp(ts) == Middle(ts) == (103 + 105) / 2;
  }

  /**
   * The vector `write` certifies with four validators after the first two
   * votes (quorum is two of four), validators 2 and 3 still at the default
   * 0: the zeros pull the median down to the average of 0 and 100.
   */
  lemma ZeroPaddedExample(ts: seq<Timestamp>)
    requires |ts| == 4 && ts[0] == 100 && ts[1] == 102 && ts[2] == 0 && ts[3] == 0
    ensures MedianFits(ts)
    ensures CertifiedTimestamp(ts) == 50
  {
    var sorted: seq<Timestamp> := [0, 0, 100, 102];
    assert ts == [100, 102, 0, 0];
    assert multiset(sorted) == multiset(ts);
    assert Ascending(sorted);
    SortKeepsAscending(sorted);
    SortIgnoresOrder(sorted, ts);
    assert CertifiedTimestamp(ts) == Middle(sorted) == (0 + 100) / 2;
  }
}
