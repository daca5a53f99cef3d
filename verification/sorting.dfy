/**
 * Orderings, counting and a stable insertion sort by key. The sort stands
 * for Rust's `sort` and `sort_by_key` (both stable), which the certified
 * timestamp and the client's range read rely on.
 */
module Sorting {

  /** The keys of `s` never decrease. */
  predicate SortedBy<T>(s: seq<T>, key: T -> int) {
    forall i, j | 0 <= i < j < |s| :: key(s[i]) <= key(s[j])
  }

  /** Inserts `x` after every element whose key is not greater than its own. */
  function Insert<T>(x: T, s: seq<T>, key: T -> int): (r: seq<T>)
    requires SortedBy(s, key)
    ensures |r| == |s| + 1
    ensures SortedBy(r, key)
    ensures multiset(r) == multiset(s) + multiset{x}
    ensures forall i | 0 <= i < |r| :: r[i] == x || r[i] in s
  {
    if |s| == 0 then [x]
    else if key(x) < key(s[0]) then [x] + s
    else
      var rest := Insert(x, s[1..], key);
      assert forall i | 0 <= i < |rest| :: key(s[0]) <= key(rest[i]) by {
        forall i | 0 <= i < |rest|
          ensures key(s[0]) <= key(rest[i])
        {
          if rest[i] != x {
            var k :| 0 <= k < |s[1..]| && s[1..][k] == rest[i];
            assert s[k + 1] == rest[i];
          }
        }
      }
      SortedCons(s[0], rest, key);
      assert s == [s[0]] + s[1..];
      [s[0]] + rest
  }

  /** A sorted sequence stays sorted behind an element whose key bounds all of its keys. */
  lemma SortedCons<T>(x: T, s: seq<T>, key: T -> int)
    requires SortedBy(s, key)
    requires forall i | 0 <= i < |s| :: key(x) <= key(s[i])
    ensures SortedBy([x] + s, key)
  {
    var r := [x] + s;
    forall i, j | 0 <= i < j < |r|
      ensures key(r[i]) <= key(r[j])
    {
      if i > 0 {
        assert r[i] == s[i - 1];
      }
      assert r[j] == s[j - 1];
    }
  }

  /** A stable sort by key: sorted, and a permutation of its input. */
  function SortBy<T>(s: seq<T>, key: T -> int): (r: seq<T>)
    ensures |r| == |s|
    ensures SortedBy(r, key)
    ensures multiset(r) == multiset(s)
  {
    if |s| == 0 then []
    else
      assert s == s[..|s| - 1] + [s[|s| - 1]];
      Insert(s[|s| - 1], SortBy(s[..|s| - 1], key), key)
  }

  /** The number of elements of `s` that satisfy `p`. */
  function Count<T>(s: seq<T>, p: T -> bool): (n: nat)
    ensures n <= |s|
  {
    if |s| == 0 then 0
    else Count(s[..|s| - 1], p) + (if p(s[|s| - 1]) then 1 else 0)
  }

  lemma {:induction false} CountConcat<T>(a: seq<T>, b: seq<T>, p: T -> bool)
    ensures Count(a + b, p) == Count(a, p) + Count(b, p)
  {
    if |b| > 0 {
      assert (a + b)[..|a + b| - 1] == a + b[..|b| - 1];
      CountConcat(a, b[..|b| - 1], p);
    } else {
      assert a + b == a;
    }
  }

  /** A count depends only on the multiset of elements. */
  lemma {:induction false} CountPermutation<T>(a: seq<T>, b: seq<T>, p: T -> bool)
    requires multiset(a) == multiset(b)
    ensures Count(a, p) == Count(b, p)
  {
    if |a| == 0 {
      assert |b| == |multiset(b)| == 0;
    } else {
      var x := a[|a| - 1];
      assert a == a[..|a| - 1] + [x];
      assert x in multiset(b);
      var k :| 0 <= k < |b| && b[k] == x;
      var b' := b[..k] + b[k + 1..];
      assert b == b[..k] + [x] + b[k + 1..];
      assert multiset(b') == multiset(b) - multiset{x};
      assert multiset(a[..|a| - 1]) == multiset(a) - multiset{x};
      CountPermutation(a[..|a| - 1], b', p);
      CountRemove(b, k, p);
    }
  }

  /** Removing the element at `k` takes it out of the count. */
  lemma CountRemove<T>(b: seq<T>, k: nat, p: T -> bool)
    requires k < |b|
    ensures Count(b, p) == Count(b[..k] + b[k + 1..], p) + (if p(b[k]) then 1 else 0)
  {
    var pre, post := b[..k], b[k + 1..];
    var upTo := b[..k + 1];
    assert upTo[..k] == pre;
    assert Count(upTo, p) == Count(pre, p) + (if p(b[k]) then 1 else 0);
    assert b == upTo + post;
    CountConcat(upTo, post, p);
    CountConcat(pre, post, p);
  }

  /** Every element satisfies `p` or `q`, so the two counts cover the sequence. */
  lemma {:induction false} CountCover<T>(s: seq<T>, p: T -> bool, q: T -> bool)
    requires forall i | 0 <= i < |s| :: p(s[i]) || q(s[i])
    ensures Count(s, p) + Count(s, q) >= |s|
  {
    if |s| > 0 {
      CountCover(s[..|s| - 1], p, q);
    }
  }

  /** Only the first `k` elements can satisfy `p`. */
  lemma {:induction false} CountWithinPrefix<T>(s: seq<T>, p: T -> bool, k: nat)
    requires k <= |s|
    requires forall i | k <= i < |s| :: !p(s[i])
    ensures Count(s, p) <= k
  {
    if |s| > k {
      CountWithinPrefix(s[..|s| - 1], p, k);
    }
  }

  /** None of the first `k` elements satisfies `p`. */
  lemma {:induction false} CountWithinSuffix<T>(s: seq<T>, p: T -> bool, k: nat)
    requires k <= |s|
    requires forall i | 0 <= i < k :: !p(s[i])
    ensures Count(s, p) <= |s| - k
  {
    if |s| > 0 {
      if |s| - 1 >= k {
        CountWithinSuffix(s[..|s| - 1], p, k);
      } else {
        CountWithinSuffix(s[..|s| - 1], p, |s| - 1);
      }
    }
  }

  /** No element occurs twice. */
  predicate Distinct<T(==)>(s: seq<T>) {
    forall i, j | 0 <= i < j < |s| :: s[i] != s[j]
  }

  /**
   * Distinct elements all drawn from `pool` are at most `|pool|` many: a
   * sequence of distinct map keys is no longer than the map.
   */
  lemma {:induction false} DistinctWithin<T>(s: seq<T>, pool: set<T>)
    requires Distinct(s)
    requires forall i | 0 <= i < |s| :: s[i] in pool
    ensures |s| <= |pool|
  {
    if |s| > 0 {
      var init, x := s[..|s| - 1], s[|s| - 1];
      forall i | 0 <= i < |init|
        ensures init[i] in pool - {x}
      {
        assert init[i] == s[i];
      }
      assert Distinct(init) by {
        forall i, j | 0 <= i < j < |init|
          ensures init[i] != init[j]
        {
          assert init[i] == s[i] && init[j] == s[j];
        }
      }
      DistinctWithin(init, pool - {x});
    }
  }

  /** `a` is `b` with some elements left out and the others kept in their order. */
  predicate SubsequenceOf<T(==)>(a: seq<T>, b: seq<T>)
    decreases |b|
  {
    if |a| == 0 then true
    else if |b| == 0 then false
    else
      || (a[|a| - 1] == b[|b| - 1] && SubsequenceOf(a[..|a| - 1], b[..|b| - 1]))
      || SubsequenceOf(a, b[..|b| - 1])
  }
}
