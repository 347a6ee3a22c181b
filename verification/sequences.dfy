/** Counting and repetition over sequences, used to describe incidence lists and query results. */
module Sequences {

  /** Number of occurrences of `x` in `s`. */
  function Count<T(==)>(s: seq<T>, x: T): (c: nat)
    ensures c <= |s|
    ensures c > 0 <==> x in s
  {
    if s == [] then 0 else (if s[0] == x then 1 else 0) + Count(s[1..], x)
  }

  /** `k` copies of `x`. */
  function Repeat<T>(x: T, k: nat): (r: seq<T>)
    ensures |r| == k
    ensures forall i :: 0 <= i < k ==> r[i] == x
  {
    seq(k, _ => x)
  }

  /** Every element of `s` is below `bound`. */
  predicate AllBelow(s: seq<nat>, bound: nat)
  {
    forall i :: 0 <= i < |s| ==> s[i] < bound
  }

  /** The elements of `s` never decrease from left to right. */
  predicate NonDecreasing(s: seq<int>)
  {
    forall i, j :: 0 <= i < j < |s| ==> s[i] <= s[j]
  }

  /** The elements of `s` strictly increase from left to right. */
  predicate StrictlyIncreasing(s: seq<int>)
  {
    forall i, j :: 0 <= i < j < |s| ==> s[i] < s[j]
  }

  /** The position of the first occurrence of `x` in `s`. */
  function IndexOf<T(==)>(s: seq<T>, x: T): (i: nat)
    requires x in s
    ensures i < |s| && s[i] == x
    ensures forall k :: 0 <= k < i ==> s[k] != x
  {
    if s[0] == x then 0 else 1 + IndexOf(s[1..], x)
  }

  /** Appending to a sequence leaves every prefix of it alone. */
  lemma PrefixOfAppend<T>(a: seq<T>, b: seq<T>, k: nat)
    requires k <= |a|
    ensures (a + b)[..k] == a[..k]
  {
  }

  /** A prefix of `mid` stays a prefix once `mid` is extended. */
  lemma PrefixThroughAppend<T>(a: seq<T>, mid: seq<T>, b: seq<T>)
    requires |a| <= |mid| && mid[..|a|] == a
    ensures |a| <= |mid + b| && (mid + b)[..|a|] == a
  {
    PrefixOfAppend(mid, b, |a|);
  }

  /** Positions in a sequence made of one element and two blocks. */
  lemma ThreeBlocks<T>(x: T, a: seq<T>, b: seq<T>)
    ensures var s := [x] + a + b;
      && |s| == 1 + |a| + |b| && s[0] == x
      && (forall i :: 0 <= i < |a| ==> s[1 + i] == a[i])
      && (forall i :: 0 <= i < |b| ==> s[1 + |a| + i] == b[i])
  {
  }

  lemma {:induction false} CountAppend<T>(a: seq<T>, b: seq<T>, x: T)
    ensures Count(a + b, x) == Count(a, x) + Count(b, x)
  {
    if a == [] {
      assert a + b == b;
    } else {
      assert (a + b)[1..] == a[1..] + b;
      CountAppend(a[1..], b, x);
    }
  }

  /** One handle followed by two blocks, all below `bound`, stays below `bound`. */
  lemma AllBelowThreeBlocks(x: nat, a: seq<nat>, b: seq<nat>, bound: nat)
    requires x < bound && AllBelow(a, bound) && AllBelow(b, bound)
    ensures AllBelow([x] + a + b, bound)
  {
  }

  /** Appending copies of `x` after elements below `x` keeps the sequence in order and below `x + 1`. */
  lemma AppendBlockOrdered(a: seq<nat>, b: seq<nat>, x: nat)
    requires AllBelow(a, x) && NonDecreasing(a)
    requires forall i :: 0 <= i < |b| ==> b[i] == x
    ensures AllBelow(a + b, x + 1) && NonDecreasing(a + b)
  {
  }

  lemma {:induction false} CountRepeat<T>(y: T, k: nat, x: T)
    ensures Count(Repeat(y, k), x) == if x == y then k else 0
  {
    if k > 0 {
      assert Repeat(y, k)[1..] == Repeat(y, k - 1);
      CountRepeat(y, k - 1, x);
    }
  }

  /** Two strictly increasing sequences with the same elements are equal. */
  lemma {:induction false} StrictlyIncreasingUnique(a: seq<int>, b: seq<int>)
    requires StrictlyIncreasing(a) && StrictlyIncreasing(b)
    requires forall x :: x in a <==> x in b
    ensures a == b
  {
    assert |a| == 0 || a[0] in a;
    assert |b| == 0 || b[0] in b;
    if a != [] {
      assert a[0] in b && b[0] in a;
      assert a[0] == b[0];
      forall x
        ensures x in a[1..] <==> x in b[1..]
      {
        if x in a[1..] {
          assert x in b && x != b[0];
        }
        if x in b[1..] {
          assert x in a && x != a[0];
        }
      }
      StrictlyIncreasingUnique(a[1..], b[1..]);
      assert a == [a[0]] + a[1..];
      assert b == [b[0]] + b[1..];
    }
  }

  /** The set of elements of `s`. */
  function ToSet<T>(s: seq<T>): set<T>
  {
    set x | x in s
  }

  /** No element of `s` occurs twice. */
  predicate NoRepeats<T(==)>(s: seq<T>)
  {
    forall i, j :: 0 <= i < j < |s| ==> s[i] != s[j]
  }

  /** A sequence has as many distinct elements as positions exactly when nothing repeats. */
  lemma {:induction false} DistinctCountIff<T>(s: seq<T>)
    ensures |ToSet(s)| <= |s|
    ensures |ToSet(s)| == |s| <==> NoRepeats(s)
  {
    if s != [] {
      var init := s[..|s| - 1];
      var last := s[|s| - 1];
      DistinctCountIff(init);
      assert ToSet(s) == ToSet(init) + {last} by {
        assert s == init + [last];
      }
      if last in init {
        var k :| 0 <= k < |init| && init[k] == last;
        assert s[k] == s[|s| - 1];
        assert ToSet(s) == ToSet(init);
      } else {
        assert last !in ToSet(init);
        if NoRepeats(init) {
          forall i, j | 0 <= i < j < |s|
            ensures s[i] != s[j]
          {
            if j < |s| - 1 {
              assert s[i] == init[i] && s[j] == init[j];
            } else {
              assert s[i] == init[i];
            }
          }
        } else {
          var i, j :| 0 <= i < j < |init| && init[i] == init[j];
          assert s[i] == s[j];
        }
      }
    }
  }
}
