/**
 * Sequence helpers shared by the tag index, the slug lemmas and the topic list:
 * occurrence counts, duplicate-freedom, insertion-ordered de-duplication
 * (the iteration order of a JavaScript `Set`) and sums over key sequences.
 */
module Seqs {

  /** Number of occurrences of `x` in `s`. */
  function Count<T(==)>(s: seq<T>, x: T): (n: nat)
    ensures n <= |s|
    ensures n == 0 <==> x !in s
  {
    if s == [] then 0
    else Count(s[..|s| - 1], x) + (if s[|s| - 1] == x then 1 else 0)
  }

  lemma CountAppend<T>(s: seq<T>, t: seq<T>, x: T)
    ensures Count(s + t, x) == Count(s, x) + Count(t, x)
    decreases |t|
  {
    if t == [] {
      assert s + t == s;
    } else {
      assert (s + t)[..|s + t| - 1] == s + t[..|t| - 1];
      CountAppend(s, t[..|t| - 1], x);
    }
  }

  /** Taking no element of `b` after `a` leaves `a`. */
  lemma SliceNone<T>(a: seq<T>, b: seq<T>)
    ensures a + b[..0] == a
  {
  }

  /** Taking one more element of `b` after `a` appends that element. */
  lemma SliceSnoc<T>(a: seq<T>, b: seq<T>, j: nat)
    requires j < |b|
    ensures a + b[..j + 1] == (a + b[..j]) + [b[j]]
  {
  }

  lemma AppendAssoc<T>(a: seq<T>, b: seq<T>, c: seq<T>)
    ensures (a + b) + c == a + (b + c)
  {
  }

  /** No element occurs twice. */
  predicate Distinct<T(==)>(s: seq<T>) {
    forall i, j | 0 <= i < j < |s| :: s[i] != s[j]
  }

  /**
   * The elements of `s` in order of first occurrence, each once: what
   * iterating a `Set` filled by adding the elements of `s` in order yields.
   */
  function Dedup<T(==,!new)>(s: seq<T>): (r: seq<T>)
    ensures Distinct(r)
    ensures forall x :: x in r <==> x in s
    ensures |r| <= |s|
  {
    if s == [] then []
    else
      var d := Dedup(s[..|s| - 1]);
      var x := s[|s| - 1];
      assert forall y :: y in s <==> y in s[..|s| - 1] || y == x by {
        assert s == s[..|s| - 1] + [x];
      }
      if x in d then d else d + [x]
  }

  /** `s` with every occurrence of `x` removed. */
  function RemoveAll<T(==,!new)>(s: seq<T>, x: T): (r: seq<T>)
    ensures |r| == |s| - Count(s, x)
    ensures forall y :: y in r <==> y in s && y != x
    ensures forall y :: y != x ==> Count(r, y) == Count(s, y)
  {
    if s == [] then []
    else
      var r' := RemoveAll(s[..|s| - 1], x);
      var last := s[|s| - 1];
      assert forall y :: y in s <==> y in s[..|s| - 1] || y == last by {
        assert s == s[..|s| - 1] + [last];
      }
      if last == x then r'
      else
        assert (r' + [last])[..|r' + [last]| - 1] == r';
        r' + [last]
  }

  /** The sum of `Count(s, k)` over the keys `ks`. */
  function SumCounts<T(==)>(ks: seq<T>, s: seq<T>): nat {
    if ks == [] then 0 else SumCounts(ks[..|ks| - 1], s) + Count(s, ks[|ks| - 1])
  }

  lemma {:induction false} SumCountsCongruent<T>(ks: seq<T>, s: seq<T>, s': seq<T>)
    requires forall k | k in ks :: Count(s, k) == Count(s', k)
    ensures SumCounts(ks, s) == SumCounts(ks, s')
  {
    if ks != [] {
      SumCountsCongruent(ks[..|ks| - 1], s, s');
    }
  }

  /**
   * Summing the occurrence counts over a duplicate-free enumeration of the
   * distinct elements of `s` gives the length of `s`.
   */
  lemma {:induction false} SumCountsOverSupport<T(!new)>(ks: seq<T>, s: seq<T>)
    requires Distinct(ks)
    requires forall x :: x in ks <==> x in s
    ensures SumCounts(ks, s) == |s|
  {
    if ks == [] {
      assert forall i | 0 <= i < |s| :: s[i] in ks;
    } else {
      var init, k := ks[..|ks| - 1], ks[|ks| - 1];
      var rest := RemoveAll(s, k);
      assert k !in init by {
        forall i | 0 <= i < |init| ensures init[i] != k {
          assert ks[i] != ks[|ks| - 1];
        }
      }
      forall x | x in init ensures Count(s, x) == Count(rest, x) {
      }
      SumCountsCongruent(init, s, rest);
      forall x ensures x in init <==> x in rest {
        assert x in ks <==> x in init || x == k by {
          assert ks == init + [k];
        }
      }
      SumCountsOverSupport(init, rest);
    }
  }

  /** Sum of the values that `m` assigns to the keys `ks`. */
  function SumValues<K>(ks: seq<K>, m: map<K, int>): int
    requires forall k | k in ks :: k in m
  {
    if ks == [] then 0 else SumValues(ks[..|ks| - 1], m) + m[ks[|ks| - 1]]
  }
}
