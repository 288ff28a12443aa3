/**
 * The ordering ringbuf_getallsorted sorts by: the comparator compare_floats
 * handed to qsort, a functional specification of an ascending sort under it,
 * and an in-place sort of an array prefix standing in for the C library's qsort.
 */
module FloatSort {

  /** compare_floats: -1, 0 or 1 as a is below, equal to or above b. */
  function CompareFloats(a: real, b: real): (r: int)
    ensures r < 0 <==> a < b
    ensures r == 0 <==> a == b
    ensures r > 0 <==> a > b
    ensures -1 <= r <= 1
  {
    if a < b then -1
    else if a > b then 1
    else 0
  }

  /** The comparator is antisymmetric: swapping its arguments negates it. */
  lemma CompareFloatsAntisymmetric(a: real, b: real)
    ensures CompareFloats(a, b) == -CompareFloats(b, a)
  {
  }

  /** Ascending: no element compares above a later one under compare_floats (see CompareFloats). */
  predicate Sorted(s: seq<real>) {
    forall i, j :: 0 <= i < j < |s| ==> s[i] <= s[j]
  }

  /** Sorted is "ascending under compare_floats": no pair in order compares above 0. */
  lemma SortedUnderComparator(s: seq<real>)
    ensures Sorted(s) <==> forall i, j :: 0 <= i < j < |s| ==> CompareFloats(s[i], s[j]) <= 0
  {
  }

  /** Inserts x into an ascending sequence before the first element not below it. */
  function Insert(x: real, s: seq<real>): (r: seq<real>)
    ensures multiset(r) == multiset(s) + multiset{x}
  {
    if s == [] then [x]
    else if CompareFloats(x, s[0]) <= 0 then [x] + s
    else
      assert s == [s[0]] + s[1..];
      [s[0]] + Insert(x, s[1..])
  }

  /** Inserting into an ascending sequence keeps it ascending. */
  lemma {:induction false} InsertSorted(x: real, s: seq<real>)
    requires Sorted(s)
    ensures Sorted(Insert(x, s))
  {
    if s != [] && CompareFloats(x, s[0]) > 0 {
      var t := s[1..];
      assert Sorted(t);
      InsertSorted(x, t);
      var r := Insert(x, t);
      // r starts with x or with t[0], and both are at least s[0].
      assert r[0] == if t == [] || x <= t[0] then x else t[0];
      assert s[0] <= r[0] by {
        if t != [] { assert s[0] <= s[1]; }
      }
      assert Insert(x, s) == [s[0]] + r;
      forall i, j | 0 <= i < j < |r| + 1 ensures ([s[0]] + r)[i] <= ([s[0]] + r)[j] {
        if i == 0 && j > 1 { assert r[0] <= r[j - 1]; }
        if i > 0 { assert r[i - 1] <= r[j - 1]; }
      }
    }
  }

  /** The ascending arrangement of s, by insertion. */
  function SortAscending(s: seq<real>): (r: seq<real>)
    ensures Sorted(r)
    ensures multiset(r) == multiset(s)
  {
    if s == [] then []
    else
      assert s == [s[0]] + s[1..];
      InsertSorted(s[0], SortAscending(s[1..]));
      Insert(s[0], SortAscending(s[1..]))
  }

  /** The head of a non-empty ascending sequence is a lower bound of its multiset. */
  lemma SortedHeadIsLeast(s: seq<real>, x: real)
    requires Sorted(s) && x in multiset(s)
    ensures s[0] <= x
  {
    assert x in s;
    var k :| 0 <= k < |s| && s[k] == x;
    if k > 0 { assert s[0] <= s[k]; }
  }

  /**
   * An ascending sequence is determined by its multiset: two ascending
   * sequences with the same elements are equal. Hence any sorted permutation
   * of s is SortAscending(s).
   */
  lemma {:induction false} SortedUnique(a: seq<real>, b: seq<real>)
    requires Sorted(a) && Sorted(b)
    requires multiset(a) == multiset(b)
    ensures a == b
  {
    if a != [] {
      assert |b| == |a| by { assert |multiset(a)| == |multiset(b)|; }
      assert a[0] in multiset(b) by { assert a[0] in multiset(a); }
      assert b[0] in multiset(a) by { assert b[0] in multiset(b); }
      SortedHeadIsLeast(b, a[0]);
      SortedHeadIsLeast(a, b[0]);
      assert a == [a[0]] + a[1..];
      assert b == [b[0]] + b[1..];
      assert a[0] == b[0];
      assert multiset(a) == multiset{a[0]} + multiset(a[1..]);
      assert multiset(b) == multiset{b[0]} + multiset(b[1..]);
      assert multiset(a[1..]) == multiset(a) - multiset{a[0]};
      assert multiset(b[1..]) == multiset(b) - multiset{b[0]};
      SortedUnique(a[1..], b[1..]);
    }
  }

  /** Exchanges a[i] and a[j], leaving every other element where it was. */
  method Swap(a: array<real>, i: nat, j: nat)
    requires i < a.Length && j < a.Length
    modifies a
    ensures a[i] == old(a[j]) && a[j] == old(a[i])
    ensures forall k :: 0 <= k < a.Length && k != i && k != j ==> a[k] == old(a[k])
    ensures multiset(a[..]) == old(multiset(a[..]))
  {
    a[i], a[j] := a[j], a[i];
  }

  /** Two permutations of each other that agree beyond n are permutations of each other up to n. */
  lemma PrefixPermutation(s: seq<real>, t: seq<real>, n: nat)
    requires n <= |s| && n <= |t|
    requires multiset(s) == multiset(t) && s[n..] == t[n..]
    ensures multiset(s[..n]) == multiset(t[..n])
  {
    assert s == s[..n] + s[n..];
    assert t == t[..n] + t[n..];
    assert multiset(s[..n]) == multiset(s) - multiset(s[n..]);
    assert multiset(t[..n]) == multiset(t) - multiset(t[n..]);
  }

  /**
   * a[..hi] is ascending, stated on the array's elements. It means the same
   * as Sorted(a[..hi]); the loop invariants of InsertLast and SortPrefix use
   * this form so that every iteration reasons about array reads rather than
   * about a fresh slice, and SortPrefix's exit turns it into Sorted(a[..n]).
   */
  ghost predicate SortedUpTo(a: array<real>, hi: nat)
    reads a
    requires hi <= a.Length
  {
    forall p, q :: 0 <= p < q < hi ==> a[p] <= a[q]
  }

  /**
   * One pass of the insertion sort: with a[..i] ascending, moves a[i] down
   * past every larger element, so that a[..i + 1] is ascending. The elements
   * are permuted, and nothing beyond index i moves.
   */
  method InsertLast(a: array<real>, i: nat)
    requires i < a.Length && SortedUpTo(a, i)
    modifies a
    ensures SortedUpTo(a, i + 1)
    ensures multiset(a[..]) == multiset(old(a[..]))
    ensures forall k :: i < k < a.Length ==> a[k] == old(a[k])
  {
    var j := i;
    while 0 < j && CompareFloats(a[j - 1], a[j]) > 0
      invariant 0 <= j <= i
      invariant forall p, q :: 0 <= p < q <= i && p != j && q != j ==> a[p] <= a[q]
      invariant forall q :: j < q <= i ==> a[j] <= a[q]
      invariant multiset(a[..]) == multiset(old(a[..]))
      invariant forall k :: i < k < a.Length ==> a[k] == old(a[k])
    {
      Swap(a, j - 1, j);
      j := j - 1;
    }
    forall p, q | 0 <= p < q <= i ensures a[p] <= a[q] {
      if q == j && p < j - 1 {
        assert a[p] <= a[j - 1];
      }
    }
  }

  /**
   * `qsort(a, n, sizeof(float), compare_floats)`: sorts a[..n] ascending in
   * place and touches nothing beyond it. Modelled as an insertion sort.
   */
  method SortPrefix(a: array<real>, n: nat)
    requires n <= a.Length
    modifies a
    ensures Sorted(a[..n])
    ensures multiset(a[..n]) == multiset(old(a[..n]))
    ensures a[n..] == old(a[n..])
  {
    var i := 0;
    while i < n
      invariant 0 <= i <= n
      invariant SortedUpTo(a, i)
      invariant multiset(a[..]) == multiset(old(a[..]))
      invariant forall k :: n <= k < a.Length ==> a[k] == old(a[k])
    {
      InsertLast(a, i);
      i := i + 1;
    }
    assert a[n..] == old(a[n..]);
    PrefixPermutation(a[..], old(a[..]), n);
    assert a[..n] == a[..][..n];
  }
}
