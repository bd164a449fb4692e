/**
 * shshsort: Shell's sort of a PIX array, in place, with Knuth's gaps
 * 1, 4, 13, 40, ... (each three times the last plus one).
 */
module ShellSort {

  /** Knuth's gap sequence. */
  function Knuth(m: nat): (r: nat)
    ensures r >= 1
    ensures m >= 1 ==> r >= 4
  {
    if m == 0 then 1 else 3 * Knuth(m - 1) + 1
  }

  /** Dividing a gap by three, as the outer loop does, gives the previous gap. */
  lemma KnuthDown(m: nat)
    requires m >= 1
    ensures Knuth(m) / 3 == Knuth(m - 1)
  {
    var k := Knuth(m - 1);
    assert Knuth(m) == 3 * k + 1;
  }

  predicate Sorted(s: seq<int>)
  {
    forall p, q :: 0 <= p < q < |s| ==> s[p] <= s[q]
  }

  /** Every element is no larger than the one h places further on, for the pairs ending before `end`. */
  predicate HSortedUpTo(s: seq<int>, h: nat, end: int)
    requires end <= |s|
  {
    forall p :: h <= p < end ==> s[p - h] <= s[p]
  }

  predicate HSorted(s: seq<int>, h: nat)
  {
    HSortedUpTo(s, h, |s|)
  }

  /** A sequence sorted with gap 1 is sorted. */
  lemma {:induction false} OneSortedIsSorted(s: seq<int>)
    requires HSorted(s, 1)
    ensures Sorted(s)
    decreases |s|
  {
    if |s| > 1 {
      var init := s[..|s| - 1];
      assert HSorted(init, 1) by {
        forall p | 1 <= p < |init|
          ensures init[p - 1] <= init[p]
        {
          assert s[p - 1] <= s[p];
        }
      }
      OneSortedIsSorted(init);
      forall p, q | 0 <= p < q < |s|
        ensures s[p] <= s[q]
      {
        if q < |s| - 1 {
          assert init[p] <= init[q];
        } else if p < q - 1 {
          assert init[p] <= init[q - 1];
        }
      }
    }
  }

  /**
   * shshsort(arr, n): leaves arr[0..n) sorted and a permutation of what it
   * held; nothing beyond n is touched.
   */
  method Shshsort(arr: array<int>, n: int)
    requires 0 <= n <= arr.Length
    modifies arr
    ensures Sorted(arr[..n])
    ensures multiset(arr[..n]) == multiset(old(arr[..n]))
    ensures arr[n..] == old(arr[n..])
  {
    ghost var m: nat := 1;
    var inc := 4;
    while inc <= n
      invariant inc == Knuth(m) && m >= 1
      decreases n - inc
    {
      inc := inc * 3 + 1;
      m := m + 1;
    }
    KnuthDown(m);
    inc := inc / 3;
    m := m - 1;
    GapInsertionPass(arr, n, inc);
    while inc > 1
      invariant inc == Knuth(m)
      invariant HSorted(arr[..n], inc)
      invariant multiset(arr[..n]) == multiset(old(arr[..n]))
      invariant arr[n..] == old(arr[n..])
      decreases inc
    {
      KnuthDown(m);
      inc := inc / 3;
      m := m - 1;
      GapInsertionPass(arr, n, inc);
    }
    OneSortedIsSorted(arr[..n]);
  }

  /** One pass of the outer do-while: insertion sort along each chain of elements h apart. */
  method GapInsertionPass(arr: array<int>, n: int, h: int)
    requires 0 <= n <= arr.Length && h >= 1
    modifies arr
    ensures HSorted(arr[..n], h)
    ensures multiset(arr[..n]) == multiset(old(arr[..n]))
    ensures arr[n..] == old(arr[n..])
  {
    var i := h;
    while i < n
      invariant h <= i
      invariant HSortedUpTo(arr[..n], h, if i < n then i else n)
      invariant multiset(arr[..n]) == multiset(old(arr[..n]))
      invariant arr[n..] == old(arr[n..])
    {
      InsertAt(arr, n, h, i);
      i := i + 1;
    }
  }

  /**
   * The body of the `for` loop: take t = arr[i] out, shift the larger
   * elements of its chain up by h, and drop t into the hole. The loop stops
   * at an element no larger than t, or when j falls below h, so it never
   * reads arr[j - h] with j < h.
   */
  method InsertAt(arr: array<int>, n: int, h: int, i: int)
    requires 0 <= n <= arr.Length && 1 <= h <= i < n
    requires HSortedUpTo(arr[..n], h, i)
    modifies arr
    ensures HSortedUpTo(arr[..n], h, i + 1)
    ensures multiset(arr[..n]) == multiset(old(arr[..n]))
    ensures arr[n..] == old(arr[n..])
  {
    var t := arr[i];
    var j := i;
    assert arr[..n][j := t] == arr[..n];
    StartHole(arr[..n], h, i);
    while arr[j - h] > t
      invariant h <= j <= i
      invariant multiset(arr[..n][j := t]) == multiset(old(arr[..n]))
      invariant arr[n..] == old(arr[n..])
      invariant Hole(arr[..n], h, i, j, t)
      decreases j
    {
      j := ShiftDown(arr, n, h, i, j, t);
      if j < h {
        break;
      }
    }
    ghost var s := arr[..n];
    FillKeepsSorted(s, h, i, j, t);
    arr[j] := t;
    assert arr[..n] == s[j := t];
  }

  /** One turn of the inner while loop: arr[j] = arr[j - inc]; j -= inc. */
  method ShiftDown(arr: array<int>, n: int, h: int, i: int, j: int, t: int) returns (j': int)
    requires 0 <= n <= arr.Length && 1 <= h <= j <= i < n
    requires Hole(arr[..n], h, i, j, t) && arr[j - h] > t
    modifies arr
    ensures j' == j - h
    ensures Hole(arr[..n], h, i, j', t)
    ensures multiset(arr[..n][j' := t]) == multiset(old(arr[..n])[j := t])
    ensures arr[n..] == old(arr[n..])
  {
    ghost var s := arr[..n];
    SwapHole(s, j, j - h, t);
    ShiftKeepsHole(s, h, i, j, t);
    arr[j] := arr[j - h];
    j' := j - h;
    assert arr[..n] == s[j := s[j']];
  }

  /**
   * The state of the inner loop with the hole at j: the chain is h-sorted
   * except across the hole, the neighbours of the hole are in order, and
   * the element shifted just above the hole is larger than t.
   */
  predicate Hole(s: seq<int>, h: int, i: int, j: int, t: int)
    requires 1 <= h && 0 <= j <= i < |s|
  {
    (forall p :: h <= p <= i && p != j && p - h != j ==> s[p - h] <= s[p]) &&
    (h <= j && j + h <= i ==> s[j - h] <= s[j + h]) &&
    (j < i ==> j + h <= i && s[j + h] > t)
  }

  /** Taking t out of a prefix h-sorted up to i leaves a hole at i. */
  lemma StartHole(s: seq<int>, h: int, i: int)
    requires 1 <= h <= i < |s| && HSortedUpTo(s, h, i)
    ensures Hole(s, h, i, i, s[i])
  {
  }

  /** Moving an element larger than t up into the hole moves the hole down by h. */
  lemma ShiftKeepsHole(s: seq<int>, h: int, i: int, j: int, t: int)
    requires 1 <= h <= j <= i < |s| && Hole(s, h, i, j, t) && s[j - h] > t
    ensures Hole(s[j := s[j - h]], h, i, j - h, t)
  {
  }

  /** Dropping t into the hole, where the loop stopped, completes an h-sorted prefix up to i + 1. */
  lemma FillKeepsSorted(s: seq<int>, h: int, i: int, j: int, t: int)
    requires 1 <= h && 0 <= j <= i < |s| && Hole(s, h, i, j, t)
    requires j >= h ==> s[j - h] <= t
    ensures HSortedUpTo(s[j := t], h, i + 1)
  {
  }

  /** Moving the hole from j to k keeps the multiset of the array with the hole filled by t. */
  lemma SwapHole(s: seq<int>, j: int, k: int, t: int)
    requires 0 <= k < j < |s|
    ensures multiset(s[j := s[k]][k := t]) == multiset(s[j := t])
  {
    var a := s[j := s[k]][k := t];
    var b := s[j := t];
    assert a == b[j := s[k]][k := t];
    assert b[k] == s[k];
  }
}
