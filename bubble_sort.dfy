/** The in-place bubble sort of bubblesort.rb. Passes over the array swap
    adjacent out-of-order elements until a pass makes no swap. */
module BubbleSort {

  ghost predicate Sorted(s: seq<int>)
  {
    forall i, j :: 0 <= i < j < |s| ==> s[i] <= s[j]
  }

  /** Number of elements of t smaller than x. */
  function CountBelow(x: int, t: seq<int>): nat
  {
    if t == [] then 0 else (if t[0] < x then 1 else 0) + CountBelow(x, t[1..])
  }

  /** Number of inversions: pairs i < j with s[i] > s[j]. */
  function Inversions(s: seq<int>): nat
  {
    if s == [] then 0 else CountBelow(s[0], s[1..]) + Inversions(s[1..])
  }

  /** s with its elements at k and k + 1 exchanged. */
  function SwapAdjacent(s: seq<int>, k: nat): (r: seq<int>)
    requires k + 1 < |s|
  {
    s[k := s[k + 1]][k + 1 := s[k]]
  }

  lemma {:induction false} CountBelowSwap(x: int, t: seq<int>, k: nat)
    requires k + 1 < |t|
    ensures CountBelow(x, SwapAdjacent(t, k)) == CountBelow(x, t)
    decreases k
  {
    var u := SwapAdjacent(t, k);
    if k == 0 {
      assert u[1..][1..] == t[1..][1..];
    } else {
      assert u[1..] == SwapAdjacent(t[1..], k - 1);
      CountBelowSwap(x, t[1..], k - 1);
    }
  }

  /** Swapping an adjacent inverted pair removes exactly one inversion. */
  lemma {:induction false} SwapRemovesOneInversion(s: seq<int>, k: nat)
    requires k + 1 < |s| && s[k] > s[k + 1]
    ensures Inversions(SwapAdjacent(s, k)) == Inversions(s) - 1
    decreases k
  {
    var u := SwapAdjacent(s, k);
    if k == 0 {
      var t := s[2..];
      assert s[1..] == [s[1]] + t && s[1..][1..] == t;
      assert u[1..] == [s[0]] + t && u[1..][1..] == t;
    } else {
      assert u[0] == s[0];
      assert u[1..] == SwapAdjacent(s[1..], k - 1);
      CountBelowSwap(s[0], s[1..], k - 1);
      SwapRemovesOneInversion(s[1..], k - 1);
    }
  }

  /** Swapping adjacent elements does not change the multiset of elements. */
  lemma SwapIsPermutation(s: seq<int>, k: nat)
    requires k + 1 < |s|
    ensures multiset(SwapAdjacent(s, k)) == multiset(s)
  {
    var u := SwapAdjacent(s, k);
    assert s == s[..k] + [s[k], s[k + 1]] + s[k + 2..];
    assert u == s[..k] + [s[k + 1], s[k]] + s[k + 2..];
  }

  /** A pass with no swap has seen every adjacent pair in order: the array is sorted. */
  lemma {:induction false} AdjacentOrderedIsSorted(s: seq<int>)
    requires forall k :: 0 <= k < |s| - 1 ==> s[k] <= s[k + 1]
    ensures Sorted(s)
    decreases |s|
  {
    if |s| > 1 {
      AdjacentOrderedIsSorted(s[1..]);
      forall i, j | 0 <= i < j < |s| ensures s[i] <= s[j] {
        assert s[j] == s[1..][j - 1];
        if i > 0 {
          assert s[i] == s[1..][i - 1];
        } else if j > 1 {
          assert s[1] == s[1..][0];
        }
      }
    }
  }

  /** bubble_sort: sorts `a` in place into ascending order, as a permutation of the input. */
  method Sort(a: array<int>)
    modifies a
    ensures Sorted(a[..])
    ensures multiset(a[..]) == multiset(old(a[..]))
  {
    var sorted := false;
    while !sorted
      invariant multiset(a[..]) == multiset(old(a[..]))
      invariant sorted ==> forall k :: 0 <= k < a.Length - 1 ==> a[k] <= a[k + 1]
      decreases Inversions(a[..]) + (if sorted then 0 else 1)
    {
      sorted := true;
      ghost var before := Inversions(a[..]);
      var i := 0;
      while i < a.Length - 1
        invariant 0 <= i <= if a.Length == 0 then 0 else a.Length - 1
        invariant multiset(a[..]) == multiset(old(a[..]))
        invariant sorted ==> forall k :: 0 <= k < i ==> a[k] <= a[k + 1]
        invariant sorted ==> Inversions(a[..]) == before
        invariant !sorted ==> Inversions(a[..]) < before
      {
        if a[i] > a[i + 1] {
          SwapRemovesOneInversion(a[..], i);
          SwapIsPermutation(a[..], i);
          assert SwapAdjacent(a[..], i) == a[..][i := a[i + 1]][i + 1 := a[i]];
          a[i], a[i + 1] := a[i + 1], a[i];
          sorted := false;
        }
        i := i + 1;
      }
    }
    AdjacentOrderedIsSorted(a[..]);
  }

  /** Lists of zero or one element come back unchanged: the only sorted
      permutation of such a list is the list itself. */
  lemma ShortListUnchanged(before: seq<int>, after: seq<int>)
    requires |before| <= 1
    requires multiset(after) == multiset(before)
    ensures after == before
  {
    assert |after| == |multiset(after)| == |multiset(before)| == |before|;
    if |before| == 1 {
      assert before[0] in multiset(after);
    }
  }

  /** A list with no inversion is sorted, and a sorted list has none. */
  lemma {:induction false} NoInversionsIffSorted(s: seq<int>)
    ensures Inversions(s) == 0 <==> Sorted(s)
    decreases |s|
  {
    if s != [] {
      NoInversionsIffSorted(s[1..]);
      CountBelowZeroIffAllAtLeast(s[0], s[1..]);
      if Sorted(s) {
        assert Sorted(s[1..]) by {
          forall i, j | 0 <= i < j < |s[1..]| ensures s[1..][i] <= s[1..][j] {
            assert s[1..][i] == s[i + 1] && s[1..][j] == s[j + 1];
          }
        }
        assert forall j :: 0 <= j < |s[1..]| ==> s[0] <= s[1..][j] by {
          forall j | 0 <= j < |s[1..]| ensures s[0] <= s[1..][j] {
            assert s[1..][j] == s[j + 1];
          }
        }
      }
      if Inversions(s) == 0 {
        forall i, j | 0 <= i < j < |s| ensures s[i] <= s[j] {
          if i == 0 {
            assert s[j] == s[1..][j - 1];
          } else {
            assert s[i] == s[1..][i - 1] && s[j] == s[1..][j - 1];
          }
        }
      }
    }
  }

  lemma {:induction false} CountBelowZeroIffAllAtLeast(x: int, t: seq<int>)
    ensures CountBelow(x, t) == 0 <==> forall j :: 0 <= j < |t| ==> x <= t[j]
    decreases |t|
  {
    if t != [] {
      CountBelowZeroIffAllAtLeast(x, t[1..]);
      assert forall j :: 1 <= j < |t| ==> t[j] == t[1..][j - 1];
    }
  }
}
