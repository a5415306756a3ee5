/** Merge sort from Recursion/MergeSort.rb, in its two spellings:
    divide_and_sort/join_sorted (a `shift` loop on copies) and
    merge_sort/merge (an index loop). Elements are compared through an
    integer key (the identity for the integer lists the file sorts), so
    that stability is observable. */
module MergeSort {

  ghost predicate SortedBy<T>(s: seq<T>, key: T -> int)
  {
    forall i, j :: 0 <= i < j < |s| ==> key(s[i]) <= key(s[j])
  }

  /** The merge both implementations perform: on a tie the left element goes first. */
  function Merged<T>(a: seq<T>, b: seq<T>, key: T -> int): (r: seq<T>)
    ensures |r| == |a| + |b|
    decreases |a| + |b|
  {
    if a == [] then b
    else if b == [] then a
    else if key(a[0]) <= key(b[0]) then [a[0]] + Merged(a[1..], b, key)
    else [b[0]] + Merged(a, b[1..], key)
  }

  /** The recursive split at n / 2 (floor of n / 2.0) and merge. */
  function Sorting<T>(s: seq<T>, key: T -> int): (r: seq<T>)
    ensures |r| == |s|
    decreases |s|
  {
    if |s| <= 1 then s
    else Merged(Sorting(s[..|s| / 2], key), Sorting(s[|s| / 2..], key), key)
  }

  /** The elements of s whose key is v, in their order in s. */
  function WithKey<T>(s: seq<T>, key: T -> int, v: int): seq<T>
  {
    if s == [] then [] else Kept(s[0], key, v) + WithKey(s[1..], key, v)
  }

  /** x alone when its key is v, and nothing otherwise. */
  function Kept<T>(x: T, key: T -> int, v: int): seq<T>
  {
    if key(x) == v then [x] else []
  }

  lemma {:induction false} WithKeyAppend<T>(s: seq<T>, t: seq<T>, key: T -> int, v: int)
    ensures WithKey(s + t, key, v) == WithKey(s, key, v) + WithKey(t, key, v)
    decreases |s|
  {
    if s == [] {
      assert s + t == t;
    } else {
      var head := Kept(s[0], key, v);
      assert (s + t)[0] == s[0] && (s + t)[1..] == s[1..] + t;
      assert WithKey(s + t, key, v) == head + WithKey(s[1..] + t, key, v);
      WithKeyAppend(s[1..], t, key, v);
      assert WithKey(s, key, v) == head + WithKey(s[1..], key, v);
    }
  }

  /** A list sorted by key whose first key exceeds v has no element with key v. */
  lemma {:induction false} WithKeyNone<T>(s: seq<T>, key: T -> int, v: int)
    requires SortedBy(s, key) && s != [] && key(s[0]) > v
    ensures WithKey(s, key, v) == []
    decreases |s|
  {
    if |s| > 1 {
      SortedTail(s, key);
      assert key(s[0]) <= key(s[1]);
      WithKeyNone(s[1..], key, v);
    }
  }

  lemma {:induction false} SortedTail<T>(s: seq<T>, key: T -> int)
    requires SortedBy(s, key) && s != []
    ensures SortedBy(s[1..], key)
  {
    forall i, j | 0 <= i < j < |s| - 1
      ensures key(s[1..][i]) <= key(s[1..][j])
    {
      assert s[1..][i] == s[i + 1] && s[1..][j] == s[j + 1];
    }
  }

  /** The merge is a permutation of a ++ b. */
  lemma {:induction false} MergedPermutation<T>(a: seq<T>, b: seq<T>, key: T -> int)
    ensures multiset(Merged(a, b, key)) == multiset(a) + multiset(b)
    decreases |a| + |b|
  {
    if a == [] || b == [] {
      MergedWithEmpty(a, b, key);
    } else if key(a[0]) <= key(b[0]) {
      MergedPermutation(a[1..], b, key);
      PermutationLeftStep(a, b, key);
    } else {
      MergedPermutation(a, b[1..], key);
      PermutationRightStep(a, b, key);
    }
  }

  lemma PermutationLeftStep<T>(a: seq<T>, b: seq<T>, key: T -> int)
    requires a != [] && b != [] && key(a[0]) <= key(b[0])
    requires multiset(Merged(a[1..], b, key)) == multiset(a[1..]) + multiset(b)
    ensures multiset(Merged(a, b, key)) == multiset(a) + multiset(b)
  {
    MergedStep(a, b, key);
    ConsMultiset(a[0], Merged(a[1..], b, key));
    HeadMultiset(a);
  }

  lemma PermutationRightStep<T>(a: seq<T>, b: seq<T>, key: T -> int)
    requires a != [] && b != [] && key(a[0]) > key(b[0])
    requires multiset(Merged(a, b[1..], key)) == multiset(a) + multiset(b[1..])
    ensures multiset(Merged(a, b, key)) == multiset(a) + multiset(b)
  {
    MergedStep(a, b, key);
    ConsMultiset(b[0], Merged(a, b[1..], key));
    HeadMultiset(b);
  }

  lemma HeadMultiset<T>(s: seq<T>)
    requires s != []
    ensures multiset(s) == multiset{s[0]} + multiset(s[1..])
  {
    assert s == [s[0]] + s[1..];
  }

  lemma ConsMultiset<T>(x: T, s: seq<T>)
    ensures multiset([x] + s) == multiset{x} + multiset(s)
  {
  }

  /** Merging two sorted lists gives a sorted list. */
  lemma {:induction false} MergedSorted<T>(a: seq<T>, b: seq<T>, key: T -> int)
    requires SortedBy(a, key) && SortedBy(b, key)
    ensures SortedBy(Merged(a, b, key), key)
    ensures Merged(a, b, key) != [] ==>
              Merged(a, b, key)[0] == (if a != [] && (b == [] || key(a[0]) <= key(b[0])) then a[0] else b[0])
    decreases |a| + |b|
  {
    if a != [] && b != [] {
      var r := Merged(a, b, key);
      if key(a[0]) <= key(b[0]) {
        MergedSorted(a[1..], b, key);
        var rest := Merged(a[1..], b, key);
        assert r == [a[0]] + rest;
        forall j | 1 <= j < |r| ensures key(r[0]) <= key(r[j]) {
          assert r[j] == rest[j - 1];
          if j > 1 { assert key(rest[0]) <= key(rest[j - 1]); }
        }
      } else {
        MergedSorted(a, b[1..], key);
        var rest := Merged(a, b[1..], key);
        assert r == [b[0]] + rest;
        forall j | 1 <= j < |r| ensures key(r[0]) <= key(r[j]) {
          assert r[j] == rest[j - 1];
          if j > 1 { assert key(rest[0]) <= key(rest[j - 1]); }
        }
      }
    }
  }

  /** One step of the merge: the smaller head, the left one on a tie, comes first. */
  lemma MergedStep<T>(a: seq<T>, b: seq<T>, key: T -> int)
    requires a != [] && b != []
    ensures key(a[0]) <= key(b[0]) ==> Merged(a, b, key) == [a[0]] + Merged(a[1..], b, key)
    ensures key(a[0]) > key(b[0]) ==> Merged(a, b, key) == [b[0]] + Merged(a, b[1..], key)
  {
  }

  /** Stability: among equal keys the merge lists a's elements, in order,
      before b's, in order. */
  lemma {:induction false} MergedStable<T>(a: seq<T>, b: seq<T>, key: T -> int, v: int)
    requires SortedBy(a, key) && SortedBy(b, key)
    ensures WithKey(Merged(a, b, key), key, v) == WithKey(a, key, v) + WithKey(b, key, v)
    decreases |a| + |b|
  {
    if a == [] || b == [] {
      MergedWithEmpty(a, b, key);
      WithKeyAppend(a, b, key, v);
    } else if key(a[0]) <= key(b[0]) {
      SortedTail(a, key);
      MergedStable(a[1..], b, key, v);
      StableLeftStep(a, b, key, v);
    } else {
      SortedTail(b, key);
      MergedStable(a, b[1..], key, v);
      if key(b[0]) == v {
        WithKeyNone(a, key, v);
      }
      StableRightStep(a, b, key, v);
    }
  }

  /** WithKey of a list with a given first element. */
  lemma WithKeyCons<T>(x: T, s: seq<T>, key: T -> int, v: int)
    ensures WithKey([x] + s, key, v) == Kept(x, key, v) + WithKey(s, key, v)
  {
    assert ([x] + s)[0] == x && ([x] + s)[1..] == s;
  }

  lemma {:induction false} StableLeftStep<T>(a: seq<T>, b: seq<T>, key: T -> int, v: int)
    requires a != [] && b != [] && key(a[0]) <= key(b[0])
    requires WithKey(Merged(a[1..], b, key), key, v) == WithKey(a[1..], key, v) + WithKey(b, key, v)
    ensures WithKey(Merged(a, b, key), key, v) == WithKey(a, key, v) + WithKey(b, key, v)
  {
    MergedStep(a, b, key);
    WithKeyCons(a[0], Merged(a[1..], b, key), key, v);
    Associative(Kept(a[0], key, v), WithKey(a[1..], key, v), WithKey(b, key, v));
  }

  lemma {:induction false} StableRightStep<T>(a: seq<T>, b: seq<T>, key: T -> int, v: int)
    requires a != [] && b != [] && key(a[0]) > key(b[0])
    requires Kept(b[0], key, v) == [] || WithKey(a, key, v) == []
    requires WithKey(Merged(a, b[1..], key), key, v) == WithKey(a, key, v) + WithKey(b[1..], key, v)
    ensures WithKey(Merged(a, b, key), key, v) == WithKey(a, key, v) + WithKey(b, key, v)
  {
    MergedStep(a, b, key);
    WithKeyCons(b[0], Merged(a, b[1..], key), key, v);
    Commuting(Kept(b[0], key, v), WithKey(a, key, v), WithKey(b[1..], key, v));
  }

  lemma Associative<T>(x: seq<T>, y: seq<T>, z: seq<T>)
    ensures x + (y + z) == (x + y) + z
  {
  }

  /** An empty list commutes with anything in front of a concatenation. */
  lemma Commuting<T>(x: seq<T>, y: seq<T>, z: seq<T>)
    requires x == [] || y == []
    ensures x + (y + z) == y + (x + z)
  {
    if x == [] {
      assert x + (y + z) == y + z;
      assert x + z == z;
    } else {
      assert y + z == z;
      assert y + (x + z) == x + z;
    }
  }

  /** The sort returns a sorted permutation of its input. */
  lemma {:induction false} SortingCorrect<T>(s: seq<T>, key: T -> int)
    ensures SortedBy(Sorting(s, key), key)
    ensures multiset(Sorting(s, key)) == multiset(s)
    decreases |s|
  {
    if |s| > 1 {
      SortingCorrect(s[..|s| / 2], key);
      SortingCorrect(s[|s| / 2..], key);
      SortingStep(s, key);
    }
  }

  lemma {:induction false} SortingStep<T>(s: seq<T>, key: T -> int)
    requires |s| > 1
    requires SortedBy(Sorting(s[..|s| / 2], key), key) && SortedBy(Sorting(s[|s| / 2..], key), key)
    requires multiset(Sorting(s[..|s| / 2], key)) == multiset(s[..|s| / 2])
    requires multiset(Sorting(s[|s| / 2..], key)) == multiset(s[|s| / 2..])
    ensures SortedBy(Sorting(s, key), key)
    ensures multiset(Sorting(s, key)) == multiset(s)
  {
    var mid := |s| / 2;
    SortingUnfold(s, key);
    MergedSorted(Sorting(s[..mid], key), Sorting(s[mid..], key), key);
    MergedPermutation(Sorting(s[..mid], key), Sorting(s[mid..], key), key);
    SplitMultiset(s, mid);
  }

  lemma SplitMultiset<T>(s: seq<T>, mid: int)
    requires 0 <= mid <= |s|
    ensures multiset(s) == multiset(s[..mid]) + multiset(s[mid..])
  {
    assert s == s[..mid] + s[mid..];
  }

  /** The sort is stable: the elements with any one key keep their input order. */
  lemma {:induction false} SortingStable<T>(s: seq<T>, key: T -> int, v: int)
    ensures WithKey(Sorting(s, key), key, v) == WithKey(s, key, v)
    decreases |s|
  {
    if |s| > 1 {
      SortingStable(s[..|s| / 2], key, v);
      SortingStable(s[|s| / 2..], key, v);
      SortingStableStep(s, key, v);
    }
  }

  lemma {:induction false} SortingStableStep<T>(s: seq<T>, key: T -> int, v: int)
    requires |s| > 1
    requires WithKey(Sorting(s[..|s| / 2], key), key, v) == WithKey(s[..|s| / 2], key, v)
    requires WithKey(Sorting(s[|s| / 2..], key), key, v) == WithKey(s[|s| / 2..], key, v)
    ensures WithKey(Sorting(s, key), key, v) == WithKey(s, key, v)
  {
    var mid := |s| / 2;
    SortingUnfold(s, key);
    SortingCorrect(s[..mid], key);
    SortingCorrect(s[mid..], key);
    MergedStable(Sorting(s[..mid], key), Sorting(s[mid..], key), key, v);
    WithKeySplit(s, mid, key, v);
  }

  lemma SortingUnfold<T>(s: seq<T>, key: T -> int)
    requires |s| > 1
    ensures Sorting(s, key) == Merged(Sorting(s[..|s| / 2], key), Sorting(s[|s| / 2..], key), key)
  {
  }

  lemma {:induction false} WithKeySplit<T>(s: seq<T>, mid: int, key: T -> int, v: int)
    requires 0 <= mid <= |s|
    ensures WithKey(s, key, v) == WithKey(s[..mid], key, v) + WithKey(s[mid..], key, v)
  {
    assert s == s[..mid] + s[mid..];
    WithKeyAppend(s[..mid], s[mid..], key, v);
  }

  /** Lists of size at most one come back as they are; otherwise both halves are strictly shorter. */
  lemma SplitShrinks<T>(s: seq<T>, key: T -> int)
    ensures |s| <= 1 ==> Sorting(s, key) == s
    ensures |s| >= 2 ==> 0 < |s[..|s| / 2]| < |s| && 0 < |s[|s| / 2..]| < |s|
  {
  }

  lemma MergedWithEmpty<T>(a: seq<T>, b: seq<T>, key: T -> int)
    requires a == [] || b == []
    ensures Merged(a, b, key) == a + b
  {
  }

  /** join_sorted: repeatedly shifts the smaller head (the left one on a tie)
      off copies of its arguments, then appends what is left. */
  method JoinSorted<T>(a: seq<T>, b: seq<T>, key: T -> int) returns (out: seq<T>)
    ensures out == Merged(a, b, key)
  {
    out := [];
    var la, lb := a, b;
    while !(la == [] || lb == [])
      invariant out + Merged(la, lb, key) == Merged(a, b, key)
      decreases |la| + |lb|
    {
      MergedStep(la, lb, key);
      if key(la[0]) <= key(lb[0]) {
        Associative(out, [la[0]], Merged(la[1..], lb, key));
        out := out + [la[0]];
        la := la[1..];
      } else {
        Associative(out, [lb[0]], Merged(la, lb[1..], key));
        out := out + [lb[0]];
        lb := lb[1..];
      }
    }
    MergedWithEmpty(la, lb, key);
    Associative(out, la, lb);
    out := out + la + lb;
  }

  /** divide_and_sort: splits at the floor of half the length. */
  method DivideAndSort<T>(list: seq<T>, key: T -> int) returns (r: seq<T>)
    ensures r == Sorting(list, key)
    ensures SortedBy(r, key) && multiset(r) == multiset(list)
    decreases |list|
  {
    SortingCorrect(list, key);
    if |list| <= 1 {
      return list;
    }
    var mid := |list| / 2;
    var left := DivideAndSort(list[..mid], key);
    var right := DivideAndSort(list[mid..], key);
    r := JoinSorted(left, right, key);
  }

  /** merge: walks both lists with indices i and j, then appends both tails. */
  method Merge<T>(left: seq<T>, right: seq<T>, key: T -> int) returns (result: seq<T>)
    ensures result == Merged(left, right, key)
  {
    result := [];
    var i, j := 0, 0;
    while i < |left| && j < |right|
      invariant 0 <= i <= |left| && 0 <= j <= |right|
      invariant result + Merged(left[i..], right[j..], key) == Merged(left, right, key)
      decreases |left| - i + |right| - j
    {
      MergedStep(left[i..], right[j..], key);
      assert left[i..][1..] == left[i + 1..] && right[j..][1..] == right[j + 1..];
      if key(left[i]) <= key(right[j]) {
        Associative(result, [left[i]], Merged(left[i + 1..], right[j..], key));
        result := result + [left[i]];
        i := i + 1;
      } else {
        Associative(result, [right[j]], Merged(left[i..], right[j + 1..], key));
        result := result + [right[j]];
        j := j + 1;
      }
    }
    MergedWithEmpty(left[i..], right[j..], key);
    Associative(result, left[i..], right[j..]);
    result := result + left[i..] + right[j..];
  }

  /** merge_sort: splits at length / 2 and merges with Merge. */
  method MergeSort<T>(arr: seq<T>, key: T -> int) returns (r: seq<T>)
    ensures r == Sorting(arr, key)
    ensures SortedBy(r, key) && multiset(r) == multiset(arr)
    decreases |arr|
  {
    SortingCorrect(arr, key);
    if |arr| <= 1 {
      return arr;
    }
    var mid := |arr| / 2;
    var left := MergeSort(arr[..mid], key);
    var right := MergeSort(arr[mid..], key);
    r := Merge(left, right, key);
  }
}
