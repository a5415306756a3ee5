/** The re-implemented Enumerable combinators of
    custom_enumerable_project-main/.../lib/my_enumerables.rb, over sequences.

    A Ruby block is a Dafny function. A block that tests an element is a
    `T -> bool` (the truthiness of what the block returns). `my_all?`,
    `my_any?` and `my_count` check `block_given?`; calling one of them
    without a block is calling it with `Truthy` on Ruby values.
    A block run for its effects (the one `my_each` yields to) is a state
    transformer `(S, T) -> S`: `my_each` threads the state through the
    elements in index order. */
module Enumerables {

  /** The Ruby values that matter for truthiness. */
  datatype Value = Nil | Bool(b: bool) | Int(i: int) | Str(s: string)

  /** Everything except nil and false is truthy. */
  predicate Truthy(v: Value)
  {
    !(v == Nil || v == Bool(false))
  }

  // ---------------------------------------------------------------------
  // Reference definitions

  /** Left fold: f applied to the running result and each element in turn. */
  function FoldLeft<A, T>(f: (A, T) -> A, init: A, s: seq<T>): A
  {
    if s == [] then init else f(FoldLeft(f, init, s[..|s| - 1]), s[|s| - 1])
  }

  /** Fold that also hands each element's index (counted from `start`) to f. */
  function FoldIndexed<A, T>(f: (A, T, int) -> A, init: A, s: seq<T>, start: int): A
  {
    if s == [] then init
    else f(FoldIndexed(f, init, s[..|s| - 1], start), s[|s| - 1], start + |s| - 1)
  }

  function MapSeq<T, U>(s: seq<T>, f: T -> U): seq<U>
  {
    if s == [] then [] else MapSeq(s[..|s| - 1], f) + [f(s[|s| - 1])]
  }

  function Filter<T>(s: seq<T>, p: T -> bool): seq<T>
  {
    if s == [] then [] else Filter(s[..|s| - 1], p) + (if p(s[|s| - 1]) then [s[|s| - 1]] else [])
  }

  function Count<T>(s: seq<T>, p: T -> bool): nat
  {
    if s == [] then 0 else Count(s[..|s| - 1], p) + (if p(s[|s| - 1]) then 1 else 0)
  }

  // ---------------------------------------------------------------------
  // The blocks the Ruby methods hand to my_each

  /** my_map's block: `out << yield(e)`. */
  function MapStep<T, U>(f: T -> U): (seq<U>, T) -> seq<U>
  {
    (out: seq<U>, e: T) => out + [f(e)]
  }

  /** my_select's block: `result << e if yield(e)`. */
  function SelectStep<T>(p: T -> bool): (seq<T>, T) -> seq<T>
  {
    (out: seq<T>, e: T) => if p(e) then out + [e] else out
  }

  /** my_each_with_index's block: `yield(e, idx); idx += 1`, with idx carried in the state. */
  function IndexStep<S, T>(block: (S, T, int) -> S): ((S, int), T) -> (S, int)
  {
    (st: (S, int), e: T) => (block(st.0, e, st.1), st.1 + 1)
  }

  // ---------------------------------------------------------------------
  // The combinators

  /** my_each: an index `while` loop yielding each element; returns the receiver. */
  method MyEach<S, T>(s: seq<T>, state: S, block: (S, T) -> S) returns (final: S, self: seq<T>)
    ensures final == FoldLeft(block, state, s)
    ensures self == s
  {
    var i := 0;
    final := state;
    while i < |s|
      invariant 0 <= i <= |s|
      invariant final == FoldLeft(block, state, s[..i])
    {
      assert s[..i + 1][..i] == s[..i];
      final := block(final, s[i]);
      i := i + 1;
    }
    assert s[..|s|] == s;
    self := s;
  }

  /** my_each_with_index: my_each with a counter that starts at 0. */
  method MyEachWithIndex<S, T>(s: seq<T>, state: S, block: (S, T, int) -> S) returns (final: S, self: seq<T>)
    ensures final == FoldIndexed(block, state, s, 0)
    ensures self == s
  {
    var st;
    st, self := MyEach(s, (state, 0), IndexStep(block));
    IndexStepFolds(s, state, block);
    final := st.0;
  }

  /** my_inject: `result = yield(result, e)` over my_each, starting from `initial`. */
  method MyInject<A, T>(s: seq<T>, initial: A, f: (A, T) -> A) returns (result: A)
    ensures result == FoldLeft(f, initial, s)
  {
    var self;
    result, self := MyEach(s, initial, f);
  }

  /** my_map: collects yield(e) over my_each. */
  method MyMap<T, U>(s: seq<T>, f: T -> U) returns (out: seq<U>)
    ensures |out| == |s|
    ensures forall i :: 0 <= i < |s| ==> out[i] == f(s[i])
  {
    var self;
    out, self := MyEach(s, [], MapStep(f));
    MapStepFolds(s, f, []);
    MapSeqAt(s, f);
  }

  /** my_select: keeps the elements the block accepts, over my_each. */
  method MySelect<T>(s: seq<T>, p: T -> bool) returns (result: seq<T>)
    ensures result == Filter(s, p)
  {
    var self;
    result, self := MyEach(s, [], SelectStep(p));
    SelectStepFolds(s, p, []);
  }

  /** my_count: adds 1 for every element the test accepts (`Truthy` when no block is given). */
  method MyCount<T>(s: seq<T>, p: T -> bool) returns (total: nat)
    ensures total == Count(s, p)
  {
    total := 0;
    for i := 0 to |s|
      invariant total == Count(s[..i], p)
    {
      assert s[..i + 1][..i] == s[..i];
      if p(s[i]) {
        total := total + 1;
      }
    }
    assert s[..|s|] == s;
  }

  /** my_any?: returns true at the first element the test accepts, false after
      the last. `calls` is how many elements were tested. */
  method MyAny<T>(s: seq<T>, p: T -> bool) returns (r: bool, calls: nat)
    ensures r <==> exists i :: 0 <= i < |s| && p(s[i])
    ensures calls <= |s|
    ensures r ==> calls > 0 && p(s[calls - 1]) && forall k :: 0 <= k < calls - 1 ==> !p(s[k])
    ensures !r ==> calls == |s|
  {
    calls := 0;
    while calls < |s|
      invariant calls <= |s|
      invariant forall k :: 0 <= k < calls ==> !p(s[k])
    {
      calls := calls + 1;
      if p(s[calls - 1]) {
        return true, calls;
      }
    }
    return false, calls;
  }

  /** my_none?: returns false at the first element the block accepts (leaving
      my_each early), true after the last. */
  method MyNone<T>(s: seq<T>, p: T -> bool) returns (r: bool, calls: nat)
    ensures r <==> forall i :: 0 <= i < |s| ==> !p(s[i])
    ensures calls <= |s|
    ensures !r ==> calls > 0 && p(s[calls - 1]) && forall k :: 0 <= k < calls - 1 ==> !p(s[k])
    ensures r ==> calls == |s|
  {
    calls := 0;
    while calls < |s|
      invariant calls <= |s|
      invariant forall k :: 0 <= k < calls ==> !p(s[k])
    {
      calls := calls + 1;
      if p(s[calls - 1]) {
        return false, calls;
      }
    }
    return true, calls;
  }

  /** my_all?: true unless some element fails the test. */
  function MyAll<T>(s: seq<T>, p: T -> bool): (r: bool)
    ensures r <==> Count(s, p) == |s|
  {
    CountAll(s, p);
    !(exists i :: 0 <= i < |s| && !p(s[i]))
  }

  // ---------------------------------------------------------------------
  // Lemmas

  lemma {:induction false} MapSeqAt<T, U>(s: seq<T>, f: T -> U)
    ensures |MapSeq(s, f)| == |s|
    ensures forall i :: 0 <= i < |s| ==> MapSeq(s, f)[i] == f(s[i])
    decreases |s|
  {
    if s != [] {
      MapSeqAt(s[..|s| - 1], f);
    }
  }

  lemma {:induction false} MapStepFolds<T, U>(s: seq<T>, f: T -> U, acc: seq<U>)
    ensures FoldLeft(MapStep(f), acc, s) == acc + MapSeq(s, f)
    decreases |s|
  {
    if s != [] {
      MapStepFolds(s[..|s| - 1], f, acc);
    }
  }

  lemma {:induction false} SelectStepFolds<T>(s: seq<T>, p: T -> bool, acc: seq<T>)
    ensures FoldLeft(SelectStep(p), acc, s) == acc + Filter(s, p)
    decreases |s|
  {
    if s != [] {
      SelectStepFolds(s[..|s| - 1], p, acc);
    }
  }

  lemma {:induction false} IndexStepFolds<S, T>(s: seq<T>, state: S, block: (S, T, int) -> S)
    ensures FoldLeft(IndexStep(block), (state, 0), s) == (FoldIndexed(block, state, s, 0), |s|)
    decreases |s|
  {
    if s != [] {
      IndexStepFolds(s[..|s| - 1], state, block);
    }
  }

  /** my_select keeps exactly the accepted elements. */
  lemma {:induction false} FilterMembers<T>(s: seq<T>, p: T -> bool)
    ensures forall x :: x in Filter(s, p) <==> x in s && p(x)
    decreases |s|
  {
    if s != [] {
      FilterMembers(s[..|s| - 1], p);
      assert s == s[..|s| - 1] + [s[|s| - 1]];
    }
  }

  /** ... and keeps them in their original order: selecting from a
      concatenation concatenates the selections. */
  lemma {:induction false} FilterAppend<T>(s: seq<T>, t: seq<T>, p: T -> bool)
    ensures Filter(s + t, p) == Filter(s, p) + Filter(t, p)
    decreases |t|
  {
    if t == [] {
      assert s + t == s;
    } else {
      assert (s + t)[..|s + t| - 1] == s + t[..|t| - 1];
      FilterAppend(s, t[..|t| - 1], p);
    }
  }

  /** my_count counts what my_select keeps. */
  lemma {:induction false} CountIsFilterLength<T>(s: seq<T>, p: T -> bool)
    ensures Count(s, p) == |Filter(s, p)|
    decreases |s|
  {
    if s != [] {
      CountIsFilterLength(s[..|s| - 1], p);
    }
  }

  lemma {:induction false} CountAll<T>(s: seq<T>, p: T -> bool)
    ensures Count(s, p) <= |s|
    ensures Count(s, p) == |s| <==> forall i :: 0 <= i < |s| ==> p(s[i])
    ensures Count(s, p) == 0 <==> forall i :: 0 <= i < |s| ==> !p(s[i])
    decreases |s|
  {
    if s != [] {
      var init := s[..|s| - 1];
      CountAll(init, p);
      assert forall i :: 0 <= i < |init| ==> s[i] == init[i];
    }
  }

  /** all?, any? and none? agree with the count: all? on empty input is true,
      any? on empty input is false, and none? is the negation of any?. */
  lemma QuantifiersByCount<T>(s: seq<T>, p: T -> bool)
    ensures MyAll(s, p) <==> Count(s, p) == |s|
    ensures (exists i :: 0 <= i < |s| && p(s[i])) <==> Count(s, p) > 0
    ensures s == [] ==> MyAll(s, p) && Count(s, p) == 0
  {
    CountAll(s, p);
  }

  /** Without a block, my_count counts the elements other than nil and false. */
  lemma CountWithoutBlock()
    ensures Count([Int(1), Nil, Bool(false), Str(""), Bool(true)], Truthy) == 3
  {
    var s := [Int(1), Nil, Bool(false), Str(""), Bool(true)];
    assert s[..4] == [Int(1), Nil, Bool(false), Str("")];
    assert s[..4][..3] == [Int(1), Nil, Bool(false)];
    assert s[..4][..3][..2] == [Int(1), Nil];
    assert s[..4][..3][..2][..1] == [Int(1)];
    assert Count([Int(1)], Truthy) == 1;
    assert Count([Int(1), Nil], Truthy) == 1;
    assert Count([Int(1), Nil, Bool(false)], Truthy) == 1;
    assert Count([Int(1), Nil, Bool(false), Str("")], Truthy) == 2;
  }
}
