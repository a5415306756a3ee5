/** Fibonacci prefix generation (Recursion/Fibonacci.rb): an iterative
    generator and a recursive one, shown to agree. */
module Fibonacci {

  /** The n-th Fibonacci number, F(0) = 0, F(1) = 1: the reference definition. */
  function Fib(n: nat): nat
  {
    if n < 2 then n else Fib(n - 1) + Fib(n - 2)
  }

  /** gen_fib_recursive: [] for n <= 0, [0] for n = 1, [0, 1] for n = 2,
      otherwise the shorter prefix extended by the sum of its last two. */
  function GenFibRecursive(n: int): (r: seq<nat>)
    ensures |r| == if n <= 0 then 0 else n
    decreases n
  {
    if n <= 0 then []
    else if n == 1 then [0]
    else if n == 2 then [0, 1]
    else
      var shorter := GenFibRecursive(n - 1);
      shorter + [shorter[|shorter| - 1] + shorter[|shorter| - 2]]
  }

  /** Every element of gen_fib_recursive(n) is the Fibonacci number of its index. */
  lemma {:induction false} GenFibRecursiveIsFib(n: int)
    ensures forall i :: 0 <= i < |GenFibRecursive(n)| ==> GenFibRecursive(n)[i] == Fib(i)
    decreases n
  {
    if n > 2 {
      GenFibRecursiveIsFib(n - 1);
    }
  }

  /** gen_fib_recursive(n) is gen_fib_recursive(n - 1) with one element appended. */
  lemma {:induction false} GenFibRecursiveExtends(n: int)
    requires n >= 1
    ensures GenFibRecursive(n)[..n - 1] == GenFibRecursive(n - 1)
    ensures GenFibRecursive(n)[n - 1] == Fib(n - 1)
  {
    GenFibRecursiveIsFib(n);
    GenFibRecursiveIsFib(n - 1);
    var r, s := GenFibRecursive(n), GenFibRecursive(n - 1);
    assert forall i :: 0 <= i < n - 1 ==> r[..n - 1][i] == s[i];
  }

  /** From index 2 on, each element is the sum of the two before it; the prefix starts 0, 1. */
  lemma SumOfTwoBefore(n: int, i: int)
    requires 2 <= i < n
    ensures GenFibRecursive(n)[0] == 0 && GenFibRecursive(n)[1] == 1
    ensures GenFibRecursive(n)[i] == GenFibRecursive(n)[i - 1] + GenFibRecursive(n)[i - 2]
  {
    GenFibRecursiveIsFib(n);
  }

  /** gen_fib: the loop that appends the sum of the last two elements
      n - 2 times to [0, 1]. It yields the recursive generator's result. */
  method GenFib(n: int) returns (result: seq<nat>)
    ensures result == GenFibRecursive(n)
    ensures forall i :: 0 <= i < |result| ==> result[i] == Fib(i)
  {
    GenFibRecursiveIsFib(n);
    if n <= 0 {
      return [];
    }
    if n == 1 {
      return [0];
    }
    result := [0, 1];
    var k := 2;
    while k < n
      invariant 2 <= k <= n
      invariant |result| == k
      invariant forall i :: 0 <= i < k ==> result[i] == Fib(i)
    {
      var a, b := result[|result| - 2], result[|result| - 1];
      result := result + [a + b];
      k := k + 1;
    }
    assert forall i :: 0 <= i < n ==> result[i] == GenFibRecursive(n)[i];
  }
}
