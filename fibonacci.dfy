/** Fibonacci numbers computed recursively with a memo table shared by all the calls. */
module Fibonacci {

  /** The mathematical Fibonacci sequence. */
  function Fib(n: nat): nat
  {
    if n == 0 then 0 else if n == 1 then 1 else Fib(n - 1) + Fib(n - 2)
  }

  /** Every entry of the memo table holds the Fibonacci number of its key. */
  ghost predicate MemoCorrect(memo: map<nat, int>)
  {
    forall k :: k in memo ==> memo[k] == Fib(k)
  }

  /**
   * `fibonacci(n, memo)`. The table is updated in place in the source; here the
   * updated table is returned. A hit returns the stored entry and changes
   * nothing; a miss for n >= 2 stores the computed value under n. Entries already
   * present are never overwritten, and new entries appear only for keys 2..n.
   * With a correct table the result is Fib(n) and the table stays correct.
   */
  method Fibonacci(n: nat, memo: map<nat, int>) returns (r: int, memo': map<nat, int>)
    ensures n in memo ==> r == memo[n] && memo' == memo
    ensures n >= 2 ==> n in memo' && memo'[n] == r
    ensures forall k :: k in memo ==> k in memo' && memo'[k] == memo[k]
    ensures forall k :: k in memo' && k !in memo ==> 2 <= k <= n
    ensures MemoCorrect(memo) ==> r == Fib(n) && MemoCorrect(memo')
  {
    if n in memo {
      return memo[n], memo;
    }
    if n == 0 {
      return 0, memo;
    }
    if n == 1 {
      return 1, memo;
    }
    var a, m1 := Fibonacci(n - 1, memo);
    var b, m2 := Fibonacci(n - 2, m1);
    r := a + b;
    memo' := m2[n := r];
  }
}
