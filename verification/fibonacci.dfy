/** Fibonacci numbers computed two ways: by the iterative loop, and by
    recursion memoised in a splay tree that is threaded through the calls.
    Both return n itself for every n < 2, negative n included. */
module Fibonacci {
  import opened Wrappers
  import opened SplayTree

  function Fib(n: int): int
    decreases n
  {
    if n < 2 then n else Fib(n - 1) + Fib(n - 2)
  }

  /** The memo invariant: every stored (k, v) has v = Fib(k). */
  predicate MemoizesFib(t: Tree)
  {
    forall b | b in InOrder(t) :: b.1 == Fib(b.0)
  }

  /** The loop body of the iterative version: after the step for i, the pair
      (a, b) holds (Fib(i - 1), Fib(i)). */
  method FibIterative(n: int) returns (r: int)
    ensures r == Fib(n)
  {
    if n < 2 {
      return n;
    }
    var a, b := 0, 1;
    var i := 2;
    while i <= n
      invariant 2 <= i <= n + 1
      invariant a == Fib(i - 2) && b == Fib(i - 1)
    {
      a, b := b, a + b;
      i := i + 1;
    }
    return b;
  }

  /** A fresh, empty memo tree. */
  function ResetSplayTree(): (t: Tree)
    ensures IsBst(t) && MemoizesFib(t) && Keys(t) == {}
  {
    Leaf
  }

  /** Memoised Fibonacci: consult the tree for n; on a miss compute Fib(n - 1)
      and then Fib(n - 2) through the same tree, and store the result. Given a
      tree that satisfies the memo invariant, the answer is Fib(n) whatever
      the tree held before, the invariant is kept, nothing stored is lost, and
      n is stored afterwards. */
  function FibSplay(n: int, t: Tree): (r: (int, Tree))
    requires IsBst(t) && MemoizesFib(t)
    ensures r.0 == Fib(n)
    ensures IsBst(r.1) && MemoizesFib(r.1)
    ensures Keys(t) <= Keys(r.1) && n in Keys(r.1)
    decreases n
  {
    var found := Search(t, n);
    var t0 := found.0;
    if found.1.Some? then
      (found.1.value, t0)
    else if n < 2 then
      (n, Insert(t0, n, n))
    else
      var first := FibSplay(n - 1, t0);
      var second := FibSplay(n - 2, first.1);
      var result := first.0 + second.0;
      (result, Insert(second.1, n, result))
  }
}
