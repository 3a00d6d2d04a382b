/** How tall a balanced tree can be, and so how long any search can take. */
module AvlBounds {
  import opened AvlShape

  ghost function Fib(n: nat): nat {
    if n < 2 then n else Fib(n - 1) + Fib(n - 2)
  }

  ghost function Pow2(n: nat): nat {
    if n == 0 then 1 else 2 * Pow2(n - 1)
  }

  lemma {:induction false} FibMonotone(n: nat)
    ensures Fib(n) <= Fib(n + 1)
  {
    if n >= 2 {
      FibMonotone(n - 1);
      FibMonotone(n - 2);
    }
  }

  lemma {:induction false} FibSum(a: nat, b: nat)
    requires -1 <= a - b <= 1
    ensures Fib(a + 2) + Fib(b + 2) >= Fib(1 + Max(a, b) + 2)
  {
    var m := Max(a, b);
    FibMonotone(m + 1);
    assert Fib(m + 3) == Fib(m + 2) + Fib(m + 1);
    if a == b {
    } else if a < b {
      assert a + 2 == m + 1;
    } else {
      assert b + 2 == m + 1;
    }
  }

  /** A balanced tree of height `h` has at least Fib(h + 2) - 1 entries. */
  lemma {:induction false} FibonacciBound<R, K>(t: Tree<R, K>)
    requires Balanced(t)
    ensures Size(t) >= Fib(Height(t) + 2) - 1
  {
    if t.Node? {
      FibonacciBound(t.left);
      FibonacciBound(t.right);
      var a, b := Height(t.left), Height(t.right);
      FibSum(a, b);
      assert Height(t) == 1 + Max(a, b);
    }
  }

  lemma {:induction false} FibIsExponential(h: nat)
    ensures Pow2((h + 1) / 2) <= Fib(h + 2)
  {
    if h >= 2 {
      FibIsExponential(h - 2);
      FibMonotone(h);
      assert (h + 1) / 2 == (h - 1) / 2 + 1;
    } else {
      assert Fib(2) == 1 && Fib(3) == 2;
    }
  }

  /** So 2^(h/2) never exceeds the length plus one: the height is logarithmic in the length. */
  lemma {:induction false} HeightIsLogarithmic<R, K>(t: Tree<R, K>)
    requires Balanced(t)
    ensures Pow2((Height(t) + 1) / 2) <= Size(t) + 1
  {
    FibonacciBound(t);
    FibIsExponential(Height(t));
  }

  ghost function Depth<R, K>(c: Ctx<R, K>): nat {
    if c.Top? then 0 else Depth(c.up) + 1
  }

  /** No path into a tree is longer than the tree is tall. */
  lemma {:induction false} DepthBound<R, K>(c: Ctx<R, K>, t: Tree<R, K>)
    ensures Depth(c) + Height(t) <= Height(Plug(c, t))
  {
    match c
    case Top =>
    case InLeft(up, n, k, rk, b, r) => DepthBound(up, Node(t, n, k, rk, b, r));
    case InRight(up, l, n, k, rk, b) => DepthBound(up, Node(l, n, k, rk, b, t));
  }

  /** Every descent, however it chooses its way, visits at most logarithmically many nodes. */
  lemma {:induction false} DescentIsLogarithmic<R, K>(c: Ctx<R, K>, t: Tree<R, K>)
    requires Balanced(Plug(c, t))
    ensures Pow2((Depth(c) + 1) / 2) <= Size(Plug(c, t)) + 1
  {
    DepthBound(c, t);
    HeightIsLogarithmic(Plug(c, t));
    Pow2Monotone((Depth(c) + 1) / 2, (Height(Plug(c, t)) + 1) / 2);
  }

  lemma {:induction false} Pow2Monotone(m: nat, n: nat)
    requires m <= n
    ensures Pow2(m) <= Pow2(n)
  {
    if m < n { Pow2Monotone(m, n - 1); }
  }
}
