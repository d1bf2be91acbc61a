/** Strategy 3 of lab-2: the search for the next Fibonacci number. */
module Fibonacci {
  import opened Arithmetic

  function Fib(k: nat): (f: int)
    ensures f >= 0 && (k >= 1 ==> f >= 1)
  {
    if k < 2 then k else Fib(k - 2) + Fib(k - 1)
  }

  /** The largest Fibonacci number below 2^63 is number 92. */
  const FIB92: int := 7540113804746346429

  lemma {:induction false} FibMonotone(i: nat, j: nat)
    requires 1 <= i <= j
    ensures Fib(i) <= Fib(j)
    decreases j - i
  {
    if i < j { FibMonotone(i, j - 1); }
  }

  /** Two steps at least double. */
  lemma {:induction false} FibGrows(m: nat)
    ensures Fib(2 * m + 1) >= Pow2(m)
  {
    if m > 0 {
      FibGrows(m - 1);
      assert Fib(2 * m + 1) == Fib(2 * m - 1) + Fib(2 * m);
      FibMonotone(2 * m - 1, 2 * m);
    }
  }

  /** r is the least positive-index Fibonacci number above n. */
  ghost predicate NextFibIs(n: int, r: int)
  {
    && r > n
    && (exists k: nat :: k >= 1 && Fib(k) == r)
    && (forall j: nat :: j >= 1 && Fib(j) > n ==> r <= Fib(j))
  }

  lemma NextFibUnique(n: int, r: int, s: int)
    requires NextFibIs(n, r) && NextFibIs(n, s)
    ensures r == s
  {
  }

  lemma NextFibFound(n: int, k: nat)
    requires Fib(k + 1) > n && (k > 0 ==> Fib(k) <= n)
    ensures NextFibIs(n, Fib(k + 1))
  {
    forall j: nat | j >= 1 && Fib(j) > n ensures Fib(k + 1) <= Fib(j) {
      if j <= k { FibMonotone(j, k); } else { FibMonotone(k + 1, j); }
    }
  }

  // ---------- 64 bits ----------

  function Cross(m: nat, n: nat): int
  {
    Fib(m + 1) * Fib(n + 1) + Fib(m) * Fib(n)
  }

  lemma CrossShift(m: nat, n: nat)
    requires n > 0
    ensures Cross(m, n) == Cross(m + 1, n - 1)
  {
    FibSum(m + 2);
    FibSum(n + 1);
    CrossValues(m, n, Fib(m + 1), Fib(n - 1), Fib(n), Fib(m));
    CrossValues(m + 1, n - 1, Fib(m + 2), Fib(n - 1), Fib(n), Fib(m + 1));
    Combine(Fib(m + 1), Fib(n - 1), Fib(n), Fib(m));
  }

  lemma CrossValues(m: nat, n: nat, a: int, b: int, c: int, d: int)
    requires Fib(m + 1) == a && Fib(m) == d
    ensures Fib(n) == c && Fib(n + 1) == b + c ==> Cross(m, n) == a * (b + c) + d * c
    ensures Fib(n) == b && Fib(n + 1) == c ==> Cross(m, n) == a * c + d * b
  {
  }

  lemma {:induction false} FibAdd(m: nat, n: nat)
    ensures Fib(m + n + 1) == Cross(m, n)
    decreases n
  {
    if n > 0 {
      FibAdd(m + 1, n - 1);
      CrossShift(m, n);
    }
  }

  lemma FibSum(k: nat)
    requires k >= 2
    ensures Fib(k) == Fib(k - 2) + Fib(k - 1)
  {
  }

  lemma Combine(a: int, b: int, c: int, d: int)
    ensures (d + a) * c + a * b == a * (b + c) + d * c
  {
    Distribute(a, b, c);
    Distribute(c, d, a);
  }

  /** Doubling: from (F(n), F(n+1)) to (F(2n), F(2n+1)). */
  lemma FibDouble(n: nat, f: int, g: int)
    requires Fib(n) == f && Fib(n + 1) == g
    ensures Fib(2 * n) == f * (2 * g - f) && Fib(2 * n + 1) == g * g + f * f
  {
    FibAdd(n, n);
    if n > 0 {
      FibAdd(n - 1, n);
      FibSum(n + 1);
      DoubleForm(f, g, Fib(n - 1));
    }
  }

  lemma DoubleForm(f: int, g: int, h: int)
    requires g == h + f
    ensures f * g + h * f == f * (2 * g - f)
  {
    Distribute(f, g, h);
    assert 2 * g - f == g + h;
  }

  lemma FibNumber92()
    ensures Fib(92) == FIB92 && Fib(93) == 12200160415121876738
  {
    assert Fib(2) == 1 && Fib(3) == 2;
    assert Fib(5) == 5 && Fib(6) == 8;
    FibDouble(5, 5, 8);
    assert Fib(11) == 89 && Fib(12) == 144;
    FibDouble(11, 89, 144);
    assert Fib(23) == 28657 && Fib(24) == 46368;
    FibDouble(23, 28657, 46368);
    FibDouble(46, 1836311903, 2971215073);
  }

  /** The sums the loop computes for str all fit in 64 bits iff str is below F(92). */
  lemma SumsFit(str: int)
    ensures (forall k: nat :: Fib(k + 1) <= str ==> Fib(k) + Fib(k + 1) <= MAX_INT64) <==> str < FIB92
  {
    FibNumber92();
    if str < FIB92 {
      forall k: nat | Fib(k + 1) <= str ensures Fib(k) + Fib(k + 1) <= MAX_INT64 {
        if k + 1 >= 92 { FibMonotone(92, k + 1); }
        assert Fib(k + 2) == Fib(k) + Fib(k + 1);
        FibMonotone(k + 2, 92);
      }
    } else {
      var k := 91;
      assert Fib(k + 1) <= str;
      assert Fib(k) + Fib(k + 1) == Fib(93);
    }
  }

  // ---------- the loop in 64 bits ----------

  /** What the loop holds in place of the k-th Fibonacci number. */
  function Wrapped(k: nat): (w: int)
    ensures Int64(w)
  {
    Wrap(Fib(k))
  }

  /** Each step of the doubling takes (F(m), F(m+1)) = (4pu, 1 + 2pv), with x = pu, y = pv and
      v odd, to the same form with 2p; h is half of p. */
  lemma DoubledForm(p: int, h: int, u: int, v: int, x: int, y: int) returns (u': int, v': int)
    requires p == 2 * h && v % 2 == 1 && x == p * u && y == p * v
    ensures v' % 2 == 1
    ensures (4 * x) * (2 * (1 + 2 * y) - 4 * x) == 8 * (p * u')
    ensures (1 + 2 * y) * (1 + 2 * y) + (4 * x) * (4 * x) == 1 + 4 * (p * v')
  {
    u' := u * (1 + 2 * y - 2 * x);
    v' := v + v * y + 4 * (u * x);
    StaysOdd(h, v, y, u * x);
    ScaledForm(p, u, v, x, y);
    Squares(x, y);
  }

  lemma StaysOdd(h: int, v: int, y: int, z: int)
    requires v % 2 == 1 && y == (2 * h) * v
    ensures (v + v * y + 4 * z) % 2 == 1
  {
    var e := v * (h * v);
    assert v * y == 2 * e;
  }

  lemma ScaledForm(p: int, u: int, v: int, x: int, y: int)
    requires x == p * u && y == p * v
    ensures p * (u * (1 + 2 * y - 2 * x)) == x * (1 + 2 * y - 2 * x)
    ensures p * (v + v * y + 4 * (u * x)) == y + y * y + 4 * (x * x)
  {
    Regroup(p, u, 1 + 2 * y - 2 * x);
    Regroup(p, v, y);
    Regroup(p, u, x);
    Distribute(p, v, v * y + 4 * (u * x));
    Distribute(p, v * y, 4 * (u * x));
    Regroup(4, p, u * x);
    Regroup(p, 4, u * x);
  }

  lemma Regroup(p: int, u: int, x: int)
    ensures p * (u * x) == (p * u) * x
  {
  }

  lemma Squares(x: int, y: int)
    ensures (4 * x) * (2 * (1 + 2 * y) - 4 * x) == 8 * (x * (1 + 2 * y - 2 * x))
    ensures (1 + 2 * y) * (1 + 2 * y) + (4 * x) * (4 * x) == 1 + 4 * (y + y * y + 4 * (x * x))
  {
    var d := 1 + 2 * y - 2 * x;
    assert 2 * (1 + 2 * y) - 4 * x == 2 * d;
    assert (4 * x) * (2 * d) == 8 * (x * d);
  }

  /** The numbers around index 3 * 2^k agree with F(0) and F(1) up to powers of two. */
  lemma {:induction false} AroundTriple(k: nat) returns (u: int, v: int)
    requires k >= 1
    ensures v % 2 == 1
    ensures Fib(3 * Pow2(k)) == 4 * (Pow2(k) * u) && Fib(3 * Pow2(k) + 1) == 1 + 2 * (Pow2(k) * v)
  {
    if k == 1 {
      u, v := 1, 3;
      assert Pow2(1) == 2 * Pow2(0) == 2;
      assert Fib(6) == 8 && Fib(7) == 13;
    } else {
      var s, t := AroundTriple(k - 1);
      var p := Pow2(k - 1);
      u, v := DoubledForm(p, Pow2(k - 2), s, t, p * s, p * t);
      FibDouble(3 * p, 4 * (p * s), 1 + 2 * (p * t));
      Regroup(2, p, u);
      Regroup(2, p, v);
    }
  }

  lemma PowersOfTwo()
    ensures Pow2(62) == 0x4000_0000_0000_0000
  {
    assert Pow2(5) == 32;
    PowSum(5, 5);
    PowSum(10, 10);
    PowSum(20, 10);
    PowSum(30, 30);
    PowSum(60, 2);
    assert Pow2(2) == 4;
  }

  /** The wrapped sequence reaches the largest 64-bit number. */
  lemma LargestIsReached() returns (k: nat)
    ensures k >= 1 && Wrapped(k) == MAX_INT64
  {
    var u, v := AroundTriple(62);
    PowersOfTwo();
    k := 3 * Pow2(62) - 2;
    TwoBefore(k, u, v);
  }

  lemma TwoBefore(k: nat, u: int, v: int)
    requires v % 2 == 1
    requires Fib(k + 2) == TWO64 * u && Fib(k + 3) == 1 + 0x8000_0000_0000_0000 * v
    ensures Wrapped(k) == MAX_INT64
  {
    FibSum(k + 2);
    FibSum(k + 3);
    var t := v / 2;
    assert v == 2 * t + 1;
    assert Fib(k) == MAX_INT64 + TWO64 * (2 * u - t - 1);
    WrapShift(MAX_INT64, 2 * u - t - 1);
  }

  /** r is the first wrapped number above n, at index k. */
  ghost predicate FirstAbove(n: int, r: int, k: nat)
  {
    k >= 1 && Wrapped(k) == r > n && forall j :: 1 <= j < k ==> Wrapped(j) <= n
  }

  /** What the loop for n stops with; there is no such number for the largest n, for which the
      loop never ends. */
  ghost predicate LoopResult(n: int, r: int)
  {
    exists k: nat :: FirstAbove(n, r, k)
  }

  lemma LoopResultUnique(n: int, r: int, s: int)
    requires LoopResult(n, r) && LoopResult(n, s)
    ensures r == s
  {
    var k: nat :| FirstAbove(n, r, k);
    var l: nat :| FirstAbove(n, s, l);
  }

  lemma {:induction false} FirstAboveUpTo(n: int, k: nat) returns (j: nat)
    requires k >= 1 && Wrapped(k) > n
    ensures FirstAbove(n, Wrapped(j), j)
    decreases k
  {
    if i :| 1 <= i < k && Wrapped(i) > n { j := FirstAboveUpTo(n, i); } else { j := k; }
  }

  /** The loop ends exactly for the numbers below the largest. */
  lemma LoopEnds(n: int)
    requires Int64(n)
    ensures (exists r :: LoopResult(n, r)) <==> n < MAX_INT64
  {
    if n < MAX_INT64 {
      var k := LargestIsReached();
      var j := FirstAboveUpTo(n, k);
      assert LoopResult(n, Wrapped(j));
    }
  }

  /** What the loop stops with is the next Fibonacci number iff n is below F(92). */
  lemma LoopResultRight(n: int, r: int)
    requires Int64(n) && LoopResult(n, r)
    ensures NextFibIs(n, r) <==> n < FIB92
  {
    var k: nat :| FirstAbove(n, r, k);
    FibNumber92();
    if n < FIB92 {
      FitsBelow(n, k);
      assert Fib(k) == r;
      if k >= 2 {
        assert Wrapped(k - 1) <= n;
        FitsBelow(n, k - 1);
      }
      if k == 1 { NextFibFound(n, 0); } else { NextFibFound(n, k - 1); }
    } else if NextFibIs(n, r) {
      NextFibTooLarge(n, r);
    }
  }

  /** From F(92) on the next Fibonacci number does not fit. */
  lemma NextFibTooLarge(n: int, r: int)
    requires FIB92 <= n && NextFibIs(n, r)
    ensures r > MAX_INT64
  {
    FibNumber92();
    var k: nat :| k >= 1 && Fib(k) == r;
    if k <= 92 { FibMonotone(k, 92); } else { FibMonotone(93, k); }
  }

  /** Up to the first index at which the sequence exceeds n < F(92) nothing has wrapped. */
  lemma FitsBelow(n: int, k: nat)
    requires n < FIB92 && k >= 1 && forall j :: 1 <= j < k ==> Wrapped(j) <= n
    ensures Wrapped(k) == Fib(k) <= FIB92
  {
    FibNumber92();
    assert Wrapped(92) == FIB92;
    if k <= 92 { FibMonotone(k, 92); }
  }

  /** With 64-bit sums the loop ends for every input but the largest, and what it returns is the
      first wrapped number above the input: the next Fibonacci number exactly below F(92), and
      then after logarithmically many rounds. */
  method Strategy3(str: int, a: int) returns (r: int, ghost rounds: nat)
    requires Int64(str) && Int64(a) && (str <= a || str < MAX_INT64)
    ensures str <= a ==> r == -1
    ensures str > a ==> LoopResult(str, r)
    ensures str > a ==> (NextFibIs(str, r) <==> str < FIB92)
    ensures str > a && str < FIB92 && rounds > 0 ==> Pow2((rounds - 1) / 2) <= str
  {
    rounds := 0;
    if str <= a {
      return -1, 0;
    }
    ghost var last := LargestIsReached();
    var f0, f1 := 0, 1;
    while f1 <= str
      invariant f0 == Wrapped(rounds) && f1 == Wrapped(rounds + 1)
      invariant rounds < last
      invariant forall j :: 1 <= j <= rounds ==> Wrapped(j) <= str
      decreases last - rounds
    {
      WrappedSum(rounds);
      f0, f1 := f1, Wrap(f0 + f1);
      rounds := rounds + 1;
    }
    assert FirstAbove(str, f1, rounds + 1);
    LoopResultRight(str, f1);
    FewRounds(str, rounds);
    return f1, rounds;
  }

  lemma WrappedSum(k: nat)
    ensures Wrap(Wrapped(k) + Wrapped(k + 1)) == Wrapped(k + 2)
  {
    WrapSum(Fib(k), Fib(k + 1));
    FibSum(k + 2);
  }

  lemma FewRounds(n: int, rounds: nat)
    requires forall j :: 1 <= j <= rounds ==> Wrapped(j) <= n
    ensures n < FIB92 && rounds > 0 ==> Pow2((rounds - 1) / 2) <= n
  {
    if n >= FIB92 || rounds == 0 { return; }
    FitsBelow(n, rounds);
    assert Fib(rounds) <= n;
    var m := (rounds - 1) / 2;
    FibGrows(m);
    FibMonotone(2 * m + 1, rounds);
  }

  // ---------- the next Fibonacci number ----------

  ghost function NextFib(n: int): (r: int)
    ensures NextFibIs(n, r)
  {
    assert exists r :: NextFibIs(n, r) by {
      var m: nat := if n < 0 then 0 else n;
      var k := FibAbove(n, 0);
      NextFibFound(n, k);
    }
    var r :| NextFibIs(n, r);
    r
  }

  lemma FibAbove(n: int, k: nat) returns (j: nat)
    requires k > 0 ==> Fib(k) <= n
    ensures Fib(j + 1) > n && (j > 0 ==> Fib(j) <= n)
    decreases 2 * n + 1 - Fib(k) - Fib(k + 1)
  {
    if Fib(k + 1) > n { j := k; } else { j := FibAbove(n, k + 1); }
  }
}
