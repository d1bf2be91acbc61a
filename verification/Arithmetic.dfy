/** The few facts about products and remainders that the strategies rest on. */
module Arithmetic {

  const MAX_INT64: int := 0x7fff_ffff_ffff_ffff
  const MIN_INT64: int := -0x8000_0000_0000_0000
  const TWO64: int := 0x1_0000_0000_0000_0000

  predicate Int64(x: int) { MIN_INT64 <= x <= MAX_INT64 }

  /** What a 64-bit signed operation stores when its mathematical result is x. */
  function Wrap(x: int): (r: int)
    ensures Int64(r)
    ensures Int64(x) ==> r == x
  {
    (x - MIN_INT64) % TWO64 + MIN_INT64
  }

  /** Wrapping forgets exactly the multiples of 2^64. */
  lemma WrapShift(x: int, k: int)
    ensures Wrap(x + TWO64 * k) == Wrap(x)
  {
    var y := x - MIN_INT64;
    assert x + TWO64 * k - MIN_INT64 == TWO64 * (y / TWO64 + k) + y % TWO64;
    ModOfProduct(TWO64, y / TWO64 + k, y % TWO64);
  }

  lemma WrapQuotient(x: int) returns (k: int)
    ensures Wrap(x) == x + TWO64 * k
  {
    k := -((x - MIN_INT64) / TWO64);
  }

  /** So it does not matter whether the operands of a sum were wrapped before. */
  lemma WrapSum(x: int, y: int)
    ensures Wrap(Wrap(x) + Wrap(y)) == Wrap(x + y)
  {
    var k := WrapQuotient(x);
    var l := WrapQuotient(y);
    WrapShift(x + y, k + l);
  }

  /** The largest integer whose square fits in 64 signed bits. */
  const ROOT: int := 3037000499

  function Square(x: int): int { x * x }

  predicate Divides(d: int, n: int)
  {
    d != 0 && n % d == 0
  }

  lemma MulMonotone(a: int, b: int, c: int)
    requires 0 <= a <= b && 0 <= c
    ensures a * c <= b * c && c * a <= c * b
  {
  }

  lemma Distribute(a: int, b: int, c: int)
    ensures a * (b + c) == a * b + a * c
  {
  }

  function Pow2(n: nat): (p: int)
    ensures p >= 1
  {
    if n == 0 then 1 else 2 * Pow2(n - 1)
  }

  lemma {:induction false} PowSum(m: nat, n: nat)
    ensures Pow2(m + n) == Pow2(m) * Pow2(n)
  {
    if m > 0 { PowSum(m - 1, n); }
  }

  lemma SquareMonotone(a: int, b: int)
    requires 0 <= a && 0 <= b
    ensures a <= b <==> a * a <= b * b
    ensures a < b <==> a * a < b * b
  {
    if a < b {
      MulMonotone(a, b, a);
      assert b * b == a * b + (b - a) * b;
      assert (b - a) * b > 0;
    } else {
      MulMonotone(b, a, b);
      MulMonotone(b, a, a);
    }
  }

  lemma RootBounds()
    ensures ROOT * ROOT <= MAX_INT64 < (ROOT + 1) * (ROOT + 1)
  {
  }

  lemma DividesProduct(d: int, k: int)
    requires d != 0
    ensures Divides(d, d * k)
  {
    ModOfProduct(d, k, 0);
  }

  lemma ModOfProduct(d: int, k: int, r: int)
    requires d != 0 && 0 <= r < if d < 0 then -d else d
    ensures (d * k + r) % d == r
  {
    var n := d * k + r;
    SmallMultiple(d, k - n / d, n % d - r);
  }

  /** A multiple of d smaller than d in size is zero. */
  lemma SmallMultiple(d: int, q: int, m: int)
    requires d != 0 && m == d * q
    requires -(if d < 0 then -d else d) < m < if d < 0 then -d else d
    ensures m == 0
  {
    var e, p := if d < 0 then -d else d, if q < 0 then -q else q;
    assert m == e * p || m == -(e * p);
    if p >= 1 { MulMonotone(1, p, e); }
  }

  lemma Quotient(d: int, n: int) returns (k: int)
    requires Divides(d, n)
    ensures n == d * k
  {
    k := n / d;
  }

  lemma DividesTrans(a: int, b: int, c: int)
    requires Divides(a, b) && Divides(b, c)
    ensures Divides(a, c)
  {
    var k := Quotient(a, b);
    var l := Quotient(b, c);
    assert c == a * (k * l);
    DividesProduct(a, k * l);
  }
}
