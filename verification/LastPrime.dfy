/** The largest prime that fits in 64 signed bits is 2^63 - 25: the numbers above it have small
    divisors, and its own primality has a certificate, an element of large order. */
module LastPrime {
  import opened Arithmetic
  import opened Sequences
  import opened Primes

  const LAST_PRIME: int := 9223372036854775783

  /** An element of order 23 * 456065899 modulo the last prime, and its power of order 23. */
  const ELEMENT: int := 9037108385932984056
  const ROOT_OF_23: int := 7493285870978321352

  // ---------- powers modulo n ----------

  function Power(a: int, k: nat, n: int): (p: int)
    requires n >= 2
    ensures 0 <= p < n
  {
    if k == 0 then 1 else (Power(a, k - 1, n) * a) % n
  }

  /** A factor may be reduced before multiplying. */
  lemma ModTimes(x: int, y: int, n: int)
    requires n >= 2
    ensures (x * (y % n)) % n == (x * y) % n
    ensures ((y % n) * x) % n == (x * y) % n
  {
    var q, r := y / n, y % n;
    Split(x, y, n, q, r);
    SameRest(x * y, x * r, x * q, n);
  }

  lemma Split(x: int, y: int, n: int, q: int, r: int)
    requires y == n * q + r
    ensures x * y == n * (x * q) + x * r
  {
    Distribute(x, n * q, r);
    assert x * (n * q) == n * (x * q);
  }

  lemma SameRest(u: int, v: int, k: int, n: int)
    requires n >= 2 && u == n * k + v
    ensures u % n == v % n
  {
    var s, t := v / n, v % n;
    Distribute(n, k, s);
    ModOfProduct(n, k + s, t);
  }

  lemma ModAssoc(x: int, y: int, a: int, n: int)
    requires n >= 2
    ensures (((x * y) % n) * a) % n == (x * ((y * a) % n)) % n
  {
    ModTimes(a, x * y, n);
    ModTimes(x, y * a, n);
    assert a * (x * y) == x * (y * a);
  }

  lemma ModSmall(x: int, n: int)
    requires 0 <= x < n
    ensures x % n == x
  {
  }

  lemma {:induction false} PowerSum(a: int, i: nat, j: nat, n: int)
    requires n >= 2
    ensures Power(a, i + j, n) == (Power(a, i, n) * Power(a, j, n)) % n
  {
    var x := Power(a, i, n);
    if j == 0 {
      ModSmall(x, n);
    } else {
      PowerSum(a, i, j - 1, n);
      ModAssoc(x, Power(a, j - 1, n), a, n);
    }
  }

  lemma {:induction false} PowerProduct(a: int, i: nat, j: nat, k: int, n: int)
    requires n >= 2 && k == i * j
    ensures k >= 0 && Power(a, k, n) == Power(Power(a, i, n), j, n)
    decreases j
  {
    if j > 0 {
      Distribute(i, j - 1, 1);
      PowerProduct(a, i, j - 1, k - i, n);
      PowerSum(a, k - i, i, n);
    }
  }

  /** Powers repeat once they return to one. */
  lemma PowerRepeats(a: int, m: nat, k: nat, n: int)
    requires n >= 2 && Power(a, m, n) == 1
    ensures Power(a, m + k, n) == Power(a, k, n)
  {
    PowerSum(a, m, k, n);
    ModSmall(Power(a, k, n), n);
  }

  lemma {:induction false} PowerOfOne(t: nat, n: int)
    requires n >= 2
    ensures Power(1, t, n) == 1
  {
    if t > 0 {
      PowerOfOne(t - 1, n);
      ModSmall(1, n);
      assert Power(1, t, n) == (Power(1, t - 1, n) * 1) % n;
    }
  }

  lemma PowerPeriod(a: int, m: nat, t: nat, r: nat, k: int, n: int)
    requires n >= 2 && Power(a, m, n) == 1 && k == m * t + r
    ensures k >= 0 && Power(a, k, n) == Power(a, r, n)
  {
    PowerProduct(a, m, t, k - r, n);
    PowerOfOne(t, n);
    PowerRepeats(a, k - r, r, n);
  }

  /** Powers modulo a divisor d of n are those modulo n, reduced. */
  lemma {:induction false} PowerReduced(a: int, k: nat, n: int, d: int)
    requires n >= 2 && d >= 2 && Divides(d, n)
    ensures Power(a, k, d) == Power(a, k, n) % d
  {
    if k == 0 {
      ModSmall(1, d);
    } else {
      var x := Power(a, k - 1, n);
      PowerReduced(a, k - 1, n, d);
      ModTimes(a, x, d);
      ModReduced(x * a, n, d);
    }
  }

  lemma ModReduced(x: int, n: int, d: int)
    requires n >= 2 && d >= 2 && Divides(d, n)
    ensures (x % n) % d == x % d
  {
    var k := Quotient(d, n);
    var q, r := x / n, x % n;
    var s, t := r / d, r % d;
    assert x == d * (k * q + s) + t by {
      assert x == n * q + r && n * q == d * (k * q) && r == d * s + t;
      Distribute(d, k * q, s);
    }
    ModOfProduct(d, k * q + s, t);
  }

  // ---------- the order of an element ----------

  /** m is the least positive exponent that takes a to one. */
  ghost predicate Order(a: int, m: nat, n: int)
    requires n >= 2
  {
    m >= 1 && Power(a, m, n) == 1 && forall k :: 1 <= k < m ==> Power(a, k, n) != 1
  }

  lemma {:induction false} OrderUpTo(a: int, k: nat, n: int) returns (m: nat)
    requires n >= 2 && k >= 1 && Power(a, k, n) == 1
    ensures Order(a, m, n) && m <= k
    decreases k
  {
    if i :| 1 <= i < k && Power(a, i, n) == 1 { m := OrderUpTo(a, i, n); } else { m := k; }
  }

  lemma OrderDivides(a: int, m: nat, k: nat, n: int)
    requires n >= 2 && Order(a, m, n) && Power(a, k, n) == 1
    ensures Divides(m, k)
  {
    var t, r := QuotientAndRest(m, k);
    PowerPeriod(a, m, t, r, k, n);
  }

  lemma QuotientAndRest(m: nat, k: nat) returns (t: nat, r: nat)
    requires m >= 1
    ensures k == m * t + r && r < m && r == k % m
  {
    t, r := k / m, k % m;
  }

  lemma PowersDiffer(a: int, n: int, m: nat, i: nat, j: nat)
    requires n >= 2 && Order(a, m, n) && i < j < m
    ensures Power(a, i, n) != Power(a, j, n)
  {
    PowerSum(a, i, m - j, n);
    PowerSum(a, j, m - j, n);
    assert 1 <= i + (m - j) < m;
  }

  lemma PowerNotZero(a: int, n: int, m: nat, k: nat)
    requires n >= 2 && Power(a, m, n) == 1 && k <= m
    ensures Power(a, k, n) >= 1
  {
    PowerSum(a, k, m - k, n);
    ZeroTimes(Power(a, m - k, n), n);
  }

  lemma ZeroTimes(x: int, n: int)
    requires n >= 2
    ensures (0 * x) % n == 0
  {
    assert 0 * x == 0;
  }

  /** An element's powers up to its order are different residues, none of them zero. */
  lemma OrderIsSmall(a: int, m: nat, n: int)
    requires n >= 2 && Order(a, m, n)
    ensures m <= n - 1
  {
    forall k: nat | k < m ensures Power(a, k, n) >= 1 {
      PowerNotZero(a, n, m, k);
    }
    var s: seq<nat> := seq(m, k requires 0 <= k < m => Power(a, k, n) - 1);
    forall i, j | 0 <= i < j < |s| ensures s[i] != s[j] {
      PowersDiffer(a, n, m, i, j);
    }
    DistinctFits(s, n - 1);
  }

  /** b inverts x - 1 modulo n, so x is not one modulo any divisor of n. */
  predicate NotOne(x: int, b: int, n: int)
    requires n >= 2
  {
    ((x - 1) * b) % n == 1
  }

  lemma NotOneBelow(x: int, b: int, n: int, d: int)
    requires n >= 2 && d >= 2 && Divides(d, n) && NotOne(x, b, n)
    ensures x % d != 1
  {
    if x % d == 1 {
      var k := Quotient(d, n);
      var l, q := x / d, ((x - 1) * b) / n;
      assert x - 1 == d * l;
      NoUnit(d, l, b, k, q);
    }
  }

  lemma NoUnit(d: int, l: int, b: int, k: int, q: int)
    requires d >= 2
    ensures (d * l) * b != (d * k) * q + 1
  {
    var u, v := l * b, k * q;
    Regroup(d, l, b);
    assert (d * l) * b == d * u && (d * k) * q == d * v;
    Distribute(d, u, -v);
    if u - v >= 1 { MulMonotone(1, u - v, d); }
    if u - v <= -1 { MulMonotone(1, v - u, d); }
  }

  ghost predicate Apart(a: int, e: int, n: int)
    requires n >= 2
  {
    e >= 0 && exists b :: NotOne(Power(a, e, n), b, n)
  }

  /** a has order size modulo n and all its divisors: it returns to one there, and for no prime
      divisor r of size does it return after size / r steps. */
  ghost predicate LargeOrder(a: int, size: nat, n: int)
    requires n >= 2
  {
    && Power(a, size, n) == 1
    && forall r :: Prime(r) && Divides(r, size) ==> Apart(a, size / r, n)
  }

  lemma OrderBelow(a: int, size: nat, n: int, d: int)
    requires n >= 2 && d >= 2 && Divides(d, n) && size >= 1 && LargeOrder(a, size, n)
    ensures Order(a, size, d)
  {
    PowerReduced(a, size, n, d);
    ModSmall(1, d);
    var m := OrderUpTo(a, size, d);
    OrderDivides(a, m, size, d);
    if m < size { NotBefore(a, m, size, n, d); }
  }

  /** A proper divisor m of size leaves out some prime factor r of it. */
  lemma LeavesOut(m: nat, size: nat) returns (r: int, s: nat)
    requires 1 <= m < size && Divides(m, size)
    ensures Prime(r) && Divides(r, size) && size / r == m * s
  {
    var t := Quotient(m, size);
    CofactorAboveOne(m, t, size);
    r := PrimeDivisor(t);
    var k := Quotient(r, t);
    CofactorPositive(r, k, t);
    s := k;
    Regroup(m, r, s);
    DividesProduct(r, m * s);
    QuotientIs(r, m * s, size);
  }

  lemma Regroup(m: int, r: int, s: int)
    ensures m * (r * s) == r * (m * s)
  {
  }

  lemma NotBefore(a: int, m: nat, size: nat, n: int, d: int)
    requires n >= 2 && d >= 2 && Divides(d, n) && LargeOrder(a, size, n)
    requires 1 <= m < size && Divides(m, size)
    ensures Power(a, m, d) != 1
  {
    var r, s := LeavesOut(m, size);
    var e := size / r;
    assert Apart(a, e, n);
    var b :| NotOne(Power(a, e, n), b, n);
    NotOneBelow(Power(a, e, n), b, n, d);
    PowerReduced(a, e, n, d);
    if Power(a, m, d) == 1 { PowerPeriod(a, m, s, 0, e, d); }
  }

  lemma CofactorAboveOne(m: int, t: int, k: int)
    requires 1 <= m < k && k == m * t
    ensures t >= 2
  {
    if t <= 1 { MulMonotone(0, 1 - t, m); }
  }

  lemma CofactorPositive(q: int, s: int, t: int)
    requires q >= 1 && t >= 1 && t == q * s
    ensures s >= 1
  {
    if s < 1 { MulMonotone(0, -s, q); }
  }

  lemma QuotientIs(q: int, k: int, n: int)
    requires q >= 1 && n == q * k
    ensures n / q == k
  {
    ModOfProduct(q, k, 0);
    var l := n / q;
    assert n == q * l;
    if l < k { MulMonotone(1, k - l, q); }
    if k < l { MulMonotone(1, l - k, q); }
  }

  /** Every divisor of n exceeds the order; so if the order passes the root, n is prime. */
  lemma LargeOrderPrime(a: int, size: nat, n: int)
    requires n >= 2 && size >= 1 && LargeOrder(a, size, n) && (size + 1) * (size + 1) > n
    ensures Prime(n)
  {
    forall d | 2 <= d < size + 1 ensures !Divides(d, n) {
      if Divides(d, n) {
        OrderBelow(a, size, n, d);
        OrderIsSmall(a, size, d);
      }
    }
    TriedToTheRoot(n, size + 1);
  }

  // ---------- Euclid's lemma ----------

  lemma {:induction false} EuclidBelow(p: int, a: int, b: int)
    requires Prime(p) && 1 <= a < p && Divides(p, a * b)
    ensures Divides(p, b)
    decreases a
  {
    if a > 1 {
      var k, r := p / a, p % a;
      assert p == a * k + r && !Divides(a, p);
      var t := Quotient(p, a * b);
      assert r * b == p * (b - k * t) by {
        assert r * b == (p - a * k) * b == p * b - k * (a * b) == p * b - k * (p * t);
      }
      DividesProduct(p, b - k * t);
      EuclidBelow(p, r, b);
    }
  }

  lemma Euclid(p: int, a: int, b: int)
    requires Prime(p) && Divides(p, a * b)
    ensures Divides(p, a) || Divides(p, b)
  {
    var r, q := a % p, a / p;
    if r != 0 {
      var t := Quotient(p, a * b);
      assert r * b == p * (t - q * b) by {
        assert a == p * q + r;
        assert r * b == (a - p * q) * b == a * b - p * (q * b);
      }
      DividesProduct(p, t - q * b);
      EuclidBelow(p, r, b);
    }
  }

  lemma PrimeOfPrime(r: int, p: int)
    requires Prime(r) && Prime(p) && Divides(r, p)
    ensures r == p
  {
    if r > p { ModSmall(p, r); }
  }

  /** A prime that divides a product of two primes is one of them. */
  lemma PrimeOfTwo(r: int, p: int, q: int)
    requires Prime(r) && Prime(p) && Prime(q) && Divides(r, p * q)
    ensures r == p || r == q
  {
    Euclid(r, p, q);
    if Divides(r, p) { PrimeOfPrime(r, p); } else { PrimeOfPrime(r, q); }
  }

  lemma WithoutFactor(r: int, p: int, q: int, size: int)
    requires Prime(r) && Prime(p) && Prime(q) && size == p * q && Divides(r, size)
    ensures size / r == q || size / r == p
  {
    PrimeOfTwo(r, p, q);
    if r == p { QuotientIs(p, q, size); } else { QuotientIs(q, p, size); }
  }

  /** For an exponent with two prime factors there are two powers to look at. */
  lemma PrimeByTwo(a: int, p: int, q: int, size: nat, n: int)
    requires n >= 2 && Prime(p) && Prime(q) && size == p * q && size >= 1 && (size + 1) * (size + 1) > n
    requires Power(a, size, n) == 1 && Apart(a, p, n) && Apart(a, q, n)
    ensures Prime(n)
  {
    forall r | Prime(r) && Divides(r, size) ensures Apart(a, size / r, n) {
      WithoutFactor(r, p, q, size);
    }
    LargeOrderPrime(a, size, n);
  }

  // ---------- the certificate ----------

  /** y is x^4 * a^d, reduced. */
  predicate NextFour(x: int, a: int, d: nat, y: int, n: int)
    requires n >= 2
  {
    y == if d == 0 then (x * x * x * x) % n
         else if d == 1 then (x * x * x * x * a) % n
         else if d == 2 then (x * x * x * x * a * a) % n
         else (x * x * x * x * a * a * a) % n
  }

  /** P(k, x) is meant to say that the k-th power is x; all the steps need to know of it. */
  type Claim = (int, int) -> bool

  ghost predicate Closed(P: Claim, a: int, n: int)
    requires n >= 2
  {
    && P(0, 1)
    && forall k, x, d: nat, y :: k >= 0 && d < 4 && P(k, x) && NextFour(x, a, d, y, n) ==> P(4 * k + d, y)
  }

  /** Repeated squaring, two bits of the exponent at a time. */
  lemma Step(P: Claim, k: nat, x: int, d: nat, y: int, a: int, n: int)
    requires n >= 2 && Closed(P, a, n) && P(k, x) && d < 4 && NextFour(x, a, d, y, n)
    ensures P(4 * k + d, y)
  {
  }

  function PowerIs(a: int, n: int): Claim
    requires n >= 2
  {
    (k, x) => k >= 0 && Power(a, k, n) == x
  }

  lemma PowersAreClosed(a: int, n: int)
    requires n >= 2
    ensures Closed(PowerIs(a, n), a, n)
  {
    forall k, x, d: nat, y | k >= 0 && d < 4 && PowerIs(a, n)(k, x) && NextFour(x, a, d, y, n)
      ensures PowerIs(a, n)(4 * k + d, y)
    {
      FourthPower(a, k, x, n);
    }
  }

  lemma FourthPower(a: int, k: nat, x: int, n: int)
    requires n >= 2 && Power(a, k, n) == x
    ensures forall d: nat, y :: d < 4 && NextFour(x, a, d, y, n) ==> Power(a, 4 * k + d, n) == y
  {
    var f := x * x * x * x;
    FourFold(a, k, x, n);
    NextPower(a, 4 * k, f, n);
    NextPower(a, 4 * k + 1, f * a, n);
    NextPower(a, 4 * k + 2, f * a * a, n);
  }

  lemma FourFold(a: int, k: nat, x: int, n: int)
    requires n >= 2 && Power(a, k, n) == x
    ensures Power(a, 4 * k, n) == (x * x * x * x) % n
  {
    PowerSum(a, k, k, n);
    PowerSum(a, 2 * k, 2 * k, n);
    SquareMod(x * x, n);
    FourFactors(x);
  }

  lemma SquareMod(z: int, n: int)
    requires n >= 2
    ensures ((z % n) * (z % n)) % n == (z * z) % n
  {
    ModTimes(z % n, z, n);
    ModTimes(z, z, n);
  }

  lemma FourFactors(x: int)
    ensures (x * x) * (x * x) == x * x * x * x
  {
  }

  lemma NextPower(a: int, k: nat, z: int, n: int)
    requires n >= 2
    ensures Power(a, k, n) == z % n ==> Power(a, k + 1, n) == (z * a) % n
  {
    ModTimes(a, z, n);
  }

  /** An element of prime order, with the inverse that certifies it. */
  lemma PrimeByOrder(a: int, q: int, b: int, n: int)
    requires 1 <= a < n && Prime(q) && Power(a, q, n) == 1 && NotOne(a, b, n) && (q + 1) * (q + 1) > n
    ensures Prime(n)
  {
    ModSmall(a, n);
    assert Power(a, 1, n) == (Power(a, 0, n) * a) % n == a;
    forall r | Prime(r) && Divides(r, q) ensures Apart(a, q / r, n) {
      PrimeOfPrime(r, q);
      QuotientIs(q, 1, q);
    }
    LargeOrderPrime(a, q, n);
  }

  lemma Prime23()
    ensures Prime(23)
  {
    TriedToTheRoot(23, 5);
  }

  lemma Prime269()
    ensures Prime(269)
  {
    TriedToTheRoot(269, 17);
  }

  lemma Chain2153(P: Claim)
    requires Closed(P, 256, 2153)
    ensures P(269, 1)
  {
    Step(P, 0, 1, 1, 256, 256, 2153);
    Step(P, 1, 256, 0, 1421, 256, 2153);
    Step(P, 4, 1421, 0, 1327, 256, 2153);
    Step(P, 16, 1327, 3, 538, 256, 2153);
    Step(P, 67, 538, 1, 1, 256, 2153);
  }

  lemma Prime2153()
    ensures Prime(2153)
  {
    Prime269();
    PowersAreClosed(256, 2153);
    Chain2153(PowerIs(256, 2153));
    assert NotOne(256, 743, 2153) by { Inverse2153(); }
    PrimeByOrder(256, 269, 743, 2153);
  }

  lemma Inverse2153()
    ensures NotOne(256, 743, 2153)
  {
  }

  lemma Chain51673(P: Claim)
    requires Closed(P, 35164, 51673)
    ensures P(2153, 1)
  {
    Step(P, 0, 1, 2, 23679, 35164, 51673);
    Step(P, 2, 23679, 0, 37890, 35164, 51673);
    Step(P, 8, 37890, 1, 51463, 35164, 51673);
    Step(P, 33, 51463, 2, 14804, 35164, 51673);
    Step(P, 134, 14804, 2, 33103, 35164, 51673);
    Step(P, 538, 33103, 1, 1, 35164, 51673);
  }

  lemma Prime51673()
    ensures Prime(51673)
  {
    Prime2153();
    PowersAreClosed(35164, 51673);
    Chain51673(PowerIs(35164, 51673));
    assert NotOne(35164, 37736, 51673) by { Inverse51673(); }
    PrimeByOrder(35164, 2153, 37736, 51673);
  }

  lemma Inverse51673()
    ensures NotOne(35164, 37736, 51673)
  {
  }

  lemma Chain456065899(P: Claim)
    requires Closed(P, 97832956, 456065899)
    ensures P(51673, 1)
  {
    Step(P, 0, 1, 3, 354827620, 97832956, 456065899);
    Step(P, 3, 354827620, 0, 426874561, 97832956, 456065899);
    Step(P, 12, 426874561, 2, 385424244, 97832956, 456065899);
    Step(P, 50, 385424244, 1, 367632338, 97832956, 456065899);
    Step(P, 201, 367632338, 3, 418814353, 97832956, 456065899);
    Step(P, 807, 418814353, 1, 271631401, 97832956, 456065899);
    Step(P, 3229, 271631401, 2, 400283464, 97832956, 456065899);
    Step(P, 12918, 400283464, 1, 1, 97832956, 456065899);
  }

  lemma Prime456065899()
    ensures Prime(456065899)
  {
    Prime51673();
    PowersAreClosed(97832956, 456065899);
    Chain456065899(PowerIs(97832956, 456065899));
    assert NotOne(97832956, 35785179, 456065899) by { Inverse456065899(); }
    PrimeByOrder(97832956, 51673, 35785179, 456065899);
  }

  lemma Inverse456065899()
    ensures NotOne(97832956, 35785179, 456065899)
  {
  }

  lemma ChainAtLarge(P: Claim)
    requires Closed(P, ELEMENT, LAST_PRIME)
    ensures P(456065899, ROOT_OF_23)
  {
    Step(P, 0, 1, 1, 9037108385932984056, ELEMENT, LAST_PRIME);
    Step(P, 1, 9037108385932984056, 2, 4958095656598868084, ELEMENT, LAST_PRIME);
    Step(P, 6, 4958095656598868084, 3, 360274701767954963, ELEMENT, LAST_PRIME);
    Step(P, 27, 360274701767954963, 0, 96530379626858348, ELEMENT, LAST_PRIME);
    Step(P, 108, 96530379626858348, 2, 5093989458794704410, ELEMENT, LAST_PRIME);
    Step(P, 434, 5093989458794704410, 3, 8084103701680613233, ELEMENT, LAST_PRIME);
    Step(P, 1739, 8084103701680613233, 3, 3779674668077988774, ELEMENT, LAST_PRIME);
    Step(P, 6959, 3779674668077988774, 0, 4827714471010109880, ELEMENT, LAST_PRIME);
    Step(P, 27836, 4827714471010109880, 0, 6813699125644738588, ELEMENT, LAST_PRIME);
    Step(P, 111344, 6813699125644738588, 0, 1064511898722976884, ELEMENT, LAST_PRIME);
    Step(P, 445376, 1064511898722976884, 3, 5308381413141648368, ELEMENT, LAST_PRIME);
    Step(P, 1781507, 5308381413141648368, 1, 8669222073799819537, ELEMENT, LAST_PRIME);
    Step(P, 7126029, 8669222073799819537, 2, 257867920032367439, ELEMENT, LAST_PRIME);
    Step(P, 28504118, 257867920032367439, 2, 5968129720791187153, ELEMENT, LAST_PRIME);
    Step(P, 114016474, 5968129720791187153, 3, 7493285870978321352, ELEMENT, LAST_PRIME);
  }

  lemma ChainAtSmall(P: Claim)
    requires Closed(P, ELEMENT, LAST_PRIME)
    ensures P(23, 7815640543853371697)
  {
    Step(P, 0, 1, 1, 9037108385932984056, ELEMENT, LAST_PRIME);
    Step(P, 1, 9037108385932984056, 1, 274914132444887071, ELEMENT, LAST_PRIME);
    Step(P, 5, 274914132444887071, 3, 7815640543853371697, ELEMENT, LAST_PRIME);
  }

  lemma ChainAtRoot(P: Claim)
    requires Closed(P, ROOT_OF_23, LAST_PRIME)
    ensures P(23, 1)
  {
    Step(P, 0, 1, 1, 7493285870978321352, ROOT_OF_23, LAST_PRIME);
    Step(P, 1, 7493285870978321352, 1, 6273752642400252023, ROOT_OF_23, LAST_PRIME);
    Step(P, 5, 6273752642400252023, 3, 1, ROOT_OF_23, LAST_PRIME);
  }

  lemma Inverses()
    ensures NotOne(ROOT_OF_23, 8147993896161700657, LAST_PRIME)
    ensures NotOne(7815640543853371697, 4199225739633976919, LAST_PRIME)
  {
  }

  lemma ElementOrder()
    ensures Power(ELEMENT, 10489515677, LAST_PRIME) == 1
    ensures Apart(ELEMENT, 23, LAST_PRIME) && Apart(ELEMENT, 456065899, LAST_PRIME)
  {
    PowersAreClosed(ELEMENT, LAST_PRIME);
    PowersAreClosed(ROOT_OF_23, LAST_PRIME);
    ChainAtLarge(PowerIs(ELEMENT, LAST_PRIME));
    ChainAtSmall(PowerIs(ELEMENT, LAST_PRIME));
    ChainAtRoot(PowerIs(ROOT_OF_23, LAST_PRIME));
    PowerProduct(ELEMENT, 456065899, 23, 10489515677, LAST_PRIME);
    Inverses();
  }

  lemma LastPrimeIsPrime()
    ensures Prime(LAST_PRIME)
  {
    Prime23();
    Prime456065899();
    ElementOrder();
    PrimeByTwo(ELEMENT, 23, 456065899, 10489515677, LAST_PRIME);
  }

  // ---------- which searches succeed ----------

  /** The numbers above the last prime have small divisors. */
  lemma NoPrimeAbove(n: int)
    requires LAST_PRIME < n <= MAX_INT64
    ensures !Prime(n)
  {
    var k := MAX_INT64 - n;
    assert k % 2 == 1 ==> Divides(2, n);
    assert k % 6 == 4 ==> Divides(3, n);
    assert k == 2 || k == 12 ==> Divides(5, n);
    assert k == 0 || k == 14 ==> Divides(7, n);
    assert k == 6 ==> Divides(157, n);
    assert k == 8 ==> Divides(17, n);
    assert k == 18 ==> Divides(11, n);
    assert k == 20 ==> Divides(13, n);
  }

  /** A prime is left above n in 64 bits iff n is below the last one. */
  lemma PrimeLeftIff(n: int)
    ensures PrimeLeft(n) <==> n < LAST_PRIME
  {
    LastPrimeIsPrime();
    if PrimeLeft(n) && n >= LAST_PRIME {
      var p :| n < p <= MAX_INT64 && Prime(p);
      NoPrimeAbove(p);
    }
  }
}
