/** Strategy 1 of lab-2: trial division and the search for the next prime. */
module Primes {
  import opened Arithmetic

  ghost predicate Prime(n: int)
  {
    n >= 2 && forall d :: 2 <= d < n ==> !Divides(d, n)
  }

  // ---------- trial division ----------

  /** Trial division of n gets as far as comparing d*d with n. */
  ghost predicate Tried(n: int, d: int)
  {
    2 <= d && forall e :: 2 <= e < d ==> Square(e) <= n && !Divides(e, n)
  }

  /** A proper divisor brings its cofactor, and one of the two is at most the root. */
  lemma Cofactor(n: int, k: int) returns (q: int)
    requires 2 <= k < n && Divides(k, n)
    ensures 2 <= q < n && Divides(q, n) && n == k * q
  {
    q := Quotient(k, n);
    if q <= 0 { MulMonotone(0, -q, k); }
    if q >= n { MulMonotone(2, k, q); }
    assert n == q * k;
    DividesProduct(q, k);
  }

  ghost predicate NoDivisorBelow(n: int, d: int)
  {
    forall e :: 2 <= e < d ==> !Divides(e, n)
  }

  /** Having no divisor up to the square root is having none at all. */
  lemma TriedToTheRoot(n: int, d: int)
    requires n >= 2 && d >= 2 && NoDivisorBelow(n, d) && d * d > n
    ensures Prime(n)
  {
    forall k | 2 <= k < n ensures !Divides(k, n) {
      if Divides(k, n) {
        var q := Cofactor(n, k);
        assert k >= d && q >= d;
        MulMonotone(d, k, d);
        MulMonotone(d, q, k);
      }
    }
  }

  /** The square of this number, wrapped to 64 bits, is 2^63 - 7. */
  const WRAPPED_ROOT: int := 2759374635167858507

  /** Trial division of n in 64 bits ends here at the latest: at a number whose wrapped square
      exceeds n, or for the few n too large for that, at a divisor of n. */
  function LastTried(n: int): int
  {
    if n < MAX_INT64 - 6 then WRAPPED_ROOT
    else if n == MAX_INT64 - 6 then 157
    else if n == MAX_INT64 - 4 then 3
    else if n == MAX_INT64 - 2 then 5
    else if n == MAX_INT64 then 7
    else 2
  }

  lemma DivisorNearTheTop(n: int)
    requires MAX_INT64 - 6 <= n <= MAX_INT64
    ensures Divides(LastTried(n), n) && 2 <= LastTried(n) <= 157
  {
  }

  lemma GuardFailsAtLastTried(n: int)
    requires 2 <= n < MAX_INT64 - 6
    ensures Wrap(WRAPPED_ROOT * WRAPPED_ROOT) > n
  {
    var k := (WRAPPED_ROOT * WRAPPED_ROOT) / TWO64;
    WrapShift(MAX_INT64 - 6, k);
  }

  /** The state of trial division: no divisor so far, and past the largest root only for numbers
      of at least its square. */
  ghost predicate Trying(n: int, d: int)
  {
    2 <= d <= LastTried(n) && NoDivisorBelow(n, d) && (d > ROOT ==> ROOT * ROOT <= n)
  }

  /** While the guard holds, d is a proper candidate, and the last one divides. */
  lemma GuardHolds(n: int, d: int)
    requires 2 <= n <= MAX_INT64 && Trying(n, d) && Wrap(d * d) <= n
    ensures d < n && (Divides(d, n) || Trying(n, d + 1))
  {
    if d <= ROOT {
      MulMonotone(2, d, d);
      SquareMonotone(d, ROOT);
    }
    if n < MAX_INT64 - 6 { GuardFailsAtLastTried(n); } else { DivisorNearTheTop(n); }
  }

  lemma GuardEnds(n: int, d: int)
    requires 2 <= n <= MAX_INT64 && 2 <= d && NoDivisorBelow(n, d) && Wrap(d * d) > n
    ensures Prime(n)
  {
    if d <= ROOT { SquareMonotone(d, ROOT); } else { SquareMonotone(ROOT + 1, d); }
    TriedToTheRoot(n, d);
  }

  /** Right for every 64-bit number, although the square in the guard wraps for large primes: a
      wrapped square only makes the loop longer, because by then no divisor can be left. */
  method IsPrime(n: int) returns (r: bool)
    requires Int64(n)
    ensures r <==> Prime(n)
  {
    if n < 2 {
      return false;
    }
    var d := 2;
    while Wrap(d * d) <= n
      invariant Trying(n, d)
      decreases LastTried(n) - d
    {
      GuardHolds(n, d);
      if n % d == 0 {
        assert Divides(d, n);
        return false;
      }
      d := d + 1;
    }
    GuardEnds(n, d);
    return true;
  }

  /** No square that trial division of n compares exceeds 64 bits. */
  ghost predicate TrialFits(n: int)
  {
    forall d :: Tried(n, d) ==> Square(d) <= MAX_INT64
  }

  /** Exactly when 64-bit trial division never overflows: no composite ever does, and a prime
      does not up to the square of the largest root. */
  lemma TrialSquaresFit(n: int)
    requires 2 <= n <= MAX_INT64
    ensures TrialFits(n) <==> n <= ROOT * ROOT || !Prime(n)
  {
    if n > ROOT * ROOT && Prime(n) {
      forall e | 2 <= e < ROOT + 1 ensures Square(e) <= n && !Divides(e, n) {
        SquareMonotone(e, ROOT);
      }
      assert Tried(n, ROOT + 1);
      assert Square(ROOT + 1) > MAX_INT64;
    } else {
      forall d | Tried(n, d) ensures Square(d) <= MAX_INT64 {
        if d > ROOT {
          assert Square(ROOT) <= n && !Divides(ROOT, n);
          if n <= ROOT * ROOT {
            DividesProduct(ROOT, ROOT);
          } else {
            var k :| 2 <= k < n && Divides(k, n);
            var q := Cofactor(n, k);
            assert k >= d && q >= d;
            MulMonotone(ROOT + 1, k, ROOT + 1);
            MulMonotone(ROOT + 1, q, k);
          }
        } else {
          SquareMonotone(d, ROOT);
        }
      }
    }
  }

  // ---------- there is always a larger prime ----------

  function Factorial(n: nat): (f: int)
    ensures f >= 1
  {
    if n == 0 then 1 else n * Factorial(n - 1)
  }

  lemma {:induction false} DividesFactorial(d: int, n: nat)
    requires 1 <= d <= n
    ensures Divides(d, Factorial(n))
  {
    if d == n {
      DividesProduct(d, Factorial(n - 1));
    } else {
      DividesFactorial(d, n - 1);
      DividesProduct(Factorial(n - 1), n);
      DividesTrans(d, Factorial(n - 1), Factorial(n));
    }
  }

  lemma {:induction false} PrimeDivisor(n: int) returns (p: int)
    requires n >= 2
    ensures Prime(p) && Divides(p, n)
    decreases n
  {
    if Prime(n) {
      p := n;
      DividesProduct(n, 1);
    } else {
      var d :| 2 <= d < n && Divides(d, n);
      p := PrimeDivisor(d);
      DividesTrans(p, d, n);
    }
  }

  /** Euclid's theorem. */
  lemma PrimeAbove(n: int) returns (p: int)
    ensures Prime(p) && p > n
  {
    var m: nat := if n < 1 then 1 else n;
    var f := Factorial(m);
    p := PrimeDivisor(f + 1);
    if p <= m {
      DividesFactorial(p, m);
      var k := Quotient(p, f);
      ModOfProduct(p, k, 1);
    }
  }

  // ---------- the search ----------

  /** p is the least prime above n. */
  ghost predicate NextPrimeIs(n: int, p: int)
  {
    Prime(p) && p > n && forall q :: n < q < p ==> !Prime(q)
  }

  lemma NextPrimeUnique(n: int, p: int, q: int)
    requires NextPrimeIs(n, p) && NextPrimeIs(n, q)
    ensures p == q
  {
  }

  /** Some prime above n fits in 64 bits. */
  ghost predicate PrimeLeft(n: int)
  {
    exists p :: n < p <= MAX_INT64 && Prime(p)
  }

  /** What the search for a prime above n comes to in 64 bits: the next prime if there is one,
      and otherwise, after wrapping around, the least prime of all. */
  ghost predicate SearchResult(n: int, r: int)
  {
    if PrimeLeft(n) then NextPrimeIs(n, r) else r == 2
  }

  lemma SearchWraps(n: int, next: int)
    requires Int64(n) && Int64(next)
    ensures Wrap(next + 1) == if next == MAX_INT64 then MIN_INT64 else next + 1
  {
    if next == MAX_INT64 { WrapShift(MIN_INT64, 1); }
  }

  lemma TwoIsPrime()
    ensures Prime(2) && forall p :: Prime(p) ==> p >= 2
  {
  }

  method Strategy1(str: int, a: int) returns (r: int)
    requires Int64(str) && Int64(a)
    ensures str <= a ==> r == -1
    ensures str > a ==> SearchResult(str, r)
  {
    if str <= a {
      return -1;
    }
    TwoIsPrime();
    SearchWraps(str, str);
    var next := Wrap(str + 1);
    while true
      invariant Int64(next)
      invariant next > str ==> forall q :: str < q < next ==> !Prime(q)
      invariant next <= str ==> !PrimeLeft(str) && next <= 2
      decreases if next > str then 1 else 0, MAX_INT64 - next
    {
      var prime := IsPrime(next);
      if prime {
        return next;
      }
      SearchWraps(str, next);
      next := Wrap(next + 1);
    }
  }

  ghost predicate CandidateFits(n: int)
  {
    n <= MAX_INT64 && (n >= 2 ==> TrialFits(n))
  }

  /** The search as a whole stays within 64 bits iff the next prime is at most the square of the
      largest root. */
  lemma SearchFits(str: int, p: int)
    requires Int64(str) && NextPrimeIs(str, p)
    ensures (forall n :: str < n <= p ==> CandidateFits(n)) <==> p <= ROOT * ROOT
  {
    RootBounds();
    if p <= ROOT * ROOT {
      forall n | str < n <= p && n >= 2 ensures CandidateFits(n) {
        TrialSquaresFit(n);
      }
    } else {
      if p <= MAX_INT64 { TrialSquaresFit(p); }
      assert !CandidateFits(p);
    }
  }

  ghost function NextPrime(n: int): (p: int)
    ensures NextPrimeIs(n, p)
  {
    assert exists p :: NextPrimeIs(n, p) by {
      var b := PrimeAbove(n);
      var p := LeastPrimeUpTo(n, b);
    }
    var p :| NextPrimeIs(n, p);
    p
  }

  lemma LeastPrimeUpTo(n: int, b: int) returns (p: int)
    requires Prime(b) && b > n
    ensures NextPrimeIs(n, p)
    decreases b - n
  {
    if q :| n < q < b && Prime(q) {
      p := LeastPrimeUpTo(n, q);
    } else {
      p := b;
    }
  }
}
