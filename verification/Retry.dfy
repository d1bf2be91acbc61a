/** lib/retry: attempts separated by exponentially growing, capped waits. */
module Retry {
  import opened Wrappers
  import opened Arithmetic

  const MAX_SHIFT: nat := 30

  /** The wait meant to follow call i. */
  function Intended(delay: int, i: nat): int
  {
    delay * Pow2(if i > MAX_SHIFT then MAX_SHIFT else i)
  }

  /** The first wait is the delay, each further one twice the one before, until after thirty
      doublings they stay. */
  lemma IntendedWaits(delay: int, i: nat)
    ensures Intended(delay, 0) == delay
    ensures i < 30 ==> Intended(delay, i + 1) == 2 * Intended(delay, i)
    ensures i >= 30 ==> Intended(delay, i) == delay * 1073741824
  {
    if i < 30 { assert Pow2(i + 1) == 2 * Pow2(i); }
    if i >= 30 { Pow2Cap(); }
  }

  /** The wait that 64-bit multiplication makes of it. */
  function Backoff(delay: int, i: nat): int
  {
    Wrap(Intended(delay, i))
  }

  datatype Failure<+E> = Failed(error: E) | Cancelled

  /** What the outside world does: the answer of the i-th call, and whether the context ends
      the i-th wait. */
  type Calls<!T, !E> = nat -> Result<T, E>
  type Cancels = nat -> bool

  /** The index of the last call: the first success, the last attempt, or the first call whose
      wait is cancelled. */
  function LastCall<T, E>(fn: Calls<T, E>, cancels: Cancels, attempts: nat, i: nat): (k: nat)
    requires i < attempts
    ensures i <= k < attempts
    ensures fn(k).Ok? || k == attempts - 1 || cancels(k)
    ensures forall j: nat :: i <= j < k ==> fn(j).Err? && !cancels(j)
    decreases attempts - i
  {
    if fn(i).Ok? || i == attempts - 1 || cancels(i) then i else LastCall(fn, cancels, attempts, i + 1)
  }

  function Waits(delay: int, n: nat): (w: seq<int>)
    ensures |w| == n && forall i: nat :: i < n ==> w[i] == Backoff(delay, i)
  {
    seq(n, i requires i >= 0 => Backoff(delay, i))
  }

  /** The result of a run that ends with call k. */
  function Ending<T, E>(fn: Calls<T, E>, attempts: nat, k: nat): Result<T, Failure<E>>
    requires k < attempts
  {
    match fn(k)
    case Ok(v) => Ok(v)
    case Err(e) => Err(if k == attempts - 1 then Failed(e) else Cancelled)
  }

  /** Get makes exactly the calls up to the last one and completes the waits between them. With
      no attempts allowed it calls nothing and still reports success. */
  method Get<T, E>(fn: Calls<T, E>, cancels: Cancels, attempts: int, delay: int, zero: T)
    returns (value: T, err: Option<Failure<E>>, calls: nat, waits: seq<int>)
    ensures attempts <= 0 ==> value == zero && err == None && calls == 0 && waits == []
    ensures attempts > 0 ==>
              var k := LastCall(fn, cancels, attempts, 0);
              && calls == k + 1 && waits == Waits(delay, k)
              && (match Ending(fn, attempts, k)
                  case Ok(v) => value == v && err == None
                  case Err(e) => value == zero && err == Some(e))
  {
    calls, waits := 0, [];
    var i := 0;
    while i < attempts
      invariant if attempts > 0 then 0 <= i < attempts else i == 0
      invariant calls == i && waits == Waits(delay, i)
      invariant attempts > 0 ==> LastCall(fn, cancels, attempts, i) == LastCall(fn, cancels, attempts, 0)
      decreases attempts - i
    {
      var result := fn(i);
      calls := calls + 1;
      if result.Ok? {
        return result.value, None, calls, waits;
      }
      if i == attempts - 1 {
        return zero, Some(Failed(result.error)), calls, waits;
      }
      if cancels(i) {
        return zero, Some(Cancelled), calls, waits;
      }
      waits := waits + [Backoff(delay, i)];
      i := i + 1;
    }
    return zero, None, calls, waits;
  }

  /** A function that only returns an error, seen as one that also returns nothing. */
  function AsCalls<E>(errors: nat -> Option<E>): Calls<(), E>
  {
    (i: nat) => match errors(i) case None => Ok(()) case Some(e) => Err(e)
  }

  method Do<E>(errors: nat -> Option<E>, cancels: Cancels, attempts: int, delay: int)
    returns (err: Option<Failure<E>>, calls: nat, waits: seq<int>)
    ensures attempts <= 0 ==> err == None && calls == 0 && waits == []
    ensures attempts > 0 ==>
              var k := LastCall(AsCalls(errors), cancels, attempts, 0);
              && calls == k + 1 && waits == Waits(delay, k)
              && err == (match Ending(AsCalls(errors), attempts, k) case Ok(_) => None case Err(e) => Some(e))
  {
    ghost var fn := AsCalls(errors);
    calls, waits := 0, [];
    var i := 0;
    while i < attempts
      invariant if attempts > 0 then 0 <= i < attempts else i == 0
      invariant calls == i && waits == Waits(delay, i)
      invariant attempts > 0 ==> LastCall(fn, cancels, attempts, i) == LastCall(fn, cancels, attempts, 0)
      decreases attempts - i
    {
      var e := errors(i);
      calls := calls + 1;
      if e == None {
        return None, calls, waits;
      } else if i == attempts - 1 {
        return Some(Failed(e.value)), calls, waits;
      }
      if cancels(i) {
        return Some(Cancelled), calls, waits;
      }
      waits := waits + [Backoff(delay, i)];
      i := i + 1;
    }
    return None, calls, waits;
  }

  /** Do is Get without the value: on the same answers and the same cancellations it ends with
      the same call and the same failure. */
  lemma {:induction false} DoAgreesWithGet<T, E>(fn: Calls<T, E>, errors: nat -> Option<E>, cancels: Cancels,
                                                 attempts: nat, i: nat)
    requires forall j: nat :: errors(j) == match fn(j) case Ok(_) => None case Err(e) => Some(e)
    requires i < attempts
    ensures var k := LastCall(fn, cancels, attempts, i);
            && LastCall(AsCalls(errors), cancels, attempts, i) == k
            && match Ending(fn, attempts, k)
               case Ok(_) => Ending(AsCalls(errors), attempts, k) == Ok(())
               case Err(e) => Ending(AsCalls(errors), attempts, k) == Err(e)
    decreases attempts - i
  {
    assert AsCalls(errors)(i).Ok? <==> fn(i).Ok?;
    if !(fn(i).Ok? || i == attempts - 1 || cancels(i)) {
      DoAgreesWithGet(fn, errors, cancels, attempts, i + 1);
    }
  }

  /** The call count and outcome in one statement: at most the allowed attempts, nothing after a
      success, and a failure of the function itself only when every attempt failed. */
  lemma RunLaw<T, E>(fn: Calls<T, E>, cancels: Cancels, attempts: nat)
    requires attempts > 0
    ensures var k := LastCall(fn, cancels, attempts, 0);
            && k + 1 <= attempts
            && (forall j: nat :: j < k ==> fn(j).Err? && !cancels(j))
            && (Ending(fn, attempts, k).Ok? <==>
                  exists j: nat :: j < attempts && fn(j).Ok? && forall l: nat :: l < j ==> fn(l).Err? && !cancels(l))
            && (Ending(fn, attempts, k).Err? && Ending(fn, attempts, k).error.Failed? <==>
                  (forall j: nat :: j < attempts ==> fn(j).Err?) && forall j: nat :: j < attempts - 1 ==> !cancels(j))
  {
    var k := LastCall(fn, cancels, attempts, 0);
    if Ending(fn, attempts, k).Ok? {
      assert k < attempts && fn(k).Ok? && forall l: nat :: l < k ==> fn(l).Err? && !cancels(l);
    }
    if j: nat :| j < attempts && fn(j).Ok? && forall l: nat :: l < j ==> fn(l).Err? && !cancels(l) {
      assert k == j;
    }
    if (forall j: nat :: j < attempts ==> fn(j).Err?) && forall j: nat :: j < attempts - 1 ==> !cancels(j) {
      assert fn(k).Err?;
    }
  }

  // ---------- the waits ----------

  function Total(waits: seq<int>): int
  {
    if waits == [] then 0 else Total(waits[..|waits| - 1]) + waits[|waits| - 1]
  }

  /** The sum of the first n multipliers: doubling up to the cap, linear after it. */
  function Geometric(n: nat): int
  {
    if n <= MAX_SHIFT + 1 then Pow2(n) - 1
    else Pow2(MAX_SHIFT + 1) - 1 + (n - MAX_SHIFT - 1) * Pow2(MAX_SHIFT)
  }

  /** The first n waits are the intended ones. */
  ghost predicate AllFit(delay: int, n: nat)
  {
    forall i: nat :: i < n ==> Int64(Intended(delay, i))
  }

  lemma WrapsTowardsZero(x: int)
    ensures x >= 0 ==> Wrap(x) <= x
    ensures x <= 0 ==> Wrap(x) >= x
    ensures Wrap(x) == x <==> Int64(x)
  {
  }

  lemma IntendedSign(delay: int, i: nat)
    ensures if delay >= 0 then Intended(delay, i) >= 0 else Intended(delay, i) <= 0
  {
    var p := Pow2(if i > MAX_SHIFT then MAX_SHIFT else i);
    MulMonotone(1, p, if delay < 0 then -delay else delay);
  }

  lemma SumStep(delay: int, n: nat)
    requires n > 0
    ensures delay * Geometric(n) == delay * Geometric(n - 1) + Intended(delay, n - 1)
  {
    GeometricStep(n - 1);
    Distribute(delay, Geometric(n - 1), Pow2(if n - 1 > MAX_SHIFT then MAX_SHIFT else n - 1));
  }

  /** The time spent waiting has its closed form exactly when no wait wraps; otherwise it falls
      short of it. */
  lemma {:induction false} TotalWait(delay: int, n: nat)
    ensures Total(Waits(delay, n)) == delay * Geometric(n) <==> AllFit(delay, n)
    ensures delay >= 0 ==> Total(Waits(delay, n)) <= delay * Geometric(n)
    ensures delay <= 0 ==> Total(Waits(delay, n)) >= delay * Geometric(n)
  {
    if n > 0 {
      TotalWait(delay, n - 1);
      LastWait(delay, n);
      SumStep(delay, n);
      IntendedSign(delay, n - 1);
      WrapsTowardsZero(Intended(delay, n - 1));
      assert AllFit(delay, n) <==> AllFit(delay, n - 1) && Int64(Intended(delay, n - 1));
    }
  }

  /** A run in which every attempt fails and nothing is cancelled makes every allowed call, ends
      with the last error, and waits for the closed form of all but the last attempt exactly when
      no wait wraps. */
  lemma FullyFailedRun<T, E>(fn: Calls<T, E>, cancels: Cancels, attempts: nat, delay: int)
    requires attempts > 0 && forall j: nat :: j < attempts ==> fn(j).Err?
    requires forall j: nat :: j < attempts - 1 ==> !cancels(j)
    ensures var k := LastCall(fn, cancels, attempts, 0);
            && k == attempts - 1
            && Ending(fn, attempts, k) == Err(Failed(fn(attempts - 1).error))
            && (Total(Waits(delay, k)) == delay * Geometric(attempts - 1) <==> AllFit(delay, k))
  {
    RunLaw(fn, cancels, attempts);
    TotalWait(delay, attempts - 1);
  }

  lemma LastWait(delay: int, n: nat)
    requires n > 0
    ensures Total(Waits(delay, n)) == Total(Waits(delay, n - 1)) + Backoff(delay, n - 1)
  {
    assert Waits(delay, n)[..n - 1] == Waits(delay, n - 1);
  }

  lemma GeometricStep(n: nat)
    ensures Geometric(n + 1) == Geometric(n) + Pow2(if n > MAX_SHIFT then MAX_SHIFT else n)
  {
    var p := Pow2(MAX_SHIFT);
    if n > MAX_SHIFT {
      Distribute(p, n - MAX_SHIFT - 1, 1);
    }
  }

  lemma {:induction false} Pow2Monotone(m: nat, n: nat)
    requires m <= n
    ensures Pow2(m) <= Pow2(n)
    decreases n - m
  {
    if m < n { Pow2Monotone(m, n - 1); }
  }

  lemma Pow2Cap()
    ensures Pow2(MAX_SHIFT) == 0x4000_0000
  {
    assert Pow2(5) == 32;
    PowSum(5, 5);
    PowSum(10, 10);
    PowSum(20, 10);
  }

  lemma IntendedGrows(delay: int, i: nat)
    requires delay > 0
    ensures 0 < Intended(delay, i) <= Intended(delay, i + 1) <= Intended(delay, MAX_SHIFT)
    ensures Intended(delay, i + 1) <= 2 * Intended(delay, i)
  {
    var a, b := if i > MAX_SHIFT then MAX_SHIFT else i, if i + 1 > MAX_SHIFT then MAX_SHIFT else i + 1;
    Pow2Monotone(a, b);
    Pow2Monotone(b, MAX_SHIFT);
    MulMonotone(1, Pow2(a), delay);
    MulMonotone(Pow2(a), Pow2(b), delay);
    MulMonotone(Pow2(b), Pow2(MAX_SHIFT), delay);
    if b > a { Distribute(delay, Pow2(a), Pow2(a)); }
  }

  lemma {:induction false} IntendedMonotone(delay: int, i: nat, j: nat)
    requires delay > 0 && i <= j
    ensures Intended(delay, i) <= Intended(delay, j)
    decreases j - i
  {
    if i < j {
      IntendedMonotone(delay, i, j - 1);
      IntendedGrows(delay, j - 1);
    }
  }

  /** The first wait that does not fit comes out negative. */
  lemma {:induction false} FirstWrapIsNegative(delay: int, n: nat) returns (i: nat)
    requires 0 < delay <= MAX_INT64 && !AllFit(delay, n)
    ensures i < n && Backoff(delay, i) < 0
  {
    if !AllFit(delay, n - 1) {
      i := FirstWrapIsNegative(delay, n - 1);
    } else {
      i := n - 1;
      var x := Intended(delay, i);
      IntendedGrows(delay, i);
      assert x > MAX_INT64;
      if i > 0 { IntendedGrows(delay, i - 1); } else { assert Intended(delay, 0) == delay; }
      WrapShift(x, -1);
    }
  }

  /** The waits of a run with a positive delay are the intended ones exactly when all are
      positive, which shows in the last; then they never shrink. Whatever the number of attempts,
      this is so iff the delay is below 2^33 nanoseconds. */
  lemma WaitsFit(delay: int, n: nat)
    requires 0 < delay <= MAX_INT64
    ensures AllFit(delay, n) <==> forall i: nat :: i < n ==> Backoff(delay, i) > 0
    ensures AllFit(delay, n) <==> n == 0 || Intended(delay, n - 1) <= MAX_INT64
    ensures AllFit(delay, n) ==> forall i: nat, j: nat :: i <= j < n ==> Backoff(delay, i) <= Backoff(delay, j)
    ensures (forall m: nat :: AllFit(delay, m)) <==> delay < 0x2_0000_0000
  {
    forall i: nat, j: nat | i <= j ensures 0 < Intended(delay, i) <= Intended(delay, j) {
      IntendedGrows(delay, i);
      IntendedMonotone(delay, i, j);
    }
    if !AllFit(delay, n) { var i := FirstWrapIsNegative(delay, n); }
    AlwaysFit(delay);
  }

  lemma AlwaysFit(delay: int)
    requires delay > 0
    ensures (forall m: nat :: AllFit(delay, m)) <==> delay < 0x2_0000_0000
  {
    Pow2Cap();
    assert Intended(delay, MAX_SHIFT) == delay * 0x4000_0000;
    forall i: nat ensures 0 < Intended(delay, i) <= Intended(delay, MAX_SHIFT) {
      IntendedGrows(delay, i);
    }
    if delay >= 0x2_0000_0000 { assert !AllFit(delay, MAX_SHIFT + 1); }
  }
}
