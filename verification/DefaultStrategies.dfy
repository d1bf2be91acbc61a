/** The table of strategies lab-2 runs by default, and what a run with it prints. */
module DefaultStrategies {
  import opened Text
  import opened Arithmetic
  import opened Pipeline
  import opened Wrappers
  import FileReading
  import Sorting
  import Primes
  import LastPrime
  import Fibonacci
  import Pythagoras
  import PipelineRuns

  // ---------- the triangle line ----------

  /** x and y are the legs the search reports: x is the smallest possible leg. */
  ghost predicate SmallestLegs(x: int, y: int, hyp: int)
  {
    Pythagoras.Legs(x, y, hyp) && forall u, v :: Pythagoras.Legs(u, v, hyp) ==> x <= u
  }

  lemma SmallestLegsUnique(x: int, y: int, u: int, v: int, hyp: int)
    requires SmallestLegs(x, y, hyp) && SmallestLegs(u, v, hyp)
    ensures x == u && y == v
  {
    assert x == u;
    SquareMonotone(y, v);
    SquareMonotone(v, y);
  }

  lemma SmallestLegsBelow(u: int, v: int, hyp: int) returns (x: int, y: int)
    requires Pythagoras.Legs(u, v, hyp)
    ensures SmallestLegs(x, y, hyp)
    decreases u
  {
    if s, t :| Pythagoras.Legs(s, t, hyp) && s < u {
      x, y := SmallestLegsBelow(s, t, hyp);
    } else {
      x, y := u, v;
    }
  }

  function TripleText(x: int, y: int, hyp: int): string
  {
    Itoa(x) + ("² + " + (Itoa(y) + ("² = " + Itoa(hyp) + "²")))
  }

  function NoTripleText(hyp: int): string { Itoa(hyp) + " is not a hypotenuse" }

  /** A line shows its legs, and whether there are any. */
  lemma TripleInjective(x: int, y: int, u: int, v: int, hyp: int)
    requires TripleText(x, y, hyp) == TripleText(u, v, hyp)
    ensures x == u && y == v
  {
    var end := "² = " + Itoa(hyp) + "²";
    var s, t := Itoa(y) + end, Itoa(v) + end;
    NotNumeric("² + " + s, '²');
    NotNumeric("² + " + t, '²');
    NotNumeric(end, '²');
    NumberThenText(x, "² + " + s, u, "² + " + t);
    assert ("² + " + s)[4..] == s && ("² + " + t)[4..] == t;
    NumberThenText(y, end, v, end);
  }

  lemma {:induction false} NotNumeric(s: string, c: char)
    requires s != "" && s[0] == c && (c == '²' || c == ' ')
    ensures !Numeric(s[..1])
  {
    assert s[..1][0] == c;
  }

  lemma TripleIsNotNone(x: int, y: int, hyp: int)
    ensures TripleText(x, y, hyp) != NoTripleText(hyp)
  {
    var s, t := "² + " + (Itoa(y) + ("² = " + Itoa(hyp) + "²")), " is not a hypotenuse";
    NotNumeric(s, '²');
    NotNumeric(t, ' ');
    assert s[0] != t[0];
    if TripleText(x, y, hyp) == NoTripleText(hyp) { NumberThenText(x, s, hyp, t); }
  }

  /** What there is to say about hyp: its triangle with the smallest leg, or that it has none. */
  ghost function HypotenuseText(hyp: int): (s: string)
    ensures forall x, y :: SmallestLegs(x, y, hyp) ==> s == TripleText(x, y, hyp)
    ensures !Pythagoras.IsHypotenuse(hyp) ==> s == NoTripleText(hyp)
  {
    if Pythagoras.IsHypotenuse(hyp) then
      assert exists x, y :: SmallestLegs(x, y, hyp) by {
        var u, v :| Pythagoras.Legs(u, v, hyp);
        var x, y := SmallestLegsBelow(u, v, hyp);
      }
      var x, y :| SmallestLegs(x, y, hyp);
      assert forall p, q :: SmallestLegs(p, q, hyp) ==> p == x && q == y by {
        forall p, q | SmallestLegs(p, q, hyp) ensures p == x && q == y {
          SmallestLegsUnique(p, q, x, y, hyp);
        }
      }
      TripleText(x, y, hyp)
    else
      assert forall x, y :: SmallestLegs(x, y, hyp) ==> Pythagoras.Legs(x, y, hyp);
      NoTripleText(hyp)
  }

  /** What the last strategy makes of the answer of the search. */
  function TriangleLine(hyp: int, x: int, y: int, ok: bool): string
  {
    if ok then TripleText(x, y, hyp) else NoTripleText(hyp)
  }

  /** line shows what the search answers. */
  ghost predicate SearchLine(hyp: int, line: string, ok: bool)
  {
    exists x, y :: Pythagoras.SearchAnswer(hyp, x, y, ok) && line == TriangleLine(hyp, x, y, ok)
  }

  method Strategy4(str: int, sqrt: int -> int) returns (r: int, line: string)
    requires Int64(str) && Pythagoras.GoodRoot(sqrt)
    ensures r == 0 || r == 1
    ensures SearchLine(str, line, r == 1)
    ensures line == HypotenuseText(str) <==> RightTriangle(str)
  {
    var x, y, ok := Pythagoras.PythagoreanLegs(str, sqrt);
    LineRightIff(str, x, y, ok);
    assert SearchLine(str, TriangleLine(str, x, y, ok), ok);
    if ok {
      return 1, TripleText(x, y, str);
    }
    return 0, NoTripleText(str);
  }

  /** Where the last strategy says the right thing: up to the largest root, and beyond it where
      there is nothing to find and the wrapped search finds nothing. */
  ghost predicate RightTriangle(n: int)
  {
    -ROOT <= n <= ROOT || (!Pythagoras.IsHypotenuse(n) && Pythagoras.Misses(n))
  }

  lemma LineRightIff(hyp: int, x: int, y: int, ok: bool)
    requires Pythagoras.SearchAnswer(hyp, x, y, ok)
    ensures TriangleLine(hyp, x, y, ok) == HypotenuseText(hyp) <==> RightTriangle(hyp)
  {
    Pythagoras.AnswerRightIff(hyp, x, y, ok);
    if Pythagoras.IsHypotenuse(hyp) {
      var u, v :| Pythagoras.Legs(u, v, hyp);
      var p, q := SmallestLegsBelow(u, v, hyp);
      assert HypotenuseText(hyp) == TripleText(p, q, hyp);
      if ok { SameTriangle(hyp, x, y, p, q); } else { TripleIsNotNone(p, q, hyp); }
    } else if ok {
      TripleIsNotNone(x, y, hyp);
    }
  }

  /** If the search prints the smallest legs then it has found them. */
  lemma SameTriangle(hyp: int, x: int, y: int, p: int, q: int)
    requires SmallestLegs(p, q, hyp) && Pythagoras.SearchAnswer(hyp, x, y, true)
    ensures TripleText(x, y, hyp) == TripleText(p, q, hyp) <==> Pythagoras.SmallestLegFound(hyp, x, y, true)
  {
    if TripleText(x, y, hyp) == TripleText(p, q, hyp) {
      TripleInjective(x, y, p, q, hyp);
      Pythagoras.SmallestIsShorter(x, y, hyp);
    }
    if Pythagoras.SmallestLegFound(hyp, x, y, true) { SmallestLegsUnique(x, y, p, q, hyp); }
  }

  /** So at 2^32 + 2 it prints a false equation. */
  lemma FalseEquation()
    ensures SearchLine(4294967298, TripleText(2, 131072, 4294967298), true)
    ensures Square(2) + Square(131072) != Square(4294967298)
  {
    Pythagoras.WrongBeyondRoot();
    assert TriangleLine(4294967298, 2, 131072, true) == TripleText(2, 131072, 4294967298);
  }

  // ---------- the answers ----------

  ghost predicate Multiple(n: int, a: int)
  {
    exists k :: n == a * k
  }

  lemma MultipleIff(n: int, a: int)
    requires a != 0
    ensures Multiple(n, a) <==> n % a == 0
  {
    if n % a == 0 {
      var k := Quotient(a, n);
    } else if k :| n == a * k {
      DividesProduct(a, k);
    }
  }

  method Strategy2(str: int, a: int) returns (r: int)
    requires a != 0
    ensures r == 1 <==> exists k :: str == a * k
    ensures r == 0 || r == 1
  {
    MultipleIff(str, a);
    assert Multiple(str, a) <==> exists k :: str == a * k;
    if str % a == 0 {
      return 1;
    }
    return 0;
  }

  /** r is what the first strategy computes. */
  ghost predicate FirstResult(n: int, a: int, r: int)
  {
    if n <= a then r == -1 else Primes.SearchResult(n, r)
  }

  /** r is what the third strategy computes. */
  ghost predicate ThirdResult(n: int, a: int, r: int)
  {
    if n <= a then r == -1 else Fibonacci.LoopResult(n, r)
  }

  /** text is what entry i of the default table makes of n. */
  ghost predicate Answers(i: nat, n: int, a: int, text: string)
    requires i < 4
  {
    match i
    case 0 => exists r :: FirstResult(n, a, r) && text == Itoa(r)
    case 1 => text == if Multiple(n, a) then Itoa(1) else Itoa(0)
    case 2 => exists r :: ThirdResult(n, a, r) && text == Itoa(r)
    case 3 => SearchLine(n, text, true) || SearchLine(n, text, false)
  }

  /** Where entry i ends: only the search for a Fibonacci number above the largest 64-bit number
      does not. */
  predicate Ends(i: nat, n: int, a: int)
  {
    i != 2 || n <= a || n < MAX_INT64
  }

  /** The closures of the default table. */
  method Apply(i: nat, n: int, a: int, sqrt: int -> int) returns (text: string)
    requires i < 4 && Int64(n) && Int64(a) && a >= 1 && Ends(i, n, a) && Pythagoras.GoodRoot(sqrt)
    ensures Answers(i, n, a, text)
  {
    match i {
      case 0 =>
        var r := Primes.Strategy1(n, a);
        assert FirstResult(n, a, r);
        return Itoa(r);
      case 1 =>
        var r := Strategy2(n, a);
        assert Multiple(n, a) <==> exists k :: n == a * k;
        return Itoa(r);
      case 2 =>
        var r, rounds := Fibonacci.Strategy3(n, a);
        assert ThirdResult(n, a, r);
        return Itoa(r);
      case 3 =>
        var r, line := Strategy4(n, sqrt);
        return line;
    }
  }

  // ---------- which answers are right ----------

  /** Where the 64-bit arithmetic of entry i does not stand in the way. */
  ghost predicate Fits(i: nat, n: int, a: int)
    requires i < 4
  {
    match i
    case 0 => n <= a || n < LastPrime.LAST_PRIME
    case 1 => true
    case 2 => n <= a || n < Fibonacci.FIB92
    case 3 => RightTriangle(n)
  }

  /** The mathematical answer: the next prime, divisibility by a, the next Fibonacci number, or
      the right triangle with the smallest leg. */
  ghost function Answer(i: nat, n: int, a: int): string
    requires i < 4
  {
    match i
    case 0 => Itoa(if n <= a then -1 else Primes.NextPrime(n))
    case 1 => Itoa(if Multiple(n, a) then 1 else 0)
    case 2 => Itoa(if n <= a then -1 else Fibonacci.NextFib(n))
    case 3 => HypotenuseText(n)
  }

  /** What the 64-bit arithmetic prints is the mathematical answer exactly on these inputs. */
  lemma {:induction false} RightIff(i: nat, n: int, a: int, text: string)
    requires i < 4 && Int64(n) && Answers(i, n, a, text)
    ensures text == Answer(i, n, a) <==> Fits(i, n, a)
  {
    match i
    case 0 => if n > a { FirstRightIff(n, a, text); }
    case 1 =>
    case 2 => if n > a { ThirdRightIff(n, a, text); }
    case 3 =>
      var ok := SearchLine(n, text, true);
      var x, y :| Pythagoras.SearchAnswer(n, x, y, ok) && text == TriangleLine(n, x, y, ok);
      LineRightIff(n, x, y, ok);
  }

  /** text is the right answer, read as a reader of the output would: the next prime above n, one
      or zero as a divides n, the next Fibonacci number above n, or the right triangle on n with
      the smallest leg. */
  ghost predicate Tells(i: nat, n: int, a: int, text: string)
    requires i < 4
  {
    match i
    case 0 => if n <= a then text == "-1" else exists p :: Primes.NextPrimeIs(n, p) && Writes(text, p)
    case 1 => text == if Multiple(n, a) then "1" else "0"
    case 2 => if n <= a then text == "-1" else exists f :: Fibonacci.NextFibIs(n, f) && Writes(text, f)
    case 3 => TellsTriangle(n, text) || (!Pythagoras.IsHypotenuse(n) && TellsNone(n, text))
  }

  ghost predicate TellsTriangle(n: int, text: string)
  {
    exists x, y, sx, sy, sn ::
      SmallestLegs(x, y, n) && Writes(sx, x) && Writes(sy, y) && Writes(sn, n) && TripleOf(text, sx, sy, sn)
  }

  ghost predicate TripleOf(text: string, x: string, y: string, n: string)
  {
    text == x + "² + " + y + "² = " + n + "²"
  }

  ghost predicate TellsNone(n: int, text: string)
  {
    exists s :: Writes(s, n) && text == s + " is not a hypotenuse"
  }

  lemma {:induction false} TellsIff(i: nat, n: int, a: int, text: string)
    requires i < 4
    ensures Tells(i, n, a, text) <==> text == Answer(i, n, a)
  {
    match i
    case 0 =>
      WritesOnlyItoa(text, if n <= a then -1 else Primes.NextPrime(n));
      SmallTexts();
      if n > a { TellsPrime(n, text); }
    case 1 => SmallTexts();
    case 2 =>
      WritesOnlyItoa(text, if n <= a then -1 else Fibonacci.NextFib(n));
      SmallTexts();
      if n > a { TellsFib(n, text); }
    case 3 => TellsLine(n, text);
  }

  lemma SmallTexts()
    ensures Itoa(-1) == "-1" && Itoa(0) == "0" && Itoa(1) == "1"
  {
  }

  lemma {:induction false} TellsPrime(n: int, text: string)
    ensures (exists p :: Primes.NextPrimeIs(n, p) && Writes(text, p)) <==> Writes(text, Primes.NextPrime(n))
  {
    forall p | Primes.NextPrimeIs(n, p) ensures p == Primes.NextPrime(n) {
      Primes.NextPrimeUnique(n, p, Primes.NextPrime(n));
    }
  }

  lemma {:induction false} TellsFib(n: int, text: string)
    ensures (exists f :: Fibonacci.NextFibIs(n, f) && Writes(text, f)) <==> Writes(text, Fibonacci.NextFib(n))
  {
    forall f | Fibonacci.NextFibIs(n, f) ensures f == Fibonacci.NextFib(n) {
      Fibonacci.NextFibUnique(n, f, Fibonacci.NextFib(n));
    }
  }

  lemma TripleTextIs(x: int, y: int, n: int)
    ensures TripleOf(TripleText(x, y, n), Itoa(x), Itoa(y), Itoa(n))
  {
    var a, b, c := Itoa(x), Itoa(y), Itoa(n);
    assert a + ("² + " + (b + ("² = " + c + "²"))) == a + "² + " + b + "² = " + c + "²";
  }

  lemma {:induction false} TellsLine(n: int, text: string)
    ensures (TellsTriangle(n, text) || (!Pythagoras.IsHypotenuse(n) && TellsNone(n, text))) <==> text == HypotenuseText(n)
  {
    if Pythagoras.IsHypotenuse(n) {
      var u, v :| Pythagoras.Legs(u, v, n);
      var p, q := SmallestLegsBelow(u, v, n);
      TellsTriangleOf(n, text, p, q);
    } else {
      ItoaWrites(n);
      assert forall x, y :: SmallestLegs(x, y, n) ==> Pythagoras.Legs(x, y, n);
      assert !TellsTriangle(n, text);
      if TellsNone(n, text) {
        var s :| Writes(s, n) && text == s + " is not a hypotenuse";
        WritesOnlyItoa(s, n);
      }
    }
  }

  lemma {:induction false} TellsTriangleOf(n: int, text: string, p: int, q: int)
    requires SmallestLegs(p, q, n)
    ensures TellsTriangle(n, text) <==> text == TripleText(p, q, n)
  {
    TripleTextIs(p, q, n);
    ItoaWrites(p);
    ItoaWrites(q);
    ItoaWrites(n);
    if TellsTriangle(n, text) {
      var x, y, sx, sy, sn :|
        SmallestLegs(x, y, n) && Writes(sx, x) && Writes(sy, y) && Writes(sn, n) && TripleOf(text, sx, sy, sn);
      SmallestLegsUnique(x, y, p, q, n);
      WritesOnlyItoa(sx, x);
      WritesOnlyItoa(sy, y);
      WritesOnlyItoa(sn, n);
    }
  }

  lemma {:induction false} FirstRightIff(n: int, a: int, text: string)
    requires n > a && Answers(0, n, a, text)
    ensures text == Itoa(Primes.NextPrime(n)) <==> n < LastPrime.LAST_PRIME
  {
    LastPrime.PrimeLeftIff(n);
    var r :| FirstResult(n, a, r) && text == Itoa(r);
    var p := Primes.NextPrime(n);
    if text == Itoa(p) { ItoaInjective(r, p); }
    if Primes.PrimeLeft(n) {
      Primes.NextPrimeUnique(n, r, p);
    } else if r == p {
      assert false;
    }
  }

  lemma {:induction false} ThirdRightIff(n: int, a: int, text: string)
    requires n > a && Int64(n) && Answers(2, n, a, text)
    ensures text == Itoa(Fibonacci.NextFib(n)) <==> n < Fibonacci.FIB92
  {
    var r :| ThirdResult(n, a, r) && text == Itoa(r);
    var f := Fibonacci.NextFib(n);
    Fibonacci.LoopResultRight(n, r);
    if text == Itoa(f) { ItoaInjective(r, f); }
    if n < Fibonacci.FIB92 { Fibonacci.NextFibUnique(n, r, f); }
  }

  /** The methods have no freedom left. */
  lemma {:induction false} AnswersUnique(i: nat, n: int, a: int, s: string, t: string)
    requires i < 4 && Answers(i, n, a, s) && Answers(i, n, a, t)
    ensures s == t
  {
    match i
    case 0 =>
      var p :| FirstResult(n, a, p) && s == Itoa(p);
      var q :| FirstResult(n, a, q) && t == Itoa(q);
      if n > a && Primes.PrimeLeft(n) { Primes.NextPrimeUnique(n, p, q); }
    case 1 =>
    case 2 =>
      var p :| ThirdResult(n, a, p) && s == Itoa(p);
      var q :| ThirdResult(n, a, q) && t == Itoa(q);
      if n > a { Fibonacci.LoopResultUnique(n, p, q); }
    case 3 =>
      var ok, found := SearchLine(n, s, true), SearchLine(n, t, true);
      var x, y :| Pythagoras.SearchAnswer(n, x, y, ok) && s == TriangleLine(n, x, y, ok);
      var u, v :| Pythagoras.SearchAnswer(n, u, v, found) && t == TriangleLine(n, u, v, found);
      Pythagoras.SearchUnique(n, x, y, ok, u, v, found);
  }

  // ---------- the table in the pipeline ----------

  const DESCRIPTIONS: seq<string> :=
    ["next prime number", "checking divisibility by a", "next Fibonacci number", "Pythagorean triple check"]

  /** strategies is the default table. */
  ghost predicate IsTable(strategies: seq<Strategy>)
  {
    && |strategies| == 4
    && (forall i: nat :: i < 4 ==> strategies[i].id == i + 1 && strategies[i].desc == DESCRIPTIONS[i])
    && (forall i: nat, n, a :: i < 4 && Int64(n) && Int64(a) && a >= 1 ==>
          (strategies[i].ends(n, a) <==> Ends(i, n, a)) &&
          (Ends(i, n, a) ==> Answers(i, n, a, strategies[i].apply(n, a))))
  }

  ghost function SomeAnswer(i: nat, n: int, a: int): (text: string)
    requires i < 4
    ensures Int64(n) && Ends(i, n, a) ==> Answers(i, n, a, text)
  {
    if Int64(n) && Ends(i, n, a) then
      SomeAnswerExists(i, n, a);
      var text :| Answers(i, n, a, text);
      text
    else ""
  }

  lemma SomeAnswerExists(i: nat, n: int, a: int)
    requires i < 4 && Int64(n) && Ends(i, n, a)
    ensures exists text :: Answers(i, n, a, text)
  {
    match i
    case 0 =>
      var r := if n <= a then -1 else if Primes.PrimeLeft(n) then Primes.NextPrime(n) else 2;
      if n > a && Primes.PrimeLeft(n) { assert Primes.SearchResult(n, r); }
      assert FirstResult(n, a, r);
      assert Answers(0, n, a, Itoa(r));
    case 1 =>
      assert Answers(1, n, a, if Multiple(n, a) then Itoa(1) else Itoa(0));
    case 2 =>
      var r := -1;
      if n > a {
        Fibonacci.LoopEnds(n);
        r :| Fibonacci.LoopResult(n, r);
      }
      assert ThirdResult(n, a, r);
      assert Answers(2, n, a, Itoa(r));
    case 3 =>
      var x, y, ok := Pythagoras.SearchEnds(n);
      assert SearchLine(n, TriangleLine(n, x, y, ok), ok);
      assert Answers(3, n, a, TriangleLine(n, x, y, ok));
  }

  lemma TableExists() returns (strategies: seq<Strategy>)
    ensures IsTable(strategies)
  {
    strategies := seq(4, i requires 0 <= i < 4 =>
      Strategy(i + 1, DESCRIPTIONS[i], (n, a) => Ends(i, n, a), (n, a) => SomeAnswer(i, n, a)));
  }

  // ---------- default runs ----------

  lemma {:induction false} LinesAt(job: Job, i: nat, count: nat, k: nat)
    requires i < job.N() && k < count <= job.G()
    ensures LinesOf(job, i, count)[k] == LineOf(job, i, k)
  {
    var front := LinesOf(job, i, count - 1);
    assert LinesOf(job, i, count) == front + [LineOf(job, i, count - 1)];
    if k < count - 1 {
      LinesAt(job, i, count - 1, k);
    }
  }

  /** The k-th line printed for strategy i, without the worker tag. */
  ghost predicate Prints(t: State, i: nat, k: nat, text: string)
  {
    k < |By(t.printed, i)| && By(t.printed, i)[k].text == text
  }

  function Prefix(id: int, n: int): string
  {
    "[Strategy " + Itoa(id) + "] number " + Itoa(n) + " -> "
  }

  /** A job of the default table with a positive parameter, as the command line passes it, and an
      integer parser for 64 bits. */
  ghost predicate DefaultJob(job: Job)
  {
    && IsTable(job.strategies) && Int64(job.a) && job.a >= 1
    && (forall w :: job.atoi(w).Some? ==> Int64(job.atoi(w).value))
  }

  ghost predicate DefaultSuccess(job: Job, t: State)
  {
    DefaultJob(job) && Reachable(job, t) && t.main.Returned? && t.main.outcome.Ok?
  }

  /** The largest 64-bit number is among the numbers, and above a. */
  ghost predicate HasEndless(job: Job)
  {
    exists k: nat :: EndlessAt(job, k)
  }

  ghost predicate EndlessAt(job: Job, k: nat)
  {
    && k < |job.file.words| && (forall j :: 0 <= j < k ==> job.atoi(job.file.words[j]).Some?)
    && job.atoi(job.file.words[k]) == Some(MAX_INT64) && MAX_INT64 > job.a
  }

  /** Only the Fibonacci strategy hangs, and on no other number. */
  lemma HangsIff(job: Job, i: nat)
    requires DefaultJob(job) && i < 4
    ensures Hangs(job, i) <==> i == 2 && job.opens(2) && HasEndless(job)
  {
    var r := Reach(job, i);
    if r < job.G() { StoppedBy(job, i); }
    if i == 2 && HasEndless(job) {
      var k: nat :| EndlessAt(job, k);
      EndlessStops(job, k);
    }
  }

  lemma StoppedBy(job: Job, i: nat)
    requires DefaultJob(job) && i < 4 && Reach(job, i) < job.G()
    ensures i == 2 && HasEndless(job)
  {
    var n := FileReading.Number(job.file, job.atoi, Reach(job, i));
    assert Int64(n) && !job.strategies[i].ends(n, job.a);
    assert EndlessAt(job, Reach(job, i));
  }

  lemma EndlessStops(job: Job, k: nat)
    requires DefaultJob(job) && EndlessAt(job, k)
    ensures k < job.G() && Reach(job, 2) <= k
  {
    assert FileReading.Number(job.file, job.atoi, k) == MAX_INT64;
    assert !job.strategies[2].ends(MAX_INT64, job.a);
  }

  /** Default runs return, whatever the schedule, unless that number is in the file and there is
      no error to return. */
  lemma DefaultReturnsIff(job: Job, t: State)
    requires DefaultJob(job) && Reachable(job, t)
    ensures var may := !(job.opens(2) && HasEndless(job)) || job.file.scanFails
                       || !FileReading.AllParse(job.file, job.atoi) || exists i: nat :: i < 4 && !job.opens(i);
            && (t.main.Returned? ==> may)
            && (PipelineRuns.AtRest(job, t) ==> (t.main.Returned? <==> may))
  {
    PipelineRuns.ReturnsIff(job, t);
    HangsIff(job, 0);
    HangsIff(job, 1);
    HangsIff(job, 2);
    HangsIff(job, 3);
    if i: nat :| i < 4 && !job.opens(i) {
      assert PipelineRuns.Fails(job, i);
    }
    FileReading.VerdictMeaning(job.file, job.atoi);
    PipelineRuns.HangsAndFails(job, 0);
    forall i: nat | i < 4 && PipelineRuns.Fails(job, i)
      ensures !job.opens(i) || job.file.scanFails || !FileReading.AllParse(job.file, job.atoi)
    {
      PipelineRuns.HangsAndFails(job, i);
    }
  }

  /** End to end: under every schedule, a successful default run reports strategies 1 to 4 with
      one operation for each number of the file. */
  lemma DefaultRunReport(job: Job, t: State)
    requires DefaultSuccess(job, t)
    ensures PipelineRuns.Clean(job) && job.G() == |job.file.words|
    ensures var w := |job.file.words|;
            t.main.outcome.value == Report([Stat(1, w), Stat(2, w), Stat(3, w), Stat(4, w)], w, 4 * w)
  {
    PipelineRuns.Outcome(job, t);
    PipelineRuns.CleanMeans(job);
    DefaultReport(job);
  }

  /** line names strategy id and number n, and then gives answer. */
  ghost predicate LineSays(line: string, id: int, n: int, answer: string)
  {
    exists s, m :: Writes(s, id) && Writes(m, n) && line == LineText(s, m, answer)
  }

  /** And each worker prints for the k-th word, which is a number n, a line that names its strategy
      and n, and gives its 64-bit answer, which is the right one exactly where the arithmetic
      allows. */
  lemma DefaultRunLines(job: Job, t: State, i: nat, k: nat) returns (line: string, n: int, text: string)
    requires DefaultSuccess(job, t) && i < 4 && k < |job.file.words|
    ensures job.atoi(job.file.words[k]) == Some(n)
    ensures Prints(t, i, k, line) && LineSays(line, i + 1, n, text)
    ensures Answers(i, n, job.a, text)
    ensures Tells(i, n, job.a, text) <==> Fits(i, n, job.a)
  {
    PipelineRuns.Outcome(job, t);
    PipelineRuns.CleanMeans(job);
    n := FileReading.Number(job.file, job.atoi, k);
    CleanReach(job, i);
    TableAnswers(job, i, k);
    text := job.strategies[i].apply(n, job.a);
    line := Prefix(i + 1, n) + text;
    TablePrints(job, t, i, k);
    PrefixSays(i + 1, n, text);
    RightIff(i, n, job.a, text);
    TellsIff(i, n, job.a, text);
  }

  lemma {:induction false} PrefixSays(id: int, n: int, text: string)
    ensures LineSays(Prefix(id, n) + text, id, n, text)
  {
    ItoaWrites(id);
    ItoaWrites(n);
    assert Prefix(id, n) + text == LineText(Itoa(id), Itoa(n), text);
  }

  /** For one: with a = 3 the number 5 makes the four workers print these lines. */
  lemma ExampleLines(job: Job, t: State)
    requires DefaultSuccess(job, t) && job.a == 3 && job.file.words == ["5"] && job.atoi("5") == Some(5)
    ensures Prints(t, 0, 0, "[Strategy 1] number 5 -> 7")
    ensures Prints(t, 1, 0, "[Strategy 2] number 5 -> 0")
    ensures Prints(t, 2, 0, "[Strategy 3] number 5 -> 8")
    ensures Prints(t, 3, 0, "[Strategy 4] number 5 -> 3² + 4² = 5²")
  {
    ExampleAnswers();
    LineText1();
    LineText2();
    LineText3();
    LineText4();
    ExampleLine(job, t, 0, "1", "7");
    ExampleLine(job, t, 1, "2", "0");
    ExampleLine(job, t, 2, "3", "8");
    ExampleLine(job, t, 3, "4", "3² + 4² = 5²");
  }

  function LineText(id: string, n: string, answer: string): string
  {
    "[Strategy " + id + "] number " + n + " -> " + answer
  }

  lemma LineText1()
    ensures LineText("1", "5", "7") == "[Strategy 1] number 5 -> 7"
  {
    assert "[Strategy " + "1" + "] number " == "[Strategy 1] number ";
    assert "[Strategy 1] number " + "5" + " -> " == "[Strategy 1] number 5 -> ";
  }

  lemma LineText2()
    ensures LineText("2", "5", "0") == "[Strategy 2] number 5 -> 0"
  {
    assert "[Strategy " + "2" + "] number " == "[Strategy 2] number ";
    assert "[Strategy 2] number " + "5" + " -> " == "[Strategy 2] number 5 -> ";
  }

  lemma LineText3()
    ensures LineText("3", "5", "8") == "[Strategy 3] number 5 -> 8"
  {
    assert "[Strategy " + "3" + "] number " == "[Strategy 3] number ";
    assert "[Strategy 3] number " + "5" + " -> " == "[Strategy 3] number 5 -> ";
  }

  lemma LineText4()
    ensures LineText("4", "5", "3² + 4² = 5²") == "[Strategy 4] number 5 -> 3² + 4² = 5²"
  {
    assert "[Strategy " + "4" + "] number " == "[Strategy 4] number ";
    assert "[Strategy 4] number " + "5" + " -> " == "[Strategy 4] number 5 -> ";
  }

  lemma {:induction false} ExampleLine(job: Job, t: State, i: nat, id: string, answer: string)
    requires DefaultSuccess(job, t) && job.a == 3 && job.file.words == ["5"] && job.atoi("5") == Some(5) && i < 4
    requires Tells(i, 5, 3, answer) && Writes(id, i + 1)
    ensures Prints(t, i, 0, LineText(id, "5", answer))
  {
    var printed, n, text := DefaultRunLines(job, t, i, 0);
    TellsIff(i, 5, 3, text);
    TellsIff(i, 5, 3, answer);
    var s, m :| Writes(s, i + 1) && Writes(m, n) && printed == LineText(s, m, text);
    WritesOnlyItoa(s, i + 1);
    WritesOnlyItoa(id, i + 1);
    WritesOnlyItoa(m, 5);
    assert Itoa(5) == "5";
  }

  lemma ExampleAnswers()
    ensures Writes("1", 1) && Writes("2", 2) && Writes("3", 3) && Writes("4", 4)
    ensures Tells(0, 5, 3, "7") && Tells(1, 5, 3, "0") && Tells(2, 5, 3, "8") && Tells(3, 5, 3, "3² + 4² = 5²")
  {
    OneDigit("1", 1);
    OneDigit("2", 2);
    OneDigit("3", 3);
    OneDigit("4", 4);
    OneDigit("7", 7);
    OneDigit("8", 8);
    NextAfterFive();
    MultipleIff(5, 3);
    ExampleTriangle();
  }

  lemma {:induction false} OneDigit(s: string, n: nat)
    requires n < 10 && |s| == 1 && s[0] as int == '0' as int + n
    ensures Writes(s, n)
  {
    assert ReadDigits(s[1..], n) == n;
  }

  lemma NextAfterFive()
    ensures Primes.NextPrimeIs(5, 7) && Fibonacci.NextFibIs(5, 8)
  {
    assert Divides(2, 6);
    Primes.TriedToTheRoot(7, 3);
    assert Fibonacci.Fib(5) == 5 && Fibonacci.Fib(6) == 8;
    Fibonacci.NextFibFound(5, 5);
  }

  lemma ExampleTriangle()
    ensures Tells(3, 5, 3, "3² + 4² = 5²")
  {
    forall u, v | Pythagoras.Legs(u, v, 5) ensures 3 <= u {
      SquareMonotone(v, 5);
      assert u == 1 ==> Square(v) == 24;
      assert u == 2 ==> Square(v) == 21;
      SquareMonotone(v, 4);
    }
    assert SmallestLegs(3, 4, 5);
    assert Itoa(3) == "3" && Itoa(4) == "4" && Itoa(5) == "5";
    ItoaWrites(3);
    ItoaWrites(4);
    ItoaWrites(5);
    assert TripleOf("3² + 4² = 5²", "3", "4", "5");
  }

  lemma TablePrints(job: Job, t: State, i: nat, k: nat)
    requires DefaultSuccess(job, t) && PipelineRuns.Clean(job) && i < 4 && k < job.G() && job.strategies[i].id == i + 1
    ensures var n := FileReading.Number(job.file, job.atoi, k);
            Prints(t, i, k, Prefix(i + 1, n) + job.strategies[i].apply(n, job.a))
  {
    PrintedLine(job, t, i, k);
    FormatText(job.strategies[i], FileReading.Number(job.file, job.atoi, k), job.a);
  }

  lemma CleanReach(job: Job, i: nat)
    requires PipelineRuns.Clean(job) && i < job.N()
    ensures Reach(job, i) == job.G()
  {
    PipelineRuns.CleanMeans(job);
    assert job.opens(i) && !Hangs(job, i);
  }

  /** What a worker that does not hang applies its strategy to, ends. */
  lemma TableAnswers(job: Job, i: nat, k: nat)
    requires DefaultJob(job) && i < 4 && k < Reach(job, i)
    ensures var n := FileReading.Number(job.file, job.atoi, k);
            Int64(n) && job.strategies[i].id == i + 1 && Answers(i, n, job.a, job.strategies[i].apply(n, job.a))
  {
    var n := FileReading.Number(job.file, job.atoi, k);
    assert job.strategies[i].ends(n, job.a);
  }

  lemma FormatText(s: Strategy, n: int, a: int)
    ensures Format(s, n, a) == Prefix(s.id, n) + s.apply(n, a)
  {
  }

  /** The k-th line of worker i in a successful run, whatever the strategies. */
  lemma PrintedLine(job: Job, t: State, i: nat, k: nat)
    requires Reachable(job, t) && t.main.Returned? && t.main.outcome.Ok? && PipelineRuns.Clean(job)
    requires i < job.N() && k < job.G()
    ensures Prints(t, i, k, Format(job.strategies[i], FileReading.Number(job.file, job.atoi, k), job.a))
  {
    PipelineRuns.OutputIsExact(job, t);
    CleanReach(job, i);
    PipelineRuns.CleanMeans(job);
    LinesAt(job, i, job.G(), k);
    assert By(t.printed, i) == LinesOf(job, i, job.G());
  }

  lemma DefaultReport(job: Job)
    requires IsTable(job.strategies) && PipelineRuns.Clean(job)
    ensures var w := |job.file.words|;
            PipelineRuns.TheReport(job) == Report([Stat(1, w), Stat(2, w), Stat(3, w), Stat(4, w)], w, 4 * w)
  {
    var w := |job.file.words|;
    var all := PipelineRuns.AllStats(job);
    assert all == [Stat(1, w), Stat(2, w), Stat(3, w), Stat(4, w)];
    SortedStays(all);
    PipelineRuns.SumOfEqual(all, w);
  }

  /** Sorting leaves a strictly sorted table alone. */
  lemma {:induction false} SortedStays(s: seq<Stat>)
    requires forall i, j :: 0 <= i < j < |s| ==> s[i].id < s[j].id
    ensures SortById(s) == s
  {
    SortByIdSorts(s);
    assert Sorting.Keyed(ById, s) by {
      assert forall i, j :: 0 <= i < |s| && 0 <= j < |s| && s[i].id == s[j].id ==> i == j;
    }
    Sorting.SortedUnique(ById, s, SortById(s));
  }
}
