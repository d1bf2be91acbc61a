/** Strategy 4 of lab-2: is a number the hypotenuse of a right triangle with integer legs? */
module Pythagoras {
  import opened Arithmetic

  /** u and v are the legs of a right triangle with hypotenuse |hyp|. */
  ghost predicate Legs(u: int, v: int, hyp: int)
  {
    u > 0 && v > 0 && Square(u) + Square(v) == Square(hyp)
  }

  ghost predicate IsHypotenuse(hyp: int)
  {
    exists u, v :: Legs(u, v, hyp)
  }

  /** What is asked of the truncated square root on 64-bit numbers: it is exact on perfect
      squares, never decreases, and is at most the largest root; and whatever number it makes of
      a negative argument, that number's wrapped square is not the argument. */
  ghost predicate GoodRoot(sqrt: int -> int)
  {
    && (forall y :: 0 <= y <= ROOT ==> sqrt(Square(y)) == y)
    && (forall r, s :: 0 <= r <= s <= MAX_INT64 ==> sqrt(r) <= sqrt(s))
    && sqrt(MAX_INT64) <= ROOT
    && (forall r :: MIN_INT64 <= r < 0 ==> Wrap(Square(sqrt(r))) != r)
  }

  lemma EvenSquare(h: int)
    requires Square(h) % 2 == 0
    ensures h % 2 == 0
  {
    var k, r := h / 2, h % 2;
    assert h == 2 * k + r;
    assert Square(h) == 2 * (2 * (k * k) + 2 * (k * r)) + r * r;
  }

  /** The square root of two is irrational, by infinite descent. */
  lemma {:induction false} NoEqualLegs(u: nat, h: nat)
    requires u > 0
    ensures 2 * Square(u) != Square(h)
    decreases h
  {
    if 2 * Square(u) == Square(h) {
      EvenSquare(h);
      var k := h / 2;
      assert h == 2 * k;
      assert Square(h) == 4 * Square(k);
      SquareMonotone(h, u);
      assert u < h;
      NoEqualLegs(k, u);
    }
  }

  /** The shorter leg of any triangle passes the loop guard. */
  lemma ShorterLegPassesGuard(u: int, v: int, hyp: int)
    requires Legs(u, v, hyp) && u <= v
    ensures 2 * Square(u) < Square(hyp)
  {
    SquareMonotone(u, v);
    var h: nat := if hyp < 0 then -hyp else hyp;
    assert Square(h) == Square(hyp);
    NoEqualLegs(u, h);
  }

  /** Stopping when 2x^2 reaches hyp^2 loses no triangle. */
  lemma NothingBeyondGuard(x: int, hyp: int)
    requires x >= 1 && 2 * Square(x) >= Square(hyp)
    requires forall u, v :: Legs(u, v, hyp) ==> x <= u
    ensures !IsHypotenuse(hyp)
  {
    forall u, v ensures !Legs(u, v, hyp) {
      if Legs(u, v, hyp) {
        assert Legs(v, u, hyp);
        var s, l := if u <= v then u else v, if u <= v then v else u;
        ShorterLegPassesGuard(s, l, hyp);
        SquareMonotone(x, s);
      }
    }
  }

  function Size(h: int): (r: nat)
    ensures Square(r) == Square(h)
  {
    if h < 0 then -h else h
  }

  /** The loop reaches x: every smaller value passed the guard and was no leg. */
  ghost predicate Reached(x: int, hyp: int)
  {
    && x >= 1
    && (forall u :: 1 <= u < x ==> 2 * Square(u) < Square(hyp))
    && (forall u, v :: 1 <= u < x ==> !Legs(u, v, hyp))
  }

  // ---------- 64 bits ----------

  /** The squares and doubled squares computed at x, and the square of the root taken there when
      the guard holds. */
  ghost predicate RoundFits(x: int, hyp: int, sqrt: int -> int)
  {
    && 2 * Square(x) <= MAX_INT64
    && (2 * Square(x) < Square(hyp) ==> 0 <= Square(sqrt(Square(hyp) - Square(x))) <= MAX_INT64)
  }

  /** Everything the search computes fits in 64 bits iff hyp*hyp does. The only delicate value is
      the largest one, whose doubled squares would overflow near the end of the loop; but it is
      the hypotenuse of (5, 12, 13) scaled, and the search stops there. */
  lemma LegArithmeticFits(hyp: int, sqrt: int -> int)
    requires GoodRoot(sqrt)
    ensures (Square(hyp) <= MAX_INT64 && forall x :: Reached(x, hyp) ==> RoundFits(x, hyp, sqrt))
            <==> -ROOT <= hyp <= ROOT
  {
    RootBounds();
    if Size(hyp) > ROOT {
      SquareMonotone(ROOT + 1, Size(hyp));
    } else {
      SquareMonotone(Size(hyp), ROOT);
      forall x | Reached(x, hyp) ensures RoundFits(x, hyp, sqrt) {
        GuardFits(x, hyp);
        if 2 * Square(x) < Square(hyp) { RootFits(x, hyp, sqrt); }
      }
    }
  }

  lemma GuardFits(x: int, hyp: int)
    requires Size(hyp) <= ROOT && Reached(x, hyp)
    ensures 2 * Square(x) <= MAX_INT64
  {
    if Size(hyp) == ROOT {
      assert Legs(1168077115, 2803385076, ROOT);
      assert Legs(1168077115, 2803385076, hyp);
      assert x <= 1168077115;
      SquareMonotone(x, 1168077115);
    } else {
      SquareMonotone(Size(hyp), ROOT - 1);
      assert x > 1 ==> 2 * Square(x - 1) < Square(hyp);
      SquareMonotone(x - 1, 2147483647);
      SquareMonotone(x, 2147483647);
    }
  }

  /** The root of a remainder is no larger than the largest root. */
  lemma RootFits(x: int, hyp: int, sqrt: int -> int)
    requires GoodRoot(sqrt) && Size(hyp) <= ROOT && 2 * Square(x) < Square(hyp)
    ensures var rem := Square(hyp) - Square(x);
            0 < rem <= MAX_INT64 && 0 <= sqrt(rem) <= ROOT && 0 <= Square(sqrt(rem)) <= MAX_INT64
  {
    var rem := Square(hyp) - Square(x);
    RootBounds();
    SquareMonotone(Size(hyp), ROOT);
    assert 0 < rem <= Square(ROOT);
    assert sqrt(Square(0)) == 0 && sqrt(Square(ROOT)) == ROOT;
    assert sqrt(0) <= sqrt(rem) <= sqrt(Square(ROOT));
    SquareMonotone(sqrt(rem), ROOT);
  }

  // ---------- the search ----------

  predicate Guard(x: int, hyp: int) { Wrap(Wrap(2 * x) * x) < Wrap(hyp * hyp) }

  function Remainder(x: int, hyp: int): (r: int)
    ensures Int64(r)
  {
    Wrap(Wrap(hyp * hyp) - Wrap(x * x))
  }

  /** The wrapped remainder at x is the square of y. */
  predicate HitAt(x: int, y: int, hyp: int)
  {
    0 <= y <= ROOT && Square(y) == Remainder(x, hyp)
  }

  /** The loop gets as far as x: every smaller value passed the guard and was no hit. */
  ghost predicate Passed(x: int, hyp: int)
  {
    && x >= 1
    && (forall u :: 1 <= u < x ==> Guard(u, hyp))
    && (forall u, v :: 1 <= u < x ==> !HitAt(u, v, hyp))
  }

  /** The search ends with x and y. */
  ghost predicate Finds(hyp: int, x: int, y: int)
  {
    Passed(x, hyp) && Guard(x, hyp) && HitAt(x, y, hyp)
  }

  /** The search ends with nothing: the guard fails before any hit. */
  ghost predicate Misses(hyp: int)
  {
    exists x :: Passed(x, hyp) && !Guard(x, hyp)
  }

  /** What the 64-bit search answers, without a word about the root it uses. */
  ghost predicate SearchAnswer(hyp: int, x: int, y: int, ok: bool)
  {
    if ok then Finds(hyp, x, y) else x == 0 && y == 0 && Misses(hyp)
  }

  /** For every hypotenuse the search ends, at |hyp| at the latest, where the remainder is zero. */
  method PythagoreanLegs(hyp: int, sqrt: int -> int) returns (x: int, y: int, ok: bool)
    requires Int64(hyp) && GoodRoot(sqrt)
    ensures SearchAnswer(hyp, x, y, ok)
  {
    var c2 := Wrap(hyp * hyp);
    x := 1;
    NotPastTheEnd(1, hyp);
    while Wrap(Wrap(2 * x) * x) < c2
      invariant Passed(x, hyp) && (Guard(x, hyp) ==> x <= Size(hyp))
      decreases Size(hyp) - x
    {
      var rem := Wrap(c2 - Wrap(x * x));
      y := sqrt(rem);
      RootTest(x, hyp, sqrt);
      if Wrap(y * y) == rem {
        return x, y, true;
      }
      HitAtTheEnd(hyp);
      NotPastTheEnd(x + 1, hyp);
      x := x + 1;
    }
    return 0, 0, false;
  }

  /** The test of the source finds the hits and nothing else. */
  lemma RootTest(x: int, hyp: int, sqrt: int -> int)
    requires GoodRoot(sqrt)
    ensures var y := sqrt(Remainder(x, hyp));
            if Wrap(y * y) == Remainder(x, hyp) then HitAt(x, y, hyp) else forall v :: !HitAt(x, v, hyp)
  {
    var rem := Remainder(x, hyp);
    var y := sqrt(rem);
    assert Wrap(Square(y)) == Wrap(y * y);
    if rem >= 0 {
      RootBounds();
      assert sqrt(Square(0)) == 0;
      assert sqrt(0) <= y <= sqrt(MAX_INT64);
      SquareMonotone(y, ROOT);
      assert 0 <= Square(y) <= MAX_INT64;
    } else {
      assert forall v :: HitAt(x, v, hyp) ==> Square(v) >= 0;
    }
  }

  lemma HitAtTheEnd(hyp: int)
    ensures HitAt(Size(hyp), 0, hyp)
  {
    assert Square(Size(hyp)) == Square(hyp);
  }

  /** The guard needs a wrapped square above two at the start, and so a hypotenuse. */
  lemma NotPastTheEnd(x: int, hyp: int)
    requires x >= 1 && forall u :: 1 <= u < x ==> Guard(u, hyp)
    requires x == 1 || x - 1 < Size(hyp)
    ensures Guard(x, hyp) ==> x <= Size(hyp)
  {
    if x == 1 && Guard(1, hyp) { assert Wrap(Wrap(2 * 1) * 1) == 2; }
  }

  /** The search leaves one answer. */
  lemma SearchUnique(hyp: int, x: int, y: int, ok: bool, u: int, v: int, found: bool)
    requires SearchAnswer(hyp, x, y, ok) && SearchAnswer(hyp, u, v, found)
    ensures x == u && y == v && ok == found
  {
    var p := if ok then x else var p :| Passed(p, hyp) && !Guard(p, hyp); p;
    var q := if found then u else var q :| Passed(q, hyp) && !Guard(q, hyp); q;
    assert p == q;
    if ok && found {
      SquareMonotone(y, v);
      SquareMonotone(v, y);
    }
  }

  /** The search always ends. */
  lemma SearchEnds(hyp: int) returns (x: int, y: int, ok: bool)
    ensures SearchAnswer(hyp, x, y, ok)
  {
    NotPastTheEnd(1, hyp);
    x, y, ok := SearchFrom(1, hyp);
  }

  lemma {:induction false} SearchFrom(u: int, hyp: int) returns (x: int, y: int, ok: bool)
    requires Passed(u, hyp) && (Guard(u, hyp) ==> u <= Size(hyp))
    ensures SearchAnswer(hyp, x, y, ok)
    decreases Size(hyp) - u
  {
    if !Guard(u, hyp) {
      x, y, ok := 0, 0, false;
    } else if v :| HitAt(u, v, hyp) {
      x, y, ok := u, v, true;
    } else {
      HitAtTheEnd(hyp);
      NotPastTheEnd(u + 1, hyp);
      x, y, ok := SearchFrom(u + 1, hyp);
    }
  }

  // ---------- when the answer is right ----------

  /** A complete and minimal answer: legs are found iff there are any, and x is the smallest leg
      of any triangle on this hypotenuse. */
  ghost predicate SmallestLegFound(hyp: int, x: int, y: int, ok: bool)
  {
    && (ok <==> IsHypotenuse(hyp))
    && (ok ==> Legs(x, y, hyp) && x < y && forall u, v :: Legs(u, v, hyp) ==> x <= u)
  }

  /** Smallest legs are the shorter ones. */
  lemma SmallestIsShorter(x: int, y: int, hyp: int)
    requires Legs(x, y, hyp) && forall u, v :: Legs(u, v, hyp) ==> x <= u
    ensures SmallestLegFound(hyp, x, y, true)
  {
    assert Legs(y, x, hyp);
    if x == y { NoEqualLegs(x, Size(hyp)); }
  }

  lemma WrapProduct(x: int, y: int)
    ensures Wrap(Wrap(x) * y) == Wrap(x * y)
  {
    var k := WrapQuotient(x);
    ShiftedProduct(x, y, k);
    WrapShift(x * y, k * y);
  }

  lemma ShiftedProduct(x: int, y: int, k: int)
    ensures (x + TWO64 * k) * y == x * y + TWO64 * (k * y)
  {
  }

  /** The values of one round, as the source computes them, when nothing wraps. */
  lemma RoundValues(x: int, hyp: int)
    requires Size(hyp) <= ROOT && Reached(x, hyp)
    ensures Guard(x, hyp) <==> 2 * Square(x) < Square(hyp)
    ensures 2 * Square(x) < Square(hyp) ==> Remainder(x, hyp) == Square(hyp) - Square(x)
  {
    GuardFits(x, hyp);
    RootBounds();
    SquareMonotone(Size(hyp), ROOT);
    NothingWraps(x, hyp);
  }

  lemma NothingWraps(x: int, hyp: int)
    requires 2 * Square(x) <= MAX_INT64 && Square(hyp) <= MAX_INT64
    ensures Wrap(hyp * hyp) == Square(hyp) && Wrap(Wrap(2 * x) * x) == 2 * Square(x)
    ensures 2 * Square(x) < Square(hyp) ==> Remainder(x, hyp) == Square(hyp) - Square(x)
  {
    WrapProduct(2 * x, x);
    assert 2 * x * x == 2 * Square(x) && Square(x) >= 0 && Square(hyp) >= 0;
    assert Wrap(x * x) == Square(x);
  }

  /** Up to the largest root the loop only passes what is no leg. */
  lemma {:induction false} PassedReaches(x: int, hyp: int)
    requires Size(hyp) <= ROOT && Passed(x, hyp)
    ensures Reached(x, hyp)
    decreases x
  {
    if x > 1 {
      var u := x - 1;
      PassedReaches(u, hyp);
      RoundValues(u, hyp);
      assert Guard(u, hyp);
      forall v ensures !Legs(u, v, hyp) {
        if Legs(u, v, hyp) {
          LegIsHit(u, v, hyp);
          assert false;
        }
      }
    }
  }

  lemma LegIsHit(u: int, v: int, hyp: int)
    requires Legs(u, v, hyp) && Size(hyp) <= ROOT && Reached(u, hyp) && Guard(u, hyp)
    ensures HitAt(u, v, hyp)
  {
    LegBelowRoot(u, v, hyp);
    RoundValues(u, hyp);
  }

  lemma LegBelowRoot(u: int, v: int, hyp: int)
    requires Legs(u, v, hyp) && Size(hyp) <= ROOT
    ensures 0 < v <= ROOT
  {
    SquareMonotone(Size(hyp), ROOT);
    if v > ROOT { SquareMonotone(ROOT + 1, v); }
  }

  lemma RightUpToRoot(hyp: int, x: int, y: int, ok: bool)
    requires Size(hyp) <= ROOT && SearchAnswer(hyp, x, y, ok)
    ensures SmallestLegFound(hyp, x, y, ok)
  {
    if ok {
      PassedReaches(x, hyp);
      RoundValues(x, hyp);
      assert Square(y) == Square(hyp) - Square(x) > Square(x) > 0;
      SquareMonotone(x, y);
      assert Legs(x, y, hyp);
    } else {
      var u :| Passed(u, hyp) && !Guard(u, hyp);
      PassedReaches(u, hyp);
      RoundValues(u, hyp);
      NothingBeyondGuard(u, hyp);
    }
  }

  /** Between the largest root and 2^32 the wrapped square is negative and the guard fails at
      once. */
  lemma NothingFoundBelow32(hyp: int)
    requires ROOT < Size(hyp) < 0x1_0000_0000
    ensures !Guard(1, hyp) && Misses(hyp)
  {
    RootBounds();
    SquareMonotone(ROOT + 1, Size(hyp));
    SquareMonotone(Size(hyp), 0xffff_ffff);
    WrapShift(Square(hyp), -1);
    assert Wrap(hyp * hyp) == Square(hyp) - TWO64 < 0;
    assert Wrap(Wrap(2 * 1) * 1) == 2;
    assert Passed(1, hyp);
  }

  /** What the search finds beyond the largest root are never legs: both numbers are at most that
      root, so their hypotenuse would be below 2^32, where nothing is found. */
  lemma FalseBeyondRoot(hyp: int, x: int, y: int)
    requires Size(hyp) > ROOT && Finds(hyp, x, y)
    ensures Size(hyp) >= 0x1_0000_0000
    ensures forall z :: 0 < z <= ROOT ==> !Legs(z, y, hyp)
  {
    if Size(hyp) < 0x1_0000_0000 {
      NothingFoundBelow32(hyp);
      assert false;
    }
    RootBounds();
    SquareMonotone(y, ROOT);
    forall z | 0 < z <= ROOT ensures !Legs(z, y, hyp) {
      SquareMonotone(z, ROOT);
      SquareMonotone(0x1_0000_0000, Size(hyp));
    }
  }

  /** The answer is right exactly up to the largest root, and beyond it where there is nothing to
      find and nothing is found. So for hypotenuses it is right exactly up to the largest root;
      and below 2^32 it is wrong for nothing but the hypotenuses beyond it. */
  lemma AnswerRightIff(hyp: int, x: int, y: int, ok: bool)
    requires SearchAnswer(hyp, x, y, ok)
    ensures SmallestLegFound(hyp, x, y, ok) <==> -ROOT <= hyp <= ROOT || (!IsHypotenuse(hyp) && Misses(hyp))
    ensures IsHypotenuse(hyp) ==> (SmallestLegFound(hyp, x, y, ok) <==> -ROOT <= hyp <= ROOT)
    ensures Size(hyp) < 0x1_0000_0000 ==>
              (SmallestLegFound(hyp, x, y, ok) <==> -ROOT <= hyp <= ROOT || !IsHypotenuse(hyp))
  {
    if Size(hyp) <= ROOT {
      RightUpToRoot(hyp, x, y, ok);
    } else {
      if ok && SmallestLegFound(hyp, x, y, ok) { FalseBeyondRoot(hyp, x, y); }
      if Misses(hyp) { SearchUnique(hyp, x, y, ok, 0, 0, false); }
      if Size(hyp) < 0x1_0000_0000 { NothingFoundBelow32(hyp); }
    }
  }

  /** Two ways to be wrong beyond the largest root. Five times 2^32 is a hypotenuse, but its
      wrapped square is zero and nothing is found. And at 2^32 + 2, whose wrapped square is
      4 + 2^34, the search finds 2 and 2^17, which are no legs. */
  lemma WrongBeyondRoot()
    ensures Legs(3 * 0x1_0000_0000, 4 * 0x1_0000_0000, 5 * 0x1_0000_0000) && Misses(5 * 0x1_0000_0000)
    ensures Finds(4294967298, 2, 131072) && !Legs(2, 131072, 4294967298)
  {
    WrapShift(0, 25);
    assert Wrap(Square(5 * 0x1_0000_0000)) == 0;
    assert Wrap(Wrap(2 * 1) * 1) == 2;
    assert Passed(1, 5 * 0x1_0000_0000) && !Guard(1, 5 * 0x1_0000_0000);
    FalseLegs();
  }

  lemma FalseLegs()
    ensures Finds(4294967298, 2, 131072)
  {
    var hyp := 4294967298;
    WrapShift(17179869188, 1);
    assert Wrap(hyp * hyp) == 17179869188;
    assert Wrap(Wrap(2 * 1) * 1) == 2 && Wrap(Wrap(2 * 2) * 2) == 8;
    assert Remainder(1, hyp) == 17179869187 && Remainder(2, hyp) == Square(131072);
    forall v ensures !HitAt(1, v, hyp) {
      if HitAt(1, v, hyp) {
        SquareMonotone(v, 131072);
        SquareMonotone(v, 131071);
      }
    }
  }
}
