/** Decimal text of integers. */
module Text {

  function Digits(n: nat): string
  {
    (if n < 10 then [] else Digits(n / 10)) + [('0' as int + n % 10) as char]
  }

  function Itoa(n: int): string
  {
    if n < 0 then "-" + Digits(-n) else Digits(n)
  }

  lemma {:induction false} DigitsAreDigits(n: nat)
    ensures Digits(n) != "" && '0' <= Digits(n)[0] <= '9'
  {
    if n >= 10 { DigitsAreDigits(n / 10); }
  }

  lemma {:induction false} DigitsInjective(m: nat, n: nat)
    requires Digits(m) == Digits(n)
    ensures m == n
  {
    var s, t := Digits(m), Digits(n);
    assert s[|s| - 1] == t[|t| - 1] && s[..|s| - 1] == t[..|t| - 1];
    DigitsAreDigits(m / 10);
    DigitsAreDigits(n / 10);
    if m >= 10 && n >= 10 { DigitsInjective(m / 10, n / 10); }
  }

  /** Different numbers have different texts. */
  lemma ItoaInjective(m: int, n: int)
    requires Itoa(m) == Itoa(n)
    ensures m == n
  {
    DigitsAreDigits(if m < 0 then -m else m);
    DigitsAreDigits(if n < 0 then -n else n);
    if m < 0 && n < 0 {
      assert Itoa(m)[1..] == Digits(-m) && Itoa(n)[1..] == Digits(-n);
      DigitsInjective(-m, -n);
    } else if m >= 0 && n >= 0 {
      DigitsInjective(m, n);
    } else {
      assert false;
    }
  }

  // ---------- reading numbers back ----------

  predicate AllDigits(s: string)
  {
    forall k :: 0 <= k < |s| ==> '0' <= s[k] <= '9'
  }

  /** Reading digits from left to right, with v read before. */
  function ReadDigits(s: string, v: int): int
  {
    if s == "" then v else ReadDigits(s[1..], 10 * v + (s[0] as int - '0' as int))
  }

  /** s is how a natural number is written: its digits, without a leading zero. */
  predicate WritesNat(s: string, n: int)
  {
    s != "" && AllDigits(s) && (s[0] == '0' ==> |s| == 1) && ReadDigits(s, 0) == n
  }

  /** s is how an integer is written. */
  predicate Writes(s: string, n: int)
  {
    if n < 0 then s != "" && s[0] == '-' && WritesNat(s[1..], -n) else WritesNat(s, n)
  }

  lemma {:induction false} ReadLast(s: string, c: char, v: int)
    ensures ReadDigits(s + [c], v) == 10 * ReadDigits(s, v) + (c as int - '0' as int)
  {
    if s == "" {
      assert ReadDigits([c][1..], 10 * v + (c as int - '0' as int)) == 10 * v + (c as int - '0' as int);
    } else {
      assert (s + [c])[1..] == s[1..] + [c];
      ReadLast(s[1..], c, 10 * v + (s[0] as int - '0' as int));
    }
  }

  lemma {:induction false} DigitsWrite(n: nat)
    ensures WritesNat(Digits(n), n) && (n > 0 ==> Digits(n)[0] != '0')
  {
    var c := ('0' as int + n % 10) as char;
    if n < 10 {
      assert Digits(n) == [c];
      assert ReadDigits([c][1..], n) == n;
    } else {
      DigitsWrite(n / 10);
      ReadLast(Digits(n / 10), c, 0);
    }
  }

  /** The text of a number reads back as that number, in standard form. */
  lemma ItoaWrites(n: int)
    ensures Writes(Itoa(n), n)
  {
    DigitsWrite(if n < 0 then -n else n);
    if n < 0 { assert Itoa(n)[1..] == Digits(-n); }
  }

  lemma {:induction false} ReadNotNegative(s: string, v: int)
    requires AllDigits(s) && v >= 0
    ensures ReadDigits(s, v) >= v
  {
    if s != "" { ReadNotNegative(s[1..], 10 * v + (s[0] as int - '0' as int)); }
  }

  /** No other text does. */
  lemma {:induction false} WritesOnlyDigits(s: string, n: nat)
    requires WritesNat(s, n)
    ensures s == Digits(n)
  {
    var front, c := s[..|s| - 1], s[|s| - 1];
    assert s == front + [c];
    ReadLast(front, c, 0);
    if front == "" {
      assert ReadDigits(front, 0) == 0;
    } else {
      ReadNotNegative(front, 0);
      ReadPositive(front);
      WritesOnlyDigits(front, n / 10);
    }
  }

  lemma {:induction false} ReadPositive(s: string)
    requires s != "" && AllDigits(s) && s[0] != '0'
    ensures ReadDigits(s, 0) >= 1
  {
    ReadNotNegative(s[1..], s[0] as int - '0' as int);
  }

  lemma {:induction false} WritesOnlyItoa(s: string, n: int)
    ensures Writes(s, n) <==> s == Itoa(n)
  {
    ItoaWrites(n);
    if Writes(s, n) {
      if n < 0 { WritesOnlyDigits(s[1..], -n); assert s == [s[0]] + s[1..]; } else { WritesOnlyDigits(s, n); }
    }
  }

  // ---------- numbers in a text ----------

  predicate Numeric(s: string)
  {
    forall k :: 0 <= k < |s| ==> '0' <= s[k] <= '9' || s[k] == '-'
  }

  lemma {:induction false} DigitsNumeric(n: nat)
    ensures Numeric(Digits(n))
  {
    if n >= 10 { DigitsNumeric(n / 10); }
  }

  lemma ItoaNumeric(n: int)
    ensures Numeric(Itoa(n))
  {
    DigitsNumeric(if n < 0 then -n else n);
  }

  /** Where a number is followed by something else, both can be read back. */
  lemma {:induction false} NumberThenText(m: int, s: string, n: int, t: string)
    requires s != "" && t != "" && !Numeric(s[..1]) && !Numeric(t[..1])
    requires Itoa(m) + s == Itoa(n) + t
    ensures m == n && s == t
  {
    var a, b := Itoa(m), Itoa(n);
    ItoaNumeric(m);
    ItoaNumeric(n);
    var whole := a + s;
    assert whole[|a|] == s[0] == s[..1][0] && whole[|b|] == t[0] == t[..1][0];
    assert forall k :: 0 <= k < |a| ==> whole[k] == a[k];
    assert forall k :: 0 <= k < |b| ==> whole[k] == b[k];
    assert a == whole[..|a|] && b == whole[..|b|];
    assert s == whole[|a|..] && t == whole[|b|..];
    ItoaInjective(m, n);
  }
}
