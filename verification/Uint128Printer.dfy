// Printing a 128-bit number held in two 64-bit halves, by long division by ten.
module Uint128Printer {
  import opened Arithmetic

  const TWO_64: nat := 0x1_0000_0000_0000_0000
  const TENTH: nat := 1844674407370955161  // 2^64 / 10; the remainder is 6

  function Value(high: nat, low: nat): nat {
    high * TWO_64 + low
  }

  function ValueOf(digits: seq<nat>): nat {
    if digits == [] then 0 else ValueOf(digits[..|digits| - 1]) * 10 + digits[|digits| - 1]
  }

  function Pow10(n: nat): nat {
    if n == 0 then 1 else 10 * Pow10(n - 1)
  }

  // The halves of one division: what is carried from the high half is spread over the low one.
  function Carry(high: nat, low: nat): nat {
    6 * (high % 10) + low % 10
  }

  function NextLow(high: nat, low: nat): nat {
    low / 10 + high % 10 * TENTH + Carry(high, low) / 10
  }

  // One turn divides exactly by ten, its digit is the remainder, and no 64-bit sum overflows.
  lemma DivisionStep(high: nat, low: nat)
    requires high < TWO_64 && low < TWO_64
    ensures Carry(high, low) < TWO_64 && NextLow(high, low) < TWO_64
    ensures Value(high, low) == 10 * Value(high / 10, NextLow(high, low)) + Carry(high, low) % 10
  {
    var q, m, ql, ml := high / 10, high % 10, low / 10, low % 10;
    var c := Carry(high, low);
    assert TWO_64 == 10 * TENTH + 6;
    // Bounding the three terms of the new low half one by one would not do.
    assert (TWO_64 - 1) / 10 + 9 * TENTH + (6 * 9 + 9) / 10 >= TWO_64;
    assert high == 10 * q + m && low == 10 * ql + ml && c == 10 * (c / 10) + c % 10;
    assert m * TWO_64 + low == 10 * NextLow(high, low) + c % 10;
    assert Value(high, low) == 10 * q * TWO_64 + (m * TWO_64 + low);
  }

  lemma {:induction false} ValueCons(d: nat, digits: seq<nat>)
    ensures ValueOf([d] + digits) == d * Pow10(|digits|) + ValueOf(digits)
  {
    if digits == [] {
      assert [d] + digits == [d];
      assert ValueOf([d][..0]) == 0;
    } else {
      var init, last := digits[..|digits| - 1], digits[|digits| - 1];
      assert ([d] + digits)[..|digits|] == [d] + init;
      ValueCons(d, init);
      assert 10 * (d * Pow10(|init|)) == d * Pow10(|digits|);
    }
  }

  // The number of decimal digits.
  function DigitCount(v: nat): nat {
    if v == 0 then 0 else 1 + DigitCount(v / 10)
  }

  lemma {:induction false} DigitCountBound(v: nat, n: nat)
    requires v < Pow10(n)
    ensures DigitCount(v) <= n
    decreases n
  {
    if v != 0 {
      DigitCountBound(v / 10, n - 1);
    }
  }

  lemma {:induction false} DigitCountTight(v: nat)
    requires v > 0
    ensures Pow10(DigitCount(v) - 1) <= v
  {
    if v >= 10 {
      DigitCountTight(v / 10);
    } else {
      assert DigitCount(v / 10) == 0;
    }
  }

  // 39 digits suffice for every 128-bit number.
  lemma ThirtyNineDigits(v: nat)
    requires v < TWO_64 * TWO_64
    ensures DigitCount(v) <= 39
  {
    PowerSplits(20, 19);
    Pow10Values();
    assert TWO_64 * TWO_64 <= Pow10(20) * Pow10(19);
    DigitCountBound(v, 39);
  }

  lemma {:induction false} PowerSplits(a: nat, b: nat)
    ensures Pow10(a + b) == Pow10(a) * Pow10(b)
  {
    if a > 0 {
      PowerSplits(a - 1, b);
    }
  }

  lemma Pow10Values()
    ensures Pow10(19) == 10000000000000000000 && Pow10(20) == 100000000000000000000
  {
    assert Pow10(4) == 10000 by {
      assert Pow10(2) == 100;
    }
    PowerSplits(4, 4);
    PowerSplits(8, 8);
    PowerSplits(16, 2);
    PowerSplits(18, 1);
    PowerSplits(19, 1);
  }

  // ----- The text

  function DigitOf(c: char): nat
    requires '0' <= c <= '9'
  {
    (c - '0') as nat
  }

  predicate IsNumeral(text: string) {
    forall i :: 0 <= i < |text| ==> '0' <= text[i] <= '9'
  }

  function Digits(text: string): (digits: seq<nat>)
    requires IsNumeral(text)
    ensures |digits| == |text|
  {
    seq(|text|, i requires 0 <= i < |text| => DigitOf(text[i]))
  }

  // The decimal numeral of v: its digits denote v, and only zero is written with a zero first.
  ghost predicate Denotes(text: string, v: nat) {
    IsNumeral(text) && text != "" && ValueOf(Digits(text)) == v && (text[0] == '0' ==> text == "0")
  }

  // The digits written so far, together with the number still to be divided, make up v.
  ghost predicate Printing(text: string, rest: nat, v: nat) {
    && IsNumeral(text) && rest * Pow10(|text|) + ValueOf(Digits(text)) == v
    && DigitCount(rest) + |text| == DigitCount(v)
    && (rest == 0 && text != "" ==> text[0] != '0')
  }

  lemma PrintingStep(text: string, rest: nat, v: nat, c: char)
    requires Printing(text, rest, v) && rest > 0 && '0' <= c <= '9' && DigitOf(c) == rest % 10
    ensures Printing([c] + text, rest / 10, v)
  {
    var longer := [c] + text;
    assert Digits(longer) == [DigitOf(c)] + Digits(text);
    ValueCons(DigitOf(c), Digits(text));
    assert Pow10(|longer|) == 10 * Pow10(|text|);
    ScaleSplit(rest, Pow10(|text|));
  }

  lemma ScaleSplit(rest: nat, scale: nat)
    ensures rest * scale == rest / 10 * (10 * scale) + rest % 10 * scale
  {
    assert rest == 10 * (rest / 10) + rest % 10;
    assert rest * scale == (10 * (rest / 10)) * scale + rest % 10 * scale;
  }

  // One turn of long division, specialised for a divisor of ten and two halves.
  method DivideByTen(high0: nat, low0: nat) returns (high: nat, low: nat, digit: nat)
    requires high0 < TWO_64 && low0 < TWO_64
    ensures high < TWO_64 && low < TWO_64 && digit < 10
    ensures Value(high0, low0) == 10 * Value(high, low) + digit
    ensures digit == Carry(high0, low0) % 10
  {
    DivisionStep(high0, low0);
    var highMod := high0 % 10;
    high := high0 / 10;
    var carry := 6 * highMod + low0 % 10;
    low := low0 / 10 + highMod * 1844674407370955161 + carry / 10;
    digit := carry % 10;
  }

  method PrintUnsigned(v: nat) returns (text: string)
    requires v < TWO_64 * TWO_64
    ensures Denotes(text, v) && |text| <= 39
  {
    if v == 0 {
      ZeroPrinted();
      return "0";
    }
    var buf := new char[40];
    var p := buf.Length;
    var high: nat, low: nat := v / TWO_64, v % TWO_64;
    ghost var rest, written := v, "";
    p := p - 1;
    buf[p] := '\0';
    ThirtyNineDigits(v);
    HalvesOf(v);
    while high != 0 || low != 0
      invariant 0 <= p <= 39 && high < TWO_64 && low < TWO_64 && rest == Value(high, low)
      invariant written == buf[p..39] && Printing(written, rest, v)
      decreases rest
    {
      ghost var longer := DigitFits(written, rest, v, high, low);
      var digit;
      high, low, digit := DivideByTen(high, low);
      p := p - 1;
      buf[p] := '0' + digit as char;
      assert buf[p..39] == longer;
      rest, written := rest / 10, longer;
    }
    AllPrinted(written, v);
    text := buf[p..39];
  }

  lemma ZeroPrinted()
    ensures Denotes("0", 0)
  {
    assert Digits("0")[..0] == [];
  }

  lemma AllPrinted(text: string, v: nat)
    requires v > 0 && Printing(text, 0, v)
    ensures Denotes(text, v)
  {
  }

  // One turn of the loop, on the numbers alone.
  lemma DigitFits(text: string, rest: nat, v: nat, high: nat, low: nat) returns (longer: string)
    requires high < TWO_64 && low < TWO_64 && rest == Value(high, low) > 0
    requires Printing(text, rest, v) && DigitCount(v) <= 39
    ensures |text| < 39 && longer == ['0' + (Carry(high, low) % 10) as char] + text
    ensures Printing(longer, rest / 10, v)
  {
    DivisionStep(high, low);
    DividesOut(rest, Value(high / 10, NextLow(high, low)), Carry(high, low) % 10);
    longer := ['0' + (Carry(high, low) % 10) as char] + text;
    PrintingStep(text, rest, v, longer[0]);
  }

  lemma DividesOut(rest: nat, quotient: nat, digit: nat)
    requires rest == 10 * quotient + digit && digit < 10
    ensures quotient == rest / 10 && digit == rest % 10
  {
  }

  lemma HalvesOf(v: nat)
    requires v < TWO_64 * TWO_64
    ensures v / TWO_64 < TWO_64 && Value(v / TWO_64, v % TWO_64) == v
    ensures Printing("", v, v)
  {
    assert Digits("") == [];
  }

  const MODULUS: nat := TWO_64 * TWO_64

  lemma NegateModulo(v: int, m: nat)
    requires m > 0 && -(m as int) <= 2 * v < m
    ensures v >= 0 ==> v % m == v
    ensures v < 0 ==> v % m == v + m && (-(v % m)) % m == -v
  {
    if v < 0 {
      ModOf(-1, v + m, m);
      ModOf(-1, -v, m);
    } else {
      ModOf(0, v, m);
    }
  }

  // The signed overload: the magnitude is taken by negating modulo 2^128, which is right even
  // for the most negative number.
  method PrintSigned(v: int) returns (text: string)
    requires -(MODULUS as int) <= 2 * v < MODULUS
    ensures v >= 0 ==> Denotes(text, v)
    ensures v < 0 ==> text != "" && text[0] == '-' && Denotes(text[1..], -v)
  {
    NegateModulo(v, MODULUS);
    var uv := v % MODULUS;
    var sign := "";
    if v < 0 {
      sign := "-";
      uv := (-uv) % MODULUS;
    }
    var magnitude := PrintUnsigned(uv);
    text := sign + magnitude;
    assert v >= 0 ==> text == magnitude;
    assert v < 0 ==> text[1..] == magnitude;
  }
}
