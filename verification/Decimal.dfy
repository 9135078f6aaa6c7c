/** Decimal numerals. */
module Decimal {
  import opened Text

  /** Two to the 64. */
  const WORD := 0x1_0000_0000_0000_0000

  const DIGITS := "0123456789"

  function Digits(n: nat): (s: string)
    ensures s != ""
  {
    if n < 10 then [DIGITS[n]] else Digits(n / 10) + [DIGITS[n % 10]]
  }

  function Integer(n: int): string { if n < 0 then "-" + Digits(-n) else Digits(n) }

  predicate IsDigit(c: char) { '0' <= c <= '9' }

  predicate Numeric(s: string) { s != "" && forall i :: 0 <= i < |s| ==> IsDigit(s[i]) }

  function DigitValue(c: char): nat
    requires IsDigit(c)
  {
    c as int - '0' as int
  }

  function Value(s: string): nat
    requires forall i :: 0 <= i < |s| ==> IsDigit(s[i])
  {
    if s == "" then 0 else Value(s[..|s| - 1]) * 10 + DigitValue(s[|s| - 1])
  }

  /** No superfluous leading zero. */
  predicate Plain(s: string) { |s| > 1 ==> s[0] != '0' }

  lemma {:induction false} DigitsValue(n: nat)
    ensures Numeric(Digits(n)) && Value(Digits(n)) == n
    ensures Plain(Digits(n)) && (n > 0 ==> Digits(n)[0] != '0')
  {
    if n >= 10 {
      DigitsValue(n / 10);
      assert Digits(n)[..|Digits(n)| - 1] == Digits(n / 10);
    }
  }

  lemma DigitsMore(tens: nat, ones: nat)
    requires tens > 0 && ones < 10
    ensures Digits(tens * 10 + ones) == Digits(tens) + [DIGITS[ones]]
  {
    TensOnes(tens, ones);
  }

  lemma TensOnes(tens: nat, ones: nat)
    requires ones < 10
    ensures (tens * 10 + ones) / 10 == tens && (tens * 10 + ones) % 10 == ones
  {
  }

  /** A numeral without leading zeros is the one its value is written with. */
  lemma ValueDigits(s: string)
    requires Numeric(s) && Plain(s)
    ensures Digits(Value(s)) == s
  {
    DigitsValue(Value(s));
    SameValue(Digits(Value(s)), s);
  }

  lemma {:induction false} SameValue(a: string, b: string)
    requires Numeric(a) && Plain(a) && Numeric(b) && Plain(b) && Value(a) == Value(b)
    ensures a == b
  {
    if |a| == 1 && |b| == 1 {
      OneDigit(a);
      OneDigit(b);
    } else if |a| == 1 {
      OneDigit(a);
      ValueLarge(b);
    } else if |b| == 1 {
      OneDigit(b);
      ValueLarge(a);
    } else {
      SameParts(a, b);
      assert a[..|a| - 1][0] == a[0] && b[..|b| - 1][0] == b[0];
      SameValue(a[..|a| - 1], b[..|b| - 1]);
      FrontLast(a);
      FrontLast(b);
    }
  }

  lemma OneDigit(s: string)
    requires Numeric(s) && |s| == 1
    ensures Value(s) == DigitValue(s[0]) < 10 && s == [s[0]]
  {
    assert s[..0] == "";
  }

  lemma ValueLarge(s: string)
    requires Numeric(s) && Plain(s) && |s| > 1
    ensures Value(s) >= 10
  {
    assert s[..|s| - 1][0] == s[0];
    ValuePositive(s[..|s| - 1]);
  }

  lemma SameParts(a: string, b: string)
    requires Numeric(a) && Numeric(b) && Value(a) == Value(b)
    ensures Value(a[..|a| - 1]) == Value(b[..|b| - 1]) && a[|a| - 1] == b[|b| - 1]
  {
    TensOnes(Value(a[..|a| - 1]), DigitValue(a[|a| - 1]));
    TensOnes(Value(b[..|b| - 1]), DigitValue(b[|b| - 1]));
  }

  lemma {:induction false} ValuePositive(s: string)
    requires Numeric(s) && s[0] != '0'
    ensures Value(s) > 0
  {
    if |s| > 1 { ValuePositive(s[..|s| - 1]); }
  }

  /** The number a text of digits with an optional minus sign stands for. */
  function ReadInteger(s: string): int
    requires Signed(s)
  {
    if s[0] == '-' then 0 - Value(s[1..]) else Value(s)
  }

  predicate Signed(s: string) { Numeric(s) || (s != "" && s[0] == '-' && Numeric(s[1..])) }

  lemma IntegerReads(n: int)
    ensures Signed(Integer(n)) && ReadInteger(Integer(n)) == n
  {
    var digits := Digits(Abs(n));
    DigitsValue(Abs(n));
    HeadTail("-", digits);
    assert IsDigit(digits[0]);
    if n < 0 { SignedReads(digits); }
  }

  lemma SignedReads(digits: string)
    requires Numeric(digits)
    ensures Signed("-" + digits) && ReadInteger("-" + digits) == 0 - Value(digits)
  {
    HeadTail("-", digits);
  }

  /** A percentage with one decimal, ties to even. */
  function Percent(x: real): string {
    var tenths := RoundEven(x * 10.0);
    (if x < 0.0 then "-" else "") + Digits(Abs(tenths) / 10) + "." + Digits(Abs(tenths) % 10) + "%"
  }

  /** What a percentage shows: a sign if it is negative, and a whole number and a tenth
      that together are as near as a tenth can be. */
  lemma PercentShows(x: real) returns (whole: nat, tenth: nat)
    ensures Percent(x) == (if x < 0.0 then "-" else "") + Digits(whole) + "." + [DIGITS[tenth % 10]] + "%"
    ensures tenth < 10
    ensures var shown := whole as real + tenth as real / 10.0;
      shown - 0.05 <= (if x < 0.0 then -x else x) <= shown + 0.05
  {
    var tenths := RoundEven(x * 10.0);
    RoundEvenNearest(x * 10.0);
    whole, tenth := Abs(tenths) / 10, Abs(tenths) % 10;
    assert Digits(tenth) == [DIGITS[tenth]];
    assert Abs(tenths) == 10 * whole + tenth;
    assert Abs(tenths) as real == 10.0 * whole as real + tenth as real;
  }

  function Abs(n: int): nat { if n < 0 then -n else n }

  function RoundEven(x: real): int {
    var down := x.Floor;
    var rest := x - down as real;
    if rest < 0.5 || (rest == 0.5 && down % 2 == 0) then down else down + 1
  }

  /** The nearest integer, and of two equally near the even one. */
  lemma RoundEvenNearest(x: real)
    ensures RoundEven(x) as real - 0.5 <= x <= RoundEven(x) as real + 0.5
    ensures x - x.Floor as real == 0.5 ==> RoundEven(x) % 2 == 0
    ensures forall y: real :: x <= y ==> RoundEven(x) <= RoundEven(y)
  {
    forall y: real | x <= y ensures RoundEven(x) <= RoundEven(y) {
      if x.Floor == y.Floor { assert x - x.Floor as real <= y - y.Floor as real; }
    }
  }
}
