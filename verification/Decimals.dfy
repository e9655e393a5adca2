/** Decimal numerals. */
module Decimals {

  predicate IsDigit(c: char) { '0' <= c <= '9' }

  predicate AllDigits(s: string) { forall c <- s :: IsDigit(c) }

  function DigitOf(c: char): (n: nat)
    requires IsDigit(c)
    ensures n < 10
  {
    c as int - '0' as int
  }

  function CharOf(n: nat): (c: char)
    requires n < 10
    ensures IsDigit(c) && DigitOf(c) == n
  {
    ('0' as int + n) as char
  }

  /** The number a string of digits stands for; leading zeros count for nothing. */
  function Value(s: string): nat
    requires AllDigits(s)
  {
    if s == "" then 0 else Value(s[..|s| - 1]) * 10 + DigitOf(s[|s| - 1])
  }

  /** The numeral without leading zeros. */
  function Decimal(n: nat): (s: string)
    ensures AllDigits(s) && s != ""
  {
    if n < 10 then [CharOf(n)] else Decimal(n / 10) + [CharOf(n % 10)]
  }

  lemma {:induction false} ValueOfDecimal(n: nat)
    ensures Value(Decimal(n)) == n
  {
    if n >= 10 {
      ValueOfDecimal(n / 10);
      assert Decimal(n)[..|Decimal(n)| - 1] == Decimal(n / 10);
    } else {
      assert Decimal(n)[..0] == "";
    }
  }

  function Pow10(n: nat): (p: nat)
    ensures p > 0
  {
    if n == 0 then 1 else 10 * Pow10(n - 1)
  }

  /** The digits, written out. */
  lemma DigitsWritten(n: nat)
    requires n < 10
    ensures CharOf(n) == "0123456789"[n] && DigitOf("0123456789"[n]) == n
  {
    assert n == 0 || n == 1 || n == 2 || n == 3 || n == 4 || n == 5 || n == 6 || n == 7 || n == 8 || n == 9;
  }

  lemma ValueSnoc(s: string, c: char)
    requires AllDigits(s) && IsDigit(c)
    ensures AllDigits(s + [c]) && Value(s + [c]) == Value(s) * 10 + DigitOf(c)
  {
    assert (s + [c])[..|s|] == s;
  }

  lemma {:induction false} ValueConcat(a: string, b: string)
    requires AllDigits(a) && AllDigits(b)
    ensures AllDigits(a + b) && Value(a + b) == Value(a) * Pow10(|b|) + Value(b)
  {
    hide Value, Pow10, IsDigit;
    if b == "" {
      assert a + b == a;
      NoMore();
    } else {
      var front, last := b[..|b| - 1], b[|b| - 1];
      assert b == front + [last] && a + b == (a + front) + [last];
      ValueConcat(a, front);
      ValueSnoc(front, last);
      ValueSnoc(a + front, last);
      Scaled(Value(a), Pow10(|front|));
      PowMore(|front|);
    }
  }

  lemma NoMore()
    ensures Value("") == 0 && Pow10(0) == 1
  {
  }

  lemma PowMore(n: nat)
    ensures Pow10(n + 1) == 10 * Pow10(n)
  {
  }

  lemma Scaled(v: nat, p: nat)
    ensures v * (10 * p) == v * p * 10
  {
  }

  function ZeroChars(n: nat): (s: string)
    ensures |s| == n && AllDigits(s) && forall c <- s :: c == '0'
  {
    if n == 0 then "" else ZeroChars(n - 1) + "0"
  }

  lemma {:induction false} ValueOfZeros(n: nat)
    ensures Value(ZeroChars(n)) == 0
  {
    if n > 0 {
      ValueOfZeros(n - 1);
      assert ZeroChars(n)[..n - 1] == ZeroChars(n - 1);
    }
  }

  /** A string of digits without its leading zeros, but not without all digits. */
  function Stripped(s: string): string {
    if s == "" then "0" else if s[0] != '0' then s else Stripped(s[1..])
  }

  lemma {:induction false} ValueFrom(s: string)
    requires AllDigits(s) && s != "" && s[0] == '0'
    ensures Value(s) == Value(s[1..])
  {
    ValueConcat([s[0]], s[1..]);
    assert s == [s[0]] + s[1..];
    assert Value([s[0]]) == Value([s[0]][..0]) * 10;
  }

  /** A string of digits that begins with another than zero is the numeral of its value. */
  lemma {:induction false} NumeralIs(s: string)
    requires AllDigits(s) && s != "" && s[0] != '0'
    ensures Decimal(Value(s)) == s && Value(s) > 0
  {
    hide Value, Decimal, IsDigit;
    var front, last := s[..|s| - 1], s[|s| - 1];
    assert s == front + [last];
    ValueSnoc(front, last);
    DecimalSnoc(Value(front), last);
    if front == "" {
      NoMore();
    } else {
      NumeralIs(front);
    }
  }

  lemma DecimalSnoc(v: nat, c: char)
    requires IsDigit(c)
    ensures Decimal(10 * v + DigitOf(c)) == (if v == 0 then "" else Decimal(v)) + [c]
    ensures c != '0' ==> DigitOf(c) > 0
  {
    Tens(v, DigitOf(c));
    assert CharOf(DigitOf(c)) == c;
  }

  lemma Tens(v: nat, d: nat)
    requires d < 10
    ensures (10 * v + d) / 10 == v && (10 * v + d) % 10 == d
  {
  }

  lemma {:induction false} StrippedIs(s: string)
    requires AllDigits(s)
    ensures Stripped(s) == Decimal(Value(s))
  {
    if s == "" {
      assert CharOf(0) == '0';
    } else if s[0] == '0' {
      ValueFrom(s);
      StrippedIs(s[1..]);
    } else {
      NumeralIs(s);
    }
  }
}
