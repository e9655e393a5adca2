/** toWei and fromWei: moving the decimal point of a numeral. */
module Wei {
  import opened Decimals

  predicate DigitOrPoint(c: char) { IsDigit(c) || c == '.' }

  /** The characters before the first point, and what is left from there on. */
  function Whole(s: string): (w: string)
    ensures w <= s
  {
    if s == "" || s[0] == '.' then "" else [s[0]] + Whole(s[1..])
  }

  /** What stands behind the first point. */
  function Fraction(s: string): string {
    if |Whole(s)| < |s| then s[|Whole(s)| + 1..] else ""
  }

  function WeiOf(amount: string, decimals: nat): string {
    if exists c <- amount :: !DigitOrPoint(c) then ""
    else if |Fraction(amount)| > decimals then ""
    else Stripped(Whole(amount) + Fraction(amount) + ZeroChars(decimals - |Fraction(amount)|))
  }

  function WeiAsPoint(amount: string, decimals: nat): string {
    if |amount| <= decimals then "0." + ZeroChars(decimals - |amount|) + amount
    else amount[..|amount| - decimals] + "." + amount[|amount| - decimals..]
  }

  // ------------------------------------------------------------------ The loops

  method ToWei(amount: string, decimals: nat) returns (valuestr: string)
    ensures valuestr == WeiOf(amount, decimals)
  {
    hide Whole, Stripped;
    if exists i :: 0 <= i < |amount| && !DigitOrPoint(amount[i]) {
      return "";
    }
    var index;
    valuestr, index := ReadWhole(amount);
    index := index + 1;
    if index <= |amount| {
      if amount[index - 1] == '.' && |amount| - index > decimals {
        return "";
      }
    }
    var digitPadding := ReadFrom(amount, index);
    digitPadding := PadZeros(digitPadding, decimals);
    assert valuestr + digitPadding == Whole(amount) + Fraction(amount) + ZeroChars(decimals - |Fraction(amount)|);
    valuestr := EraseZeros(valuestr + digitPadding);
  }

  /** Up to the point, or to the end. */
  method ReadWhole(amount: string) returns (valuestr: string, index: nat)
    ensures valuestr == Whole(amount) && index == |valuestr|
    ensures index < |amount| ==> amount[index] == '.'
  {
    hide Whole;
    valuestr, index := "", 0;
    while index < |amount| && amount[index] != '.'
      invariant index <= |amount| && valuestr == amount[..index]
      invariant forall i :: 0 <= i < index ==> amount[i] != '.'
    {
      valuestr := valuestr + [amount[index]];
      index := index + 1;
    }
    WholeIs(amount, index);
  }

  lemma {:induction false} WholeIs(s: string, n: nat)
    requires n <= |s| && (forall i :: 0 <= i < n ==> s[i] != '.') && (n < |s| ==> s[n] == '.')
    ensures Whole(s) == s[..n]
  {
    if n > 0 {
      WholeIs(s[1..], n - 1);
      assert s[..n] == [s[0]] + s[1..][..n - 1];
    }
  }

  method ReadFrom(amount: string, start: nat) returns (rest: string)
    ensures rest == if start < |amount| then amount[start..] else ""
  {
    rest := "";
    var index := start;
    while index < |amount|
      invariant start <= index && rest == if start < |amount| then amount[start..if index < |amount| then index else |amount|] else ""
    {
      rest := rest + [amount[index]];
      index := index + 1;
    }
  }

  method PadZeros(digits: string, decimals: nat) returns (padded: string)
    ensures padded == digits + if |digits| < decimals then ZeroChars(decimals - |digits|) else ""
  {
    padded := digits;
    while |padded| < decimals
      invariant |digits| <= |padded| && (|padded| > |digits| ==> |padded| <= decimals)
      invariant padded == digits + ZeroChars(|padded| - |digits|)
    {
      assert ZeroChars(|padded| + 1 - |digits|) == ZeroChars(|padded| - |digits|) + "0";
      padded := padded + "0";
    }
  }

  method EraseZeros(digits: string) returns (stripped: string)
    ensures stripped == Stripped(digits)
  {
    stripped := digits;
    while stripped != "" && stripped[0] == '0'
      invariant Stripped(stripped) == Stripped(digits)
      decreases |stripped|
    {
      stripped := stripped[1..];
    }
    if stripped == "" {
      stripped := "0";
    }
  }

  method FromWei(amount: string, decimals: nat) returns (result: string)
    ensures result == WeiAsPoint(amount, decimals)
  {
    if |amount| <= decimals {
      result := "0.";
      for i := 0 to decimals - |amount|
        invariant result == "0." + ZeroChars(i)
      {
        result := result + "0";
      }
      result := result + amount;
    } else {
      var pointToPlace := |amount| - decimals;
      result := amount[..pointToPlace] + "." + amount[pointToPlace..];
    }
  }

  // ------------------------------------------------------------------ What they mean

  lemma PartsOf(w: string, f: string)
    requires AllDigits(w)
    ensures Whole(w + "." + f) == w && Fraction(w + "." + f) == f && Whole(w) == w && Fraction(w) == ""
  {
    hide Whole;
    var s := w + "." + f;
    assert forall i :: 0 <= i < |w| ==> s[i] == w[i] && IsDigit(w[i]);
    WholeIs(s, |w|);
    WholeIs(w, |w|);
    assert s[..|w|] == w && s[|w| + 1..] == f;
  }

  /** The value of an amount in the smallest unit. */
  function Units(w: string, f: string, decimals: nat): nat
    requires AllDigits(w) && AllDigits(f) && |f| <= decimals
  {
    Value(w) * Pow10(decimals) + Value(f) * Pow10(decimals - |f|)
  }

  lemma {:induction false} Pow10Sum(m: nat, n: nat)
    ensures Pow10(m + n) == Pow10(m) * Pow10(n)
  {
    hide Pow10;
    if m == 0 {
      NoMore();
      assert 1 * Pow10(n) == Pow10(n);
    } else {
      Pow10Sum(m - 1, n);
      PowMore(m - 1);
      PowMore(m - 1 + n);
      Associated(10, Pow10(m - 1), Pow10(n));
    }
  }

  lemma Associated(x: nat, y: nat, z: nat)
    ensures x * (y * z) == x * y * z
  {
  }

  lemma ShiftedValue(w: string, f: string, decimals: nat)
    requires AllDigits(w) && AllDigits(f) && |f| <= decimals
    ensures AllDigits(w + f + ZeroChars(decimals - |f|)) && Value(w + f + ZeroChars(decimals - |f|)) == Units(w, f, decimals)
  {
    hide Value, Pow10, IsDigit, ZeroChars;
    var n := decimals - |f|;
    ValueConcat(w, f);
    ValueConcat(w + f, ZeroChars(n));
    ValueOfZeros(n);
    Pow10Sum(|f|, n);
    Distributed(Value(w), Pow10(|f|), Value(f), Pow10(n));
  }

  lemma Distributed(a: nat, b: nat, c: nat, d: nat)
    ensures (a * b + c) * d == a * (b * d) + c * d
  {
  }

  /** With at most one point and a fraction that fits, toWei is the numeral of the amount in the smallest unit. */
  lemma WeiIsUnits(w: string, f: string, decimals: nat)
    requires AllDigits(w) && AllDigits(f)
    ensures WeiOf(w + "." + f, decimals) == if |f| <= decimals then Decimal(Units(w, f, decimals)) else ""
    ensures WeiOf(w, decimals) == Decimal(Units(w, "", decimals))
  {
    hide Whole, Fraction, Stripped, Value;
    PartsOf(w, f);
    OnlyDigits(w, f);
    if |f| <= decimals {
      ShiftedValue(w, f, decimals);
      StrippedIs(w + f + ZeroChars(decimals - |f|));
    }
    ShiftedValue(w, "", decimals);
    assert w + "" == w;
    StrippedIs(w + ZeroChars(decimals));
  }

  lemma OnlyDigits(w: string, f: string)
    requires AllDigits(w) && AllDigits(f)
    ensures !(exists c <- w + "." + f :: !DigitOrPoint(c)) && !(exists c <- w :: !DigitOrPoint(c))
  {
  }

  /** Moving the point down and up again leaves a numeral as it is, but for its leading zeros. */
  lemma WeiRoundTrip(n: string, decimals: nat)
    requires AllDigits(n) && n != ""
    ensures WeiOf(WeiAsPoint(n, decimals), decimals) == Decimal(Value(n))
  {
    hide *;
    var w := if |n| <= decimals then "0" else n[..|n| - decimals];
    var f := if |n| <= decimals then ZeroChars(decimals - |n|) + n else n[|n| - decimals..];
    PointPlaced(n, decimals, w, f);
    ParsedBack(n, decimals, w, f);
    WeiIsUnits(w, f, decimals);
  }

  lemma PointPlaced(n: string, decimals: nat, w: string, f: string)
    requires |n| <= decimals ==> w == "0" && f == ZeroChars(decimals - |n|) + n
    requires |n| > decimals ==> w == n[..|n| - decimals] && f == n[|n| - decimals..]
    ensures WeiAsPoint(n, decimals) == w + "." + f && |f| == decimals && (|n| > decimals ==> n == w + f)
  {
    hide ZeroChars;
    if |n| <= decimals {
      assert "0." + ZeroChars(decimals - |n|) + n == "0" + "." + (ZeroChars(decimals - |n|) + n);
    }
  }

  lemma ParsedBack(n: string, decimals: nat, w: string, f: string)
    requires AllDigits(n) && |f| == decimals
    requires if |n| <= decimals then w == "0" && f == ZeroChars(decimals - |n|) + n else n == w + f
    ensures AllDigits(w) && AllDigits(f) && Units(w, f, decimals) == Value(n)
  {
    hide *;
    if |n| <= decimals {
      ValueConcat(ZeroChars(decimals - |n|), n);
      ValueOfZeros(decimals - |n|);
      ZeroIsZero();
      NoWhole(w, f);
      assert Value(f) == Value(n);
    } else {
      PartsAreDigits(w, f);
      ValueConcat(w, f);
      WholeUnits(w, f);
    }
  }

  lemma WholeUnits(w: string, f: string)
    requires AllDigits(w) && AllDigits(f)
    ensures Units(w, f, |f|) == Value(w) * Pow10(|f|) + Value(f)
  {
    hide Value, AllDigits;
    assert Pow10(0) == 1;
  }

  lemma NoWhole(w: string, f: string)
    requires AllDigits(w) && AllDigits(f) && Value(w) == 0
    ensures Units(w, f, |f|) == Value(f)
  {
    hide Value, AllDigits;
    WholeUnits(w, f);
  }

  lemma ZeroIsZero()
    ensures AllDigits("0") && Value("0") == 0
  {
    assert "0"[..0] == "";
  }

  lemma PartsAreDigits(w: string, f: string)
    requires AllDigits(w + f)
    ensures AllDigits(w) && AllDigits(f)
  {
    forall c <- w ensures IsDigit(c) {
      assert c in w + f;
    }
    forall c <- f ensures IsDigit(c) {
      assert c in w + f;
    }
  }

  lemma {:induction false} PointStays(s: string)
    requires '.' in s
    ensures '.' in Stripped(s)
  {
    if s[0] == '0' {
      assert s == [s[0]] + s[1..];
      PointStays(s[1..]);
    }
  }

  /** An amount in which no second point stands behind the first. */
  predicate Wellformed(amount: string) {
    (forall c <- amount :: DigitOrPoint(c)) && '.' !in Fraction(amount)
  }

  lemma {:induction false} WholeDigits(s: string)
    requires forall c <- s :: DigitOrPoint(c)
    ensures AllDigits(Whole(s))
  {
    if s != "" && s[0] != '.' {
      assert s[0] in s && IsDigit(s[0]);
      WholeDigits(s[1..]);
      assert Whole(s) == [s[0]] + Whole(s[1..]);
    }
  }

  lemma FractionParts(s: string)
    requires forall c <- s :: DigitOrPoint(c)
    ensures AllDigits(Whole(s)) && forall c <- Fraction(s) :: DigitOrPoint(c)
    ensures '.' !in Fraction(s) ==> AllDigits(Fraction(s))
  {
    WholeDigits(s);
    hide Whole;
    forall c <- Fraction(s) ensures c in s {
    }
  }

  /**
   * toWei gives a numeral exactly for an amount of digits with at most one point whose fraction fits, and then it is
   * that of the amount in the smallest unit. A second point is not noticed.
   */
  lemma WeiIff(amount: string, decimals: nat)
    ensures var r := WeiOf(amount, decimals);
            r != "" && AllDigits(r) <==> Wellformed(amount) && |Fraction(amount)| <= decimals
    ensures Wellformed(amount) && |Fraction(amount)| <= decimals ==>
              && AllDigits(Whole(amount)) && AllDigits(Fraction(amount))
              && WeiOf(amount, decimals) == Decimal(Units(Whole(amount), Fraction(amount), decimals))
  {
    hide Whole, Fraction, Stripped, Value;
    if (forall c <- amount :: DigitOrPoint(c)) && |Fraction(amount)| <= decimals {
      FractionParts(amount);
      var w, f := Whole(amount), Fraction(amount);
      var zeros := ZeroChars(decimals - |f|);
      if '.' in f {
        assert '.' in w + f + zeros;
        PointStays(w + f + zeros);
      } else {
        ShiftedValue(w, f, decimals);
        StrippedIs(w + f + zeros);
      }
    }
  }

  /** An amount with two points whose result is no numeral. */
  lemma SecondPointStays()
    ensures WeiOf("1.2.3", 3) == "12.3"
  {
    assert Whole("1.2.3") == "1" && Fraction("1.2.3") == "2.3";
    assert ZeroChars(0) == "";
  }
}
