// The number that a number text of section 6 of RFC 8259 stands for.
module JsonNumbers {
  import J = Json

  // The digits before an exponent.
  function Digits(s: string): (d: string)
    ensures forall i :: 0 <= i < |d| ==> J.IsDigit(d[i])
  {
    if s == "" || s[0] in "eE" then "" else (if J.IsDigit(s[0]) then [s[0]] else "") + Digits(s[1..])
  }

  // How many of them are behind the dot.
  function Places(s: string): nat {
    if s == "" || s[0] in "eE" then 0 else if s[0] == '.' then |Digits(s[1..])| else Places(s[1..])
  }

  function Exponent(s: string): int {
    if s == "" then 0
    else if s[0] in "eE" then J.ParseInt(if |s| > 1 && s[1] == '+' then s[2..] else s[1..])
    else Exponent(s[1..])
  }

  function Power10(n: int): (p: real)
    ensures p > 0.0
    decreases if n < 0 then -n else n
  {
    if n == 0 then 1.0 else if n > 0 then 10.0 * Power10(n - 1) else Power10(n + 1) / 10.0
  }

  // An integer with its decimal point moved.
  function Scaled(m: nat, e: int): real { (m as real) * Power10(e) }

  function NumericValue(s: string): real {
    var size := Scaled(J.Number(Digits(s)), Exponent(s) - Places(s));
    if s != "" && s[0] == '-' then -size else size
  }

  // An integer's numeral stands for it.
  lemma {:induction false} NumeralValue(n: int)
    ensures NumericValue(J.Numeral(n)) == n as real
  {
    var m := if n < 0 then -n else n;
    var d := J.Decimal(m);
    OnlyDigits(d);
    J.NumberDecimal(m);
    if n < 0 {
      BehindMinus(d);
    }
    assert J.Numeral(n)[0] == '-' <==> n < 0;
  }

  lemma {:induction false} BehindMinus(d: string)
    ensures Digits("-" + d) == Digits(d) && Places("-" + d) == Places(d) && Exponent("-" + d) == Exponent(d)
  {
    var s := "-" + d;
    assert s[0] == '-' && s[1..] == d && "" + Digits(d) == Digits(d);
  }

  lemma {:induction false} OnlyDigits(d: string)
    requires forall i :: 0 <= i < |d| ==> J.IsDigit(d[i])
    ensures Digits(d) == d && Places(d) == 0 && Exponent(d) == 0
  {
    if d != "" {
      OnlyDigits(d[1..]);
    }
  }

  // Digits, a dot, more digits and an exponent stand for what they do.
  lemma {:induction false} DecimalValue(a: string, b: string, e: int)
    requires forall i :: 0 <= i < |a| ==> J.IsDigit(a[i])
    requires forall i :: 0 <= i < |b| ==> J.IsDigit(b[i])
    ensures var s := a + ("." + (b + ("e" + J.Numeral(e))));
            NumericValue(s) == Scaled(J.Number(a + b), e - |b|)
  {
    DecimalParts(a, b, e);
    ValueOfParts(a + ("." + (b + ("e" + J.Numeral(e)))), a + b, |b|, e);
  }

  lemma {:induction false} ValueOfParts(s: string, d: string, places: nat, e: int)
    requires s != "" && s[0] != '-' && Digits(s) == d && Places(s) == places && Exponent(s) == e
    requires forall i :: 0 <= i < |d| ==> J.IsDigit(d[i])
    ensures NumericValue(s) == Scaled(J.Number(d), e - places)
  {
  }

  lemma {:induction false} DecimalParts(a: string, b: string, e: int)
    requires forall i :: 0 <= i < |a| ==> J.IsDigit(a[i])
    requires forall i :: 0 <= i < |b| ==> J.IsDigit(b[i])
    ensures var s := a + ("." + (b + ("e" + J.Numeral(e))));
            Digits(s) == a + b && Places(s) == |b| && Exponent(s) == e && s[0] != '-'
  {
    var exponent := "e" + J.Numeral(e);
    var tail := b + exponent;
    OnlyExponent(e);
    BehindDigits(b, exponent);
    assert b + "" == b;
    var point := "." + tail;
    assert point[0] == '.' && point[1..] == tail && "" + b == b;
    BehindDigits(a, point);
    assert (a + point)[0] == if a == "" then '.' else a[0];
  }

  lemma {:induction false} OnlyExponent(e: int)
    ensures var s := "e" + J.Numeral(e); Digits(s) == "" && Places(s) == 0 && Exponent(s) == e
  {
    var s := "e" + J.Numeral(e);
    J.ParseNumeral(e);
    assert s[0] == 'e' && s[1..] == J.Numeral(e) && s[1] == J.Numeral(e)[0];
    assert J.Numeral(e)[0] == '-' || J.IsDigit(J.Numeral(e)[0]);
  }

  lemma {:induction false} BehindDigits(d: string, s: string)
    requires forall i :: 0 <= i < |d| ==> J.IsDigit(d[i])
    ensures Digits(d + s) == d + Digits(s) && Places(d + s) == Places(s) && Exponent(d + s) == Exponent(s)
  {
    if d == "" {
      assert d + s == s && d + Digits(s) == Digits(s);
    } else {
      BehindDigits(d[1..], s);
      assert (d + s)[1..] == d[1..] + s && [d[0]] + (d[1..] + Digits(s)) == d + Digits(s);
    }
  }

  predicate AllZero(d: string) { forall i :: 0 <= i < |d| ==> d[i] == '0' }

  lemma {:induction false} ZeroDigits(d: string)
    requires forall i :: 0 <= i < |d| ==> J.IsDigit(d[i])
    ensures J.Number(d) == 0 <==> AllZero(d)
  {
    if d != "" {
      ZeroDigits(d[..|d| - 1]);
      assert forall i :: 0 <= i < |d| - 1 ==> d[..|d| - 1][i] == d[i];
    }
  }

  lemma {:induction false} NoDigitIs(s: string)
    ensures J.NoDigit(s) <==> AllZero(Digits(s))
  {
    if s != "" && s[0] !in "eE" {
      NoDigitIs(s[1..]);
      NonzeroDigits(s[0]);
      AllZeroConcat(if J.IsDigit(s[0]) then [s[0]] else "", Digits(s[1..]));
    }
  }

  lemma {:induction false} NonzeroDigits(c: char)
    ensures '1' <= c <= '9' <==> c in "123456789"
    ensures AllZero(if J.IsDigit(c) then [c] else "") <==> c !in "123456789"
  {
    var s := "123456789";
    if '1' <= c <= '9' {
      assert s[c as int - '1' as int] == c;
    }
    assert [c][0] == c;
  }

  lemma {:induction false} AllZeroConcat(a: string, b: string)
    ensures AllZero(a + b) <==> AllZero(a) && AllZero(b)
  {
    assert forall i :: 0 <= i < |b| ==> (a + b)[|a| + i] == b[i];
    assert forall i :: 0 <= i < |a| ==> (a + b)[i] == a[i];
  }

  // The texts of zero are just those.
  lemma {:induction false} ZeroTextIs(s: string)
    ensures J.ZeroText(s) <==> J.NumberText(s) && NumericValue(s) == 0.0
  {
    NoDigitIs(s);
    ZeroDigits(Digits(s));
    ZeroProduct(J.Number(Digits(s)) as real, Power10(Exponent(s) - Places(s)));
  }

  lemma {:induction false} ZeroProduct(x: real, y: real)
    requires y > 0.0
    ensures x * y == 0.0 <==> x == 0.0
  {
  }
}
