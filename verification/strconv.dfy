/** The parts of Go's `strconv` package the core relies on: decimal
    formatting (`Itoa`, also `%d`), `Atoi` and `ParseBool`. */
module Strconv {
  import opened Wrappers
  import GoInt

  predicate IsDigit(c: char) {
    '0' <= c <= '9'
  }

  predicate AllDigits(s: string) {
    forall i :: 0 <= i < |s| ==> IsDigit(s[i])
  }

  function DigitChar(d: nat): (c: char)
    requires d < 10
    ensures IsDigit(c) && c as int - '0' as int == d
  {
    ('0' as int + d) as char
  }

  /** The value of a string of decimal digits, most significant first. */
  function DigitsValue(s: string): nat
    requires AllDigits(s)
  {
    if |s| == 0 then 0
    else DigitsValue(s[..|s| - 1]) * 10 + (s[|s| - 1] as int - '0' as int)
  }

  /** The shortest decimal digits of `n`. */
  function Digits(n: nat): (s: string)
    ensures |s| > 0 && AllDigits(s)
    ensures DigitsValue(s) == n
  {
    if n < 10 then [DigitChar(n)]
    else
      var s := Digits(n / 10) + [DigitChar(n % 10)];
      assert s[..|s| - 1] == Digits(n / 10);
      s
  }

  /** `strconv.Itoa(n)` and `fmt.Sprintf("%d", n)`: a minus sign for
      negative numbers followed by the decimal digits. */
  function Itoa(n: int): (s: string)
    ensures |s| > 0
    ensures n >= 0 ==> AllDigits(s) && DigitsValue(s) == n
    ensures n < 0 ==> s[0] == '-' && AllDigits(s[1..]) && DigitsValue(s[1..]) == -n
  {
    if n < 0 then
      var s := "-" + Digits(-n);
      assert s[1..] == Digits(-n);
      s
    else Digits(n)
  }

  /** `strconv.Atoi`: an optional sign, at least one decimal digit and
      nothing else, with the value inside Go's 64-bit `int`. */
  function Atoi(s: string): (r: Option<int>)
    ensures r.Some? ==> GoInt.InInt64(r.value)
  {
    var negative := |s| > 0 && s[0] == '-';
    var body := if |s| > 0 && (s[0] == '-' || s[0] == '+') then s[1..] else s;
    if |body| == 0 || !AllDigits(body) then None
    else
      var magnitude: int := DigitsValue(body);
      var v := if negative then -magnitude else magnitude;
      if GoInt.InInt64(v) then Some(v) else None
  }

  /** Formatting a 64-bit integer and parsing it back gives the integer. */
  lemma AtoiItoa(n: int)
    requires GoInt.InInt64(n)
    ensures Atoi(Itoa(n)) == Some(n)
  {
    var s := Itoa(n);
    if n < 0 {
      assert s[0] == '-';
    } else {
      assert IsDigit(s[0]);
    }
  }

  /** A formatted integer starts with '-' exactly when it is negative. */
  lemma ItoaSign(n: int)
    ensures Itoa(n)[0] == '-' <==> n < 0
  {
    if n >= 0 {
      assert IsDigit(Itoa(n)[0]);
    }
  }

  /** Different integers format differently. */
  lemma ItoaInjective(a: int, b: int)
    requires Itoa(a) == Itoa(b)
    ensures a == b
  {
    ItoaSign(a);
    ItoaSign(b);
  }

  /** A formatted integer holds only digits and a leading minus sign. */
  lemma ItoaBytes(n: int)
    ensures forall i :: 0 <= i < |Itoa(n)| ==> IsDigit(Itoa(n)[i]) || Itoa(n)[i] == '-'
  {
    var s := Itoa(n);
    if n < 0 {
      forall i | 1 <= i < |s| ensures IsDigit(s[i]) {
        assert s[i] == s[1..][i - 1];
      }
    }
  }

  /** The seconds of the timestamp in the canonical-payload test. */
  lemma ItoaExample()
    ensures Itoa(1640995200) == "1640995200"
  {
    assert Digits(1) == "1";
    assert Digits(16) == "16";
    assert Digits(164) == "164";
    assert Digits(1640) == "1640";
    assert Digits(16409) == "16409";
    assert Digits(164099) == "164099";
    assert Digits(1640995) == "1640995";
    assert Digits(16409952) == "16409952";
    assert Digits(164099520) == "164099520";
    assert Digits(1640995200) == "1640995200";
  }

  /** `strconv.ParseBool`. */
  function ParseBool(s: string): (r: Option<bool>)
    ensures r == Some(true) <==> s in {"1", "t", "T", "TRUE", "true", "True"}
    ensures r == Some(false) <==> s in {"0", "f", "F", "FALSE", "false", "False"}
  {
    if s == "1" || s == "t" || s == "T" || s == "TRUE" || s == "true" || s == "True" then Some(true)
    else if s == "0" || s == "f" || s == "F" || s == "FALSE" || s == "false" || s == "False" then Some(false)
    else None
  }
}
