/**
 * Decimal text as JavaScript produces and reads it: `Number(s)` on a string of
 * ASCII digits, `String(n)` on an integer, and `padStart(2, '0')`.
 */
module Digits {

  /** The class `\d` of a JavaScript regular expression: ASCII digits only. */
  predicate IsDigit(c: char) {
    '0' <= c <= '9'
  }

  predicate AllDigits(s: string) {
    forall i :: 0 <= i < |s| ==> IsDigit(s[i])
  }

  function DigitValue(c: char): (d: nat)
    requires IsDigit(c)
    ensures d < 10
  {
    c as int - '0' as int
  }

  function DigitChar(d: nat): (c: char)
    requires d < 10
    ensures IsDigit(c) && DigitValue(c) == d
  {
    ('0' as int + d) as char
  }

  /** `Number(s)` for a non-empty run of ASCII digits; leading zeros are ignored. */
  function ValueOf(s: string): nat
    requires AllDigits(s)
  {
    if s == [] then 0 else ValueOf(s[..|s| - 1]) * 10 + DigitValue(s[|s| - 1])
  }

  /** `String(n)` for a non-negative integer: shortest decimal form. */
  function Decimal(n: nat): (s: string)
    ensures AllDigits(s) && |s| >= 1
    ensures ValueOf(s) == n
    ensures s[0] == '0' ==> n == 0
    decreases n
  {
    if n < 10 then [DigitChar(n)]
    else
      var prefix := Decimal(n / 10);
      var s := prefix + [DigitChar(n % 10)];
      assert s[..|s| - 1] == prefix;
      s
  }

  /** `String(n)` for any integer value of a Number. */
  function IntToString(n: int): (s: string)
  {
    if n < 0 then "-" + Decimal(-n) else Decimal(n)
  }

  /** `s.padStart(2, '0')`. */
  function PadTwo(s: string): (r: string)
    ensures |s| <= 2 ==> |r| == 2
    ensures |s| >= 2 ==> r == s
    ensures r[|r| - |s|..] == s
  {
    if |s| >= 2 then s else if |s| == 1 then "0" + s else "00"
  }

  /** The number of decimal digits `String(n)` uses for a small natural number. */
  lemma {:induction false} DecimalLength(n: nat)
    ensures n < 10 ==> |Decimal(n)| == 1
    ensures 10 <= n < 100 ==> |Decimal(n)| == 2
    ensures 100 <= n < 1000 ==> |Decimal(n)| == 3
    ensures 1000 <= n < 10000 ==> |Decimal(n)| == 4
    ensures 10000 <= n ==> |Decimal(n)| >= 5
    decreases n
  {
    if n >= 10 {
      DecimalLength(n / 10);
    }
  }

  /** Two ASCII digits read back as the number they spell. */
  lemma ValueOfTwo(s: string)
    requires |s| == 2 && AllDigits(s)
    ensures ValueOf(s) == 10 * DigitValue(s[0]) + DigitValue(s[1])
    ensures ValueOf(s) < 100
  {
    assert s[..|s| - 1] == s[..1];
    assert s[..1][..0] == [];
    assert ValueOf(s[..1]) == DigitValue(s[0]);
  }

  /** Four ASCII digits read back as the number they spell. */
  lemma ValueOfFour(s: string)
    requires |s| == 4 && AllDigits(s)
    ensures ValueOf(s) == 1000 * DigitValue(s[0]) + 100 * DigitValue(s[1]) + 10 * DigitValue(s[2]) + DigitValue(s[3])
    ensures ValueOf(s) < 10000
  {
    ValueOfTwo(s[..2]);
    assert s[..3][..2] == s[..2];
    assert s[..4][..3] == s[..3];
    assert s[..4] == s;
  }

  /** A leading zero does not change the value of a digit string. */
  lemma {:induction false} ValueOfLeadingZero(s: string)
    requires AllDigits(s)
    ensures AllDigits("0" + s) && ValueOf("0" + s) == ValueOf(s)
    decreases |s|
  {
    var z := "0" + s;
    if s != [] {
      assert z[..|z| - 1] == "0" + s[..|s| - 1];
      ValueOfLeadingZero(s[..|s| - 1]);
    } else {
      assert z[..|z| - 1] == [];
    }
  }

  /** Padding `String(n)` to two digits gives two digits that read back as `n`. */
  lemma PadTwoDecimal(n: nat)
    requires n < 100
    ensures |PadTwo(Decimal(n))| == 2
    ensures AllDigits(PadTwo(Decimal(n)))
    ensures ValueOf(PadTwo(Decimal(n))) == n
  {
    DecimalLength(n);
    if n < 10 {
      ValueOfLeadingZero(Decimal(n));
    }
  }

  /** A digit string that does not start with `0` spells a positive number. */
  lemma {:induction false} ValueOfPositive(t: string)
    requires AllDigits(t) && |t| >= 1 && t[0] != '0'
    ensures ValueOf(t) >= 1
    decreases |t|
  {
    if |t| > 1 {
      ValueOfPositive(t[..|t| - 1]);
    }
  }

  /** `String(Number(t))` gives `t` back when `t` has no leading zero. */
  lemma {:induction false} DecimalOfDigits(t: string)
    requires AllDigits(t) && |t| >= 1
    requires |t| == 1 || t[0] != '0'
    ensures Decimal(ValueOf(t)) == t
    decreases |t|
  {
    var p := t[..|t| - 1];
    var c := t[|t| - 1];
    if |t| == 1 {
      assert p == [];
      assert DigitChar(DigitValue(c)) == c;
      assert t == [c];
    } else {
      ValueOfPositive(p);
      DecimalOfDigits(p);
      var v := ValueOf(t);
      assert v / 10 == ValueOf(p) && v % 10 == DigitValue(c);
      assert DigitChar(DigitValue(c)) == c;
      assert t == p + [c];
    }
  }

  /** Two digits, read by `Number` and written back by `String(…).padStart(2, '0')`, are the same two digits. */
  lemma PadTwoOfDigits(t: string)
    requires |t| == 2 && AllDigits(t)
    ensures PadTwo(IntToString(ValueOf(t))) == t
  {
    ValueOfTwo(t);
    if t[0] == '0' {
      var u := t[1..];
      assert u[..0] == [];
      assert ValueOf(t) == ValueOf(u);
      DecimalOfDigits(u);
      assert t == "0" + u;
    } else {
      DecimalOfDigits(t);
    }
  }
}
