/**
 * The two conversions between numbers and text the ledger relies on:
 * JavaScript's `parseInt(text, 10)`, which the balance reader applies to the
 * stored balance, and `toString()` on an integer, which produces the text
 * written back to the store and reported to the caller.
 */
module NumberText {

  /** A JavaScript number as far as the ledger uses one: NaN or an integer. */
  datatype Number = NaN | Int(value: int)

  /** The code points `parseInt` skips before the numeral: ECMAScript white space and line terminators. */
  predicate IsWhitespace(c: char) {
    var n := c as int;
    || n == 0x09 || n == 0x0A || n == 0x0B || n == 0x0C || n == 0x0D
    || n == 0x20 || n == 0xA0 || n == 0x1680 || 0x2000 <= n <= 0x200A
    || n == 0x2028 || n == 0x2029 || n == 0x202F || n == 0x205F
    || n == 0x3000 || n == 0xFEFF
  }

  predicate IsDigit(c: char) {
    '0' <= c <= '9'
  }

  predicate AllWhitespace(s: string) {
    forall i :: 0 <= i < |s| ==> IsWhitespace(s[i])
  }

  predicate AllDigits(s: string) {
    forall i :: 0 <= i < |s| ==> IsDigit(s[i])
  }

  function DigitValue(c: char): (d: nat)
    requires IsDigit(c)
    ensures d < 10
  {
    c as int - '0' as int
  }

  function DigitChar(d: nat): (c: char)
    requires d < 10
    ensures IsDigit(c) && DigitValue(c) == d
  {
    (d + '0' as int) as char
  }

  /** What is left of `s` once its leading white space is skipped. */
  function TrimStart(s: string): (t: string)
    ensures |t| <= |s| && t == s[|s| - |t|..]
    ensures forall i :: 0 <= i < |s| - |t| ==> IsWhitespace(s[i])
    ensures |t| == 0 || !IsWhitespace(t[0])
  {
    if |s| > 0 && IsWhitespace(s[0]) then TrimStart(s[1..]) else s
  }

  /** The longest run of decimal digits at the start of `s`. */
  function LeadingDigits(s: string): (ds: string)
    ensures |ds| <= |s| && ds == s[..|ds|]
    ensures AllDigits(ds)
    ensures |ds| == |s| || !IsDigit(s[|ds|])
  {
    if |s| > 0 && IsDigit(s[0]) then [s[0]] + LeadingDigits(s[1..]) else []
  }

  /** The value of a decimal numeral, most significant digit first. */
  function DigitsValue(ds: string): nat
    requires AllDigits(ds)
  {
    if |ds| == 0 then 0 else 10 * DigitsValue(ds[..|ds| - 1]) + DigitValue(ds[|ds| - 1])
  }

  /**
   * `parseInt(s, 10)`: skip leading white space, take one optional sign,
   * then read the longest run of decimal digits; NaN when that run is empty.
   * Whatever follows the run (a fraction, an exponent, letters) is ignored.
   */
  function ParseInt(s: string): (r: Number)
    ensures r.Int? ==> exists i :: 0 <= i < |s| && IsDigit(s[i])
  {
    var t := TrimStart(s);
    var r := ParseSigned(t);
    assert r.Int? ==> |t| > 0 && (IsDigit(t[0]) || (|t| > 1 && IsDigit(t[1]))) by {
      if r.Int? && |t| > 0 && (t[0] == '-' || t[0] == '+') {
        assert LeadingDigits(t[1..])[0] == t[1..][0];
      }
    }
    assert r.Int? ==> (IsDigit(s[|s| - |t|]) || IsDigit(s[|s| - |t| + 1]));
    r
  }

  /** `parseInt` once the white space is gone: an optional sign, then the digit run. */
  function ParseSigned(t: string): Number {
    var negative := |t| > 0 && t[0] == '-';
    var unsigned := if |t| > 0 && (t[0] == '-' || t[0] == '+') then t[1..] else t;
    SignedValue(negative, LeadingDigits(unsigned))
  }

  /** The value of a digit run under a sign; NaN for an empty run. */
  function SignedValue(negative: bool, ds: string): Number
    requires AllDigits(ds)
  {
    if |ds| == 0 then NaN
    else if negative then Int(-(DigitsValue(ds) as int))
    else Int(DigitsValue(ds))
  }

  /** The sign a numeral may carry. */
  datatype Sign = Unsigned | Plus | Minus {
    function Text(): string {
      match this
      case Unsigned => ""
      case Plus => "+"
      case Minus => "-"
    }
  }

  /** The signed value of a digit run. */
  function Signed(sign: Sign, ds: string): int
    requires AllDigits(ds)
  {
    if sign == Minus then -(DigitsValue(ds) as int) else DigitsValue(ds)
  }

  /** The decimal numeral of `n`, without leading zeros. */
  function NatToString(n: nat): (s: string)
    ensures |s| > 0 && AllDigits(s)
    ensures |s| > 1 ==> s[0] != '0'
  {
    if n < 10 then [DigitChar(n)] else NatToString(n / 10) + [DigitChar(n % 10)]
  }

  /** `n.toString()` for an integer `n`: a minus sign for negatives, then the numeral of `|n|`. */
  function IntToString(n: int): (s: string)
    ensures |s| > 0
    ensures s[0] == '-' <==> n < 0
  {
    if n < 0 then "-" + NatToString(-n) else NatToString(n)
  }

  lemma {:induction false} TrimStartSkipsWhitespace(ws: string, rest: string)
    requires AllWhitespace(ws)
    requires |rest| == 0 || !IsWhitespace(rest[0])
    ensures TrimStart(ws + rest) == rest
  {
    if |ws| == 0 {
      assert ws + rest == rest;
    } else {
      assert (ws + rest)[1..] == ws[1..] + rest;
      TrimStartSkipsWhitespace(ws[1..], rest);
    }
  }

  lemma {:induction false} LeadingDigitsOfNumeral(ds: string, rest: string)
    requires AllDigits(ds)
    requires |rest| == 0 || !IsDigit(rest[0])
    ensures LeadingDigits(ds + rest) == ds
  {
    if |ds| == 0 {
      assert ds + rest == rest;
    } else {
      assert (ds + rest)[1..] == ds[1..] + rest;
      LeadingDigitsOfNumeral(ds[1..], rest);
      assert ds == [ds[0]] + ds[1..];
    }
  }

  /**
   * The reference reading of `parseInt`: white space, an optional sign, a
   * non-empty digit run, then anything that does not continue the run —
   * the result is the signed value of the run.
   */
  lemma ParseIntOfParts(ws: string, sign: Sign, ds: string, rest: string)
    requires AllWhitespace(ws)
    requires |ds| > 0 && AllDigits(ds)
    requires |rest| == 0 || !IsDigit(rest[0])
    ensures ParseInt(ws + sign.Text() + ds + rest) == Int(Signed(sign, ds))
  {
    var t := sign.Text() + ds + rest;
    assert ws + sign.Text() + ds + rest == ws + t;
    assert t[0] == if sign == Unsigned then ds[0] else sign.Text()[0];
    ParseSignedOfParts(sign, ds, rest);
    TrimStartSkipsWhitespace(ws, t);
  }

  lemma ParseSignedOfParts(sign: Sign, ds: string, rest: string)
    requires |ds| > 0 && AllDigits(ds)
    requires |rest| == 0 || !IsDigit(rest[0])
    ensures ParseSigned(sign.Text() + ds + rest) == Int(Signed(sign, ds))
  {
    var u := ds + rest;
    assert sign.Text() + ds + rest == sign.Text() + u;
    assert u[0] == ds[0];
    LeadingDigitsOfNumeral(ds, rest);
    ParseAfterSign(sign, u);
  }

  /** After an explicit sign, or when the text does not start with one, the sign and the digit run decide. */
  lemma ParseAfterSign(sign: Sign, u: string)
    requires sign == Unsigned ==> |u| > 0 && u[0] != '-' && u[0] != '+'
    ensures ParseSigned(sign.Text() + u) == SignedValue(sign == Minus, LeadingDigits(u))
  {
    var t := sign.Text() + u;
    if sign == Unsigned {
      assert t == u;
    } else {
      assert t[0] == sign.Text()[0];
      assert t[1..] == u;
    }
  }

  /**
   * `parseInt` yields a number exactly when, after the white space, the
   * text starts with a digit or with a sign followed by a digit.
   */
  lemma ParseIntIsIntegerIff(s: string)
    ensures var t := TrimStart(s);
      ParseInt(s).Int? <==>
        |t| > 0 && (IsDigit(t[0]) || ((t[0] == '+' || t[0] == '-') && |t| > 1 && IsDigit(t[1])))
  {
    var t := TrimStart(s);
    if |t| > 0 && (t[0] == '+' || t[0] == '-') && |t| > 1 {
      assert t[1..][0] == t[1];
    }
  }

  /**
   * The other half of the reading: after the white space, neither a digit
   * nor a sign followed by a digit — the result is NaN.
   */
  lemma ParseIntNaN(ws: string, rest: string)
    requires AllWhitespace(ws)
    requires |rest| == 0 || !IsWhitespace(rest[0])
    requires |rest| == 0 || !IsDigit(rest[0])
    requires (|rest| > 0 && (rest[0] == '+' || rest[0] == '-')) ==> (|rest| == 1 || !IsDigit(rest[1]))
    ensures ParseInt(ws + rest) == NaN
  {
    TrimStartSkipsWhitespace(ws, rest);
  }

  lemma {:induction false} NatToStringValue(n: nat)
    ensures DigitsValue(NatToString(n)) == n
  {
    if n >= 10 {
      var s := NatToString(n);
      assert s == NatToString(n / 10) + [DigitChar(n % 10)];
      assert s[..|s| - 1] == NatToString(n / 10);
      NatToStringValue(n / 10);
    }
  }

  /** Writing an integer and parsing it back gives the integer. */
  lemma ParseIntOfToString(n: int)
    ensures ParseInt(IntToString(n)) == Int(n)
  {
    var m: nat := if n < 0 then -n else n;
    var sign := if n < 0 then Minus else Unsigned;
    var ds := NatToString(m);
    assert IntToString(n) == "" + sign.Text() + ds + "" by { IntToStringParts(n); }
    ParseIntOfParts("", sign, ds, "");
    assert DigitsValue(ds) == m by { NatToStringValue(m); }
  }

  /**
   * `IntToString` unfolded into the sign-and-digits shape `ParseIntOfParts`
   * reads: a rewriting step of its definition, not a separate property.
   */
  lemma IntToStringParts(n: int)
    ensures IntToString(n) == "" + (if n < 0 then Minus else Unsigned).Text() + NatToString(if n < 0 then -n else n) + ""
  {
  }

  /** Distinct integers are written as distinct texts. */
  lemma IntToStringInjective(m: int, n: int)
    requires IntToString(m) == IntToString(n)
    ensures m == n
  {
    ParseIntOfToString(m);
    ParseIntOfToString(n);
  }

  /** Texts with no leading integer read as NaN. */
  lemma ParseIntNaNExamples()
    ensures ParseInt("") == NaN
    ensures ParseInt("abc") == NaN
  {
    assert ParseInt("") == NaN by {
      assert "" == "" + "";
      ParseIntNaN("", "");
    }
    assert "abc" == "" + "abc";
    ParseIntNaN("", "abc");
  }
}
