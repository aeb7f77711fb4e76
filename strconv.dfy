/** Decimal integer conversion as Go's `strconv.Atoi` performs it on a
    64-bit platform, with `strconv.Itoa` as its inverse. */
module Strconv {
  import opened Common

  const MinInt64: int := -0x8000_0000_0000_0000
  const MaxInt64: int := 0x7FFF_FFFF_FFFF_FFFF

  predicate IsDigit(c: char)
  {
    '0' <= c <= '9'
  }

  predicate AllDigits(s: string)
  {
    forall k :: 0 <= k < |s| ==> IsDigit(s[k])
  }

  /** The value of a string of decimal digits, most significant first. */
  function DigitsValue(s: string): nat
    requires AllDigits(s)
    decreases |s|
  {
    if s == [] then 0
    else 10 * DigitsValue(s[..|s| - 1]) + (s[|s| - 1] as int - '0' as int)
  }

  /** `strconv.Atoi`: an optional `+` or `-`, then one or more decimal
      digits (leading zeros allowed), whose value fits in 64 bits. Anything
      else is a syntax or range error, here `None`. */
  function Atoi(s: string): (r: Option<int>)
    ensures r.Some? ==> MinInt64 <= r.value <= MaxInt64
    ensures r.Some? ==> |s| > 0 && (IsDigit(s[0]) || s[0] == '+' || s[0] == '-')
  {
    var signed := |s| > 0 && (s[0] == '+' || s[0] == '-');
    var digits := if signed then s[1..] else s;
    if digits == [] || !AllDigits(digits) then None
    else
      var n: int := if signed && s[0] == '-' then -(DigitsValue(digits) as int) else DigitsValue(digits);
      if MinInt64 <= n <= MaxInt64 then Some(n) else None
  }

  /** The sign part of a numeral `Atoi` accepts. */
  predicate IsSign(sign: string)
  {
    sign == "" || sign == "+" || sign == "-"
  }

  /** The value a numeral spells: its digits, negated after a `-`. */
  function SignedValue(sign: string, digits: string): int
    requires AllDigits(digits)
  {
    if sign == "-" then -(DigitsValue(digits) as int) else DigitsValue(digits)
  }

  /** `Atoi` accepts `s` with value `n` exactly when `s` is a sign part
      followed by one or more digits that spell `n`, and `n` fits in 64
      bits. So `"+5"`, `"007"` and `"-0"` are accepted, and a column with
      anything else in it is rejected. */
  lemma AtoiMeaning(s: string, n: int)
    ensures Atoi(s) == Some(n) <==>
      exists k :: 0 <= k <= 1 && k < |s| && IsSign(s[..k]) && AllDigits(s[k..]) &&
        n == SignedValue(s[..k], s[k..]) && MinInt64 <= n <= MaxInt64
  {
    var signed := |s| > 0 && (s[0] == '+' || s[0] == '-');
    var k := if signed then 1 else 0;
    if Atoi(s) == Some(n) {
      assert s[..k] == (if signed then [s[0]] else []);
      assert k <= 1 && k < |s| && IsSign(s[..k]) && AllDigits(s[k..]) && n == SignedValue(s[..k], s[k..]);
    }
    if exists k' :: 0 <= k' <= 1 && k' < |s| && IsSign(s[..k']) && AllDigits(s[k'..]) &&
        n == SignedValue(s[..k'], s[k'..]) && MinInt64 <= n <= MaxInt64
    {
      var k' :| 0 <= k' <= 1 && k' < |s| && IsSign(s[..k']) && AllDigits(s[k'..]) &&
        n == SignedValue(s[..k'], s[k'..]) && MinInt64 <= n <= MaxInt64;
      if k' == 0 {
        assert IsDigit(s[0]) && !signed && s[..k'] == "";
      } else {
        assert s[..k'] == [s[0]] && signed;
      }
    }
  }

  /** A number followed by a carriage return, as the last column of a row
      ending in `\r\n` is once the `\n` is dropped, is rejected. */
  lemma CarriageReturnRejected(digits: string)
    ensures Atoi(digits + "\r") == None
  {
    var s := digits + "\r";
    assert !IsDigit(s[|s| - 1]);
    var signed := |s| > 0 && (s[0] == '+' || s[0] == '-');
    var rest := if signed then s[1..] else s;
    assert rest[|rest| - 1] == s[|s| - 1];
  }

  function DigitChar(d: nat): char
    requires d < 10
  {
    ('0' as int + d) as char
  }

  /** The shortest decimal spelling of `n`. */
  function Decimal(n: nat): string
    decreases n
  {
    if n < 10 then [DigitChar(n)] else Decimal(n / 10) + [DigitChar(n % 10)]
  }

  /** `strconv.Itoa`: a minus sign for negative numbers, then the digits. */
  function Itoa(n: int): string
  {
    if n < 0 then "-" + Decimal(-n) else Decimal(n)
  }

  lemma {:induction false} DecimalValue(n: nat)
    ensures |Decimal(n)| > 0 && AllDigits(Decimal(n)) && DigitsValue(Decimal(n)) == n
    decreases n
  {
    if n >= 10 {
      DecimalValue(n / 10);
      var s := Decimal(n);
      assert s[..|s| - 1] == Decimal(n / 10);
    }
  }

  /** `Atoi` reads back every 64-bit integer that `Itoa` writes. */
  lemma AtoiItoa(n: int)
    requires MinInt64 <= n <= MaxInt64
    ensures Atoi(Itoa(n)) == Some(n)
  {
    var s := Itoa(n);
    if n < 0 {
      var d := Decimal(-n);
      DecimalValue(-n);
      assert s == "-" + d && s[0] == '-' && s[1..] == d;
    } else {
      DecimalValue(n);
      assert IsDigit(s[0]);
    }
  }
}
