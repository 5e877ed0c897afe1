/** Decimal text as the cache stores it: `'%d' % n` for exit statuses, read
    back with `int(...)`, and `'%.6f' % t` for timestamps, read back with
    `float(...)`.  Timestamps are integer microseconds in this model, so
    `'%.6f'` is exact. */
module Decimal {
  import opened Common
  import Text

  predicate IsDigit(c: char) { '0' <= c <= '9' }

  predicate AllDigits(s: string) { forall i :: 0 <= i < |s| ==> IsDigit(s[i]) }

  /** The whitespace Python's `str.strip()` removes from byte strings. */
  predicate IsSpace(c: char) { c == ' ' || c == '\t' || c == '\n' || c == '\r' || c as int == 11 || c as int == 12 }

  function DigitChar(d: nat): (c: char)
    requires d < 10
    ensures IsDigit(c) && c as int - '0' as int == d
  {
    (d + '0' as int) as char
  }

  /** The number a string of decimal digits denotes (leading zeros allowed). */
  function DigitsValue(s: string): nat
    requires AllDigits(s)
  {
    if s == [] then 0 else DigitsValue(s[..|s| - 1]) * 10 + (s[|s| - 1] as int - '0' as int)
  }

  function Pow10(w: nat): (p: nat)
    ensures p >= 1
  {
    if w == 0 then 1 else 10 * Pow10(w - 1)
  }

  /** The shortest digit string of `n`: "0" for zero, no leading zeros otherwise. */
  function NatDigits(n: nat): (s: string)
    ensures s != [] && AllDigits(s)
    ensures DigitsValue(s) == n
    ensures |s| > 1 ==> s[0] != '0'
  {
    if n < 10 then [DigitChar(n)]
    else
      var s := NatDigits(n / 10) + [DigitChar(n % 10)];
      assert s[..|s| - 1] == NatDigits(n / 10);
      s
  }

  /** `n` written with exactly `w` digits, zero-padded on the left. */
  function FixedDigits(n: nat, w: nat): (s: string)
    ensures |s| == w && AllDigits(s)
    ensures n < Pow10(w) ==> DigitsValue(s) == n
  {
    if w == 0 then []
    else
      var s := FixedDigits(n / 10, w - 1) + [DigitChar(n % 10)];
      assert s[..|s| - 1] == FixedDigits(n / 10, w - 1);
      s
  }

  function StripLeft(s: string): (r: string)
    ensures r == [] || !IsSpace(r[0])
  {
    if s != [] && IsSpace(s[0]) then StripLeft(s[1..]) else s
  }

  function StripRight(s: string): (r: string)
    ensures r == [] || !IsSpace(r[|r| - 1])
  {
    if s != [] && IsSpace(s[|s| - 1]) then StripRight(s[..|s| - 1]) else s
  }

  /** Python's `s.strip()`. */
  function Strip(s: string): string
  {
    StripRight(StripLeft(s))
  }

  /** `'%d' % n`. */
  function FormatInt(n: int): (s: string)
    ensures s != [] && (s[0] == '-' || IsDigit(s[0])) && IsDigit(s[|s| - 1])
  {
    if n < 0 then "-" + NatDigits(-n) else NatDigits(n)
  }

  /** Removes one leading sign; `true` when it was a minus. */
  function SplitSign(s: string): (bool, string)
  {
    if s != [] && (s[0] == '-' || s[0] == '+') then (s[0] == '-', s[1..]) else (false, s)
  }

  function Signed(negative: bool, v: nat): int
  {
    if negative then -(v as int) else v
  }

  /** `int(text)`: surrounding whitespace, an optional sign, optional
      whitespace after the sign, then one or more digits; anything else is
      malformed (Python raises ValueError).  The blanks after the sign are
      accepted because `PyOS_strtol` skips whitespace again once it has read
      the sign. */
  function ParseInt(text: string): (r: Option<int>)
    ensures r.Some? ==> exists i :: 0 <= i < |text| && IsDigit(text[i])
  {
    var (negative, rest) := SplitSign(Strip(text));
    var digits := StripLeft(rest);
    if digits != [] && AllDigits(digits) then
      StripKeepsDigit(text, digits);
      Some(Signed(negative, DigitsValue(digits)))
    else None
  }

  lemma StripKeepsDigit(text: string, digits: string)
    requires digits != [] && AllDigits(digits)
    requires digits == StripLeft(SplitSign(Strip(text)).1)
    ensures exists i :: 0 <= i < |text| && IsDigit(text[i])
  {
    var t := StripLeft(text);
    var u := StripRight(t);
    var rest := SplitSign(u).1;
    StripLeftSuffix(rest);
    assert digits[|digits| - 1] == rest[|rest| - 1];
    assert IsDigit(u[|u| - 1]);
    StripLeftSuffix(text);
    StripRightPrefix(t);
    var k := |text| - |t|;
    assert text[k + |u| - 1] == u[|u| - 1];
  }

  lemma {:induction false} StripLeftSuffix(s: string)
    ensures |StripLeft(s)| <= |s| && StripLeft(s) == s[|s| - |StripLeft(s)|..]
  {
    if s != [] && IsSpace(s[0]) {
      StripLeftSuffix(s[1..]);
    }
  }

  lemma {:induction false} StripRightPrefix(s: string)
    ensures |StripRight(s)| <= |s| && StripRight(s) == s[..|StripRight(s)|]
  {
    if s != [] && IsSpace(s[|s| - 1]) {
      StripRightPrefix(s[..|s| - 1]);
    }
  }

  /** Reading back what `'%d'` wrote gives the same number. */
  lemma ParseFormatInt(n: int)
    ensures ParseInt(FormatInt(n)) == Some(n)
  {
    var digits := NatDigits(if n < 0 then -n else n);
    var s := FormatInt(n);
    assert s == (if n < 0 then "-" else "") + digits;
    StripAlready(s);
    SplitSignOf(n < 0, digits);
    ParseIntOf(s, n < 0, digits);
  }

  /** `int('-' + blanks + digits)` is the negative number: blanks between
      the sign and the digits are skipped. */
  lemma ParseBlanksAfterSign(pad: string, digits: string)
    requires forall i :: 0 <= i < |pad| ==> IsSpace(pad[i])
    requires digits != [] && AllDigits(digits)
    ensures ParseInt("-" + pad + digits) == Some(-(DigitsValue(digits) as int))
  {
    StripLeftSpaces(pad, digits);
    NegativeParse(pad + digits, digits);
    assert "-" + pad + digits == "-" + (pad + digits);
  }

  /** A minus sign, then text whose left strip is a digit string. */
  lemma NegativeParse(body: string, digits: string)
    requires StripLeft(body) == digits
    requires digits != [] && AllDigits(digits)
    ensures ParseInt("-" + body) == Some(-(DigitsValue(digits) as int))
  {
    var s := "-" + body;
    StripLeftSuffix(body);
    assert s[|s| - 1] == digits[|digits| - 1];
    StripAlready(s);
    SplitSignOf(true, body);
    ParseIntOf(s, true, digits);
  }

  /** Text with no blank at either end is its own strip. */
  lemma StripAlready(s: string)
    requires s != [] && !IsSpace(s[0]) && !IsSpace(s[|s| - 1])
    ensures Strip(s) == s
  {
  }

  /** `ParseInt` once its sign and digits are known. */
  lemma ParseIntOf(text: string, negative: bool, digits: string)
    requires SplitSign(Strip(text)).0 == negative
    requires StripLeft(SplitSign(Strip(text)).1) == digits
    requires digits != [] && AllDigits(digits)
    ensures ParseInt(text) == Some(Signed(negative, DigitsValue(digits)))
  {
  }

  lemma {:induction false} StripLeftSpaces(pad: string, s: string)
    requires forall i :: 0 <= i < |pad| ==> IsSpace(pad[i])
    requires s == [] || !IsSpace(s[0])
    ensures StripLeft(pad + s) == s
  {
    if pad == [] {
      assert pad + s == s;
    } else {
      assert (pad + s)[1..] == pad[1..] + s;
      StripLeftSpaces(pad[1..], s);
    }
  }

  /** `'%.6f' % (us / 10**6)`: seconds, a point, and six digits of fraction. */
  function FormatTimestamp(us: int): (s: string)
    ensures s != [] && (s[0] == '-' || IsDigit(s[0])) && IsDigit(s[|s| - 1])
  {
    var m: nat := if us < 0 then -us else us;
    (if us < 0 then "-" else "") + (NatDigits(m / 1000000) + "." + FixedDigits(m % 1000000, 6))
  }

  /** `float(text)` for the forms a timestamp takes, in microseconds: surrounding
      whitespace, an optional sign, one or more digits, then optionally a point
      and at most six fraction digits.  Other forms are malformed. */
  function ParseTimestamp(text: string): Option<int>
  {
    var (negative, body) := SplitSign(Strip(text));
    match ParseMicros(body)
    case None => None
    case Some(v) => Some(Signed(negative, v))
  }

  /** An unsigned decimal number of seconds, in microseconds. */
  function ParseMicros(body: string): Option<nat>
  {
    var k := Text.Find(body, '.', 0);
    if k == -1 then
      if body != [] && AllDigits(body) then Some(DigitsValue(body) * 1000000) else None
    else PointMicros(body[..k], body[k + 1..])
  }

  /** Whole seconds, then at most six digits of fraction after the point. */
  function PointMicros(whole: string, fraction: string): Option<nat>
  {
    if whole != [] && AllDigits(whole) && AllDigits(fraction) && |fraction| <= 6 then
      Some(DigitsValue(whole) * 1000000 + DigitsValue(fraction) * Pow10(6 - |fraction|))
    else None
  }

  lemma ParseMicrosPoint(whole: string, fraction: string)
    requires whole != [] && AllDigits(whole) && AllDigits(fraction) && |fraction| == 6
    ensures ParseMicros(whole + "." + fraction) == Some(DigitsValue(whole) * 1000000 + DigitsValue(fraction))
  {
    var body := whole + "." + fraction;
    FindPoint(whole, fraction);
    assert body[..|whole|] == whole;
    assert body[|whole| + 1..] == fraction;
    SixDigitFraction(whole, fraction);
  }

  lemma SixDigitFraction(whole: string, fraction: string)
    requires whole != [] && AllDigits(whole) && AllDigits(fraction) && |fraction| == 6
    ensures PointMicros(whole, fraction) == Some(DigitsValue(whole) * 1000000 + DigitsValue(fraction))
  {
    assert Pow10(6 - |fraction|) == 1;
  }

  /** The first point of `whole + "." + fraction` is the one after `whole`. */
  lemma FindPoint(whole: string, fraction: string)
    requires AllDigits(whole)
    ensures Text.Find(whole + "." + fraction, '.', 0) == |whole|
  {
    var body := whole + "." + fraction;
    assert body[|whole|] == '.';
    forall i | 0 <= i < |whole|
      ensures body[i] != '.'
    {
      assert body[i] == whole[i];
    }
  }

  /** Reading back what `'%.6f'` wrote gives the same instant. */
  lemma ParseFormatTimestamp(us: int)
    ensures ParseTimestamp(FormatTimestamp(us)) == Some(us)
  {
    var m: nat := if us < 0 then -us else us;
    var body := NatDigits(m / 1000000) + "." + FixedDigits(m % 1000000, 6);
    UnsignedParts(m);
    ParseSigned(us < 0, body, m);
  }

  /** The unsigned part of a formatted timestamp: digits at both ends, and
      it reads back as the same number of microseconds. */
  lemma UnsignedParts(m: nat)
    ensures var body := NatDigits(m / 1000000) + "." + FixedDigits(m % 1000000, 6);
      body != [] && IsDigit(body[0]) && IsDigit(body[|body| - 1]) && ParseMicros(body) == Some(m)
  {
    var q, r := m / 1000000, m % 1000000;
    var whole, fraction := NatDigits(q), FixedDigits(r, 6);
    var body := whole + "." + fraction;
    assert Pow10(6) == 1000000;
    assert DigitsValue(fraction) == r;
    ParseMicrosPoint(whole, fraction);
    assert DigitsValue(whole) * 1000000 + DigitsValue(fraction) == m;
    assert body[0] == whole[0] && body[|body| - 1] == fraction[5];
  }

  /** A signed, unpadded number of seconds parses to its signed value. */
  lemma ParseSigned(negative: bool, body: string, m: nat)
    requires body != [] && IsDigit(body[0]) && IsDigit(body[|body| - 1]) && ParseMicros(body) == Some(m)
    ensures ParseTimestamp((if negative then "-" else "") + body) == Some(Signed(negative, m))
  {
    var s := (if negative then "-" else "") + body;
    assert s[|s| - 1] == body[|body| - 1];
    StripAlready(s);
    SplitSignOf(negative, body);
  }

  lemma SplitSignOf(negative: bool, body: string)
    requires negative || (body != [] && IsDigit(body[0]))
    ensures SplitSign((if negative then "-" else "") + body) == (negative, body)
  {
    var s := (if negative then "-" else "") + body;
    if negative {
      assert s[1..] == body;
    } else {
      assert s == body;
    }
  }
}
