/** The number/string conversions the source relies on: the decimal rendering used by
    template strings (`${n}`), `parseInt` and the `!isNaN(s)` test, for the integer forms
    the model admits. */
module JsNumber {
  import opened Wrappers
  import opened XmlText

  predicate IsDigit(c: char) {
    '0' <= c <= '9'
  }

  function DigitValue(c: char): (d: nat)
    requires IsDigit(c)
    ensures d < 10
  {
    c as int - '0' as int
  }

  function DigitChar(d: nat): (c: char)
    requires d < 10
    ensures IsDigit(c) && DigitValue(c) == d
  {
    ('0' as int + d) as char
  }

  predicate AllDigits(s: string) {
    forall k :: 0 <= k < |s| ==> IsDigit(s[k])
  }

  /** Decimal rendering of a natural number. */
  function NatToString(n: nat): (s: string)
    ensures |s| > 0 && AllDigits(s)
    decreases n
  {
    if n < 10 then [DigitChar(n)] else NatToString(n / 10) + [DigitChar(n % 10)]
  }

  /** `${i}` for an integer `i`: a minus sign before the digits of a negative number. */
  function IntToString(i: int): (s: string)
    ensures |s| > 0
    ensures s[0] == '-' <==> i < 0
  {
    if i < 0 then "-" + NatToString(-i) else NatToString(i)
  }

  /** The value of a digit string, most significant digit first. */
  function DigitsValue(d: string): nat
    requires AllDigits(d)
  {
    if d == [] then 0 else DigitsValue(d[..|d| - 1]) * 10 + DigitValue(d[|d| - 1])
  }

  /** Length of the longest prefix of `s` made of digits. */
  function DigitPrefixLength(s: string): (n: nat)
    ensures n <= |s| && AllDigits(s[..n])
    ensures n < |s| ==> !IsDigit(s[n])
  {
    if s == [] || !IsDigit(s[0]) then 0
    else
      var n := 1 + DigitPrefixLength(s[1..]);
      assert s[..n] == [s[0]] + s[1..][..n - 1];
      n
  }

  /** `a`-`f` and `A`-`F` on top of the decimal digits. */
  predicate IsHexDigit(c: char) {
    IsDigit(c) || 'a' <= c <= 'f' || 'A' <= c <= 'F'
  }

  function HexDigitValue(c: char): (d: nat)
    requires IsHexDigit(c)
    ensures d < 16
    ensures IsDigit(c) ==> d == DigitValue(c)
  {
    if IsDigit(c) then DigitValue(c)
    else if 'a' <= c <= 'f' then c as int - 'a' as int + 10
    else c as int - 'A' as int + 10
  }

  predicate AllHexDigits(s: string) {
    forall k :: 0 <= k < |s| ==> IsHexDigit(s[k])
  }

  /** The value of a hexadecimal digit string, most significant digit first. */
  function HexValue(d: string): nat
    requires AllHexDigits(d)
  {
    if d == [] then 0 else HexValue(d[..|d| - 1]) * 16 + HexDigitValue(d[|d| - 1])
  }

  /** Length of the longest prefix of `s` made of hexadecimal digits. */
  function HexPrefixLength(s: string): (n: nat)
    ensures n <= |s| && AllHexDigits(s[..n])
    ensures n < |s| ==> !IsHexDigit(s[n])
  {
    if s == [] || !IsHexDigit(s[0]) then 0
    else
      var n := 1 + HexPrefixLength(s[1..]);
      assert s[..n] == [s[0]] + s[1..][..n - 1];
      n
  }

  /** What `parseInt` looks at: the text after its leading white space, the same characters
      `String.prototype.trim` removes. */
  function SkipSpace(s: string): (t: string)
    ensures |t| <= |s|
    ensures t != [] ==> !IsJsSpace(t[0])
  {
    s[LeadingSpaces(s)..]
  }

  predicate HasSign(s: string) {
    |s| > 0 && (s[0] == '-' || s[0] == '+')
  }

  /** What follows the optional sign. */
  function Unsigned(s: string): string {
    if HasSign(s) then s[1..] else s
  }

  /** `0x` or `0X`, which makes `parseInt` without a radix read base 16. */
  predicate HasHexPrefix(s: string) {
    |s| >= 2 && s[0] == '0' && (s[1] == 'x' || s[1] == 'X')
  }

  /** Whether a digit of the chosen base follows the sign (and the `0x` prefix, if any). */
  predicate StartsNumber(body: string) {
    if HasHexPrefix(body) then |body| > 2 && IsHexDigit(body[2]) else |body| > 0 && IsDigit(body[0])
  }

  /** The magnitude `parseInt` reads after the sign: the longest run of hexadecimal digits
      after a `0x`/`0X` prefix, otherwise the longest run of decimal digits; `None` when that
      run is empty. */
  function Magnitude(body: string): (m: Option<nat>)
    ensures m.Some? <==> StartsNumber(body)
  {
    if HasHexPrefix(body) then
      var n := HexPrefixLength(body[2..]);
      if n == 0 then None else Some(HexValue(body[2..][..n]))
    else
      var n := DigitPrefixLength(body);
      if n == 0 then None else Some(DigitsValue(body[..n]))
  }

  /** `parseInt(s)` without a radix: leading white space is skipped, then an optional sign, then
      a `0x`/`0X` prefix selects base 16; the longest run of digits of that base is read.
      `None` stands for `NaN`, the result when that run is empty. */
  function ParseInt(s: string): (r: Option<int>)
    ensures r.Some? <==> StartsNumber(Unsigned(SkipSpace(s)))
    ensures r.Some? && r.value < 0 ==> SkipSpace(s)[0] == '-'
  {
    Signed(SkipSpace(s))
  }

  /** The number at the front of `t`, which starts after the white space: the sign, then the
      magnitude. */
  function Signed(t: string): (r: Option<int>)
    ensures r.Some? <==> StartsNumber(Unsigned(t))
    ensures r.Some? && r.value < 0 ==> t[0] == '-'
  {
    match Magnitude(Unsigned(t))
    case None => None
    case Some(m) => Some(if |t| > 0 && t[0] == '-' then -(m as int) else m)
  }

  /** Leading white space does not change what `parseInt` reads. */
  lemma ParseIntSkipsSpace(c: char, s: string)
    requires IsJsSpace(c)
    ensures ParseInt([c] + s) == ParseInt(s)
  {
    var cs := [c] + s;
    assert cs[1..] == s;
    assert LeadingSpaces(cs) == 1 + LeadingSpaces(s);
    assert cs[1 + LeadingSpaces(s)..] == s[LeadingSpaces(s)..];
    assert SkipSpace(cs) == SkipSpace(s);
  }

  /** Reading stops at the first character that is not a digit: `parseInt("12abc")` is 12. */
  lemma DecimalPrefix(digits: string, rest: string)
    requires |digits| > 0 && AllDigits(digits) && !HasSign(digits)
    requires rest == [] || !IsDigit(rest[0])
    requires !HasHexPrefix(digits + rest)
    ensures ParseInt(digits + rest) == Some(DigitsValue(digits) as int)
  {
    var s := digits + rest;
    assert s[0] == digits[0];
    assert LeadingSpaces(s) == 0;
    assert SkipSpace(s) == s && Unsigned(s) == s;
    assert s[..|digits|] == digits;
    DigitPrefixIs(s, |digits|);
  }

  /** A run of `m` digits followed by a non-digit (or the end) is the longest digit prefix. */
  lemma {:induction false} DigitPrefixIs(s: string, m: nat)
    requires m <= |s| && AllDigits(s[..m])
    requires m < |s| ==> !IsDigit(s[m])
    ensures DigitPrefixLength(s) == m
  {
    if m > 0 {
      assert s[0] == s[..m][0];
      assert s[1..][..m - 1] == s[..m][1..];
      DigitPrefixIs(s[1..], m - 1);
    }
  }

  /** `0x` followed by hexadecimal digits only is read whole in base 16, with or without a
      minus sign in front: `parseInt("0x1A")` is 26 and `parseInt("-0x1A")` is -26. */
  lemma HexLiteral(s: string)
    requires HasHexPrefix(s) && |s| > 2 && AllHexDigits(s[2..])
    ensures ParseInt(s) == Some(HexValue(s[2..]) as int)
    ensures ParseInt("-" + s) == Some(-(HexValue(s[2..]) as int))
  {
    assert LeadingSpaces(s) == 0;
    assert SkipSpace(s) == s && Unsigned(s) == s;
    assert s[2..][..|s| - 2] == s[2..];
    var m := "-" + s;
    assert LeadingSpaces(m) == 0;
    assert m[1..] == s;
    assert SkipSpace(m) == m && Unsigned(m) == s;
  }

  /** A `0x` prefix with no hexadecimal digit after it is `NaN`: `parseInt("0x")`. */
  lemma HexPrefixWithoutDigits(rest: string)
    requires rest == [] || !IsHexDigit(rest[0])
    ensures ParseInt("0x" + rest) == None
  {
    var s := "0x" + rest;
    assert LeadingSpaces(s) == 0;
    assert SkipSpace(s) == s && Unsigned(s) == s;
    assert s[2..] == rest;
  }

  /** An optional sign followed by decimal digits and nothing else: no white space before it
      and no `0x` prefix, so `parseInt` reads all of it in base 10. */
  lemma DecimalLiteral(s: string)
    ensures |Unsigned(s)| > 0 && AllDigits(Unsigned(s)) ==>
      SkipSpace(s) == s && !HasHexPrefix(Unsigned(s)) && DigitPrefixLength(Unsigned(s)) == |Unsigned(s)|
  {
    if |Unsigned(s)| > 0 && AllDigits(Unsigned(s)) {
      assert !IsJsSpace(s[0]);
      assert LeadingSpaces(s) == 0;
    }
  }

  /** `!isNaN(s)`, restricted to the integer literals the model admits: an optional sign
      followed by at least one digit and nothing else. Such a string is never `NaN` to
      `parseInt` either. */
  predicate IsNumeric(s: string)
    ensures IsNumeric(s) ==> ParseInt(s).Some?
  {
    DecimalLiteral(s);
    |Unsigned(s)| > 0 && AllDigits(Unsigned(s))
  }

  /** `parseInt` reads a numeric string whole, in base 10. */
  lemma NumericParsesWhole(s: string)
    requires IsNumeric(s)
    ensures SkipSpace(s) == s && !HasHexPrefix(Unsigned(s))
    ensures DigitPrefixLength(Unsigned(s)) == |Unsigned(s)|
    ensures ParseInt(s) == Some(if s[0] == '-' then -(DigitsValue(Unsigned(s)) as int) else DigitsValue(Unsigned(s)))
  {
    DecimalLiteral(s);
    assert Unsigned(s)[..|Unsigned(s)|] == Unsigned(s);
  }

  lemma {:induction false} DigitsOfNatToString(n: nat)
    ensures DigitsValue(NatToString(n)) == n
    decreases n
  {
    var s := NatToString(n);
    if n >= 10 {
      DigitsOfNatToString(n / 10);
      assert s[..|s| - 1] == NatToString(n / 10);
    }
  }

  /** The decimal rendering is read back by `parseInt` and classified as numeric. */
  lemma IntToStringRoundTrip(i: int)
    ensures IsNumeric(IntToString(i))
    ensures ParseInt(IntToString(i)) == Some(i)
  {
    var s := IntToString(i);
    var digits := NatToString(if i < 0 then -i else i);
    assert Unsigned(s) == digits;
    NumericParsesWhole(s);
    DigitsOfNatToString(if i < 0 then -i else i);
  }

  /** Two integers with the same rendering are equal. */
  lemma IntToStringInjective(a: int, b: int)
    requires IntToString(a) == IntToString(b)
    ensures a == b
  {
    IntToStringRoundTrip(a);
    IntToStringRoundTrip(b);
  }
}
