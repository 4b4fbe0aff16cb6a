/**
 * The two JavaScript string built-ins the viewer relies on:
 * `String.prototype.trim` (the selection handler) and `parseInt(s, 10)`
 * (the page-number input). Both skip the same set of white-space code points.
 */
module JsString {
  import opened Wrappers
  import opened Decimal

  /** ECMAScript WhiteSpace and LineTerminator code points. */
  predicate IsWhiteSpace(c: char) {
    var u := c as int;
    u == 0x09 || u == 0x0A || u == 0x0B || u == 0x0C || u == 0x0D || u == 0x20
    || u == 0xA0 || u == 0x1680 || (0x2000 <= u <= 0x200A)
    || u == 0x2028 || u == 0x2029 || u == 0x202F || u == 0x205F
    || u == 0x3000 || u == 0xFEFF
  }

  predicate AllWhiteSpace(s: string) {
    forall i :: 0 <= i < |s| ==> IsWhiteSpace(s[i])
  }

  /** The number of white-space characters `s` starts with. */
  function LeadingWhiteSpace(s: string): (k: nat)
    ensures k <= |s|
    ensures forall i :: 0 <= i < k ==> IsWhiteSpace(s[i])
    ensures k < |s| ==> !IsWhiteSpace(s[k])
  {
    if s != [] && IsWhiteSpace(s[0]) then 1 + LeadingWhiteSpace(s[1..]) else 0
  }

  /** The length of `s` once its trailing white-space characters are dropped. */
  function TrailingWhiteSpaceStart(s: string): (k: nat)
    ensures k <= |s|
    ensures forall i :: k <= i < |s| ==> IsWhiteSpace(s[i])
    ensures 0 < k ==> !IsWhiteSpace(s[k - 1])
  {
    if s != [] && IsWhiteSpace(s[|s| - 1]) then TrailingWhiteSpaceStart(s[..|s| - 1]) else |s|
  }

  /** `s` with its leading white space removed (the start half of `String.prototype.trim`). */
  function TrimStart(s: string): string {
    s[LeadingWhiteSpace(s)..]
  }

  /**
   * `String.prototype.trim`: leading, then trailing white space removed. The
   * result is no longer than `s` and neither starts nor ends with white space.
   */
  function Trim(s: string): (r: string)
    ensures |r| <= |s|
    ensures r != [] ==> !IsWhiteSpace(r[0]) && !IsWhiteSpace(r[|r| - 1])
  {
    var t := TrimStart(s);
    t[..TrailingWhiteSpaceStart(t)]
  }

  /**
   * The trimmed string is the piece `s[i..j]` left once white space is cut
   * from both ends; everything cut is white space and the piece neither
   * starts nor ends with white space.
   */
  lemma TrimIsCore(s: string)
    ensures var i := LeadingWhiteSpace(s); var j := i + |Trim(s)|;
      j <= |s| && Trim(s) == s[i..j]
      && (forall k :: 0 <= k < i ==> IsWhiteSpace(s[k]))
      && (forall k :: j <= k < |s| ==> IsWhiteSpace(s[k]))
    ensures Trim(s) == [] || (!IsWhiteSpace(Trim(s)[0]) && !IsWhiteSpace(Trim(s)[|Trim(s)| - 1]))
  {
    var i := LeadingWhiteSpace(s);
    var t := s[i..];
    var b := TrailingWhiteSpaceStart(t);
    assert forall k :: i + b <= k < |s| ==> s[k] == t[k - i];
    if b > 0 {
      assert t[0] == s[i];
    }
  }

  /** Trimming twice is trimming once. */
  lemma TrimIdempotent(s: string)
    ensures Trim(Trim(s)) == Trim(s)
  {
    var r := Trim(s);
    TrimIsCore(s);
    if r != [] {
      assert LeadingWhiteSpace(r) == 0;
      assert TrimStart(r) == r;
      assert TrailingWhiteSpaceStart(r) == |r|;
    } else {
      assert Trim(r) == [];
    }
  }

  /** Trimming yields the empty string exactly when `s` is all white space. */
  lemma TrimEmptyIff(s: string)
    ensures Trim(s) == [] <==> AllWhiteSpace(s)
  {
    TrimIsCore(s);
  }

  /** The longest prefix of `s` made of decimal digits. */
  function DigitPrefix(s: string): (z: string)
    ensures |z| <= |s| && z == s[..|z|] && AllDigits(z)
    ensures |z| < |s| ==> !IsDigit(s[|z|])
  {
    if s != [] && IsDigit(s[0]) then [s[0]] + DigitPrefix(s[1..]) else []
  }

  /**
   * `parseInt(s, 10)`: skip leading white space, read an optional sign, then as
   * many decimal digits as follow. `None` stands for `NaN` (no digit at all).
   * Values too large for an IEEE double are not rounded. Blank input is
   * `NaN`, and input starting with a digit parses to a non-negative number.
   */
  function ParseInt(s: string): (r: Option<int>)
    ensures AllWhiteSpace(s) ==> r.None?
    ensures s != [] && IsDigit(s[0]) ==> r.Some? && r.value >= 0
  {
    ParseSigned(TrimStart(s))
  }

  /** `parseInt` once the leading white space is gone: an optional sign, then digits. */
  function ParseSigned(t: string): Option<int> {
    var negative := t != [] && t[0] == '-';
    var unsigned := if t != [] && (t[0] == '-' || t[0] == '+') then t[1..] else t;
    var z := DigitPrefix(unsigned);
    if z == [] then None
    else
      var value: int := DecimalValue(z);
      Some(if negative then -value else value)
  }

  /** A number typed as its canonical decimal, possibly followed by non-digits, parses back to itself. */
  lemma ParseIntOfDecimal(n: nat, rest: string)
    requires rest == [] || !IsDigit(rest[0])
    ensures ParseInt(NatToDecimal(n) + rest) == Some(n)
  {
    var d := NatToDecimal(n);
    var s := d + rest;
    assert s[0] == d[0] && IsDigit(s[0]);
    assert LeadingWhiteSpace(s) == 0;
    assert TrimStart(s) == s;
    DigitPrefixOfDigits(d, rest);
    DecimalRoundTrip(n);
  }

  lemma {:induction false} DigitPrefixOfDigits(d: string, rest: string)
    requires AllDigits(d)
    requires rest == [] || !IsDigit(rest[0])
    ensures DigitPrefix(d + rest) == d
    decreases |d|
  {
    if d != [] {
      assert (d + rest)[1..] == d[1..] + rest;
      DigitPrefixOfDigits(d[1..], rest);
    }
  }

  /**
   * The general shape `parseInt` reads: white space, an optional sign, decimal
   * digits (leading zeros allowed), then anything that does not start with a
   * digit. The value is the digits' value, negated after a minus sign.
   */
  lemma ParseIntValue(ws: string, sign: string, digits: string, rest: string)
    requires AllWhiteSpace(ws)
    requires sign == "" || sign == "+" || sign == "-"
    requires digits != [] && AllDigits(digits)
    requires rest == [] || !IsDigit(rest[0])
    ensures var value: int := DecimalValue(digits);
      ParseInt(ws + sign + digits + rest) == Some(if sign == "-" then -value else value)
  {
    var u := sign + digits + rest;
    assert ws + sign + digits + rest == ws + u;
    assert u[0] == if sign == "" then digits[0] else sign[0];
    LeadingWhiteSpaceAfter(ws, u);
    assert TrimStart(ws + u) == u;
    ParseSignedValue(sign, digits, rest);
  }

  lemma ParseSignedValue(sign: string, digits: string, rest: string)
    requires sign == "" || sign == "+" || sign == "-"
    requires digits != [] && AllDigits(digits)
    requires rest == [] || !IsDigit(rest[0])
    ensures var value: int := DecimalValue(digits);
      ParseSigned(sign + digits + rest) == Some(if sign == "-" then -value else value)
  {
    if sign == "" {
      assert sign + digits + rest == digits + rest;
      ParseUnsigned(digits, rest);
    } else {
      assert sign + digits + rest == [sign[0]] + digits + rest;
      ParseAfterSign(sign[0], digits, rest);
    }
  }

  lemma ParseUnsigned(digits: string, rest: string)
    requires digits != [] && AllDigits(digits)
    requires rest == [] || !IsDigit(rest[0])
    ensures ParseSigned(digits + rest) == Some(DecimalValue(digits))
  {
    DigitPrefixOfDigits(digits, rest);
    assert (digits + rest)[0] == digits[0];
  }

  lemma ParseAfterSign(c: char, digits: string, rest: string)
    requires c == '+' || c == '-'
    requires digits != [] && AllDigits(digits)
    requires rest == [] || !IsDigit(rest[0])
    ensures var value: int := DecimalValue(digits);
      ParseSigned([c] + digits + rest) == Some(if c == '-' then -value else value)
  {
    DigitPrefixOfDigits(digits, rest);
    var u := [c] + digits + rest;
    assert u[0] == c;
    assert u[1..] == digits + rest;
  }

  lemma {:induction false} LeadingWhiteSpaceAfter(ws: string, x: string)
    requires AllWhiteSpace(ws)
    requires x == [] || !IsWhiteSpace(x[0])
    ensures LeadingWhiteSpace(ws + x) == |ws|
    decreases |ws|
  {
    if ws != [] {
      assert (ws + x)[0] == ws[0];
      assert (ws + x)[1..] == ws[1..] + x;
      LeadingWhiteSpaceAfter(ws[1..], x);
    } else {
      assert ws + x == x;
    }
  }

  /**
   * `NaN` without a sign: after the white space comes nothing, or a character
   * that is neither a digit nor a sign (".5", "abc").
   */
  lemma ParseIntNoDigits(ws: string, x: string)
    requires AllWhiteSpace(ws)
    requires x == [] || (!IsWhiteSpace(x[0]) && !IsDigit(x[0]) && x[0] != '+' && x[0] != '-')
    ensures ParseInt(ws + x) == None
  {
    LeadingWhiteSpaceAfter(ws, x);
    assert TrimStart(ws + x) == x;
    if x != [] {
      assert DigitPrefix(x) == [];
    }
  }

  /** `NaN` after a sign: the sign is followed by nothing, or by a non-digit ("-.5", "+x"). */
  lemma ParseIntSignNoDigits(ws: string, c: char, y: string)
    requires AllWhiteSpace(ws)
    requires c == '+' || c == '-'
    requires y == [] || !IsDigit(y[0])
    ensures ParseInt(ws + [c] + y) == None
  {
    var u := [c] + y;
    assert ws + [c] + y == ws + u;
    assert u[0] == c;
    LeadingWhiteSpaceAfter(ws, u);
    assert TrimStart(ws + u) == u;
    assert u[1..] == y;
  }
}
