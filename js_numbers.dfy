/**
 * The two number conversions the replay gate depends on: the global
 * `parseInt(string)` with no radix (section 19.2.5 of ECMA-262) and
 * `Number.prototype.toString()` on an integral millisecond count, both over
 * exact integers.
 */
module JsNumbers {

  /** What `parseInt` yields: NaN, or an integral value. */
  datatype Number = NaN | Int(value: int)

  /** The white-space and line-terminator characters `parseInt` skips at the front. */
  predicate IsSpace(c: char)
  {
    c == ' ' || c == '\t' || c == '\n' || c == '\r' || c == '\U{000B}' || c == '\U{000C}'
    || c == '\U{00A0}' || c == '\U{FEFF}' || c == '\U{2028}' || c == '\U{2029}'
  }

  /** `s` with its leading white space removed. */
  function TrimStart(s: string): (t: string)
    ensures |t| <= |s| && t == s[|s| - |t|..]
    ensures |t| > 0 ==> !IsSpace(t[0])
    ensures forall k :: 0 <= k < |s| - |t| ==> IsSpace(s[k])
  {
    if |s| > 0 && IsSpace(s[0]) then TrimStart(s[1..]) else s
  }

  /** A string that starts with no white space is left as it is. */
  lemma TrimStartUnspaced(s: string)
    requires |s| > 0 && (s[0] == '-' || '0' <= s[0] <= '9')
    ensures TrimStart(s) == s
  {
    assert !IsSpace(s[0]);
  }

  /** The value of `c` as a digit in base `radix` (10 or 16), if it is one. */
  function DigitValue(c: char, radix: nat): (d: int)
    requires radix == 10 || radix == 16
    ensures -1 <= d < radix
  {
    if '0' <= c <= '9' then c as int - '0' as int
    else if radix == 16 && 'a' <= c <= 'f' then c as int - 'a' as int + 10
    else if radix == 16 && 'A' <= c <= 'F' then c as int - 'A' as int + 10
    else -1
  }

  /** The number of digits `s` starts with. */
  function LeadingDigits(s: string, radix: nat): (n: nat)
    requires radix == 10 || radix == 16
    ensures n <= |s|
    ensures forall k :: 0 <= k < n ==> DigitValue(s[k], radix) >= 0
    ensures n < |s| ==> DigitValue(s[n], radix) < 0
  {
    if |s| > 0 && DigitValue(s[0], radix) >= 0 then 1 + LeadingDigits(s[1..], radix) else 0
  }

  /** The value of a string of digits, most significant first. */
  function ValueOf(ds: string, radix: nat): nat
    requires radix == 10 || radix == 16
    requires forall k :: 0 <= k < |ds| ==> DigitValue(ds[k], radix) >= 0
  {
    if |ds| == 0 then 0 else ValueOf(ds[..|ds| - 1], radix) * radix + DigitValue(ds[|ds| - 1], radix)
  }

  /**
   * The unsigned part of `parseInt`: a hexadecimal number after `0x`/`0X`, a
   * decimal one otherwise, as many digits as there are; NaN when there are none.
   */
  function ParseUnsigned(u: string): (r: Number)
    ensures r.Int? ==> r.value >= 0
  {
    var hex := |u| >= 2 && u[0] == '0' && (u[1] == 'x' || u[1] == 'X');
    var radix := if hex then 16 else 10;
    var v := if hex then u[2..] else u;
    var n := LeadingDigits(v, radix);
    if n == 0 then NaN else Int(ValueOf(v[..n], radix))
  }

  /** `parseInt(s)`: skip leading white space, take an optional sign, then the unsigned part. */
  function ParseInt(s: string): (r: Number)
  {
    ParseSigned(TrimStart(s))
  }

  /** An optional sign, then the unsigned part. */
  function ParseSigned(t: string): (r: Number)
  {
    if |t| > 0 && t[0] == '-' then Negate(ParseUnsigned(t[1..]))
    else if |t| > 0 && t[0] == '+' then ParseUnsigned(t[1..])
    else ParseUnsigned(t)
  }

  /** Unary minus; NaN stays NaN. */
  function Negate(r: Number): Number
  {
    match r {
      case NaN => NaN
      case Int(m) => Int(-m)
    }
  }

  /** The decimal digit for `d`. */
  function DigitChar(d: nat): (c: char)
    requires d < 10
    ensures DigitValue(c, 10) == d
  {
    ('0' as int + d) as char
  }

  /** The decimal digits of `n`, most significant first, without leading zeros. */
  function NatToString(n: nat): (s: string)
    ensures |s| > 0 && '0' <= s[0] <= '9'
    ensures forall k :: 0 <= k < |s| ==> DigitValue(s[k], 10) >= 0
    ensures |s| > 1 ==> s[0] != '0'
  {
    if n < 10 then [DigitChar(n)] else NatToString(n / 10) + [DigitChar(n % 10)]
  }

  /** `n.toString()` for an integer: an optional minus sign, then the decimal digits. */
  function IntToString(n: int): string
  {
    if n < 0 then "-" + NatToString(-n) else NatToString(n)
  }

  /** Reading back the digits of `n` yields `n`. */
  lemma {:induction false} ValueOfNatToString(n: nat)
    ensures ValueOf(NatToString(n), 10) == n
  {
    var s := NatToString(n);
    if n >= 10 {
      ValueOfNatToString(n / 10);
      assert s[..|s| - 1] == NatToString(n / 10);
    }
  }

  /** A string made only of decimal digits is read to its end. */
  lemma LeadingDigitsAll(s: string)
    requires forall k :: 0 <= k < |s| ==> DigitValue(s[k], 10) >= 0
    ensures LeadingDigits(s, 10) == |s|
  {
  }

  /** The decimal digits of `m` are read back as `m`. */
  lemma ParseUnsignedOfNatToString(m: nat)
    ensures ParseUnsigned(NatToString(m)) == Int(m)
  {
    var ds := NatToString(m);
    LeadingDigitsAll(ds);
    assert ds[..|ds|] == ds;
    ValueOfNatToString(m);
  }

  /** `parseInt` on a string that starts with a digit reads its unsigned part. */
  lemma ParseIntOfDigits(s: string)
    requires |s| > 0 && '0' <= s[0] <= '9'
    ensures ParseInt(s) == ParseUnsigned(s)
  {
    TrimStartUnspaced(s);
  }

  /** `parseInt` on a minus sign followed by `u` negates the unsigned part `u`. */
  lemma ParseIntOfMinus(u: string)
    ensures ParseInt("-" + u) == Negate(ParseUnsigned(u))
  {
    var s := "-" + u;
    TrimStartUnspaced(s);
    assert s[1..] == u;
  }

  /** `parseInt` reads back what `toString` wrote: `parseInt(n.toString()) == n`. */
  lemma ParseIntOfToString(n: int)
    ensures ParseInt(IntToString(n)) == Int(n)
  {
    if n < 0 {
      ParseIntOfNegative(n);
    } else {
      ParseIntOfNonNegative(n);
    }
  }

  /** The non-negative half of `ParseIntOfToString`. */
  lemma ParseIntOfNonNegative(n: nat)
    ensures ParseInt(IntToString(n)) == Int(n)
  {
    ParseUnsignedOfNatToString(n);
    ParseIntOfDigits(NatToString(n));
  }

  /** The negative half of `ParseIntOfToString`. */
  lemma ParseIntOfNegative(n: int)
    requires n < 0
    ensures ParseInt(IntToString(n)) == Int(n)
  {
    var ds := NatToString(-n);
    calc {
      ParseInt(IntToString(n));
      ParseInt("-" + ds);
      { ParseIntOfMinus(ds); }
      Negate(ParseUnsigned(ds));
      { ParseUnsignedOfNatToString(-n); }
      Negate(Int(-n));
    }
  }

  /** A string that does not start, after white space, with a sign or a digit is NaN. */
  lemma ParseIntNoDigits(s: string)
    requires var t := TrimStart(s); |t| == 0 || (t[0] != '-' && t[0] != '+' && !('0' <= t[0] <= '9'))
    ensures ParseInt(s) == NaN
  {
  }
}
