/**
 * The pieces of the JavaScript string library that the configuration screen relies on:
 * the white-space class shared by `parseInt` and the regular expression `\s`,
 * `parseInt` itself, lower-casing, and the decimal rendering of integers in template strings.
 */
module JsText {
  import opened Wrappers

  /** A code point in ECMAScript's WhiteSpace or LineTerminator classes (the same set `\s` matches). */
  predicate IsWhitespace(c: char) {
    var u := c as int;
    u == 0x09 || u == 0x0A || u == 0x0B || u == 0x0C || u == 0x0D || u == 0x20 || u == 0xA0 ||
    u == 0x1680 || (0x2000 <= u <= 0x200A) || u == 0x2028 || u == 0x2029 || u == 0x202F ||
    u == 0x205F || u == 0x3000 || u == 0xFEFF
  }

  predicate IsUpperAscii(c: char) { 'A' <= c <= 'Z' }

  function ToLowerAscii(c: char): (r: char)
    ensures !IsUpperAscii(r)
    ensures IsWhitespace(r) <==> IsWhitespace(c)
    ensures !IsUpperAscii(c) ==> r == c
  {
    if IsUpperAscii(c) then (c as int + 32) as char else c
  }

  function LowerCase(s: string): (r: string)
    ensures |r| == |s|
    ensures forall i | 0 <= i < |s| :: r[i] == ToLowerAscii(s[i])
  {
    if s == [] then [] else [ToLowerAscii(s[0])] + LowerCase(s[1..])
  }

  /** The string with its leading white space removed (step 2 of `parseInt`). */
  function TrimStart(s: string): (r: string)
    ensures |r| <= |s| && r == s[|s| - |r|..]
    ensures r == [] || !IsWhitespace(r[0])
    ensures (forall i | 0 <= i < |s| - |r| :: IsWhitespace(s[i]))
  {
    if s != [] && IsWhitespace(s[0]) then TrimStart(s[1..]) else s
  }

  /** The value of `c` as a digit in base `radix` (10 or 16), or -1 when it is none. */
  function DigitValue(c: char, radix: nat): (d: int)
    requires radix == 10 || radix == 16
    ensures -1 <= d < radix
  {
    if '0' <= c <= '9' then c as int - '0' as int
    else if radix == 16 && 'a' <= c <= 'f' then c as int - 'a' as int + 10
    else if radix == 16 && 'A' <= c <= 'F' then c as int - 'A' as int + 10
    else -1
  }

  /** The longest prefix of `s` made of `radix` digits. */
  function DigitPrefix(s: string, radix: nat): (r: string)
    requires radix == 10 || radix == 16
    ensures r <= s
    ensures forall i | 0 <= i < |r| :: DigitValue(r[i], radix) >= 0
    ensures |r| == |s| || DigitValue(s[|r|], radix) < 0
  {
    if s != [] && DigitValue(s[0], radix) >= 0 then [s[0]] + DigitPrefix(s[1..], radix) else []
  }

  /** The number a string of digits denotes, most significant digit first. */
  function DigitsValue(ds: string, radix: nat): nat
    requires radix == 10 || radix == 16
    requires forall i | 0 <= i < |ds| :: DigitValue(ds[i], radix) >= 0
  {
    if ds == [] then 0
    else DigitsValue(ds[..|ds| - 1], radix) * radix + DigitValue(ds[|ds| - 1], radix)
  }

  /** `parseInt(s)` (radix left out: a `0x`/`0X` prefix selects base 16) or `parseInt(s, 10)`. */
  datatype RadixArgument = Unspecified | Ten

  /** Steps 3-4 of `parseInt`: drop one sign character. */
  function Unsigned(t: string): (u: string)
    ensures |u| <= |t|
  {
    if t != [] && (t[0] == '-' || t[0] == '+') then t[1..] else t
  }

  /** Whether `parseInt` switches to base 16: no radix given and a `0x`/`0X` prefix. */
  predicate HexPrefixed(u: string, radix: RadixArgument) {
    radix == Unspecified && |u| >= 2 && u[0] == '0' && (u[1] == 'x' || u[1] == 'X')
  }

  /** Steps 6-11 of `parseInt` on the unsigned text: the value of the longest digit prefix, if any. */
  function Magnitude(u: string, radix: RadixArgument): (r: Option<nat>)
    ensures r.Some? ==> u != []
  {
    var base := if HexPrefixed(u, radix) then 16 else 10;
    var digits := DigitPrefix(if HexPrefixed(u, radix) then u[2..] else u, base);
    if digits == [] then None else Some(DigitsValue(digits, base))
  }

  /** ECMAScript `parseInt`; `None` is `NaN`. */
  function ParseInt(s: string, radix: RadixArgument): (r: Option<int>)
  {
    var t := TrimStart(s);
    var m := Magnitude(Unsigned(t), radix);
    if m.None? then None
    else if t[0] == '-' then Some(-(m.value as int))
    else Some(m.value as int)
  }

  function DigitChar(d: nat): (c: char)
    requires d < 10
    ensures DigitValue(c, 10) == d && DigitValue(c, 16) == d
  {
    ('0' as int + d) as char
  }

  /** Decimal digits of `n`, no leading zero: how JavaScript prints an integer below 10^21. */
  function NatToString(n: nat): (s: string)
    ensures s != [] && forall i | 0 <= i < |s| :: '0' <= s[i] <= '9'
    ensures s[0] == '0' ==> n == 0 && |s| == 1
  {
    if n < 10 then [DigitChar(n)] else NatToString(n / 10) + [DigitChar(n % 10)]
  }

  /** `${n}` for an integer `n` with |n| < 10^21. */
  function IntToString(n: int): (s: string)
    ensures s != []
  {
    if n < 0 then "-" + NatToString(-n) else NatToString(n)
  }

  lemma {:induction false} NatToStringValue(n: nat)
    ensures forall i | 0 <= i < |NatToString(n)| :: DigitValue(NatToString(n)[i], 10) >= 0
    ensures DigitsValue(NatToString(n), 10) == n
  {
    var s := NatToString(n);
    if n >= 10 {
      NatToStringValue(n / 10);
      assert s[..|s| - 1] == NatToString(n / 10);
    }
  }

  lemma DigitPrefixOfDigits(s: string)
    requires forall i | 0 <= i < |s| :: '0' <= s[i] <= '9'
    ensures DigitPrefix(s, 10) == s && DigitPrefix(s, 16) == s
  {
  }

  /** A digit string, negated or not, starts with no white space and loses only its sign to `Unsigned`. */
  lemma SignedDigits(s: string, ds: string)
    requires ds != [] && forall i | 0 <= i < |ds| :: '0' <= ds[i] <= '9'
    requires s == ds || s == "-" + ds
    ensures TrimStart(s) == s && Unsigned(s) == ds
    ensures s[0] == '-' <==> s != ds
  {
    assert s[0] == '-' || '0' <= s[0] <= '9';
    assert !IsWhitespace(s[0]);
    if s != ds {
      assert s[1..] == ds;
    }
  }

  lemma MagnitudeOfDigits(ds: string, radix: RadixArgument)
    requires ds != [] && forall i | 0 <= i < |ds| :: '0' <= ds[i] <= '9'
    ensures forall i | 0 <= i < |ds| :: DigitValue(ds[i], 10) >= 0
    ensures Magnitude(ds, radix) == Some(DigitsValue(ds, 10))
  {
    assert !HexPrefixed(ds, radix);
    DigitPrefixOfDigits(ds);
  }

  /** `parseInt` of a string with no leading white space whose unsigned part has magnitude `m`. */
  lemma ParseIntOfClean(s: string, radix: RadixArgument, m: nat)
    requires TrimStart(s) == s && Magnitude(Unsigned(s), radix) == Some(m)
    ensures s != [] && ParseInt(s, radix).Some?
    ensures ParseInt(s, radix).value == if s[0] == '-' then -(m as int) else m
  {
  }

  /** An empty input is not a number. */
  lemma ParseIntOfEmpty(radix: RadixArgument)
    ensures ParseInt("", radix) == None
  {
    assert TrimStart("") == "" && Unsigned("") == "";
  }

  /** Reading back what a template string printed gives the same integer, with or without a radix. */
  lemma ParseIntOfIntToString(n: int, radix: RadixArgument)
    ensures ParseInt(IntToString(n), radix) == Some(n)
  {
    var m: nat := if n < 0 then -n else n;
    var s, ds := IntToString(n), NatToString(m);
    NatToStringValue(m);
    SignedDigits(s, ds);
    MagnitudeOfDigits(ds, radix);
    ParseIntOfClean(s, radix, m);
  }
}
