/** The two conversions between text and integers that the counter badges use:
    the global parseInt of ECMAScript with no radix argument (section 19.2.5 of
    ECMA-262), and the decimal text of an integral Number (Number::toString,
    section 6.1.6.1.20 of ECMA-262). */
module JsNumber {
  import opened Dom

  /** StrWhiteSpaceChar: a WhiteSpace or LineTerminator code point, the characters
      that parseInt skips before the number (sections 12.2 and 12.3 of ECMA-262). */
  predicate IsStrWhiteSpace(c: char) {
    || c == '\t' || c == '\U{B}' || c == '\U{C}' || c == '\U{FEFF}'
    || c == ' ' || c == '\U{A0}' || c == '\U{1680}' || ('\U{2000}' <= c <= '\U{200A}')
    || c == '\U{202F}' || c == '\U{205F}' || c == '\U{3000}'
    || c == '\n' || c == '\r' || c == '\U{2028}' || c == '\U{2029}'
  }

  /** The text with its leading white space removed (TrimString with `start`):
      never longer than s, and not starting with white space. */
  function TrimStart(s: string): (r: string)
    ensures |r| <= |s|
    ensures r == [] || !IsStrWhiteSpace(r[0])
  {
    if s != [] && IsStrWhiteSpace(s[0]) then TrimStart(s[1..]) else s
  }

  /** TrimStart removes a prefix of white space, and all of it. */
  lemma {:induction false} TrimStartRemovesSpace(s: string)
    ensures var r := TrimStart(s);
      && |r| <= |s| && r == s[|s| - |r|..]
      && (forall i :: 0 <= i < |s| - |r| ==> IsStrWhiteSpace(s[i]))
      && (r == [] || !IsStrWhiteSpace(r[0]))
  {
    if s != [] && IsStrWhiteSpace(s[0]) {
      TrimStartRemovesSpace(s[1..]);
      var r := TrimStart(s);
      assert s[1..][|s| - 1 - |r|..] == s[|s| - |r|..];
      forall i | 0 <= i < |s| - |r| ensures IsStrWhiteSpace(s[i]) {
        if i > 0 { assert s[i] == s[1..][i - 1]; }
      }
    }
  }

  /** White space in front of a number does not change what parseInt reads. */
  lemma {:induction false} ParseIntSkipsSpace(space: string, s: string)
    requires forall i :: 0 <= i < |space| ==> IsStrWhiteSpace(space[i])
    ensures ParseInt(space + s) == ParseInt(s)
  {
    TrimStartAfterSpace(space, s);
  }

  /** Leading white space is removed whole, whatever follows it. */
  lemma {:induction false} TrimStartAfterSpace(space: string, s: string)
    requires forall i :: 0 <= i < |space| ==> IsStrWhiteSpace(space[i])
    ensures TrimStart(space + s) == TrimStart(s)
  {
    if space != [] {
      assert (space + s)[0] == space[0];
      assert (space + s)[1..] == space[1..] + s;
      TrimStartAfterSpace(space[1..], s);
    } else {
      assert space + s == s;
    }
  }

  type Radix = r: nat | r == 10 || r == 16 witness 10

  /** The value of c as a digit of the radix, if it is one. */
  function DigitValue(c: char, radix: Radix): (r: Option<nat>)
    ensures r.Some? ==> r.value < radix
    ensures radix == 10 ==> (r.Some? <==> '0' <= c <= '9')
  {
    if '0' <= c <= '9' then Some(c as int - '0' as int)
    else if radix == 16 && 'a' <= c <= 'f' then Some(c as int - 'a' as int + 10)
    else if radix == 16 && 'A' <= c <= 'F' then Some(c as int - 'A' as int + 10)
    else None
  }

  predicate IsDigit(c: char, radix: Radix) {
    DigitValue(c, radix).Some?
  }

  predicate AllDigits(s: string, radix: Radix) {
    forall i :: 0 <= i < |s| ==> IsDigit(s[i], radix)
  }

  /** Reads the digits at the start of v after the value acc read so far, and
      stops at the first character that is not a digit of the radix. acc is None
      while no digit has been read. The result is a number exactly when a digit
      was read before or v starts with one. */
  function ReadDigits(v: string, radix: Radix, acc: Option<nat>): (r: Option<nat>)
    ensures r.Some? <==> acc.Some? || (v != [] && IsDigit(v[0], radix))
    decreases |v|
  {
    if v != [] && IsDigit(v[0], radix) then
      var before := if acc.Some? then acc.value else 0;
      ReadDigits(v[1..], radix, Some(before * radix + DigitValue(v[0], radix).value))
    else acc
  }

  /** The number at the start of u, the text after the sign: a `0x` or `0X` prefix
      selects radix 16, any other text is read in radix 10. None when there is no
      digit: u must start with a decimal digit, and a hexadecimal prefix must be
      followed by a hexadecimal digit. */
  function ParseMagnitude(u: string): (r: Option<nat>)
    ensures r.Some? <==> u != [] && IsDigit(u[0], 10) && !(EmptyHexPrefix(u))
  {
    if |u| >= 2 && u[0] == '0' && (u[1] == 'x' || u[1] == 'X') then ReadDigits(u[2..], 16, None)
    else ReadDigits(u, 10, None)
  }

  /** A `0x` or `0X` prefix with no hexadecimal digit after it. */
  predicate EmptyHexPrefix(u: string) {
    |u| >= 2 && u[0] == '0' && (u[1] == 'x' || u[1] == 'X') && (|u| == 2 || !IsDigit(u[2], 16))
  }

  /** The text after one leading sign, if there is one. */
  function AfterSign(t: string): string {
    if t != [] && (t[0] == '-' || t[0] == '+') then t[1..] else t
  }

  /** parseInt(s) with the radix argument absent; None stands for NaN. White space
      is skipped, then one sign is read. A number is read only when a decimal
      digit follows the sign, and it is negative only after a minus sign. */
  function ParseInt(s: string): (r: Option<int>)
    ensures r.Some? ==> AfterSign(TrimStart(s)) != [] && IsDigit(AfterSign(TrimStart(s))[0], 10)
    ensures r.Some? && r.value < 0 ==> TrimStart(s) != [] && TrimStart(s)[0] == '-'
  {
    var t := TrimStart(s);
    var sign := if t != [] && t[0] == '-' then -1 else 1;
    var u := AfterSign(t);
    match ParseMagnitude(u)
    case None => None
    case Some(m) => Some(sign * m)
  }

  /** The value of the digits ds read after the value acc, most significant first. */
  function DigitsValue(acc: nat, ds: string, radix: Radix): nat
    requires AllDigits(ds, radix)
    decreases |ds|
  {
    if ds == [] then acc else DigitsValue(acc * radix + DigitValue(ds[0], radix).value, ds[1..], radix)
  }

  /** A last digit multiplies the value read so far by the radix and adds itself. */
  lemma {:induction false} DigitsValueSnoc(acc: nat, ds: string, c: char, radix: Radix)
    requires AllDigits(ds, radix) && IsDigit(c, radix)
    ensures AllDigits(ds + [c], radix)
    ensures DigitsValue(acc, ds + [c], radix) == DigitsValue(acc, ds, radix) * radix + DigitValue(c, radix).value
    decreases |ds|
  {
    assert AllDigits(ds + [c], radix) by {
      forall i | 0 <= i < |ds + [c]| ensures IsDigit((ds + [c])[i], radix) {
        if i < |ds| { assert (ds + [c])[i] == ds[i]; }
      }
    }
    if ds == [] {
      assert [c][1..] == [];
    } else {
      assert (ds + [c])[0] == ds[0];
      assert (ds + [c])[1..] == ds[1..] + [c];
      DigitsValueSnoc(acc * radix + DigitValue(ds[0], radix).value, ds[1..], c, radix);
    }
  }

  /** Digits followed by text that does not go on with a digit are read whole. */
  lemma {:induction false} ReadDigitsOfDigits(ds: string, rest: string, radix: Radix, acc: nat)
    requires AllDigits(ds, radix)
    requires rest == [] || !IsDigit(rest[0], radix)
    ensures ReadDigits(ds + rest, radix, Some(acc)) == Some(DigitsValue(acc, ds, radix))
    decreases |ds|
  {
    if ds == [] {
      assert ds + rest == rest;
    } else {
      assert (ds + rest)[0] == ds[0];
      assert (ds + rest)[1..] == ds[1..] + rest;
      ReadDigitsOfDigits(ds[1..], rest, radix, acc * radix + DigitValue(ds[0], radix).value);
    }
  }

  function DigitChar(d: nat): (c: char)
    requires d < 10
    ensures DigitValue(c, 10) == Some(d)
  {
    ('0' as int + d) as char
  }

  /** The decimal text of a natural number, with no leading zero. */
  function NatToString(n: nat): (s: string)
    ensures |s| >= 1 && AllDigits(s, 10)
    ensures s[0] == '0' ==> n == 0
  {
    if n < 10 then [DigitChar(n)] else NatToString(n / 10) + [DigitChar(n % 10)]
  }

  /** The decimal text of an integral Number, as `String(n)` or `n + ''` produce it:
      a minus sign exactly for a negative number, then the digits. */
  function IntToString(n: int): (r: string)
    ensures |r| >= 1 && (r[0] == '-' <==> n < 0)
    ensures AllDigits(if n < 0 then r[1..] else r, 10)
  {
    if n < 0 then "-" + NatToString(-n) else NatToString(n)
  }

  /** Reading back the digits of a natural number gives the number. */
  lemma {:induction false} NatToStringValue(n: nat)
    ensures DigitsValue(0, NatToString(n), 10) == n
  {
    if n >= 10 {
      NatToStringValue(n / 10);
      DigitsValueSnoc(0, NatToString(n / 10), DigitChar(n % 10), 10);
    }
  }

  /** A character that would continue the decimal text of n if it followed the
      last digit: another digit, or, after the text `0` of zero, an `x` that turns
      it into a hexadecimal prefix. */
  predicate ContinuesNumber(n: int, c: char) {
    IsDigit(c, 10) || (n == 0 && (c == 'x' || c == 'X'))
  }

  /** The decimal text of a natural number, followed by text that does not
      continue the number, does not start with a hexadecimal prefix. */
  lemma NoHexPrefix(m: nat, rest: string)
    requires rest == [] || !ContinuesNumber(m, rest[0])
    ensures var u := NatToString(m) + rest; !(|u| >= 2 && u[0] == '0' && (u[1] == 'x' || u[1] == 'X'))
  {
    var ds := NatToString(m);
    var u := ds + rest;
    if |u| >= 2 && u[0] == '0' {
      assert ds[0] == '0';
      assert ds == "0";
      assert u[1] == rest[0];
    }
  }

  /** Digits read from the start, followed by text that does not go on with a
      digit, give their value. */
  lemma ReadDigitsFromStart(ds: string, rest: string, radix: Radix)
    requires ds != [] && AllDigits(ds, radix)
    requires rest == [] || !IsDigit(rest[0], radix)
    ensures ReadDigits(ds + rest, radix, None) == Some(DigitsValue(0, ds, radix))
  {
    var u := ds + rest;
    var d0 := DigitValue(ds[0], radix).value;
    assert u[0] == ds[0] && u[1..] == ds[1..] + rest;
    ReadDigitsOfDigits(ds[1..], rest, radix, d0);
  }

  /** The digits of a natural number, followed by text that does not continue
      the number, are read back as that number. */
  lemma ReadNatDigits(m: nat, rest: string)
    requires rest == [] || !IsDigit(rest[0], 10)
    ensures ReadDigits(NatToString(m) + rest, 10, None) == Some(m)
  {
    ReadDigitsFromStart(NatToString(m), rest, 10);
    NatToStringValue(m);
  }

  /** The magnitude of the decimal text of a natural number is read back whole. */
  lemma MagnitudeRoundTrip(m: nat, rest: string)
    requires rest == [] || !ContinuesNumber(m, rest[0])
    ensures ParseMagnitude(NatToString(m) + rest) == Some(m)
  {
    NoHexPrefix(m, rest);
    ReadNatDigits(m, rest);
  }

  /** Text that starts with a digit or a sign has no white space to skip. */
  lemma TrimStartNoSpace(u: string)
    requires u != [] && (IsDigit(u[0], 10) || u[0] == '-')
    ensures TrimStart(u) == u
  {
  }

  /** Text that starts with a digit is read with a positive sign. */
  lemma ParseIntUnsigned(u: string, m: nat)
    requires u != [] && IsDigit(u[0], 10) && ParseMagnitude(u) == Some(m)
    ensures ParseInt(u) == Some(m)
  {
    TrimStartNoSpace(u);
  }

  /** Text that starts with a minus sign and a digit is read negated. */
  lemma ParseIntNegative(u: string, m: nat)
    requires u != [] && IsDigit(u[0], 10) && ParseMagnitude(u) == Some(m)
    ensures ParseInt("-" + u) == Some(-(m as int))
  {
    TrimStartNoSpace("-" + u);
    assert ("-" + u)[1..] == u;
  }

  /** parseInt reads back the decimal text of any integer, whatever text follows it,
      as long as that text does not continue the number. */
  lemma ParseIntRoundTrip(n: int, rest: string)
    requires rest == [] || !ContinuesNumber(n, rest[0])
    ensures ParseInt(IntToString(n) + rest) == Some(n)
  {
    var m: nat := if n < 0 then -n else n;
    var u := NatToString(m) + rest;
    MagnitudeRoundTrip(m, rest);
    assert u[0] == NatToString(m)[0];
    if n < 0 {
      assert IntToString(n) + rest == "-" + u;
      ParseIntNegative(u, m);
    } else {
      assert IntToString(n) + rest == u;
      ParseIntUnsigned(u, m);
    }
  }

  /** parseInt gives NaN exactly when, after the white space and one sign, there
      is no decimal digit, or there is a hexadecimal prefix with no hexadecimal
      digit after it. */
  lemma ParseIntNaN(s: string)
    ensures var u := AfterSign(TrimStart(s));
      ParseInt(s) == None <==> u == [] || !IsDigit(u[0], 10) || EmptyHexPrefix(u)
  {
  }
}
