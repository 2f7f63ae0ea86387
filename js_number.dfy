/** JavaScript's global parseInt, called with one argument (no radix), as
    section 19.2.5 of ECMA-262 defines it. Numbers are unbounded integers
    here; NaN is kept as a value of its own. */
module JsNumber {

  /** What parseInt can return: NaN or an integral number. */
  datatype Num = NaN | Int(value: int)

  /** The StrWhiteSpaceChar set of ECMA-262: WhiteSpace (TAB, VT, FF,
      ZWNBSP and every Unicode "Zs" space) and LineTerminator (LF, CR,
      LS, PS). */
  predicate IsStrWhiteSpace(c: char) {
    var u := c as int;
    u == 0x09 || u == 0x0A || u == 0x0B || u == 0x0C || u == 0x0D ||
    u == 0x20 || u == 0xA0 || u == 0x1680 || (0x2000 <= u <= 0x200A) ||
    u == 0x2028 || u == 0x2029 || u == 0x202F || u == 0x205F ||
    u == 0x3000 || u == 0xFEFF
  }

  /** The value of c as a digit of radix 36 ('0'..'9', then 'a'..'z' or
      'A'..'Z'); 36 for a character that is no digit at all. A character
      is a digit of radix R when its value is below R. */
  function DigitValue(c: char): (d: nat)
    ensures d <= 36
    ensures ('0' <= c <= '9') <==> d < 10
  {
    if '0' <= c <= '9' then c as int - '0' as int
    else if 'a' <= c <= 'z' then c as int - 'a' as int + 10
    else if 'A' <= c <= 'Z' then c as int - 'A' as int + 10
    else 36
  }

  /** s without its leading white space (TrimString(s, start)). */
  function TrimStart(s: string): (t: string)
    ensures |t| <= |s| && t == s[|s| - |t|..]
    ensures t == [] || !IsStrWhiteSpace(t[0])
    ensures forall i :: 0 <= i < |s| - |t| ==> IsStrWhiteSpace(s[i])
  {
    if s != [] && IsStrWhiteSpace(s[0]) then TrimStart(s[1..]) else s
  }

  /** The longest prefix of s made of digits of the given radix. */
  function DigitPrefix(s: string, radix: nat): (z: string)
    ensures |z| <= |s| && z == s[..|z|]
    ensures forall i :: 0 <= i < |z| ==> DigitValue(z[i]) < radix
    ensures |z| == |s| || DigitValue(s[|z|]) >= radix
  {
    if s != [] && DigitValue(s[0]) < radix then [s[0]] + DigitPrefix(s[1..], radix) else []
  }

  /** The mathematical value of the digit string z in the given radix,
      most significant digit first. */
  function DigitsValue(z: string, radix: nat): nat {
    if z == [] then 0 else DigitsValue(z[..|z| - 1], radix) * radix + DigitValue(z[|z| - 1])
  }

  /** True when u starts with the "0x" or "0X" prefix that switches
      parseInt to radix 16 when no radix is given. */
  predicate HasHexPrefix(u: string) {
    |u| >= 2 && u[0] == '0' && (u[1] == 'x' || u[1] == 'X')
  }

  /** Steps 10-16 on what follows the sign: the "0x" prefix selects
      radix 16 (else radix 10), then the longest run of digits is read;
      no digits at all gives NaN. */
  function ParseUnsigned(u: string): Num {
    var radix := if HasHexPrefix(u) then 16 else 10;
    var z := DigitPrefix(if HasHexPrefix(u) then u[2..] else u, radix);
    if z == [] then NaN else Int(DigitsValue(z, radix))
  }

  /** Steps 3-5: one optional sign; a minus negates the number read. */
  function ParseSigned(t: string): Num {
    if t != [] && t[0] == '-' then
      (match ParseUnsigned(t[1..]) case NaN => NaN case Int(v) => Int(-v))
    else if t != [] && t[0] == '+' then ParseUnsigned(t[1..])
    else ParseUnsigned(t)
  }

  /** JavaScript's parseInt(s) with the radix argument left out: leading
      white space is skipped (step 2), then a signed number is read. */
  function ParseInt(s: string): Num {
    ParseSigned(TrimStart(s))
  }

  // ---------------------------------------------------------------------
  // A reference decimal formatter, which parseInt inverts

  function DecimalDigit(d: nat): (c: char)
    requires d < 10
    ensures '0' <= c <= '9' && DigitValue(c) == d
  {
    ('0' as int + d) as char
  }

  /** The decimal numeral of n, without leading zeros. */
  function FormatNat(n: nat): (s: string)
    ensures |s| >= 1
    ensures forall i :: 0 <= i < |s| ==> DigitValue(s[i]) < 10
    ensures (s[0] == '0') <==> n == 0
  {
    if n < 10 then [DecimalDigit(n)] else FormatNat(n / 10) + [DecimalDigit(n % 10)]
  }

  /** The decimal numeral of n, with a leading '-' when n is negative. */
  function FormatInt(n: int): string {
    if n < 0 then "-" + FormatNat(-n) else FormatNat(n)
  }

  // ---------------------------------------------------------------------
  // Properties

  lemma {:induction false} FormatNatValue(n: nat)
    ensures DigitsValue(FormatNat(n), 10) == n
  {
    if n >= 10 {
      var s := FormatNat(n);
      assert s[..|s| - 1] == FormatNat(n / 10);
      FormatNatValue(n / 10);
    }
  }

  /** Reading digits stops at the first character that is not one. */
  lemma {:induction false} DigitPrefixOfDigitsThen(z: string, rest: string, radix: nat)
    requires forall i :: 0 <= i < |z| ==> DigitValue(z[i]) < radix
    requires rest == [] || DigitValue(rest[0]) >= radix
    ensures DigitPrefix(z + rest, radix) == z
  {
    if z != [] {
      assert (z + rest)[1..] == z[1..] + rest;
      DigitPrefixOfDigitsThen(z[1..], rest, radix);
    }
  }

  lemma {:induction false} TrimStartSkipsWhiteSpace(w: string, s: string)
    requires forall i :: 0 <= i < |w| ==> IsStrWhiteSpace(w[i])
    ensures TrimStart(w + s) == TrimStart(s)
  {
    if w != [] {
      assert (w + s)[0] == w[0];
      assert (w + s)[1..] == w[1..] + s;
      TrimStartSkipsWhiteSpace(w[1..], s);
    } else {
      assert w + s == s;
    }
  }

  /** Leading white space never changes what parseInt returns. */
  lemma ParseIntSkipsWhiteSpace(w: string, s: string)
    requires forall i :: 0 <= i < |w| ==> IsStrWhiteSpace(w[i])
    ensures ParseInt(w + s) == ParseInt(s)
  {
    TrimStartSkipsWhiteSpace(w, s);
  }

  /** A run of decimal digits that does not start a hex prefix is read
      in full, in radix 10. */
  lemma ParseUnsignedDecimal(z: string, rest: string)
    requires z != [] && forall i :: 0 <= i < |z| ==> DigitValue(z[i]) < 10
    requires rest == [] || DigitValue(rest[0]) >= 10
    requires !HasHexPrefix(z + rest)
    ensures ParseUnsigned(z + rest) == Int(DigitsValue(z, 10))
  {
    DigitPrefixOfDigitsThen(z, rest, 10);
  }

  /** The numeral of a natural number followed by rest reads as that
      number, unless the numeral is "0" and rest starts with 'x' or 'X'. */
  lemma ParseUnsignedFormatNat(m: nat, rest: string)
    requires rest == [] || DigitValue(rest[0]) >= 10
    requires m == 0 && rest != [] ==> rest[0] != 'x' && rest[0] != 'X'
    ensures ParseUnsigned(FormatNat(m) + rest) == Int(m)
  {
    var f := FormatNat(m);
    var u := f + rest;
    assert !HasHexPrefix(u) by {
      if |u| >= 2 && u[0] == '0' {
        assert m == 0 && |f| == 1 && u[1] == rest[0];
      }
    }
    FormatNatValue(m);
    ParseUnsignedDecimal(f, rest);
  }

  /** A text that does not start with white space is read as it stands. */
  lemma ParseIntUntrimmed(t: string)
    requires t != [] && !IsStrWhiteSpace(t[0])
    ensures ParseInt(t) == ParseSigned(t)
  {
    assert TrimStart(t) == t;
  }

  /** A minus sign negates the number read after it. */
  lemma NegTrimmed(t: string, u: string, v: int)
    requires t != [] && t[0] == '-' && t[1..] == u
    requires ParseUnsigned(u) == Int(v)
    ensures ParseInt(t) == Int(-v)
  {
    ParseIntUntrimmed(t);
  }

  /** A plus sign leaves the number read after it as it is. */
  lemma PlusTrimmed(t: string, u: string)
    requires t != [] && t[0] == '+' && t[1..] == u
    ensures ParseInt(t) == ParseUnsigned(u)
  {
    ParseIntUntrimmed(t);
  }

  /** A text with no digit where the number should start reads as NaN. */
  lemma UnsignedNoDigitIsNaN(u: string)
    requires u == [] || DigitValue(u[0]) >= 10
    ensures ParseUnsigned(u) == NaN
  {
  }

  /** A string that starts with a decimal digit has no white space or
      sign to skip; a leading minus negates it. */
  lemma ParseIntOfNumeral(u: string, v: int)
    requires u != [] && DigitValue(u[0]) < 10
    requires ParseUnsigned(u) == Int(v)
    ensures ParseInt(u) == Int(v)
    ensures ParseInt("-" + u) == Int(-v)
  {
    assert !IsStrWhiteSpace(u[0]);
    ParseIntUntrimmed(u);
    var t := "-" + u;
    assert t[0] == '-' && t[1..] == u;
    NegTrimmed(t, u, v);
  }

  /** parseInt inverts the decimal formatter, and whatever follows the
      numeral is ignored as long as it does not extend the numeral (a
      digit) or, after a lone "0", turn it into the hex prefix. */
  lemma ParseIntFormatInt(n: int, rest: string)
    requires rest == [] || DigitValue(rest[0]) >= 10
    requires n == 0 && rest != [] ==> rest[0] != 'x' && rest[0] != 'X'
    ensures ParseInt(FormatInt(n) + rest) == Int(n)
  {
    if n < 0 {
      ParseIntFormatNeg(-n, rest);
      assert -(-n) == n;
    } else {
      ParseIntFormatNonNeg(n, rest);
    }
  }

  lemma ParseIntFormatNeg(m: nat, rest: string)
    requires m > 0
    requires rest == [] || DigitValue(rest[0]) >= 10
    ensures ParseInt(FormatInt(-(m as int)) + rest) == Int(-(m as int))
  {
    var u := FormatNat(m) + rest;
    var s := FormatInt(-(m as int)) + rest;
    assert s == "-" + u by {
      assert FormatInt(-(m as int)) == "-" + FormatNat(m);
    }
    ParseUnsignedFormatNat(m, rest);
    ParseIntOfNumeral(u, m);
  }

  lemma ParseIntFormatNonNeg(m: nat, rest: string)
    requires rest == [] || DigitValue(rest[0]) >= 10
    requires m == 0 && rest != [] ==> rest[0] != 'x' && rest[0] != 'X'
    ensures ParseInt(FormatInt(m) + rest) == Int(m)
  {
    var u := FormatNat(m) + rest;
    ParseUnsignedFormatNat(m, rest);
    ParseIntOfNumeral(u, m);
    assert FormatInt(m) + rest == u;
  }

  /** A plus sign before a natural number's numeral changes nothing. */
  lemma ParseIntPlusFormatNat(m: nat, rest: string)
    requires rest == [] || DigitValue(rest[0]) >= 10
    requires m == 0 && rest != [] ==> rest[0] != 'x' && rest[0] != 'X'
    ensures ParseInt("+" + FormatNat(m) + rest) == Int(m)
  {
    var f := FormatNat(m);
    var u := f + rest;
    var t := "+" + f + rest;
    assert t[0] == '+' && t[1..] == u by {
      assert t == "+" + u;
    }
    ParseUnsignedFormatNat(m, rest);
    PlusTrimmed(t, u);
  }

  lemma ParseIntFormatIntExact(n: int)
    ensures ParseInt(FormatInt(n)) == Int(n)
  {
    ParseIntFormatInt(n, []);
    assert FormatInt(n) + [] == FormatInt(n);
  }

  /** Text that, after any white space, starts with neither a sign nor a
      decimal digit has no numeric prefix: parseInt gives NaN, not 0. */
  lemma NoLeadingDigitIsNaN(w: string, s: string)
    requires forall i :: 0 <= i < |w| ==> IsStrWhiteSpace(w[i])
    requires s == [] || (!IsStrWhiteSpace(s[0]) && s[0] != '+' && s[0] != '-' && DigitValue(s[0]) >= 10)
    ensures ParseInt(w + s) == NaN
  {
    ParseIntSkipsWhiteSpace(w, s);
    assert TrimStart(s) == s;
    UnsignedNoDigitIsNaN(s);
  }

  /** A sign with no decimal digit after it, after any white space, gives
      NaN as well. */
  lemma SignWithoutDigitsIsNaN(w: string, t: string)
    requires forall i :: 0 <= i < |w| ==> IsStrWhiteSpace(w[i])
    requires t != [] && (t[0] == '+' || t[0] == '-')
    requires |t| == 1 || DigitValue(t[1]) >= 10
    ensures ParseInt(w + t) == NaN
  {
    SignedNoDigitIsNaN(t);
    ParseIntSkipsWhiteSpace(w, t);
  }

  lemma SignedNoDigitIsNaN(t: string)
    requires t != [] && (t[0] == '+' || t[0] == '-')
    requires |t| == 1 || DigitValue(t[1]) >= 10
    ensures ParseInt(t) == NaN
  {
    UnsignedNoDigitIsNaN(t[1..]);
    assert ParseSigned(t) == NaN;
    ParseIntUntrimmed(t);
  }

  /** After "0x" or "0X" only hex digits are read: the prefix with none
      after it is NaN, although it starts with the digit 0. */
  lemma HexUnsignedNoDigitIsNaN(p: string, rest: string)
    requires p == "0x" || p == "0X"
    requires rest == [] || DigitValue(rest[0]) >= 16
    ensures ParseUnsigned(p + rest) == NaN
  {
    var u := p + rest;
    assert HasHexPrefix(u) && u[2..] == rest;
  }

  /** The same after any white space and an optional sign. */
  lemma HexPrefixWithoutDigitsIsNaN(w: string, sign: string, p: string, rest: string)
    requires forall i :: 0 <= i < |w| ==> IsStrWhiteSpace(w[i])
    requires sign == "" || sign == "+" || sign == "-"
    requires p == "0x" || p == "0X"
    requires rest == [] || DigitValue(rest[0]) >= 16
    ensures ParseInt(w + sign + p + rest) == NaN
  {
    var u := p + rest;
    var t := sign + u;
    assert ParseInt(t) == NaN by {
      HexUnsignedNoDigitIsNaN(p, rest);
      assert u[0] == '0';
      SignedOfNaN(sign, u);
    }
    ParseIntSkipsWhiteSpace(w, t);
    ConcatFour(w, sign, p, rest);
  }

  lemma ConcatFour(a: string, b: string, c: string, d: string)
    ensures a + b + c + d == a + (b + (c + d))
  {
  }

  /** An optional sign before text that reads as NaN, where that text does
      not start with white space or a sign, is NaN too. */
  lemma SignedOfNaN(sign: string, u: string)
    requires sign == "" || sign == "+" || sign == "-"
    requires u != [] && !IsStrWhiteSpace(u[0]) && u[0] != '+' && u[0] != '-'
    requires ParseUnsigned(u) == NaN
    ensures ParseInt(sign + u) == NaN
  {
    var t := sign + u;
    if sign == "" {
      assert t == u;
    } else {
      assert t[0] == sign[0] && t[1..] == u;
    }
    ParseIntUntrimmed(t);
  }

  /** Calorie inputs as a user types them: a plain numeral, a numeral
      followed by a unit, and a word. */
  lemma PlainNumeral()
    ensures ParseInt("400") == Int(400)
  {
    assert FormatInt(400) == "400" by {
      assert FormatNat(4) == "4";
      assert FormatNat(40) == "40";
    }
    ParseIntFormatIntExact(400);
  }

  lemma OtherPlainNumeral()
    ensures ParseInt("300") == Int(300)
  {
    assert FormatInt(300) == "300" by {
      assert FormatNat(3) == "3";
      assert FormatNat(30) == "30";
    }
    ParseIntFormatIntExact(300);
  }

  lemma NumeralThenUnit()
    ensures ParseInt("12abc") == Int(12)
  {
    assert FormatInt(12) + "abc" == "12abc" by {
      assert FormatNat(1) == "1";
    }
    ParseIntFormatInt(12, "abc");
  }

  lemma WordIsNaN()
    ensures ParseInt("abc") == NaN
  {
    NoLeadingDigitIsNaN("", "abc");
    assert "" + "abc" == "abc";
  }

  lemma PlusNumeral()
    ensures ParseInt("+400") == Int(400)
  {
    assert "+" + FormatNat(400) + [] == "+400" by {
      assert FormatNat(4) == "4";
      assert FormatNat(40) == "40";
    }
    ParseIntPlusFormatNat(400, []);
  }

  lemma SignedWordIsNaN()
    ensures ParseInt("-abc") == NaN
  {
    SignedNoDigitIsNaN("-abc");
  }
}
