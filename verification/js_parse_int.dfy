/**
 * The global `parseInt(string)` of ECMAScript (section 19.2.5 of ECMA-262)
 * called without a radix: skip leading whitespace, read an optional sign,
 * switch to radix 16 after a `0x`/`0X` prefix, then read the longest run of
 * digits. No digit at all gives NaN, modelled as None.
 */
module JsParseInt {
  import opened Wrappers
  import opened JsStrings

  predicate IsDecimalDigit(c: char)
  {
    '0' <= c <= '9'
  }

  /** Value of `c` as a digit of radix 36 (letters of either case count from 10); 36 for a non-digit. */
  function DigitValue(c: char): nat
  {
    if '0' <= c <= '9' then c as int - '0' as int
    else if 'a' <= c <= 'z' then c as int - 'a' as int + 10
    else if 'A' <= c <= 'Z' then c as int - 'A' as int + 10
    else 36
  }

  predicate IsRadixDigit(c: char, radix: nat)
  {
    DigitValue(c) < radix
  }

  /** The longest prefix of `s` made of digits of `radix`. */
  function LeadingDigits(s: string, radix: nat): (d: string)
    ensures |d| <= |s| && d == s[..|d|]
    ensures forall i :: 0 <= i < |d| ==> IsRadixDigit(d[i], radix)
    ensures |d| < |s| ==> !IsRadixDigit(s[|d|], radix)
  {
    if s != [] && IsRadixDigit(s[0], radix) then [s[0]] + LeadingDigits(s[1..], radix) else []
  }

  /** The number a digit string denotes, most significant digit first. */
  function DigitsValue(d: string, radix: nat): nat
  {
    if d == [] then 0 else DigitsValue(d[..|d| - 1], radix) * radix + DigitValue(d[|d| - 1])
  }

  /** Whether a `0x`/`0X` prefix switches the reading to radix 16. */
  predicate HasHexPrefix(u: string)
  {
    |u| >= 2 && u[0] == '0' && (u[1] == 'x' || u[1] == 'X')
  }

  /** The text after an optional leading sign. */
  function AfterSign(t: string): (u: string)
    ensures |u| <= |t| && u == t[|t| - |u|..]
  {
    if t != [] && (t[0] == '-' || t[0] == '+') then t[1..] else t
  }

  /** The magnitude read from unsigned text: radix 16 after a `0x` prefix, radix 10 otherwise; None when no digit follows. */
  function ParseMagnitude(u: string): Option<nat>
  {
    var hex := HasHexPrefix(u);
    var radix := if hex then 16 else 10;
    var d := LeadingDigits(if hex then u[2..] else u, radix);
    if d == [] then None else Some(DigitsValue(d, radix))
  }

  /** `parseInt(s)`; None stands for NaN. */
  function ParseInt(s: string): Option<int>
  {
    var t := TrimStart(s);
    match ParseMagnitude(AfterSign(t))
    case None => None
    case Some(v) => if t != [] && t[0] == '-' then Some(-(v as int)) else Some(v as int)
  }

  /**
   * parseInt yields a negative number only when the text holds a minus sign,
   * NaN when it holds no decimal digit, and a number only when a decimal digit
   * directly follows the leading whitespace and the optional sign.
   */
  lemma ParseIntSignAndDigits(s: string)
    ensures ParseInt(s).Some? && ParseInt(s).value < 0 ==> '-' in s
    ensures (forall i :: 0 <= i < |s| ==> !IsDecimalDigit(s[i])) ==> ParseInt(s).None?
    ensures ParseInt(s).Some? ==> AfterSign(TrimStart(s)) != [] && IsDecimalDigit(AfterSign(TrimStart(s))[0])
  {
    NegativeNeedsMinus(s);
    NumberNeedsLeadingDigit(s);
    var u := AfterSign(TrimStart(s));
    if u != [] {
      assert u[0] == s[|s| - |u|];
    }
  }

  lemma NegativeNeedsMinus(s: string)
    ensures ParseInt(s).Some? && ParseInt(s).value < 0 ==> '-' in s
  {
    var t := TrimStart(s);
    if t != [] && t[0] == '-' {
      assert t[0] == s[|s| - |t|];
    }
  }

  lemma NumberNeedsLeadingDigit(s: string)
    ensures ParseInt(s).Some? ==> AfterSign(TrimStart(s)) != [] && IsDecimalDigit(AfterSign(TrimStart(s))[0])
  {
    MagnitudeNeedsDigit(AfterSign(TrimStart(s)));
  }

  /** A magnitude is read only from text that starts with a decimal digit. */
  lemma MagnitudeNeedsDigit(u: string)
    ensures ParseMagnitude(u).Some? ==> u != [] && IsDecimalDigit(u[0])
  {
    if !HasHexPrefix(u) && LeadingDigits(u, 10) != [] {
      assert LeadingDigits(u, 10)[0] == u[0];
    }
  }

  /** The decimal rendering of a natural number, without leading zeros. */
  function ShowNat(n: nat): (r: string)
    ensures r != []
    ensures forall i :: 0 <= i < |r| ==> IsDecimalDigit(r[i])
  {
    if n < 10 then ['0' + n as char] else ShowNat(n / 10) + ['0' + (n % 10) as char]
  }

  lemma {:induction false} ShowNatValue(n: nat)
    ensures DigitsValue(ShowNat(n), 10) == n
    ensures n > 0 ==> ShowNat(n)[0] != '0'
  {
    if n >= 10 {
      ShowNatValue(n / 10);
      var s := ShowNat(n / 10) + ['0' + (n % 10) as char];
      assert s[..|s| - 1] == ShowNat(n / 10);
    }
  }

  lemma {:induction false} LeadingDigitsOfDigits(d: string, rest: string, radix: nat)
    requires forall i :: 0 <= i < |d| ==> IsRadixDigit(d[i], radix)
    requires rest == [] || !IsRadixDigit(rest[0], radix)
    ensures LeadingDigits(d + rest, radix) == d
  {
    if d == [] {
      assert d + rest == rest;
    } else {
      assert (d + rest)[1..] == d[1..] + rest;
      LeadingDigitsOfDigits(d[1..], rest, radix);
    }
  }

  lemma {:induction false} TrimStartSkips(ws: string, t: string)
    requires forall i :: 0 <= i < |ws| ==> IsJsSpace(ws[i])
    requires t == [] || !IsJsSpace(t[0])
    ensures TrimStart(ws + t) == t
  {
    if ws != [] {
      assert (ws + t)[1..] == ws[1..] + t;
      TrimStartSkips(ws[1..], t);
    } else {
      assert ws + t == t;
    }
  }

  /** parseInt of text that trims to unsigned text reads that text's magnitude. */
  lemma ParseIntUnsigned(s: string, u: string)
    requires TrimStart(s) == u
    requires u != [] && u[0] != '-' && u[0] != '+'
    ensures ParseMagnitude(u).None? ==> ParseInt(s).None?
    ensures ParseMagnitude(u).Some? ==> ParseInt(s) == Some(ParseMagnitude(u).value as int)
  {
    assert AfterSign(u) == u;
  }

  /** parseInt of text that trims to a minus sign and unsigned text reads the negated magnitude. */
  lemma ParseIntMinus(s: string, u: string, n: nat)
    requires TrimStart(s) == "-" + u
    requires ParseMagnitude(u) == Some(n)
    ensures ParseInt(s) == Some(-(n as int))
  {
    var t := "-" + u;
    assert t[1..] == u;
    assert AfterSign(t) == u;
  }

  /** The decimal rendering of `n` followed by text that does not continue it reads as `n`. */
  lemma MagnitudeOfDecimal(n: nat, rest: string)
    requires rest == [] || !IsDecimalDigit(rest[0])
    requires n == 0 ==> rest == [] || (rest[0] != 'x' && rest[0] != 'X')
    ensures ParseMagnitude(ShowNat(n) + rest) == Some(n)
  {
    var digits := ShowNat(n);
    var u := digits + rest;
    ShowNatValue(n);
    assert u[0] == digits[0];
    assert !HasHexPrefix(u) by {
      if |u| >= 2 && u[0] == '0' && n == 0 {
        assert digits == "0";
        assert u[1] == rest[0];
      }
    }
    LeadingDigitsOfDigits(digits, rest, 10);
  }

  lemma ParseIntSpacedMinus(ws: string, u: string, n: nat)
    requires forall i :: 0 <= i < |ws| ==> IsJsSpace(ws[i])
    requires ParseMagnitude(u) == Some(n)
    ensures ParseInt(ws + ("-" + u)) == Some(-(n as int))
  {
    var t := "-" + u;
    TrimStartSkips(ws, t);
    var s := ws + t;
    assert TrimStart(s) == t;
    ParseIntMinus(s, u, n);
  }

  /** parseInt after leading whitespace reads the magnitude of unsigned text that does not start with whitespace. */
  lemma ParseIntSpacedUnsigned(ws: string, u: string, n: nat)
    requires forall i :: 0 <= i < |ws| ==> IsJsSpace(ws[i])
    requires u != [] && IsDecimalDigit(u[0])
    requires ParseMagnitude(u) == Some(n)
    ensures ParseInt(ws + u) == Some(n as int)
  {
    TrimStartSkips(ws, u);
    ParseIntUnsigned(ws + u, u);
  }

  /**
   * Reading back: parseInt of optional whitespace, the decimal rendering of
   * `n`, and any text not continuing the number, gives `n`.
   */
  lemma ParseIntReadsDecimal(ws: string, n: nat, rest: string)
    requires forall i :: 0 <= i < |ws| ==> IsJsSpace(ws[i])
    requires rest == [] || !IsDecimalDigit(rest[0])
    requires n == 0 ==> rest == [] || (rest[0] != 'x' && rest[0] != 'X')
    ensures ParseInt(ws + ShowNat(n) + rest) == Some(n as int)
  {
    var u := ShowNat(n) + rest;
    MagnitudeOfDecimal(n, rest);
    assert u[0] == ShowNat(n)[0];
    assert ws + ShowNat(n) + rest == ws + u;
    ParseIntSpacedUnsigned(ws, u, n);
  }

  /** parseInt reads back the decimal rendering of any natural number. */
  lemma ParseIntShowNat(n: nat)
    ensures ParseInt(ShowNat(n)) == Some(n as int)
  {
    var u := ShowNat(n);
    MagnitudeOfDecimal(n, "");
    assert u + "" == u;
    TrimStartSkips("", u);
    assert "" + u == u;
    ParseIntUnsigned(u, u);
  }

  lemma Regroup(a: string, b: string, c: string, d: string)
    ensures a + b + c + d == a + (b + (c + d))
  {
  }

  /** The same after a minus sign: the number read is `-n`. */
  lemma ParseIntReadsNegative(ws: string, n: nat, rest: string)
    requires forall i :: 0 <= i < |ws| ==> IsJsSpace(ws[i])
    requires rest == [] || !IsDecimalDigit(rest[0])
    requires n == 0 ==> rest == [] || (rest[0] != 'x' && rest[0] != 'X')
    ensures ParseInt(ws + "-" + ShowNat(n) + rest) == Some(-(n as int))
  {
    var u := ShowNat(n) + rest;
    MagnitudeOfDecimal(n, rest);
    Regroup(ws, "-", ShowNat(n), rest);
    ParseIntSpacedMinus(ws, u, n);
  }

  /**
   * Text whose first non-blank character is neither a sign nor a decimal
   * digit (a circa mark as in "c. 1920", a bracket, a letter) reads as NaN.
   */
  lemma ParseIntNoLeadingNumber(ws: string, t: string)
    requires forall i :: 0 <= i < |ws| ==> IsJsSpace(ws[i])
    requires t != [] && !IsJsSpace(t[0]) && !IsDecimalDigit(t[0]) && t[0] != '-' && t[0] != '+'
    ensures ParseInt(ws + t) == None
  {
    TrimStartSkips(ws, t);
    ParseIntUnsigned(ws + t, t);
    assert !HasHexPrefix(t);
    assert LeadingDigits(t, 10) == [];
  }

  /** The magnitude of a `0x`-prefixed run of hexadecimal digits. */
  lemma HexMagnitude(x: char, d: string, rest: string)
    requires x == 'x' || x == 'X'
    requires d != [] && forall i :: 0 <= i < |d| ==> IsRadixDigit(d[i], 16)
    requires rest == [] || !IsRadixDigit(rest[0], 16)
    ensures ParseMagnitude(['0', x] + d + rest) == Some(DigitsValue(d, 16))
  {
    var u := ['0', x] + d + rest;
    AfterPair('0', x, d, rest);
    assert HasHexPrefix(u);
    LeadingDigitsOfDigits(d, rest, 16);
  }

  lemma RegroupAfter<T>(w: seq<T>, a: seq<T>, b: seq<T>, c: seq<T>)
    ensures w + a + b + c == w + (a + b + c)
  {
  }

  lemma AfterPair<T>(a: T, b: T, d: seq<T>, rest: seq<T>)
    ensures |[a, b] + d + rest| >= 2
    ensures ([a, b] + d + rest)[2..] == d + rest
    ensures ([a, b] + d + rest)[0] == a && ([a, b] + d + rest)[1] == b
  {
    assert [a, b] + d + rest == [a, b] + (d + rest);
  }

  /**
   * The hexadecimal quirk: after optional whitespace, a `0x` or `0X` prefix
   * followed by hexadecimal digits reads those digits in radix 16.
   */
  lemma ParseIntHexPrefix(ws: string, x: char, d: string, rest: string)
    requires forall i :: 0 <= i < |ws| ==> IsJsSpace(ws[i])
    requires x == 'x' || x == 'X'
    requires d != [] && forall i :: 0 <= i < |d| ==> IsRadixDigit(d[i], 16)
    requires rest == [] || !IsRadixDigit(rest[0], 16)
    ensures ParseInt(ws + ['0', x] + d + rest) == Some(DigitsValue(d, 16) as int)
  {
    var u := ['0', x] + d + rest;
    HexMagnitude(x, d, rest);
    AfterPair('0', x, d, rest);
    ParseIntSpacedUnsigned(ws, u, DigitsValue(d, 16));
    RegroupAfter(ws, ['0', x], d, rest);
  }

  lemma HexYearDigits()
    ensures DigitsValue("7D0", 16) == 2000
  {
    assert "7D0"[..2] == "7D" && "7D"[..1] == "7" && "7"[..0] == "";
    assert DigitsValue("7", 16) == 7;
    assert DigitsValue("7D", 16) == 7 * 16 + 13;
  }

  /** A year written as `0x7D0` reads as 2000. */
  lemma ParseIntHexYear()
    ensures ParseInt("0x7D0") == Some(2000)
  {
    var u := "0x7D0";
    assert u == ['0', 'x'] + "7D0" + "";
    assert ParseMagnitude(u) == Some(DigitsValue("7D0", 16)) by {
      HexMagnitude('x', "7D0", "");
    }
    ParseIntSpacedUnsigned("", u, DigitsValue("7D0", 16));
    assert "" + u == u;
    HexYearDigits();
  }
}
