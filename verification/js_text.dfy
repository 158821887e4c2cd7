/**
 * The few JavaScript string and number built-ins the widgets rely on:
 * `String.prototype.trim`, `String.prototype.split` with a one-character
 * separator, `Number.prototype.toString` on integers and the global
 * `parseInt` without a radix argument.
 */
module JsText {
  import opened Wrappers

  /** ECMAScript WhiteSpace and LineTerminator code points: what `trim` and `parseInt` skip. */
  predicate IsWhiteSpace(c: char)
  {
    || c == '\t' || c == '\n' || c == '\U{000B}' || c == '\U{000C}' || c == '\r' || c == ' '
    || c == '\U{00A0}' || c == '\U{1680}' || ('\U{2000}' <= c <= '\U{200A}')
    || c == '\U{2028}' || c == '\U{2029}' || c == '\U{202F}' || c == '\U{205F}'
    || c == '\U{3000}' || c == '\U{FEFF}'
  }

  predicate IsBlank(s: string)
  {
    forall k :: 0 <= k < |s| ==> IsWhiteSpace(s[k])
  }

  /** Drops leading white space: the result is the longest suffix of `s` that does not start with it. */
  function TrimStart(s: string): (r: string)
    ensures |r| <= |s| && r == s[|s| - |r|..]
    ensures IsBlank(s[..|s| - |r|])
  {
    if s != [] && IsWhiteSpace(s[0]) then
      var r := TrimStart(s[1..]);
      assert s[..|s| - |r|] == [s[0]] + s[1..][..|s| - 1 - |r|];
      r
    else s
  }

  /** What `TrimStart` keeps does not start with white space. */
  lemma {:induction false} TrimStartMaximal(s: string)
    ensures TrimStart(s) == [] || !IsWhiteSpace(TrimStart(s)[0])
  {
    if s != [] && IsWhiteSpace(s[0]) {
      TrimStartMaximal(s[1..]);
    }
  }

  /** Drops trailing white space: the result is the longest prefix of `s` that does not end with it. */
  function TrimEnd(s: string): (r: string)
    ensures |r| <= |s| && r == s[..|r|]
    ensures IsBlank(s[|r|..])
  {
    if s != [] && IsWhiteSpace(s[|s| - 1]) then
      var r := TrimEnd(s[..|s| - 1]);
      assert s[|r|..] == s[..|s| - 1][|r|..] + [s[|s| - 1]];
      r
    else s
  }

  /** What `TrimEnd` keeps does not end with white space. */
  lemma {:induction false} TrimEndMaximal(s: string)
    ensures TrimEnd(s) == [] || !IsWhiteSpace(TrimEnd(s)[|TrimEnd(s)| - 1])
  {
    if s != [] && IsWhiteSpace(s[|s| - 1]) {
      TrimEndMaximal(s[..|s| - 1]);
    }
  }

  /** `s.trim()` */
  function Trim(s: string): string
  {
    TrimEnd(TrimStart(s))
  }

  /** `trim` yields the empty string exactly for blank input. */
  lemma TrimEmptyIffBlank(s: string)
    ensures Trim(s) == "" <==> IsBlank(s)
  {
    var t := TrimStart(s);
    TrimStartMaximal(s);
    if Trim(s) == "" {
      assert IsBlank(t) by { assert t[|Trim(s)|..] == t; }
      assert t == [];
      assert s[..|s|] == s;
    }
  }

  /** What `trim` returns has no white space at either end. */
  lemma TrimmedEnds(s: string)
    ensures var t := Trim(s); t == [] || (!IsWhiteSpace(t[0]) && !IsWhiteSpace(t[|t| - 1]))
  {
    var u := TrimStart(s);
    var t := TrimEnd(u);
    TrimStartMaximal(s);
    TrimEndMaximal(u);
    if t != [] {
      assert t[0] == u[0];
    }
  }

  /** `trim` only removes characters: whatever is in the result was in `s`. */
  lemma TrimmedFrom(s: string, c: char)
    requires c in Trim(s)
    ensures c in s
  {
    var u := TrimStart(s);
    var t := TrimEnd(u);
    var k :| 0 <= k < |t| && t[k] == c;
    assert u[k] == c;
    assert s[|s| - |u| + k] == c;
  }

  /** The string of `pieces` joined with `sep`: the inverse of `Split`. */
  function Join(pieces: seq<string>, sep: char): string
  {
    if |pieces| == 0 then ""
    else if |pieces| == 1 then pieces[0]
    else pieces[0] + [sep] + Join(pieces[1..], sep)
  }

  /** `s.split(sep)` for a one-character separator: the unique separator-free pieces that join back to `s`. */
  function Split(s: string, sep: char): (r: seq<string>)
    ensures |r| >= 1
    ensures Join(r, sep) == s
    ensures forall k :: 0 <= k < |r| ==> sep !in r[k]
  {
    if s == [] then [""]
    else
      var rest := Split(s[1..], sep);
      if s[0] == sep then [""] + rest
      else
        var r := [[s[0]] + rest[0]] + rest[1..];
        assert r[1..] == rest[1..];
        r
  }

  predicate IsDecimalDigit(c: char)
  {
    '0' <= c <= '9'
  }

  function DigitChar(d: nat): (c: char)
    requires d < 10
    ensures IsDecimalDigit(c)
  {
    "0123456789"[d]
  }

  /** The value of `c` as a digit in base `radix` (10 or 16), if it is one. */
  function DigitValue(c: char, radix: nat): (r: Option<nat>)
    ensures r.Some? ==> r.value < radix
    ensures radix == 10 ==> (r.Some? <==> IsDecimalDigit(c))
  {
    var v: Option<nat> :=
      if '0' <= c <= '9' then Some(c as int - '0' as int)
      else if 'a' <= c <= 'z' then Some(c as int - 'a' as int + 10)
      else if 'A' <= c <= 'Z' then Some(c as int - 'A' as int + 10)
      else None;
    if v.Some? && v.value < radix then v else None
  }

  /** The decimal numeral of a natural number, most significant digit first, without leading zeros. */
  function NatToString(n: nat): (r: string)
    ensures |r| >= 1
    ensures forall k :: 0 <= k < |r| ==> IsDecimalDigit(r[k])
    ensures |r| > 1 ==> r[0] != '0'
  {
    if n < 10 then [DigitChar(n)] else NatToString(n / 10) + [DigitChar(n % 10)]
  }

  /** `n.toString()` for an integer `n`. */
  function IntToString(n: int): (r: string)
    ensures |r| >= 1 && (IsDecimalDigit(r[0]) || r[0] == '-')
  {
    if n < 0 then "-" + NatToString(-n) else NatToString(n)
  }

  /** The longest prefix of `s` made of digits in base `radix`. */
  function DigitPrefix(s: string, radix: nat): (r: string)
    ensures |r| <= |s| && r == s[..|r|]
    ensures forall k :: 0 <= k < |r| ==> DigitValue(r[k], radix).Some?
    ensures |r| < |s| ==> DigitValue(s[|r|], radix).None?
  {
    if s != [] && DigitValue(s[0], radix).Some? then [s[0]] + DigitPrefix(s[1..], radix) else []
  }

  /** `n` with one more digit `digit` appended in base `radix`. */
  function ShiftIn(n: nat, radix: nat, digit: nat): nat
  {
    n * radix + digit
  }

  /** The number a digit string denotes in base `radix`. */
  function DigitsValue(d: string, radix: nat): nat
    requires forall k :: 0 <= k < |d| ==> DigitValue(d[k], radix).Some?
  {
    if d == [] then 0
    else ShiftIn(DigitsValue(d[..|d| - 1], radix), radix, DigitValue(d[|d| - 1], radix).value)
  }

  /** The number a run of digits in base `radix` at the start of `s` denotes; `None` when there is none. */
  function ParseDigits(s: string, radix: nat): (r: Option<nat>)
    ensures r.None? <==> s == [] || DigitValue(s[0], radix).None?
  {
    var digits := DigitPrefix(s, radix);
    if digits == [] then None else Some(DigitsValue(digits, radix))
  }

  /** An unsigned numeral: base 16 after a `0x` or `0X` prefix, base 10 otherwise. */
  function ParseUnsigned(s: string): Option<nat>
  {
    if |s| >= 2 && s[0] == '0' && (s[1] == 'x' || s[1] == 'X') then ParseDigits(s[2..], 16)
    else ParseDigits(s, 10)
  }

  /** The value `parseInt` gives for a minus sign in front of an unsigned numeral. */
  function Negated(u: Option<nat>): (r: Option<int>)
    ensures u.None? ==> r == None
    ensures u.Some? ==> r == Some(-(u.value as int))
  {
    match u
    case None => None
    case Some(n) => Some(-(n as int))
  }

  /**
   * `parseInt(s)`: skip leading white space, take an optional sign, switch to base 16
   * after a `0x` or `0X` prefix, then read the longest run of digits; no digits is NaN.
   */
  function ParseInt(s: string): (r: Option<int>)
    decreases |s|
  {
    if s != [] && IsWhiteSpace(s[0]) then ParseInt(s[1..])
    else if s != [] && s[0] == '-' then Negated(ParseUnsigned(s[1..]))
    else if s != [] && s[0] == '+' then ParseUnsigned(s[1..])
    else ParseUnsigned(s)
  }

  /** Reading back the decimal numeral of `n` gives `n`. */
  lemma {:induction false} DecimalRoundTrip(n: nat)
    ensures DigitsValue(NatToString(n), 10) == n
  {
    var s := NatToString(n);
    if n < 10 {
      DigitCharValue(n);
    } else {
      DecimalRoundTrip(n / 10);
      DigitCharValue(n % 10);
      assert s[..|s| - 1] == NatToString(n / 10);
      assert DigitsValue(s, 10) == ShiftIn(n / 10, 10, n % 10);
    }
  }

  /** A digit character reads back as the digit it was written from. */
  lemma DigitCharValue(d: nat)
    requires d < 10
    ensures DigitValue(DigitChar(d), 10) == Some(d)
  {
  }

  /** The digit prefix of a run of digits followed by a non-digit is exactly that run. */
  lemma {:induction false} DigitPrefixOfDigits(d: string, rest: string, radix: nat)
    requires forall k :: 0 <= k < |d| ==> DigitValue(d[k], radix).Some?
    requires rest == [] || DigitValue(rest[0], radix).None?
    ensures DigitPrefix(d + rest, radix) == d
  {
    if d != [] {
      assert (d + rest)[1..] == d[1..] + rest;
      DigitPrefixOfDigits(d[1..], rest, radix);
    }
  }

  /** A decimal numeral reads back, unsigned, as the number it was written from. */
  lemma NumeralParses(m: nat)
    ensures ParseUnsigned(NatToString(m)) == Some(m)
  {
    var numeral := NatToString(m);
    DigitPrefixOfDigits(numeral, [], 10);
    assert numeral + [] == numeral;
    DecimalRoundTrip(m);
    assert |numeral| >= 2 ==> numeral[1] != 'x' && numeral[1] != 'X';
  }

  /** `parseInt` inverts `toString` on every integer. */
  lemma ParseIntOfIntToString(n: int)
    ensures ParseInt(IntToString(n)) == Some(n)
  {
    var s := IntToString(n);
    var m: nat := if n < 0 then -n else n;
    NumeralParses(m);
    if n < 0 {
      assert s[0] == '-' && s[1..] == NatToString(m);
    } else {
      assert IsDecimalDigit(s[0]);
    }
  }

  /** White space in front of a text does not change what `parseInt` reads. */
  lemma {:induction false} ParseIntSkipsBlank(w: string, s: string)
    requires IsBlank(w)
    ensures ParseInt(w + s) == ParseInt(s)
    decreases |w|
  {
    if w != [] {
      var t := w + s;
      var w' := w[1..];
      assert IsWhiteSpace(t[0]) by {
        assert t[0] == w[0];
      }
      assert t[1..] == w' + s;
      assert IsBlank(w') by {
        forall k | 0 <= k < |w'| ensures IsWhiteSpace(w'[k]) {
          assert w'[k] == w[k + 1];
        }
      }
      ParseIntSkipsBlank(w', s);
    } else {
      assert w + s == s;
    }
  }

  /** Without leading white space, `parseInt` reads an optional sign and then an unsigned numeral. */
  lemma ParseIntSigned(s: string)
    requires s != [] && !IsWhiteSpace(s[0]) && s[0] != '-' && s[0] != '+'
    ensures ParseInt(s) == ParseUnsigned(s)
    ensures ParseInt("+" + s) == ParseUnsigned(s)
    ensures ParseInt("-" + s) == Negated(ParseUnsigned(s))
  {
    assert ("+" + s)[0] == '+' && ("+" + s)[1..] == s;
    ParseIntMinus(s);
  }

  /**
   * Decimal digits, with an optional sign in front, are read up to the first
   * character that is not a digit: `"3abc"` gives 3 and `"2.5"` gives 2. A
   * lone `0` followed by `x` or `X` starts a hexadecimal numeral instead.
   * Leading white space is skipped first (`ParseIntSkipsBlank`).
   */
  lemma ParseIntDecimal(d: string, rest: string)
    requires d != [] && forall k :: 0 <= k < |d| ==> IsDecimalDigit(d[k])
    requires rest == [] || !IsDecimalDigit(rest[0])
    requires d == "0" ==> rest == [] || (rest[0] != 'x' && rest[0] != 'X')
    ensures ParseInt(d + rest) == Some(DigitsValue(d, 10))
    ensures ParseInt("+" + (d + rest)) == Some(DigitsValue(d, 10))
  {
    var s := d + rest;
    UnsignedDecimal(d, rest);
    assert !IsWhiteSpace(s[0]) && s[0] != '-' && s[0] != '+';
    ParseIntSigned(s);
  }

  /** The same digits after a minus sign give the negated value. */
  lemma ParseIntNegativeDecimal(d: string, rest: string)
    requires d != [] && forall k :: 0 <= k < |d| ==> IsDecimalDigit(d[k])
    requires rest == [] || !IsDecimalDigit(rest[0])
    requires d == "0" ==> rest == [] || (rest[0] != 'x' && rest[0] != 'X')
    ensures ParseInt("-" + (d + rest)) == Some(-(DigitsValue(d, 10) as int))
  {
    var s := d + rest;
    UnsignedDecimal(d, rest);
    ParseIntMinus(s);
  }

  /** A leading minus sign negates whatever the rest reads as. */
  lemma ParseIntMinus(s: string)
    ensures ParseInt("-" + s) == Negated(ParseUnsigned(s))
  {
    assert ("-" + s)[0] == '-' && ("-" + s)[1..] == s;
  }

  /** A run of decimal digits that is not a `0x` prefix reads, unsigned, as its decimal value. */
  lemma UnsignedDecimal(d: string, rest: string)
    requires d != [] && forall k :: 0 <= k < |d| ==> IsDecimalDigit(d[k])
    requires rest == [] || !IsDecimalDigit(rest[0])
    requires d == "0" ==> rest == [] || (rest[0] != 'x' && rest[0] != 'X')
    ensures d + rest != [] && IsDecimalDigit((d + rest)[0])
    ensures ParseUnsigned(d + rest) == Some(DigitsValue(d, 10))
  {
    var s := d + rest;
    DigitPrefixOfDigits(d, rest, 10);
    assert s[0] == d[0];
    if |d| >= 2 {
      assert s[1] == d[1];
    } else if |s| >= 2 {
      assert s[1] == rest[0];
    }
  }

  /**
   * After `0x` or `0X`, hexadecimal digits are read up to the first character
   * that is not one; with none at all the result is NaN.
   */
  lemma ParseIntHex(x: char, h: string, rest: string)
    requires x == 'x' || x == 'X'
    requires forall k :: 0 <= k < |h| ==> DigitValue(h[k], 16).Some?
    requires rest == [] || DigitValue(rest[0], 16).None?
    ensures h != [] ==> ParseInt(['0', x] + (h + rest)) == Some(DigitsValue(h, 16))
    ensures h == [] ==> ParseInt(['0', x] + (h + rest)) == None
  {
    var s := ['0', x] + (h + rest);
    DigitPrefixOfDigits(h, rest, 16);
    assert s[0] == '0' && s[1] == x && s[2..] == h + rest;
    ParseIntSigned(s);
  }

  /** Text whose first character, after an optional sign, is neither white space nor a digit is NaN. */
  lemma ParseIntNaN(c: char, rest: string)
    requires !IsWhiteSpace(c) && !IsDecimalDigit(c) && c != '+' && c != '-'
    ensures ParseInt([c] + rest) == None
    ensures ParseInt("+" + ([c] + rest)) == None
    ensures ParseInt("-" + ([c] + rest)) == None
  {
    var s := [c] + rest;
    assert s[0] == c;
    assert ParseUnsigned(s) == None;
    ParseIntSigned(s);
  }

  /** `parseInt` stops at the first character that is not a digit. */
  lemma ParseIntStopsAtLetter()
    ensures ParseInt("3abc") == Some(3)
  {
    ParseIntDecimal("3", "abc");
    assert "3" + "abc" == "3abc";
  }

  /** `parseInt` reads no fraction: it stops at the decimal point. */
  lemma ParseIntStopsAtPoint()
    ensures ParseInt("2.5") == Some(2)
  {
    ParseIntDecimal("2", ".5");
    assert "2" + ".5" == "2.5";
  }

  /** `parseInt` skips white space and reads a sign. */
  lemma ParseIntSpaceAndSign()
    ensures ParseInt(" -12") == Some(-12)
  {
    ParseIntNegativeDecimal("12", "");
    assert DigitsValue("12", 10) == 12 by {
      assert "12"[..1] == "1";
    }
    ParseIntSkipsBlank(" ", "-12");
    assert "-" + ("12" + "") == "-12" && " " + "-12" == " -12";
  }

  /** `parseInt` reads `0x` numerals in base 16, and gives NaN without a digit. */
  lemma ParseIntHexAndNaN()
    ensures ParseInt("0x1F") == Some(31)
    ensures ParseInt("abc") == None
    ensures ParseInt("") == None
  {
    ParseIntHex('x', "1F", "");
    assert ['0', 'x'] + ("1F" + "") == "0x1F";
    assert DigitsValue("1F", 16) == 31 by {
      assert "1F"[..1] == "1";
    }
    ParseIntNaN('a', "bc");
    assert ['a'] + "bc" == "abc";
  }
}
