/**
 * The few ECMAScript operations the display helpers rely on, stated by their
 * mathematical meaning: parseInt, Number.prototype.toString(radix),
 * String.prototype.toUpperCase and padStart, the 32-bit conversion and bitwise
 * AND, and the conversion of a string to a number done by a relational
 * comparison. JavaScript numbers are modelled as unbounded integers (or reals
 * for fractions); NaN becomes None.
 */
module JsSemantics {
  import opened Wrappers
  import opened Digits

  // ---------------------------------------------------------------- characters

  /** WhiteSpace and LineTerminator code points of ECMAScript (section 12.2 and 12.3). */
  predicate IsWhiteSpace(c: char)
  {
    var n := c as int;
    n == 0x09 || n == 0x0A || n == 0x0B || n == 0x0C || n == 0x0D || n == 0x20 ||
    n == 0xA0 || n == 0x1680 || (0x2000 <= n <= 0x200A) || n == 0x2028 || n == 0x2029 ||
    n == 0x202F || n == 0x205F || n == 0x3000 || n == 0xFEFF
  }

  /** The value of c as a digit of radix up to 36: 0-9, then a-z or A-Z as 10-35. */
  function DigitValue(c: char): (d: Option<nat>)
    ensures d.Some? ==> d.value < 36
  {
    if '0' <= c <= '9' then Some(c as int - '0' as int)
    else if 'a' <= c <= 'z' then Some(c as int - 'a' as int + 10)
    else if 'A' <= c <= 'Z' then Some(c as int - 'A' as int + 10)
    else None
  }

  /** The lower-case character Number.prototype.toString uses for digit d. */
  function DigitChar(d: nat): (c: char)
    requires d < 36
    ensures DigitValue(c) == Some(d)
    ensures !IsWhiteSpace(c) && c != '-' && c != '+'
  {
    if d < 10 then (('0' as int) + d) as char else (('a' as int) + d - 10) as char
  }

  /** Every character of s is a digit below base. */
  predicate AllDigits(s: string, base: nat)
  {
    forall i :: 0 <= i < |s| ==> DigitValue(s[i]).Some? && DigitValue(s[i]).value < base
  }

  /** The digit values of a string of digits. */
  function Values(s: string): (ds: seq<nat>)
    requires AllDigits(s, 36)
    ensures |ds| == |s| && forall i :: 0 <= i < |s| ==> Some(ds[i]) == DigitValue(s[i])
  {
    seq(|s|, i requires 0 <= i < |s| => DigitValue(s[i]).value)
  }

  /** The characters of a digit sequence, lower case. */
  function DigitString(ds: seq<nat>): (s: string)
    requires forall i :: 0 <= i < |ds| ==> ds[i] < 36
    ensures |s| == |ds| && AllDigits(s, 36) && Values(s) == ds
  {
    seq(|ds|, i requires 0 <= i < |ds| => DigitChar(ds[i]))
  }

  // ---------------------------------------------------------------- parseInt

  function TrimStart(s: string): (t: string)
    ensures |t| <= |s| && t == s[|s| - |t|..]
    ensures t == [] || !IsWhiteSpace(t[0])
  {
    if s != [] && IsWhiteSpace(s[0]) then TrimStart(s[1..]) else s
  }

  function TrimEnd(s: string): (t: string)
    ensures |t| <= |s| && t == s[..|t|]
    ensures t == [] || !IsWhiteSpace(t[|t| - 1])
  {
    if s != [] && IsWhiteSpace(s[|s| - 1]) then TrimEnd(s[..|s| - 1]) else s
  }

  function Trim(s: string): string
  {
    TrimEnd(TrimStart(s))
  }

  /** The values of the longest prefix of s made of digits below base. */
  function DigitPrefix(s: string, base: nat): (ds: seq<nat>)
    ensures |ds| <= |s|
  {
    if s != [] && DigitValue(s[0]).Some? && DigitValue(s[0]).value < base then
      [DigitValue(s[0]).value] + DigitPrefix(s[1..], base)
    else
      []
  }

  /** The radix parseInt uses when its radix argument is r (0 stands for undefined). */
  function Base(r: int): int
  {
    if r == 0 then 10 else r
  }

  /**
   * parseInt(s, radix) of ECMAScript section 19.2.5, with radix 0 standing for
   * an absent radix: leading white space is skipped, one sign is accepted, radix
   * 16 or an absent radix also skips a "0x"/"0X" prefix (an absent radix then
   * becomes 16, otherwise 10), and the longest run of digits is read; no digit
   * at all gives NaN, as does a radix outside 2..36.
   */
  function ParseInt(s: string, radix: int): Option<int>
  {
    var t := TrimStart(s);
    var negative := |t| > 0 && t[0] == '-';
    var u := if |t| > 0 && (t[0] == '-' || t[0] == '+') then t[1..] else t;
    ParseUnsigned(u, radix, negative)
  }

  /** parseInt after white space and sign are consumed. */
  function ParseUnsigned(u: string, radix: int, negative: bool): Option<int>
  {
    if radix != 0 && (radix < 2 || radix > 36) then None
    else
      var prefixed := (radix == 0 || radix == 16) && |u| >= 2 && u[0] == '0' && (u[1] == 'x' || u[1] == 'X');
      var base: nat := if prefixed then 16 else Base(radix);
      var z := DigitPrefix(if prefixed then u[2..] else u, base);
      if z == [] then None else Some(Signed(ValueOf(z, base), negative))
  }

  /** A magnitude with its sign. */
  function Signed(v: nat, negative: bool): int
  {
    var w: int := v;
    if negative then -w else w
  }

  /** A prefix made entirely of digits is read completely. */
  lemma {:induction false} DigitPrefixAll(s: string, base: nat)
    requires AllDigits(s, base) && base <= 36
    ensures DigitPrefix(s, base) == Values(s)
    decreases |s|
  {
    if s != [] {
      DigitPrefixAll(s[1..], base);
      assert Values(s) == [Values(s)[0]] + Values(s[1..]);
    }
  }

  /**
   * A non-empty string of digits of the radix in use, optionally behind a
   * minus sign, is read back by parseInt as its value. Only radix 16 and an
   * absent radix strip a "0x" prefix, and 'x' is a digit of neither.
   */
  lemma ParseIntAllDigits(s: string, radix: int)
    requires radix == 0 || 2 <= radix <= 36
    requires |s| >= 1 && AllDigits(s, Base(radix))
    ensures ParseInt(s, radix) == Some(ValueOf(Values(s), Base(radix)))
    ensures ParseInt("-" + s, radix) == Some(-(ValueOf(Values(s), Base(radix)) as int))
  {
    ParseIntDigits(s, radix);
    ParseIntNegatedDigits(s, radix);
  }

  lemma ParseIntDigits(s: string, radix: int)
    requires radix == 0 || 2 <= radix <= 36
    requires |s| >= 1 && AllDigits(s, Base(radix))
    ensures ParseInt(s, radix) == Some(ValueOf(Values(s), Base(radix)))
  {
    ParsePositive(s, radix);
    ParseUnsignedAllDigits(s, radix, false);
  }

  lemma ParseIntNegatedDigits(s: string, radix: int)
    requires radix == 0 || 2 <= radix <= 36
    requires |s| >= 1 && AllDigits(s, Base(radix))
    ensures ParseInt("-" + s, radix) == Some(-(ValueOf(Values(s), Base(radix)) as int))
  {
    var v := ValueOf(Values(s), Base(radix));
    ParseUnsignedAllDigits(s, radix, true);
    ParseNegativeIs(s, radix, Signed(v, true));
  }

  lemma ParseNegativeIs(s: string, radix: int, x: int)
    requires ParseUnsigned(s, radix, true) == Some(x)
    ensures ParseInt("-" + s, radix) == Some(x)
  {
    ParseNegative(s, radix);
  }

  /** Without white space or sign in front parseInt reads the digits as they are. */
  lemma ParsePositive(s: string, radix: int)
    requires |s| >= 1 && DigitValue(s[0]).Some?
    ensures ParseInt(s, radix) == ParseUnsigned(s, radix, false)
  {
    assert TrimStart(s) == s;
  }

  /** After a leading minus sign parseInt reads the rest as a negative number. */
  lemma ParseNegative(s: string, radix: int)
    ensures ParseInt("-" + s, radix) == ParseUnsigned(s, radix, true)
  {
    var m := "-" + s;
    assert m[0] == '-' && m[1..] == s;
    assert TrimStart(m) == m;
  }

  lemma ParseUnsignedAllDigits(s: string, radix: int, negative: bool)
    requires radix == 0 || 2 <= radix <= 36
    requires |s| >= 1 && AllDigits(s, Base(radix))
    ensures ParseUnsigned(s, radix, negative) == Some(Signed(ValueOf(Values(s), Base(radix)), negative))
  {
    if |s| >= 2 && (radix == 0 || radix == 16) {
      assert DigitValue(s[1]).value < 16;
      assert DigitValue('x') == Some(33) && DigitValue('X') == Some(33);
    }
    ParseUnprefixed(s, radix, negative);
    DigitPrefixAll(s, Base(radix));
  }

  /** Without a "0x" prefix where one would be stripped, parseInt reads the digits of the radix in use. */
  lemma ParseUnprefixed(u: string, radix: int, negative: bool)
    requires radix == 0 || 2 <= radix <= 36
    requires (radix == 0 || radix == 16) ==> !(|u| >= 2 && u[0] == '0' && (u[1] == 'x' || u[1] == 'X'))
    ensures ParseUnsigned(u, radix, negative) ==
            var z := DigitPrefix(u, Base(radix));
            if z == [] then None else Some(Signed(ValueOf(z, Base(radix)), negative))
  {
  }

  // ---------------------------------------------------------------- toString, toUpperCase, padStart

  /** Number.prototype.toString(radix) for an integer: a minus sign for negatives, then lower-case digits. */
  function NumberToString(n: int, radix: nat): string
    requires 2 <= radix <= 36
  {
    if n < 0 then "-" + DigitString(DigitsOf(-n, radix)) else DigitString(DigitsOf(n, radix))
  }

  /**
   * The text toString(radix) writes is a canonical numeral of radix: after the
   * minus sign of a negative n, its digits are worth |n|, and only zero starts
   * with '0'.
   */
  lemma NumberToStringMeaning(n: int, radix: nat)
    requires 2 <= radix <= 36
    ensures var s := NumberToString(n, radix);
            n >= 0 ==> AllDigits(s, radix) && ValueOf(Values(s), radix) == n && (|s| > 1 ==> s[0] != '0')
    ensures var s := NumberToString(n, radix);
            n < 0 ==> |s| >= 2 && s[0] == '-' && AllDigits(s[1..], radix) &&
                      ValueOf(Values(s[1..]), radix) == -n && (|s| > 2 ==> s[1] != '0')
  {
    var m: nat := if n < 0 then -n else n;
    DigitStringReads(m, radix);
    if n < 0 {
      var d := DigitString(DigitsOf(m, radix));
      assert NumberToString(n, radix) == "-" + d;
      assert ("-" + d)[1..] == d;
    }
  }

  /** The text of m's digits in a radix is a canonical numeral worth m. */
  lemma DigitStringReads(m: nat, radix: nat)
    requires 2 <= radix <= 36
    ensures var d := DigitString(DigitsOf(m, radix));
            |d| >= 1 && AllDigits(d, radix) && ValueOf(Values(d), radix) == m && (|d| > 1 ==> d[0] != '0')
  {
    var ds := DigitsOf(m, radix);
    var d := DigitString(ds);
    forall i | 0 <= i < |d| ensures DigitValue(d[i]).Some? && DigitValue(d[i]).value < radix {
      assert Some(Values(d)[i]) == DigitValue(d[i]);
    }
    if |d| > 1 {
      assert DigitValue(d[0]) == Some(ds[0]);
    }
    ValueOfDigitsOf(m, radix);
  }

  /** The text a DOM value takes when a number, or NaN, is assigned to it. */
  function NumberText(x: Option<int>): string
  {
    match x
    case Some(n) => NumberToString(n, 10)
    case None => "NaN"
  }

  /** String(n) read back by parseInt gives n. */
  lemma DecimalRoundTrip(n: int)
    ensures ParseInt(NumberToString(n, 10), 0) == Some(n)
  {
    var m := if n < 0 then -n else n;
    var s := DigitString(DigitsOf(m, 10));
    ParseIntAllDigits(s, 0);
    ValueOfDigitsOf(m, 10);
  }

  function UpperChar(c: char): char
  {
    if 'a' <= c <= 'z' then (c as int - 32) as char else c
  }

  /** String.prototype.toUpperCase on the ASCII letters. */
  function ToUpperCase(s: string): (t: string)
    ensures |t| == |s|
  {
    seq(|s|, i requires 0 <= i < |s| => UpperChar(s[i]))
  }

  function Repeat(c: char, k: nat): (s: string)
    ensures |s| == k && forall i :: 0 <= i < k ==> s[i] == c
  {
    seq(k, i => c)
  }

  /** s.padStart(maxLength, 0): the fill string is "0", repeated in front up to maxLength. */
  function PadStart(s: string, maxLength: int): (t: string)
    ensures |t| == if maxLength <= |s| then |s| else maxLength
  {
    if maxLength <= |s| then s else Repeat('0', maxLength - |s|) + s
  }

  /** s.slice(0, n) for n >= 0: the first n characters, or all of them if there are fewer. */
  function SliceTo(s: string, n: nat): (t: string)
    ensures |t| == if |s| <= n then |s| else n
  {
    if |s| <= n then s else s[..n]
  }

  // ---------------------------------------------------------------- 32-bit operations

  /** ToInt32 of ECMAScript section 7.1.6 for an integer: wrap into -2^31 .. 2^31-1. */
  function ToInt32(x: int): (r: int)
    ensures -0x8000_0000 <= r < 0x8000_0000
  {
    var m := x % 0x1_0000_0000;
    if m >= 0x8000_0000 then m - 0x1_0000_0000 else m
  }

  /** ToInt32 moves x by a whole number of 2^32 steps. */
  lemma ToInt32Offset(x: int) returns (t: int)
    ensures ToInt32(x) == x + 0x1_0000_0000 * t
  {
    var q, m := x / 0x1_0000_0000, x % 0x1_0000_0000;
    assert x == 0x1_0000_0000 * q + m;
    t := if m >= 0x8000_0000 then -q - 1 else -q;
  }

  /** Bitwise AND of two naturals, bit by bit from the least significant. */
  function BitAnd(a: nat, b: nat): (r: nat)
    ensures r <= a && r <= b
  {
    if a == 0 || b == 0 then 0
    else 2 * BitAnd(a / 2, b / 2) + (if a % 2 == 1 && b % 2 == 1 then 1 else 0)
  }

  /** The JavaScript `x & y`: AND of the two 32-bit patterns, read back as a signed 32-bit value. */
  function JsAnd(x: int, y: int): int
  {
    ToInt32(BitAnd(x % 0x1_0000_0000, y % 0x1_0000_0000))
  }

  /** An even mask contributes no low bit: the AND shifts right by one. */
  lemma BitAndEvenMask(a: nat, b: nat)
    ensures BitAnd(a, 2 * b) == 2 * BitAnd(a / 2, b)
  {
    if a != 0 && b != 0 {
      ModUnique(2 * b, 2, b, 0);
      assert BitAnd(a, 2 * b) == 2 * BitAnd(a / 2, (2 * b) / 2) + 0;
    }
  }

  /** AND with 2^k - 1 keeps the low k bits. */
  lemma {:induction false} BitAndLowMask(a: nat, k: nat)
    ensures BitAnd(a, Pow(2, k) - 1) == a % Pow(2, k)
    decreases k
  {
    if k == 0 {
      assert Pow(2, k) == 1;
      assert BitAnd(a, 0) == 0;
      ModUnique(a, 1, a, 0);
    } else if a == 0 {
      assert BitAnd(a, Pow(2, k) - 1) == 0;
      ModUnique(a, Pow(2, k), 0, 0);
    } else {
      var m := Pow(2, k - 1);
      assert Pow(2, k) == 2 * m;
      BitAndLowMask(a / 2, k - 1);
      BitAndLowMaskStep(a, m);
    }
  }

  /** One step of BitAndLowMask: one more mask bit keeps one more low bit. */
  lemma BitAndLowMaskStep(a: nat, m: nat)
    requires m >= 1 && a > 0
    requires BitAnd(a / 2, m - 1) == (a / 2) % m
    ensures BitAnd(a, 2 * m - 1) == a % (2 * m)
  {
    BitAndOddMask(a, m);
    ModDouble(a, m);
  }

  lemma BitAndOddMask(a: nat, m: nat)
    requires m >= 1 && a > 0
    ensures BitAnd(a, 2 * m - 1) == 2 * BitAnd(a / 2, m - 1) + a % 2
  {
    HalfOfOdd(m);
  }

  lemma HalfOfOdd(m: nat)
    requires m >= 1
    ensures (2 * m - 1) / 2 == m - 1 && (2 * m - 1) % 2 == 1
  {
    ModUnique(2 * m - 1, 2, m - 1, 1);
  }

  lemma ModDouble(a: nat, m: nat)
    requires m >= 1
    ensures a % (2 * m) == 2 * ((a / 2) % m) + a % 2
  {
    var q, r := a / 2, a % 2;
    var q2, r2 := q / m, q % m;
    assert a == 2 * q + r;
    assert q == m * q2 + r2;
    assert a == (2 * m) * q2 + (2 * r2 + r);
    ModUnique(a, 2 * m, q2, 2 * r2 + r);
  }

  /** Quotient and remainder are the only pair with a == d * q + r and 0 <= r < d. */
  lemma ModUnique(a: int, d: int, q: int, r: int)
    requires d > 0 && a == d * q + r && 0 <= r < d
    ensures a % d == r && a / d == q
  {
    var q0, r0 := a / d, a % d;
    assert a == d * q0 + r0;
    assert d * (q - q0) == r0 - r;
    if q > q0 {
      MulAtLeast(d, q - q0);
    } else if q < q0 {
      MulAtLeast(d, q0 - q);
    }
  }

  lemma MulAtLeast(d: int, k: int)
    requires d > 0 && k >= 1
    ensures d * k >= d
  {
  }

  // ---------------------------------------------------------------- string to number

  /** A JavaScript number: NaN, a finite value or an infinity. */
  datatype JsNumber = NaN | Finite(value: real) | Infinite(negative: bool)

  /** The relational test `x > 0` on a JavaScript number (false for NaN). */
  predicate IsPositive(x: JsNumber)
  {
    match x
    case NaN => false
    case Finite(v) => v > 0.0
    case Infinite(negative) => !negative
  }

  function DigitsValue(s: string, base: nat): Option<nat>
  {
    if s != [] && AllDigits(s, base) && base <= 36 then Some(ValueOf(Values(s), base)) else None
  }

  /**
   * StringToNumber of ECMAScript section 7.1.4.1.1 for the literal forms
   * without an exponent: white space around, empty text (zero), 0x/0o/0b
   * integers, an optionally signed "Infinity", and an optionally signed decimal
   * with an optional fraction. Anything else is NaN.
   */
  function StringToNumber(s: string): JsNumber
  {
    TrimmedToNumber(Trim(s))
  }

  /** StringToNumber once surrounding white space is gone. */
  function TrimmedToNumber(t: string): JsNumber
  {
    if t == "" then Finite(0.0)
    else if |t| >= 2 && t[0] == '0' && t[1] in "xXoObB" then
      var base := if t[1] in "xX" then 16 else if t[1] in "oO" then 8 else 2;
      match DigitsValue(t[2..], base)
      case Some(v) => Finite(v as real)
      case None => NaN
    else
      SignedDecimal(t)
  }

  /** An optional sign, then "Infinity" or an unsigned decimal. */
  function SignedDecimal(t: string): JsNumber
    requires t != ""
  {
    var negative := t[0] == '-';
    var u := if t[0] == '-' || t[0] == '+' then t[1..] else t;
    if u == "Infinity" then Infinite(negative)
    else
      match UnsignedDecimal(u)
      case Some(v) => Finite(if negative then -v else v)
      case None => NaN
  }

  /** digits, digits "." digits, digits ".", or "." digits (at least one digit). */
  function UnsignedDecimal(u: string): Option<real>
  {
    var whole := DigitPrefix(u, 10);
    var rest := u[|whole|..];
    var wholeValue := ValueOf(whole, 10) as real;
    if rest == [] then
      if whole == [] then None else Some(wholeValue)
    else if rest[0] == '.' && (rest[1..] == [] || AllDigits(rest[1..], 10)) && |whole| + |rest| >= 2 then
      var fraction := rest[1..];
      Some(wholeValue + (ValueOf(Values(fraction), 10) as real) / (Pow(10, |fraction|) as real))
    else
      None
  }

  /** The canonical decimal text of an integer converts back to that integer. */
  lemma NumberOfDecimalString(n: int)
    ensures StringToNumber(NumberToString(n, 10)) == Finite(n as real)
  {
    if n < 0 {
      NumberOfNegative(-n);
    } else {
      NumberOfNonNegative(n);
    }
  }

  lemma NumberOfNonNegative(m: nat)
    ensures StringToNumber(NumberToString(m, 10)) == Finite(m as real)
  {
    var d := DigitString(DigitsOf(m, 10));
    assert NumberToString(m, 10) == d;
    assert StringToNumber(d) == Finite(m as real) by {
      DecimalText(m);
      DecimalNumber(d);
    }
  }

  lemma NumberOfNegative(m: nat)
    requires m >= 1
    ensures StringToNumber(NumberToString(-(m as int), 10)) == Finite(-(m as real))
  {
    NegativeText(m);
    NegativeDecimalValue(m);
  }

  /** A minus sign before the decimal digits of m is the number -m. */
  lemma NegativeDecimalValue(m: nat)
    ensures StringToNumber("-" + DigitString(DigitsOf(m, 10))) == Finite(-(m as real))
  {
    var d := DigitString(DigitsOf(m, 10));
    assert StringToNumber("-" + d) == Finite(-(m as real)) by {
      DecimalText(m);
      NegativeOfDecimal(d, m as real);
    }
  }

  lemma NegativeOfDecimal(d: string, v: real)
    requires |d| >= 1 && AllDigits(d, 10) && UnsignedDecimal(d) == Some(v)
    ensures StringToNumber("-" + d) == Finite(-v)
  {
    NegativeDecimalNumber(d);
  }

  lemma NegativeText(m: nat)
    requires m >= 1
    ensures NumberToString(-(m as int), 10) == "-" + DigitString(DigitsOf(m, 10))
  {
    var w: int := m;
    assert -(-w) == w;
  }

  /** The decimal digits of m form a non-empty decimal whose value is m. */
  lemma DecimalText(m: nat)
    ensures var d := DigitString(DigitsOf(m, 10));
            |d| >= 1 && AllDigits(d, 10) && UnsignedDecimal(d) == Some(m as real)
  {
    var ds := DigitsOf(m, 10);
    var d := DigitString(ds);
    assert AllDigits(d, 10) by {
      forall i | 0 <= i < |d| ensures DigitValue(d[i]).Some? && DigitValue(d[i]).value < 10 {
        assert Some(Values(d)[i]) == DigitValue(d[i]);
      }
    }
    UnsignedDecimalOfDigits(m);
  }

  lemma DecimalNumber(d: string)
    requires |d| >= 1 && AllDigits(d, 10)
    ensures StringToNumber(d) == SignedDecimal(d) == match UnsignedDecimal(d)
                                                       case Some(v) => Finite(v)
                                                       case None => NaN
  {
    DecimalDigitChar(d[0]);
    DecimalDigitChar(d[|d| - 1]);
    NoSpaceAtEnds(d);
    if |d| >= 2 {
      DecimalDigitChar(d[1]);
    }
    StartsWithDigit(d);
  }

  /** Text starting with a decimal digit, and not followed by a radix letter, is an unsigned decimal. */
  lemma StartsWithDigit(t: string)
    requires t != [] && '0' <= t[0] <= '9' && (|t| >= 2 ==> '0' <= t[1] <= '9')
    ensures TrimmedToNumber(t) == SignedDecimal(t) == match UnsignedDecimal(t)
                                                       case Some(v) => Finite(v)
                                                       case None => NaN
  {
    assert t != "Infinity" by {
      assert "Infinity"[0] == 'I';
    }
  }

  lemma NegativeDecimalNumber(d: string)
    requires |d| >= 1 && AllDigits(d, 10)
    ensures StringToNumber("-" + d) == match UnsignedDecimal(d)
                                       case Some(v) => Finite(-v)
                                       case None => NaN
  {
    DecimalDigitChar(d[0]);
    DecimalDigitChar(d[|d| - 1]);
    MinusText(d);
  }

  lemma MinusText(d: string)
    requires |d| >= 1 && '0' <= d[0] <= '9' && !IsWhiteSpace(d[|d| - 1])
    ensures StringToNumber("-" + d) == match UnsignedDecimal(d)
                                       case Some(v) => Finite(-v)
                                       case None => NaN
  {
    MinusTrim(d);
    StartsWithMinusDigit(d);
  }

  /** A minus sign and text that ends in no white space need no trimming. */
  lemma MinusTrim(d: string)
    requires |d| >= 1 && !IsWhiteSpace(d[|d| - 1])
    ensures Trim("-" + d) == "-" + d
  {
    var s := "-" + d;
    assert s[0] == '-' && s[|s| - 1] == d[|d| - 1];
    NoSpaceAtEnds(s);
  }

  /** Text of a minus sign and then a decimal digit is a negative decimal. */
  lemma StartsWithMinusDigit(d: string)
    requires |d| >= 1 && '0' <= d[0] <= '9'
    ensures TrimmedToNumber("-" + d) == match UnsignedDecimal(d)
                                        case Some(v) => Finite(-v)
                                        case None => NaN
  {
    var t := "-" + d;
    assert t[0] == '-' && t[1..] == d;
    assert d != "Infinity" by {
      assert "Infinity"[0] == 'I';
    }
  }

  /** A decimal digit is no white space, no sign and no radix letter. */
  lemma DecimalDigitChar(c: char)
    requires DigitValue(c).Some? && DigitValue(c).value < 10
    ensures '0' <= c <= '9'
    ensures !IsWhiteSpace(c) && c != '-' && c != '+' && !(c in "xXoObB")
  {
  }

  lemma NoSpaceAtEnds(s: string)
    requires s != [] && !IsWhiteSpace(s[0]) && !IsWhiteSpace(s[|s| - 1])
    ensures Trim(s) == s
  {
  }

  lemma UnsignedDecimalOfDigits(m: nat)
    ensures UnsignedDecimal(DigitString(DigitsOf(m, 10))) == Some(m as real)
  {
    var ds := DigitsOf(m, 10);
    var d := DigitString(ds);
    DigitPrefixAll(d, 10);
    assert d[|ds|..] == [];
    ValueOfDigitsOf(m, 10);
  }
}
