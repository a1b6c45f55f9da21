/** The two text formatters of the display: hexadecimal numbers and ASCII cells (ui.js formatNum, formatAscii). */
module Format {
  import opened Wrappers
  import opened Digits
  import opened JsSemantics

  /** formatNum(n, padding): n.toString(16).toUpperCase().padStart(padding, 0); padding 0 means none. */
  function FormatNum(n: int, padding: int): string
  {
    PadStart(ToUpperCase(NumberToString(n, 16)), padding)
  }

  predicate IsUpperHexDigit(c: char)
  {
    '0' <= c <= '9' || 'A' <= c <= 'F'
  }

  /** The number of hexadecimal digits n.toString(16) writes for n >= 0. */
  function HexDigitCount(n: nat): (k: nat)
    ensures k >= 1
  {
    |DigitsOf(n, 16)|
  }

  /** The upper-case hexadecimal digits of n, without padding. */
  function UpperHex(n: nat): (s: string)
    ensures |s| == HexDigitCount(n)
  {
    ToUpperCase(DigitString(DigitsOf(n, 16)))
  }

  lemma UpperHexDigits(n: nat)
    ensures forall i :: 0 <= i < |UpperHex(n)| ==> IsUpperHexDigit(UpperHex(n)[i])
    ensures AllDigits(UpperHex(n), 16) && ValueOf(Values(UpperHex(n)), 16) == n
  {
    var ds := DigitsOf(n, 16);
    var s := UpperHex(n);
    forall i | 0 <= i < |s| ensures IsUpperHexDigit(s[i]) && DigitValue(s[i]) == Some(ds[i]) {
      assert s[i] == UpperChar(DigitChar(ds[i]));
      UpperDigit(ds[i]);
    }
    assert Values(s) == ds;
    ValueOfDigitsOf(n, 16);
  }

  lemma UpperDigit(d: nat)
    requires d < 16
    ensures IsUpperHexDigit(UpperChar(DigitChar(d))) && DigitValue(UpperChar(DigitChar(d))) == Some(d)
  {
  }

  /**
   * For n >= 0, formatNum(n, padding) is n's upper-case hexadecimal digits
   * behind as many '0's as bring it to padding characters: its length is the
   * larger of padding and the digit count, every character is 0-9 or A-F, and
   * read in base 16 (by the digits' values or by parseInt(_, 16)) it is n.
   */
  lemma {:induction false} FormatNumMeaning(n: nat, padding: int)
    ensures var r := FormatNum(n, padding);
            var d := HexDigitCount(n);
            && |r| == (if padding <= d then d else padding)
            && r == Repeat('0', |r| - d) + UpperHex(n)
            && (forall i :: 0 <= i < |r| ==> IsUpperHexDigit(r[i]))
            && AllDigits(r, 16) && ValueOf(Values(r), 16) == n
            && ParseInt(r, 16) == Some(n)
  {
    var r := FormatNum(n, padding);
    FormatNumShape(n, padding);
    PaddedHexDigits(|r| - HexDigitCount(n), n);
    ParseIntDigits(r, 16);
  }

  /** formatNum(n, padding) for n >= 0 is UpperHex(n) behind enough '0's to reach padding. */
  lemma FormatNumShape(n: nat, padding: int)
    ensures var r := FormatNum(n, padding);
            var d := HexDigitCount(n);
            |r| == (if padding <= d then d else padding) && r == Repeat('0', |r| - d) + UpperHex(n)
  {
    var u := UpperHex(n);
    assert ToUpperCase(NumberToString(n, 16)) == u;
    if padding <= |u| {
      assert Repeat('0', 0) + u == u;
    }
  }

  /** Upper-case hex digits behind '0's are hex digits, and they are worth n. */
  lemma PaddedHexDigits(k: nat, n: nat)
    ensures var r := Repeat('0', k) + UpperHex(n);
            && (forall i :: 0 <= i < |r| ==> IsUpperHexDigit(r[i]))
            && AllDigits(r, 16) && ValueOf(Values(r), 16) == n
  {
    PaddedHexUpper(k, n);
    PaddedHexValue(k, n);
  }

  lemma PaddedHexUpper(k: nat, n: nat)
    ensures var r := Repeat('0', k) + UpperHex(n);
            forall i :: 0 <= i < |r| ==> IsUpperHexDigit(r[i])
  {
    var u := UpperHex(n);
    var r := Repeat('0', k) + u;
    UpperHexDigits(n);
    forall i | 0 <= i < |r| ensures IsUpperHexDigit(r[i]) {
      if i >= k {
        assert r[i] == u[i - k];
      }
    }
  }

  lemma PaddedHexValue(k: nat, n: nat)
    ensures var r := Repeat('0', k) + UpperHex(n);
            AllDigits(r, 16) && ValueOf(Values(r), 16) == n
  {
    var u := UpperHex(n);
    var z := Repeat('0', k);
    UpperHexDigits(n);
    ZeroPadding(k);
    AllDigitsConcat(z, u, 16);
    ValueOfLeadingZeros(k, Values(u), 16);
  }

  lemma ZeroPadding(k: nat)
    ensures AllDigits(Repeat('0', k), 16) && Values(Repeat('0', k)) == Zeros(k)
    ensures forall i :: 0 <= i < k ==> IsUpperHexDigit(Repeat('0', k)[i])
  {
  }

  lemma AllDigitsConcat(a: string, b: string, base: nat)
    requires base <= 36 && AllDigits(a, base) && AllDigits(b, base)
    ensures AllDigits(a + b, base) && Values(a + b) == Values(a) + Values(b)
  {
    forall i | 0 <= i < |a + b| ensures DigitValue((a + b)[i]).Some? && DigitValue((a + b)[i]).value < base {
      if i >= |a| { assert (a + b)[i] == b[i - |a|]; }
    }
  }

  /** Padding never shortens: formatNum(n, p) has at least p characters, whatever the sign of n. */
  lemma FormatNumAtLeastPadding(n: int, padding: int)
    ensures |FormatNum(n, padding)| >= padding
  {
  }

  /** A negative n keeps its minus sign, and the zero padding goes in front of it. */
  lemma FormatNumNegative(n: int, padding: int)
    requires n < 0
    ensures var r := FormatNum(n, padding);
            var k := |r| - (1 + |DigitsOf(-n, 16)|);
            k >= 0 && r[k] == '-' && forall i :: 0 <= i < k ==> r[i] == '0'
  {
  }

  /** The first three characters of formatNum(a, 4) are formatNum(a / 16, 3) for a 16-bit a. */
  lemma RowHeaderDigits(a: nat)
    requires a < 0x10000
    ensures SliceTo(FormatNum(a, 4), 3) == FormatNum(a / 16, 3)
  {
    if a < 16 {
      RowHeaderSmall(a);
    } else {
      RowHeaderLarge(a);
    }
  }

  lemma RowHeaderSmall(a: nat)
    requires a < 16
    ensures SliceTo(FormatNum(a, 4), 3) == FormatNum(a / 16, 3)
  {
    assert DigitsOf(a / 16, 16) == [0];
    assert FormatNum(a / 16, 3) == "000";
    assert FormatNum(a, 4)[..3] == "000";
  }

  lemma RowHeaderLarge(a: nat)
    requires 16 <= a < 0x10000
    ensures SliceTo(FormatNum(a, 4), 3) == FormatNum(a / 16, 3)
  {
    DigitsOfLength(a, 16, 4);
    assert Pow(16, 4) == 0x10000;
    var hi := DigitsOf(a / 16, 16);
    assert DigitsOf(a, 16) == hi + [a % 16];
    var u := ToUpperCase(DigitString(hi));
    var c := UpperChar(DigitChar(a % 16));
    UpperSnoc(hi, a % 16);
    assert UpperHex(a) == u + [c];
    assert |hi| <= 3;
    var r := FormatNum(a, 4);
    assert r == Repeat('0', 3 - |u|) + u + [c];
    assert r[..3] == Repeat('0', 3 - |u|) + u;
  }

  lemma UpperSnoc(ds: seq<nat>, d: nat)
    requires d < 16 && forall i :: 0 <= i < |ds| ==> ds[i] < 16
    ensures ToUpperCase(DigitString(ds + [d])) == ToUpperCase(DigitString(ds)) + [UpperChar(DigitChar(d))]
  {
  }

  /** A code the display treats as printable: 33 ('!') through 126 ('~'). */
  predicate IsPrintable(n: int)
  {
    33 <= n <= 126
  }

  /** formatAscii(n): the one character with code n if printable, otherwise '.'. */
  function FormatAscii(n: int): (f: string)
    ensures |f| == 1
    ensures IsPrintable(n) ==> f[0] as int == n
    ensures !IsPrintable(n) ==> f == "."
  {
    if IsPrintable(n) then [n as char] else "."
  }

  /**
   * Two codes render alike exactly when they are equal or both render as '.',
   * which happens for '.' itself (46) and every code outside 33..126
   * (so space, 32, and DEL, 127, among them).
   */
  lemma FormatAsciiSame(n: int, m: int)
    ensures FormatAscii(n) == FormatAscii(m) <==>
            n == m || ((n == 46 || !IsPrintable(n)) && (m == 46 || !IsPrintable(m)))
  {
    if IsPrintable(n) && IsPrintable(m) && FormatAscii(n) == FormatAscii(m) {
      assert (n as char) as int == n && (m as char) as int == m;
      assert FormatAscii(n)[0] == FormatAscii(m)[0];
    }
  }
}
