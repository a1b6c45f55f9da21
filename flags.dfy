/** The flag view of the status byte f (ui.js onRunCode): Sign, Zero, Parity and Carry. */
module Flags {
  import opened Digits
  import opened JsSemantics
  import Format

  /** The four flags the display shows, each 0 or 1. */
  datatype FlagBits = FlagBits(sign: int, zero: int, parity: int, carry: int)

  predicate IsBit(b: int)
  {
    b == 0 || b == 1
  }

  /** JavaScript `(x >> k) & 0x01`: sign-propagating shift of the 32-bit value, then its lowest bit. */
  function ShiftedBit(x: int, k: nat): (b: int)
    requires k < 32
  {
    JsAnd(ToInt32(x) / Pow(2, k), 0x01)
  }

  /** The flags as the display reads them from f. */
  function FlagsOf(f: int): FlagBits
  {
    FlagBits(ShiftedBit(f, 7), ShiftedBit(f, 6), ShiftedBit(f, 2), JsAnd(f, 0x01))
  }

  /** The text shown for one flag: formatNum(bit, 2). */
  function FlagText(b: int): string
  {
    Format.FormatNum(b, 2)
  }

  /** `y & 0x01` is the lowest bit of y, also for negative y (two's complement). */
  lemma JsAndOne(y: int)
    ensures JsAnd(y, 0x01) == y % 2
  {
    var u := y % 0x1_0000_0000;
    assert Pow(2, 1) == 2;
    BitAndLowMask(u, 1);
    ModUnique(y, 0x1_0000_0000, y / 0x1_0000_0000, u);
    var q := y / 0x1_0000_0000;
    ModUnique(y, 2, q * 0x8000_0000 + u / 2, u % 2);
  }

  /** `(x >> k) & 1` is bit k of x: JavaScript's 32-bit wrap-around does not reach bits below 32. */
  lemma ShiftedBitIsBit(x: int, k: nat)
    requires k < 32
    ensures ShiftedBit(x, k) == (x / Pow(2, k)) % 2
  {
    var m := WrapIsEvenMultiple(x, k);
    EvenShift(x, Pow(2, k), m);
    JsAndOne(ToInt32(x) / Pow(2, k));
  }

  /** ToInt32 moves x by a multiple of 2^32, hence by an even multiple of 2^k for k < 32. */
  lemma WrapIsEvenMultiple(x: int, k: nat) returns (m: int)
    requires k < 32
    ensures ToInt32(x) == x + Pow(2, k) * (2 * m)
  {
    var y := ToInt32(x);
    var t := ToInt32Offset(x);
    var p, h := Pow(2, k), Pow(2, 31 - k);
    PowSplitAt(k);
    m := h * t;
    MulAssoc(p, 2 * h, t);
    MulAssoc(2, h, t);
  }

  lemma PowSplitAt(k: nat)
    requires k < 32
    ensures Pow(2, k) * (2 * Pow(2, 31 - k)) == 0x1_0000_0000
  {
    PowAdd(2, k, 32 - k);
    Pow2To32();
    assert Pow(2, 32 - k) == 2 * Pow(2, 31 - k);
  }

  lemma MulAssoc(a: int, b: int, c: int)
    ensures (a * b) * c == a * (b * c)
  {
  }

  /** Adding an even multiple of p leaves bit "p" of x alone. */
  lemma EvenShift(x: int, p: int, m: int)
    requires p > 0
    ensures ((x + p * (2 * m)) / p) % 2 == (x / p) % 2
  {
    var q, r := x / p, x % p;
    ModUnique(x + p * (2 * m), p, q + 2 * m, r);
    ModUnique(q, 2, q / 2, q % 2);
    ModUnique(q + 2 * m, 2, q / 2 + m, q % 2);
  }

  lemma {:induction false} PowAdd(b: nat, x: nat, y: nat)
    ensures Pow(b, x + y) == Pow(b, x) * Pow(b, y)
    decreases x
  {
    if x > 0 {
      PowAdd(b, x - 1, y);
      assert Pow(b, x + y) == b * Pow(b, (x - 1) + y);
      MulAssoc(b, Pow(b, x - 1), Pow(b, y));
    }
  }

  lemma Pow2To32()
    ensures Pow(2, 32) == 0x1_0000_0000
  {
    assert Pow(2, 4) == 16;
    PowAdd(2, 4, 4);
    PowAdd(2, 8, 8);
    PowAdd(2, 16, 16);
  }

  /** The displayed flags are bits 7, 6, 2 and 0 of f, each 0 or 1. */
  lemma FlagsOfBits(f: int)
    ensures FlagsOf(f) == FlagBits((f / 128) % 2, (f / 64) % 2, (f / 4) % 2, f % 2)
    ensures IsBit(FlagsOf(f).sign) && IsBit(FlagsOf(f).zero) && IsBit(FlagsOf(f).parity) && IsBit(FlagsOf(f).carry)
  {
    ShiftedBitIsBit(f, 7);
    ShiftedBitIsBit(f, 6);
    ShiftedBitIsBit(f, 2);
    assert Pow(2, 7) == 128 && Pow(2, 6) == 64 && Pow(2, 2) == 4;
    JsAndOne(f);
  }

  /** x has bit `bit` at position p (p a power of two) when it is p * (2 * hi + bit) plus less than p. */
  lemma BitAt(x: int, p: int, hi: int, bit: int, lo: int)
    requires p > 0 && IsBit(bit) && 0 <= lo < p && x == p * (2 * hi + bit) + lo
    ensures (x / p) % 2 == bit
  {
    ModUnique(x, p, 2 * hi + bit, lo);
    ModUnique(2 * hi + bit, 2, hi, bit);
  }

  /** The flag byte holding the four flags and zero in the other bits. */
  function FlagByte(v: FlagBits): int
  {
    128 * v.sign + 64 * v.zero + 4 * v.parity + v.carry
  }

  /**
   * Only bits 7, 6, 2 and 0 matter: whatever bits 5, 4, 3 and 1 and the bits
   * from 8 up hold, the display shows the four flags placed in f.
   */
  lemma FlagsIgnoreOtherBits(v: FlagBits, b5: int, b4: int, b3: int, b1: int, high: int)
    requires IsBit(v.sign) && IsBit(v.zero) && IsBit(v.parity) && IsBit(v.carry)
    requires IsBit(b5) && IsBit(b4) && IsBit(b3) && IsBit(b1)
    ensures FlagsOf(FlagByte(v) + 32 * b5 + 16 * b4 + 8 * b3 + 2 * b1 + 256 * high) == v
  {
    var f := FlagByte(v) + 32 * b5 + 16 * b4 + 8 * b3 + 2 * b1 + 256 * high;
    assert (f / 128) % 2 == v.sign && (f / 64) % 2 == v.zero && (f / 4) % 2 == v.parity && f % 2 == v.carry by {
      var s, z, p, c := v.sign, v.zero, v.parity, v.carry;
      assert f == 128 * s + 64 * z + 4 * p + c + 32 * b5 + 16 * b4 + 8 * b3 + 2 * b1 + 256 * high;
      SignZeroBits(s, z, p, c, b5, b4, b3, b1, high);
      ParityCarryBits(s, z, p, c, b5, b4, b3, b1, high);
    }
    FlagsFromBits(f, v);
  }

  lemma FlagsFromBits(f: int, v: FlagBits)
    requires (f / 128) % 2 == v.sign && (f / 64) % 2 == v.zero && (f / 4) % 2 == v.parity && f % 2 == v.carry
    ensures FlagsOf(f) == v
  {
    FlagsOfBits(f);
  }

  lemma SignZeroBits(s: int, z: int, p: int, c: int, b5: int, b4: int, b3: int, b1: int, high: int)
    requires IsBit(s) && IsBit(z) && IsBit(p) && IsBit(c)
    requires IsBit(b5) && IsBit(b4) && IsBit(b3) && IsBit(b1)
    ensures var f := 128 * s + 64 * z + 4 * p + c + 32 * b5 + 16 * b4 + 8 * b3 + 2 * b1 + 256 * high;
            (f / 128) % 2 == s && (f / 64) % 2 == z
  {
    var f := 128 * s + 64 * z + 4 * p + c + 32 * b5 + 16 * b4 + 8 * b3 + 2 * b1 + 256 * high;
    BitAt(f, 128, high, s, 64 * z + 32 * b5 + 16 * b4 + 8 * b3 + 4 * p + 2 * b1 + c);
    BitAt(f, 64, 2 * high + s, z, 32 * b5 + 16 * b4 + 8 * b3 + 4 * p + 2 * b1 + c);
  }

  lemma ParityCarryBits(s: int, z: int, p: int, c: int, b5: int, b4: int, b3: int, b1: int, high: int)
    requires IsBit(s) && IsBit(z) && IsBit(p) && IsBit(c)
    requires IsBit(b5) && IsBit(b4) && IsBit(b3) && IsBit(b1)
    ensures var f := 128 * s + 64 * z + 4 * p + c + 32 * b5 + 16 * b4 + 8 * b3 + 2 * b1 + 256 * high;
            (f / 4) % 2 == p && f % 2 == c
  {
    var f := 128 * s + 64 * z + 4 * p + c + 32 * b5 + 16 * b4 + 8 * b3 + 2 * b1 + 256 * high;
    BitAt(f, 4, 32 * high + 16 * s + 8 * z + 4 * b5 + 2 * b4 + b3, p, 2 * b1 + c);
    ModUnique(f, 2, 128 * high + 64 * s + 32 * z + 16 * b5 + 8 * b4 + 4 * b3 + 2 * p + b1, c);
  }

  /** Reading the flags back from FlagByte gives them unchanged. */
  lemma FlagsOfFlagByte(v: FlagBits)
    requires IsBit(v.sign) && IsBit(v.zero) && IsBit(v.parity) && IsBit(v.carry)
    ensures FlagsOf(FlagByte(v)) == v
  {
    FlagsIgnoreOtherBits(v, 0, 0, 0, 0, 0);
  }

  /** Each flag is shown as "00" or "01". */
  lemma FlagTextValues(f: int)
    ensures FlagText(FlagsOf(f).sign) in {"00", "01"} && FlagText(FlagsOf(f).zero) in {"00", "01"}
    ensures FlagText(FlagsOf(f).parity) in {"00", "01"} && FlagText(FlagsOf(f).carry) in {"00", "01"}
  {
    FlagsOfBits(f);
    assert FlagText(0) == "00" && FlagText(1) == "01";
  }
}
