/**
 * The RAM table of the display (ui.js populateRamTable): a window of 16 rows
 * of 16 bytes, whose start address comes from the hexadecimal "RAM start" box.
 */
module RamView {
  import opened Wrappers
  import opened Digits
  import opened JsSemantics
  import opened Format

  const MemorySize: int := 65536
  const Columns: int := 16
  const Rows: int := 16
  const CellCount: int := 256
  /** The last start address at which a whole window fits in memory. */
  const LastStart: int := 0xff00

  /** `parseInt(ramstart.value, 16) & 0xfff0`; NaN converts to 0 before the AND. */
  function MaskedStart(parsed: Option<int>): int
  {
    match parsed
    case None => 0
    case Some(x) => JsAnd(x, 0xfff0)
  }

  /**
   * The 32-bit AND with 0xfff0 keeps bits 4 to 15 of the two's complement
   * pattern: the low 16 bits of x rounded down to a multiple of 16.
   */
  lemma MaskedStartValue(x: int)
    ensures MaskedStart(Some(x)) == (x % 0x10000) / 16 * 16
    ensures 0 <= MaskedStart(Some(x)) <= 0xfff0 && MaskedStart(Some(x)) % 16 == 0
  {
    var u := x % 0x1_0000_0000;
    var r := 16 * ((u / 16) % 4096);
    assert BitAnd(u, 0xfff0) == r by {
      AndFff0(u);
    }
    assert r == (x % 0x10000) / 16 * 16 by {
      LowSixteen(x, u);
    }
    assert 0xfff0 % 0x1_0000_0000 == 0xfff0;
    var q := (u / 16) % 4096;
    assert 0 <= q < 4096 && r == 16 * q;
    ModUnique(r, 16, q, 0);
    ModUnique(r, 0x1_0000_0000, 0, r);
    assert ToInt32(r) == r;
  }

  lemma AndFff0(u: nat)
    ensures BitAnd(u, 0xfff0) == 16 * ((u / 16) % 4096)
  {
    BitAndEvenMask(u, 0x7ff8);
    BitAndEvenMask(u / 2, 0x3ffc);
    BitAndEvenMask(u / 2 / 2, 0x1ffe);
    BitAndEvenMask(u / 2 / 2 / 2, 0xfff);
    assert u / 2 / 2 / 2 / 2 == u / 16;
    assert Pow(2, 12) == 4096;
    BitAndLowMask(u / 16, 12);
  }

  lemma LowSixteen(x: int, u: int)
    requires u == x % 0x1_0000_0000
    ensures 16 * ((u / 16) % 4096) == (x % 0x10000) / 16 * 16
  {
    var t := x / 0x1_0000_0000;
    assert x == 0x1_0000_0000 * t + u;
    ModUnique(x, 0x10000, 0x10000 * t + u / 0x10000, u % 0x10000);
    var w := u % 0x10000;
    var q := u / 0x10000;
    assert u == 0x10000 * q + w;
    ModUnique(u, 16, 4096 * q + w / 16, w % 16);
    ModUnique(u / 16, 4096, q, w / 16);
  }

  lemma MaskedStartBounds(parsed: Option<int>)
    ensures 0 <= MaskedStart(parsed) <= 0xfff0 && MaskedStart(parsed) % 16 == 0
  {
    if parsed.Some? {
      MaskedStartValue(parsed.value);
    }
  }

  /**
   * The start address of the window: the masked value, or LastStart when that
   * is beyond it. Always a multiple of 16, and the 256 bytes from it lie inside
   * the 64 KiB memory.
   */
  function WindowStart(parsed: Option<int>): (start: int)
    ensures start % 16 == 0 && 0 <= start <= LastStart && start + CellCount <= MemorySize
    ensures MaskedStart(parsed) <= LastStart ==> start == MaskedStart(parsed)
    ensures MaskedStart(parsed) > LastStart ==> start == LastStart
  {
    MaskedStartBounds(parsed);
    var masked := MaskedStart(parsed);
    if masked > LastStart then LastStart else masked
  }

  /** Whatever address the box asks for, the window shows that address. */
  lemma RequestedAddressShown(a: int)
    requires 0 <= a < MemorySize
    ensures WindowStart(Some(a)) <= a < WindowStart(Some(a)) + CellCount
  {
    MaskedStartValue(a);
    ModUnique(a, 0x10000, 0, a);
    ModUnique(a, 16, a / 16, a % 16);
  }

  /** A window start address read back as the requested address selects itself. */
  lemma WindowStartIdempotent(parsed: Option<int>)
    ensures WindowStart(Some(WindowStart(parsed))) == WindowStart(parsed)
  {
    var s := WindowStart(parsed);
    assert MaskedStart(Some(s)) == s by {
      MaskedStartValue(s);
      AlignedIsFixed(s);
    }
  }

  /** An aligned address below 0x10000 is its own masked value. */
  lemma AlignedIsFixed(s: int)
    requires 0 <= s < 0x10000 && s % 16 == 0
    ensures (s % 0x10000) / 16 * 16 == s
  {
    ModUnique(s, 0x10000, 0, s);
    var q := s / 16;
    assert s == 16 * q + s % 16;
  }

  /** The text written back into the box after clamping, "FF00", reads back as LastStart. */
  lemma ClampedTextRereads()
    ensures WindowStart(ParseInt(FormatNum(LastStart, 4), 16)) == LastStart
  {
    FormatNumParses(LastStart, 4);
    WindowStartIdempotent(Some(LastStart));
    assert MaskedStart(Some(LastStart)) == LastStart by {
      MaskedStartValue(LastStart);
    }
  }

  lemma FormatNumParses(n: nat, padding: int)
    ensures ParseInt(FormatNum(n, padding), 16) == Some(n)
  {
    FormatNumMeaning(n, padding);
  }

  /** The clamped start address is written back into the box as "FF00". */
  lemma ClampedText()
    ensures FormatNum(LastStart, 4) == "FF00"
  {
    assert DigitsOf(15, 16) == [15];
    assert DigitsOf(0xff, 16) == [15, 15];
    assert DigitsOf(0xff0, 16) == [15, 15, 0];
    assert DigitsOf(0xff00, 16) == [15, 15, 0, 0];
    var d := DigitString([15, 15, 0, 0]);
    assert d == "ff00";
    assert ToUpperCase(d) == "FF00";
  }

  /** The reset text "0000" selects the window at address 0. */
  lemma ZeroTextSelectsZero()
    ensures ParseInt("0000", 16) == Some(0)
    ensures MaskedStart(ParseInt("0000", 16)) == 0 && WindowStart(ParseInt("0000", 16)) == 0
  {
    var z := "0000";
    assert AllDigits(z, 16);
    assert Values(z) == [0, 0, 0, 0];
    assert ValueOf([0, 0, 0, 0], 16) == 0 by {
      assert Zeros(4) == [0, 0, 0, 0];
      ZerosValue(4, 16);
    }
    ParseIntAllDigits(z, 16);
    MaskedStartValue(0);
  }

  /** A box holding the reset text selects the window at address 0, and is not rewritten by the clamp. */
  lemma ResetSelectsZero(t: string)
    requires t == "0000"
    ensures MaskedStart(ParseInt(t, 16)) == 0 && WindowStart(ParseInt(t, 16)) == 0
  {
    ZeroTextSelectsZero();
  }

  /** Row header k (1 to 16) of a window starting at start: the first three hex digits of its address. */
  function RowHeader(start: int, k: int): string
  {
    SliceTo(FormatNum(start + 16 * (k - 1), 4), 3)
  }

  /** Row header k is the row's address divided by 16, as three hex digits. */
  lemma RowHeaderMeaning(start: int, k: int)
    requires 0 <= start <= LastStart && start % 16 == 0 && 1 <= k <= Rows
    ensures RowHeader(start, k) == FormatNum(start / 16 + k - 1, 3)
  {
    var a := start + 16 * (k - 1);
    RowHeaderDigits(a);
    ModUnique(a, 16, start / 16 + k - 1, 0);
  }

  /** The window at address 0 is headed 000, 001, ..., 00F. */
  lemma HeadersFromZero()
    ensures forall k :: 1 <= k <= Rows ==> RowHeader(0, k) == FormatNum(k - 1, 3)
  {
    forall k | 1 <= k <= Rows ensures RowHeader(0, k) == FormatNum(k - 1, 3) {
      RowHeaderMeaning(0, k);
    }
  }

  /** The text of one cell: '.' and the character in ASCII mode, otherwise two hex digits. */
  function CellText(v: int, useAscii: bool): string
  {
    if useAscii then "." + FormatAscii(v) else FormatNum(v, 2)
  }

  /** A byte is shown as exactly two upper-case hex digits, or as '.' and one character. */
  lemma CellTextShape(v: int, useAscii: bool)
    requires 0 <= v < 256
    ensures |CellText(v, useAscii)| == 2
    ensures !useAscii ==> forall i :: 0 <= i < 2 ==> IsUpperHexDigit(CellText(v, useAscii)[i])
    ensures !useAscii ==> ParseInt(CellText(v, useAscii), 16) == Some(v)
    ensures useAscii ==> CellText(v, useAscii)[0] == '.' && CellText(v, useAscii)[1..] == FormatAscii(v)
  {
    FormatNumMeaning(v, 2);
    DigitsOfLength(v, 16, 2);
    assert Pow(16, 2) == 256;
  }

  /** The RAM table's changing parts: the start box, the row headers and the 256 cells. */
  class RamTable {
    /** The text of the "RAM start" box. */
    var ramStart: string
    /** The first cell of each table row; row 0 is the row of column headers. */
    const rowHeaders: array<string>
    /** The text of each memory cell, row by row. */
    const cells: array<string>
    /** Whether a cell is drawn highlighted and bold (it holds the byte at the PC). */
    const highlighted: array<bool>

    ghost predicate Valid()
      reads this
    {
      rowHeaders.Length == Rows + 1 && cells.Length == CellCount && highlighted.Length == CellCount &&
      rowHeaders != cells
    }

    /** Rows 1 to 16 are headed by the addresses of a window starting at start. */
    ghost predicate HeadersShow(start: int)
      requires Valid()
      reads this, rowHeaders
    {
      forall k :: 1 <= k <= Rows ==> rowHeaders[k] == RowHeader(start, k)
    }

    /** Cell i shows the byte at start + i, and only the cell holding the PC is highlighted. */
    ghost predicate CellsShow(mem: seq<int>, pc: int, useAscii: bool, start: int)
      requires Valid() && 0 <= start && start + CellCount <= |mem|
      reads this, cells, highlighted
    {
      CellsShowBelow(mem, pc, useAscii, start, CellCount)
    }

    /** The first n cells show the bytes from start on, as in CellsShow. */
    ghost predicate CellsShowBelow(mem: seq<int>, pc: int, useAscii: bool, start: int, n: int)
      requires Valid() && 0 <= start && start + CellCount <= |mem| && 0 <= n <= CellCount
      reads this, cells, highlighted
    {
      forall i :: 0 <= i < n ==> cells[i] == CellText(mem[start + i], useAscii) && highlighted[i] == (start + i == pc)
    }

    /** The table as first built: row k shows formatNum(k - 1, 3), every cell "00"; the box holds its page text. */
    constructor (initialStart: string)
      ensures Valid() && ramStart == initialStart
      ensures fresh(rowHeaders) && fresh(cells) && fresh(highlighted)
      ensures rowHeaders[0] == "" && forall k :: 1 <= k <= Rows ==> rowHeaders[k] == FormatNum(k - 1, 3)
      ensures forall i :: 0 <= i < CellCount ==> cells[i] == "00" && !highlighted[i]
    {
      ramStart := initialStart;
      rowHeaders := new string[Rows + 1](k => if k == 0 then "" else FormatNum(k - 1, 3));
      cells := new string[CellCount](i => "00");
      highlighted := new bool[CellCount](i => false);
    }

    /**
     * populateRamTable: align and clamp the start address (writing the clamped
     * value back into the box), label the 16 rows, and fill the 256 cells from
     * memory, highlighting the cell at the PC.
     */
    method Populate(mem: seq<int>, pc: int, useAscii: bool)
      requires Valid() && |mem| == MemorySize
      modifies this`ramStart, rowHeaders, cells, highlighted
      ensures Valid()
      ensures var parsed := ParseInt(old(ramStart), 16);
              ramStart == if MaskedStart(parsed) > LastStart then FormatNum(LastStart, 4) else old(ramStart)
      ensures rowHeaders[0] == old(rowHeaders[0])
      ensures HeadersShow(WindowStart(ParseInt(old(ramStart), 16)))
      ensures CellsShow(mem, pc, useAscii, WindowStart(ParseInt(old(ramStart), 16)))
    {
      var startAddr := MaskedStart(ParseInt(ramStart, 16));
      if startAddr > LastStart {
        startAddr := LastStart;
        ramStart := FormatNum(startAddr, 4);
      }
      assert startAddr == WindowStart(ParseInt(old(ramStart), 16));
      FillHeaders(startAddr);
      FillCells(mem, startAddr, pc, useAscii);
    }

    /** The header loop: row k gets the first three hex digits of its address. */
    method FillHeaders(startAddr: int)
      requires Valid()
      modifies rowHeaders
      ensures rowHeaders[0] == old(rowHeaders[0])
      ensures HeadersShow(startAddr)
    {
      var headerStart := startAddr;
      var i := 1;
      while i < rowHeaders.Length
        invariant 1 <= i <= rowHeaders.Length
        invariant headerStart == startAddr + 16 * (i - 1)
        invariant rowHeaders[0] == old(rowHeaders[0])
        invariant forall k :: 1 <= k < i ==> rowHeaders[k] == RowHeader(startAddr, k)
      {
        rowHeaders[i] := SliceTo(FormatNum(headerStart, 4), 3);
        headerStart := headerStart + 16;
        i := i + 1;
      }
    }

    /** The cell loop: cell i shows the byte at startAddr + i and is highlighted when that is the PC. */
    method FillCells(mem: seq<int>, startAddr: int, pc: int, useAscii: bool)
      requires Valid() && 0 <= startAddr && startAddr + CellCount <= |mem|
      modifies cells, highlighted
      ensures CellsShow(mem, pc, useAscii, startAddr)
    {
      for j := 0 to CellCount
        invariant CellsShowBelow(mem, pc, useAscii, startAddr, j)
      {
        ShowCell(mem, startAddr, pc, useAscii, j);
      }
    }

    /** One pass of the cell loop: cell j shows the byte at startAddr + j, and the cells before it keep theirs. */
    method ShowCell(mem: seq<int>, startAddr: int, pc: int, useAscii: bool, j: int)
      requires Valid() && 0 <= startAddr && startAddr + CellCount <= |mem| && 0 <= j < CellCount
      requires CellsShowBelow(mem, pc, useAscii, startAddr, j)
      modifies cells, highlighted
      ensures CellsShowBelow(mem, pc, useAscii, startAddr, j + 1)
    {
      var memIndex := startAddr + j;
      var value := mem[memIndex];
      highlighted[j] := memIndex == pc;
      cells[j] := CellText(value, useAscii);
      forall i | 0 <= i < j
        ensures cells[i] == CellText(mem[startAddr + i], useAscii) && highlighted[i] == (startAddr + i == pc)
      {
        assert cells[i] == old(cells[i]) && highlighted[i] == old(highlighted[i]);
      }
    }

    /** After a run the box is reset to "0000" and the window shows memory from address 0. */
    method ShowFromZero(mem: seq<int>, pc: int, useAscii: bool)
      requires Valid() && |mem| == MemorySize
      modifies this`ramStart, rowHeaders, cells, highlighted
      ensures Valid() && ramStart == "0000"
      ensures rowHeaders[0] == old(rowHeaders[0])
      ensures forall k :: 1 <= k <= Rows ==> rowHeaders[k] == FormatNum(k - 1, 3)
      ensures CellsShow(mem, pc, useAscii, 0)
    {
      ramStart := "0000";
      ResetSelectsZero(ramStart);
      Populate(mem, pc, useAscii);
      HeadersFromZero();
    }
  }
}
