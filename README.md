# js-8080-sim display helpers in Dafny

js-8080-sim is a browser-based Intel 8080 assembler and simulator. Its page
script, `ui.js`, drives the editor, runs the assembled program step by step
and displays the CPU state. This project models the parts of `ui.js` that
compute what the display shows:

- **Hex formatting.** `formatNum` pads the upper-case hexadecimal text of a number with `'0'`s.
- **ASCII cells.** `formatAscii` renders a byte as its character or `'.'`.
- **Flags.** Sign, Zero, Parity and Carry are decoded from the status byte `f`.
- **RAM table.** `populateRamTable` computes the window's start address (mask, clamp, write-back), the row headers and the 256 cells.
- **Highlighting.** `highlightCurrentLine` picks the source line of the current PC.
- **Breakpoints.** Editor rows are mapped to PCs, and the run loop's `indexOf` test decides when to stop.
- **Step counter.** `checkSteps`, `onNextStep` and `onPrevStep` check and update the "max steps" box.

The JavaScript library behaviour these helpers rely on is modelled by its
meaning, in module `JsSemantics`. That covers `parseInt` (ECMAScript section
19.2.5), `Number.prototype.toString(radix)` on integers, `toUpperCase`,
`padStart` and `slice` on ASCII text, `ToInt32` (section 7.1.6), the 32-bit
`&`, and the string-to-number conversion (section 7.1.4.1.1) that the
relational test `maxsteps.value > 0` performs.

Modules:

- `Wrappers`: `Option` and `Outcome`.
- `Digits`: base-b digit sequences and their values.
- `JsSemantics`: the library behaviour described above.
- `Format`: `formatNum` and `formatAscii`.
- `Flags`: the flag decode.
- `RamView`: the window arithmetic, and class `RamTable` with the box text, row headers, cell texts and cell highlighting as state.
- `SourceLines`: the highlight search, class `Session` with its step markers, and the breakpoint mapping.
- `StepCounter`: the step rules, and class `StepBox` holding the box text.

Memory is a `seq<int>` of 65536 entries (ui.js:281). The DOM elements
that the source updates in place are fields and arrays of the
classes above. The page's other inputs are parameters of the methods:

- memory;
- the current PC;
- the ASCII/hex mode;
- the source map of the assembled program;
- the editor's breakpoint rows.

## Model

| member | source | states |
|---|---|---|
| Format.FormatNumMeaning | ui.js:532-536 | For n >= 0, formatNum(n, p) has length max(p, number of hex digits of n). It is the upper-case hex digits of n behind '0's, so p <= 0 means no padding. Every character is 0-9 or A-F, and parseInt(_, 16) reads it back as n. |
| Format.PaddedHexDigits | ui.js:534-536 | Upper-case hex digits behind any number of '0's are all hex digits and are worth n in base 16. |
| Format.FormatNumAtLeastPadding | ui.js:535 | The result is never shorter than the padding, for any integer n. |
| Format.FormatNumNegative | ui.js:535 | For n < 0 the minus sign stays, and the zero padding goes in front of it. |
| Format.RowHeaderDigits | ui.js:500 | For a 16-bit address a, the first three characters of formatNum(a, 4) are formatNum(a / 16, 3). |
| Format.FormatAscii | ui.js:540-548 | The result is always exactly one character. For a code 33..126 it is the character with that code; for every other code it is ".". |
| Format.FormatAsciiSame | ui.js:540-548 | Two codes render alike exactly when they are equal or both render as '.'. That happens for 46 and for every code outside 33..126, so 32 and 127 are among them. |
| Flags.FlagsOfBits | ui.js:349-352 | For any integer f, including negative ones (ToInt32 and the arithmetic shift are modelled), Sign, Zero, Parity and Carry are bits 7, 6, 2 and 0 of f. Each is 0 or 1. |
| Flags.FlagsIgnoreOtherBits | ui.js:349-352 | Bits 5, 4, 3 and 1 and every bit from 8 up have no effect on the decoded flags. |
| Flags.FlagsOfFlagByte | ui.js:349-352 | Decoding the byte built from four flag bits gives those bits back. |
| Flags.FlagTextValues | ui.js:349-352 | Each flag is shown as "00" or "01". |
| RamView.MaskedStartValue | ui.js:490 | For any integer x, `x & 0xfff0` (a 32-bit AND) is the low 16 bits of x rounded down to a multiple of 16, within 0..0xfff0. |
| RamView.MaskedStartBounds | ui.js:490 | The masked start is in 0..0xfff0 and a multiple of 16, NaN included (it masks to 0). |
| RamView.WindowStart | ui.js:490-494 | The start address is a multiple of 16 and at most 0xff00, so start + 256 <= 65536. It is the masked value when that is at most 0xff00, and 0xff00 otherwise. |
| RamView.RequestedAddressShown | ui.js:490-494 | Any address 0..65535 typed into the box lies in the window that is shown. |
| RamView.WindowStartIdempotent | ui.js:490-494 | A window start fed back as the requested address selects the same window. |
| RamView.ClampedText | ui.js:491-493 | The clamped value is written back into the box as "FF00". |
| RamView.ClampedTextRereads | ui.js:490-494 | The written-back "FF00" reads as 0xff00 again, so the clamped window is stable. |
| RamView.ZeroTextSelectsZero | ui.js:359-360 | The reset text "0000" parses as 0 and selects the window at address 0. |
| RamView.RowHeaderMeaning | ui.js:495-502 | Row header k (1..16) is formatNum(start / 16 + k - 1, 3): the first three hex digits of the address start + 16 * (k - 1). |
| RamView.CellTextShape | ui.js:517-519 | A byte is shown in exactly two characters. In hex mode both are upper-case hex digits and parseInt(_, 16) reads them back as the byte. In ASCII mode the first is '.' and the second is formatAscii of the byte. |
| RamView.RamTable.constructor | ui.js:206-230 | The table as built: row k is headed formatNum(k - 1, 3), the header row's first cell is empty, and every cell reads "00". |
| RamView.RamTable.Populate | ui.js:488-521 | The box text is replaced by "FF00" exactly when the masked value exceeds 0xff00. Rows 1..16 are headed by the window's row addresses. Cell i shows the byte at start + i, and only the cell at the PC is highlighted. |
| RamView.RamTable.FillHeaders | ui.js:495-502 | The header loop sets row k (1..16) to the header of address start + 16 * (k - 1) and leaves row 0 alone. |
| RamView.RamTable.FillCells | ui.js:507-520 | The cell loop sets cell i to the text of mem[start + i] and highlights it exactly when start + i is the PC. |
| RamView.RamTable.ShowFromZero | ui.js:358-360 | After a run the box reads "0000", the header row's first cell keeps its text, row k is headed formatNum(k - 1, 3), cell i shows mem[i], and only the cell at the PC is highlighted. |
| SourceLines.FindStepLine | ui.js:463-471 | The loop returns the index of the first source line whose PC is pc and which has no label (None and "" both count as no label). It returns None exactly when no line qualifies. |
| SourceLines.Session.HighlightCurrentLine | ui.js:459-472 | At most one row is marked afterwards. It is row line - 1 of the first qualifying source line, and no row is marked when none qualifies. |
| SourceLines.LinesAt | ui.js:415-416 | The filter keeps exactly the source lines numbered n, and nothing else. |
| SourceLines.FirstPcOnLineMeaning | ui.js:414-417 | Row y maps to the PC of the first source line numbered y + 1. It is undefined exactly when no line has that number. |
| SourceLines.BreakpointPcs | ui.js:414-417 | The mapping has one entry per editor row, and only a row holding a breakpoint has a PC. |
| SourceLines.IndexOf | ui.js:430 | indexOf returns -1 exactly when pc is absent; otherwise it returns the first index holding pc. |
| SourceLines.StopsAtMeaning | ui.js:414-430 | The run stops at pc if and only if some breakpoint row y has PC pc, taken from the first source line numbered y + 1. |
| SourceLines.StopsOnlyAtBreakpointLines | ui.js:414-430 | The run stops only at a PC that some source line on a breakpoint row has. |
| SourceLines.NoBreakpointsNoStop | ui.js:414-430 | With no breakpoint set, no PC stops the run. |
| StepCounter.UndefinedIsNaN | ui.js:285 | parseInt("undefined") is NaN, so the first test of checkSteps adds nothing. |
| StepCounter.CheckSteps | ui.js:284-289 | The value passes if and only if parseInt reads it as a count of at least 0. Every rejection carries "Steps value is invalid". |
| StepCounter.NextStepIncrements | ui.js:319-323 | Next raises an accepted count by exactly one, and the new text is accepted again. |
| StepCounter.PrevStepDecrements | ui.js:325-331 | The corrected Prev lowers an accepted positive count by exactly one and leaves 0 unchanged. The new text is accepted again, so the count never goes below 0. |
| StepCounter.PrevUndoesNext | ui.js:319-331 | The corrected Prev after Next gives back the count it started from. |
| StepCounter.PrevStepAgreesOnCanonicalText | ui.js:325-331 | On the canonical decimal text of a count, the written guard and the corrected guard agree. |
| StepCounter.PrevStepAsWrittenGoesNegative | ui.js:325-331 | As written, "0.5" passes checkSteps and passes the guard (0.5 > 0), then becomes "-1", which checkSteps rejects. |
| StepCounter.PrevStepKeepsHalf | ui.js:325-331 | The corrected Prev leaves "0.5" as it is. |
| StepCounter.StepBox.Check | ui.js:284-289 | checkSteps on the box passes exactly when its text reads as a count of at least 0. |
| StepCounter.StepBox.NextStep | ui.js:319-323 | The box becomes String(parseInt(value) + 1), or "NaN". From an accepted value it stays accepted, one higher. |
| StepCounter.StepBox.PrevStep | ui.js:325-331 | The box becomes the corrected Prev of its text. From an accepted value it stays accepted, one lower when it was positive. |
| JsSemantics.ParseIntAllDigits | ui.js:490 | For an absent radix and any radix 2..36, parseInt reads a non-empty string of digits of that radix, with or without a minus sign, as its value. |
| JsSemantics.NumberToStringMeaning | ui.js:535 | toString(radix) writes a canonical numeral. After the minus sign of a negative n, every character is a digit of the radix, the digits are worth the magnitude of n, and only zero starts with '0'. |
| JsSemantics.DecimalRoundTrip | ui.js:320-321 | The text an integer assigned to the box takes, String(n), is read back by parseInt as n. |
| JsSemantics.NumberOfDecimalString | ui.js:326 | The relational comparison converts the text String(n) back to the number n. |
| Digits.ValueOfDigitsOf | ui.js:535 | The base-b digits that toString(b) writes are worth n. |

## Left out

- The DOM and the editor are out of scope: element creation, `elt`, the CPU-state table, Ace set-up, editor markers other than the step marker's row, and gutter clicks are presentation only (ui.js:8-27, 147-204, 449-457, 523-530).
- `loadUiState` and `saveUiState` are left out because they use `localStorage` and JSON (ui.js:234-260).
- The `runProg` run loop is not modelled. It calls the CPU, parser and assembler, which are not part of this model, and it awaits `setTimeout` delays. The global `currentStep` and the forced `maxSteps = 50000` are out with it (ui.js:389-447). Only its breakpoint mapping and its stop test are modelled.
- `dispatchStep` and the `setStatus` functions are left out (ui.js:262-317). `dispatchStep` runs `checkSteps()` before every handler (ui.js:293); the model keeps that order as a precondition, which is why `NextStepIncrements`, `PrevStepDecrements` and `PrevUndoesNext` require `CheckSteps(value).Pass?`. Its other work is routing exceptions to the status line, and `CheckSteps` returns the error as a value instead.
- The call to `onRunCode` that follows Next and Prev is a run of the simulator, so it is not modelled.
- `onRunCode` itself is mostly left out: the register values and the label table. Only its flag decode and its reset of the RAM box are modelled.
- The `codeSamples` list is data, not logic (ui.js:30-144).
- `src/bundleMain.js` only re-exports modules.
- The parser, assembler and 8080 simulator (`src/parser.js`, `src/assembler.js`, `src/sim8080.js`) are not part of this model.
- Numbers are exact integers and reals, not IEEE doubles. This covers `parseInt`'s result, `toString`, the `+ 1` and `- 1` of Next and Prev, the `&` of the RAM start and the `> 0` comparison. JavaScript numbers are doubles, so integers beyond 2^53 are rounded. Negative zero and exponent formatting are also out.
- RamView.WindowStart, RamView.MaskedStartValue and RamView.RamTable.Populate: exact only while the parsed start is at most 2^53 in size. JavaScript rounds RAM-start text "1000000000000010" (2^60 + 16) to 2^60, which selects window 0x0000; the model selects 0x0010 (ui.js:490).
- StepCounter.NextStepIncrements, StepCounter.PrevStepDecrements, StepCounter.StepBox.NextStep and StepCounter.StepBox.PrevStep: exact only for counts up to 2^53. On "9007199254740993" JavaScript's `parseInt(...) + 1` is written as "9007199254740992"; the model writes "9007199254740994" (ui.js:320-321).
- String-to-number conversion treats exponent notation ("1e3") as NaN rather than as a number. No step-counter property depends on it.
- `ToUpperCase` maps only 'a'..'z'. The texts it is applied to are hexadecimal digits.
- The highlight and the cell background are a boolean per cell, not the CSS colour and weight.
- Memory entries are `int`s. `CellTextShape` needs a byte (0..255); wider values are formatted like any other integer.
- StepCounter.StepBox.PrevStep models the corrected guard `parseInt(value) > 0`. The guard as written is `PrevStepValueAsWritten`, described under Findings.

## Findings

| source | as written | input that shows it | evidently intended | confidence | as-written member | corrected member |
|---|---|---|---|---|---|---|
| ui.js:325-331 | `onPrevStep` guards with `maxsteps.value > 0`, which converts the whole text to a number, but it decrements `parseInt(maxsteps.value)`, which stops at the first non-digit | "0.5": checkSteps accepts it (parseInt gives 0), 0.5 > 0 holds, and the box becomes "-1", which checkSteps rejects | test the count that is decremented: `parseInt(maxsteps.value) > 0`, so the count never goes below 0 | not executed | StepCounter.PrevStepAsWrittenGoesNegative | StepCounter.PrevStepDecrements |
