/**
 * Source-line lookups of the display: which editor line is highlighted for
 * the current PC (ui.js highlightCurrentLine), and which PCs the editor's
 * breakpoints stand for (the breakpointPcs mapping of runProg and its
 * indexOf stop test).
 */
module SourceLines {
  import opened Wrappers

  /** One entry of the assembled program's source map: a 1-based editor line, its PC and its label. */
  datatype SourceLine = SourceLine(line: int, pc: int, labelText: Option<string>)

  /** `!sl.label`: no label, or the empty label (the empty string is falsy). */
  predicate Unlabelled(sl: SourceLine)
  {
    sl.labelText == None || sl.labelText == Some("")
  }

  /** The test of the highlight loop: the line's PC is the current PC and it carries no label. */
  predicate MarksAt(sl: SourceLine, pc: int)
  {
    sl.pc == pc && Unlabelled(sl)
  }

  /** Line i is the first source line that marks pc. */
  predicate IsFirstMark(lines: seq<SourceLine>, pc: int, i: int)
  {
    0 <= i < |lines| && MarksAt(lines[i], pc) && forall h :: 0 <= h < i ==> !MarksAt(lines[h], pc)
  }

  /**
   * The highlight loop: walk the source lines in order and stop at the first
   * one that marks pc. None when there is none.
   */
  method FindStepLine(lines: seq<SourceLine>, pc: int) returns (idx: Option<nat>)
    ensures idx.None? <==> forall i :: 0 <= i < |lines| ==> !MarksAt(lines[i], pc)
    ensures idx.Some? ==> IsFirstMark(lines, pc, idx.value)
  {
    var i := 0;
    while i < |lines|
      invariant 0 <= i <= |lines|
      invariant forall h :: 0 <= h < i ==> !MarksAt(lines[h], pc)
    {
      if lines[i].pc == pc && (lines[i].labelText == None || lines[i].labelText == Some("")) {
        return Some(i);
      }
      i := i + 1;
    }
    return None;
  }

  /** The editor session: the rows (0-based) carrying the current-step marker. */
  class Session {
    var stepMarkers: set<int>

    constructor ()
      ensures stepMarkers == {}
    {
      stepMarkers := {};
    }

    /**
     * highlightCurrentLine: remove every step marker, then mark the row of the
     * first unlabelled source line whose PC is pc, if there is one.
     */
    method HighlightCurrentLine(lines: seq<SourceLine>, pc: int)
      modifies this
      ensures |stepMarkers| <= 1
      ensures (forall i :: 0 <= i < |lines| ==> !MarksAt(lines[i], pc)) ==> stepMarkers == {}
      ensures forall i :: IsFirstMark(lines, pc, i) ==> stepMarkers == {lines[i].line - 1}
    {
      stepMarkers := {};
      var idx := FindStepLine(lines, pc);
      if idx.Some? {
        stepMarkers := {lines[idx.value].line - 1};
      }
    }
  }

  /** `sourceLines.filter((s) => s.pos.line === n)`, keeping the order. */
  function LinesAt(lines: seq<SourceLine>, n: int): (r: seq<SourceLine>)
    ensures |r| <= |lines|
    ensures forall s :: s in r ==> s in lines && s.line == n
    ensures forall i :: 0 <= i < |lines| && lines[i].line == n ==> lines[i] in r
  {
    if lines == [] then []
    else if lines[0].line == n then [lines[0]] + LinesAt(lines[1..], n)
    else LinesAt(lines[1..], n)
  }

  /** `.map((f) => f.pc)[0]` of that filter: the PC of the first line numbered n, or undefined. */
  function FirstPcOnLine(lines: seq<SourceLine>, n: int): Option<int>
  {
    var at := LinesAt(lines, n);
    if at == [] then None else Some(at[0].pc)
  }

  /**
   * The PC for line n is the PC of the first source line numbered n, and there
   * is none exactly when no source line is numbered n.
   */
  lemma {:induction false} FirstPcOnLineMeaning(lines: seq<SourceLine>, n: int)
    ensures FirstPcOnLine(lines, n).None? <==> forall i :: 0 <= i < |lines| ==> lines[i].line != n
    ensures FirstPcOnLine(lines, n).Some? ==>
              exists i :: 0 <= i < |lines| && lines[i].line == n && lines[i].pc == FirstPcOnLine(lines, n).value &&
                forall h :: 0 <= h < i ==> lines[h].line != n
  {
    if lines == [] {
    } else if lines[0].line == n {
      assert lines[0].pc == FirstPcOnLine(lines, n).value;
    } else {
      FirstPcOnLineMeaning(lines[1..], n);
      assert FirstPcOnLine(lines, n) == FirstPcOnLine(lines[1..], n);
      if FirstPcOnLine(lines, n).Some? {
        var i :| 0 <= i < |lines[1..]| && lines[1..][i].line == n && lines[1..][i].pc == FirstPcOnLine(lines, n).value &&
                 forall h :: 0 <= h < i ==> lines[1..][h].line != n;
        assert lines[i + 1] == lines[1..][i];
        forall h | 0 <= h < i + 1 ensures lines[h].line != n {
          if h > 0 {
            assert lines[h] == lines[1..][h - 1];
          }
        }
      } else {
        forall i | 0 <= i < |lines| ensures lines[i].line != n {
          if i > 0 {
            assert lines[i] == lines[1..][i - 1];
          }
        }
      }
    }
  }

  /**
   * `breakpoints.map((x, y) => …)` over the editor's sparse breakpoint array
   * (true where row y holds a breakpoint): row y maps to the PC of line y + 1;
   * a hole stays a hole. Holes and undefined are both None.
   */
  function BreakpointPcs(lines: seq<SourceLine>, breakpoints: seq<bool>): (r: seq<Option<int>>)
    ensures |r| == |breakpoints|
    ensures forall y :: 0 <= y < |r| && r[y].Some? ==> breakpoints[y]
  {
    seq(|breakpoints|, y requires 0 <= y < |breakpoints| => if breakpoints[y] then FirstPcOnLine(lines, y + 1) else None)
  }

  /** `Array.prototype.indexOf`: the first index holding pc, or -1. */
  function IndexOf(xs: seq<Option<int>>, pc: int): (r: int)
    ensures -1 <= r < |xs|
    ensures r == -1 <==> Some(pc) !in xs
    ensures r >= 0 ==> xs[r] == Some(pc) && forall h :: 0 <= h < r ==> xs[h] != Some(pc)
  {
    if xs == [] then -1
    else if xs[0] == Some(pc) then 0
    else
      var k := IndexOf(xs[1..], pc);
      if k == -1 then -1 else k + 1
  }

  /** The stop test of the run loop: the PC after a step is one of the breakpoint PCs. */
  predicate StopsAt(lines: seq<SourceLine>, breakpoints: seq<bool>, pc: int)
  {
    IndexOf(BreakpointPcs(lines, breakpoints), pc) != -1
  }

  /**
   * The run stops at pc exactly when some row y holds a breakpoint and the
   * first source line numbered y + 1 has PC pc.
   */
  lemma StopsAtMeaning(lines: seq<SourceLine>, breakpoints: seq<bool>, pc: int)
    ensures StopsAt(lines, breakpoints, pc) <==>
              exists y :: 0 <= y < |breakpoints| && breakpoints[y] && FirstPcOnLine(lines, y + 1) == Some(pc)
  {
    var bp := BreakpointPcs(lines, breakpoints);
    if StopsAt(lines, breakpoints, pc) {
      var y := IndexOf(bp, pc);
      BreakpointPcAt(lines, breakpoints, y);
    }
    if exists y :: 0 <= y < |breakpoints| && breakpoints[y] && FirstPcOnLine(lines, y + 1) == Some(pc) {
      var y :| 0 <= y < |breakpoints| && breakpoints[y] && FirstPcOnLine(lines, y + 1) == Some(pc);
      BreakpointPcAt(lines, breakpoints, y);
      assert bp[y] == Some(pc);
    }
  }

  /** Row y of the mapping, one row at a time. */
  lemma BreakpointPcAt(lines: seq<SourceLine>, breakpoints: seq<bool>, y: int)
    requires 0 <= y < |breakpoints|
    ensures |BreakpointPcs(lines, breakpoints)| == |breakpoints|
    ensures BreakpointPcs(lines, breakpoints)[y] == if breakpoints[y] then FirstPcOnLine(lines, y + 1) else None
  {
  }

  /** The run only stops at a PC that some source line has, on a row holding a breakpoint. */
  lemma StopsOnlyAtBreakpointLines(lines: seq<SourceLine>, breakpoints: seq<bool>, pc: int)
    requires StopsAt(lines, breakpoints, pc)
    ensures exists y, i :: 0 <= y < |breakpoints| && breakpoints[y] && 0 <= i < |lines| &&
              lines[i].line == y + 1 && lines[i].pc == pc
  {
    StopsAtMeaning(lines, breakpoints, pc);
    var y :| 0 <= y < |breakpoints| && breakpoints[y] && FirstPcOnLine(lines, y + 1) == Some(pc);
    FirstPcOnLineMeaning(lines, y + 1);
    var i :| 0 <= i < |lines| && lines[i].line == y + 1 && lines[i].pc == pc &&
             forall h :: 0 <= h < i ==> lines[h].line != y + 1;
  }

  /** With no breakpoint set the run never stops on a breakpoint. */
  lemma NoBreakpointsNoStop(lines: seq<SourceLine>, breakpoints: seq<bool>, pc: int)
    requires forall y :: 0 <= y < |breakpoints| ==> !breakpoints[y]
    ensures !StopsAt(lines, breakpoints, pc)
  {
    StopsAtMeaning(lines, breakpoints, pc);
  }
}
