/**
 * The step counter of the display (ui.js checkSteps, onNextStep, onPrevStep):
 * the "max steps" box holds text; every button first checks it, then Next
 * raises it by one and Prev lowers it by one.
 */
module StepCounter {
  import opened Wrappers
  import opened Digits
  import opened JsSemantics

  const InvalidSteps: string := "Steps value is invalid"

  /** `parseInt("undefined")` is NaN: 'u' is no decimal digit. */
  lemma UndefinedIsNaN()
    ensures ParseInt("undefined", 0).None?
  {
    var s := "undefined";
    assert TrimStart(s) == s;
    assert DigitValue('u') == Some(30);
  }

  /**
   * checkSteps: the text "undefined", text parseInt cannot read, and a negative
   * count are all rejected with the same message. The first test is subsumed by
   * the second, so a value passes exactly when it reads as a count of at least 0.
   */
  function CheckSteps(value: string): (r: Outcome<string>)
    ensures r.Pass? <==> ParseInt(value, 0).Some? && ParseInt(value, 0).value >= 0
    ensures r.Fail? ==> r.error == InvalidSteps
  {
    UndefinedIsNaN();
    if value == "undefined" || ParseInt(value, 0).None? || ParseInt(value, 0).value < 0 then Fail(InvalidSteps)
    else Pass
  }

  /** onNextStep: `maxsteps.value = parseInt(maxsteps.value) + 1` (NaN stays NaN). */
  function NextStepValue(value: string): string
  {
    NumberText(match ParseInt(value, 0) case Some(n) => Some(n + 1) case None => None)
  }

  /**
   * onPrevStep as written: the guard `maxsteps.value > 0` converts the whole
   * text to a number, while the new value is `parseInt(maxsteps.value) - 1`.
   */
  function PrevStepValueAsWritten(value: string): string
  {
    if IsPositive(StringToNumber(value)) then
      NumberText(match ParseInt(value, 0) case Some(n) => Some(n - 1) case None => None)
    else value
  }

  /** onPrevStep with the guard on the count it decrements: `parseInt(maxsteps.value) > 0`. */
  function PrevStepValue(value: string): string
  {
    match ParseInt(value, 0)
    case Some(n) => if n > 0 then NumberToString(n - 1, 10) else value
    case None => value
  }

  /** Next raises an accepted count by exactly one, and the result is accepted again. */
  lemma NextStepIncrements(value: string)
    requires CheckSteps(value).Pass?
    ensures ParseInt(NextStepValue(value), 0) == Some(ParseInt(value, 0).value + 1)
    ensures CheckSteps(NextStepValue(value)).Pass?
  {
    DecimalRoundTrip(ParseInt(value, 0).value + 1);
  }

  /**
   * Prev lowers an accepted positive count by exactly one and leaves a zero
   * count untouched, so the count never drops below zero.
   */
  lemma PrevStepDecrements(value: string)
    requires CheckSteps(value).Pass?
    ensures ParseInt(value, 0).value > 0 ==> ParseInt(PrevStepValue(value), 0) == Some(ParseInt(value, 0).value - 1)
    ensures ParseInt(value, 0).value == 0 ==> PrevStepValue(value) == value
    ensures CheckSteps(PrevStepValue(value)).Pass?
  {
    DecimalRoundTrip(ParseInt(value, 0).value - 1);
  }

  /** Prev after Next brings the count back to where it was. */
  lemma PrevUndoesNext(value: string)
    requires CheckSteps(value).Pass?
    ensures ParseInt(PrevStepValue(NextStepValue(value)), 0) == ParseInt(value, 0)
  {
    var n := ParseInt(value, 0).value;
    NextStepIncrements(value);
    DecimalRoundTrip(n);
  }

  /** On the canonical text of a count, the two guards agree, so the written and the corrected Prev coincide. */
  lemma PrevStepAgreesOnCanonicalText(n: nat)
    ensures PrevStepValueAsWritten(NumberToString(n, 10)) == PrevStepValue(NumberToString(n, 10))
  {
    NumberOfDecimalString(n);
    DecimalRoundTrip(n);
  }

  /** parseInt stops at the '.', so "0.5" reads as 0. */
  lemma HalfReadsAsZero()
    ensures ParseInt("0.5", 0) == Some(0)
  {
    var s := "0.5";
    assert TrimStart(s) == s;
    assert DigitPrefix(s, 10) == [0];
    assert ValueOf([0], 10) == 0;
    assert ParseUnsigned(s, 0, false) == Some(0);
  }

  /** The relational comparison converts the whole text, so "0.5" is the number 0.5. */
  lemma HalfIsHalf()
    ensures StringToNumber("0.5") == Finite(0.5)
  {
    var s := "0.5";
    assert Trim(s) == s by {
      NoSpaceAtEnds(s);
    }
    assert TrimmedToNumber(s) == SignedDecimal(s) by {
      assert !(s[1] in "xXoObB");
    }
    assert SignedDecimal(s) == Finite(0.5) by {
      assert s[0] != '-' && s[0] != '+' && s != "Infinity";
      HalfDecimal();
    }
  }

  lemma HalfDecimal()
    ensures UnsignedDecimal("0.5") == Some(0.5)
  {
    var s := "0.5";
    assert DigitPrefix(s, 10) == [0];
    assert ValueOf([0], 10) == 0;
    var rest := s[1..];
    assert rest == ".5" && rest[1..] == "5";
    assert AllDigits("5", 10);
    assert Values("5") == [5];
    assert ValueOf([5], 10) == 5;
    assert Pow(10, 1) == 10;
  }

  lemma MinusOneText()
    ensures NumberToString(-1, 10) == "-1" && ParseInt("-1", 0) == Some(-1)
  {
    assert DigitsOf(1, 10) == [1];
    assert DigitChar(1) == '1';
    var d := DigitString([1]);
    assert |d| == 1 && d[0] == '1';
    assert d == "1";
    assert NumberToString(-1, 10) == "-" + DigitString(DigitsOf(1, 10));
    assert "-" + d == "-1";
    DecimalRoundTrip(-1);
  }

  /** "0.5" is accepted (it reads as 0), passes the guard (0.5 > 0), and Prev turns it into "-1", which is rejected. */
  lemma PrevStepAsWrittenGoesNegative()
    ensures CheckSteps("0.5").Pass?
    ensures StringToNumber("0.5") == Finite(0.5) && IsPositive(StringToNumber("0.5"))
    ensures PrevStepValueAsWritten("0.5") == "-1"
    ensures CheckSteps("-1").Fail?
  {
    HalfReadsAsZero();
    HalfIsHalf();
    MinusOneText();
    assert PrevStepValueAsWritten("0.5") == NumberText(Some(-1));
  }

  /** The corrected Prev leaves "0.5" as it is. */
  lemma PrevStepKeepsHalf()
    ensures PrevStepValue("0.5") == "0.5"
  {
    HalfReadsAsZero();
  }

  /** The "max steps" box. */
  class StepBox {
    var value: string

    constructor (initial: string)
      ensures value == initial
    {
      value := initial;
    }

    /** checkSteps on the box's current text. */
    function Check(): (r: Outcome<string>)
      reads this
      ensures r.Pass? <==> ParseInt(value, 0).Some? && ParseInt(value, 0).value >= 0
    {
      CheckSteps(value)
    }

    /** onNextStep's update of the box. */
    method NextStep()
      modifies this
      ensures value == NextStepValue(old(value))
      ensures old(Check()).Pass? ==> Check().Pass? && ParseInt(value, 0) == Some(ParseInt(old(value), 0).value + 1)
    {
      var step := ParseInt(value, 0);
      if step.Some? {
        value := NumberToString(step.value + 1, 10);
      } else {
        value := "NaN";
      }
      if old(Check()).Pass? {
        NextStepIncrements(old(value));
      }
    }

    /** onPrevStep's update of the box, with the guard on the parsed count. */
    method PrevStep()
      modifies this
      ensures value == PrevStepValue(old(value))
      ensures old(Check()).Pass? ==> Check().Pass?
      ensures old(Check()).Pass? && ParseInt(old(value), 0).value > 0 ==>
                ParseInt(value, 0) == Some(ParseInt(old(value), 0).value - 1)
    {
      var step := ParseInt(value, 0);
      if step.Some? && step.value > 0 {
        value := NumberToString(step.value - 1, 10);
      }
      if old(Check()).Pass? {
        PrevStepDecrements(old(value));
      }
    }
  }
}
