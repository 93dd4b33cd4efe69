/**
 `Converter.check_temp` and `Converter.convert`: the parsed entry is either not a
 number (`float()` raised `ValueError`) or a number; a number at or above the
 direction's minimum is converted and its record appended to the history, anything
 else produces an error message and leaves the history alone.
 */
module Validation {
  import opened Wrappers
  import opened Decimal
  import opened Records

  /** How `check_temp` classifies the entry. */
  datatype Verdict = Accepted(value: real) | NotANumber | BelowMinimum

  /** The bound is inclusive: the minimum itself is accepted. */
  function Validate(input: Option<real>, minTemp: int): (v: Verdict)
    ensures v == NotANumber <==> input.None?
    ensures v == BelowMinimum <==> input.Some? && input.value < minTemp as real
    ensures v.Accepted? <==> input.Some? && minTemp as real <= input.value
    ensures v.Accepted? ==> input == Some(v.value)
  {
    match input
    case None => NotANumber
    case Some(x) => if x >= minTemp as real then Accepted(x) else BelowMinimum
  }

  const NotANumberText := "Please enter a number"
  const BelowMinimumPrefix := "Enter a number more than / equal to "

  /** The text of the answer label after a conversion attempt, and the history after it. */
  datatype Outcome = Outcome(history: seq<string>, answer: string)

  /** `convert`: append the record of a valid input and show it. */
  function Convert(env: Env, history: seq<string>, minTemp: int, x: real): (o: Outcome)
    requires env.Valid()
    ensures |o.history| == |history| + 1
    ensures o.history[..|history|] == history
    ensures o.history[|history|] == o.answer
    ensures ParseRecord(o.answer) == Some(Parsed(env.showFloat(x), DirectionOf(env, minTemp), Answer(env, DirectionOf(env, minTemp), x)))
  {
    var record := Record(env, DirectionOf(env, minTemp), x);
    RecordRoundTrip(env, DirectionOf(env, minTemp), x);
    Outcome(history + [record], record)
  }

  /** `check_temp`: classify the entry, then convert it or report the error. */
  function CheckTemp(env: Env, history: seq<string>, input: Option<real>, minTemp: int): (o: Outcome)
    requires env.Valid()
    ensures input.None? ==> o == Outcome(history, NotANumberText)
    ensures input.Some? && input.value < minTemp as real ==>
      o == Outcome(history, BelowMinimumPrefix + IntToString(minTemp))
    ensures input.Some? && minTemp as real <= input.value ==>
      o == Convert(env, history, minTemp, input.value)
  {
    match Validate(input, minTemp)
    case NotANumber => Outcome(history, NotANumberText)
    case BelowMinimum => Outcome(history, BelowMinimumPrefix + IntToString(minTemp))
    case Accepted(x) => Convert(env, history, minTemp, x)
  }

  /**
   The answer label shows a record exactly when the history grew, and then by exactly
   that record; otherwise the history is unchanged. The history never loses or
   rewrites an earlier record.
   */
  lemma CheckTempAppendsExactlyOnValid(env: Env, history: seq<string>, input: Option<real>, minTemp: int)
    requires env.Valid()
    ensures var o := CheckTemp(env, history, input, minTemp);
      && history <= o.history
      && (ParseRecord(o.answer).Some? <==> Validate(input, minTemp).Accepted?)
      && (Validate(input, minTemp).Accepted? ==> o.history == history + [o.answer])
      && (!Validate(input, minTemp).Accepted? ==> o.history == history)
  {
    var o := CheckTemp(env, history, input, minTemp);
    match Validate(input, minTemp)
    case NotANumber =>
      assert Degree !in NotANumberText;
      PlainIsNoRecord(o.answer);
    case BelowMinimum =>
      NoDegreeInError(minTemp);
      PlainIsNoRecord(o.answer);
    case Accepted(x) =>
      assert o.history == o.history[..|history|] + [o.history[|history|]];
  }

  lemma NoDegreeInError(minTemp: int)
    ensures Degree !in BelowMinimumPrefix + IntToString(minTemp)
  {
    var s := BelowMinimumPrefix + IntToString(minTemp);
    forall k | 0 <= k < |s| ensures s[k] != Degree {
      if k >= |BelowMinimumPrefix| {
        assert s[k] == IntToString(minTemp)[k - |BelowMinimumPrefix|];
      }
    }
  }

  /** The below-minimum message names the minimum so that it reads back as that number. */
  lemma BelowMinimumNamesBound(env: Env, history: seq<string>, x: real, minTemp: int)
    requires env.Valid()
    requires x < minTemp as real
    ensures var o := CheckTemp(env, history, Some(x), minTemp);
      && o.answer[..|BelowMinimumPrefix|] == BelowMinimumPrefix
      && ParseInt(o.answer[|BelowMinimumPrefix|..]) == Some(minTemp)
  {
    var o := CheckTemp(env, history, Some(x), minTemp);
    assert o.answer[|BelowMinimumPrefix|..] == IntToString(minTemp);
    IntRoundTrip(minTemp);
  }

  /**
   The record of an accepted entry names the direction the minimum selects: the
   Celsius minimum converts to Fahrenheit, any other minimum to Celsius.
   */
  lemma DirectionFollowsMinimum(env: Env, history: seq<string>, x: real, minTemp: int)
    requires env.Valid()
    requires minTemp as real <= x
    ensures var p := ParseRecord(CheckTemp(env, history, Some(x), minTemp).answer);
      && p.Some?
      && p.value.source == env.showFloat(x)
      && (minTemp == env.absZeroCelsius ==> p.value.dir == ToFahrenheit && p.value.answer == env.toFahrenheit(x))
      && (minTemp != env.absZeroCelsius ==> p.value.dir == ToCelsius && p.value.answer == env.toCelsius(x))
  {
  }
}
