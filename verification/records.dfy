/**
 The conversion records the converter stores: `"{x}°C is {f(x)}°F"` or `"{x}°F is {g(x)}°C"`.
 The rounding conversions and the constants live in modules that are not part of this
 model, and Python's rendering of a float is not modelled; all of them are fields of
 `Env`, an environment every operation receives.
 */
module Records {
  import opened Wrappers
  import opened Decimal
  import opened Lines

  /** Which conversion a button asks for. */
  datatype Direction = ToFahrenheit | ToCelsius

  /**
   The collaborators of the converter: the absolute-zero constants, the number of
   calculations the history view shows, the two rounding conversions and Python's
   rendering of a float.
   */
  datatype Env = Env(
    absZeroCelsius: int,
    absZeroFahrenheit: int,
    maxCalcs: nat,
    toFahrenheit: real -> int,
    toCelsius: real -> int,
    showFloat: real -> string)
  {
    /**
     The two constants differ, at least one calculation is shown, and a rendered float
     holds neither a degree sign nor a line break (Python's float rendering uses only
     digits, signs, '.', 'e', "inf" and "nan").
     */
    ghost predicate Valid() {
      && absZeroCelsius != absZeroFahrenheit
      && 0 < maxCalcs
      && forall x: real :: Plain(showFloat(x))
    }
  }

  const Degree: char := '°'
  const Newline: char := '\n'

  /** Text that holds neither a degree sign nor a line break. */
  predicate Plain(s: string) {
    Degree !in s && Newline !in s
  }

  /** The direction `check_temp` picks from the minimum it was handed. */
  function DirectionOf(env: Env, minTemp: int): (d: Direction)
    ensures d == ToFahrenheit <==> minTemp == env.absZeroCelsius
  {
    if minTemp == env.absZeroCelsius then ToFahrenheit else ToCelsius
  }

  /** The converted value, rounded by the matching conversion. */
  function Answer(env: Env, dir: Direction, x: real): int {
    match dir
    case ToFahrenheit => env.toFahrenheit(x)
    case ToCelsius => env.toCelsius(x)
  }

  /** The unit typed in and the unit produced. */
  function SourceUnit(dir: Direction): string {
    match dir
    case ToFahrenheit => "°C"
    case ToCelsius => "°F"
  }

  function TargetUnit(dir: Direction): string {
    match dir
    case ToFahrenheit => "°F"
    case ToCelsius => "°C"
  }

  /** The record string `convert` stores and shows for a valid input `x`. */
  function Record(env: Env, dir: Direction, x: real): (r: string)
    requires Plain(env.showFloat(x))
    ensures Newline !in r
    ensures Degree in r
  {
    var r := env.showFloat(x) + SourceUnit(dir) + " is " + IntToString(Answer(env, dir, x)) + TargetUnit(dir);
    assert r[|r| - 2] == Degree;
    r
  }

  /** What a record string says: the input as typed, the direction and the rounded answer. */
  datatype Parsed = Parsed(source: string, dir: Direction, answer: int)

  /** The direction a record's middle part `"°C is "` or `"°F is "` names. */
  function DirectionFrom(middle: string): (d: Option<Direction>)
    ensures d.Some? ==> SourceUnit(d.value) + " is " == middle
  {
    if middle == "°C is " then Some(ToFahrenheit)
    else if middle == "°F is " then Some(ToCelsius)
    else None
  }

  /**
   Reads the part of a record from its first degree sign on: direction and answer. The
   part is a 6-character middle (`"°C is "` or `"°F is "`), the answer, and a 2-character
   target unit (`"°F"` or `"°C"`), so it has at least 8 characters.
   */
  function ParseTail(t: string): Option<(Direction, int)> {
    if |t| < 8 then None
    else
      match DirectionFrom(t[..6])
      case None => None
      case Some(dir) =>
        if t[|t| - 2..] != TargetUnit(dir) then None
        else
          match ParseInt(t[6..|t| - 2])
          case Some(n) => Some((dir, n))
          case None => None
  }

  /** Reads a record string back; `None` for text that is not a record (an error message, say). */
  function ParseRecord(s: string): Option<Parsed> {
    var i := FirstIndex(s, Degree);
    match ParseTail(s[i..])
    case Some(p) => Some(Parsed(s[..i], p.0, p.1))
    case None => None
  }

  lemma TailRoundTrip(dir: Direction, n: int)
    ensures ParseTail(SourceUnit(dir) + " is " + IntToString(n) + TargetUnit(dir)) == Some((dir, n))
  {
    var num := IntToString(n);
    var t := SourceUnit(dir) + " is " + num + TargetUnit(dir);
    assert t[..6] == SourceUnit(dir) + " is ";
    assert DirectionFrom(t[..6]) == Some(dir) by {
      match dir
      case ToFahrenheit => assert t[..6] == "°C is ";
      case ToCelsius => assert t[..6] == "°F is ";
    }
    assert t[|t| - 2..] == TargetUnit(dir);
    assert t[6..|t| - 2] == num;
    IntRoundTrip(n);
  }

  /**
   Reading a record back recovers the input as Python rendered it, the direction of the
   conversion and the rounded answer: a record says exactly what was converted.
   */
  lemma RecordRoundTrip(env: Env, dir: Direction, x: real)
    requires Plain(env.showFloat(x))
    ensures ParseRecord(Record(env, dir, x)) == Some(Parsed(env.showFloat(x), dir, Answer(env, dir, x)))
  {
    var src := env.showFloat(x);
    var n := Answer(env, dir, x);
    var t := SourceUnit(dir) + " is " + IntToString(n) + TargetUnit(dir);
    var r := Record(env, dir, x);
    assert r == src + t;
    assert r == src + [Degree] + t[1..];
    FirstIndexAfter(src, Degree, t[1..]);
    assert r[|src|..] == t;
    assert r[..|src|] == src;
    TailRoundTrip(dir, n);
  }

  /** Text without a degree sign is never taken for a record. */
  lemma PlainIsNoRecord(s: string)
    requires Degree !in s
    ensures ParseRecord(s) == None
  {
  }
}
