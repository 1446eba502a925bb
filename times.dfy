/**
 * `Calculator.timeToSeconds` (calculator.js:161-175): an `HH:MM:SS.ms` time
 * of day as a number of seconds. JavaScript's `NaN`, which a part that does
 * not parse produces, is kept apart from `null`, which only a wrong number of
 * `:`-separated parts produces.
 */
module Times {
  import opened Wrappers
  import opened Text

  /** A JavaScript number as the model needs it: an exact finite value, or `NaN`. */
  datatype Num = Finite(value: real) | NaN

  /** The number `parseInt` yields: `NaN` when no digit was read. */
  function OfInt(r: Option<int>): Num {
    match r
    case None => NaN
    case Some(v) => Finite(v as real)
  }

  /** The number `parseFloat` yields: `NaN` when no digit was read. */
  function OfReal(r: Option<real>): Num {
    match r
    case None => NaN
    case Some(v) => Finite(v)
  }

  /** `a + b`: `NaN` spreads. */
  function Plus(a: Num, b: Num): Num {
    if a.NaN? || b.NaN? then NaN else Finite(a.value + b.value)
  }

  /** `a - b`: `NaN` spreads. */
  function Minus(a: Num, b: Num): Num {
    if a.NaN? || b.NaN? then NaN else Finite(a.value - b.value)
  }

  /** `a * k` for a constant factor. */
  function Scale(a: Num, k: int): Num {
    if a.NaN? then NaN else Finite(a.value * k as real)
  }

  /**
   * `Calculator.timeToSeconds`: `null` (`None`) unless the text splits into
   * exactly three `:`-parts; otherwise hours * 3600 + minutes * 60 + seconds,
   * hours and minutes read by `parseInt` and seconds by `parseFloat`.
   */
  function TimeToSeconds(s: string): (r: Option<Num>)
    ensures r.None? <==> Count(s, ':') != 2
  {
    SplitCount(s, ':');
    SecondsOf(Split(s, ':'))
  }

  /** The seconds the `:`-parts of a time stand for; `None` unless there are three. */
  function SecondsOf(parts: seq<string>): (r: Option<Num>)
    ensures r.None? <==> |parts| != 3
  {
    if |parts| != 3 then None
    else
      var hours := OfInt(ParseInt(parts[0]));
      var minutes := OfInt(ParseInt(parts[1]));
      var seconds := OfReal(ParseFloat(parts[2]));
      Some(Plus(Plus(Scale(hours, 3600), Scale(minutes, 60)), seconds))
  }

  /** The text of three parts joined by `:`. */
  function Clock(hours: string, minutes: string, seconds: string): string {
    hours + ":" + minutes + ":" + seconds
  }

  lemma ClockSplits(hours: string, minutes: string, seconds: string)
    requires ':' !in hours && ':' !in minutes && ':' !in seconds
    ensures Split(Clock(hours, minutes, seconds), ':') == [hours, minutes, seconds]
  {
    var parts := [hours, minutes, seconds];
    assert parts[1..] == [minutes, seconds] && parts[1..][1..] == [seconds];
    assert Join(parts[1..], ':') == minutes + [':'] + seconds;
    assert Join(parts, ':') == Clock(hours, minutes, seconds);
    SplitJoin(parts, ':');
  }

  /**
   * What a time of day means: hours * 3600 + minutes * 60 + seconds, or `NaN`
   * as soon as one part has no number.
   */
  function ClockSeconds(h: Option<int>, m: Option<int>, sec: Option<real>): Num {
    if h.Some? && m.Some? && sec.Some? then Finite(h.value as real * 3600.0 + m.value as real * 60.0 + sec.value)
    else NaN
  }

  /**
   * A time of three `:`-parts is hours * 3600 + minutes * 60 + seconds when
   * each part parses, and `NaN` (not `null`) as soon as one does not.
   */
  lemma TimeOfParts(t: string, hours: string, minutes: string, seconds: string)
    requires Split(t, ':') == [hours, minutes, seconds]
    ensures TimeToSeconds(t) == Some(ClockSeconds(ParseInt(hours), ParseInt(minutes), ParseFloat(seconds)))
  {
    SplitTime(t, [hours, minutes, seconds]);
    SecondsOfParts(hours, minutes, seconds);
  }

  lemma SplitTime(t: string, parts: seq<string>)
    requires Split(t, ':') == parts
    ensures TimeToSeconds(t) == SecondsOf(parts)
  {
  }

  lemma SecondsOfParts(hours: string, minutes: string, seconds: string)
    ensures SecondsOf([hours, minutes, seconds]) == Some(ClockSeconds(ParseInt(hours), ParseInt(minutes), ParseFloat(seconds)))
  {
    SecondsOfThree(hours, minutes, seconds, ParseInt(hours), ParseInt(minutes), ParseFloat(seconds));
    Combine(ParseInt(hours), ParseInt(minutes), ParseFloat(seconds));
  }

  lemma SecondsOfThree(hours: string, minutes: string, seconds: string, h: Option<int>, m: Option<int>, sec: Option<real>)
    requires h == ParseInt(hours) && m == ParseInt(minutes) && sec == ParseFloat(seconds)
    ensures SecondsOf([hours, minutes, seconds]) == Some(Plus(Plus(Scale(OfInt(h), 3600), Scale(OfInt(m), 60)), OfReal(sec)))
  {
    assert [hours, minutes, seconds][0] == hours;
  }

  /** The sum of calculator.js:169, on values that may each be `NaN`, is the time of day they spell. */
  lemma Combine(h: Option<int>, m: Option<int>, sec: Option<real>)
    ensures Plus(Plus(Scale(OfInt(h), 3600), Scale(OfInt(m), 60)), OfReal(sec)) == ClockSeconds(h, m, sec)
  {
  }

  lemma ClockTime(hours: string, minutes: string, seconds: string)
    requires ':' !in hours && ':' !in minutes && ':' !in seconds
    ensures TimeToSeconds(Clock(hours, minutes, seconds)) == SecondsOf([hours, minutes, seconds])
  {
    ClockSplits(hours, minutes, seconds);
    SplitTime(Clock(hours, minutes, seconds), [hours, minutes, seconds]);
  }

  lemma SecondsOfValues(hours: string, minutes: string, seconds: string, h: int, m: int, sec: real)
    requires ParseInt(hours) == Some(h) && ParseInt(minutes) == Some(m) && ParseFloat(seconds) == Some(sec)
    ensures SecondsOf([hours, minutes, seconds]) == Some(Finite(h as real * 3600.0 + m as real * 60.0 + sec))
  {
    SecondsOfParts(hours, minutes, seconds);
    ClockValue(ParseInt(hours), ParseInt(minutes), ParseFloat(seconds), h, m, sec);
  }

  lemma ClockValue(x: Option<int>, y: Option<int>, z: Option<real>, h: int, m: int, sec: real)
    requires x == Some(h) && y == Some(m) && z == Some(sec)
    ensures ClockSeconds(x, y, z) == Finite(h as real * 3600.0 + m as real * 60.0 + sec)
  {
  }

  /** Three colon-free parts that parse to h, m and sec make h * 3600 + m * 60 + sec seconds. */
  lemma TimeOfValues(hours: string, minutes: string, seconds: string, h: int, m: int, sec: real)
    requires ':' !in hours && ':' !in minutes && ':' !in seconds
    requires ParseInt(hours) == Some(h) && ParseInt(minutes) == Some(m) && ParseFloat(seconds) == Some(sec)
    ensures TimeToSeconds(Clock(hours, minutes, seconds)) == Some(Finite(h as real * 3600.0 + m as real * 60.0 + sec))
  {
    ClockTime(hours, minutes, seconds);
    SecondsOfValues(hours, minutes, seconds, h, m, sec);
  }

  /** `"01:05:30.50"` is 3930.5 seconds. */
  lemma OneHourFiveMinutes()
    ensures TimeToSeconds("01:05:30.50") == Some(Finite(3930.5))
  {
    ExampleClock();
    OneHour();
    FiveMinutes();
    HalfMinute();
    TimeOfValues("01", "05", "30.50", 1, 5, 30.5);
  }

  lemma DigitsParse(d: string, v: nat)
    requires d != [] && AllDigits(d, 10) && Value(d, 10) == v
    ensures ParseInt(d) == Some(v)
  {
    ParseIntDigits(d);
  }

  lemma ExampleClock()
    ensures "01:05:30.50" == Clock("01", "05", "30.50")
    ensures ':' !in "01" && ':' !in "05" && ':' !in "30.50"
  {
  }

  lemma OneHour()
    ensures ParseInt("01") == Some(1)
  {
    assert "01"[..1] == "0";
    assert Value("01", 10) == Value("0", 10) * 10 + 1;
    DigitsParse("01", 1);
  }

  lemma FiveMinutes()
    ensures ParseInt("05") == Some(5)
  {
    assert "05"[..1] == "0";
    assert Value("05", 10) == Value("0", 10) * 10 + 5;
    DigitsParse("05", 5);
  }

  lemma HalfMinute()
    ensures ParseFloat("30.50") == Some(30.5)
  {
    ThirtyFifty();
    DecimalParse("30", "50", 30.5);
  }

  lemma DecimalParse(whole: string, fraction: string, v: real)
    requires whole != [] && AllDigits(whole, 10) && AllDigits(fraction, 10)
    requires Decimal(Value(whole, 10), Value(fraction, 10), |fraction|) == v
    ensures ParseFloat(whole + "." + fraction) == Some(v)
  {
    ParseFloatDecimal(whole, fraction);
  }

  lemma ThirtyFifty()
    ensures "30.50" == "30" + "." + "50"
    ensures AllDigits("30", 10) && Value("30", 10) == 30
    ensures AllDigits("50", 10) && Value("50", 10) == 50
    ensures Decimal(30, 50, 2) == 30.5
  {
    assert Pow10(2) == 100;
    TwoDigitValue('3', '0');
    TwoDigitValue('5', '0');
    assert "30" == ['3', '0'] && "50" == ['5', '0'];
  }

  lemma TwoDigitValue(a: char, b: char)
    requires '0' <= a <= '9' && '0' <= b <= '9'
    ensures AllDigits([a, b], 10) && Value([a, b], 10) == (a as int - '0' as int) * 10 + (b as int - '0' as int)
  {
    assert [a, b][..1] == [a];
    assert [a][..0] == [];
    assert Value([a], 10) == DigitValue(a) == a as int - '0' as int;
    assert Value([a, b], 10) == Value([a], 10) * 10 + DigitValue(b);
  }

  /** A part with no digit makes the time `NaN`, which is not `null`. */
  lemma WordHoursGiveNaN()
    ensures TimeToSeconds("ab:05:30") == Some(NaN)
  {
    assert "ab:05:30" == Clock("ab", "05", "30");
    ClockSplits("ab", "05", "30");
    NoDigitNoInt("ab");
    TimeOfParts("ab:05:30", "ab", "05", "30");
  }

  lemma NoDigitNoInt(s: string)
    requires s != [] && 'a' <= s[0] <= 'z'
    ensures ParseInt(s) == None
  {
    assert !IsSpace(s[0]) && s[0] != '-' && s[0] != '+' && s[0] != '0';
    assert !IsDigit(s[0], 10);
    NoLeadingDigit(s);
  }

  /** A text whose first character is neither space, sign nor digit holds no integer. */
  lemma NoLeadingDigit(s: string)
    requires s != [] && !IsSpace(s[0]) && s[0] != '-' && s[0] != '+' && s[0] != '0' && !IsDigit(s[0], 10)
    ensures ParseInt(s) == None
  {
    assert [] + s == s;
    TrimStartSkips([], s);
    assert StripSign(TrimStart(s)) == (false, s);
    assert LeadingDigits(s, 10) == 0;
  }
}
