/** The opening-time fragment of the restaurant registration handler
    (api_server/meal.py): four "hh:mm:ss" texts are read with
    `map(int, origin.split(':'))`, the seconds dropped, and written back as
    `[[lunch_start, lunch_end], [dinner_start, dinner_end]]` with a 12-hour clock. A
    start hour is labelled "오전" (morning) or "오후" (afternoon); an end hour is not. */
module MealTime {
  import opened Wrappers
  import opened Errors
  import opened PyStrings

  // ---------------------------------------------------------------- int()

  predicate AllDigits(s: string) {
    forall i | 0 <= i < |s| :: IsDigit(s[i])
  }

  /** The texts `int()` reads here: an optional sign and one or more decimal digits. */
  predicate IntLiteral(s: string) {
    if |s| > 0 && (s[0] == '-' || s[0] == '+') then |s| > 1 && AllDigits(s[1..])
    else |s| > 0 && AllDigits(s)
  }

  function InvalidLiteral(s: string): string {
    "invalid literal for int() with base 10: '" + s + "'"
  }

  /** `int(s)`. */
  function PyInt(s: string): (r: Result<int, Error>)
    ensures r.Success? <==> IntLiteral(s)
    ensures r.Failure? ==> r.error == ValueError(InvalidLiteral(s))
    ensures r.Success? && AllDigits(s) ==> r.value == DigitsValue(s)
  {
    if |s| > 0 && (s[0] == '-' || s[0] == '+') then
      if |s| > 1 && AllDigits(s[1..]) then
        var v: int := DigitsValue(s[1..]);
        Success(if s[0] == '-' then -v else v)
      else Failure(ValueError(InvalidLiteral(s)))
    else if |s| > 0 && AllDigits(s) then Success(DigitsValue(s))
    else Failure(ValueError(InvalidLiteral(s)))
  }

  /** `int(str(n)) == n`. */
  lemma PyIntRoundTrip(n: int)
    ensures PyInt(IntToString(n)) == Success(n)
  {
    if n < 0 {
      NatToStringRoundTrip(-n);
      assert IntToString(n)[1..] == NatToString(-n);
    } else {
      NatToStringRoundTrip(n);
    }
  }

  // ---------------------------------------------------------------- clocks

  function NotEnoughValues(got: nat): string {
    "not enough values to unpack (expected 3, got " + NatToString(got) + ")"
  }

  const TooManyValues := "too many values to unpack (expected 3)"

  /** `h, m, _ = map(int, origin.split(':'))`: the unpacking converts the pieces in
      order, at most four of them, and then complains about their number. */
  function ParseClock(origin: string): (r: Result<(int, int), Error>)
    ensures var parts := Split(origin, ':');
      r.Success? <==> |parts| == 3 && IntLiteral(parts[0]) && IntLiteral(parts[1]) && IntLiteral(parts[2])
    ensures r.Failure? ==> r.error.ValueError?
    ensures var parts := Split(origin, ':');
      r.Success? ==> r.value == (PyInt(parts[0]).value, PyInt(parts[1]).value)
  {
    var parts := Split(origin, ':');
    var h :- PyInt(parts[0]);
    var m :- if |parts| > 1 then PyInt(parts[1]) else Failure(ValueError(NotEnoughValues(1)));
    var _ :- if |parts| > 2 then PyInt(parts[2]) else Failure(ValueError(NotEnoughValues(2)));
    if |parts| > 3 then
      var _ :- PyInt(parts[3]);
      Failure(ValueError(TooManyValues))
    else Success((h, m))
  }

  /** A clock reading as the registration form sends it. */
  datatype Clock = Clock(hours: int, minutes: int, seconds: int) {
    function Text(): string {
      IntToString(hours) + ":" + IntToString(minutes) + ":" + IntToString(seconds)
    }
  }

  /** `str(n)` never holds a colon. */
  lemma NoColon(n: int)
    ensures ':' !in IntToString(n)
  {
    var s := IntToString(n);
    if n < 0 {
      assert s == "-" + NatToString(-n);
      forall i | 0 <= i < |s| ensures s[i] != ':' {
        if i > 0 { assert s[i] == NatToString(-n)[i - 1]; }
      }
    }
  }

  /** Reading a clock gives back its hours and minutes, whatever its seconds. */
  lemma ParseClockRoundTrip(c: Clock)
    ensures ParseClock(c.Text()) == Success((c.hours, c.minutes))
  {
    var h := IntToString(c.hours);
    var m := IntToString(c.minutes);
    var s := IntToString(c.seconds);
    NoColon(c.hours);
    NoColon(c.minutes);
    NoColon(c.seconds);
    assert c.Text() == h + ([':'] + (m + ([':'] + s)));
    SplitAfterPiece(h, m + ([':'] + s), ':');
    SplitAfterPiece(m, s, ':');
    SplitWithoutSeparator(s, ':');
    PyIntRoundTrip(c.hours);
    PyIntRoundTrip(c.minutes);
    PyIntRoundTrip(c.seconds);
  }

  // ---------------------------------------------------------------- labels

  const Morning := "오전 "
  const Afternoon := "오후 "

  /** A start hour: past 12 it is counted from noon and labelled afternoon; 12 itself
      and every earlier hour are labelled morning. Both are padded to two digits. */
  function StartLabel(h: int): (s: string)
    ensures |s| >= 5
    ensures h > 12 ==> s[..3] == Afternoon
    ensures h <= 12 ==> s[..3] == Morning
  {
    if h > 12 then Afternoon + ZFill(IntToString(h - 12), 2)
    else Morning + ZFill(IntToString(h), 2)
  }

  /** An end hour: counted from noon past 12, padded to two digits, with no label. */
  function EndLabel(h: int): (s: string)
    ensures |s| >= 2
  {
    ZFill(IntToString(if h > 12 then h - 12 else h), 2)
  }

  /** Reading a start label back: its half of the day and its hour. */
  function ParseStartLabel(s: string): (h: Option<int>)
    ensures h.Some? ==> |s| > 3 && AllDigits(s[3..])
  {
    if |s| <= 3 || !AllDigits(s[3..]) then None
    else if s[..3] == Afternoon then Some(DigitsValue(s[3..]) + 12)
    else if s[..3] == Morning then Some(DigitsValue(s[3..]))
    else None
  }

  /** `str(n).zfill(2)` of an hour below 100 is all digits and denotes it. */
  lemma PaddedHour(n: nat)
    requires n < 100
    ensures AllDigits(ZFill(IntToString(n), 2)) && DigitsValue(ZFill(IntToString(n), 2)) == n
  {
    var s := NatToString(n);
    NatToStringRoundTrip(n);
    if n < 10 {
      var z := ZFill(s, 2);
      assert z == ['0'] + s;
      assert z[..1] == ['0'] && z[..0] == [];
    }
  }

  /** Every start hour of a day reads back from its label, so no two hours share one. */
  lemma StartLabelRoundTrip(h: int)
    requires 0 <= h <= 23
    ensures ParseStartLabel(StartLabel(h)) == Some(h)
  {
    var n := if h > 12 then h - 12 else h;
    PaddedHour(n);
    var s := StartLabel(h);
    assert s[3..] == ZFill(IntToString(n), 2);
    assert Afternoon != Morning by { assert Afternoon[1] != Morning[1]; }
  }

  /** Distinct hours of a day get distinct start labels. */
  lemma StartLabelInjective(a: int, b: int)
    requires 0 <= a <= 23 && 0 <= b <= 23
    requires StartLabel(a) == StartLabel(b)
    ensures a == b
  {
    StartLabelRoundTrip(a);
    StartLabelRoundTrip(b);
  }

  /** Noon is labelled morning, and one o'clock in the afternoon "오후 01". */
  lemma NoonIsMorning()
    ensures StartLabel(12) == Morning + "12"
    ensures StartLabel(13) == Afternoon + "01"
  {
    assert NatToString(12) == "12" by { assert NatToString(1) == "1"; }
    assert NatToString(1) == "1";
  }

  /** An end label denotes the hour counted from noon, so the morning and the afternoon
      hour with the same count share it. */
  lemma EndLabelValue(h: int)
    requires 0 <= h <= 23
    ensures AllDigits(EndLabel(h)) && DigitsValue(EndLabel(h)) == if h > 12 then h - 12 else h
    ensures 1 <= h <= 11 ==> EndLabel(h + 12) == EndLabel(h)
  {
    PaddedHour(if h > 12 then h - 12 else h);
  }

  // ---------------------------------------------------------- opening time

  /** `f"{hours}:{minutes}"`: the minutes as a plain int, without padding. */
  function Shown(hours: string, minutes: int): string {
    hours + ":" + IntToString(minutes)
  }

  /** `opening_time`: the four readings are taken in order (the first one that fails
      raises), then written as `[[lunch_start, lunch_end], [dinner_start, dinner_end]]`. */
  function OpeningTime(lunchStart: string, lunchEnd: string, dinnerStart: string, dinnerEnd: string)
    : (r: Result<seq<seq<string>>, Error>)
    ensures r.Success? <==> ParseClock(lunchStart).Success? && ParseClock(lunchEnd).Success?
                            && ParseClock(dinnerStart).Success? && ParseClock(dinnerEnd).Success?
    ensures ParseClock(lunchStart).Failure? ==> r == Failure(ParseClock(lunchStart).error)
    ensures r.Success? ==> |r.value| == 2 && |r.value[0]| == 2 && |r.value[1]| == 2
  {
    var ls :- ParseClock(lunchStart);
    var le :- ParseClock(lunchEnd);
    var ds :- ParseClock(dinnerStart);
    var de :- ParseClock(dinnerEnd);
    Success([[Shown(StartLabel(ls.0), ls.1), Shown(EndLabel(le.0), le.1)],
             [Shown(StartLabel(ds.0), ds.1), Shown(EndLabel(de.0), de.1)]])
  }

  /** Four clock readings come out as the labelled hours and the plain minutes, their
      seconds dropped; each start hour of a day can be read back from its cell. */
  lemma OpeningTimeOfClocks(ls: Clock, le: Clock, ds: Clock, de: Clock)
    ensures OpeningTime(ls.Text(), le.Text(), ds.Text(), de.Text())
         == Success([[Shown(StartLabel(ls.hours), ls.minutes), Shown(EndLabel(le.hours), le.minutes)],
                     [Shown(StartLabel(ds.hours), ds.minutes), Shown(EndLabel(de.hours), de.minutes)]])
    ensures OpeningTime(ls.Text(), le.Text(), ds.Text(), de.Text())
         == OpeningTime(ls.(seconds := 0).Text(), le.(seconds := 0).Text(), ds.(seconds := 0).Text(), de.(seconds := 0).Text())
  {
    ParseClockRoundTrip(ls);
    ParseClockRoundTrip(le);
    ParseClockRoundTrip(ds);
    ParseClockRoundTrip(de);
    ParseClockRoundTrip(ls.(seconds := 0));
    ParseClockRoundTrip(le.(seconds := 0));
    ParseClockRoundTrip(ds.(seconds := 0));
    ParseClockRoundTrip(de.(seconds := 0));
  }
}
