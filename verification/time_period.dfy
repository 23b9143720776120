/** `TimePeriodSensor._time_period` and `get_datetime`: the label of the
    first configured period that contains the current time. Times are whole
    minutes after local midnight. */
module TimePeriod {
  import opened Wrappers

  const MinutesPerDay: int := 1440

  /** A period boundary: the day's sunrise or sunset, or a fixed "HH:MM". */
  datatype Endpoint = Sunrise | Sunset | Clock(hour: int, minute: int)

  datatype Period = Period(start: Endpoint, end: Endpoint, name: string)

  /** Today's sunrise and sunset, in minutes after midnight. */
  datatype Sun = Sun(sunrise: int, sunset: int)

  datatype Classification =
    | Initialising
    | InPeriod(name: string, start: int, end: int)
    | NoPeriod

  /** A "HH:MM" text `strptime` accepts. */
  predicate ValidClock(e: Endpoint)
    requires e.Clock?
  {
    0 <= e.hour < 24 && 0 <= e.minute < 60
  }

  /** Lines 345-351: a sun event is taken as stored; a clock time is today's
      date with that hour and minute and zero seconds, a minute of the day
      from which hour and minute are read back. */
  function Resolve(e: Endpoint, sun: Sun): (r: int)
    ensures e.Sunrise? ==> r == sun.sunrise
    ensures e.Sunset? ==> r == sun.sunset
    ensures e.Clock? && ValidClock(e) ==> 0 <= r < MinutesPerDay && r / 60 == e.hour && r % 60 == e.minute
  {
    match e
    case Sunrise => sun.sunrise
    case Sunset => sun.sunset
    case Clock(h, m) => h * 60 + m
  }

  /** Lines 335-338: the interval `[s, e)` of a period, where an end before
      its start is moved to the next day. */
  function Bounds(p: Period, sun: Sun): (b: (int, int))
    ensures b.0 == Resolve(p.start, sun)
    ensures b.1 == Resolve(p.end, sun) || b.1 == Resolve(p.end, sun) + MinutesPerDay
    ensures 0 <= Resolve(p.start, sun) < MinutesPerDay && 0 <= Resolve(p.end, sun) < MinutesPerDay
      ==> b.0 <= b.1 < b.0 + MinutesPerDay
  {
    var s := Resolve(p.start, sun);
    var e := Resolve(p.end, sun);
    (s, if e < s then e + MinutesPerDay else e)
  }

  predicate Covers(p: Period, sun: Sun, now: int) {
    Bounds(p, sun).0 <= now < Bounds(p, sun).1
  }

  /** Lines 328-343: no sun data yet gives `初始化中`; otherwise the first
      period whose interval holds `now` names the state, and when none does
      the state is `未知错误`. */
  method Classify(periods: seq<Period>, sun: Option<Sun>, now: int) returns (r: Classification)
    ensures sun.None? <==> r.Initialising?
    ensures sun.Some? ==> (r.NoPeriod? <==> forall i :: 0 <= i < |periods| ==> !Covers(periods[i], sun.value, now))
    ensures r.InPeriod? ==>
      exists i :: 0 <= i < |periods| && IsFirstCover(periods, sun.value, now, i) && IsReported(r, periods[i], sun.value)
  {
    if sun.None? {
      return Initialising;
    }
    var i := 0;
    while i < |periods|
      invariant 0 <= i <= |periods|
      invariant forall j :: 0 <= j < i ==> !Covers(periods[j], sun.value, now)
    {
      var b := Bounds(periods[i], sun.value);
      if b.0 <= now < b.1 {
        assert IsFirstCover(periods, sun.value, now, i);
        return InPeriod(periods[i].name, b.0, b.1);
      }
      i := i + 1;
    }
    return NoPeriod;
  }

  /** `r` names period `p` and carries its interval. */
  predicate IsReported(r: Classification, p: Period, sun: Sun)
    requires r.InPeriod?
  {
    r.name == p.name && (r.start, r.end) == Bounds(p, sun)
  }

  /** Period `i` holds `now` and no earlier period does. */
  predicate IsFirstCover(periods: seq<Period>, sun: Sun, now: int, i: int)
    requires 0 <= i < |periods|
  {
    Covers(periods[i], sun, now) && forall j :: 0 <= j < i ==> !Covers(periods[j], sun, now)
  }

  /** A period ending at midnight ("23:00" to "0:00") covers the last hour of
      the day, while a period wrapping past midnight ("22:00" to "6:00")
      never covers the early morning: `now` is not shifted. */
  lemma WrappedPeriodMissesEarlyMorning(p: Period, sun: Sun, now: int)
    requires 0 <= Resolve(p.start, sun) < MinutesPerDay && 0 <= Resolve(p.end, sun) < MinutesPerDay
    requires Resolve(p.end, sun) < Resolve(p.start, sun)
    requires 0 <= now < Resolve(p.start, sun)
    ensures !Covers(p, sun, now)
  {
  }
}
