/** The lunar calendar library the integration calls, as an abstract
    converter: its three entry points are fields of a value the caller
    supplies, so every property proved below holds for any converter. */
module LunarCalendar {
  import opened Wrappers
  import opened Dates

  /** A lunar (month, day) as `Lunar.getMonth()`/`getDay()` report it: the
      month is negative for a leap month. */
  type LunarMonthDay = p: (int, int)
    | (1 <= p.0 <= 12 || -12 <= p.0 <= -1) && 1 <= p.1 <= 30
    witness (1, 1)

  /** Length of a lunar month: 29 or 30 days. */
  type MonthLength = n: int | 29 <= n <= 30 witness 29

  datatype Converter = Converter(
    /** `Lunar.fromYmd(y, m, d).getSolar()`; `None` when the lunar date does
        not exist (the library raises). */
    toSolar: (int, int, int) -> Option<SolarDate>,
    /** `Lunar.fromDate(d)` read as (month, day). */
    toLunar: Date -> LunarMonthDay,
    /** The day count of `LunarMonth.fromYm(y, 12)`. */
    twelfthMonthLength: int -> MonthLength)

  /** Whether `Lunar(y, m, d, 0, 0, 0)` can be constructed. */
  predicate LunarDateExists(conv: Converter, y: int, m: int, d: int) {
    conv.toSolar(y, m, d).Some?
  }

  /** The solar date of lunar (y, m, d), read back through
      `strptime(...toString(), '%Y-%m-%d')`: `None` when the library raises
      or its answer is not a date Python accepts. */
  function LunarToSolar(conv: Converter, y: int, m: int, d: int): (r: Option<Date>)
    ensures r.Some? ==> LunarDateExists(conv, y, m, d) && conv.toSolar(y, m, d).value == r.value
    ensures r.None? ==> !LunarDateExists(conv, y, m, d) || !IsValid(conv.toSolar(y, m, d).value)
  {
    match conv.toSolar(y, m, d)
    case None => None
    case Some(s) => if IsValid(s) then Some(s) else None
  }
}

/** A concrete converter used to exhibit behaviour on named inputs: lunar
    month m (1..11) day d (1..28) falls on solar month m + 1 of the same year,
    lunar month 12 on January of the next year; nothing else exists. */
module SampleCalendar {
  import opened Wrappers
  import opened Dates
  import opened LunarCalendar

  function ShiftedToSolar(y: int, m: int, d: int): Option<SolarDate> {
    if 1 <= m <= 11 && 1 <= d <= 28 then Some(SolarDate(y, m + 1, d))
    else if m == 12 && 1 <= d <= 28 then Some(SolarDate(y + 1, 1, d))
    else None
  }

  function Shifted(): Converter {
    Converter(
      (y: int, m: int, d: int) => ShiftedToSolar(y, m, d),
      (s: Date) => (1, 1),
      (y: int) => 30)
  }

  /** As `ShiftedToSolar`, with a lunar 12-30 on January 30 of the next year
      in every lunar year except 2024, whose twelfth month has 29 days. */
  function GappedToSolar(y: int, m: int, d: int): Option<SolarDate> {
    if m == 12 && d == 30 then (if y == 2024 then None else Some(SolarDate(y + 1, 1, 30)))
    else ShiftedToSolar(y, m, d)
  }

  function Gapped(): Converter {
    Converter(
      (y: int, m: int, d: int) => GappedToSolar(y, m, d),
      (s: Date) => (1, 1),
      (y: int) => if y == 2024 then 29 else 30)
  }
}
