/** `calc.py`: the rest-day oracle `RestDay` over one year's holiday table,
    and the yearly re-keying of lunar New Year's Eve in the lunar festival
    table. */
module Calc {
  import opened Wrappers
  import opened Dates
  import opened DateText
  import opened LunarCalendar
  import opened FestivalTables

  /** One holiday-table record; only `isOffDay` is read. */
  datatype DayInfo = DayInfo(isOffDay: bool)

  /** A year's holiday table as the holiday service returns it, keyed by
      `'%Y-%m-%d'` text. An empty table is what `update` returns when the
      service fails. */
  type HolidayTable = map<string, DayInfo>

  /** What `query` answers: `节假日`, `调休日`, `休息日` or `工作日`. */
  datatype DayKind = Holiday | MakeUpWorkday | Weekend | Workday

  /** Lines 55 and 59: every key parsed with `strptime`; one unparsable key
      raises. The parsed dates are exactly the dates whose text is a key. */
  function HolidayDates(h: HolidayTable): (r: Option<set<Date>>)
    ensures r.Some? <==> forall k :: k in h ==> ParseIso(k).Some?
    ensures r.Some? ==> forall d: Date :: d in r.value <==> exists k :: k in h && ParseIso(k) == Some(d)
    ensures r.Some? ==> forall d: Date :: d in r.value <==> FormatIso(d) in h
    ensures r.Some? ==> |r.value| == |h|
  {
    if forall k :: k in h ==> ParseIso(k).Some? then
      var dates := set k | k in h :: ParseIso(k).value;
      forall d: Date | FormatIso(d) in h
        ensures d in dates
      {
        ParseFormatIso(d);
      }
      forall d: Date | d in dates
        ensures FormatIso(d) in h
      {
        FormattedDateIsKey(h, dates, d);
      }
      SameSize(h, dates);
      Some(dates)
    else None
  }

  lemma KeyIsFormattedDate(h: HolidayTable, dates: set<Date>, k: string)
    requires forall k :: k in h ==> ParseIso(k).Some?
    requires dates == set k | k in h :: ParseIso(k).value
    requires k in h
    ensures ParseIso(k).value in dates && k == FormatIso(ParseIso(k).value)
  {
    ParseIsoCanonical(k, ParseIso(k).value);
  }

  lemma FormattedDateIsKey(h: HolidayTable, dates: set<Date>, d: Date)
    requires forall k :: k in h ==> ParseIso(k).Some?
    requires dates == set k | k in h :: ParseIso(k).value
    requires d in dates
    ensures FormatIso(d) in h
  {
    var k :| k in h && ParseIso(k).value == d;
    ParseIsoCanonical(k, d);
  }

  /** The keys are exactly the texts of the parsed dates. */
  lemma KeysAreFormattedDates(h: HolidayTable, dates: set<Date>)
    requires forall k :: k in h ==> ParseIso(k).Some?
    requires dates == set k | k in h :: ParseIso(k).value
    ensures h.Keys == set d | d in dates :: FormatIso(d)
  {
    var images := set d | d in dates :: FormatIso(d);
    forall k | k in h.Keys
      ensures k in images
    {
      KeyIsFormattedDate(h, dates, k);
    }
    forall d | d in dates
      ensures FormatIso(d) in h.Keys
    {
      FormattedDateIsKey(h, dates, d);
    }
    assert h.Keys <= images;
    assert images <= h.Keys;
  }

  /** Parsing is one-to-one on the keys, so no two keys give the same date. */
  lemma SameSize(h: HolidayTable, dates: set<Date>)
    requires forall k :: k in h ==> ParseIso(k).Some?
    requires dates == set k | k in h :: ParseIso(k).value
    ensures |dates| == |h|
  {
    KeysAreFormattedDates(h, dates);
    FormatInjectiveSize(dates);
    assert |h| == |h.Keys|;
  }

  lemma {:induction false} FormatInjectiveSize(dates: set<Date>)
    ensures |set d | d in dates :: FormatIso(d)| == |dates|
    decreases |dates|
  {
    if dates != {} {
      var d :| d in dates;
      var rest := dates - {d};
      FormatInjectiveSize(rest);
      var images := set e | e in dates :: FormatIso(e);
      var restImages := set e | e in rest :: FormatIso(e);
      assert images == restImages + {FormatIso(d)};
      if FormatIso(d) in restImages {
        var e :| e in rest && FormatIso(e) == FormatIso(d);
        ParseFormatIso(d);
        ParseFormatIso(e);
        assert false;
      }
    }
  }

  /** A `RestDay` after construction: `now` at midnight, the table for its
      year, and the parsed holiday dates. */
  datatype RestDay = RestDay(now: Date, holidays: HolidayTable, holidayDates: set<Date>)

  predicate WellFormed(rd: RestDay) {
    HolidayDates(rd.holidays) == Some(rd.holidayDates)
  }

  /** Lines 38-43 with the table supplied: `None` when a key cannot be parsed. */
  function NewRestDay(now: Instant, h: HolidayTable): (r: Option<RestDay>)
    ensures r.Some? <==> HolidayDates(h).Some?
    ensures r.Some? ==> WellFormed(r.value) && r.value.now == now.date && r.value.holidays == h
  {
    match HolidayDates(h)
    case None => None
    case Some(dates) => Some(RestDay(now.date, h, dates))
  }

  /** Line 106: the day asked about at midnight, `now` by default. */
  function QueryDay(rd: RestDay, q: Option<Instant>): Date {
    if q.Some? then q.value.date else rd.now
  }

  /** Lines 100-115: a date in the holiday table is a holiday when its
      record says `isOffDay`, otherwise a make-up workday; any other date is
      a rest day on Saturday or Sunday and a workday otherwise. */
  function Query(rd: RestDay, q: Option<Instant>): (k: DayKind)
    requires WellFormed(rd)
    ensures var d := QueryDay(rd, q);
      && (k == Holiday || k == MakeUpWorkday <==> FormatIso(d) in rd.holidays)
      && (k == Holiday <==> FormatIso(d) in rd.holidays && rd.holidays[FormatIso(d)].isOffDay)
      && (k == Weekend <==> FormatIso(d) !in rd.holidays && Weekday(d) >= 5)
  {
    var d := QueryDay(rd, q);
    if d in rd.holidayDates then
      if rd.holidays[FormatIso(d)].isOffDay then Holiday else MakeUpWorkday
    else if Weekday(d) in [5, 6] then Weekend
    else Workday
  }

  /** With the empty table a failed update leaves, only the weekday counts. */
  lemma EmptyTableUsesWeekdayOnly(now: Instant, q: Option<Instant>)
    ensures NewRestDay(now, map[]).Some?
    ensures var rd := NewRestDay(now, map[]).value;
      Query(rd, q) == (if Weekday(QueryDay(rd, q)) >= 5 then Weekend else Workday)
  {
  }

  /** The key of lunar New Year's Eve for a twelfth month of `length` days:
      "12" followed by the day count, 1229 or 1230. */
  function NewYearsEveKey(length: MonthLength): (k: int)
    ensures k / 100 == 12 && k % 100 == length
    ensures 1229 <= k <= 1230
  {
    1200 + length
  }

  /** Lines 69-72 on the insertion-ordered lunar table: when `key` is absent,
      the last-inserted entry is popped and its names re-inserted under `key`;
      `popitem` on an empty table raises. */
  function RekeyNewYearsEve(t: Table, key: int): (r: Option<Table>)
    requires DistinctKeys(t)
    ensures key in KeyList(t) ==> r == Some(t)
    ensures key !in KeyList(t) ==> (r.None? <==> |t| == 0)
    ensures r.Some? ==> |r.value| == |t| && DistinctKeys(r.value) && key in KeyList(r.value)
    ensures r.Some? && key !in KeyList(t) ==>
      && r.value[..|t| - 1] == t[..|t| - 1]
      && r.value[|t| - 1] == (key, t[|t| - 1].1)
  {
    if key in KeyList(t) then Some(t)
    else if |t| == 0 then None
    else
      var r := t[..|t| - 1] + [(key, t[|t| - 1].1)];
      assert KeyList(r)[|t| - 1] == key;
      Some(r)
  }

  /** Re-keying twice for the same year changes nothing the second time. */
  lemma RekeyIdempotent(t: Table, key: int)
    requires DistinctKeys(t) && RekeyNewYearsEve(t, key).Some?
    ensures RekeyNewYearsEve(RekeyNewYearsEve(t, key).value, key) == RekeyNewYearsEve(t, key)
  {
  }

  /** The yearly update: the eve's key for the lunar year `year`. */
  function UpdateLunarTable(t: Table, conv: Converter, year: int): (r: Option<Table>)
    requires DistinctKeys(t)
    ensures r.Some? ==> NewYearsEveKey(conv.twelfthMonthLength(year)) in KeyList(r.value)
    ensures r.Some? ==> |r.value| == |t|
  {
    RekeyNewYearsEve(t, NewYearsEveKey(conv.twelfthMonthLength(year)))
  }
}
