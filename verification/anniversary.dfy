/** The anniversary part of `DateCoordinator`: the next occurrence of an
    anniversary (`_next_day`), the facts derived from it
    (`get_anni_attributes`) and the pick of the nearest one in
    `_fetch_holidays`. */
module Anniversary {
  import opened Wrappers
  import opened Dates
  import opened DateText
  import opened LunarCalendar
  import SampleCalendar

  const SolarType: string := "阳历"
  const LunarType: string := "阴历"
  const MemorialType: string := "纪念日"
  const MemorialSuffix: string := "周年纪念日"
  const BirthdaySuffix: string := "岁生日"

  /** One configured anniversary, as the configuration step stores it. */
  datatype Entry = Entry(name: string, dateType: string, anniversaryType: string, date: string)

  /** The `hint` attribute: a string for a memorial day, but a one-element
      tuple for a birthday (the trailing comma of line 199). */
  datatype Hint = Text(text: string) | OneTuple(text: string)

  datatype Fact = Fact(
    name: string,
    hint: Hint,
    isSolar: bool,
    origin: Date,
    next: Date,
    age: int,
    daysLeft: int,
    days: int)

  /** The solar date with `origin`'s month and day in year `y`, if it exists. */
  function InYear(origin: Date, y: int): SolarDate {
    SolarDate(y, origin.month, origin.day)
  }

  /** Lines 225-229: `origin.replace(year=today.year)`, or the next year's
      when that is before today. `replace` raises for February 29 outside a
      leap year and beyond year 9999, shown here as `None`. */
  function NextSolar(origin: Date, today: Date): (r: Option<Date>)
    ensures r.Some? ==> r.value.month == origin.month && r.value.day == origin.day
    ensures r.Some? ==> !Before(r.value, today)
    ensures r.Some? ==> r.value.year == today.year || r.value.year == today.year + 1
    ensures r.Some? ==> (r.value.year == today.year + 1 <==> Before(InYear(origin, today.year), today))
    ensures r.Some? ==> forall y :: IsValid(InYear(origin, y)) && !Before(InYear(origin, y), today) ==> r.value.year <= y
    ensures r.None? ==> (origin.month == 2 && origin.day == 29) || today.year == MaxYear
    ensures !(origin.month == 2 && origin.day == 29) && today.year < MaxYear ==> r.Some?
  {
    var same := InYear(origin, today.year);
    if !IsValid(same) then None
    else if Before(same, today) then
      var later := InYear(origin, today.year + 1);
      if IsValid(later) then Some(later) else None
    else Some(same)
  }

  /** A February 29 solar anniversary cannot be re-dated into a common year. */
  lemma LeapDayOriginFailsInCommonYear(origin: Date, today: Date)
    requires origin.month == 2 && origin.day == 29 && !IsLeapYear(today.year)
    ensures NextSolar(origin, today).None?
  {
  }

  /** Lines 231-240 as written: the lunar month-day converted in lunar year
      `today.year`; when that is before today the next lunar year's date is
      taken, when it is after today the previous lunar year's, unchecked;
      only a conversion landing on today itself is kept. */
  function NextLunarAsWritten(conv: Converter, month: int, day: int, today: Date): (r: Option<Date>)
    ensures LunarToSolar(conv, today.year, month, day).None? ==> r.None?
    ensures LunarToSolar(conv, today.year, month, day) == Some(today) ==> r == Some(today)
    ensures r.Some? ==>
              || r == Some(today)
              || r == LunarToSolar(conv, today.year + 1, month, day)
              || r == LunarToSolar(conv, today.year - 1, month, day)
    ensures LunarToSolar(conv, today.year, month, day).Some?
      && Before(LunarToSolar(conv, today.year, month, day).value, today)
      ==> r == LunarToSolar(conv, today.year + 1, month, day)
    ensures LunarToSolar(conv, today.year, month, day).Some?
      && Before(today, LunarToSolar(conv, today.year, month, day).value)
      ==> r == LunarToSolar(conv, today.year - 1, month, day)
  {
    match LunarToSolar(conv, today.year, month, day)
    case None => None
    case Some(s) =>
      if Before(s, today) then LunarToSolar(conv, today.year + 1, month, day)
      else if Before(today, s) then LunarToSolar(conv, today.year - 1, month, day)
      else Some(s)
  }

  /** A candidate that exists and is not before today. */
  predicate Upcoming(c: Option<Date>, today: Date) {
    c.Some? && !Before(c.value, today)
  }

  function KeepUpcoming(c: Option<Date>, today: Date): (r: Option<Date>)
    ensures r.Some? <==> Upcoming(c, today)
    ensures r.Some? ==> r == c
  {
    if Upcoming(c, today) then c else None
  }

  function Earlier(a: Option<Date>, b: Option<Date>): (r: Option<Date>)
    ensures r.None? <==> a.None? && b.None?
    ensures r == a || r == b
    ensures a.Some? ==> !Before(a.value, r.value)
    ensures b.Some? ==> !Before(b.value, r.value)
  {
    if a.None? then b
    else if b.None? then a
    else if Before(b.value, a.value) then b
    else a
  }

  /** The candidates of the three lunar years around `today.year`. */
  function Candidates(conv: Converter, month: int, day: int, today: Date): seq<Option<Date>> {
    [LunarToSolar(conv, today.year - 1, month, day),
     LunarToSolar(conv, today.year, month, day),
     LunarToSolar(conv, today.year + 1, month, day)]
  }

  /** The next lunar anniversary as the comments of lines 231 and 237 intend
      it: of the conversions in lunar years `today.year - 1`, `today.year`
      and `today.year + 1`, the earliest that is not before today. A lunar
      date missing in one of those years is skipped, not raised. */
  function NextLunar(conv: Converter, month: int, day: int, today: Date): (r: Option<Date>)
    ensures r.Some? ==> !Before(r.value, today)
    ensures r.Some? ==> r in Candidates(conv, month, day, today)
    ensures forall i :: 0 <= i < 3 && Upcoming(Candidates(conv, month, day, today)[i], today) ==>
      r.Some? && !Before(Candidates(conv, month, day, today)[i].value, r.value)
    ensures r.None? <==> forall i :: 0 <= i < 3 ==> !Upcoming(Candidates(conv, month, day, today)[i], today)
  {
    var c := Candidates(conv, month, day, today);
    Earlier(Earlier(KeepUpcoming(c[0], today), KeepUpcoming(c[1], today)), KeepUpcoming(c[2], today))
  }

  /** With a converter whose lunar dates fall a month after the same solar
      month, a lunar 8-15 anniversary seen on 2024-06-01 converts to
      2024-09-15, after today; the as-written retry then returns 2023-09-15,
      a date already past, where the earliest upcoming one is 2024-09-15. */
  lemma AsWrittenLunarNextIsInThePast()
    ensures NextLunarAsWritten(SampleCalendar.Shifted(), 8, 15, SolarDate(2024, 6, 1)) == Some(SolarDate(2023, 9, 15))
    ensures Before(SolarDate(2023, 9, 15), SolarDate(2024, 6, 1))
    ensures NextLunar(SampleCalendar.Shifted(), 8, 15, SolarDate(2024, 6, 1)) == Some(SolarDate(2024, 9, 15))
  {
    var conv := SampleCalendar.Shifted();
    assert LunarToSolar(conv, 2023, 8, 15) == Some(SolarDate(2023, 9, 15));
    assert LunarToSolar(conv, 2024, 8, 15) == Some(SolarDate(2024, 9, 15));
    assert LunarToSolar(conv, 2025, 8, 15) == Some(SolarDate(2025, 9, 15));
  }

  /** The three candidates come in calendar order, as lunar years do. */
  predicate Chronological(c: seq<Option<Date>>)
    requires |c| == 3
  {
    forall i, j :: 0 <= i < j < 3 && c[i].Some? && c[j].Some? ==> Before(c[i].value, c[j].value)
  }

  /** Whenever the as-written rule does return a date that is not past, it
      is the date the corrected rule returns. */
  lemma AsWrittenAgreesWhenUpcoming(conv: Converter, month: int, day: int, today: Date)
    requires Chronological(Candidates(conv, month, day, today))
    requires Upcoming(NextLunarAsWritten(conv, month, day, today), today)
    ensures NextLunar(conv, month, day, today) == NextLunarAsWritten(conv, month, day, today)
  {
    var c := Candidates(conv, month, day, today);
    var w := NextLunarAsWritten(conv, month, day, today).value;
    var r := NextLunar(conv, month, day, today);
    assert c[1].Some?;
    if c[1].value == today {
      assert !Before(w, r.value);
    } else if Before(c[1].value, today) {
      assert w == c[2].value;
      assert !Upcoming(c[0], today);
      assert !Upcoming(c[1], today);
    } else {
      assert w == c[0].value;
      assert Upcoming(c[0], today);
    }
  }

  /** Lines 196-199: "<name><age>周年纪念日" for a memorial day, otherwise the
      one-element tuple ("<name><date type><age>岁生日",). */
  function HintFor(e: Entry, age: int): (h: Hint)
    ensures h.Text? <==> e.anniversaryType == MemorialType
    ensures h.Text? ==> h.text == e.name + IntText(age) + MemorialSuffix
    ensures h.OneTuple? ==> h.text == e.name + e.dateType + IntText(age) + BirthdaySuffix
  {
    if e.anniversaryType == MemorialType then Text(e.name + IntText(age) + MemorialSuffix)
    else OneTuple(e.name + e.dateType + IntText(age) + BirthdaySuffix)
  }

  /** Lines 186-215 once the next occurrence `n` of `origin` is known: the
      age counts years from the origin's year to the next occurrence's, and
      the two day counts measure from today, signed as Python's `.days`. */
  function FactOf(e: Entry, origin: Date, n: Date, today: Date): (f: Fact)
    ensures f.name == e.name + e.anniversaryType
    ensures f.isSolar == (e.dateType == SolarType)
    ensures f.origin == origin && f.next == n
    ensures f.age == n.year - origin.year
    ensures f.hint.Text? <==> e.anniversaryType == MemorialType
    ensures f.hint == HintFor(e, f.age)
    ensures f.daysLeft == DaysBetween(today, n)
    ensures f.daysLeft < 0 <==> Before(n, today)
    ensures f.daysLeft == 0 <==> n == today
    ensures f.days == DaysBetween(origin, today)
    ensures f.days < 0 <==> Before(today, origin)
  {
    var age := n.year - origin.year;
    OrdinalOrder(today, n);
    OrdinalOrder(n, today);
    OrdinalOrder(origin, today);
    OrdinalOrder(today, origin);
    Fact(e.name + e.anniversaryType, HintFor(e, age), e.dateType == SolarType, origin, n, age,
         DaysBetween(today, n), DaysBetween(origin, today))
  }

  /** Lines 183-215 with the corrected lunar rule: the origin is the
      configured text read by `strptime('%Y%m%d')`, the next occurrence comes
      from the solar rule or the corrected lunar rule, so it is never past. */
  function AnniversaryFacts(e: Entry, now: Instant, conv: Converter): (r: Option<Fact>)
    ensures ParseCompact(e.date).None? ==> r.None?
    ensures r.Some? ==> ParseCompact(e.date) == Some(r.value.origin)
    ensures r.Some? ==> r.value.isSolar == (e.dateType == SolarType)
    ensures r.Some? ==> r.value.name == e.name + e.anniversaryType
    ensures r.Some? && r.value.isSolar ==> NextSolar(r.value.origin, now.date) == Some(r.value.next)
    ensures r.Some? && !r.value.isSolar ==>
      NextLunar(conv, r.value.origin.month, r.value.origin.day, now.date) == Some(r.value.next)
    ensures ParseCompact(e.date).Some? && e.dateType == SolarType ==>
      (r.Some? <==> NextSolar(ParseCompact(e.date).value, now.date).Some?)
    ensures ParseCompact(e.date).Some? && e.dateType != SolarType ==>
      (r.Some? <==> NextLunar(conv, ParseCompact(e.date).value.month, ParseCompact(e.date).value.day, now.date).Some?)
    ensures r.Some? ==> r.value.age == r.value.next.year - r.value.origin.year
    ensures r.Some? ==> r.value.hint == HintFor(e, r.value.age)
    ensures r.Some? ==> r.value.daysLeft == DaysBetween(now.date, r.value.next)
    ensures r.Some? ==> r.value.daysLeft >= 0
    ensures r.Some? ==> (r.value.daysLeft == 0 <==> r.value.next == now.date)
    ensures r.Some? ==> r.value.days == DaysBetween(r.value.origin, now.date)
    ensures r.Some? ==> (r.value.days < 0 <==> Before(now.date, r.value.origin))
  {
    match ParseCompact(e.date)
    case None => None
    case Some(origin) =>
      var next := if e.dateType == SolarType then NextSolar(origin, now.date)
                  else NextLunar(conv, origin.month, origin.day, now.date);
      match next
      case None => None
      case Some(n) => Some(FactOf(e, origin, n, now.date))
  }

  /** Lines 183-215 as written, with the lunar rule of lines 231-240: a
      solar anniversary gets the same facts as above, but a lunar one whose
      conversion this year is still ahead is dated in the previous lunar
      year, so its next date can be past and its days-left negative. */
  function AnniversaryFactsAsWritten(e: Entry, now: Instant, conv: Converter): (r: Option<Fact>)
    ensures e.dateType == SolarType ==> r == AnniversaryFacts(e, now, conv)
    ensures ParseCompact(e.date).None? ==> r.None?
    ensures r.Some? ==> ParseCompact(e.date) == Some(r.value.origin)
    ensures r.Some? && !r.value.isSolar ==>
      NextLunarAsWritten(conv, r.value.origin.month, r.value.origin.day, now.date) == Some(r.value.next)
    ensures ParseCompact(e.date).Some? && e.dateType != SolarType ==>
      (r.Some? <==> NextLunarAsWritten(conv, ParseCompact(e.date).value.month, ParseCompact(e.date).value.day, now.date).Some?)
    ensures r.Some? ==> r.value.daysLeft == DaysBetween(now.date, r.value.next)
    ensures r.Some? ==> (r.value.daysLeft < 0 <==> Before(r.value.next, now.date))
  {
    match ParseCompact(e.date)
    case None => None
    case Some(origin) =>
      var next := if e.dateType == SolarType then NextSolar(origin, now.date)
                  else NextLunarAsWritten(conv, origin.month, origin.day, now.date);
      match next
      case None => None
      case Some(n) => Some(FactOf(e, origin, n, now.date))
  }

  /** A lunar birthday on 12-30 seen on 2024-06-01, with a converter whose
      lunar year 2024 has a 29-day twelfth month: as written, line 232
      raises, so the entry has no facts (and `_fetch_anniversaries` aborts);
      the corrected facts skip the missing year and give 2026-01-30. */
  lemma AsWrittenLunarFailsOnMissingDay()
    ensures
      var e := Entry("x", LunarType, "生日", FormatCompact(SolarDate(1990, 12, 30)));
      var now := Instant(SolarDate(2024, 6, 1), 0);
      && AnniversaryFactsAsWritten(e, now, SampleCalendar.Gapped()).None?
      && AnniversaryFacts(e, now, SampleCalendar.Gapped()).Some?
      && AnniversaryFacts(e, now, SampleCalendar.Gapped()).value.next == SolarDate(2026, 1, 30)
  {
    ParseFormatCompact(SolarDate(1990, 12, 30));
    MissingTwelfthMonthThirtieth();
  }

  /** The date-level half: lunar 12-30 is missing in 2024, so the as-written
      rule fails while the corrected one takes the 2025 conversion. */
  lemma MissingTwelfthMonthThirtieth()
    ensures NextLunarAsWritten(SampleCalendar.Gapped(), 12, 30, SolarDate(2024, 6, 1)).None?
    ensures NextLunar(SampleCalendar.Gapped(), 12, 30, SolarDate(2024, 6, 1)) == Some(SolarDate(2026, 1, 30))
  {
    var conv := SampleCalendar.Gapped();
    assert LunarToSolar(conv, 2023, 12, 30) == Some(SolarDate(2024, 1, 30));
    assert LunarToSolar(conv, 2024, 12, 30).None?;
    assert LunarToSolar(conv, 2025, 12, 30) == Some(SolarDate(2026, 1, 30));
  }

  /** When the lunar years convert in calendar order and the as-written
      facts are not past, they are the corrected facts. */
  lemma AsWrittenFactsAgreeWhenUpcoming(e: Entry, now: Instant, conv: Converter)
    ensures
      && ParseCompact(e.date).Some?
      && Chronological(Candidates(conv, ParseCompact(e.date).value.month, ParseCompact(e.date).value.day, now.date))
      && AnniversaryFactsAsWritten(e, now, conv).Some?
      && AnniversaryFactsAsWritten(e, now, conv).value.daysLeft >= 0
      ==> AnniversaryFacts(e, now, conv) == AnniversaryFactsAsWritten(e, now, conv)
  {
    match ParseCompact(e.date)
    case None =>
    case Some(origin) =>
      if e.dateType != SolarType
        && Chronological(Candidates(conv, origin.month, origin.day, now.date))
        && AnniversaryFactsAsWritten(e, now, conv).Some?
        && AnniversaryFactsAsWritten(e, now, conv).value.daysLeft >= 0
      {
        AsWrittenAgreesWhenUpcoming(conv, origin.month, origin.day, now.date);
      }
  }

  /** The lunar birthday "19900815" seen on 2024-06-01 with the shifted
      converter: as written its next date is 2023-09-15, already past, where
      the corrected facts give 2024-09-15. */
  lemma AsWrittenLunarBirthdayIsPast()
    ensures
      var e := Entry("x", LunarType, "生日", FormatCompact(SolarDate(1990, 8, 15)));
      var now := Instant(SolarDate(2024, 6, 1), 0);
      && AnniversaryFactsAsWritten(e, now, SampleCalendar.Shifted()).Some?
      && AnniversaryFactsAsWritten(e, now, SampleCalendar.Shifted()).value.next == SolarDate(2023, 9, 15)
      && AnniversaryFactsAsWritten(e, now, SampleCalendar.Shifted()).value.daysLeft < 0
      && AnniversaryFacts(e, now, SampleCalendar.Shifted()).Some?
      && AnniversaryFacts(e, now, SampleCalendar.Shifted()).value.next == SolarDate(2024, 9, 15)
  {
    ParseFormatCompact(SolarDate(1990, 8, 15));
    AsWrittenLunarNextIsInThePast();
  }

  /** `_fetch_anniversaries`: the facts of every entry, in order; any entry
      that raises aborts the whole refresh. */
  function AllFacts(entries: seq<Entry>, now: Instant, conv: Converter): (r: Option<seq<Fact>>)
    ensures r.Some? <==> forall i :: 0 <= i < |entries| ==> AnniversaryFacts(entries[i], now, conv).Some?
    ensures r.Some? ==> |r.value| == |entries|
    ensures r.Some? ==> forall i :: 0 <= i < |entries| ==> AnniversaryFacts(entries[i], now, conv) == Some(r.value[i])
  {
    CollectMapped(entries, e => AnniversaryFacts(e, now, conv))
  }

  /** `Collect` over the results of `f` on each element. */
  function CollectMapped<A, B>(xs: seq<A>, f: A -> Option<B>): (r: Option<seq<B>>)
    ensures r.Some? <==> forall i :: 0 <= i < |xs| ==> f(xs[i]).Some?
    ensures r.Some? ==> |r.value| == |xs| && forall i :: 0 <= i < |xs| ==> f(xs[i]) == Some(r.value[i])
  {
    var ys := seq(|xs|, i requires 0 <= i < |xs| => f(xs[i]));
    assert forall i :: 0 <= i < |xs| ==> ys[i] == f(xs[i]);
    Collect(ys)
  }

  /** All values when every entry has one, in order; otherwise `None`. */
  function Collect<T>(xs: seq<Option<T>>): (r: Option<seq<T>>)
    ensures r.Some? <==> forall i :: 0 <= i < |xs| ==> xs[i].Some?
    ensures r.Some? ==> |r.value| == |xs| && forall i :: 0 <= i < |xs| ==> xs[i] == Some(r.value[i])
  {
    if |xs| == 0 then Some([])
    else
      var rest := Collect(xs[1..]);
      if xs[0].None? then None
      else if rest.None? then
        var i :| 0 <= i < |xs[1..]| && xs[1..][i].None?;
        assert xs[i + 1].None?;
        None
      else
        var all := [xs[0].value] + rest.value;
        assert forall i :: 1 <= i < |xs| ==> xs[i] == xs[1..][i - 1];
        Some(all)
  }

  /** The index a stable sort on `next` puts first: an entry with the
      earliest next date, the first such in configuration order. */
  function FirstEarliest(facts: seq<Fact>): (i: nat)
    requires |facts| > 0
    ensures i < |facts|
    ensures forall j :: 0 <= j < |facts| ==> !Before(facts[j].next, facts[i].next)
    ensures forall j :: 0 <= j < i ==> Before(facts[i].next, facts[j].next)
  {
    if |facts| == 1 then 0
    else
      var k := FirstEarliest(facts[1..]) + 1;
      assert forall j :: 1 <= j < |facts| ==> facts[j] == facts[1..][j - 1];
      if Before(facts[k].next, facts[0].next) then k else 0
  }

  /** The `纪念日/生日` attribute: none (`无`) or the nearest hint. */
  datatype Reminder = NoneSoon | Soon(hint: Hint)

  /** Lines 90-92: the earliest anniversary's hint is shown when its next
      date is less than a day past `now` (measured from the exact time, so
      today or tomorrow), otherwise `无`; with no anniversaries configured
      the indexing raises. */
  function NearestAnniversary(facts: seq<Fact>, now: Instant): (r: Option<Reminder>)
    ensures r.None? <==> |facts| == 0
    ensures r.Some? ==> (r.value.Soon? <==> DaysBetween(now.date, facts[FirstEarliest(facts)].next) <= 1)
    ensures r.Some? && r.value.Soon? ==> r.value.hint == facts[FirstEarliest(facts)].hint
  {
    if |facts| == 0 then None
    else
      var f := facts[FirstEarliest(facts)];
      var gapSeconds := DaysBetween(now.date, f.next) * 86400 - now.second;
      if gapSeconds > 86400 then Some(NoneSoon) else Some(Soon(f.hint))
  }

  /** A fact whose next date is already past (as the as-written lunar rule
      produces) always wins the nearest pick and is always shown. */
  lemma PastFactIsAlwaysShown(facts: seq<Fact>, now: Instant)
    requires exists i :: 0 <= i < |facts| && Before(facts[i].next, now.date)
    ensures Before(facts[FirstEarliest(facts)].next, now.date)
    ensures NearestAnniversary(facts, now).Some? && NearestAnniversary(facts, now).value.Soon?
  {
    var i :| 0 <= i < |facts| && Before(facts[i].next, now.date);
    var k := FirstEarliest(facts);
    assert !Before(facts[i].next, facts[k].next);
    OrdinalOrder(facts[i].next, facts[k].next);
    OrdinalOrder(facts[i].next, now.date);
    OrdinalOrder(facts[k].next, now.date);
  }
}
