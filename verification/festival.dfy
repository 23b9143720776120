/** `DateCoordinator.get_festival`: the festivals on a day and the next
    festival, looked up in the solar and the lunar table and merged. */
module Festival {
  import opened Wrappers
  import opened Dates
  import opened LunarCalendar
  import opened FestivalTables
  import SampleCalendar

  datatype System = SolarSystem | LunarSystem

  datatype Next = Next(date: Date, names: seq<string>)

  /** The pair `(this_festival, next_festival)` the method returns. */
  datatype Festivals = Festivals(today: seq<string>, next: Next)

  predicate StrictlySorted(s: seq<int>) {
    forall i, j :: 0 <= i < j < |s| ==> s[i] < s[j]
  }

  function Insert(x: int, s: seq<int>): (r: seq<int>)
    requires StrictlySorted(s) && x !in s
    ensures StrictlySorted(r) && |r| == |s| + 1
    ensures forall y :: y in r <==> y == x || y in s
  {
    if |s| == 0 then [x]
    else if x < s[0] then [x] + s
    else
      var tail := Insert(x, s[1..]);
      assert forall k :: 0 <= k < |tail| ==> tail[k] in tail;
      [s[0]] + tail
  }

  /** `list.sort()` on a list without repeats: the same elements, ascending. */
  function SortDistinct(s: seq<int>): (r: seq<int>)
    requires Distinct(s)
    ensures StrictlySorted(r) && |r| == |s|
    ensures forall y :: y in r <==> y in s
  {
    if |s| == 0 then []
    else
      var init := s[..|s| - 1];
      assert forall y :: y in s <==> y in init || y == s[|s| - 1];
      Insert(s[|s| - 1], SortDistinct(init))
  }

  /** `list.index(x)`. */
  function IndexOf(s: seq<int>, x: int): (i: nat)
    requires x in s
    ensures i < |s| && s[i] == x
  {
    if s[0] == x then 0 else 1 + IndexOf(s[1..], x)
  }

  /** `k` is the smallest key strictly greater than `q`, or, when no key is
      greater, the smallest key. */
  predicate IsNextKey(keys: seq<int>, q: int, k: int) {
    && k in keys
    && (forall j :: j in keys && j > q ==> q < k <= j)
    && ((forall j :: j in keys ==> j <= q) ==> (forall j :: j in keys ==> k <= j))
  }

  lemma NextKeyFound(keys: seq<int>, q: int, sorted: seq<int>, index: int)
    requires Distinct(keys) && StrictlySorted(sorted)
    requires forall y :: y in sorted <==> y in keys || y == q
    requires 0 <= index < |sorted|
    requires sorted[|sorted| - 1] == q ==> index == 0
    requires sorted[|sorted| - 1] != q ==> index >= 1 && sorted[index - 1] == q
    ensures |keys| > 0 <==> sorted[index] in keys
    ensures sorted[index] in keys ==> IsNextKey(keys, q, sorted[index])
  {
    var k := sorted[index];
    var last := |sorted| - 1;
    assert forall y :: y in sorted ==> exists m :: 0 <= m < |sorted| && sorted[m] == y;
    if sorted[last] == q {
      forall j | j in keys
        ensures j <= q && k <= j
      {
        var m :| 0 <= m < |sorted| && sorted[m] == j;
        assert m == last || sorted[m] < sorted[last];
        assert m == 0 || sorted[0] < sorted[m];
      }
      if |keys| > 0 {
        assert keys[0] in keys;
      } else {
        assert sorted[index] in sorted;
        assert k == q;
      }
    } else {
      assert sorted[index] > q;
      assert k in keys;
      forall j | j in keys && j > q
        ensures q < k <= j
      {
        var m :| 0 <= m < |sorted| && sorted[m] == j;
        assert m >= index;
      }
    }
  }

  /** The key list with the query appended when it is not already a key. */
  function WithQuery(keys: seq<int>, q: int): (all: seq<int>)
    requires Distinct(keys)
    ensures Distinct(all) && |all| > 0
    ensures forall y :: y in all <==> y in keys || y == q
  {
    if q in keys then keys
    else
      var all := keys + [q];
      assert forall i :: 0 <= i < |keys| ==> all[i] == keys[i];
      all
  }

  /** Lines 154-165: the query joins the key list when it is not a key, the
      list is sorted, and the key after the query is taken, or the first key
      when the query sorts last. `None` is the KeyError an empty table ends
      in (the query itself is then looked up). */
  function NextKey(keys: seq<int>, q: int): (r: Option<int>)
    requires Distinct(keys)
    ensures r.Some? <==> |keys| > 0
    ensures r.Some? ==> IsNextKey(keys, q, r.value)
  {
    var all := WithQuery(keys, q);
    assert q in all;
    var sorted := SortDistinct(all);
    assert q in sorted;
    var index := NextIndex(sorted, q);
    NextKeyFound(keys, q, sorted, index);
    var k := sorted[index];
    if k in keys then Some(k) else None
  }

  /** Line 163: the position after the query's, or 0 when it sorts last. */
  function NextIndex(sorted: seq<int>, q: int): (index: nat)
    requires q in sorted
    ensures index < |sorted|
    ensures sorted[|sorted| - 1] == q ==> index == 0
    ensures sorted[|sorted| - 1] != q ==> index >= 1 && sorted[index - 1] == q
  {
    if sorted[|sorted| - 1] == q then 0 else IndexOf(sorted, q) + 1
  }

  /** Lines 166-171: the date of key `k` in `year` (the query's year, even
      when the key wrapped round): the solar date itself, or the solar date of
      the lunar month-day in lunar year `year`. `None` for a date Python or
      the converter refuses. */
  function KeyDate(system: System, conv: Converter, year: int, k: int): (r: Option<Date>)
    ensures system == SolarSystem ==> (r.Some? <==> IsValid(SolarDate(year, k / 100, k % 100)))
    ensures system == SolarSystem && r.Some? && 0 <= k <= 9999 ==> r.value.year == year && SolarKey(r.value) == k
    ensures system == LunarSystem ==>
      (r.Some? <==> (LunarDateExists(conv, year, k / 100, k % 100) && IsValid(conv.toSolar(year, k / 100, k % 100).value)))
    ensures system == LunarSystem && r.Some? ==> r.value == conv.toSolar(year, k / 100, k % 100).value
  {
    match system
    case SolarSystem =>
      var d := SolarDate(year, k / 100, k % 100);
      if IsValid(d) then Some(d) else None
    case LunarSystem => LunarToSolar(conv, year, k / 100, k % 100)
  }

  /** The names listed under `k`, or none. */
  function TodayNames(t: Table, k: int): (names: seq<string>)
    ensures k !in KeyList(t) ==> names == []
    ensures k in KeyList(t) ==> exists i :: 0 <= i < |t| && t[i] == (k, names)
  {
    match Get(t, k)
    case Some(names) => names
    case None => []
  }

  /** Entry `i` holds the next key after `q`, and `next` is its names dated
      in `year`. */
  predicate IsNextEntry(t: Table, q: int, system: System, conv: Converter, year: int, i: int, next: Next)
    requires 0 <= i < |t|
  {
    && IsNextKey(KeyList(t), q, t[i].0)
    && next.names == t[i].1
    && KeyDate(system, conv, year, t[i].0) == Some(next.date)
  }

  /** The single-table branch (lines 153-173) without the re-reading of its
      key as a solar date: today's names are the entry under the query key,
      the next festival is the entry under the next key, dated in `year`.
      It fails only on an empty table or a next key the calendar refuses. */
  function SystemPass(t: Table, q: int, system: System, conv: Converter, year: int): (r: Option<Festivals>)
    requires WellFormed(t)
    ensures r.Some? ==> r.value.today == TodayNames(t, q)
    ensures r.Some? ==> q in KeyList(t) ==> exists i :: 0 <= i < |t| && t[i] == (q, r.value.today)
    ensures r.Some? ==> exists i :: 0 <= i < |t| && IsNextEntry(t, q, system, conv, year, i, r.value.next)
    ensures r.None? <==> |t| == 0 || KeyDate(system, conv, year, NextKey(KeyList(t), q).value).None?
  {
    var keys := KeyList(t);
    assert Distinct(keys);
    var nk := NextKey(keys, q);
    if nk.None? then None
    else
      var date := KeyDate(system, conv, year, nk.value);
      if date.None? then None
      else
        var i := KeyIndex(t, nk.value);
        var next := Next(date.value, t[i].1);
        assert IsNextEntry(t, q, system, conv, year, i, next);
        if q in keys then
          var j := KeyIndex(t, q);
          GetUnique(t, j);
          Some(Festivals(t[j].1, next))
        else Some(Festivals([], next))
  }

  /** Lines 130-132 as written: before the single-table branch, the query key
      is read back as a solar month and day of `year` by `datetime(...)`,
      which raises for a lunar key such as 0229 in a common year, 0230, or
      the negative key of a leap month. */
  function SystemPassAsWritten(t: Table, q: int, system: System, conv: Converter, year: int): (r: Option<Festivals>)
    requires WellFormed(t) && q <= 9999
    ensures r.Some? ==> q >= 0 && IsValid(SolarDate(year, q / 100, q % 100))
    ensures r.Some? ==> r == SystemPass(t, q, system, conv, year)
    ensures q >= 0 && IsValid(SolarDate(year, q / 100, q % 100)) ==> r == SystemPass(t, q, system, conv, year)
  {
    if q >= 0 && IsValid(SolarDate(year, q / 100, q % 100)) then SystemPass(t, q, system, conv, year)
    else None
  }

  /** Lines 138-150: today's names are the lunar ones followed by the solar
      ones; the next festival is the earlier of the two, and when both fall on
      one date it carries the lunar names followed by the solar names. */
  function Merge(solar: Festivals, lunar: Festivals): (r: Festivals)
    ensures r.today == lunar.today + solar.today
    ensures r.next.date == solar.next.date || r.next.date == lunar.next.date
    ensures !Before(solar.next.date, r.next.date) && !Before(lunar.next.date, r.next.date)
    ensures r.next.names ==
      (if lunar.next.date == r.next.date then lunar.next.names else [])
      + (if solar.next.date == r.next.date then solar.next.names else [])
  {
    var next :=
      if lunar.next.date == solar.next.date then Next(lunar.next.date, lunar.next.names + solar.next.names)
      else if Before(lunar.next.date, solar.next.date) then lunar.next
      else solar.next;
    Festivals(lunar.today + solar.today, next)
  }

  /** The MMDD key of a solar date. */
  function SolarKey(d: Date): int {
    d.month * 100 + d.day
  }

  /** Within one year, key order is calendar order. */
  lemma SolarKeyOrder(a: Date, b: Date)
    requires a.year == b.year
    ensures SolarKey(a) < SolarKey(b) <==> Before(a, b)
  {
  }

  /** The MMDD key of a date's lunar month and day (negative in a leap month). */
  function LunarKey(conv: Converter, d: Date): int {
    var md := conv.toLunar(d);
    md.0 * 100 + md.1
  }

  /** Lines 125-130: the day asked about, today by default, otherwise the
      given MMDD in today's year; `None` where `datetime(...)` raises. */
  function QueryDate(today: Date, q: Option<int>): (r: Option<Date>)
    requires q.Some? ==> 0 <= q.value <= 9999
    ensures q.None? ==> r == Some(today)
    ensures q.Some? ==> (r.Some? <==> IsValid(SolarDate(today.year, q.value / 100, q.value % 100)))
    ensures r.Some? ==> r.value.year == today.year
    ensures q.Some? && r.Some? ==> SolarKey(r.value) == q.value
  {
    match q
    case None => Some(today)
    case Some(k) =>
      var d := SolarDate(today.year, k / 100, k % 100);
      if IsValid(d) then Some(d) else None
  }

  /** `get_festival(q_date)` with both tables and the corrected passes:
      each table is searched with the day's own key in its calendar, and the
      two answers are merged. */
  function GetFestival(solarTable: Table, lunarTable: Table, conv: Converter, today: Date, q: Option<int>): (r: Option<Festivals>)
    requires WellFormed(solarTable) && WellFormed(lunarTable)
    requires q.Some? ==> 0 <= q.value <= 9999
    ensures r.Some? ==> QueryDate(today, q).Some?
    ensures r.Some? ==>
      var d := QueryDate(today, q).value;
      r.value.today == TodayNames(lunarTable, LunarKey(conv, d)) + TodayNames(solarTable, SolarKey(d))
    ensures r.Some? <==>
      && QueryDate(today, q).Some?
      && SystemPass(solarTable, SolarKey(QueryDate(today, q).value), SolarSystem, conv, today.year).Some?
      && SystemPass(lunarTable, LunarKey(conv, QueryDate(today, q).value), LunarSystem, conv, today.year).Some?
    ensures r.Some? ==>
      var d := QueryDate(today, q).value;
      r.value == Merge(SystemPass(solarTable, SolarKey(d), SolarSystem, conv, today.year).value,
                       SystemPass(lunarTable, LunarKey(conv, d), LunarSystem, conv, today.year).value)
  {
    match QueryDate(today, q)
    case None => None
    case Some(d) =>
      var solar := SystemPass(solarTable, SolarKey(d), SolarSystem, conv, today.year);
      var lunar := SystemPass(lunarTable, LunarKey(conv, d), LunarSystem, conv, today.year);
      if solar.None? || lunar.None? then None
      else Some(Merge(solar.value, lunar.value))
  }

  /** The lunar key of every day lies within the range four-digit keys use. */
  lemma LunarKeyBounded(conv: Converter, d: Date)
    ensures -1200 < LunarKey(conv, d) <= 1230
  {
  }

  /** A date's own key, read back as a month and day of its year, is the date. */
  lemma SolarKeyReadsBack(d: Date)
    ensures 0 <= SolarKey(d) <= 9999
    ensures SolarDate(d.year, SolarKey(d) / 100, SolarKey(d) % 100) == d
  {
    assert SolarKey(d) / 100 == d.month && SolarKey(d) % 100 == d.day;
  }

  /** `get_festival(q_date)` as written: both recursive calls re-enter
      lines 129-132 with their key set, so the solar key (always a real date)
      and the lunar key (often not) are read as solar dates of today's year.
      It answers exactly when the corrected lookup does and the day's lunar
      key also reads as a solar date, and then it agrees with it. */
  function GetFestivalAsWritten(solarTable: Table, lunarTable: Table, conv: Converter, today: Date, q: Option<int>): (r: Option<Festivals>)
    requires WellFormed(solarTable) && WellFormed(lunarTable)
    requires q.Some? ==> 0 <= q.value <= 9999
    ensures r.Some? <==>
      && GetFestival(solarTable, lunarTable, conv, today, q).Some?
      && var k := LunarKey(conv, QueryDate(today, q).value);
         k >= 0 && IsValid(SolarDate(today.year, k / 100, k % 100))
    ensures r.Some? ==> r == GetFestival(solarTable, lunarTable, conv, today, q)
  {
    match QueryDate(today, q)
    case None => None
    case Some(d) =>
      LunarKeyBounded(conv, d);
      SolarKeyReadsBack(d);
      var solar := SystemPassAsWritten(solarTable, SolarKey(d), SolarSystem, conv, today.year);
      var lunar := SystemPassAsWritten(lunarTable, LunarKey(conv, d), LunarSystem, conv, today.year);
      assert solar == SystemPass(solarTable, SolarKey(d), SolarSystem, conv, today.year);
      if solar.None? || lunar.None? then None
      else Some(Merge(solar.value, lunar.value))
  }

  /** When every solar key lies before today's, the next solar festival wraps
      to the first key but is still dated in today's year, so it falls before
      the day asked about. */
  lemma WrappedSolarNextPrecedesToday(t: Table, conv: Converter, today: Date)
    requires WellFormed(t)
    requires forall i :: 0 <= i < |t| ==> t[i].0 < SolarKey(today)
    ensures match SystemPass(t, SolarKey(today), SolarSystem, conv, today.year)
            case Some(r) => Before(r.next.date, today)
            case None => true
  {
    var q := SolarKey(today);
    match SystemPass(t, q, SolarSystem, conv, today.year)
    case Some(r) =>
      var i :| 0 <= i < |t| && IsNextEntry(t, q, SolarSystem, conv, today.year, i, r.next);
      assert 0 <= t[i].0 < q;
      SolarKeyOrder(r.next.date, today);
    case None =>
  }

  /** A solar key after today's is dated later this year. */
  lemma SolarNextFollowsToday(t: Table, conv: Converter, today: Date)
    requires WellFormed(t)
    requires exists i :: 0 <= i < |t| && t[i].0 > SolarKey(today)
    ensures match SystemPass(t, SolarKey(today), SolarSystem, conv, today.year)
            case Some(r) => Before(today, r.next.date)
            case None => true
  {
    var q := SolarKey(today);
    match SystemPass(t, q, SolarSystem, conv, today.year)
    case Some(r) =>
      var i :| 0 <= i < |t| && IsNextEntry(t, q, SolarSystem, conv, today.year, i, r.next);
      var j :| 0 <= j < |t| && t[j].0 > q;
      assert t[j].0 in KeyList(t);
      assert q < t[i].0 <= 9999;
      SolarKeyOrder(today, r.next.date);
    case None =>
  }

  /** The lunar day 2-29 exists every lunar year, but its key 0229 read as a
      solar date of a common year makes the as-written pass raise whatever the
      table holds. */
  lemma AsWrittenLunarPassFailsOnSecondMonthTwentyNinth(t: Table, conv: Converter, year: int)
    requires WellFormed(t) && !IsLeapYear(year)
    ensures SystemPassAsWritten(t, 229, LunarSystem, conv, year).None?
  {
    assert 229 / 100 == 2 && 229 % 100 == 29;
    assert DaysInMonth(year, 2) == 28;
  }

  /** The two-festival lunar table the next lemma uses. */
  function SampleLunarTable(): (t: Table)
    ensures WellFormed(t) && KeyList(t) == [101, 1215]
  {
    var t: Table := [(101, ["Spring Festival"]), (1215, ["Eve"])];
    assert KeyList(t) == [101] + KeyList(t[1..]);
    t
  }

  lemma SampleLunarLookups()
    ensures NextKey(KeyList(SampleLunarTable()), 229) == Some(1215)
    ensures TodayNames(SampleLunarTable(), 229) == []
    ensures Get(SampleLunarTable(), 1215) == Some(["Eve"])
  {
    var keys := KeyList(SampleLunarTable());
    assert 1215 in keys;
    assert 229 !in keys;
  }

  lemma SampleLunarKeyDate()
    ensures KeyDate(LunarSystem, SampleCalendar.Shifted(), 2025, 1215) == Some(SolarDate(2026, 1, 15))
  {
    assert 1215 / 100 == 12 && 1215 % 100 == 15;
    assert SampleCalendar.ShiftedToSolar(2025, 12, 15) == Some(SolarDate(2026, 1, 15));
  }

  /** On the same input the corrected pass answers: with lunar festivals
      under 0101 and 1215, on lunar 2-29 of 2025 the next one is 1215, which
      the sample converter places on 2026-01-15. */
  lemma CorrectedLunarPassAnswersSecondMonthTwentyNinth()
    ensures SystemPassAsWritten(SampleLunarTable(), 229, LunarSystem, SampleCalendar.Shifted(), 2025).None?
    ensures SystemPass(SampleLunarTable(), 229, LunarSystem, SampleCalendar.Shifted(), 2025)
         == Some(Festivals([], Next(SolarDate(2026, 1, 15), ["Eve"])))
  {
    AsWrittenLunarPassFailsOnSecondMonthTwentyNinth(SampleLunarTable(), SampleCalendar.Shifted(), 2025);
    SampleLunarLookups();
    SampleLunarKeyDate();
  }
}
