# date_time calendar core in Dafny

A model of the calendar logic of the Home Assistant `date_time` integration, with proofs about it. It covers five parts:

- **Festival index** (`DateCoordinator.get_festival`). A day has a solar MMDD key and a lunar MMDD key. Each key is looked up in its festival table. Each table also yields its next festival. The two answers are then merged.
- **Anniversary engine** (`_next_day`, `get_anni_attributes` and the nearest-anniversary pick in `_fetch_holidays`). It gives the next occurrence of a solar or lunar anniversary, the age, the days left and the days since the origin. It also decides which hint is shown.
- **Time-of-day classifier** (`TimePeriodSensor._time_period` and `get_datetime`). It returns the first configured period `[start, end)` that holds the current minute. An end that falls before its start is moved to the next day.
- **Rest-day oracle** (`RestDay.query`). It classifies a day as 节假日, 调休日, 休息日 or 工作日 from the year's holiday table and the weekday. This part also covers two more steps:
  - the parsing of the table's keys into `holiday_dates`;
  - the yearly re-keying of lunar New Year's Eve in the lunar festival table.
- **Configuration validator** (`DateAndTimeConfigFlow._validate_input`). It checks a configured anniversary before it is stored.

The `lunar_python` library is not part of this model. It appears as a `Converter` value with three function fields:

- lunar to solar, which may fail;
- solar to lunar month and day;
- the length of the twelfth lunar month.

`LunarCalendar.LunarToSolar` is the library's `Lunar.fromYmd(...).getSolar()` followed by Python's `strptime`. It gives a date exactly when the converter answers with a date Python accepts. Every property is proved for every converter. Solar dates follow Python's proleptic Gregorian `date`. Ordering is lexicographic on (year, month, day). `Ordinal` is `toordinal()`, and `Weekday` is `weekday()`. `Dates.OrdinalOrder` shows that the ordering and the ordinal agree. A Python exception is modelled as `None` or as an error constructor.

Modules:

| file | module |
|---|---|
| `wrappers.dfy` | `Wrappers` |
| `dates.dfy` | `Dates` |
| `date_text.dfy` | `DateText` (date text and Python `int()`) |
| `lunar_calendar.dfy` | `LunarCalendar`, plus the concrete `SampleCalendar` used in the findings |
| `festival_tables.dfy` | `FestivalTables` |
| `festival.dfy` | `Festival` |
| `anniversary.dfy` | `Anniversary` |
| `time_period.dfy` | `TimePeriod` |
| `calc.dfy` | `Calc` |
| `config_flow.dfy` | `ConfigFlow` |

## Model

| member | source | states |
|---|---|---|
| Dates.OrdinalOrder | custom_components/date_time/sensor.py:211-212 | Python's date comparison agrees with day numbers: a date is before another exactly when its ordinal is smaller, and two dates are equal exactly when their ordinals are. |
| Dates.OrdinalIncreases | custom_components/date_time/sensor.py:211-212 | A later date has a strictly larger ordinal. |
| DateText.ParseFormatIso | calc.py:107-108 | Reading back the `'%Y-%m-%d'` text of a date gives the same date. |
| DateText.ParseIsoCanonical | calc.py:107-108 | The only text that parses to a date is the text written for that date. So a parsed holiday key can be written back to find its record. |
| DateText.ParseCompact | custom_components/date_time/sensor.py:187-189 | A text that reads as a date under `'%Y%m%d'` is exactly the eight-digit text written for that date. |
| DateText.ParseFormatCompact | custom_components/date_time/sensor.py:187-189 | Reading back the `'%Y%m%d'` text of any date gives that date. With the row above, a text reads exactly when it is the compact text of some date. |
| DateText.PyIntOfDigits | config_flow.py:117-119 | `int()` applied to a non-empty run of ASCII digits gives its decimal value. |
| FestivalTables.Get | custom_components/date_time/sensor.py:159 | A dict lookup gives a value exactly when the key is among the table's keys. That value is the one stored under the key. |
| Festival.TodayNames | custom_components/date_time/sensor.py:156-159 | Today's names are the list stored under the query key when the key is present, and `[]` otherwise. |
| Festival.SortDistinct | custom_components/date_time/sensor.py:163 | Sorting keeps exactly the same keys and arranges them in strictly ascending order. |
| Festival.NextKey | custom_components/date_time/sensor.py:154-165 | Append the query, sort, and step past it. The result is the smallest key strictly greater than the query, or the smallest key when none is greater. It fails only on an empty table. |
| Festival.KeyDate | custom_components/date_time/sensor.py:165-171 | A solar key gets a date exactly when its month and day exist in the given year. That date lies in the given year and has the key as its own key. A lunar key gets a date exactly when its lunar day exists in that lunar year and converts to a real solar date. |
| Festival.SystemPass | custom_components/date_time/sensor.py:153-173 | Today's names are the entry under the query key. The next festival is the entry under the next key, dated in the query's year. The pass fails exactly on an empty table or on a next key the calendar refuses. |
| Festival.SystemPassAsWritten | custom_components/date_time/sensor.py:129-132 | The pass as written first reads its own key as a solar month and day of today's year. It answers only when that is a real date, and then it agrees with the corrected pass. |
| Festival.Merge | custom_components/date_time/sensor.py:138-150 | Today's names are the lunar list followed by the solar list. The next festival is on the earlier of the two dates. Its names are the lunar names when the lunar date is that day, followed by the solar names when the solar date is. |
| Festival.QueryDate | custom_components/date_time/sensor.py:124-131 | The day asked about is today by default. Otherwise it is the given MMDD in today's year, and it exists exactly when that is a real date. |
| Festival.GetFestival | custom_components/date_time/sensor.py:112-151 | Today's festivals are the lunar table's names under the day's lunar key, followed by the solar table's names under its solar key. The next festival is the merge of the two passes' next festivals. The answer exists exactly when the day exists and both passes answer. |
| Festival.GetFestivalAsWritten | custom_components/date_time/sensor.py:129-150 | Both recursive calls read their key as a solar date of today's year first. The solar key always survives this; the lunar key may not. The answer exists exactly when the corrected lookup answers and the day's lunar key is also a real solar month and day of today's year. It then equals the corrected answer. |
| Festival.WrappedSolarNextPrecedesToday | custom_components/date_time/sensor.py:164-171 | When every solar key precedes today's, the wrapped next festival is still dated in today's year, so it falls before today. |
| Festival.SolarNextFollowsToday | custom_components/date_time/sensor.py:164-171 | When some solar key follows today's, the next solar festival falls after today. |
| Festival.AsWrittenLunarPassFailsOnSecondMonthTwentyNinth | custom_components/date_time/sensor.py:130-132 | In a common year, the as-written lunar pass always fails on the lunar key 0229. |
| Festival.CorrectedLunarPassAnswersSecondMonthTwentyNinth | custom_components/date_time/sensor.py:153-173 | On a named table and converter, the as-written lunar pass fails on 0229 in 2025, while the corrected pass answers with the next festival. |
| Anniversary.NextSolar | custom_components/date_time/sensor.py:225-229 | The result keeps the origin's month and day, and it is never before today. Its year is today's year, or the next year exactly when the same-year date is before today. No valid year gives an earlier upcoming date. It fails only for February 29 or at year 9999. |
| Anniversary.LeapDayOriginFailsInCommonYear | custom_components/date_time/sensor.py:226 | A February 29 solar origin cannot be re-dated into a common year. |
| Anniversary.NextLunarAsWritten | custom_components/date_time/sensor.py:230-240 | The three-way choice as written. If the same-year conversion is before today, the result is the next year's conversion. If it is after today, the result is the previous year's. It is kept only when it is today itself. |
| Anniversary.NextLunar | custom_components/date_time/sensor.py:231-240 | The corrected choice. The result is one of the conversions in the previous, the same or the next lunar year. It is not before today, and no such conversion is both upcoming and earlier. A lunar year without the day is skipped. It fails exactly when none is upcoming. |
| Anniversary.AsWrittenLunarNextIsInThePast | custom_components/date_time/sensor.py:237-239 | On a named converter, the as-written rule returns a date a year in the past. The corrected rule returns the upcoming one. |
| Anniversary.AsWrittenAgreesWhenUpcoming | custom_components/date_time/sensor.py:234-240 | When the conversions are in calendar order and the as-written result is not past, it is the corrected result. |
| Anniversary.FactOf | custom_components/date_time/sensor.py:193-212 | Given the next date: the age is its year minus the origin's year. The hint is a plain text for a memorial day and a one-element tuple otherwise (the trailing comma of line 199). The days left are the signed day count to the next date: negative exactly when it is past, zero exactly on the day. The days since the origin are negative exactly when the origin is in the future. |
| Anniversary.AnniversaryFacts | custom_components/date_time/sensor.py:183-215 | The origin is the `'%Y%m%d'` reading of the configured text. The next date comes from the solar rule or the corrected lunar rule, and the facts exist exactly when the text reads and that rule answers. The days left are never negative. |
| Anniversary.AnniversaryFactsAsWritten | custom_components/date_time/sensor.py:183-240 | With the as-written lunar rule: solar anniversaries get the same facts as above. A lunar one takes its next date from the as-written rule, so its days left are negative exactly when that date is past. |
| Anniversary.AsWrittenFactsAgreeWhenUpcoming | custom_components/date_time/sensor.py:230-240 | When the conversions are in calendar order and the as-written days left are not negative, the as-written facts are the corrected facts. |
| Anniversary.AsWrittenLunarFailsOnMissingDay | custom_components/date_time/sensor.py:231-233 | On a named converter without lunar 2024-12-30, a lunar 12-30 birthday seen on 2024-06-01 has no facts as written, because line 232 raises. The corrected facts skip the missing year and give 2026-01-30. |
| Anniversary.MissingTwelfthMonthThirtieth | custom_components/date_time/sensor.py:231-240 | On the same converter, the as-written lunar rule fails for 12-30 on 2024-06-01, and the corrected rule answers with the 2025 conversion. |
| Anniversary.AsWrittenLunarBirthdayIsPast | custom_components/date_time/sensor.py:237-239 | On a named converter, the lunar birthday "19900815" seen on 2024-06-01 gets the past next date 2023-09-15 and negative days left as written. The corrected facts give 2024-09-15. |
| Anniversary.AllFacts | custom_components/date_time/sensor.py:175-181 | Every entry gets its facts in order. The refresh succeeds exactly when every entry succeeds. |
| Anniversary.FirstEarliest | custom_components/date_time/sensor.py:90-91 | The stable sort by next date puts first an entry with the earliest next date. It is the first such entry in configuration order. |
| Anniversary.NearestAnniversary | custom_components/date_time/sensor.py:90-92 | The earliest anniversary's hint is shown exactly when its next date is at most one calendar day after today, otherwise `无`. With no anniversaries it fails. |
| Anniversary.PastFactIsAlwaysShown | custom_components/date_time/sensor.py:90-92 | When any fact's next date is already past, as the as-written lunar rule can produce, the earliest one is past too and its hint is always shown. |
| TimePeriod.Resolve | custom_components/date_time/sensor.py:345-351 | A sun endpoint is the stored sunrise or sunset. A valid "HH:MM" endpoint is a minute within the day from which its hour and minute are read back. |
| TimePeriod.Bounds | custom_components/date_time/sensor.py:335-338 | The interval starts at the resolved start. An end before the start is moved one day later. For endpoints within the day, the interval is non-empty and shorter than a day, or empty when start and end coincide. |
| TimePeriod.Classify | custom_components/date_time/sensor.py:328-343 | Without sun data the result is `初始化中`. Otherwise it is the first period whose interval holds now, with that interval. It is `未知错误` exactly when no period holds now. |
| TimePeriod.WrappedPeriodMissesEarlyMorning | custom_components/date_time/sensor.py:337-339 | A period that wraps past midnight never covers a minute before its start on the same day, because now is not shifted. |
| Calc.HolidayDates | calc.py:55-59 | The parsed dates exist exactly when every key parses. They are exactly the dates whose `'%Y-%m-%d'` text is a key, one date per key. |
| Calc.NewRestDay | calc.py:38-43 | Construction succeeds exactly when the table's keys parse. It keeps today at midnight and the table. |
| Calc.Query | calc.py:100-115 | A date in the table is 节假日 when its record has `isOffDay`, otherwise 调休日. A date not in the table is 休息日 on Saturday or Sunday, otherwise 工作日. |
| Calc.EmptyTableUsesWeekdayOnly | calc.py:107-115 | With the empty table a failed update leaves, only the weekday decides. |
| Calc.NewYearsEveKey | calc.py:69 | The eve's key has month 12 and the twelfth month's length as its day, so it is 1229 or 1230. |
| Calc.RekeyNewYearsEve | calc.py:69-72 | When the key is present, the table is unchanged. Otherwise the last entry's names move to the new key at the end, and the rest is untouched. The size is kept, the keys stay distinct and the key is present. An empty table fails. |
| Calc.RekeyIdempotent | calc.py:69-72 | Re-keying a second time for the same year changes nothing. |
| Calc.UpdateLunarTable | calc.py:67-72 | After the yearly update, the eve's key "12" + month-12 length is in the lunar table and its size is unchanged. |
| ConfigFlow.Validate | config_flow.py:103-138 | A record is accepted, unchanged, exactly when the schema holds, the date is eight digits and the date exists in its calendar. A schema breach raises `Invalid`. A `ValueError` comes only from a date that is not eight digits. |
| ConfigFlow.SlicesOfEightDigits | config_flow.py:116-121 | On eight digits, the three `int()` slices read the year, month and day, so they never raise. |
| ConfigFlow.AcceptedSolarDateParses | config_flow.py:124-127 | An accepted eight-digit solar record is read back by the engine as exactly the date that was checked. |
| ConfigFlow.TrailingNewlineAcceptedButUnreadable | config_flow.py:120 | "20231001\n" passes the check, because `$` matches before a final newline. The engine then refuses it. |
| ConfigFlow.LunarThirtiethOfSecondMonthUnreadable | config_flow.py:130-136 | A lunar "19900230" is accepted whenever that lunar day exists. The engine then refuses it, because it reads the origin as a solar date. |

## Left out

- The `lunar_python` library is abstract; `SampleCalendar` is a concrete but invented converter used only for the named inputs. Solar terms, 宜/忌/冲/煞 and the lunar display strings are not modelled.
- File and network I/O in `calc.py` (`get_this_year_holidays` reading `holiday.json`, `update`'s `requests` calls and JSON writing): the holiday table is a parameter, and an empty table stands for a failed update.
- `const.py` is not part of this model: `SOLAR_FESTIVAL`, `LUNAR_FESTIVAL` and `TIME_PERIODS` are parameters.
- Sunrise and sunset retrieval, `ZoneInfo`, `async_update`, the lighting and voice options: sunrise and sunset are inputs in minutes after local midnight.
- The config-flow UI steps and form schemas, entity properties, `slugify` entity ids, `update_time`, and every `strftime` display string.
- TimePeriod.Classify: times are whole minutes on one local day, and the `self.period` text (`HH:MM` or `("-1","-1")`) is represented by the interval carried in `InPeriod` and by `NoPeriod`.
- Festival keys are the integers of four-digit MMDD texts. A festival table is an insertion-ordered sequence of distinct keys.
- DateText.PyIntOfDigits: Python `int()` and the `\d` of `re` also accept non-ASCII decimal digits, and `str.isspace` accepts non-ASCII space. Only ASCII is modelled.
- DateText.ParseIso: `strptime` also accepts unpadded fields such as `2024-1-5`. The model accepts only zero-padded text, which is the form the holiday service returns.
- Anniversary.AllFacts: `_fetch_anniversaries` (sensor.py:176-179) stores facts in a dict keyed by name, anniversary type and date text, without the date type. Two entries that agree on those three fields collapse into one, even when one is 阳历 and the other 阴历. The later entry's facts then sit at the earlier entry's position. The model keeps one fact per entry.
- Festival.GetFestival: uses the corrected lunar pass. As written (`Festival.GetFestivalAsWritten`), the lookup raises on every day whose lunar key is not a solar month and day of today's year, such as 0229 in a common year, 0230, or any leap-month key. The rest of the model uses the corrected lookup.
- Anniversary.AnniversaryFacts: uses the corrected lunar rule, and so do `Anniversary.AllFacts` and `Anniversary.NearestAnniversary` through it. As written (`Anniversary.AnniversaryFactsAsWritten`), a lunar anniversary whose conversion this year is still ahead is dated a lunar year earlier. Its next date is then past, its days left are negative, and it wins the nearest pick (`Anniversary.PastFactIsAlwaysShown`). Also as written, `Lunar.fromYmd` raises at sensor.py:232, 235 or 238 when the lunar day does not exist in the lunar year it tries, such as 12-30 in a year whose twelfth month has 29 days. That one entry then aborts the whole refresh. The corrected rule skips such a year (`Anniversary.AsWrittenLunarFailsOnMissingDay`).
- DateText.ParseCompact: `strptime('%Y%m%d')` also accepts 6- and 7-digit texts such as "2023101" (read as 2023-10-01), and a space before a one-digit day, such as "202310 1". The model accepts only the eight-digit form. The `\d{8}` check at config_flow.py:120 lets no other form through.
- `FORMAT_DATE` is defined in `const.py`, which is not part of this model. It is taken to be `'%Y-%m-%d'`. That reading fits sensor.py:84, which parses the library's `Solar.toString()` with it.
- TimePeriod.Resolve: every "HH:MM" in `TIME_PERIODS` is taken to be a valid time. An invalid one would make `strptime` raise at sensor.py:350, which the model does not represent.
- Anniversary.NearestAnniversary: dropping the microseconds of `now` is exact here, because the next date is a whole day.
- The model follows these details of the code:
  - Merged names are lunar first, then solar (sensor.py:138, 145).
  - The age is the next date's year minus the year of the configured text, even for a lunar origin (sensor.py:187-194).
  - One anniversary that raises aborts the whole refresh (sensor.py:176-179).
  - The hints have no space between the name and the age (sensor.py:197, 199).

## Findings

| source | as written | input that shows it | evidently intended | confidence | as-written member | corrected member |
|---|---|---|---|---|---|---|
| custom_components/date_time/sensor.py:237-239 | When the same-year conversion of a lunar anniversary lies after today, the previous lunar year's conversion is returned without comparing it to today. | A converter placing lunar month m on solar month m + 1; lunar 8-15 seen on 2024-06-01 converts to 2024-09-15, and 2023-09-15 is returned (`Anniversary.AsWrittenLunarNextIsInThePast`). | The earliest conversion among the previous, same and next lunar year that is not before today: 2024-09-15. | not executed | Anniversary.NextLunarAsWritten | Anniversary.NextLunar |
| custom_components/date_time/sensor.py:130-132 | The lunar pass is called with the day's lunar MMDD, which is then read as a solar month and day of today's year by `datetime(...)`. | A day whose lunar date is 2-29, in a common solar year such as 2025: `datetime(2025, 2, 29)` raises (`Festival.AsWrittenLunarPassFailsOnSecondMonthTwentyNinth`); a leap-month key such as -395 fails the same way. | The lunar pass looks up its key without reading it as a solar date (`Festival.CorrectedLunarPassAnswersSecondMonthTwentyNinth`). | not executed | Festival.SystemPassAsWritten | Festival.SystemPass |
| custom_components/date_time/sensor.py:232-233 | The lunar day is converted in lunar year `now.year` by `Lunar.fromYmd`, which raises when that day does not exist there. There is no fallback, and the exception aborts `_fetch_anniversaries` for every entry. | A lunar 12-30 anniversary in a lunar year whose twelfth month has 29 days. On a converter without lunar 2024-12-30, lunar "19901230" seen on 2024-06-01 has no facts (`Anniversary.AsWrittenLunarFailsOnMissingDay`). | A missing lunar year is skipped, and the earliest upcoming conversion among the neighbouring years is taken: 2026-01-30 (`Anniversary.MissingTwelfthMonthThirtieth`). | not executed | Anniversary.NextLunarAsWritten | Anniversary.NextLunar |
