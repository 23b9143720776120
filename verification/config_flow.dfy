/** `DateAndTimeConfigFlow._validate_input`: the checks a configured
    anniversary passes before it is stored. */
module ConfigFlow {
  import opened Wrappers
  import opened Dates
  import opened DateText
  import opened LunarCalendar
  import Anniversary

  const NameKey: string := "anniversary_name"
  const DateTypeKey: string := "date_type"
  const TypeKey: string := "anniversary_type"
  const DateKey: string := "anniversary_date"

  const DateTypeOptions: seq<string> := [Anniversary.SolarType, Anniversary.LunarType]
  const AnniversaryTypeOptions: seq<string> := ["生日", "纪念日"]

  /** Which `vol.Invalid` is raised. */
  datatype Reason = SchemaMismatch | NotEightDigits | NoSuchSolarDate | NoSuchLunarDate

  /** The validated record, a `vol.Invalid`, or the ValueError `int()`
      raises, which the form handler does not catch. */
  datatype Validation = Accepted(data: map<string, string>) | Invalid(reason: Reason) | ValueError

  /** Lines 107-113: exactly the four required keys (voluptuous refuses
      extra keys), and both type fields among their options. */
  predicate SchemaAccepts(input: map<string, string>) {
    && input.Keys == {NameKey, DateTypeKey, TypeKey, DateKey}
    && input[DateTypeKey] in DateTypeOptions
    && input[TypeKey] in AnniversaryTypeOptions
  }

  /** Python's `s[i:j]` for `0 <= i <= j`. */
  function Slice(s: string, i: nat, j: nat): (r: string)
    requires i <= j
    ensures |r| <= j - i
  {
    var a := if i < |s| then i else |s|;
    var b := if j < |s| then j else |s|;
    s[a..b]
  }

  /** `re.match(r"^\d{8}$", s)`: eight digits, where `$` also matches
      before one final newline. */
  predicate MatchesEightDigits(s: string) {
    || (|s| == 8 && AllDigits(s))
    || (|s| == 9 && AllDigits(s[..8]) && s[8] == '\n')
  }

  /** The year, month and day the eight digits spell. */
  function Fields(s: string): SolarDate
    requires MatchesEightDigits(s)
  {
    SolarDate(DecimalValue(s[0..4]), DecimalValue(s[4..6]), DecimalValue(s[6..8]))
  }

  /** The calendar check of lines 124-136 on the spelled date. */
  predicate DateExists(dateType: string, f: SolarDate, conv: Converter) {
    if dateType == Anniversary.SolarType then IsValid(f) else LunarDateExists(conv, f.year, f.month, f.day)
  }

  /** Lines 103-138. */
  function Validate(input: map<string, string>, conv: Converter): (r: Validation)
    ensures r.Accepted? ==> r.data == input
    ensures r == Invalid(SchemaMismatch) <==> !SchemaAccepts(input)
    ensures r.Accepted? <==>
      && SchemaAccepts(input)
      && MatchesEightDigits(input[DateKey])
      && DateExists(input[DateTypeKey], Fields(input[DateKey]), conv)
    ensures r == ValueError ==> SchemaAccepts(input) && !MatchesEightDigits(input[DateKey])
    ensures r == Invalid(NoSuchSolarDate) <==>
      && SchemaAccepts(input)
      && MatchesEightDigits(input[DateKey])
      && input[DateTypeKey] == Anniversary.SolarType
      && !IsValid(Fields(input[DateKey]))
  {
    if !SchemaAccepts(input) then Invalid(SchemaMismatch)
    else
      var s := input[DateKey];
      var year, month, day := PyInt(Slice(s, 0, 4)), PyInt(Slice(s, 4, 6)), PyInt(Slice(s, 6, 8));
      if year.None? || month.None? || day.None? then
        assert !MatchesEightDigits(s) by {
          if MatchesEightDigits(s) { SlicesOfEightDigits(s); }
        }
        ValueError
      else if !MatchesEightDigits(s) then Invalid(NotEightDigits)
      else
        SlicesOfEightDigits(s);
        var f := SolarDate(year.value, month.value, day.value);
        if input[DateTypeKey] == Anniversary.SolarType then
          if IsValid(f) then Accepted(input) else Invalid(NoSuchSolarDate)
        else if LunarDateExists(conv, f.year, f.month, f.day) then Accepted(input)
        else Invalid(NoSuchLunarDate)
  }

  /** On a matched date the three `int()` slices read its fields. */
  lemma SlicesOfEightDigits(s: string)
    requires MatchesEightDigits(s)
    ensures PyInt(Slice(s, 0, 4)) == Some(Fields(s).year)
    ensures PyInt(Slice(s, 4, 6)) == Some(Fields(s).month)
    ensures PyInt(Slice(s, 6, 8)) == Some(Fields(s).day)
  {
    assert Slice(s, 0, 4) == s[0..4] && Slice(s, 4, 6) == s[4..6] && Slice(s, 6, 8) == s[6..8];
    assert AllDigits(s[0..4]) && AllDigits(s[4..6]) && AllDigits(s[6..8]);
    PyIntOfDigits(s[0..4]);
    PyIntOfDigits(s[4..6]);
    PyIntOfDigits(s[6..8]);
  }

  /** The anniversary the stored record describes. */
  function EntryOf(data: map<string, string>): Anniversary.Entry
    requires SchemaAccepts(data)
  {
    Anniversary.Entry(data[NameKey], data[DateTypeKey], data[TypeKey], data[DateKey])
  }

  /** An accepted solar record of eight digits is read back by the
      anniversary engine as the very date that was checked. */
  lemma AcceptedSolarDateParses(input: map<string, string>, conv: Converter)
    requires Validate(input, conv).Accepted?
    requires input[DateTypeKey] == Anniversary.SolarType && |input[DateKey]| == 8
    ensures ParseCompact(input[DateKey]) == Some(Fields(input[DateKey]))
  {
  }

  /** A solar date followed by a newline passes `_validate_input`, whose
      `\d{8}` check lets the newline through, yet the engine's `strptime`
      refuses the text. The form's schema (lines 58-62) limits the field to
      eight characters, so through the form the text never gets this far. */
  lemma TrailingNewlineAcceptedButUnreadable(conv: Converter, now: Instant)
    ensures var input := map[NameKey := "A", DateTypeKey := Anniversary.SolarType, TypeKey := "生日", DateKey := "20231001\n"];
      && Validate(input, conv) == Accepted(input)
      && Anniversary.AnniversaryFacts(EntryOf(input), now, conv).None?
  {
    NewlineSampleDigits();
  }

  lemma NewlineSampleDigits()
    ensures MatchesEightDigits("20231001\n")
    ensures Fields("20231001\n") == SolarDate(2023, 10, 1)
    ensures ParseCompact("20231001\n").None?
  {
    var s := "20231001\n";
    assert AllDigits(s[..8]);
    assert s[0..4] == "2023";
    assert s[4..6] == "10";
    assert s[6..8] == "01";
    assert "2023"[..3] == "202" && "202"[..2] == "20" && "20"[..1] == "2" && "2"[..0] == "";
    assert "10"[..1] == "1" && "01"[..1] == "0";
  }

  /** A lunar 30th of the second month passes the check whenever that lunar
      day exists, but the engine reads the origin as a solar date, which
      February lacks, and refuses it. */
  lemma LunarThirtiethOfSecondMonthUnreadable(conv: Converter, now: Instant)
    requires LunarDateExists(conv, 1990, 2, 30)
    ensures var input := map[NameKey := "A", DateTypeKey := Anniversary.LunarType, TypeKey := "生日", DateKey := "19900230"];
      && Validate(input, conv) == Accepted(input)
      && Anniversary.AnniversaryFacts(EntryOf(input), now, conv).None?
  {
    LunarSampleDigits();
  }

  lemma LunarSampleDigits()
    ensures MatchesEightDigits("19900230")
    ensures Fields("19900230") == SolarDate(1990, 2, 30)
    ensures ParseCompact("19900230").None?
  {
    var s := "19900230";
    assert AllDigits(s);
    assert s[0..4] == "1990";
    assert s[4..6] == "02";
    assert s[6..8] == "30";
    assert "1990"[..3] == "199" && "199"[..2] == "19" && "19"[..1] == "1" && "1"[..0] == "";
    assert "02"[..1] == "0" && "30"[..1] == "3";
  }
}
