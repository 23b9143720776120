/** Decimal digit strings as the source reads and writes them: `int(...)`
    on a slice, `str(n)`, `strftime('%Y-%m-%d')` and `strptime` with the
    formats `'%Y-%m-%d'` and `'%Y%m%d'`. Only ASCII digits and ASCII white
    space are modelled. */
module DateText {
  import opened Wrappers
  import opened Dates

  predicate IsDigit(c: char) {
    '0' <= c <= '9'
  }

  predicate AllDigits(s: string) {
    forall i :: 0 <= i < |s| ==> IsDigit(s[i])
  }

  function DigitValue(c: char): (v: int)
    requires IsDigit(c)
    ensures 0 <= v < 10
  {
    c as int - '0' as int
  }

  function DigitChar(v: int): (c: char)
    requires 0 <= v < 10
    ensures IsDigit(c) && DigitValue(c) == v
  {
    ('0' as int + v) as char
  }

  function Pow10(w: nat): (p: nat)
    ensures p >= 1
  {
    if w == 0 then 1 else 10 * Pow10(w - 1)
  }

  /** The number a string of decimal digits spells, most significant first. */
  function DecimalValue(s: string): (v: nat)
    requires AllDigits(s)
    ensures v < Pow10(|s|)
  {
    if |s| == 0 then 0 else DecimalValue(s[..|s| - 1]) * 10 + DigitValue(s[|s| - 1])
  }

  /** The last `w` decimal digits of `n`, zero-padded (`'%04d'`-style). */
  function PadDigits(n: nat, w: nat): (s: string)
    ensures |s| == w && AllDigits(s)
  {
    if w == 0 then [] else PadDigits(n / 10, w - 1) + [DigitChar(n % 10)]
  }

  /** `str(n)` for a non-negative `n`: no leading zeros. */
  function NatText(n: nat): (s: string)
    ensures 1 <= |s| && AllDigits(s)
    ensures DecimalValue(s) == n
    ensures |s| > 1 ==> s[0] != '0'
  {
    if n < 10 then [DigitChar(n)]
    else
      var s := NatText(n / 10) + [DigitChar(n % 10)];
      assert s[..|s| - 1] == NatText(n / 10);
      s
  }

  /** `str(n)` for any integer. */
  function IntText(n: int): (s: string)
    ensures 1 <= |s|
    ensures n >= 0 ==> AllDigits(s) && DecimalValue(s) == n
    ensures n < 0 ==> s[0] == '-' && AllDigits(s[1..]) && DecimalValue(s[1..]) == -n
  {
    if n >= 0 then NatText(n) else "-" + NatText(-n)
  }

  lemma {:induction false} PadValue(n: nat, w: nat)
    requires n < Pow10(w)
    ensures DecimalValue(PadDigits(n, w)) == n
  {
    if w > 0 {
      var s := PadDigits(n, w);
      assert s[..w - 1] == PadDigits(n / 10, w - 1);
      PadValue(n / 10, w - 1);
    }
  }

  lemma {:induction false} PadOfValue(s: string)
    requires AllDigits(s)
    ensures PadDigits(DecimalValue(s), |s|) == s
  {
    if |s| > 0 {
      var p := s[..|s| - 1];
      var v := DecimalValue(s);
      assert v / 10 == DecimalValue(p) && v % 10 == DigitValue(s[|s| - 1]);
      PadOfValue(p);
      assert s == p + [s[|s| - 1]];
    }
  }

  /** `strftime('%Y-%m-%d')`. */
  function FormatIso(d: Date): (s: string)
    ensures |s| == 10
  {
    PadDigits(d.year, 4) + "-" + PadDigits(d.month, 2) + "-" + PadDigits(d.day, 2)
  }

  /** `strptime(s, '%Y-%m-%d')` on zero-padded text; `None` for ValueError. */
  function ParseIso(s: string): Option<Date> {
    if |s| == 10 && AllDigits(s[0..4]) && s[4] == '-' && AllDigits(s[5..7])
       && s[7] == '-' && AllDigits(s[8..10])
    then
      var d := SolarDate(DecimalValue(s[0..4]), DecimalValue(s[5..7]), DecimalValue(s[8..10]));
      if IsValid(d) then Some(d) else None
    else None
  }

  /** Parsing what `FormatIso` wrote gives the date back. */
  lemma ParseFormatIso(d: Date)
    ensures ParseIso(FormatIso(d)) == Some(d)
  {
    var s := FormatIso(d);
    assert s[0..4] == PadDigits(d.year, 4);
    assert s[5..7] == PadDigits(d.month, 2);
    assert s[8..10] == PadDigits(d.day, 2);
    PadValue(d.year, 4);
    PadValue(d.month, 2);
    PadValue(d.day, 2);
  }

  /** The only text that parses to `d` is the text `FormatIso(d)` writes, so
      the parsed key of a holiday table can be written back to find its entry. */
  lemma ParseIsoCanonical(s: string, d: Date)
    requires ParseIso(s) == Some(d)
    ensures s == FormatIso(d)
  {
    var y, m, dd := s[0..4], s[5..7], s[8..10];
    assert d == SolarDate(DecimalValue(y), DecimalValue(m), DecimalValue(dd));
    PadOfValue(y);
    PadOfValue(m);
    PadOfValue(dd);
    IsoPieces(s);
  }

  lemma IsoPieces(s: string)
    requires |s| == 10 && s[4] == '-' && s[7] == '-'
    ensures s == s[0..4] + "-" + s[5..7] + "-" + s[8..10]
  {
  }

  /** `strftime('%Y%m%d')`. */
  function FormatCompact(d: Date): (s: string)
    ensures |s| == 8
  {
    PadDigits(d.year, 4) + PadDigits(d.month, 2) + PadDigits(d.day, 2)
  }

  /** `strptime(s, '%Y%m%d')` on a string of eight ASCII digits (the form
      the configuration lets through). Whatever it accepts is the compact
      text of the date it returns. */
  function ParseCompact(s: string): (r: Option<Date>)
    ensures r.Some? ==> s == FormatCompact(r.value)
  {
    if |s| == 8 && AllDigits(s) then
      var d := SolarDate(DecimalValue(s[0..4]), DecimalValue(s[4..6]), DecimalValue(s[6..8]));
      if IsValid(d) then
        CompactCanonical(s);
        Some(d)
      else None
    else None
  }

  lemma CompactCanonical(s: string)
    requires |s| == 8 && AllDigits(s)
    ensures s == PadDigits(DecimalValue(s[0..4]), 4) + PadDigits(DecimalValue(s[4..6]), 2)
                 + PadDigits(DecimalValue(s[6..8]), 2)
  {
    var y, m, d := s[0..4], s[4..6], s[6..8];
    assert AllDigits(y) && AllDigits(m) && AllDigits(d);
    PadOfValue(y);
    PadOfValue(m);
    PadOfValue(d);
    assert s == y + m + d;
  }

  /** Reading back the compact text of a date gives the date. */
  lemma ParseFormatCompact(d: Date)
    ensures ParseCompact(FormatCompact(d)) == Some(d)
  {
    var s := FormatCompact(d);
    assert s[0..4] == PadDigits(d.year, 4);
    assert s[4..6] == PadDigits(d.month, 2);
    assert s[6..8] == PadDigits(d.day, 2);
    PadValue(d.year, 4);
    PadValue(d.month, 2);
    PadValue(d.day, 2);
  }

  /** Python's `str.isspace()` over ASCII. */
  predicate IsSpace(c: char) {
    c == ' ' || '\t' <= c <= '\r' || '\U{1c}' <= c <= '\U{1f}'
  }

  function StripLeft(s: string): (r: string)
    ensures |r| <= |s| && (|r| > 0 ==> !IsSpace(r[0]))
  {
    if |s| > 0 && IsSpace(s[0]) then StripLeft(s[1..]) else s
  }

  function StripRight(s: string): (r: string)
    ensures |r| <= |s| && (|r| > 0 ==> !IsSpace(r[|r| - 1]))
  {
    if |s| > 0 && IsSpace(s[|s| - 1]) then StripRight(s[..|s| - 1]) else s
  }

  /** Digits with single underscores between them, as `int()` accepts. */
  predicate UnderscoredDigits(s: string) {
    && |s| > 0
    && IsDigit(s[0])
    && IsDigit(s[|s| - 1])
    && (forall i :: 0 <= i < |s| ==> IsDigit(s[i]) || s[i] == '_')
    && (forall i :: 0 <= i < |s| - 1 ==> s[i] == '_' ==> s[i + 1] != '_')
  }

  function DropUnderscores(s: string): (r: string)
    requires forall i :: 0 <= i < |s| ==> IsDigit(s[i]) || s[i] == '_'
    ensures AllDigits(r)
  {
    if |s| == 0 then []
    else if s[0] == '_' then DropUnderscores(s[1..])
    else [s[0]] + DropUnderscores(s[1..])
  }

  /** Python's `int(s)` in base 10: surrounding white space, an optional
      sign, digits grouped by single underscores; `None` for ValueError. */
  function PyInt(s: string): Option<int> {
    var t := StripRight(StripLeft(s));
    if |t| > 0 && (t[0] == '+' || t[0] == '-') then
      var body := t[1..];
      if UnderscoredDigits(body) then
        var v: int := DecimalValue(DropUnderscores(body));
        Some(if t[0] == '-' then -v else v)
      else None
    else if UnderscoredDigits(t) then Some(DecimalValue(DropUnderscores(t)))
    else None
  }

  lemma {:induction false} DropUnderscoresOfDigits(s: string)
    requires AllDigits(s)
    ensures DropUnderscores(s) == s
  {
    if |s| > 0 {
      DropUnderscoresOfDigits(s[1..]);
    }
  }

  /** On a plain digit string, `int()` reads the decimal value. */
  lemma PyIntOfDigits(s: string)
    requires |s| > 0 && AllDigits(s)
    ensures PyInt(s) == Some(DecimalValue(s))
  {
    assert IsDigit(s[0]) && IsDigit(s[|s| - 1]);
    assert StripLeft(s) == s;
    assert StripRight(s) == s;
    assert UnderscoredDigits(s);
    assert s[0] != '+' && s[0] != '-';
    DropUnderscoresOfDigits(s);
  }
}
