/**
 * Python's `datetime.strptime(text, "%Y-%m-%dT%H:%M:%S%z")` (Python 3.7 and
 * later), restricted to ASCII text. Parsing has two stages, as in Python:
 * the text is matched against the regular expression the format compiles
 * to (`Fields`), and the matched values are then handed to the `date`,
 * `datetime` and `timezone` constructors, which reject out-of-range values
 * (`Parse`). Either stage failing is a `ValueError`, modelled as `ParseError`.
 */
module Timestamp {
  import opened Results
  import opened CivilTime

  /**
   * The `ValueError` strptime raises, reduced to the timestamp text that was
   * rejected; Python's message (which stage failed and why) is not modelled.
   */
  datatype ParseError = ParseError(text: string)

  predicate IsDigit(c: char) {
    '0' <= c <= '9'
  }

  function DigitValue(c: char): (n: nat)
    requires IsDigit(c)
    ensures n < 10
  {
    c as int - '0' as int
  }

  function DigitChar(n: nat): (c: char)
    requires n < 10
    ensures IsDigit(c) && DigitValue(c) == n
  {
    (n + '0' as int) as char
  }

  predicate AllDigits(t: string) {
    forall i :: 0 <= i < |t| ==> IsDigit(t[i])
  }

  /** Python's `int(t)` on a string of decimal digits. */
  function DigitsValue(t: string): (n: nat)
    requires AllDigits(t)
    decreases |t|
  {
    if |t| == 0 then 0 else DigitsValue(t[..|t| - 1]) * 10 + DigitValue(t[|t| - 1])
  }

  function Pow10(k: nat): (p: nat)
    ensures p >= 1
  {
    if k == 0 then 1 else 10 * Pow10(k - 1)
  }

  /** The text of a one- or two-digit directive (`%m`, `%d`, `%H`, `%M`, `%S`). */
  predicate IsNumeral(t: string) {
    1 <= |t| <= 2 && AllDigits(t)
  }

  /** `%m` matches `1[0-2]|0[1-9]|[1-9]`. */
  predicate IsMonthField(t: string) {
    IsNumeral(t) && 1 <= DigitsValue(t) <= 12
  }

  /** `%d` matches `3[01]|[12]\d|0[1-9]|[1-9]| [1-9]`. */
  predicate IsDayField(t: string) {
    (IsNumeral(t) && 1 <= DigitsValue(t) <= 31)
    || (|t| == 2 && t[0] == ' ' && '1' <= t[1] <= '9')
  }

  /** `int()` of a day field, which ignores a leading space. */
  function DayValue(t: string): nat
    requires IsDayField(t)
  {
    if t[0] == ' ' then DigitValue(t[1]) else DigitsValue(t)
  }

  /** `%H` matches `2[0-3]|[0-1]\d|\d`. */
  predicate IsHourField(t: string) {
    IsNumeral(t) && DigitsValue(t) <= 23
  }

  /** `%M` matches `[0-5]\d|\d`. */
  predicate IsMinuteField(t: string) {
    IsNumeral(t) && DigitsValue(t) <= 59
  }

  /** `%S` matches `6[0-1]|[0-5]\d|\d`: leap seconds pass the pattern. */
  predicate IsSecondField(t: string) {
    IsNumeral(t) && DigitsValue(t) <= 61
  }

  /** `[0-5]\d`, the minutes and seconds of a `%z` offset. */
  predicate IsSexagesimal(t: string) {
    |t| == 2 && '0' <= t[0] <= '5' && IsDigit(t[1])
  }

  function SexagesimalValue(t: string): (n: nat)
    requires IsSexagesimal(t)
    ensures n < 60
  {
    10 * DigitValue(t[0]) + DigitValue(t[1])
  }

  /**
   * The seconds and microseconds after the minutes of a signed `%z` offset:
   * nothing, or `[:]SS` optionally followed by `.` and one to six digits.
   * The colon before the seconds must be present exactly when the one
   * before the minutes is (`colon`); Python rejects mixed use.
   */
  function OffsetSeconds(rest: string, colon: bool): (r: Option<(nat, nat)>)
    ensures r.Some? ==> r.value.0 < 60 && r.value.1 < 1_000_000
  {
    if rest == [] then Some((0, 0))
    else
      var hasColon := rest[0] == ':';
      var at := if hasColon then 1 else 0;
      if hasColon != colon || |rest| < at + 2 || !IsSexagesimal(rest[at..at + 2]) then None
      else
        var seconds := SexagesimalValue(rest[at..at + 2]);
        var fraction := rest[at + 2..];
        if fraction == [] then Some((seconds, 0))
        else if fraction[0] != '.' || |fraction| < 2 || |fraction| > 7 || !AllDigits(fraction[1..]) then None
        else
          FractionBound(fraction[1..]);
          Some((seconds, DigitsValue(fraction[1..]) * Pow10(7 - |fraction|)))
  }

  /**
   * `%z`: `Z`, or a sign, two hour digits, an optional colon, `[0-5]\d`
   * minutes and the optional seconds. The result is the offset in
   * microseconds; its magnitude is checked later, by `timezone`.
   */
  function ParseOffset(z: string): (r: Option<int>)
    ensures r.Some? ==> -100 * 3600 * 1_000_000 < r.value < 100 * 3600 * 1_000_000
  {
    if z == "Z" then Some(0)
    else if |z| < 5 || (z[0] != '+' && z[0] != '-') || !IsDigit(z[1]) || !IsDigit(z[2]) then None
    else
      var colon := z[3] == ':';
      var at := if colon then 4 else 3;
      if |z| < at + 2 || !IsSexagesimal(z[at..at + 2]) then None
      else
        var hours := 10 * DigitValue(z[1]) + DigitValue(z[2]);
        var minutes := SexagesimalValue(z[at..at + 2]);
        var sm :- OffsetSeconds(z[at + 2..], colon);
        var magnitude := ((hours * 60 + minutes) * 60 + sm.0) * 1_000_000 + sm.1;
        Some(if z[0] == '-' then -magnitude else magnitude)
  }

  /** A directive or literal character of a `strptime` format. */
  datatype Directive = Year | Month | Day | Hour | Minute | Second | Offset | Literal(c: char)

  /** `%Y-%m-%dT%H:%M:%S%z` */
  const IsoFormat: seq<Directive> :=
    [Year, Literal('-'), Month, Literal('-'), Day, Literal('T'), Hour, Literal(':'), Minute, Literal(':'), Second, Offset]

  /** The directives whose text is one or two characters long. */
  predicate IsShortField(d: Directive) {
    d.Month? || d.Day? || d.Hour? || d.Minute? || d.Second?
  }

  /**
   * The formats this model interprets: every short field is followed by a
   * literal or by `%z`, and `%z` comes last.
   */
  predicate WellFormed(format: seq<Directive>) {
    (forall k :: 0 <= k < |format| && IsShortField(format[k]) ==>
       k + 1 < |format| && (format[k + 1].Literal? || format[k + 1].Offset?))
    && forall k :: 0 <= k < |format| - 1 ==> !format[k].Offset?
  }

  /** The pattern is compiled case-insensitively: a letter also matches its other case. */
  predicate MatchesLiteral(c: char, l: char) {
    c == l
    || ('A' <= l <= 'Z' && c as int == l as int + 32)
    || ('a' <= l <= 'z' && c as int == l as int - 32)
  }

  /** `c` can begin the text of `d`, a literal or `%z`. */
  predicate Begins(d: Directive, c: char) {
    match d
    case Literal(l) => MatchesLiteral(c, l)
    case Offset => c == '+' || c == '-' || c == 'Z'
    case _ => false
  }

  /** The text matches the regular expression of the short field `d`. */
  predicate FieldAccepts(d: Directive, text: string)
    requires IsShortField(d)
  {
    match d
    case Month => IsMonthField(text)
    case Day => IsDayField(text)
    case Hour => IsHourField(text)
    case Minute => IsMinuteField(text)
    case Second => IsSecondField(text)
  }

  function FieldValue(d: Directive, text: string): nat
    requires IsShortField(d) && FieldAccepts(d, text)
  {
    if d.Day? then DayValue(text) else DigitsValue(text)
  }

  function SetField(t: DateTime, d: Directive, v: int): DateTime
    requires IsShortField(d)
  {
    match d
    case Month => t.(date := t.date.(month := v))
    case Day => t.(date := t.date.(day := v))
    case Hour => t.(hour := v)
    case Minute => t.(minute := v)
    case Second => t.(second := v)
  }

  /**
   * Matches `s[p..]` against the pattern of `format[i..]`, from left to
   * right, recording each field's value in `t`. The whole text must be
   * consumed. A short field has no text of its own that could begin the
   * literal or offset after it, so it ends at the first character that can:
   * after one character or after two.
   */
  function Match(format: seq<Directive>, i: nat, s: string, p: nat, t: DateTime): (r: Option<DateTime>)
    requires WellFormed(format) && i <= |format| && p <= |s|
    ensures PatternBounds(t) && r.Some? ==> PatternBounds(r.value)
    decreases |format| - i
  {
    if i == |format| then (if p == |s| then Some(t) else None)
    else
      match format[i]
      case Literal(l) =>
        if p < |s| && MatchesLiteral(s[p], l) then Match(format, i + 1, s, p + 1, t) else None
      case Year =>
        if p + 4 <= |s| && AllDigits(s[p..p + 4]) then
          DigitsBound(s[p..p + 4]);
          assert Pow10(4) == 10000;
          Match(format, i + 1, s, p + 4, t.(date := t.date.(year := DigitsValue(s[p..p + 4]))))
        else None
      case Offset =>
        var offset :- ParseOffset(s[p..]);
        Some(t.(utcOffset := offset))
      case _ =>
        var width :=
          if p + 1 < |s| && Begins(format[i + 1], s[p + 1]) then 1
          else if p + 2 < |s| && Begins(format[i + 1], s[p + 2]) then 2
          else 0;
        if width == 0 || !FieldAccepts(format[i], s[p..p + width]) then None
        else
          FieldBounds(t, format[i], s[p..p + width]);
          Match(format, i + 1, s, p + width, SetField(t, format[i], FieldValue(format[i], s[p..p + width])))
  }

  /** A field the pattern accepted keeps the values within the pattern's bounds. */
  lemma FieldBounds(t: DateTime, d: Directive, text: string)
    requires IsShortField(d) && FieldAccepts(d, text)
    ensures PatternBounds(t) ==> PatternBounds(SetField(t, d, FieldValue(d, text)))
  {
  }

  /** `_strptime`'s defaults for fields the format does not mention. */
  const Unset := DateTime(Date(1900, 1, 1), 0, 0, 0, 0)

  lemma IsoFormatWellFormed()
    ensures WellFormed(IsoFormat)
  {
  }

  /** The regular-expression stage for `%Y-%m-%dT%H:%M:%S%z`. */
  function Fields(s: string): (r: Option<DateTime>)
    ensures r.Some? ==> PatternBounds(r.value)
  {
    IsoFormatWellFormed();
    Match(IsoFormat, 0, s, 0, Unset)
  }

  /**
   * `datetime.strptime(s, "%Y-%m-%dT%H:%M:%S%z")`: the matched values must
   * also be accepted by `date` (year 1..9999, a day that exists in its
   * month), `datetime` (second below 60) and `timezone` (offset strictly
   * within 24 hours).
   */
  function Parse(s: string): (r: Result<DateTime, ParseError>)
    ensures r.Ok? ==> ValidDateTime(r.value)
    ensures r.Err? ==> r.error == ParseError(s)
  {
    match Fields(s)
    case Some(t) => if ValidDateTime(t) then Ok(t) else Err(ParseError(s))
    case None => Err(ParseError(s))
  }

  /** Two decimal digits, zero-padded. */
  function Two(n: nat): (t: string)
    requires n < 100
  {
    [DigitChar(n / 10), DigitChar(n % 10)]
  }

  /** Four decimal digits, zero-padded. */
  function Four(n: nat): (t: string)
    requires n < 10000
  {
    [DigitChar(n / 1000), DigitChar(n / 100 % 10), DigitChar(n / 10 % 10), DigitChar(n % 10)]
  }

  const MicrosPerMinute := 60_000_000

  /** Offsets `Format` can write: whole minutes, fewer than 100 hours. */
  predicate IsMinuteOffset(offset: int) {
    offset % MicrosPerMinute == 0 && -100 * 60 * MicrosPerMinute < offset < 100 * 60 * MicrosPerMinute
  }

  /** Fields that fit the fixed-width layout, whether or not they are in range. */
  predicate Printable(t: DateTime) {
    0 <= t.date.year < 10000 && 0 <= t.date.month < 100 && 0 <= t.date.day < 100
    && 0 <= t.hour < 100 && 0 <= t.minute < 100 && 0 <= t.second < 100
    && IsMinuteOffset(t.utcOffset)
  }

  /** `+HH:MM` or `-HH:MM`; a zero offset is written `+00:00`. */
  function OffsetText(offset: int): (z: string)
    requires IsMinuteOffset(offset)
  {
    var minutes := (if offset < 0 then -offset else offset) / MicrosPerMinute;
    [if offset < 0 then '-' else '+'] + Two(minutes / 60) + [':'] + Two(minutes % 60)
  }

  /**
   * The date-time layout of section 5.6 of RFC 3339,
   * `YYYY-MM-DDTHH:MM:SS+HH:MM`, in which calendar services send
   * `start.dateTime` and `end.dateTime`.
   */
  function Format(t: DateTime): (s: string)
    requires Printable(t)
  {
    Four(t.date.year) + "-" + Two(t.date.month) + "-" + Two(t.date.day) + "T"
    + Two(t.hour) + ":" + Two(t.minute) + ":" + Two(t.second) + OffsetText(t.utcOffset)
  }

  /** The ranges the pattern itself enforces (the constructors check the rest). */
  predicate InPatternRange(t: DateTime) {
    1 <= t.date.month <= 12 && 1 <= t.date.day <= 31 && t.hour <= 23 && t.minute <= 59 && t.second <= 61
  }

  /**
   * Everything the regular expression alone guarantees: four year digits,
   * the ranges of the short fields, and a `%z` of under 100 hours.
   */
  predicate PatternBounds(t: DateTime) {
    InPatternRange(t) && 0 <= t.date.year <= 9999 && 0 <= t.hour && 0 <= t.minute && 0 <= t.second
    && -100 * 3600 * 1_000_000 < t.utcOffset < 100 * 3600 * 1_000_000
  }

  lemma TwoValue(n: nat)
    requires n < 100
    ensures IsNumeral(Two(n)) && DigitsValue(Two(n)) == n
  {
    var t := Two(n);
    assert t[..1][..0] == [];
    assert t[..1] == [t[0]];
    assert DigitsValue(t[..1]) == n / 10;
  }

  lemma FourValue(n: nat)
    requires n < 10000
    ensures AllDigits(Four(n)) && DigitsValue(Four(n)) == n
  {
    var t := Four(n);
    assert n / 100 == n / 1000 * 10 + n / 100 % 10;
    assert n / 10 == n / 100 * 10 + n / 10 % 10;
    assert n == n / 10 * 10 + n % 10;
    assert t[..1][..0] == [];
    assert DigitsValue(t[..1]) == n / 1000;
    assert t[..2][..1] == t[..1];
    assert DigitsValue(t[..2]) == n / 100;
    assert t[..3][..2] == t[..2];
    assert DigitsValue(t[..3]) == n / 10;
    assert t[..4][..3] == t[..3] && t[..4] == t;
  }

  lemma {:induction false} ParseOffsetText(offset: int)
    requires IsMinuteOffset(offset)
    ensures ParseOffset(OffsetText(offset)) == Some(offset)
  {
    var z := OffsetText(offset);
    var minutes := (if offset < 0 then -offset else offset) / MicrosPerMinute;
    assert z[1..3] == Two(minutes / 60) && z[3] == ':' && z[4..6] == Two(minutes % 60);
    assert z[6..] == [];
    assert OffsetSeconds(z[6..], true) == Some((0, 0));
  }

  /**
   * Formatting then parsing gives back the fields exactly when they are in
   * range; any out-of-range field (month 13, 31 June, 29 February of a
   * common year, hour 24, second 60, an offset of 24 hours) makes the parse
   * fail.
   */
  lemma {:induction false} ParseFormat(t: DateTime)
    requires Printable(t)
    ensures Parse(Format(t)) == if ValidDateTime(t) then Ok(t) else Err(ParseError(Format(t)))
  {
    FieldsOfFormat(t);
  }

  lemma FieldsOfFormat(t: DateTime)
    requires Printable(t)
    ensures Fields(Format(t)) == if InPatternRange(t) then Some(t) else None
  {
    var s, f := Format(t), IsoFormat;
    var y := t.date.year;
    IsoFormatWellFormed();
    FormatLayout(t);
    FourValue(y);
    assert s[0..4] == s[..4];
    LiteralStep(f, 1, s, 4, DateTime(Date(y, 1, 1), 0, 0, 0, 0));
    MonthOfFormat(t);
  }

  /* The steps of FieldsOfFormat, last field first: each matches one field of Format(t) and the literal after it. */

  lemma SecondOfFormat(t: DateTime)
    requires Printable(t)
    ensures WellFormed(IsoFormat)
    ensures Match(IsoFormat, 10, Format(t), 17, DateTime(t.date, t.hour, t.minute, 0, 0))
      == if t.second <= 61 then Some(t) else None
  {
    IsoFormatWellFormed();
    FormatLayout(t);
    ParseOffsetText(t.utcOffset);
    var s := Format(t);
    assert s[19] == OffsetText(t.utcOffset)[0];
    TwoDigitField(IsoFormat, 10, s, 17, DateTime(t.date, t.hour, t.minute, 0, 0), t.second);
    TwoValue(t.second);
  }

  lemma MinuteOfFormat(t: DateTime)
    requires Printable(t)
    ensures WellFormed(IsoFormat)
    ensures Match(IsoFormat, 8, Format(t), 14, DateTime(t.date, t.hour, 0, 0, 0))
      == if t.minute <= 59 && t.second <= 61 then Some(t) else None
  {
    MinuteField(t);
    SecondOfFormat(t);
  }

  lemma HourOfFormat(t: DateTime)
    requires Printable(t)
    ensures WellFormed(IsoFormat)
    ensures Match(IsoFormat, 6, Format(t), 11, DateTime(t.date, 0, 0, 0, 0))
      == if t.hour <= 23 && t.minute <= 59 && t.second <= 61 then Some(t) else None
  {
    HourField(t);
    MinuteOfFormat(t);
  }

  lemma DayOfFormat(t: DateTime)
    requires Printable(t)
    ensures WellFormed(IsoFormat)
    ensures Match(IsoFormat, 4, Format(t), 8, DateTime(Date(t.date.year, t.date.month, 1), 0, 0, 0, 0))
      == if 1 <= t.date.day <= 31 && t.hour <= 23 && t.minute <= 59 && t.second <= 61 then Some(t) else None
  {
    DayField(t);
    HourOfFormat(t);
  }

  lemma MonthOfFormat(t: DateTime)
    requires Printable(t)
    ensures WellFormed(IsoFormat)
    ensures Match(IsoFormat, 2, Format(t), 5, DateTime(Date(t.date.year, 1, 1), 0, 0, 0, 0))
      == if InPatternRange(t) then Some(t) else None
  {
    MonthField(t);
    DayOfFormat(t);
  }

  /* Each of these matches one two-digit field of Format(t) and the literal after it. */

  lemma MinuteField(t: DateTime)
    requires Printable(t)
    ensures WellFormed(IsoFormat)
    ensures Match(IsoFormat, 8, Format(t), 14, DateTime(t.date, t.hour, 0, 0, 0))
      == if t.minute <= 59 then Match(IsoFormat, 10, Format(t), 17, DateTime(t.date, t.hour, t.minute, 0, 0)) else None
  {
    IsoFormatWellFormed();
    FormatLayout(t);
    LiteralStep(IsoFormat, 9, Format(t), 16, DateTime(t.date, t.hour, t.minute, 0, 0));
    TwoDigitField(IsoFormat, 8, Format(t), 14, DateTime(t.date, t.hour, 0, 0, 0), t.minute);
    TwoValue(t.minute);
  }

  lemma HourField(t: DateTime)
    requires Printable(t)
    ensures WellFormed(IsoFormat)
    ensures Match(IsoFormat, 6, Format(t), 11, DateTime(t.date, 0, 0, 0, 0))
      == if t.hour <= 23 then Match(IsoFormat, 8, Format(t), 14, DateTime(t.date, t.hour, 0, 0, 0)) else None
  {
    IsoFormatWellFormed();
    FormatLayout(t);
    LiteralStep(IsoFormat, 7, Format(t), 13, DateTime(t.date, t.hour, 0, 0, 0));
    TwoDigitField(IsoFormat, 6, Format(t), 11, DateTime(t.date, 0, 0, 0, 0), t.hour);
    TwoValue(t.hour);
  }

  lemma DayField(t: DateTime)
    requires Printable(t)
    ensures WellFormed(IsoFormat)
    ensures Match(IsoFormat, 4, Format(t), 8, DateTime(Date(t.date.year, t.date.month, 1), 0, 0, 0, 0))
      == if 1 <= t.date.day <= 31 then Match(IsoFormat, 6, Format(t), 11, DateTime(t.date, 0, 0, 0, 0)) else None
  {
    IsoFormatWellFormed();
    FormatLayout(t);
    LiteralStep(IsoFormat, 5, Format(t), 10, DateTime(t.date, 0, 0, 0, 0));
    TwoDigitField(IsoFormat, 4, Format(t), 8, DateTime(Date(t.date.year, t.date.month, 1), 0, 0, 0, 0), t.date.day);
    TwoValue(t.date.day);
  }

  lemma MonthField(t: DateTime)
    requires Printable(t)
    ensures WellFormed(IsoFormat)
    ensures Match(IsoFormat, 2, Format(t), 5, DateTime(Date(t.date.year, 1, 1), 0, 0, 0, 0))
      == if 1 <= t.date.month <= 12 then Match(IsoFormat, 4, Format(t), 8, DateTime(Date(t.date.year, t.date.month, 1), 0, 0, 0, 0)) else None
  {
    IsoFormatWellFormed();
    FormatLayout(t);
    LiteralStep(IsoFormat, 3, Format(t), 7, DateTime(Date(t.date.year, t.date.month, 1), 0, 0, 0, 0));
    TwoDigitField(IsoFormat, 2, Format(t), 5, DateTime(Date(t.date.year, 1, 1), 0, 0, 0, 0), t.date.month);
    TwoValue(t.date.month);
  }

  /** Where `Format` puts each field. */
  lemma FormatLayout(t: DateTime)
    requires Printable(t)
    ensures var s := Format(t);
      |s| == 25 && s[..4] == Four(t.date.year) && s[4] == '-'
      && s[5..7] == Two(t.date.month) && s[7] == '-'
      && s[8..10] == Two(t.date.day) && s[10] == 'T'
      && s[11..13] == Two(t.hour) && s[13] == ':'
      && s[14..16] == Two(t.minute) && s[16] == ':'
      && s[17..19] == Two(t.second) && s[19..] == OffsetText(t.utcOffset)
  {
  }

  lemma LiteralStep(format: seq<Directive>, i: nat, s: string, p: nat, t: DateTime)
    requires WellFormed(format) && i < |format| && format[i].Literal?
    requires p < |s| && s[p] == format[i].c
    ensures Match(format, i, s, p, t) == Match(format, i + 1, s, p + 1, t)
  {
  }

  /** A short field written as two digits `Two(n)` and followed by a literal or the offset. */
  lemma TwoDigitField(format: seq<Directive>, i: nat, s: string, p: nat, t: DateTime, n: nat)
    requires WellFormed(format) && i + 1 < |format| && IsShortField(format[i])
    requires format[i + 1].Literal? ==> !IsDigit(format[i + 1].c)
    requires n < 100 && p + 2 < |s| && s[p..p + 2] == Two(n) && Begins(format[i + 1], s[p + 2])
    ensures Match(format, i, s, p, t) ==
      if FieldAccepts(format[i], Two(n)) then Match(format, i + 1, s, p + 2, SetField(t, format[i], n)) else None
  {
    TwoValue(n);
    assert s[p + 1] == Two(n)[1] && IsDigit(s[p + 1]);
    assert !Begins(format[i + 1], s[p + 1]);
  }

  lemma {:induction false} DigitsBound(t: string)
    requires AllDigits(t)
    ensures DigitsValue(t) < Pow10(|t|)
    decreases |t|
  {
    if |t| > 0 {
      DigitsBound(t[..|t| - 1]);
    }
  }

  /** A fraction of one to six digits, padded to six, is under a million microseconds. */
  lemma FractionBound(f: string)
    requires AllDigits(f) && |f| <= 6
    ensures DigitsValue(f) * Pow10(6 - |f|) < 1_000_000
  {
    var v, p := DigitsValue(f), Pow10(6 - |f|);
    DigitsBound(f);
    Pow10Split(|f|, 6 - |f|);
    assert Pow10(6) == 1_000_000;
    assert v * p < Pow10(|f|) * p by {
      assert v + 1 <= Pow10(|f|);
      assert (v + 1) * p <= Pow10(|f|) * p;
    }
  }

  lemma {:induction false} Pow10Split(a: nat, b: nat)
    ensures Pow10(a) * Pow10(b) == Pow10(a + b)
  {
    if a > 0 {
      Pow10Split(a - 1, b);
    }
  }
}
