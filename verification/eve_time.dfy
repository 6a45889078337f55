/**
 * `parseEveTime`: reading a 24-hour EVE (UTC) wall-clock time in one of three
 * textual forms, with an optional year-month-day date, into a UTC instant.
 */
module EveTime {
  import opened Wrappers
  import opened Text
  import opened Calendar
  import opened Zones

  // ---------------------------------------------------------------------
  // The three accepted forms, as relations between a text and its captures
  // ---------------------------------------------------------------------

  /** `^(\d{1,2}):(\d{2})$`: one or two digits, a colon, two digits. */
  predicate ColonForm(t: string, hd: string, md: string) {
    1 <= |hd| <= 2 && |md| == 2 && AllDigits(hd) && AllDigits(md) && t == hd + ":" + md
  }

  /** `^(\d{2})(\d{2})$`: exactly four digits. */
  predicate FourDigitForm(t: string, hd: string, md: string) {
    |hd| == 2 && |md| == 2 && AllDigits(hd) && AllDigits(md) && t == hd + md
  }

  /** `^(\d{1,2})$`: one or two digits, an hour alone. */
  predicate HourForm(t: string, hd: string) {
    1 <= |hd| <= 2 && AllDigits(hd) && t == hd
  }

  /** A text some form accepts. */
  ghost predicate IsEveTimeText(t: string) {
    || (exists hd, md :: ColonForm(t, hd, md))
    || (exists hd, md :: FourDigitForm(t, hd, md))
    || (exists hd :: HourForm(t, hd))
  }

  /** Where the captures of each form must stand. */
  lemma ColonFormShape(t: string, hd: string, md: string)
    requires ColonForm(t, hd, md)
    ensures |t| == |hd| + 3 && hd == t[..|hd|] && t[|hd|] == ':' && md == t[|hd| + 1..]
  {
    assert t[..|hd|] == hd;
    assert t[|hd| + 1..] == md;
  }

  lemma FourDigitFormShape(t: string, hd: string, md: string)
    requires FourDigitForm(t, hd, md)
    ensures |t| == 4 && AllDigits(t) && hd == t[..2] && md == t[2..]
  {
    assert t[..2] == hd;
    assert t[2..] == md;
  }

  /** The colon form's matcher: the captures, when the text has that form; they are unique. */
  function MatchColon(t: string): (r: Option<(string, string)>)
    ensures r.Some? ==> ColonForm(t, r.value.0, r.value.1)
    ensures forall hd, md | ColonForm(t, hd, md) :: r == Some((hd, md))
  {
    assert forall hd, md | ColonForm(t, hd, md) :: |t| == |hd| + 3 && hd == t[..|hd|] && t[|hd|] == ':' && md == t[|hd| + 1..] by {
      forall hd, md | ColonForm(t, hd, md)
        ensures |t| == |hd| + 3 && hd == t[..|hd|] && t[|hd|] == ':' && md == t[|hd| + 1..]
      {
        ColonFormShape(t, hd, md);
      }
    }
    if |t| == 4 && t[1] == ':' && AllDigits(t[..1]) && AllDigits(t[2..]) then
      assert t == t[..1] + ":" + t[2..];
      Some((t[..1], t[2..]))
    else if |t| == 5 && t[2] == ':' && AllDigits(t[..2]) && AllDigits(t[3..]) then
      assert t == t[..2] + ":" + t[3..];
      Some((t[..2], t[3..]))
    else
      None
  }

  /** The four-digit form's matcher. */
  function MatchFourDigits(t: string): (r: Option<(string, string)>)
    ensures r.Some? ==> FourDigitForm(t, r.value.0, r.value.1)
    ensures forall hd, md | FourDigitForm(t, hd, md) :: r == Some((hd, md))
  {
    assert forall hd, md | FourDigitForm(t, hd, md) :: |t| == 4 && AllDigits(t) && hd == t[..2] && md == t[2..] by {
      forall hd, md | FourDigitForm(t, hd, md)
        ensures |t| == 4 && AllDigits(t) && hd == t[..2] && md == t[2..]
      {
        FourDigitFormShape(t, hd, md);
      }
    }
    if |t| == 4 && AllDigits(t) then
      assert t == t[..2] + t[2..];
      Some((t[..2], t[2..]))
    else
      None
  }

  /** The hour-only form's matcher. */
  function MatchHour(t: string): (r: Option<string>)
    ensures r.Some? ==> HourForm(t, r.value)
    ensures forall hd | HourForm(t, hd) :: r == Some(hd)
  {
    if 1 <= |t| <= 2 && AllDigits(t) then Some(t) else None
  }

  /** No text has two of the forms: the colon sets the first apart, and length the other two. */
  lemma FormsAreDisjoint(t: string)
    ensures !(MatchColon(t).Some? && MatchFourDigits(t).Some?)
    ensures !(MatchColon(t).Some? && MatchHour(t).Some?)
    ensures !(MatchFourDigits(t).Some? && MatchHour(t).Some?)
  {
    if MatchColon(t).Some? {
      var hd := MatchColon(t).value.0;
      ColonFormShape(t, hd, MatchColon(t).value.1);
      assert !IsDigit(t[|hd|]);
    }
  }

  /**
   * The hour and minute a text reads as: the forms are tried in the order
   * colon, four digits, hour alone, and the first match gives the values
   * (`parseInt` of an all-digit capture is its decimal value; a missing
   * minute is 0).
   */
  function ReadClock(t: string): (r: Option<(int, int)>)
    ensures r.Some? <==> IsEveTimeText(t)
    ensures forall hd, md | ColonForm(t, hd, md) :: r == Some((Decimal(hd), Decimal(md)))
    ensures forall hd, md | FourDigitForm(t, hd, md) :: r == Some((Decimal(hd), Decimal(md)))
    ensures forall hd | HourForm(t, hd) :: r == Some((Decimal(hd), 0))
    ensures r.Some? ==> 0 <= r.value.0 < 100 && 0 <= r.value.1 < 100
  {
    FormsAreDisjoint(t);
    assert forall hd | AllDigits(hd) && 1 <= |hd| <= 2 :: Decimal(hd) < 100 by {
      forall hd | AllDigits(hd) && 1 <= |hd| <= 2
        ensures Decimal(hd) < 100
      {
        DecimalOfShort(hd);
      }
    }
    match MatchColon(t)
    case Some((hd, md)) => Some((Decimal(hd), Decimal(md)))
    case None =>
      match MatchFourDigits(t)
      case Some((hd, md)) => Some((Decimal(hd), Decimal(md)))
      case None =>
        match MatchHour(t)
        case Some(hd) => Some((Decimal(hd), 0))
        case None => None
  }

  // ---------------------------------------------------------------------
  // Dates
  // ---------------------------------------------------------------------

  /** Year, month and day as `parseInt` gives them; `None` stands for `NaN`. */
  datatype DateFields = DateFields(year: Option<int>, month: Option<int>, day: Option<int>)

  function FieldsOfDate(d: Date): DateFields {
    DateFields(Some(d.year), Some(d.month), Some(d.day))
  }

  /** The characters a date string is split on: `-` and `/`. */
  const DateSeparators: set<char> := {'-', '/'}

  /**
   * The parts of a date string that splits into exactly three pieces, each
   * read with `parseInt`; nothing when the count of pieces is different.
   */
  function SplitDate(dateStr: string): (r: Option<DateFields>)
    ensures r.Some? <==> CountOf(dateStr, DateSeparators) == 2
  {
    var parts := SplitOn(dateStr, DateSeparators);
    if |parts| == 3 then Some(DateFields(ParseInt(parts[0]), ParseInt(parts[1]), ParseInt(parts[2])))
    else None
  }

  /**
   * The date `parseEveTime` builds on: the parts of a given date string when
   * it splits into three, and otherwise (no date, an empty one, or one with
   * a different number of parts) the clock's UTC date.
   */
  function EveDateFields(dateStr: Option<string>, clock: Instant): DateFields {
    if IsTruthy(dateStr) && SplitDate(dateStr.value).Some? then SplitDate(dateStr.value).value
    else FieldsOfDate(UtcDate(clock))
  }

  /**
   * `DateTime.utc(year, month, day, hour, minute)` for an hour and minute in
   * range: a valid instant exactly when every part is a number, the date
   * exists, and the instant lies within the ECMAScript time range.
   */
  function UtcInstant(f: DateFields, hour: int, minute: int): (r: Option<Instant>)
    requires 0 <= hour < 24 && 0 <= minute < 60
    ensures r.Some? ==> FieldsOfDate(UtcDate(r.value)) == f
    ensures r.Some? ==> UtcHour(r.value) == hour && UtcMinute(r.value) == minute
    ensures r.Some? ==> r.value.ms % MsPerMinute == 0 && InTimeRange(r.value.ms)
    ensures f.year.Some? && f.month.Some? && f.day.Some? ==>
      var d := Date(f.year.value, f.month.value, f.day.value);
      (r.Some? <==> ValidDate(d) && InTimeRange(UtcMs(d, hour, minute)))
  {
    if f.year.Some? && f.month.Some? && f.day.Some? then
      var d := Date(f.year.value, f.month.value, f.day.value);
      if ValidDate(d) && InTimeRange(UtcMs(d, hour, minute)) then
        UtcFieldsRoundTrip(d, hour, minute);
        Some(Instant(UtcMs(d, hour, minute)))
      else None
    else None
  }

  // ---------------------------------------------------------------------
  // parseEveTime
  // ---------------------------------------------------------------------

  /** The text the forms are matched against: trimmed, then upper-cased. */
  function CleanTime(timeStr: string): string {
    ToUpper(Trim(timeStr))
  }

  /**
   * `parseEveTime`. A result is a UTC date-time at a whole minute whose hour
   * and minute are what the time text reads as, and whose date is the one
   * the date string (or the clock) supplies.
   */
  function ParseEveTime(timeStr: string, dateStr: Option<string>, clock: Instant): (r: Option<DateTime>)
    ensures timeStr == "" ==> r == None
    ensures r.Some? ==> r.value.zone == Utc && r.value.instant.ms % MsPerMinute == 0
    ensures r.Some? ==> ReadClock(CleanTime(timeStr)) == Some((UtcHour(r.value.instant), UtcMinute(r.value.instant)))
    ensures r.Some? ==> FieldsOfDate(UtcDate(r.value.instant)) == EveDateFields(dateStr, clock)
    ensures r.Some? ==> InTimeRange(r.value.instant.ms)
  {
    if timeStr == "" then None
    else
      var fields := EveDateFields(dateStr, clock);
      match ReadClock(CleanTime(timeStr))
      case None => None
      case Some((hour, minute)) =>
        if hour < 0 || hour > 23 || minute < 0 || minute > 59 then None
        else
          match UtcInstant(fields, hour, minute)
          case None => None
          case Some(t) => Some(DateTime(t, Utc))
  }

  /** Text that matches no form, or matches with an hour above 23 or a minute above 59, is refused; nothing is clamped. */
  lemma ParseRefusesBadClock(timeStr: string, dateStr: Option<string>, clock: Instant)
    requires match ReadClock(CleanTime(timeStr))
      case None => true
      case Some((h, m)) => h > 23 || m > 59
    ensures ParseEveTime(timeStr, dateStr, clock) == None
  {
  }

  /** A date string that does not split into three parts is ignored, as if no date were given. */
  lemma ParseIgnoresMalformedDate(timeStr: string, dateStr: string, clock: Instant)
    requires SplitDate(dateStr).None?
    ensures ParseEveTime(timeStr, Some(dateStr), clock) == ParseEveTime(timeStr, None, clock)
  {
  }

  /** A clock reading inside the ECMAScript time range, short of its very last day. */
  predicate ClockInRange(clock: Instant) {
    -MaxTimeMs <= clock.ms < MaxTimeMs
  }

  /** Every minute of the clock's UTC day lies within the time range. */
  lemma ClockDayInRange(clock: Instant, hour: int, minute: int)
    requires ClockInRange(clock) && 0 <= hour < 24 && 0 <= minute < 60
    ensures var day := UtcMs(UtcDate(clock), 0, 0);
      && day <= clock.ms < day + MsPerDay
      && day <= UtcMs(UtcDate(clock), hour, minute) < day + MsPerDay
      && InTimeRange(UtcMs(UtcDate(clock), hour, minute))
  {
    var z := DaysFromCivil(UtcDate(clock));
    assert z * MsPerDay <= clock.ms < z * MsPerDay + MsPerDay;
    assert -100_000_000 <= z < 100_000_000;
  }

  /**
   * With no date, a time in range is placed on the clock's UTC day at that
   * hour and minute.
   */
  lemma ParseWithoutDate(timeStr: string, clock: Instant, hour: int, minute: int)
    requires ClockInRange(clock) && timeStr != ""
    requires ReadClock(CleanTime(timeStr)) == Some((hour, minute)) && hour <= 23 && minute <= 59
    ensures ParseEveTime(timeStr, None, clock) == Some(DateTime(Instant(UtcMs(UtcDate(clock), hour, minute)), Utc))
  {
    var d := UtcDate(clock);
    ClockDayInRange(clock, hour, minute);
    assert EveDateFields(None, clock) == FieldsOfDate(d);
    assert UtcInstant(FieldsOfDate(d), hour, minute) == Some(Instant(UtcMs(d, hour, minute)));
  }

  /** A date written as three runs of digits joined by `-` or `/` reads as those three numbers. */
  lemma SplitDateOfDigits(y: string, s1: char, m: string, s2: char, d: string)
    requires AllDigits(y) && AllDigits(m) && AllDigits(d) && y != [] && m != [] && d != []
    requires s1 in DateSeparators && s2 in DateSeparators
    ensures SplitDate(y + [s1] + m + [s2] + d) == Some(DateFields(Some(Decimal(y)), Some(Decimal(m)), Some(Decimal(d))))
  {
    assert forall c | c in DateSeparators :: !IsDigit(c);
    SplitOnThree(y, s1, m, s2, d, DateSeparators);
    ParseIntDigits([], y);
    ParseIntDigits([], m);
    ParseIntDigits([], d);
    assert [] + y == y && [] + m == m && [] + d == d;
  }

  /** Past the clock check, the event-time parser answers with the UTC instant of its date fields. */
  lemma ParsePlaces(timeStr: string, dateStr: Option<string>, now: Instant, hour: int, minute: int)
    requires timeStr != "" && ReadClock(CleanTime(timeStr)) == Some((hour, minute)) && 0 <= hour <= 23 && 0 <= minute <= 59
    ensures var p := ParseEveTime(timeStr, dateStr, now);
      var u := UtcInstant(EveDateFields(dateStr, now), hour, minute);
      && (p.Some? <==> u.Some?)
      && (p.Some? ==> p.value == DateTime(u.value, Utc))
  {
  }

  /**
   * With a date of three numbers, a time in range is placed on that date
   * when the date exists and the instant is within the time range, and is
   * refused otherwise.
   */
  lemma ParseWithDate(timeStr: string, dateStr: string, clock: Instant, d: Date, hour: int, minute: int)
    requires timeStr != "" && dateStr != ""
    requires SplitDate(dateStr) == Some(FieldsOfDate(d))
    requires ReadClock(CleanTime(timeStr)) == Some((hour, minute)) && 0 <= hour <= 23 && 0 <= minute <= 59
    ensures ParseEveTime(timeStr, Some(dateStr), clock) ==
      if ValidDate(d) && InTimeRange(UtcMs(d, hour, minute)) then Some(DateTime(Instant(UtcMs(d, hour, minute)), Utc))
      else None
  {
    var f := FieldsOfDate(d);
    assert EveDateFields(Some(dateStr), clock) == f;
    ParsePlaces(timeStr, Some(dateStr), clock, hour, minute);
    if ValidDate(d) && InTimeRange(UtcMs(d, hour, minute)) {
      assert UtcInstant(f, hour, minute) == Some(Instant(UtcMs(d, hour, minute)));
    } else {
      assert UtcInstant(f, hour, minute) == None;
    }
  }

  // ---------------------------------------------------------------------
  // Examples
  // ---------------------------------------------------------------------

  /** Text with no surrounding white space and no lower-case letter is matched as typed. */
  lemma CleanPlainTime(t: string)
    requires IsPlainKey(t)
    ensures CleanTime(t) == t
  {
    LeadingSpaceIs(t, 0);
    TrailingSpaceStartIs(t, |t|);
    assert Trim(t) == t;
    assert ToUpper(t) == t;
  }

  // Readings of the clock text, one literal per lemma.

  lemma ReadClockColon()
    ensures ReadClock("19:00") == Some((19, 0))
  {
    DecimalOfShort("19");
    DecimalOfShort("00");
    assert ColonForm("19:00", "19", "00");
  }

  lemma ReadClockLeadingZero()
    ensures ReadClock("07:30") == Some((7, 30))
  {
    DecimalOfShort("07");
    DecimalOfShort("30");
    assert ColonForm("07:30", "07", "30");
  }

  lemma ReadClockFourDigits()
    ensures ReadClock("1900") == Some((19, 0))
  {
    DecimalOfShort("19");
    DecimalOfShort("00");
    assert FourDigitForm("1900", "19", "00");
  }

  lemma ReadClockHour()
    ensures ReadClock("19") == Some((19, 0))
  {
    DecimalOfShort("19");
    assert HourForm("19", "19");
  }

  lemma ReadClockSingleDigit()
    ensures ReadClock("7") == Some((7, 0))
  {
    DecimalOfShort("7");
    assert HourForm("7", "7");
  }

  lemma ReadClockThreeDigits()
    ensures ReadClock("730") == None
  {
  }

  lemma ReadClockShortMinute()
    ensures ReadClock("1:5") == None
  {
  }

  lemma ReadClockMissingMinute()
    ensures ReadClock("19:") == None
  {
  }

  lemma ReadClockFiveDigits()
    ensures ReadClock("12345") == None
  {
  }

  lemma ReadClockHour24()
    ensures ReadClock("24:00") == Some((24, 0))
  {
    DecimalOfShort("24");
    DecimalOfShort("00");
    assert ColonForm("24:00", "24", "00");
  }

  lemma ReadClockHour24FourDigits()
    ensures ReadClock("2400") == Some((24, 0))
  {
    DecimalOfShort("24");
    DecimalOfShort("00");
    assert FourDigitForm("2400", "24", "00");
  }

  lemma ReadClockMinute60()
    ensures ReadClock("19:60") == Some((19, 60))
  {
    DecimalOfShort("19");
    DecimalOfShort("60");
    assert ColonForm("19:60", "19", "60");
  }

  // What the parser makes of them.

  /** "19:00" is 19:00 on the clock's UTC day. */
  lemma ParseColonExample(clock: Instant)
    requires ClockInRange(clock)
    ensures ParseEveTime("19:00", None, clock) == Some(DateTime(Instant(UtcMs(UtcDate(clock), 19, 0)), Utc))
  {
    ReadClockColon();
    CleanPlainTime("19:00");
    ParseWithoutDate("19:00", clock, 19, 0);
  }

  /** "1900" is 19:00 on the clock's UTC day. */
  lemma ParseFourDigitExample(clock: Instant)
    requires ClockInRange(clock)
    ensures ParseEveTime("1900", None, clock) == Some(DateTime(Instant(UtcMs(UtcDate(clock), 19, 0)), Utc))
  {
    ReadClockFourDigits();
    CleanPlainTime("1900");
    ParseWithoutDate("1900", clock, 19, 0);
  }

  /** "19" is 19:00 on the clock's UTC day. */
  lemma ParseHourExample(clock: Instant)
    requires ClockInRange(clock)
    ensures ParseEveTime("19", None, clock) == Some(DateTime(Instant(UtcMs(UtcDate(clock), 19, 0)), Utc))
  {
    ReadClockHour();
    CleanPlainTime("19");
    ParseWithoutDate("19", clock, 19, 0);
  }

  /** A leading zero is read as decimal: "07:30" is 7:30. */
  lemma ParseLeadingZeroExample(clock: Instant)
    requires ClockInRange(clock)
    ensures ParseEveTime("07:30", None, clock) == Some(DateTime(Instant(UtcMs(UtcDate(clock), 7, 30)), Utc))
  {
    ReadClockLeadingZero();
    CleanPlainTime("07:30");
    ParseWithoutDate("07:30", clock, 7, 30);
  }

  /** Surrounding white space is trimmed before matching: " 7 " is 7:00. */
  lemma ParsePaddedExample(clock: Instant)
    requires ClockInRange(clock)
    ensures ParseEveTime(" 7 ", None, clock) == Some(DateTime(Instant(UtcMs(UtcDate(clock), 7, 0)), Utc))
  {
    LeadingSpaceIs(" 7 ", 1);
    assert TrimStart(" 7 ") == "7 ";
    TrailingSpaceStartIs("7 ", 1);
    assert Trim(" 7 ") == "7";
    assert CleanTime(" 7 ") == "7";
    ReadClockSingleDigit();
    ParseWithoutDate(" 7 ", clock, 7, 0);
  }

  /** Three digits match no form. */
  lemma ParseRejectsThreeDigits(dateStr: Option<string>, clock: Instant)
    ensures ParseEveTime("730", dateStr, clock) == None
  {
    ReadClockThreeDigits();
    CleanPlainTime("730");
    ParseRefusesBadClock("730", dateStr, clock);
  }

  /** A one-digit minute matches no form. */
  lemma ParseRejectsShortMinute(dateStr: Option<string>, clock: Instant)
    ensures ParseEveTime("1:5", dateStr, clock) == None
  {
    ReadClockShortMinute();
    CleanPlainTime("1:5");
    ParseRefusesBadClock("1:5", dateStr, clock);
  }

  /** A colon with no minute matches no form. */
  lemma ParseRejectsMissingMinute(dateStr: Option<string>, clock: Instant)
    ensures ParseEveTime("19:", dateStr, clock) == None
  {
    ReadClockMissingMinute();
    CleanPlainTime("19:");
    ParseRefusesBadClock("19:", dateStr, clock);
  }

  /** Five digits match no form. */
  lemma ParseRejectsFiveDigits(dateStr: Option<string>, clock: Instant)
    ensures ParseEveTime("12345", dateStr, clock) == None
  {
    ReadClockFiveDigits();
    CleanPlainTime("12345");
    ParseRefusesBadClock("12345", dateStr, clock);
  }

  /** Hour 24 is read but refused, not wrapped to 0. */
  lemma ParseRejectsHour24(dateStr: Option<string>, clock: Instant)
    ensures ParseEveTime("24:00", dateStr, clock) == None
  {
    ReadClockHour24();
    CleanPlainTime("24:00");
    ParseRefusesBadClock("24:00", dateStr, clock);
  }

  /** The four-digit form refuses hour 24 as well. */
  lemma ParseRejectsHour24FourDigits(dateStr: Option<string>, clock: Instant)
    ensures ParseEveTime("2400", dateStr, clock) == None
  {
    ReadClockHour24FourDigits();
    CleanPlainTime("2400");
    ParseRefusesBadClock("2400", dateStr, clock);
  }

  /** Minute 60 is read but refused, not carried into the hour. */
  lemma ParseRejectsMinute60(dateStr: Option<string>, clock: Instant)
    ensures ParseEveTime("19:60", dateStr, clock) == None
  {
    ReadClockMinute60();
    CleanPlainTime("19:60");
    ParseRefusesBadClock("19:60", dateStr, clock);
  }

  lemma SplitDateLeapDay(dateStr: string)
    requires dateStr == "2024-02-29"
    ensures SplitDate(dateStr) == Some(FieldsOfDate(Date(2024, 2, 29)))
  {
    assert dateStr == "2024" + ['-'] + "02" + ['-'] + "29";
    assert Decimal("2024") == 2024 && Decimal("02") == 2 && Decimal("29") == 29 by {
      DecimalOfFour("2024");
      DecimalOfShort("02");
      DecimalOfShort("29");
    }
    SplitDateOfDigits("2024", '-', "02", '-', "29");
  }

  lemma SplitDateNoSuchDay(dateStr: string)
    requires dateStr == "2023/02/29"
    ensures SplitDate(dateStr) == Some(FieldsOfDate(Date(2023, 2, 29)))
  {
    assert dateStr == "2023" + ['/'] + "02" + ['/'] + "29";
    assert Decimal("2023") == 2023 && Decimal("02") == 2 && Decimal("29") == 29 by {
      DecimalOfFour("2023");
      DecimalOfShort("02");
      DecimalOfShort("29");
    }
    SplitDateOfDigits("2023", '/', "02", '/', "29");
  }

  /** "19:00" needs no cleaning and reads as 19:00. */
  lemma CleanClockNineteen(timeStr: string)
    requires timeStr == "19:00"
    ensures ReadClock(CleanTime(timeStr)) == Some((19, 0))
  {
    ReadClockColon();
    CleanPlainTime(timeStr);
  }

  /** February 29 exists in 2024, and "19:00" on it is that day's 19:00 UTC. */
  lemma ParseLeapDayExample(timeStr: string, dateStr: string, clock: Instant)
    requires timeStr == "19:00" && dateStr == "2024-02-29"
    ensures ParseEveTime(timeStr, Some(dateStr), clock) == Some(DateTime(Instant(UtcMs(Date(2024, 2, 29), 19, 0)), Utc))
  {
    CleanClockNineteen(timeStr);
    LeapDay2024();
    SplitDateLeapDay(dateStr);
    ParseWithDate(timeStr, dateStr, clock, Date(2024, 2, 29), 19, 0);
  }

  /** February 29 does not exist in 2023: the date is refused rather than rolled into March. */
  lemma ParseNoSuchDayExample(dateStr: string, clock: Instant)
    requires dateStr == "2023/02/29"
    ensures ParseEveTime("19:00", Some(dateStr), clock) == None
  {
    SplitDateNoSuchDay(dateStr);
    assert EveDateFields(Some(dateStr), clock) == FieldsOfDate(Date(2023, 2, 29));
    NoLeapDay2023();
  }

  lemma SplitDateMonth13(dateStr: string)
    requires dateStr == "2024-13-01"
    ensures SplitDate(dateStr) == Some(FieldsOfDate(Date(2024, 13, 1)))
  {
    assert dateStr == "2024" + ['-'] + "13" + ['-'] + "01";
    assert Decimal("2024") == 2024 && Decimal("13") == 13 && Decimal("01") == 1 by {
      DecimalOfFour("2024");
      DecimalOfShort("13");
      DecimalOfShort("01");
    }
    SplitDateOfDigits("2024", '-', "13", '-', "01");
  }

  /** There is no month 13: the date is refused rather than rolled into the next year. */
  lemma ParseMonth13Example(timeStr: string, dateStr: string, clock: Instant)
    requires timeStr == "19:00" && dateStr == "2024-13-01"
    ensures ParseEveTime(timeStr, Some(dateStr), clock) == None
  {
    CleanClockNineteen(timeStr);
    SplitDateMonth13(dateStr);
    ParseWithDate(timeStr, dateStr, clock, Date(2024, 13, 1), 19, 0);
  }
}
