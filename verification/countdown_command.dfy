/**
 * The `/countdown` command: parse the event time, move a time without a
 * date that has already passed today to tomorrow, refuse what is still in
 * the past, and describe the time left as `Nd Nh Nm`.
 */
module CountdownCommand {
  import opened Wrappers
  import opened Text
  import opened Calendar
  import opened Zones
  import opened EveTime

  // ---------------------------------------------------------------------
  // Scheduling
  // ---------------------------------------------------------------------

  /** Why `/countdown` refuses: the time text, or an event that lies in the past. */
  datatype CountdownError = BadFormat | InPast

  /** `plus({ days: 1 })` on a date-time: one day later, in the same zone. */
  function PlusDay(dt: DateTime): (r: DateTime)
    ensures r.zone == dt.zone && r.instant.ms - dt.instant.ms == MsPerDay
  {
    DateTime(Instant(dt.instant.ms + MsPerDay), dt.zone)
  }

  /**
   * What the day added means on the calendar: the same UTC time of day on
   * the next calendar date, with month and year rolling over as the calendar
   * says. In UTC a calendar day is always 86 400 000 ms.
   */
  lemma PlusDayIsNextDay(dt: DateTime)
    ensures UtcDate(PlusDay(dt).instant) == NextDate(UtcDate(dt.instant))
    ensures DaysFromCivil(UtcDate(PlusDay(dt).instant)) == DaysFromCivil(UtcDate(dt.instant)) + 1
    ensures UtcHour(PlusDay(dt).instant) == UtcHour(dt.instant)
    ensures UtcMinute(PlusDay(dt).instant) == UtcMinute(dt.instant)
    ensures MsOfDay(PlusDay(dt).instant) == MsOfDay(dt.instant)
  {
    NextDay(dt.instant);
  }

  /**
   * The rollover and the past check for a parsed event and a reading of the
   * clock: an event without a date that is already over moves one day on,
   * once; whatever is then still before `now` is refused.
   */
  function Schedule(event: DateTime, dated: bool, now: Instant): (r: Result<DateTime, CountdownError>)
    ensures r.Ok? ==> now.ms <= r.value.instant.ms
    ensures r.Err? ==> r.error == InPast
    ensures dated ==> (r.Ok? <==> now.ms <= event.instant.ms) && (r.Ok? ==> r.value == event)
    ensures !dated && now.ms <= event.instant.ms ==> r == Ok(event)
    ensures !dated && event.instant.ms < now.ms ==>
      && (r.Ok? <==> now.ms <= event.instant.ms + MsPerDay)
      && (r.Ok? ==> r.value.instant.ms == event.instant.ms + MsPerDay && r.value.zone == event.zone)
  {
    var t := if !dated && event.instant.ms < now.ms then PlusDay(event) else event;
    if t.instant.ms < now.ms then Err(InPast) else Ok(t)
  }

  /**
   * `/countdown`'s `execute` up to the reply, as written: the event time is
   * parsed against `parseClock`, the clock reading taken inside the parser,
   * and then compared with `now`, a second reading taken afterwards.
   */
  function CountdownAsWritten(timeStr: string, dateStr: Option<string>, parseClock: Instant, now: Instant): (r: Result<DateTime, CountdownError>)
    ensures r == Err(BadFormat) <==> ParseEveTime(timeStr, dateStr, parseClock).None?
    ensures r.Ok? ==> now.ms <= r.value.instant.ms && r.value.zone == Utc
    ensures IsTruthy(dateStr) && r.Ok? ==> ParseEveTime(timeStr, dateStr, parseClock) == Some(r.value)
    ensures IsTruthy(dateStr) && ParseEveTime(timeStr, dateStr, parseClock).Some? ==>
      (r == Err(InPast) <==> ParseEveTime(timeStr, dateStr, parseClock).value.instant.ms < now.ms)
  {
    match ParseEveTime(timeStr, dateStr, parseClock)
    case None => Err(BadFormat)
    case Some(event) =>
      match Schedule(event, IsTruthy(dateStr), now)
      case Err(e) => Err(e)
      case Ok(t) => Ok(t)
  }

  /** `/countdown` with one reading of the clock, used both to parse and to compare. */
  function Countdown(timeStr: string, dateStr: Option<string>, now: Instant): (r: Result<DateTime, CountdownError>)
    ensures r == Err(BadFormat) <==> ParseEveTime(timeStr, dateStr, now).None?
    ensures r.Ok? ==> now.ms <= r.value.instant.ms && r.value.zone == Utc
    ensures IsTruthy(dateStr) && r.Ok? ==> ParseEveTime(timeStr, dateStr, now) == Some(r.value)
  {
    CountdownAsWritten(timeStr, dateStr, now, now)
  }

  /** Two instants in the same UTC day are less than a day apart. */
  lemma SameDayWithinDay(a: Instant, b: Instant)
    requires UtcDate(a) == UtcDate(b)
    ensures -MsPerDay < a.ms - b.ms < MsPerDay
  {
  }

  /**
   * A time without a date is never refused as past: it lands at or after
   * `now` and less than a day later.
   */
  lemma NoDateWindow(timeStr: string, dateStr: Option<string>, now: Instant)
    requires !IsTruthy(dateStr)
    requires ParseEveTime(timeStr, dateStr, now).Some?
    ensures Countdown(timeStr, dateStr, now).Ok?
    ensures now.ms <= Countdown(timeStr, dateStr, now).value.instant.ms < now.ms + MsPerDay
  {
    var e := ParseEveTime(timeStr, dateStr, now).value;
    assert FieldsOfDate(UtcDate(e.instant)) == FieldsOfDate(UtcDate(now));
    SameDayWithinDay(e.instant, now);
  }

  /** An event with a date that is before `now` is refused, never moved. */
  lemma DatedPastRefused(timeStr: string, dateStr: string, now: Instant)
    requires dateStr != ""
    requires ParseEveTime(timeStr, Some(dateStr), now).Some?
    requires ParseEveTime(timeStr, Some(dateStr), now).value.instant.ms < now.ms
    ensures Countdown(timeStr, Some(dateStr), now) == Err(InPast)
  {
  }

  lemma ReadClockMidnight()
    ensures ReadClock("00:00") == Some((0, 0))
  {
    DecimalOfShort("00");
    assert ColonForm("00:00", "00", "00");
  }

  /** "00:00" without a date is midnight at the start of the clock's UTC day. */
  lemma ParseMidnight(timeStr: string, clock: Instant)
    requires timeStr == "00:00" && ClockInRange(clock)
    ensures ParseEveTime(timeStr, None, clock) == Some(DateTime(Instant(UtcMs(UtcDate(clock), 0, 0)), Utc))
  {
    ReadClockMidnight();
    CleanPlainTime(timeStr);
    ParseWithoutDate(timeStr, clock, 0, 0);
  }

  /**
   * As written, "00:00" without a date is refused as past whenever the
   * command's own reading is more than a day after the start of the day
   * the parser read.
   */
  lemma RaceAcrossMidnight(timeStr: string, parseClock: Instant, now: Instant)
    requires timeStr == "00:00" && ClockInRange(parseClock)
    requires UtcMs(UtcDate(parseClock), 0, 0) + MsPerDay < now.ms
    ensures CountdownAsWritten(timeStr, None, parseClock, now) == Err(InPast)
  {
    ParseMidnight(timeStr, parseClock);
  }

  /** The last millisecond of 1970-01-01 belongs to the day that starts at the epoch. */
  lemma FirstDayStart(t: Instant)
    requires t.ms == MsPerDay - 1
    ensures UtcMs(UtcDate(t), 0, 0) == 0
  {
    DivModOf(t.ms, 0, MsPerDay - 1, MsPerDay);
  }

  /**
   * One millisecond before midnight for the parser and one after for the
   * command: "00:00" is placed on the day that is ending and then refused.
   */
  lemma MidnightRace(timeStr: string, parseClock: Instant, now: Instant)
    requires timeStr == "00:00"
    requires parseClock.ms == MsPerDay - 1 && now.ms == MsPerDay + 1
    ensures CountdownAsWritten(timeStr, None, parseClock, now) == Err(InPast)
  {
    FirstDayStart(parseClock);
    RaceAcrossMidnight(timeStr, parseClock, now);
  }

  /** With a single reading, the same request at the same moment is accepted. */
  lemma MidnightSingleReading(timeStr: string, now: Instant)
    requires timeStr == "00:00" && now == Instant(MsPerDay + 1)
    ensures Countdown(timeStr, None, now).Ok?
  {
    ParseMidnight(timeStr, now);
    NoDateWindow(timeStr, None, now);
  }

  // ---------------------------------------------------------------------
  // The countdown text
  // ---------------------------------------------------------------------

  /**
   * The time left from `now` to `event` in whole days, hours and minutes,
   * each rounded down; between two UTC instants a day is always 24 hours.
   */
  function Remaining(event: Instant, now: Instant): (r: (nat, nat, nat))
    requires now.ms <= event.ms
    ensures r.1 < 24 && r.2 < 60
    ensures Span(r) <= event.ms - now.ms < Span(r) + MsPerMinute
  {
    var left := event.ms - now.ms;
    var rest := left % MsPerDay;
    (left / MsPerDay, rest / MsPerHour, (rest % MsPerHour) / MsPerMinute)
  }

  /** The milliseconds that a count of days, hours and minutes stands for. */
  function Span(r: (nat, nat, nat)): int {
    r.0 * MsPerDay + r.1 * MsPerHour + r.2 * MsPerMinute
  }

  /** Only one count with hours below 24 and minutes below 60 brackets a given time left. */
  lemma RemainingIsUnique(event: Instant, now: Instant, r: (nat, nat, nat))
    requires now.ms <= event.ms && r.1 < 24 && r.2 < 60
    requires Span(r) <= event.ms - now.ms < Span(r) + MsPerMinute
    ensures r == Remaining(event, now)
  {
    var left := event.ms - now.ms;
    var within := left - Span(r);
    DivModOf(left, r.0, r.1 * MsPerHour + r.2 * MsPerMinute + within, MsPerDay);
    var rest := left % MsPerDay;
    DivModOf(rest, r.1, r.2 * MsPerMinute + within, MsPerHour);
    DivModOf(rest % MsPerHour, r.2, within, MsPerMinute);
  }

  /**
   * `Nd ` when there are days, `Nh ` when there are hours or days, and
   * always `Nm`.
   */
  function CountdownText(days: nat, hours: nat, minutes: nat): (r: string)
    ensures 'd' in r <==> days > 0
    ensures 'h' in r <==> hours > 0 || days > 0
    ensures r != [] && r[|r| - 1] == 'm'
  {
    NumberHasNoLetter(days, 'd');
    NumberHasNoLetter(hours, 'd');
    NumberHasNoLetter(minutes, 'd');
    NumberHasNoLetter(days, 'h');
    NumberHasNoLetter(hours, 'h');
    NumberHasNoLetter(minutes, 'h');
    (if days > 0 then NatToString(days) + "d " else "")
    + (if hours > 0 || days > 0 then NatToString(hours) + "h " else "")
    + NatToString(minutes) + "m"
  }

  lemma NumberHasNoLetter(n: nat, c: char)
    requires !IsDigit(c)
    ensures c !in NatToString(n)
  {
    var s := NatToString(n);
    forall i | 0 <= i < |s|
      ensures s[i] != c
    {
      assert IsDigit(s[i]);
    }
  }

  /** One piece of the countdown text: a number followed by its unit letter. */
  function ReadPart(p: string, unit: char): Option<nat> {
    if |p| >= 2 && p[|p| - 1] == unit && AllDigits(p[..|p| - 1]) then Some(Decimal(p[..|p| - 1]))
    else None
  }

  /** Reads days, hours and minutes back out of a countdown text; parts left out are zero. */
  function ReadCountdown(s: string): Option<(nat, nat, nat)> {
    var parts := SplitOn(s, {' '});
    if |parts| == 1 then
      match ReadPart(parts[0], 'm')
      case None => None
      case Some(m) => Some((0, 0, m))
    else if |parts| == 2 then
      match (ReadPart(parts[0], 'h'), ReadPart(parts[1], 'm'))
      case (Some(h), Some(m)) => Some((0, h, m))
      case _ => None
    else if |parts| == 3 then
      match (ReadPart(parts[0], 'd'), ReadPart(parts[1], 'h'), ReadPart(parts[2], 'm'))
      case (Some(d), Some(h), Some(m)) => Some((d, h, m))
      case _ => None
    else None
  }

  /** A number followed by its unit letter, as one piece of the countdown text. */
  function Piece(n: nat, unit: char): string {
    NatToString(n) + [unit]
  }

  lemma ReadPieceOf(n: nat, unit: char)
    requires !IsDigit(unit) && unit != ' '
    ensures ReadPart(Piece(n, unit), unit) == Some(n)
    ensures NoneOf(Piece(n, unit), {' '})
  {
    var s := NatToString(n);
    assert Piece(n, unit)[..|s|] == s;
    forall i | 0 <= i < |s + [unit]|
      ensures (s + [unit])[i] !in {' '}
    {
      if i < |s| {
        assert (s + [unit])[i] == s[i];
      }
    }
  }

  // The countdown text as its pieces joined by single spaces, one shape per lemma.

  lemma DaysPieces(days: nat, hours: nat, minutes: nat)
    requires days > 0
    ensures CountdownText(days, hours, minutes)
      == Piece(days, 'd') + [' '] + Piece(hours, 'h') + [' '] + Piece(minutes, 'm')
  {
    var d, h, m := NatToString(days), NatToString(hours), NatToString(minutes);
    assert CountdownText(days, hours, minutes) == d + "d " + (h + "h ") + m + "m";
  }

  lemma HoursPieces(hours: nat, minutes: nat)
    requires hours > 0
    ensures CountdownText(0, hours, minutes) == Piece(hours, 'h') + [' '] + Piece(minutes, 'm')
  {
    var h, m := NatToString(hours), NatToString(minutes);
    assert CountdownText(0, hours, minutes) == h + "h " + m + "m";
  }

  lemma MinutesPieces(minutes: nat)
    ensures CountdownText(0, 0, minutes) == Piece(minutes, 'm')
  {
  }

  lemma SplitDaysText(days: nat, hours: nat, minutes: nat)
    requires days > 0
    ensures SplitOn(CountdownText(days, hours, minutes), {' '}) == [Piece(days, 'd'), Piece(hours, 'h'), Piece(minutes, 'm')]
  {
    DaysPieces(days, hours, minutes);
    ReadPieceOf(days, 'd');
    ReadPieceOf(hours, 'h');
    ReadPieceOf(minutes, 'm');
    SplitOnThree(Piece(days, 'd'), ' ', Piece(hours, 'h'), ' ', Piece(minutes, 'm'), {' '});
  }

  lemma SplitHoursText(hours: nat, minutes: nat)
    requires hours > 0
    ensures SplitOn(CountdownText(0, hours, minutes), {' '}) == [Piece(hours, 'h'), Piece(minutes, 'm')]
  {
    HoursPieces(hours, minutes);
    ReadPieceOf(hours, 'h');
    ReadPieceOf(minutes, 'm');
    SplitOnPiece(Piece(hours, 'h'), ' ', Piece(minutes, 'm'), {' '});
    SplitOnWhole(Piece(minutes, 'm'), {' '});
  }

  lemma SplitMinutesText(minutes: nat)
    ensures SplitOn(CountdownText(0, 0, minutes), {' '}) == [Piece(minutes, 'm')]
  {
    MinutesPieces(minutes);
    ReadPieceOf(minutes, 'm');
    SplitOnWhole(Piece(minutes, 'm'), {' '});
  }

  lemma ReadThreeParts(s: string, d: nat, h: nat, m: nat)
    requires SplitOn(s, {' '}) == [Piece(d, 'd'), Piece(h, 'h'), Piece(m, 'm')]
    ensures ReadCountdown(s) == Some((d, h, m))
  {
    ReadPieceOf(d, 'd');
    ReadPieceOf(h, 'h');
    ReadPieceOf(m, 'm');
  }

  lemma ReadTwoParts(s: string, h: nat, m: nat)
    requires SplitOn(s, {' '}) == [Piece(h, 'h'), Piece(m, 'm')]
    ensures ReadCountdown(s) == Some((0, h, m))
  {
    ReadPieceOf(h, 'h');
    ReadPieceOf(m, 'm');
  }

  lemma ReadOnePart(s: string, m: nat)
    requires SplitOn(s, {' '}) == [Piece(m, 'm')]
    ensures ReadCountdown(s) == Some((0, 0, m))
  {
    ReadPieceOf(m, 'm');
  }

  lemma ReadDaysText(days: nat, hours: nat, minutes: nat)
    requires days > 0
    ensures ReadCountdown(CountdownText(days, hours, minutes)) == Some((days, hours, minutes))
  {
    SplitDaysText(days, hours, minutes);
    ReadThreeParts(CountdownText(days, hours, minutes), days, hours, minutes);
  }

  lemma ReadHoursText(hours: nat, minutes: nat)
    requires hours > 0
    ensures ReadCountdown(CountdownText(0, hours, minutes)) == Some((0, hours, minutes))
  {
    SplitHoursText(hours, minutes);
    ReadTwoParts(CountdownText(0, hours, minutes), hours, minutes);
  }

  lemma ReadMinutesText(minutes: nat)
    ensures ReadCountdown(CountdownText(0, 0, minutes)) == Some((0, 0, minutes))
  {
    SplitMinutesText(minutes);
    ReadOnePart(CountdownText(0, 0, minutes), minutes);
  }

  /** The countdown text says exactly how many days, hours and minutes are left. */
  lemma ReadCountdownText(days: nat, hours: nat, minutes: nat)
    ensures ReadCountdown(CountdownText(days, hours, minutes)) == Some((days, hours, minutes))
  {
    if days > 0 {
      ReadDaysText(days, hours, minutes);
    } else if hours > 0 {
      ReadHoursText(hours, minutes);
    } else {
      ReadMinutesText(minutes);
    }
  }

  /**
   * The "Time Remaining" field of the reply: it reads back as days, hours
   * below 24 and minutes below 60 that bracket the time left to the minute,
   * and it shows days exactly when a day or more is left.
   */
  function TimeLeftText(event: DateTime, now: Instant): (r: string)
    requires now.ms <= event.instant.ms
    ensures ReadCountdown(r).Some?
    ensures var c := ReadCountdown(r).value;
      && c.1 < 24 && c.2 < 60
      && Span(c) <= event.instant.ms - now.ms < Span(c) + MsPerMinute
    ensures 'd' in r <==> event.instant.ms - now.ms >= MsPerDay
  {
    var c := Remaining(event.instant, now);
    ReadCountdownText(c.0, c.1, c.2);
    CountdownText(c.0, c.1, c.2)
  }

  lemma CountdownTextMinutes()
    ensures CountdownText(0, 0, 5) == "5m"
  {
  }

  lemma CountdownTextHours()
    ensures CountdownText(0, 2, 0) == "2h 0m"
  {
  }

  lemma CountdownTextDays()
    ensures CountdownText(1, 0, 3) == "1d 0h 3m"
  {
  }
}
