/**
 * What the bot shows for an instant: Discord timestamp markup built from
 * whole epoch seconds, and the zero-padded `HH:mm` short form of a time.
 */
module Display {
  import opened Wrappers
  import opened Text
  import opened Calendar
  import opened Zones
  import opened EveTime

  // ---------------------------------------------------------------------
  // Epoch seconds
  // ---------------------------------------------------------------------

  /** Whole seconds since the epoch, rounded down (towards minus infinity, not towards zero). */
  function Seconds(t: Instant): (s: int)
    ensures s * MsPerSecond <= t.ms < s * MsPerSecond + MsPerSecond
  {
    t.ms / MsPerSecond
  }

  /** The second that contains an instant is the only one `Seconds` can give. */
  lemma SecondsIsUnique(t: Instant, s: int)
    requires s * MsPerSecond <= t.ms < s * MsPerSecond + MsPerSecond
    ensures Seconds(t) == s
  {
    DivModOf(t.ms, s, t.ms - s * MsPerSecond, MsPerSecond);
  }

  /** Before 1970 rounding down and truncation differ: -1.5 s is second -2, not -1. */
  lemma SecondsRoundsDown()
    ensures Seconds(Instant(-1500)) == -2
    ensures Seconds(Instant(1500)) == 1
  {
    SecondsIsUnique(Instant(-1500), -2);
    SecondsIsUnique(Instant(1500), 1);
  }

  // ---------------------------------------------------------------------
  // Timestamp markup
  // ---------------------------------------------------------------------

  /** The style code used when none is given: long date with time. */
  const DefaultStyle: string := "F"

  /** The markup `<t:N:S>` for the floored epoch second `N` of `dt` and style code `S`. */
  function Token(dt: DateTime, style: string): (r: string)
    ensures |r| >= 6 && r[..3] == "<t:" && r[|r| - 1] == '>'
  {
    "<t:" + IntToString(Seconds(dt.instant)) + ":" + style + ">"
  }

  /** `getDiscordTimestamp`: the style code defaults to `F`. */
  function DiscordTimestamp(dt: DateTime, style: Option<string>): (r: string)
    ensures style.None? ==> r == Token(dt, DefaultStyle)
    ensures style.Some? ==> r == Token(dt, style.value)
  {
    Token(dt, if style.Some? then style.value else DefaultStyle)
  }

  /** Reads the second and the style code back out of a markup token. */
  function DecodeToken(s: string): (r: Option<(int, string)>)
  {
    if |s| < 4 || s[..3] != "<t:" || s[|s| - 1] != '>' then None
    else
      var body := s[3..|s| - 1];
      var k := IndexOf(body, ':');
      if k == |body| then None
      else
        match ParseInt(body[..k])
        case None => None
        case Some(n) => Some((n, body[k + 1..]))
  }

  /** A token decodes to its second and its style code. */
  lemma DecodeToken_Token(dt: DateTime, style: string)
    ensures DecodeToken(Token(dt, style)) == Some((Seconds(dt.instant), style))
  {
    var n := IntToString(Seconds(dt.instant));
    var s := Token(dt, style);
    var body := s[3..|s| - 1];
    assert body == n + ":" + style;
    assert forall i | 0 <= i < |n| :: n[i] != ':' by {
      if Seconds(dt.instant) < 0 {
        assert forall i | 1 <= i < |n| :: n[i] == n[1..][i - 1];
      }
    }
    assert IndexOf(body, ':') == |n| by {
      IndexOfFirst(body, n, ':');
    }
    assert body[..|n|] == n;
    assert body[|n| + 1..] == style;
    ParseIntOfIntToString(Seconds(dt.instant));
  }

  lemma {:induction false} IndexOfFirst(s: string, pre: string, c: char)
    requires |pre| < |s| && s[..|pre|] == pre && s[|pre|] == c
    requires forall i | 0 <= i < |pre| :: pre[i] != c
    ensures IndexOf(s, c) == |pre|
    decreases |pre|
  {
    if pre != [] {
      assert s[1..][..|pre| - 1] == pre[1..];
      IndexOfFirst(s[1..], pre[1..], c);
    }
  }

  /** Two tokens of one style are equal exactly when the instants fall in the same second. */
  lemma TokenEqualIffSameSecond(a: DateTime, b: DateTime, style: string)
    ensures Token(a, style) == Token(b, style) <==> Seconds(a.instant) == Seconds(b.instant)
  {
    DecodeToken_Token(a, style);
    DecodeToken_Token(b, style);
  }

  /** Two instants within the same whole second give the same token. */
  lemma SameSecondSameToken(a: DateTime, b: DateTime, s: int, style: string)
    requires s * MsPerSecond <= a.instant.ms < s * MsPerSecond + MsPerSecond
    requires s * MsPerSecond <= b.instant.ms < s * MsPerSecond + MsPerSecond
    ensures Token(a, style) == Token(b, style)
  {
    SecondsIsUnique(a.instant, s);
    SecondsIsUnique(b.instant, s);
  }

  /** Re-zoning an instant leaves its markup alone. */
  lemma ConvertKeepsToken(dt: DateTime, targetTz: string, db: TzDb, style: string)
    requires ConvertToTimezone(dt, targetTz, db).Some?
    ensures Token(ConvertToTimezone(dt, targetTz, db).value, style) == Token(dt, style)
  {
  }

  /** The seven markup styles of one instant, all sharing one second value. */
  datatype Timestamps = Timestamps(
    shortTime: string,
    longTime: string,
    shortDate: string,
    longDate: string,
    shortDateTime: string,
    longDateTime: string,
    relative: string)

  /** `getAllDiscordTimestamps`: the seven codes t, T, d, D, f, F and R. */
  function AllTimestamps(dt: DateTime): (r: Timestamps)
    ensures r.shortTime == Token(dt, "t") && r.longTime == Token(dt, "T")
    ensures r.shortDate == Token(dt, "d") && r.longDate == Token(dt, "D")
    ensures r.shortDateTime == Token(dt, "f") && r.longDateTime == Token(dt, "F")
    ensures r.relative == Token(dt, "R")
    ensures r.longDateTime == DiscordTimestamp(dt, None)
  {
    var n := IntToString(Seconds(dt.instant));
    Timestamps(
      "<t:" + n + ":t>", "<t:" + n + ":T>",
      "<t:" + n + ":d>", "<t:" + n + ":D>",
      "<t:" + n + ":f>", "<t:" + n + ":F>",
      "<t:" + n + ":R>")
  }

  /** Every token of the bundle decodes to the same second, with its own code. */
  lemma AllTimestampsShareSecond(dt: DateTime)
    ensures var r := AllTimestamps(dt); var n := Seconds(dt.instant);
      && DecodeToken(r.shortTime) == Some((n, "t"))
      && DecodeToken(r.longTime) == Some((n, "T"))
      && DecodeToken(r.shortDate) == Some((n, "d"))
      && DecodeToken(r.longDate) == Some((n, "D"))
      && DecodeToken(r.shortDateTime) == Some((n, "f"))
      && DecodeToken(r.longDateTime) == Some((n, "F"))
      && DecodeToken(r.relative) == Some((n, "R"))
  {
    DecodeToken_Token(dt, "t");
    DecodeToken_Token(dt, "T");
    DecodeToken_Token(dt, "d");
    DecodeToken_Token(dt, "D");
    DecodeToken_Token(dt, "f");
    DecodeToken_Token(dt, "F");
    DecodeToken_Token(dt, "R");
  }

  // ---------------------------------------------------------------------
  // The short form HH:mm
  // ---------------------------------------------------------------------

  /** A number below 100 as exactly two decimal digits. */
  function Pad2(n: nat): (r: string)
    requires n < 100
    ensures |r| == 2 && AllDigits(r) && Decimal(r) == n
  {
    var r := [DigitChar(n / 10), DigitChar(n % 10)];
    DecimalOfShort(r);
    r
  }

  /** `formatTime(dt, false)`: hour and minute of the wall clock in the zone of `dt`. */
  function FormatShort(dt: DateTime, db: TzDb): (r: string)
    ensures |r| == 5 && r[2] == ':' && AllDigits(r[..2]) && AllDigits(r[3..])
    ensures Decimal(r[..2]) == UtcHour(WallClock(dt, db))
    ensures Decimal(r[3..]) == UtcMinute(WallClock(dt, db))
  {
    var w := WallClock(dt, db);
    var r := Pad2(UtcHour(w)) + ":" + Pad2(UtcMinute(w));
    assert r[..2] == Pad2(UtcHour(w)) && r[3..] == Pad2(UtcMinute(w));
    r
  }

  /** The short form of a UTC instant built from an hour and minute is those two, padded. */
  lemma FormatShortOfUtc(d: Date, hour: nat, minute: nat, db: TzDb)
    requires ValidDate(d) && hour < 24 && minute < 60
    ensures FormatShort(DateTime(Instant(UtcMs(d, hour, minute)), Utc), db) == Pad2(hour) + ":" + Pad2(minute)
  {
    UtcFieldsRoundTrip(d, hour, minute);
  }

  /** The short form is read back by the time parser's colon form as the same hour and minute. */
  lemma ReadClockOfFormatShort(dt: DateTime, db: TzDb)
    ensures ReadClock(FormatShort(dt, db)) == Some((UtcHour(WallClock(dt, db)), UtcMinute(WallClock(dt, db))))
  {
    var r := FormatShort(dt, db);
    assert r == r[..2] + ":" + r[3..];
    assert ColonForm(r, r[..2], r[3..]);
  }

  /** The short form is typed as is: no padding and no lower-case letter. */
  lemma FormatShortIsPlain(dt: DateTime, db: TzDb)
    ensures IsPlainKey(FormatShort(dt, db))
  {
    var r := FormatShort(dt, db);
    assert forall i | 0 <= i < |r| :: IsDigit(r[i]) || r[i] == ':' by {
      forall i | 0 <= i < |r|
        ensures IsDigit(r[i]) || r[i] == ':'
      {
        if i < 2 {
          assert r[i] == r[..2][i];
        } else if i > 2 {
          assert r[i] == r[3..][i - 3];
        }
      }
    }
  }

  /**
   * Formatting a parsed time and parsing the short form again on the same
   * clock gives back the same date-time.
   */
  lemma ParseFormatShort(timeStr: string, clock: Instant, db: TzDb)
    requires ParseEveTime(timeStr, None, clock).Some?
    ensures ParseEveTime(FormatShort(ParseEveTime(timeStr, None, clock).value, db), None, clock)
      == ParseEveTime(timeStr, None, clock)
  {
    var dt := ParseEveTime(timeStr, None, clock).value;
    var t := dt.instant;
    var s := FormatShort(dt, db);
    var h, m := UtcHour(t), UtcMinute(t);
    FormatShortIsPlain(dt, db);
    CleanPlainTime(s);
    ReadClockOfFormatShort(dt, db);
    assert ReadClock(CleanTime(s)) == Some((h, m));
    var d := UtcDate(clock);
    assert UtcDate(t) == d;
    InstantFromFields(t);
    assert UtcInstant(EveDateFields(None, clock), h, m) == Some(t);
  }
}
