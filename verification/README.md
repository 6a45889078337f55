# eve-time-bot: time resolution and parsing, in Dafny

eve-time-bot is a Discord bot for EVE Online players. The game's server clock, "EVE time", is UTC. The bot converts between EVE time and players' local zones, and posts Discord timestamp markup that every reader's client shows in their own zone.

This project models the bot's core as pure Dafny functions and proves properties about them:

- **Zones** (`zones.dfy`): the alias table and `resolveTimezone`; `convertToTimezone`; the autocomplete catalogue `getCommonTimezones`.
- **EveTime** (`eve_time.dfy`): `parseEveTime`. It has three time grammars tried in a fixed order, a range check, an optional `Y-M-D` date split on `-` or `/`, and construction of a UTC date-time.
- **Display** (`display.dfy`): `getDiscordTimestamp` and `getAllDiscordTimestamps`, which build `<t:N:X>` markup from the floored epoch seconds, and the `HH:mm` short form of `formatTime`.
- **ConvertCommand** (`convert_command.dfy`):
  - the autocomplete filter of `/convert`, a case-insensitive substring match capped at 25 entries;
  - the checks of its `execute`, in their fixed order: unknown zone, time format, hour/minute range, date format, date/time validity. Its time grammar is a separate one.
- **CountdownCommand** (`countdown_command.dfy`): the decisions of `/countdown`. These are parse, roll a date-less time that has passed over to tomorrow, refuse a time still in the past, and write the `Nd Nh Nm` time-left text.
- **Support modules:**
  - `Calendar` (`calendar.dfy`): the proleptic Gregorian calendar, with day numbers and back, and UTC instants in milliseconds.
  - `Text` (`text.dfy`): ECMAScript `trim`, `toUpperCase` and `toLowerCase` restricted to ASCII, `parseInt`, `split`, `includes`, and number printing.
  - `Wrappers` (`wrappers.dfy`): `Option` and `Result`.

Conventions:

- **Instants.** An instant is a whole number of milliseconds since the epoch, as in the date library the bot uses. Markup seconds are `Math.floor(ms / 1000)`, and comparisons are exact.
- **Zone database.** The IANA zone database is a parameter `TzDb` of three functions that are left uninterpreted:
  - `isValid(zone)`: whether a zone name is accepted;
  - `offsetMs(zone, ms)`: the zone's UTC offset at an instant;
  - `fromLocal(zone, wallMs)`: where a local wall-clock time lands. `None` means the library reports an invalid date-time.
- **Clock readings.** Every reading of the clock is a parameter.
- **Strings.** Strings are `seq<char>`. Letter case maps ASCII letters only.

Where the prose description of the bot and its code differ, the model follows the code:

- **Markup value.** It is the floor of the epoch seconds, not truncation toward zero, so the two differ before 1970 (`Display.SecondsRoundsDown`).
- **Malformed date in `parseEveTime`.** A date string that does not split into exactly three parts is ignored and today's UTC date is used (`EveTime.ParseIgnoresMalformedDate`). `/convert` refuses the same input (`ConvertCommand.MalformedDateRefused`).
- **Hours outside 0-23.** The `parseEveTime` grammars admit them, but the range check then refuses them; nothing is clamped.

## Model

| member | source | states |
|---|---|---|
| Zones.EasternAlias | src/utils/timezone.js:6 | the alias table maps `EST` to `America/New_York` |
| Zones.PacificAlias | src/utils/timezone.js:12 | the alias table maps `PST` to `America/Los_Angeles` |
| Zones.AliasKeysHaveNoSlash | src/utils/timezone.js:4-51 | no alias key contains a `/`, so no IANA zone path can be mistaken for an alias |
| Zones.ResolveTimezone | src/utils/timezone.js:58-75 | empty input gives nothing; when the upper-cased, trimmed input is an alias key, the result is its table entry whatever the database says; otherwise the result is the input exactly as typed iff the database accepts it, and nothing iff it does not |
| Zones.ResolveOutcomes | src/utils/timezone.js:64-74 | every result is an alias target, the untouched input that the database accepts, or nothing |
| Zones.AliasKeyIgnoresCaseAndPadding | src/utils/timezone.js:61 | spellings that differ only in letter case and surrounding white space have the same alias key |
| Zones.ResolveAliasAnySpelling | src/utils/timezone.js:61-65 | once one spelling hits the alias table, every spelling differing from it in case and padding resolves to the same zone |
| Zones.ResolvePaddedLowerCase | src/utils/timezone.js:58-65 | `" est "` resolves to `America/New_York` |
| Zones.ResolveMixedCase | src/utils/timezone.js:58-65 | `"Est"` resolves to `America/New_York` |
| Zones.ResolveLowerCase | src/utils/timezone.js:58-65 | `"pst"` resolves to `America/Los_Angeles` |
| Zones.SlashedIsNoAlias | src/utils/timezone.js:61-64 | an input with a `/` and no surrounding white space never hits the alias table |
| Zones.UnknownZoneExample | src/utils/timezone.js:68-74 | `"Mars/Phobos"`, unknown to the database, resolves to nothing |
| Zones.PlainKeyIsOwnKey | src/utils/timezone.js:61 | an input with no lower-case letter and no padding is its own alias key |
| Zones.ConvertToTimezone | src/utils/timezone.js:160-165 | nothing exactly when the target does not resolve; otherwise the same instant, read in the resolved zone |
| Zones.ConvertIdempotent | src/utils/timezone.js:160-165 | re-zoning into the same target a second time changes nothing |
| Zones.CatalogueTargets | src/utils/timezone.js:221-237 | every zone the catalogue offers is the target of an alias, position by position |
| Zones.CatalogueResolvesToItself | src/utils/timezone.js:221-237 | given a database that knows the alias targets, every catalogue value resolves to itself |
| EveTime.ColonFormShape | src/utils/timezone.js:111 | a `H:MM`/`HH:MM` match has its colon right after the hour digits and the minutes after it |
| EveTime.FourDigitFormShape | src/utils/timezone.js:120 | a four-digit match is the whole text, split two and two |
| EveTime.MatchColon | src/utils/timezone.js:111 | finds the captures of `^(\d{1,2}):(\d{2})$` whenever they exist, and they are unique |
| EveTime.MatchFourDigits | src/utils/timezone.js:120 | finds the captures of `^(\d{2})(\d{2})$` whenever they exist, and they are unique |
| EveTime.MatchHour | src/utils/timezone.js:130 | finds the capture of `^(\d{1,2})$` whenever it exists |
| EveTime.FormsAreDisjoint | src/utils/timezone.js:110-136 | no text matches two of the three grammars, so the try-in-order chain never has to choose |
| EveTime.ReadClock | src/utils/timezone.js:106-141 | a reading exists iff some grammar accepts the text; it is the decimal value of the captures, and minutes are 0 for an hour alone |
| EveTime.SplitDate | src/utils/timezone.js:96-103 | the date supplies its three parts exactly when it has two separators (`-` or `/`) |
| EveTime.SplitDateOfDigits | src/utils/timezone.js:97-101 | three runs of digits joined by `-` or `/` read as those three numbers |
| EveTime.UtcInstant | src/utils/timezone.js:149-151 | a UTC instant exists iff all parts are numbers, the date exists and the instant lies within the time range; its date, hour and minute read back as given |
| EveTime.ParseEveTime | src/utils/timezone.js:83-152 | a result is a UTC date-time at a whole minute whose hour and minute are what the cleaned text reads as, and whose date is the given date or the clock's UTC date |
| EveTime.ParseRefusesBadClock | src/utils/timezone.js:139-146 | text no grammar accepts, or an hour above 23 or minute above 59, gives nothing |
| EveTime.ParseIgnoresMalformedDate | src/utils/timezone.js:96-103 | a date that does not split into three parts is ignored: the result equals the result without a date |
| EveTime.ClockDayInRange | src/utils/timezone.js:90-93 | every minute of the clock's UTC day lies within that day and within the time range |
| EveTime.ParseWithoutDate | src/utils/timezone.js:90-93 | without a date, an accepted time lands on the clock's UTC day at that hour and minute |
| EveTime.ParsePlaces | src/utils/timezone.js:143-151 | past the range check, the result is the UTC instant built from the date parts, or nothing when that is invalid |
| EveTime.ParseWithDate | src/utils/timezone.js:95-151 | with a three-part date, an accepted time is placed on that date iff the date exists and the instant is in range, else nothing |
| EveTime.CleanPlainTime | src/utils/timezone.js:87 | trimming and upper-casing leave plain text unchanged |
| EveTime.ReadClockColon | src/utils/timezone.js:111-116 | `"19:00"` reads as 19:00 |
| EveTime.ReadClockLeadingZero | src/utils/timezone.js:111-116 | `"07:30"` reads as 7:30 |
| EveTime.ReadClockFourDigits | src/utils/timezone.js:119-126 | `"1900"` reads as 19:00 |
| EveTime.ReadClockHour | src/utils/timezone.js:129-136 | `"19"` reads as 19:00 |
| EveTime.ReadClockSingleDigit | src/utils/timezone.js:129-136 | `"7"` reads as 7:00 |
| EveTime.ReadClockThreeDigits | src/utils/timezone.js:110-141 | `"730"` matches no grammar |
| EveTime.ReadClockShortMinute | src/utils/timezone.js:110-141 | `"1:5"` matches no grammar |
| EveTime.ReadClockMissingMinute | src/utils/timezone.js:110-141 | `"19:"` matches no grammar |
| EveTime.ReadClockFiveDigits | src/utils/timezone.js:110-141 | `"12345"` matches no grammar |
| EveTime.ReadClockHour24 | src/utils/timezone.js:111-116 | `"24:00"` matches, reading hour 24 |
| EveTime.ReadClockHour24FourDigits | src/utils/timezone.js:119-126 | `"2400"` matches, reading hour 24 |
| EveTime.ReadClockMinute60 | src/utils/timezone.js:111-116 | `"19:60"` matches, reading minute 60 |
| EveTime.ParseColonExample | src/utils/timezone.js:83-152 | `"19:00"` without a date is 19:00 UTC on the clock's day |
| EveTime.ParseFourDigitExample | src/utils/timezone.js:83-152 | `"1900"` without a date is 19:00 UTC on the clock's day |
| EveTime.ParseHourExample | src/utils/timezone.js:83-152 | `"19"` without a date is 19:00 UTC on the clock's day |
| EveTime.ParseLeadingZeroExample | src/utils/timezone.js:83-152 | `"07:30"` without a date is 7:30 UTC on the clock's day |
| EveTime.ParsePaddedExample | src/utils/timezone.js:87-152 | `" 7 "` is trimmed and read as 7:00 UTC on the clock's day |
| EveTime.ParseRejectsThreeDigits | src/utils/timezone.js:139-141 | `"730"` gives nothing, with or without a date |
| EveTime.ParseRejectsShortMinute | src/utils/timezone.js:139-141 | `"1:5"` gives nothing |
| EveTime.ParseRejectsMissingMinute | src/utils/timezone.js:139-141 | `"19:"` gives nothing |
| EveTime.ParseRejectsFiveDigits | src/utils/timezone.js:139-141 | `"12345"` gives nothing |
| EveTime.ParseRejectsHour24 | src/utils/timezone.js:144-146 | `"24:00"` gives nothing: refused, not clamped |
| EveTime.ParseRejectsHour24FourDigits | src/utils/timezone.js:144-146 | `"2400"` gives nothing |
| EveTime.ParseRejectsMinute60 | src/utils/timezone.js:144-146 | `"19:60"` gives nothing |
| EveTime.SplitDateLeapDay | src/utils/timezone.js:96-103 | `"2024-02-29"` splits into 2024, 2, 29 |
| EveTime.SplitDateNoSuchDay | src/utils/timezone.js:96-103 | `"2023/02/29"` splits into 2023, 2, 29 |
| EveTime.SplitDateMonth13 | src/utils/timezone.js:96-103 | `"2024-13-01"` splits into 2024, 13, 1 |
| EveTime.ParseLeapDayExample | src/utils/timezone.js:149-151 | `"19:00"` on `"2024-02-29"` is 19:00 UTC on that leap day |
| EveTime.ParseNoSuchDayExample | src/utils/timezone.js:149-151 | `"19:00"` on `"2023/02/29"` gives nothing: the date is refused, not rolled into March |
| EveTime.ParseMonth13Example | src/utils/timezone.js:149-151 | `"19:00"` on `"2024-13-01"` gives nothing |
| Calendar.CivilFromDays | src/utils/timezone.js:149-151 | every day number has a valid date that maps back to it |
| Calendar.CivilRoundTrip | src/utils/timezone.js:149-151 | a valid date turned into a day number and back is unchanged |
| Calendar.DaysFromCivilInjective | src/utils/timezone.js:149-151 | no two valid dates share a day number |
| Calendar.UtcFieldsRoundTrip | src/utils/timezone.js:149 | the instant built from a date, hour and minute reads back as that date, hour and minute, at a whole minute |
| Calendar.InstantFromFields | src/utils/timezone.js:149 | an instant at a whole minute is the one its own date, hour and minute build |
| Calendar.LeapDay2024 | src/utils/timezone.js:149-151 | 2024-02-29 exists and is day 19782 |
| Calendar.NoLeapDay2023 | src/utils/timezone.js:149-151 | 2023-02-29 does not exist |
| Text.TrimIsInfix | src/utils/timezone.js:87 | `trim` keeps an infix with no white space at either end and removes only white space around it |
| Text.TrimIgnoresPadding | src/utils/timezone.js:61 | trimming ignores any white-space padding |
| Text.ToUpper | src/utils/timezone.js:61 | upper-casing changes letter case only and leaves no lower-case letter |
| Text.ToUpperIgnoresCase | src/utils/timezone.js:61 | texts equal up to letter case upper-case to the same text |
| Text.ToLower | src/commands/convert.js:29 | lower-casing changes letter case only and leaves no upper-case letter |
| Text.ParseIntPrefix | src/utils/timezone.js:99-101 | `parseInt` reads the run of digits after leading white space and an optional sign, negated for `-`, and ignores whatever follows the run, except a lone `0` before `x`/`X` |
| Text.ParseIntNoDigits | src/utils/timezone.js:99-101 | when no digit follows the leading white space and sign, `parseInt` gives `NaN` (here nothing) |
| Text.ParseIntTrailingText | src/utils/timezone.js:99-101 | `"15T10"` reads as 15 |
| Text.ParseIntLetters | src/utils/timezone.js:99-101 | `"abc"` is not a number |
| Text.ParseIntDigits | src/utils/timezone.js:99-101 | `parseInt` of white space followed by digits is their decimal value |
| Text.ParseIntOfIntToString | src/utils/timezone.js:99-101 | `parseInt` reads back every integer it is shown |
| Text.SplitOn | src/utils/timezone.js:97 | splitting gives one more piece than there are separators, and no piece holds a separator |
| Text.SplitOnThree | src/utils/timezone.js:97-98 | three separator-free pieces joined by separators split back into exactly those three |
| Display.Seconds | src/utils/timezone.js:187 | the markup value is the whole second at or below the instant (floor, also before 1970) |
| Display.SecondsIsUnique | src/utils/timezone.js:187 | any second that brackets the instant is the markup value |
| Display.SecondsRoundsDown | src/utils/timezone.js:187 | -1.5 s gives -2 and 1.5 s gives 1 |
| Display.Token | src/utils/timezone.js:186-189 | a token is `<t:` ... `>` |
| Display.DecodeToken_Token | src/utils/timezone.js:186-189 | a token reads back as the floored seconds and the style code it was built from |
| Display.DiscordTimestamp | src/utils/timezone.js:186-189 | the style defaults to `F` |
| Display.TokenEqualIffSameSecond | src/utils/timezone.js:186-189 | two date-times give the same token iff they fall in the same whole second |
| Display.SameSecondSameToken | src/utils/timezone.js:186-189 | instants within one whole second give identical tokens |
| Display.ConvertKeepsToken | src/utils/timezone.js:160-165 | re-zoning never changes a token |
| Display.AllTimestamps | src/utils/timezone.js:196-207 | the bundle holds the tokens with codes t, T, d, D, f, F, R, and its long date-time is the default single token |
| Display.AllTimestampsShareSecond | src/utils/timezone.js:196-207 | all seven tokens carry the same seconds value and their own code |
| Display.Pad2 | src/utils/timezone.js:177 | two digits whose decimal value is the number |
| Display.FormatShort | src/utils/timezone.js:176-177 | five characters `HH:mm` whose digits are the zone-local hour and minute |
| Display.FormatShortOfUtc | src/utils/timezone.js:176-177 | for a UTC date-time built from an hour and minute it is their zero-padded pair around a colon |
| Display.ReadClockOfFormatShort | src/utils/timezone.js:176-177 | the short form reads back, under the event-time grammars, as the zone-local hour and minute |
| Display.FormatShortIsPlain | src/utils/timezone.js:176-177 | the short form needs no trimming or upper-casing |
| Display.ParseFormatShort | src/utils/timezone.js:83-152 | parsing the short form of a parse result without a date gives that result back |
| ConvertCommand.Filter | src/commands/convert.js:32-35 | the kept entries are, in catalogue order, exactly those whose lower-cased name or value contains the query, each as often as it occurs in the catalogue |
| ConvertCommand.Suggest | src/commands/convert.js:37-39 | the first 25 matching entries in catalogue order: all matches when there are no more than 25, else exactly the first 25 of them |
| ConvertCommand.Autocomplete | src/commands/convert.js:28-40 | the suggestions are, in catalogue order, exactly the catalogue entries matching the lower-cased input |
| ConvertCommand.SubsequenceNoLonger | src/commands/convert.js:32-38 | a subsequence is never longer than its source |
| ConvertCommand.FilterKeepsAll | src/commands/convert.js:32-35 | when every entry matches, filtering keeps the whole list |
| ConvertCommand.AutocompleteNothingTyped | src/commands/convert.js:28-40 | typing nothing suggests all 14 catalogue entries |
| ConvertCommand.MissingLetter | src/commands/convert.js:33-34 | text lacking a letter of the query in both cases does not contain the lower-cased query |
| ConvertCommand.FilterNone | src/commands/convert.js:32-35 | when no entry matches, nothing is kept |
| ConvertCommand.FilterOnlyOne | src/commands/convert.js:32-35 | when exactly one entry matches, it alone is kept |
| ConvertCommand.LacksJNoMatch | src/commands/convert.js:33-34 | an entry with no `j` in either case never matches a query containing `j` |
| ConvertCommand.AutocompleteJapan | src/commands/convert.js:28-40 | typing `"Jap"` suggests only the Japan entry |
| ConvertCommand.MatchConvertTime | src/commands/convert.js:57 | finds the captures of `^(\d{1,2}):?(\d{2})?$` whenever they exist, and they are unique |
| ConvertCommand.ConvertFormUnique | src/commands/convert.js:57 | a text has only one way to match the grammar: at the first colon, or before the last two digits when it is colon-free and longer than two |
| ConvertCommand.ConvertClock | src/commands/convert.js:57-66 | a reading exists iff the grammar matches; it is the hour digits' value and the minute digits' value, or 0 when the minutes are missing |
| ConvertCommand.ConvertReadsEveTimes | src/commands/convert.js:57-66 | every text the event-time grammars accept reads the same here |
| ConvertCommand.ConvertReadsThreeDigits | src/commands/convert.js:57-66 | `"730"` reads as 7:30 here although the event-time grammars refuse it |
| ConvertCommand.ConvertReadsBareColon | src/commands/convert.js:57-66 | `"19:"` reads as 19:00 here although the event-time grammars refuse it |
| ConvertCommand.ConvertRefusesShortMinute | src/commands/convert.js:57-63 | `"1:5"` matches nothing |
| ConvertCommand.ConvertRefusesFiveDigits | src/commands/convert.js:57-63 | `"12345"` matches nothing |
| ConvertCommand.ConvertDate | src/commands/convert.js:75-94 | a given date must split into three parts or it is an error; with no date, today's date on the source zone's wall clock is used |
| ConvertCommand.PlaceLocal | src/commands/convert.js:96-107 | a part that is not a number is its own error; otherwise the date-time is valid iff the date exists, it is in range and the zone can place it, and the result is that placement |
| ConvertCommand.ConvertIn | src/commands/convert.js:56-107 | after zone resolution: a format error iff the grammar fails, a range error iff the reading is out of range, a date-format error iff a given date is malformed, in that order; a success is the UTC date-time of the local time in the zone |
| ConvertCommand.Convert | src/commands/convert.js:47-107 | an unknown zone is refused before anything else; otherwise the result is that of the resolved zone |
| ConvertCommand.MalformedDateRefused | src/commands/convert.js:77-88 | a malformed date is an error here, while the event-time parser ignores the same date |
| ConvertCommand.ConvertAgreesWithParse | src/commands/convert.js:56-107 | in the `UTC` zone, `/convert` succeeds iff the event-time parser does, with the same date-time, for any text both grammars take as typed |
| CountdownCommand.PlusDayIsNextDay | src/commands/countdown.js:44 | adding a day gives the same UTC hour, minute and time of day on the next calendar date, with month and year rolling over as the calendar says |
| Calendar.NextDay | src/commands/countdown.js:44 | 86 400 000 ms after a UTC instant is the same time of day on the following calendar date |
| Calendar.NextDateDays | src/commands/countdown.js:44 | the following date (next day of the month, else the first of the next month, else New Year's Day) has the next day number |
| CountdownCommand.Schedule | src/commands/countdown.js:41-53 | a success is never before now; a dated event is kept as is iff it is not past; a date-less past event moves one day on, once, and is refused iff still past |
| CountdownCommand.CountdownAsWritten | src/commands/countdown.js:32-53 | a format error iff the parse fails; a success is a UTC date-time not before now; a dated event is refused as past iff it is before now |
| CountdownCommand.Countdown | src/commands/countdown.js:32-53 | the same decisions with one clock reading for parsing and comparing |
| CountdownCommand.NoDateWindow | src/commands/countdown.js:41-53 | with one clock reading, an accepted time without a date is never refused and lands in the next 24 hours |
| CountdownCommand.DatedPastRefused | src/commands/countdown.js:47-53 | an event with a date before now is refused as past, never moved |
| CountdownCommand.ParseMidnight | src/utils/timezone.js:90-93 | `"00:00"` without a date is the start of the clock's UTC day |
| CountdownCommand.RaceAcrossMidnight | src/commands/countdown.js:32-48 | as written, `"00:00"` is refused as past whenever the second reading is over a day past the start of the first reading's day |
| CountdownCommand.MidnightRace | src/commands/countdown.js:32-48 | as written, readings 1 ms before and 1 ms after midnight refuse `"00:00"` without a date |
| CountdownCommand.MidnightSingleReading | src/commands/countdown.js:32-53 | with a single reading at the same moment, `"00:00"` is accepted |
| CountdownCommand.Remaining | src/commands/countdown.js:58-61 | the time left in whole days, hours below 24 and minutes below 60, rounded down to the minute |
| CountdownCommand.RemainingIsUnique | src/commands/countdown.js:58-61 | only one such count brackets a given time left |
| CountdownCommand.CountdownText | src/commands/countdown.js:63-66 | a `d` appears iff there are days, an `h` iff there are hours or days, and the text ends in `m` |
| CountdownCommand.ReadCountdownText | src/commands/countdown.js:63-66 | the text reads back as exactly its days, hours and minutes |
| CountdownCommand.TimeLeftText | src/commands/countdown.js:57-66 | the field reads back as a count bracketing the time left to the minute, and shows days iff a day or more is left |
| CountdownCommand.CountdownTextMinutes | src/commands/countdown.js:63-66 | 5 minutes is `"5m"` |
| CountdownCommand.CountdownTextHours | src/commands/countdown.js:63-66 | 2 hours is `"2h 0m"` |
| CountdownCommand.CountdownTextDays | src/commands/countdown.js:63-66 | 1 day and 3 minutes is `"1d 0h 3m"` |

## Left out

- `src/index.js` and `src/deploy-commands.js`: the Discord client, environment loading, command discovery on disk, REST deployment and logging. These are all I/O.
- `src/commands/help.js`, `now.js`, `evetime.js` and `timezones.js`: fixed embed layouts around helpers modelled here. The only logic in `timezones.js` is a halving of a list for two columns.
- Embeds, replies, colours and the Discord client's rendering of `<t:...>` markup: presentation only.
- The IANA zone database and the date library's zone arithmetic, including DST gaps and overlaps: `TzDb` leaves them uninterpreted. Alias targets are not assumed valid except where a lemma says so (`KnowsAliasTargets`, `UtcIsPlain`).
- Zones.WallClock: pins the wall clock down only for UTC; in a named zone it is the instant plus the database's offset, with nothing more known about the offset.
- CountdownCommand.PlusDay: adds 86 400 000 ms in any zone. The date library adds a calendar day on the zone's wall clock, which differs across a daylight-saving change. `/countdown` only applies it to UTC date-times (`CountdownAsWritten` ensures the zone is UTC), where the two agree.
- The long form of `formatTime` (weekday and month names): display text only.
- `Date.now()` and `DateTime.utc()`: clock readings are parameters.
- Text.ToUpper and Text.ToLower: change ASCII letters only, while JavaScript maps case across the whole of Unicode. For some inputs the model therefore gives a different answer:
  - `"eſt"` (long s, U+017F) and `"pſt"` upper-case to `"EST"` and `"PST"` in JavaScript and resolve to their alias. In the model they miss the alias table and go to the zone database.
  - Dotless `ı` (U+0131) upper-cases to `I` in JavaScript, so `"ıst"` resolves to Asia/Kolkata through the `IST` alias there. The model does not map it and asks the zone database instead.
  - `ß` upper-cases to `SS` in JavaScript, which changes the length; the model keeps it.
  - In the autocomplete query, the Kelvin sign (U+212A) lower-cases to `k` in JavaScript, so `"Kolkata"` spelled with it matches the India entry there. In the model it matches nothing.
  - JavaScript strings are UTF-16 code units, the model's are characters.
- `parseInt` results beyond 2^53 lose precision in JavaScript but are exact here. Such parts only occur in dates that fail the range check either way.
- A date part that is not a number: in `parseEveTime` it makes the date-time invalid (`UtcInstant` gives nothing). In `/convert`, the date library throws on it and the bot's generic error reply answers; that is modelled as the separate error `NotANumber`.
- CountdownCommand.Remaining: computes the library's `diff` in days, hours and minutes as the plain UTC decomposition, which is what it is for two UTC date-times. Seconds and milliseconds are dropped, matching `Math.floor` on the fractional minutes.
- The event-name option of `/countdown`: it is only echoed into the embed title.

## Findings

| source | as written | input that shows it | evidently intended | confidence | as-written member | corrected member |
|---|---|---|---|---|---|---|
| src/commands/countdown.js:32-48 | `parseEveTime` reads the clock to date a time given without a date, then `execute` reads the clock again to compare | `/countdown time:00:00`, no date, first reading 1970-01-01T23:59:59.999Z, second reading 1970-01-02T00:00:00.001Z | a time without a date is never refused as past (it rolls to the next day) | low, not executed: needs midnight UTC to fall between two reads microseconds apart | CountdownCommand.MidnightRace | CountdownCommand.NoDateWindow |
