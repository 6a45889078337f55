/**
 * The `/convert` command: the autocomplete filter over the zone catalogue,
 * and the checks `execute` makes, in order, before it converts a local time
 * in some zone to EVE time (UTC).
 */
module ConvertCommand {
  import opened Wrappers
  import opened Text
  import opened Calendar
  import opened Zones
  import opened EveTime

  // ---------------------------------------------------------------------
  // Autocomplete
  // ---------------------------------------------------------------------

  /** Discord accepts at most this many suggestions. */
  const MaxSuggestions: nat := 25

  /** A catalogue entry matches when its name or its value, lower-cased, contains the query. */
  predicate Matches(c: Choice, q: string) {
    Contains(ToLower(c.name), q) || Contains(ToLower(c.value), q)
  }

  /** `a` is `b` with some entries left out, the rest in their original order. */
  predicate IsSubsequence<T(==)>(a: seq<T>, b: seq<T>)
    decreases |b|
  {
    if a == [] then true
    else if b == [] then false
    else (a[0] == b[0] && IsSubsequence(a[1..], b[1..])) || IsSubsequence(a, b[1..])
  }

  lemma {:induction false} SubsequenceNoLonger<T>(a: seq<T>, b: seq<T>)
    requires IsSubsequence(a, b)
    ensures |a| <= |b|
    decreases |b|
  {
    if a != [] {
      if a[0] == b[0] && IsSubsequence(a[1..], b[1..]) {
        SubsequenceNoLonger(a[1..], b[1..]);
      } else {
        SubsequenceNoLonger(a, b[1..]);
      }
    }
  }

  lemma {:induction false} SubsequencePrefix<T>(a: seq<T>, b: seq<T>, n: nat)
    requires IsSubsequence(a, b) && n <= |a|
    ensures IsSubsequence(a[..n], b)
    decreases |b|
  {
    if n > 0 {
      if a[0] == b[0] && IsSubsequence(a[1..], b[1..]) {
        SubsequencePrefix(a[1..], b[1..], n - 1);
        assert a[..n][1..] == a[1..][..n - 1];
      } else {
        SubsequencePrefix(a, b[1..], n);
      }
    }
  }

  /** `Array.prototype.filter` with `Matches`: exactly the matching entries, in order. */
  function Filter(cs: seq<Choice>, q: string): (r: seq<Choice>)
    ensures IsSubsequence(r, cs)
    ensures forall x | x in r :: Matches(x, q)
    ensures forall x | x in cs && Matches(x, q) :: x in r
    ensures forall x :: multiset(r)[x] == if Matches(x, q) then multiset(cs)[x] else 0
    decreases |cs|
  {
    if cs == [] then []
    else
      assert cs == [cs[0]] + cs[1..];
      if Matches(cs[0], q) then [cs[0]] + Filter(cs[1..], q)
      else Filter(cs[1..], q)
  }

  /**
   * The first 25 entries of `cs` that match the lower-cased text, in order:
   * all of the matching ones when there are no more than 25.
   */
  function Suggest(cs: seq<Choice>, typed: string): (r: seq<Choice>)
    ensures |r| <= MaxSuggestions
    ensures IsSubsequence(r, cs)
    ensures forall x | x in r :: Matches(x, ToLower(typed))
    ensures |cs| <= MaxSuggestions ==> forall x | x in cs && Matches(x, ToLower(typed)) :: x in r
    ensures |r| == if |Filter(cs, ToLower(typed))| <= MaxSuggestions then |Filter(cs, ToLower(typed))| else MaxSuggestions
    ensures r == Filter(cs, ToLower(typed))[..|r|]
  {
    var f := Filter(cs, ToLower(typed));
    SubsequenceNoLonger(f, cs);
    if |f| <= MaxSuggestions then f
    else
      SubsequencePrefix(f, cs, MaxSuggestions);
      f[..MaxSuggestions]
  }

  /** `autocomplete`: the suggestions from the common-zone catalogue for what the user has typed so far. */
  function Autocomplete(typed: string): (r: seq<Choice>)
    ensures IsSubsequence(r, CommonTimezones)
    ensures forall x | x in r :: Matches(x, ToLower(typed))
    ensures forall x | x in CommonTimezones && Matches(x, ToLower(typed)) :: x in r
  {
    Suggest(CommonTimezones, typed)
  }

  /** Every text contains the empty text. */
  lemma ContainsEmpty(h: string)
    ensures Contains(h, "")
  {
    assert OccursAt(h, "", 0);
  }

  lemma {:induction false} FilterKeepsAll(cs: seq<Choice>, q: string)
    requires forall x | x in cs :: Matches(x, q)
    ensures Filter(cs, q) == cs
    decreases |cs|
  {
    if cs != [] {
      FilterKeepsAll(cs[1..], q);
    }
  }

  /** With nothing typed yet every catalogue entry is suggested. */
  lemma AutocompleteNothingTyped()
    ensures Autocomplete("") == CommonTimezones
  {
    assert ToLower("") == "";
    forall x | x in CommonTimezones
      ensures Matches(x, "")
    {
      ContainsEmpty(ToLower(x.name));
    }
    FilterKeepsAll(CommonTimezones, "");
  }

  /** A lower-case letter of the query that a text has in neither case rules the text out. */
  lemma MissingLetter(h: string, q: string, c: char)
    requires IsLowerLetter(c) && c in q
    requires forall k | 0 <= k < |h| :: h[k] != c && h[k] != UpperChar(c)
    ensures !Contains(ToLower(h), q)
  {
    var l := ToLower(h);
    assert forall k | 0 <= k < |l| :: l[k] != c;
    forall i | 0 <= i <= |l| - |q|
      ensures !OccursAt(l, q, i)
    {
      assert c !in l[i..i + |q|];
    }
  }

  lemma {:induction false} FilterNone(cs: seq<Choice>, q: string)
    requires forall i | 0 <= i < |cs| :: !Matches(cs[i], q)
    ensures Filter(cs, q) == []
    decreases |cs|
  {
    if cs != [] {
      assert !Matches(cs[0], q);
      FilterNone(cs[1..], q);
    }
  }

  lemma {:induction false} FilterOnlyOne(cs: seq<Choice>, q: string, k: nat)
    requires k < |cs| && Matches(cs[k], q)
    requires forall i | 0 <= i < |cs| && i != k :: !Matches(cs[i], q)
    ensures Filter(cs, q) == [cs[k]]
    decreases |cs|
  {
    if k == 0 {
      FilterNone(cs[1..], q);
    } else {
      assert !Matches(cs[0], q);
      FilterOnlyOne(cs[1..], q, k - 1);
    }
  }

  /** Neither the name nor the value of an entry has a `j` in either case. */
  predicate LacksJ(c: Choice) {
    NoJ(c.name) && NoJ(c.value)
  }

  predicate NoJ(s: string) {
    forall k | 0 <= k < |s| :: s[k] != 'j' && s[k] != 'J'
  }

  lemma EntryLacksJ0()
    ensures LacksJ(CommonTimezones[0])
  {
    var c := CommonTimezones[0];
    assert c.name == "EVE Time (UTC)" && c.value == "UTC";
    TextLacksJ0(c.name, c.value);
  }

  lemma TextLacksJ0(name: string, value: string)
    requires name == "EVE Time (UTC)" && value == "UTC"
    ensures NoJ(name) && NoJ(value)
  {
  }

  lemma EntryLacksJ1()
    ensures LacksJ(CommonTimezones[1])
  {
    var c := CommonTimezones[1];
    assert c.name == "US Eastern (EST/EDT)" && c.value == "America/New_York";
    TextLacksJ1(c.name, c.value);
  }

  lemma TextLacksJ1(name: string, value: string)
    requires name == "US Eastern (EST/EDT)" && value == "America/New_York"
    ensures NoJ(name) && NoJ(value)
  {
  }

  lemma EntryLacksJ2()
    ensures LacksJ(CommonTimezones[2])
  {
    var c := CommonTimezones[2];
    assert c.name == "US Central (CST/CDT)" && c.value == "America/Chicago";
    TextLacksJ2(c.name, c.value);
  }

  lemma TextLacksJ2(name: string, value: string)
    requires name == "US Central (CST/CDT)" && value == "America/Chicago"
    ensures NoJ(name) && NoJ(value)
  {
  }

  lemma EntryLacksJ3()
    ensures LacksJ(CommonTimezones[3])
  {
    var c := CommonTimezones[3];
    assert c.name == "US Mountain (MST/MDT)" && c.value == "America/Denver";
    TextLacksJ3(c.name, c.value);
  }

  lemma TextLacksJ3(name: string, value: string)
    requires name == "US Mountain (MST/MDT)" && value == "America/Denver"
    ensures NoJ(name) && NoJ(value)
  {
  }

  lemma EntryLacksJ4()
    ensures LacksJ(CommonTimezones[4])
  {
    var c := CommonTimezones[4];
    assert c.name == "US Pacific (PST/PDT)" && c.value == "America/Los_Angeles";
    TextLacksJ4(c.name, c.value);
  }

  lemma TextLacksJ4(name: string, value: string)
    requires name == "US Pacific (PST/PDT)" && value == "America/Los_Angeles"
    ensures NoJ(name) && NoJ(value)
  {
  }

  lemma EntryLacksJ5()
    ensures LacksJ(CommonTimezones[5])
  {
    var c := CommonTimezones[5];
    assert c.name == "UK (GMT/BST)" && c.value == "Europe/London";
    TextLacksJ5(c.name, c.value);
  }

  lemma TextLacksJ5(name: string, value: string)
    requires name == "UK (GMT/BST)" && value == "Europe/London"
    ensures NoJ(name) && NoJ(value)
  {
  }

  lemma EntryLacksJ6()
    ensures LacksJ(CommonTimezones[6])
  {
    var c := CommonTimezones[6];
    assert c.name == "Central Europe (CET/CEST)" && c.value == "Europe/Paris";
    TextLacksJ6(c.name, c.value);
  }

  lemma TextLacksJ6(name: string, value: string)
    requires name == "Central Europe (CET/CEST)" && value == "Europe/Paris"
    ensures NoJ(name) && NoJ(value)
  {
  }

  lemma EntryLacksJ7()
    ensures LacksJ(CommonTimezones[7])
  {
    var c := CommonTimezones[7];
    assert c.name == "Eastern Europe (EET/EEST)" && c.value == "Europe/Helsinki";
    TextLacksJ7(c.name, c.value);
  }

  lemma TextLacksJ7(name: string, value: string)
    requires name == "Eastern Europe (EET/EEST)" && value == "Europe/Helsinki"
    ensures NoJ(name) && NoJ(value)
  {
  }

  lemma EntryLacksJ8()
    ensures LacksJ(CommonTimezones[8])
  {
    var c := CommonTimezones[8];
    assert c.name == "Moscow (MSK)" && c.value == "Europe/Moscow";
    TextLacksJ8(c.name, c.value);
  }

  lemma TextLacksJ8(name: string, value: string)
    requires name == "Moscow (MSK)" && value == "Europe/Moscow"
    ensures NoJ(name) && NoJ(value)
  {
  }

  lemma EntryLacksJ9()
    ensures LacksJ(CommonTimezones[9])
  {
    var c := CommonTimezones[9];
    assert c.name == "India (IST)" && c.value == "Asia/Kolkata";
    TextLacksJ9(c.name, c.value);
  }

  lemma TextLacksJ9(name: string, value: string)
    requires name == "India (IST)" && value == "Asia/Kolkata"
    ensures NoJ(name) && NoJ(value)
  {
  }

  lemma EntryLacksJ10()
    ensures LacksJ(CommonTimezones[10])
  {
    var c := CommonTimezones[10];
    assert c.name == "Singapore (SGT)" && c.value == "Asia/Singapore";
    TextLacksJ10(c.name, c.value);
  }

  lemma TextLacksJ10(name: string, value: string)
    requires name == "Singapore (SGT)" && value == "Asia/Singapore"
    ensures NoJ(name) && NoJ(value)
  {
  }

  lemma EntryLacksJ12()
    ensures LacksJ(CommonTimezones[12])
  {
    var c := CommonTimezones[12];
    assert c.name == "Australia Eastern (AEST/AEDT)" && c.value == "Australia/Sydney";
    TextLacksJ12(c.name, c.value);
  }

  lemma TextLacksJ12(name: string, value: string)
    requires name == "Australia Eastern (AEST/AEDT)" && value == "Australia/Sydney"
    ensures NoJ(name) && NoJ(value)
  {
  }

  lemma EntryLacksJ13()
    ensures LacksJ(CommonTimezones[13])
  {
    var c := CommonTimezones[13];
    assert c.name == "New Zealand (NZST/NZDT)" && c.value == "Pacific/Auckland";
    TextLacksJ13(c.name, c.value);
  }

  lemma TextLacksJ13(name: string, value: string)
    requires name == "New Zealand (NZST/NZDT)" && value == "Pacific/Auckland"
    ensures NoJ(name) && NoJ(value)
  {
  }

  lemma LacksJNoMatch(c: Choice, q: string)
    requires LacksJ(c) && 'j' in q
    ensures !Matches(c, q)
  {
    MissingLetter(c.name, q, 'j');
    MissingLetter(c.value, q, 'j');
  }

  /** Typing "Jap" suggests the Japan entry and nothing else: no other entry has a `j`. */
  lemma AutocompleteJapan(typed: string)
    requires typed == "Jap"
    ensures Autocomplete(typed) == [Choice("Japan (JST)", "Asia/Tokyo")]
  {
    var q := ToLower(typed);
    assert q == "jap";
    OnlyJapanMatches(q);
    SuggestFew(CommonTimezones, typed);
  }

  /** With no more than 25 matches, every one of them is suggested. */
  lemma SuggestFew(cs: seq<Choice>, typed: string)
    requires |Filter(cs, ToLower(typed))| <= MaxSuggestions
    ensures Suggest(cs, typed) == Filter(cs, ToLower(typed))
  {
  }

  /** Of the catalogue, only the Japan entry contains `jap` once lower-cased. */
  lemma OnlyJapanMatches(q: string)
    requires q == "jap"
    ensures Filter(CommonTimezones, q) == [Choice("Japan (JST)", "Asia/Tokyo")]
  {
    var japan := CommonTimezones[11];
    assert OccursAt(ToLower(japan.name), q, 0);
    forall i | 0 <= i < |CommonTimezones| && i != 11
      ensures !Matches(CommonTimezones[i], q)
    {
      if i == 0 {
        EntryLacksJ0();
      } else if i == 1 {
        EntryLacksJ1();
      } else if i == 2 {
        EntryLacksJ2();
      } else if i == 3 {
        EntryLacksJ3();
      } else if i == 4 {
        EntryLacksJ4();
      } else if i == 5 {
        EntryLacksJ5();
      } else if i == 6 {
        EntryLacksJ6();
      } else if i == 7 {
        EntryLacksJ7();
      } else if i == 8 {
        EntryLacksJ8();
      } else if i == 9 {
        EntryLacksJ9();
      } else if i == 10 {
        EntryLacksJ10();
      } else if i == 12 {
        EntryLacksJ12();
      } else {
        EntryLacksJ13();
      }
      LacksJNoMatch(CommonTimezones[i], q);
    }
    FilterOnlyOne(CommonTimezones, q, 11);
  }

  // ---------------------------------------------------------------------
  // The time grammar of /convert
  // ---------------------------------------------------------------------

  /**
   * `t` is one or two digits of hour, an optional colon, and an optional
   * two-digit minute, with nothing around them.
   */
  predicate ConvertForm(t: string, hd: string, md: string) {
    && AllDigits(hd) && 1 <= |hd| <= 2
    && (md == [] || (AllDigits(md) && |md| == 2))
    && (t == hd + md || t == hd + ":" + md)
  }

  /**
   * The hour and minute digits of `t` under `ConvertForm`; there is never more than one way to split `t`.
   */
  function MatchConvertTime(t: string): (r: Option<(string, string)>)
    ensures r.Some? ==> ConvertForm(t, r.value.0, r.value.1)
    ensures forall hd, md | ConvertForm(t, hd, md) :: r == Some((hd, md))
  {
    SplitTimeSound(t);
    forall hd, md | ConvertForm(t, hd, md)
      ensures SplitTime(t) == Some((hd, md))
    {
      SplitTimeComplete(t, hd, md);
    }
    SplitTime(t)
  }

  /** Splitting at the first colon, or before the last two digits when there is none. */
  function SplitTime(t: string): Option<(string, string)> {
    var c := IndexOf(t, ':');
    if c == |t| then
      if !AllDigits(t) || |t| == 0 || |t| > 4 then None
      else if |t| <= 2 then Some((t, ""))
      else Some((t[..|t| - 2], t[|t| - 2..]))
    else if 1 <= c <= 2 && AllDigits(t[..c]) && (|t| == c + 1 || (|t| == c + 3 && AllDigits(t[c + 1..]))) then
      Some((t[..c], t[c + 1..]))
    else None
  }

  lemma SplitTimeSound(t: string)
    ensures SplitTime(t).Some? ==> ConvertForm(t, SplitTime(t).value.0, SplitTime(t).value.1)
  {
    var r := SplitTime(t);
    if r.Some? {
      if IndexOf(t, ':') == |t| {
        assert t == r.value.0 + r.value.1;
      } else {
        assert t == r.value.0 + ":" + r.value.1;
      }
    }
  }

  lemma SplitTimeComplete(t: string, hd: string, md: string)
    requires ConvertForm(t, hd, md)
    ensures SplitTime(t) == Some((hd, md))
  {
    ConvertFormUnique(t, hd, md);
  }

  lemma ConvertFormUnique(t: string, hd: string, md: string)
    requires ConvertForm(t, hd, md)
    ensures var c := IndexOf(t, ':');
      if t == hd + md then
        c == |t| && AllDigits(t) && 1 <= |t| <= 4
        && hd == (if |t| <= 2 then t else t[..|t| - 2]) && md == (if |t| <= 2 then "" else t[|t| - 2..])
      else
        c == |hd| && 1 <= c <= 2 && hd == t[..c] && md == t[c + 1..]
        && (|t| == c + 1 || (|t| == c + 3 && AllDigits(t[c + 1..])))
  {
    if t == hd + md {
      DigitsOnlySplit(t, hd, md);
    } else {
      ColonSplit(t, hd, md);
    }
  }

  /** Without a colon, the last two digits are the minutes once there are more than two. */
  lemma DigitsOnlySplit(t: string, hd: string, md: string)
    requires ConvertForm(t, hd, md) && t == hd + md
    ensures IndexOf(t, ':') == |t| && AllDigits(t) && 1 <= |t| <= 4
    ensures hd == (if |t| <= 2 then t else t[..|t| - 2]) && md == (if |t| <= 2 then "" else t[|t| - 2..])
  {
    forall i | 0 <= i < |t|
      ensures IsDigit(t[i])
    {
      if i < |hd| {
        assert t[i] == hd[i];
      } else {
        assert t[i] == md[i - |hd|];
      }
    }
    IndexOfAbsent(t, ':');
  }

  /** A string of digits has no colon, so the search runs to its end. */
  lemma IndexOfAbsent(t: string, c: char)
    requires AllDigits(t) && !IsDigit(c)
    ensures IndexOf(t, c) == |t|
  {
  }

  /** With a colon, it follows the one or two hour digits. */
  lemma ColonSplit(t: string, hd: string, md: string)
    requires ConvertForm(t, hd, md) && t == hd + ":" + md
    ensures var c := IndexOf(t, ':');
      c == |hd| && 1 <= c <= 2 && hd == t[..c] && md == t[c + 1..]
      && (|t| == c + 1 || (|t| == c + 3 && AllDigits(t[c + 1..])))
  {
    assert t[|hd|] == ':';
    assert t[..|hd|] == hd;
    assert t[|hd| + 1..] == md;
    forall i | 0 <= i < |hd|
      ensures t[i] != ':'
    {
      assert t[i] == hd[i];
    }
  }

  /** Minutes default to `0` when the minute digits are missing (`timeMatch[2] || '0'`). */
  function MinuteText(md: string): string {
    if md == [] then "0" else md
  }

  /** The hour and minute `/convert` reads from its time text, before the range check. */
  function ConvertClock(t: string): (r: Option<(int, int)>)
    ensures r.Some? <==> exists hd, md :: ConvertForm(t, hd, md)
    ensures forall hd, md | ConvertForm(t, hd, md) ::
      r == Some((Decimal(hd), if md == [] then 0 else Decimal(md)))
  {
    match MatchConvertTime(t)
    case None => None
    case Some((hd, md)) =>
      DecimalOfShort("0");
      assert AllDigits(MinuteText(md));
      Some((Decimal(hd), Decimal(MinuteText(md))))
  }

  /** Every text the event-time parser reads (after trimming and upper-casing), `/convert` reads the same way. */
  lemma ConvertReadsEveTimes(t: string)
    requires ReadClock(t).Some?
    ensures ConvertClock(t) == ReadClock(t)
  {
    if hd, md :| ColonForm(t, hd, md) {
      assert ConvertForm(t, hd, md);
    } else if hd, md :| FourDigitForm(t, hd, md) {
      FourDigitFormShape(t, hd, md);
      assert ConvertForm(t, hd, md);
    } else {
      var hd :| HourForm(t, hd);
      assert t == hd + "";
      assert ConvertForm(t, hd, "");
    }
  }

  /** "730" is 7:30 here, though the event-time parser refuses it. */
  lemma ConvertReadsThreeDigits()
    ensures ConvertClock("730") == Some((7, 30))
    ensures ReadClock("730") == None
  {
    DecimalOfShort("7");
    DecimalOfShort("30");
    assert ConvertForm("730", "7", "30");
    ReadClockThreeDigits();
  }

  /** "19:" is 19:00 here, though the event-time parser refuses it. */
  lemma ConvertReadsBareColon()
    ensures ConvertClock("19:") == Some((19, 0))
    ensures ReadClock("19:") == None
  {
    DecimalOfShort("19");
    assert ConvertForm("19:", "19", "");
    ReadClockMissingMinute();
  }

  /** A one-digit minute is refused here too. */
  lemma ConvertRefusesShortMinute()
    ensures ConvertClock("1:5") == None
  {
  }

  /** Five digits are refused here too. */
  lemma ConvertRefusesFiveDigits()
    ensures ConvertClock("12345") == None
  {
  }

  // ---------------------------------------------------------------------
  // execute
  // ---------------------------------------------------------------------

  /** Why `/convert` refuses, one reason per reply it can give. */
  datatype ConvertError =
    | UnknownTimezone
    | BadTimeFormat
    | TimeOutOfRange
    | BadDateFormat
    | NotANumber
    | BadDateTime

  /**
   * The date `/convert` builds on: the three parts of a given date, which
   * must split into exactly three, or today's date on the wall clock of the
   * source zone.
   */
  function ConvertDate(dateStr: Option<string>, zone: string, db: TzDb, now: Instant): (r: Result<DateFields, ConvertError>)
    ensures r.Err? <==> IsTruthy(dateStr) && SplitDate(dateStr.value).None?
    ensures r.Err? ==> r.error == BadDateFormat
    ensures IsTruthy(dateStr) && r.Ok? ==> SplitDate(dateStr.value) == Some(r.value)
    ensures !IsTruthy(dateStr) ==> r == Ok(FieldsOfDate(UtcDate(WallClock(DateTime(now, Named(zone)), db))))
  {
    if IsTruthy(dateStr) then
      match SplitDate(dateStr.value)
      case None => Err(BadDateFormat)
      case Some(f) => Ok(f)
    else
      Ok(FieldsOfDate(UtcDate(WallClock(DateTime(now, Named(zone)), db))))
  }

  /** All three parts of a date are numbers. */
  predicate Complete(f: DateFields) {
    f.year.Some? && f.month.Some? && f.day.Some?
  }

  function DateOf(f: DateFields): Date
    requires Complete(f)
  {
    Date(f.year.value, f.month.value, f.day.value)
  }

  /**
   * `DateTime.fromObject` in the source zone, then `toUTC`: a part that is
   * not a number makes the library throw; a date that does not exist, a
   * local time outside the time range, or one the zone cannot place gives
   * an invalid date-time.
   */
  function PlaceLocal(f: DateFields, hour: int, minute: int, zone: string, db: TzDb): (r: Result<Instant, ConvertError>)
    requires 0 <= hour < 24 && 0 <= minute < 60
    ensures r == Err(NotANumber) <==> !Complete(f)
    ensures r.Ok? <==>
      && Complete(f) && ValidDate(DateOf(f)) && InTimeRange(UtcMs(DateOf(f), hour, minute))
      && db.fromLocal(zone, UtcMs(DateOf(f), hour, minute)).Some?
    ensures r.Ok? ==> Some(r.value.ms) == db.fromLocal(zone, UtcMs(DateOf(f), hour, minute))
    ensures r.Err? ==> r.error in {NotANumber, BadDateTime}
  {
    if !Complete(f) then Err(NotANumber)
    else
      var d := DateOf(f);
      if !ValidDate(d) || !InTimeRange(UtcMs(d, hour, minute)) then Err(BadDateTime)
      else
        match db.fromLocal(zone, UtcMs(d, hour, minute))
        case None => Err(BadDateTime)
        case Some(ms) => Ok(Instant(ms))
  }

  /** The clock reading of a time text passes the range check. */
  predicate ClockInLimits(c: (int, int)) {
    0 <= c.0 <= 23 && 0 <= c.1 <= 59
  }

  /**
   * The checks after the source zone has resolved to `zone`: the time
   * grammar, then the hour and minute ranges, then the date's shape, then
   * the date-time itself; the first failure decides the reply. A success is
   * the EVE (UTC) date-time of the local time in `zone`.
   */
  function ConvertIn(zone: string, timeStr: string, dateStr: Option<string>, db: TzDb, now: Instant): (r: Result<DateTime, ConvertError>)
    ensures r != Err(UnknownTimezone)
    ensures r == Err(BadTimeFormat) <==> ConvertClock(timeStr).None?
    ensures r == Err(TimeOutOfRange) <==> ConvertClock(timeStr).Some? && !ClockInLimits(ConvertClock(timeStr).value)
    ensures r == Err(BadDateFormat) <==>
      && ConvertClock(timeStr).Some? && ClockInLimits(ConvertClock(timeStr).value)
      && IsTruthy(dateStr) && SplitDate(dateStr.value).None?
    ensures r.Ok? ==>
      && ConvertClock(timeStr).Some? && ClockInLimits(ConvertClock(timeStr).value)
      && ConvertDate(dateStr, zone, db, now).Ok?
      && var (hour, minute) := ConvertClock(timeStr).value;
         var f := ConvertDate(dateStr, zone, db, now).value;
         && Complete(f) && ValidDate(DateOf(f))
         && r.value.zone == Utc
         && db.fromLocal(zone, UtcMs(DateOf(f), hour, minute)) == Some(r.value.instant.ms)
  {
    match ConvertClock(timeStr)
    case None => Err(BadTimeFormat)
    case Some((hour, minute)) =>
      if !ClockInLimits((hour, minute)) then Err(TimeOutOfRange)
      else
        match ConvertDate(dateStr, zone, db, now)
        case Err(e) => Err(e)
        case Ok(f) =>
          match PlaceLocal(f, hour, minute, zone, db)
          case Err(e) => Err(e)
          case Ok(t) => Ok(DateTime(t, Utc))
  }

  /**
   * `/convert`'s `execute` up to the reply: an unknown source zone is
   * refused before anything else is looked at.
   */
  function Convert(timeStr: string, fromTz: string, dateStr: Option<string>, db: TzDb, now: Instant): (r: Result<DateTime, ConvertError>)
    ensures r == Err(UnknownTimezone) <==> ResolveTimezone(fromTz, db).None?
    ensures ResolveTimezone(fromTz, db).Some? ==> r == ConvertIn(ResolveTimezone(fromTz, db).value, timeStr, dateStr, db, now)
  {
    match ResolveTimezone(fromTz, db)
    case None => Err(UnknownTimezone)
    case Some(zone) => ConvertIn(zone, timeStr, dateStr, db, now)
  }

  /** A date that does not split into three parts is refused here, where the event-time parser would use today instead. */
  lemma MalformedDateRefused(zone: string, timeStr: string, dateStr: string, db: TzDb, now: Instant)
    requires ReadClock(timeStr).Some? && ClockInLimits(ReadClock(timeStr).value)
    requires dateStr != "" && SplitDate(dateStr).None?
    ensures ConvertIn(zone, timeStr, Some(dateStr), db, now) == Err(BadDateFormat)
    ensures ParseEveTime(timeStr, Some(dateStr), now) == ParseEveTime(timeStr, None, now)
  {
    ConvertReadsEveTimes(timeStr);
    ParseIgnoresMalformedDate(timeStr, dateStr, now);
  }

  /** The zone database reads the `UTC` zone as UTC itself: no offset, and local times placed as they are. */
  ghost predicate UtcIsPlain(db: TzDb) {
    && (forall ms :: db.offsetMs("UTC", ms) == 0)
    && (forall ms | InTimeRange(ms) :: db.fromLocal("UTC", ms) == Some(ms))
  }

  /**
   * In the `UTC` zone, `/convert` and the event-time parser agree on any
   * time text the parser takes as typed, with or without a date, provided a
   * given date splits into three parts.
   */
  lemma ConvertAgreesWithParse(timeStr: string, dateStr: Option<string>, db: TzDb, now: Instant)
    requires UtcIsPlain(db)
    requires IsPlainKey(timeStr)
    requires ReadClock(timeStr).Some?
    requires IsTruthy(dateStr) ==> SplitDate(dateStr.value).Some?
    ensures var c := ConvertIn("UTC", timeStr, dateStr, db, now);
      var p := ParseEveTime(timeStr, dateStr, now);
      && (c.Ok? <==> p.Some?)
      && (c.Ok? ==> c.value == p.value)
  {
    CleanPlainTime(timeStr);
    ConvertReadsEveTimes(timeStr);
    var (hour, minute) := ReadClock(timeStr).value;
    if !ClockInLimits((hour, minute)) {
      ParseRefusesBadClock(timeStr, dateStr, now);
    } else {
      var f := EveDateFields(dateStr, now);
      assert ConvertDate(dateStr, "UTC", db, now) == Ok(f) by {
        assert WallClock(DateTime(now, Named("UTC")), db) == now;
      }
      ConvertInPlaces("UTC", timeStr, dateStr, db, now, hour, minute, f);
      ParsePlaces(timeStr, dateStr, now, hour, minute);
      PlaceLocalUtc(f, hour, minute, db);
    }
  }

  /** Past the clock and date checks, `/convert` answers with the placed local time. */
  lemma ConvertInPlaces(zone: string, timeStr: string, dateStr: Option<string>, db: TzDb, now: Instant,
                        hour: int, minute: int, f: DateFields)
    requires ConvertClock(timeStr) == Some((hour, minute)) && ClockInLimits((hour, minute))
    requires ConvertDate(dateStr, zone, db, now) == Ok(f)
    ensures var c := ConvertIn(zone, timeStr, dateStr, db, now);
      var t := PlaceLocal(f, hour, minute, zone, db);
      && (c.Ok? <==> t.Ok?)
      && (c.Ok? ==> c.value == DateTime(t.value, Utc))
  {
  }

  /** Placing a local time in the plain `UTC` zone is building the UTC instant. */
  lemma PlaceLocalUtc(f: DateFields, hour: int, minute: int, db: TzDb)
    requires UtcIsPlain(db) && ClockInLimits((hour, minute))
    ensures var t := PlaceLocal(f, hour, minute, "UTC", db);
      var u := UtcInstant(f, hour, minute);
      && (t.Ok? <==> u.Some?)
      && (t.Ok? ==> t.value == u.value)
  {
    if Complete(f) && ValidDate(DateOf(f)) && InTimeRange(UtcMs(DateOf(f), hour, minute)) {
      assert db.fromLocal("UTC", UtcMs(DateOf(f), hour, minute)) == Some(UtcMs(DateOf(f), hour, minute));
    }
  }
}
