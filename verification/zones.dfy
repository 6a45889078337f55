/**
 * Timezone resolution: the alias table of common abbreviations, the fallback
 * to the zone database, re-zoning an instant, and the catalogue offered to
 * autocomplete.
 */
module Zones {
  import opened Wrappers
  import opened Text
  import opened Calendar

  /**
   * What the date library's zone database answers: whether it accepts a
   * zone name; how far (in milliseconds) the zone's wall clock is ahead of
   * UTC at a given instant; and at which instant the zone's wall clock shows
   * a given local time (written as milliseconds of that wall clock counted
   * from 1970-01-01T00:00), or nothing when the library marks that
   * date-time invalid.
   */
  datatype TzDb = TzDb(
    isValid: string -> bool,
    offsetMs: (string, int) -> int,
    fromLocal: (string, int) -> Option<int>)

  /** The zone a date-time is shown in: UTC itself, or a zone the database knows by name. */
  datatype Zone = Utc | Named(name: string)

  /** An instant together with the zone its fields are read in. */
  datatype DateTime = DateTime(instant: Instant, zone: Zone)

  /** Abbreviations players use, upper-case, mapped to zone names. */
  const Aliases: map<string, string> := map[
    // Americas
    "EST" := "America/New_York",
    "EDT" := "America/New_York",
    "CST" := "America/Chicago",
    "CDT" := "America/Chicago",
    "MST" := "America/Denver",
    "MDT" := "America/Denver",
    "PST" := "America/Los_Angeles",
    "PDT" := "America/Los_Angeles",
    "AKST" := "America/Anchorage",
    "AKDT" := "America/Anchorage",
    "HST" := "Pacific/Honolulu",
    "AST" := "America/Halifax",
    "ADT" := "America/Halifax",
    "BRT" := "America/Sao_Paulo",
    "ART" := "America/Argentina/Buenos_Aires",
    // Europe
    "GMT" := "Europe/London",
    "BST" := "Europe/London",
    "WET" := "Europe/Lisbon",
    "WEST" := "Europe/Lisbon",
    "CET" := "Europe/Paris",
    "CEST" := "Europe/Paris",
    "EET" := "Europe/Helsinki",
    "EEST" := "Europe/Helsinki",
    "MSK" := "Europe/Moscow",
    // Asia and Pacific
    "IST" := "Asia/Kolkata",
    "SGT" := "Asia/Singapore",
    "HKT" := "Asia/Hong_Kong",
    "JST" := "Asia/Tokyo",
    "KST" := "Asia/Seoul",
    "CST_CHINA" := "Asia/Shanghai",
    "AWST" := "Australia/Perth",
    "ACST" := "Australia/Adelaide",
    "AEST" := "Australia/Sydney",
    "AEDT" := "Australia/Sydney",
    "NZST" := "Pacific/Auckland",
    "NZDT" := "Pacific/Auckland",
    // EVE itself runs on UTC
    "EVE" := "UTC",
    "EVETIME" := "UTC",
    "EVE TIME" := "UTC"
  ]

  /** A database that accepts every zone name the alias table maps to. */
  predicate KnowsAliasTargets(db: TzDb) {
    forall k | k in Aliases :: db.isValid(Aliases[k])
  }

  /** The alias-table key for an input: upper-cased, then trimmed. */
  function AliasKey(tz: string): string {
    Trim(ToUpper(tz))
  }

  /**
   * `resolveTimezone`: the empty string resolves to nothing; an alias
   * resolves to its table entry whatever the database says; any other input
   * the database accepts resolves to itself, exactly as typed.
   */
  function ResolveTimezone(tz: string, db: TzDb): (r: Option<string>)
    ensures tz == "" ==> r == None
    ensures tz != "" && AliasKey(tz) in Aliases ==> r == Some(Aliases[AliasKey(tz)])
    ensures tz != "" && AliasKey(tz) !in Aliases ==> (r == Some(tz) <==> db.isValid(tz))
    ensures r == None <==> tz == "" || (AliasKey(tz) !in Aliases && !db.isValid(tz))
  {
    if tz == "" then None
    else if AliasKey(tz) in Aliases then Some(Aliases[AliasKey(tz)])
    else if db.isValid(tz) then Some(tz)
    else None
  }

  /**
   * The three possible results: an alias-table target (whatever the
   * database says), the input verbatim when the database accepts it, or
   * nothing.
   */
  lemma ResolveOutcomes(tz: string, db: TzDb)
    ensures var r := ResolveTimezone(tz, db);
      || (r.Some? && r.value in Aliases.Values)
      || (r == Some(tz) && db.isValid(tz))
      || r == None
  {
  }

  /** Upper-casing does not touch spaces, so it distributes over padding. */
  lemma ToUpperOfPadded(pre: string, s: string, post: string)
    requires AllSpace(pre) && AllSpace(post)
    ensures AllSpace(ToUpper(pre)) && AllSpace(ToUpper(post))
    ensures ToUpper(pre + s + post) == ToUpper(pre) + ToUpper(s) + ToUpper(post)
  {
    var x := pre + s + post;
    var y := ToUpper(pre) + ToUpper(s) + ToUpper(post);
    assert |ToUpper(x)| == |y|;
    forall i | 0 <= i < |x|
      ensures ToUpper(x)[i] == y[i]
    {
      if i < |pre| {
        assert x[i] == pre[i];
      } else if i < |pre| + |s| {
        assert x[i] == s[i - |pre|];
      } else {
        assert x[i] == post[i - |pre| - |s|];
      }
    }
  }

  /** The alias key ignores letter case and surrounding white space. */
  lemma AliasKeyIgnoresCaseAndPadding(pre: string, s: string, post: string, t: string)
    requires AllSpace(pre) && AllSpace(post) && SameIgnoringCase(s, t)
    ensures AliasKey(pre + s + post) == AliasKey(t)
  {
    ToUpperOfPadded(pre, s, post);
    ToUpperIgnoresCase(s, t);
    TrimIgnoresPadding(ToUpper(pre), ToUpper(s), ToUpper(post));
  }

  /** A string that is already upper-case and has no white space at either end. */
  predicate IsPlainKey(k: string) {
    && k != []
    && !IsSpace(k[0]) && !IsSpace(k[|k| - 1])
    && forall i | 0 <= i < |k| :: !IsLowerLetter(k[i])
  }

  /** A plain key is its own alias key. */
  lemma PlainKeyIsOwnKey(k: string)
    requires IsPlainKey(k)
    ensures AliasKey(k) == k
  {
    assert ToUpper(k) == k;
    LeadingSpaceIs(k, 0);
    TrailingSpaceStartIs(k, |k|);
  }

  /**
   * Once some spelling `t` hits the alias table, every spelling that differs
   * from it only in letter case and surrounding white space resolves to the
   * same zone.
   */
  lemma ResolveAliasAnySpelling(pre: string, s: string, post: string, t: string, db: TzDb)
    requires AliasKey(t) in Aliases
    requires AllSpace(pre) && AllSpace(post) && SameIgnoringCase(s, t)
    ensures ResolveTimezone(pre + s + post, db) == Some(Aliases[AliasKey(t)])
  {
    AliasKeyIgnoresCaseAndPadding(pre, s, post, t);
    EmptyIsNoAlias();
    AliasKeyOfEmpty();
    ResolveByKey(pre + s + post, db);
  }

  lemma EmptyIsNoAlias()
    ensures "" !in Aliases
  {
  }

  lemma AliasKeyOfEmpty()
    ensures AliasKey("") == ""
  {
  }

  /** A key found in the alias table decides the result, whatever the database holds. */
  lemma ResolveByKey(tz: string, db: TzDb)
    requires AliasKey(tz) in Aliases && AliasKey(tz) != AliasKey("")
    ensures ResolveTimezone(tz, db) == Some(Aliases[AliasKey(tz)])
  {
  }

  // Alias examples: one spelling per lemma.

  lemma AliasKeyPadded(tz: string)
    requires tz == " est "
    ensures AliasKey(tz) == "EST"
  {
    assert ToUpper(tz) == " EST ";
    LeadingSpaceIs(" EST ", 1);
    assert TrimStart(" EST ") == "EST ";
    TrailingSpaceStartIs("EST ", 3);
  }

  lemma AliasKeyMixed(tz: string)
    requires tz == "Est"
    ensures AliasKey(tz) == "EST"
  {
    assert ToUpper(tz) == "EST";
    LeadingSpaceIs("EST", 0);
    TrailingSpaceStartIs("EST", 3);
  }

  lemma AliasKeyLower(tz: string)
    requires tz == "pst"
    ensures AliasKey(tz) == "PST"
  {
    assert ToUpper(tz) == "PST";
    LeadingSpaceIs("PST", 0);
    TrailingSpaceStartIs("PST", 3);
  }

  lemma EasternAlias()
    ensures "EST" in Aliases && Aliases["EST"] == "America/New_York"
  {
  }

  lemma PacificAlias()
    ensures "PST" in Aliases && Aliases["PST"] == "America/Los_Angeles"
  {
  }

  /** An alias typed in lower case and padded with spaces still resolves. */
  lemma ResolvePaddedLowerCase(tz: string, db: TzDb)
    requires tz == " est "
    ensures ResolveTimezone(tz, db) == Some("America/New_York")
  {
    AliasKeyPadded(tz);
    EasternAlias();
    AliasKeyOfEmpty();
    ResolveByKey(tz, db);
  }

  lemma ResolveMixedCase(tz: string, db: TzDb)
    requires tz == "Est"
    ensures ResolveTimezone(tz, db) == Some("America/New_York")
  {
    AliasKeyMixed(tz);
    EasternAlias();
    AliasKeyOfEmpty();
    ResolveByKey(tz, db);
  }

  lemma ResolveLowerCase(tz: string, db: TzDb)
    requires tz == "pst"
    ensures ResolveTimezone(tz, db) == Some("America/Los_Angeles")
  {
    AliasKeyLower(tz);
    PacificAlias();
    AliasKeyOfEmpty();
    ResolveByKey(tz, db);
  }

  /** No alias-table key contains a slash, so no zone path can be mistaken for an alias. */
  lemma AliasKeysHaveNoSlash()
    ensures forall k | k in Aliases :: '/' !in k
  {
  }

  /** An input that upper-cases to a key with a slash is never an alias. */
  lemma SlashedIsNoAlias(tz: string, i: int)
    requires 0 <= i < |tz| && tz[i] == '/'
    requires !IsSpace(tz[0]) && !IsSpace(tz[|tz| - 1])
    ensures AliasKey(tz) == ToUpper(tz) && AliasKey(tz) !in Aliases
  {
    var u := ToUpper(tz);
    LeadingSpaceIs(u, 0);
    TrailingSpaceStartIs(u, |u|);
    assert u[i] == '/';
    AliasKeysHaveNoSlash();
  }

  /** A name that is neither an alias nor a zone the database accepts resolves to nothing. */
  lemma UnknownZoneExample(db: TzDb)
    requires !db.isValid("Mars/Phobos")
    ensures ResolveTimezone("Mars/Phobos", db) == None
  {
    SlashedIsNoAlias("Mars/Phobos", 4);
  }

  /**
   * `convertToTimezone`: nothing exactly when the target does not resolve;
   * otherwise the same instant, now read in the resolved zone.
   */
  function ConvertToTimezone(t: DateTime, targetTz: string, db: TzDb): (r: Option<DateTime>)
    ensures r.None? <==> ResolveTimezone(targetTz, db).None?
    ensures r.Some? ==> r.value.instant == t.instant
    ensures r.Some? ==> r.value.zone == Named(ResolveTimezone(targetTz, db).value)
  {
    match ResolveTimezone(targetTz, db)
    case None => None
    case Some(zone) => Some(DateTime(t.instant, Named(zone)))
  }

  /** Re-zoning twice into the same target is the same as re-zoning once. */
  lemma ConvertIdempotent(t: DateTime, targetTz: string, db: TzDb)
    requires ConvertToTimezone(t, targetTz, db).Some?
    ensures ConvertToTimezone(ConvertToTimezone(t, targetTz, db).value, targetTz, db) == ConvertToTimezone(t, targetTz, db)
  {
  }

  /** How far the zone's wall clock is ahead of UTC at the date-time's instant. */
  function OffsetOf(dt: DateTime, db: TzDb): int {
    match dt.zone
    case Utc => 0
    case Named(name) => db.offsetMs(name, dt.instant.ms)
  }

  /**
   * The wall-clock reading of a date-time, as milliseconds since
   * 1970-01-01T00:00 on that wall clock; the UTC fields of this value are the
   * zone-local fields.
   */
  function WallClock(dt: DateTime, db: TzDb): (w: Instant)
    ensures dt.zone == Utc ==> w == dt.instant
  {
    Instant(dt.instant.ms + OffsetOf(dt, db))
  }

  // ---------------------------------------------------------------------
  // The autocomplete catalogue
  // ---------------------------------------------------------------------

  /** One autocomplete choice: the label shown and the zone name submitted. */
  datatype Choice = Choice(name: string, value: string)

  const CommonTimezones: seq<Choice> := [
    Choice("EVE Time (UTC)", "UTC"),
    Choice("US Eastern (EST/EDT)", "America/New_York"),
    Choice("US Central (CST/CDT)", "America/Chicago"),
    Choice("US Mountain (MST/MDT)", "America/Denver"),
    Choice("US Pacific (PST/PDT)", "America/Los_Angeles"),
    Choice("UK (GMT/BST)", "Europe/London"),
    Choice("Central Europe (CET/CEST)", "Europe/Paris"),
    Choice("Eastern Europe (EET/EEST)", "Europe/Helsinki"),
    Choice("Moscow (MSK)", "Europe/Moscow"),
    Choice("India (IST)", "Asia/Kolkata"),
    Choice("Singapore (SGT)", "Asia/Singapore"),
    Choice("Japan (JST)", "Asia/Tokyo"),
    Choice("Australia Eastern (AEST/AEDT)", "Australia/Sydney"),
    Choice("New Zealand (NZST/NZDT)", "Pacific/Auckland")
  ]

  /** The alias whose target each catalogue entry offers, position by position. */
  const CatalogueAliases: seq<string> := [
    "EVE", "EST", "CST", "MST", "PST", "GMT", "CET", "EET", "MSK", "IST", "SGT", "JST", "AEST", "NZST"
  ]

  // Every zone the catalogue offers is also the target of an alias, a few positions per lemma.

  lemma CatalogueTargetsAmericas(i: int)
    requires 0 <= i < 4
    ensures i < |CatalogueAliases| && CatalogueAliases[i] in Aliases
    ensures Aliases[CatalogueAliases[i]] == CommonTimezones[i].value
  {
  }

  lemma CatalogueTargetsWest(i: int)
    requires 4 <= i < 7
    ensures i < |CatalogueAliases| && CatalogueAliases[i] in Aliases
    ensures Aliases[CatalogueAliases[i]] == CommonTimezones[i].value
  {
  }

  lemma CatalogueTargetsEast(i: int)
    requires 7 <= i < 11
    ensures i < |CatalogueAliases| && CatalogueAliases[i] in Aliases
    ensures Aliases[CatalogueAliases[i]] == CommonTimezones[i].value
  {
  }

  lemma CatalogueTargetsPacific(i: int)
    requires 11 <= i < |CommonTimezones|
    ensures i < |CatalogueAliases| && CatalogueAliases[i] in Aliases
    ensures Aliases[CatalogueAliases[i]] == CommonTimezones[i].value
  {
  }

  lemma CatalogueTargets(i: int)
    requires 0 <= i < |CommonTimezones|
    ensures i < |CatalogueAliases| && CatalogueAliases[i] in Aliases
    ensures Aliases[CatalogueAliases[i]] == CommonTimezones[i].value
  {
    if i < 4 {
      CatalogueTargetsAmericas(i);
    } else if i < 7 {
      CatalogueTargetsWest(i);
    } else if i < 11 {
      CatalogueTargetsEast(i);
    } else {
      CatalogueTargetsPacific(i);
    }
  }

  /** Where the slash of each catalogue zone path stands (none for "UTC"). */
  const CatalogueSlash: seq<int> := [-1, 7, 7, 7, 7, 6, 6, 6, 6, 4, 4, 4, 9, 7]

  lemma CatalogueSlashFirstHalf(i: int)
    requires 0 < i < 7
    ensures i < |CatalogueSlash|
    ensures var v := CommonTimezones[i].value;
      && 0 <= CatalogueSlash[i] < |v| && v[CatalogueSlash[i]] == '/'
      && !IsSpace(v[0]) && !IsSpace(v[|v| - 1])
  {
  }

  lemma CatalogueSlashSecondHalf(i: int)
    requires 7 <= i < |CommonTimezones|
    ensures i < |CatalogueSlash|
    ensures var v := CommonTimezones[i].value;
      && 0 <= CatalogueSlash[i] < |v| && v[CatalogueSlash[i]] == '/'
      && !IsSpace(v[0]) && !IsSpace(v[|v| - 1])
  {
  }

  /**
   * Picking a catalogue choice always works: with a database that knows the
   * alias targets, every offered zone resolves to itself.
   */
  lemma CatalogueResolvesToItself(db: TzDb, i: int)
    requires KnowsAliasTargets(db) && 0 <= i < |CommonTimezones|
    ensures ResolveTimezone(CommonTimezones[i].value, db) == Some(CommonTimezones[i].value)
  {
    CatalogueTargets(i);
    var v := CommonTimezones[i].value;
    assert db.isValid(v);
    if i == 0 {
      assert v == "UTC";
      PlainKeyIsOwnKey(v);
      UtcIsNoAlias();
      ValidUnaliasedResolves(v, db);
    } else {
      if i < 7 { CatalogueSlashFirstHalf(i); } else { CatalogueSlashSecondHalf(i); }
      SlashedIsNoAlias(v, CatalogueSlash[i]);
      ValidUnaliasedResolves(v, db);
    }
  }

  lemma UtcIsNoAlias()
    ensures "UTC" !in Aliases
  {
  }

  lemma ValidUnaliasedResolves(v: string, db: TzDb)
    requires v != "" && db.isValid(v) && AliasKey(v) !in Aliases
    ensures ResolveTimezone(v, db) == Some(v)
  {
  }
}
