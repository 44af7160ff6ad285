/// The legacy configuration format and its migration into rules, as pure functions.
///
/// The legacy fields arrive as a bag of JSON tokens keyed by field name. A token is
/// modelled by what each conversion ModConfig applies to it yields: the `(bool)` cast,
/// `ToObject<Dictionary<string, bool>>`, `ToObject<string>`, `ToObject<float>`,
/// `ToObject<int>` and `ToObject<SButton>`. None means that conversion throws.
module Legacy {
  import opened Wrappers
  import opened Flags
  import opened Log
  import opened Rules

  datatype Token = Token(
    asBool: Option<bool>,
    asDayTable: Option<seq<(string, bool)>>,  // the dictionary's entries in enumeration order
    asString: Option<Str>,
    asZoom: Option<real>,
    asInt: Option<int>,
    asButton: Option<Button>)

  type Bag = map<string, Token>

  /** The conversions ModConfig applies to legacy tokens, by target type. */
  function AsString(t: Token): Option<Str> { t.asString }
  function AsZoom(t: Token): Option<real> { t.asZoom }
  function AsInt(t: Token): Option<int> { t.asInt }
  function AsButton(t: Token): Option<Button> { t.asButton }

  /** The outcome of a step that may throw. */
  datatype Attempt<+T> = Done(value: T) | Threw

  const HowOftenKey := "HowOftenToTakeScreenshot"
  const RainyDaysKey := "TakeScreenshotOnRainyDays"
  const FolderKey := "FolderDestinationForDailyScreenshots"
  const ZoomKey := "TakeScreenshotZoomLevel"
  const StartTimeKey := "TimeScreenshotGetsTakenAfter"
  const ButtonKey := "TakeScreenshotKey"
  const KeyZoomKey := "TakeScreenshotKeyZoomLevel"
  const KeyFolderKey := "FolderDestinationForKeypressScreenshots"

  /** GetOldData<T>: the stored token converted to T when the key is present, and
      `typeDefault` (C#'s `default(T)`) when it is absent. `defaultValue` is never used. */
  function GetOldData<T>(bag: Bag, key: string, convert: Token -> Option<T>, typeDefault: T, defaultValue: T): (r: Attempt<T>)
    ensures key !in bag ==> r == Done(typeDefault)
    ensures key in bag ==> (r.Threw? <==> convert(bag[key]).None?)
    ensures key in bag && r.Done? ==> r.value == convert(bag[key]).value
  {
    if key in bag then
      match convert(bag[key])
      case Some(v) => Done(v)
      case None => Threw
    else
      Done(typeDefault)
  }

  lemma GetOldDataIgnoresDefaultValue<T>(bag: Bag, key: string, convert: Token -> Option<T>, typeDefault: T, d1: T, d2: T)
    ensures GetOldData(bag, key, convert, typeDefault, d1) == GetOldData(bag, key, convert, typeDefault, d2)
  {
  }

  // ---------------------------------------------------------------------------
  // The rewrite of a legacy day label into a DateFlags name:
  // key.Replace("of", "OfThe").Replace(" ", "")

  /** There is an occurrence of "of" in `s`. */
  predicate HasOf(s: string)
  {
    exists i :: 0 <= i < |s| - 1 && s[i] == 'o' && s[i + 1] == 'f'
  }

  /** String.Replace("of", "OfThe"): every occurrence, scanning left to right. */
  function ReplaceOf(s: string): string
    decreases |s|
  {
    if |s| < 2 then s
    else if s[0] == 'o' && s[1] == 'f' then "OfThe" + ReplaceOf(s[2..])
    else [s[0]] + ReplaceOf(s[1..])
  }

  /** String.Replace(" ", ""). */
  function RemoveSpaces(s: string): string
    decreases |s|
  {
    if s == [] then []
    else (if s[0] == ' ' then [] else [s[0]]) + RemoveSpaces(s[1..])
  }

  function KeyToEnumName(key: string): string
  {
    RemoveSpaces(ReplaceOf(key))
  }

  /** The date flags a legacy day label stands for, if its rewritten name parses. */
  function ParseLegacyDay(key: string): Option<DateFlags>
  {
    TryParseDate(KeyToEnumName(key))
  }

  lemma {:induction false} ReplaceOfStart(s: string)
    requires |s| > 0
    ensures |ReplaceOf(s)| > 0
    ensures ReplaceOf(s)[0] == if |s| >= 2 && s[0] == 'o' && s[1] == 'f' then 'O' else s[0]
  {
  }

  /** After the replacement no "of" is left, not even one formed across a replaced part. */
  lemma {:induction false} ReplaceOfLeavesNoOf(s: string)
    ensures !HasOf(ReplaceOf(s))
    decreases |s|
  {
    if |s| < 2 {
    } else if s[0] == 'o' && s[1] == 'f' {
      var rest := ReplaceOf(s[2..]);
      ReplaceOfLeavesNoOf(s[2..]);
      var r := "OfThe" + rest;
      forall i | 0 <= i < |r| - 1 && r[i] == 'o'
        ensures r[i + 1] != 'f'
      {
        if i >= 5 {
          assert r[i] == rest[i - 5] && r[i + 1] == rest[i - 4];
        }
      }
    } else {
      var rest := ReplaceOf(s[1..]);
      ReplaceOfLeavesNoOf(s[1..]);
      ReplaceOfStart(s[1..]);
      var r := [s[0]] + rest;
      forall i | 0 <= i < |r| - 1 && r[i] == 'o'
        ensures r[i + 1] != 'f'
      {
        if i >= 1 {
          assert r[i] == rest[i - 1] && r[i + 1] == rest[i];
        }
      }
    }
  }

  /** A string without "of" is left as it is. */
  lemma {:induction false} ReplaceOfKeepsPlain(s: string)
    requires !HasOf(s)
    ensures ReplaceOf(s) == s
    decreases |s|
  {
    if |s| >= 2 {
      NoOfInTail(s);
      ReplaceOfKeepsPlain(s[1..]);
    }
  }

  /** A string without "of" has none after its first character either. */
  lemma NoOfInTail(s: string)
    requires s != [] && !HasOf(s)
    ensures !HasOf(s[1..])
  {
    var rest := s[1..];
    forall i | 0 <= i < |rest| - 1
      ensures !(rest[i] == 'o' && rest[i + 1] == 'f')
    {
      assert rest[i] == s[i + 1] && rest[i + 1] == s[i + 2];
    }
  }

  /** Removing spaces keeps exactly the characters that are not spaces. */
  lemma {:induction false} RemoveSpacesChars(s: string, c: char)
    ensures c in RemoveSpaces(s) <==> c in s && c != ' '
    decreases |s|
  {
    if s != [] {
      RemoveSpacesChars(s[1..], c);
      assert s == [s[0]] + s[1..];
    }
  }

  /** A part without "of" that does not end in 'o' passes through the replacement unchanged. */
  lemma {:induction false} ReplaceOfAppend(a: string, b: string)
    requires !HasOf(a) && (a == [] || a[|a| - 1] != 'o')
    ensures ReplaceOf(a + b) == a + ReplaceOf(b)
    decreases |a|
  {
    if a != [] {
      var rest := a[1..];
      NoOfInTail(a);
      ReplaceOfAppend(rest, b);
      var ab := a + b;
      assert ab[0] == a[0] && ab[1..] == rest + b;
      if |ab| >= 2 {
        assert !(ab[0] == 'o' && ab[1] == 'f') by {
          if |a| >= 2 {
            assert ab[1] == a[1];
          }
        }
        assert ReplaceOf(ab) == [a[0]] + ReplaceOf(ab[1..]);
        assert a == [a[0]] + rest;
      } else {
        assert b == [] && a == ab;
      }
    } else {
      assert a + b == b;
    }
  }

  /** Removing spaces works part by part. */
  lemma {:induction false} RemoveSpacesAppend(a: string, b: string)
    ensures RemoveSpaces(a + b) == RemoveSpaces(a) + RemoveSpaces(b)
    decreases |a|
  {
    if a != [] {
      RemoveSpacesAppend(a[1..], b);
      var ab := a + b;
      assert ab[0] == a[0] && ab[1..] == a[1..] + b;
      assert RemoveSpaces(ab) == (if a[0] == ' ' then [] else [a[0]]) + RemoveSpaces(ab[1..]);
    } else {
      assert a + b == b;
    }
  }

  /** A string without spaces is left as it is. */
  lemma {:induction false} RemoveSpacesKeepsPlain(s: string)
    requires ' ' !in s
    ensures RemoveSpaces(s) == s
    decreases |s|
  {
    if s != [] {
      assert s == [s[0]] + s[1..];
      RemoveSpacesKeepsPlain(s[1..]);
    }
  }

  /** A legacy label ending in "of Month" becomes the squeezed front followed by "OfTheMonth". */
  lemma OfMonthLabel(front: string, rest: string)
    requires !HasOf(front) && front != [] && front[|front| - 1] != 'o'
    requires rest == "of Month"
    ensures KeyToEnumName(front + rest) == RemoveSpaces(front) + "OfTheMonth"
  {
    ReplaceOfAppend(front, rest);
    ReplacedOfMonth();
    SqueezedOfTheMonth();
    RemoveSpacesAppend(front, ReplaceOf(rest));
  }

  lemma ReplacedOfMonth()
    ensures ReplaceOf("of Month") == "OfThe Month"
  {
    var month := " Month";
    OfMonthWords();
    assert !HasOf(month) by {
      forall i | 0 <= i < |month| - 1
        ensures !(month[i] == 'o' && month[i + 1] == 'f')
      {
      }
    }
    ReplaceOfKeepsPlain(month);
  }

  lemma SqueezedOfTheMonth()
    ensures RemoveSpaces("OfThe Month") == "OfTheMonth"
  {
    OfMonthWords();
    DropSpace("OfThe", "Month");
    RemoveSpacesKeepsPlain("Month");
  }

  /** "Last Day of Month" becomes the DateFlags name LastDayOfTheMonth. */
  lemma LastDayLabel(key: string)
    requires key == "Last Day of Month"
    ensures KeyToEnumName(key) == "LastDayOfTheMonth"
  {
    LastDayWords();
    LastDayFront();
    OfMonthLabel("Last Day ", "of Month");
  }

  lemma LastDayFront()
    ensures !HasOf("Last Day ")
    ensures RemoveSpaces("Last Day ") == "LastDay"
  {
    var front := "Last Day ";
    forall i | 0 <= i < |front| - 1
      ensures !(front[i] == 'o' && front[i + 1] == 'f')
    {
    }
    LastDayWords();
    DropSpace("Last", "Day ");
    DropSpace("Day", []);
  }

  /** A space after a part without spaces is dropped. */
  lemma DropSpace(a: string, c: string)
    requires ' ' !in a
    ensures RemoveSpaces(a + ([' '] + c)) == a + RemoveSpaces(c)
  {
    RemoveSpacesAppend(a, [' '] + c);
    RemoveSpacesKeepsPlain(a);
    assert ([' '] + c)[1..] == c;
    assert RemoveSpaces([' '] + c) == RemoveSpaces(c);
  }

  /** How the words of "of Month" split and join. */
  lemma OfMonthWords()
    ensures "of Month"[2..] == " Month"
    ensures "OfThe" + " Month" == "OfThe Month"
    ensures "OfThe" + ([' '] + "Month") == "OfThe Month"
    ensures "OfThe" + "Month" == "OfTheMonth"
  {
  }

  /** How the words of "Last Day of Month" split and join. */
  lemma LastDayWords()
    ensures "Last Day of Month" == "Last Day " + "of Month"
    ensures "Last" + ([' '] + "Day ") == "Last Day "
    ensures "Day" + ([' '] + []) == "Day "
    ensures "Last" + ("Day" + []) == "LastDay"
    ensures "LastDay" + "OfTheMonth" == "LastDayOfTheMonth"
  {
  }

  // ---------------------------------------------------------------------------
  // The days loop: Days |= the flags of every truthy entry whose name parses.

  /** The flags the truthy, parseable entries of a legacy day table contribute. */
  function LegacyDays(entries: seq<(string, bool)>): DateFlags
    decreases |entries|
  {
    if entries == [] then {}
    else
      var (key, on) := entries[|entries| - 1];
      LegacyDays(entries[..|entries| - 1])
        + (if on && ParseLegacyDay(key).Some? then ParseLegacyDay(key).value else {})
  }

  /** The warnings the days loop logs: one per truthy entry whose name does not parse. */
  function UnknownKeyWarnings(entries: seq<(string, bool)>): seq<Warning>
    decreases |entries|
  {
    if entries == [] then []
    else
      var (key, on) := entries[|entries| - 1];
      UnknownKeyWarnings(entries[..|entries| - 1])
        + (if on && ParseLegacyDay(key).None? then [UnknownDateKey(key)] else [])
  }

  /** One more entry of the day table: its flags join the days, or its key is warned about. */
  lemma LegacyDaysStep(entries: seq<(string, bool)>, k: nat)
    requires k < |entries|
    ensures var (key, on) := entries[k];
      && LegacyDays(entries[..k + 1]) == LegacyDays(entries[..k]) + (if on && ParseLegacyDay(key).Some? then ParseLegacyDay(key).value else {})
      && UnknownKeyWarnings(entries[..k + 1]) == UnknownKeyWarnings(entries[..k]) + (if on && ParseLegacyDay(key).None? then [UnknownDateKey(key)] else [])
  {
    assert entries[..k + 1][..k] == entries[..k];
  }

  /** A flag is set by the loop exactly when some truthy entry's parsed name carries it. */
  lemma {:induction false} LegacyDaysIff(entries: seq<(string, bool)>, d: DateBit)
    ensures d in LegacyDays(entries) <==>
      exists k :: 0 <= k < |entries| && entries[k].1 && ParseLegacyDay(entries[k].0).Some?
                  && d in ParseLegacyDay(entries[k].0).value
    decreases |entries|
  {
    if entries != [] {
      var front := entries[..|entries| - 1];
      LegacyDaysIff(front, d);
      assert forall k :: 0 <= k < |front| ==> front[k] == entries[k];
    }
  }

  /** An unknown-key warning is logged exactly for the truthy entries whose name does not parse. */
  lemma {:induction false} UnknownKeyWarningsIff(entries: seq<(string, bool)>, w: Warning)
    ensures w in UnknownKeyWarnings(entries) <==>
      exists k :: 0 <= k < |entries| && entries[k].1 && ParseLegacyDay(entries[k].0).None?
                  && w == UnknownDateKey(entries[k].0)
    decreases |entries|
  {
    if entries != [] {
      var front := entries[..|entries| - 1];
      UnknownKeyWarningsIff(front, w);
      assert forall k :: 0 <= k < |front| ==> front[k] == entries[k];
    }
  }

  // ---------------------------------------------------------------------------
  // The migration itself.

  /** The weather of the automatic rule, or Threw when the `(bool)` cast fails. */
  function RainyDaysWeather(bag: Bag): Attempt<WeatherFlags>
  {
    if RainyDaysKey !in bag then Done(WeatherAny)
    else
      match bag[RainyDaysKey].asBool
      case None => Threw
      case Some(rainy) => Done(if rainy then WeatherAny else {Snowy, Sunny, Windy})
  }

  /** Rainy days excluded gives exactly Snowy, Sunny and Windy; anything else that does
      not throw gives Any. */
  lemma RainyDaysWeatherIff(bag: Bag)
    ensures RainyDaysWeather(bag).Threw? <==> RainyDaysKey in bag && bag[RainyDaysKey].asBool.None?
    ensures RainyDaysWeather(bag).Done? ==>
      (RainyDaysWeather(bag).value == {Snowy, Sunny, Windy} <==> RainyDaysKey in bag && bag[RainyDaysKey].asBool == Some(false))
    ensures RainyDaysWeather(bag).Done? ==>
      (RainyDaysWeather(bag).value == WeatherAny <==> !(RainyDaysKey in bag && bag[RainyDaysKey].asBool == Some(false)))
  {
    assert Rainy in WeatherAny && Rainy !in {Snowy, Sunny, Windy};
  }

  /** The rule list holds only the placeholder rule that the constructor made. */
  predicate ReusesPlaceholder(rules: seq<RuleValue>, guid: string)
  {
    |rules| == 1 && rules[0].name == Some(guid)
  }

  /** Where the automatic rule sits once placed. */
  function AutoIndex(rules: seq<RuleValue>, guid: string): nat
  {
    if ReusesPlaceholder(rules, guid) then 0 else |rules|
  }

  /** The rule list with the automatic rule in place: the placeholder overwritten, or appended. */
  function PlaceAuto(rules: seq<RuleValue>, guid: string, auto: RuleValue): seq<RuleValue>
  {
    if ReusesPlaceholder(rules, guid) then rules[0 := auto] else rules + [auto]
  }

  /** Replacing the automatic rule once placed is placing the replacement. */
  lemma PlaceAutoReplace(rules: seq<RuleValue>, guid: string, a: RuleValue, b: RuleValue)
    ensures AutoIndex(rules, guid) < |PlaceAuto(rules, guid, a)|
    ensures PlaceAuto(rules, guid, a)[AutoIndex(rules, guid) := b] == PlaceAuto(rules, guid, b)
  {
  }

  /** The fields the migration forces on the automatic rule before anything can throw. */
  function ForceAutoFields(r: RuleValue): RuleValue
  {
    r.(fileName := FileNameDefault, trigger := r.trigger.(location := {Farm}, endTime := DefaultEndTime))
  }

  /** The rule a legacy key binding turns into. */
  function KeyRule(button: Button, zoom: real, directory: Str): RuleValue
  {
    NewRule.(zoomLevel := zoom, directory := directory, fileName := FileNameNone,
             trigger := NewRule.trigger.(key := button, location := LocationAny))
  }

  /** The rules, the RulesModified flag and the warnings after a migration. */
  datatype Migration = Migration(rules: seq<RuleValue>, modified: bool, warnings: seq<Warning>)

  /** Everything up to `RulesModified = true` ran without an exception. */
  predicate AutoRuleCompletes(bag: Bag)
  {
    && HowOftenKey in bag
    && RainyDaysWeather(bag).Done?
    && bag[HowOftenKey].asDayTable.Some?
    && GetOldData(bag, FolderKey, AsString, None, Some(DefaultString)).Done?
    && GetOldData(bag, ZoomKey, AsZoom, 0.0, DefaultZoom).Done?
    && GetOldData(bag, StartTimeKey, AsInt, 0, DefaultStartTime).Done?
  }

  /** The automatic rule once lines 171-206 have run on it, the warnings of its days loop,
      and whether one of its conversions threw. */
  datatype AutoOutcome = AutoOutcome(rule: RuleValue, warnings: seq<Warning>, threw: bool)

  /** Lines 171-186 on the automatic rule: its naming, location and end time are forced,
      its weather follows the rainy-days flag, and its days start again from AnySeason.
      A failing `(bool)` cast leaves only the forced fields. */
  function WeatherStage(base: RuleValue, bag: Bag): AutoOutcome
  {
    var forced := ForceAutoFields(base);
    match RainyDaysWeather(bag)
    case Threw => AutoOutcome(forced, [], true)
    case Done(weather) => AutoOutcome(forced.(trigger := forced.trigger.(weather := weather, days := AnySeason)), [], false)
  }

  /** Lines 201-206 on the automatic rule: its directory, zoom and start time, each read
      from the bag; a conversion that throws leaves the ones before it. */
  function DetailsStage(r: RuleValue, bag: Bag, warnings: seq<Warning>): AutoOutcome
  {
    match GetOldData(bag, FolderKey, AsString, None, Some(DefaultString))
    case Threw => AutoOutcome(r, warnings, true)
    case Done(directory) =>
      var r1 := r.(directory := directory);
      match GetOldData(bag, ZoomKey, AsZoom, 0.0, DefaultZoom)
      case Threw => AutoOutcome(r1, warnings, true)
      case Done(zoom) =>
        var r2 := r1.(zoomLevel := zoom);
        match GetOldData(bag, StartTimeKey, AsInt, 0, DefaultStartTime)
        case Threw => AutoOutcome(r2, warnings, true)
        case Done(start) => AutoOutcome(r2.(trigger := r2.trigger.(startTime := start)), warnings, false)
  }

  /** The edits to the automatic rule, stage by stage; a step that throws leaves the edits
      made before it. */
  function FixAutoRule(base: RuleValue, bag: Bag): (o: AutoOutcome)
    requires HowOftenKey in bag
    ensures o.threw <==> !AutoRuleCompletes(bag)
  {
    var w := WeatherStage(base, bag);
    if w.threw then w
    else
      match bag[HowOftenKey].asDayTable
      case None => AutoOutcome(w.rule, [], true)
      case Some(entries) =>
        var withDays := w.rule.(trigger := w.rule.trigger.(days := w.rule.trigger.days + LegacyDays(entries)));
        DetailsStage(withDays, bag, UnknownKeyWarnings(entries))
  }

  /** The migration of a present legacy bag, including the partial states an exception
      leaves: the edits made so far stay, and the exception is logged last. */
  function Migrate(rules: seq<RuleValue>, modified: bool, bag: Bag, guid: string): Migration
  {
    if HowOftenKey !in bag then Migration(rules, modified, [])
    else
      var fixed := FixAutoRule(AutoBase(rules, guid), bag);
      var placed := PlaceAuto(rules, guid, fixed.rule);
      if fixed.threw then Migration(placed, modified, fixed.warnings + [UnreadableOldConfig])
      else KeyRuleStage(placed, bag, fixed.warnings)
  }

  /** The part after `RulesModified = true`: the optional key-press rule. */
  function KeyRuleStage(migrated: seq<RuleValue>, bag: Bag, warnings: seq<Warning>): Migration
  {
    match GetOldData(bag, ButtonKey, AsButton, NoButton, NoButton)
    case Threw => Migration(migrated, true, warnings + [UnreadableOldConfig])
    case Done(button) =>
      if button == NoButton then Migration(migrated, true, warnings)
      else
        match GetOldData(bag, KeyZoomKey, AsZoom, 0.0, DefaultZoom)
        case Threw => Migration(migrated, true, warnings + [UnreadableOldConfig])
        case Done(zoom) =>
          match GetOldData(bag, KeyFolderKey, AsString, None, Some(DefaultString))
          case Threw => Migration(migrated, true, warnings + [UnreadableOldConfig])
          case Done(directory) => Migration(migrated + [KeyRule(button, zoom, directory)], true, warnings)
  }

  /** The key-press stage adds its rule and warnings after whatever came before it. */
  lemma KeyRuleStageAfter(migrated: seq<RuleValue>, bag: Bag, warnings: seq<Warning>)
    ensures var k := KeyRuleStage(migrated, bag, []);
      KeyRuleStage(migrated, bag, warnings) == Migration(k.rules, true, warnings + k.warnings)
  {
  }

  /** The migration in the stages OnDeserializedFixup runs them in: the automatic rule,
      then, unless that threw, the key-press rule. */
  lemma MigrateStages(rules: seq<RuleValue>, modified: bool, bag: Bag, guid: string)
    requires HowOftenKey in bag
    ensures var o := FixAutoRule(AutoBase(rules, guid), bag);
      var placed := PlaceAuto(rules, guid, o.rule);
      var k := KeyRuleStage(placed, bag, []);
      Migrate(rules, modified, bag, guid)
        == if o.threw then Migration(placed, modified, o.warnings + [UnreadableOldConfig])
           else Migration(k.rules, true, o.warnings + k.warnings)
  {
    var o := FixAutoRule(AutoBase(rules, guid), bag);
    KeyRuleStageAfter(PlaceAuto(rules, guid, o.rule), bag, o.warnings);
  }

  // ---------------------------------------------------------------------------
  // What the migration promises.

  /** The key-press stage ran without an exception. */
  predicate KeyStageCompletes(bag: Bag)
  {
    match GetOldData(bag, ButtonKey, AsButton, NoButton, NoButton)
    case Threw => false
    case Done(button) =>
      button == NoButton
      || (&& GetOldData(bag, KeyZoomKey, AsZoom, 0.0, DefaultZoom).Done?
          && GetOldData(bag, KeyFolderKey, AsString, None, Some(DefaultString)).Done?)
  }

  /** The rule migration starts from: the placeholder, or a fresh rule. */
  function AutoBase(rules: seq<RuleValue>, guid: string): RuleValue
  {
    if ReusesPlaceholder(rules, guid) then rules[0] else NewRule
  }

  /** The automatic rule is the placeholder or a new last rule, the rules before it are
      kept, and at most one more rule follows it. */
  lemma MigratedRuleList(rules: seq<RuleValue>, modified: bool, bag: Bag, guid: string)
    requires HowOftenKey in bag
    ensures AutoIndex(rules, guid) < |Migrate(rules, modified, bag, guid).rules| <= AutoIndex(rules, guid) + 2
    ensures !ReusesPlaceholder(rules, guid) ==> Migrate(rules, modified, bag, guid).rules[..|rules|] == rules
  {
  }

  /** The key-press stage keeps the list it is given and adds at most one rule. */
  lemma KeyRuleStageKeeps(migrated: seq<RuleValue>, bag: Bag, warnings: seq<Warning>)
    ensures migrated <= KeyRuleStage(migrated, bag, warnings).rules
    ensures |KeyRuleStage(migrated, bag, warnings).rules| <= |migrated| + 1
  {
  }

  /** The edits never touch the fields forced first, nor the name, the enabled flag and
      the key. */
  lemma FixAutoRuleKeeps(base: RuleValue, bag: Bag)
    requires HowOftenKey in bag
    ensures var r := FixAutoRule(base, bag).rule;
            && r.fileName == FileNameDefault && r.trigger.location == {Farm} && r.trigger.endTime == DefaultEndTime
            && r.name == base.name && r.enabled == base.enabled && r.trigger.key == base.trigger.key
  {
  }

  /** After the migration the automatic rule sits at AutoIndex, edited as far as the edits got. */
  lemma MigratedAutoIs(rules: seq<RuleValue>, modified: bool, bag: Bag, guid: string)
    requires HowOftenKey in bag
    ensures AutoIndex(rules, guid) < |Migrate(rules, modified, bag, guid).rules|
    ensures Migrate(rules, modified, bag, guid).rules[AutoIndex(rules, guid)] == FixAutoRule(AutoBase(rules, guid), bag).rule
  {
    MigrateStages(rules, modified, bag, guid);
    var o := FixAutoRule(AutoBase(rules, guid), bag);
    var placed := PlaceAuto(rules, guid, o.rule);
    KeyRuleStageKeeps(placed, bag, []);
    assert placed[AutoIndex(rules, guid)] == o.rule;
  }

  /** The automatic rule keeps the identity of the rule it starts from, and its naming,
      location and end time are forced even when a later step throws. */
  lemma MigratedAutoRule(rules: seq<RuleValue>, modified: bool, bag: Bag, guid: string)
    requires HowOftenKey in bag
    ensures AutoIndex(rules, guid) < |Migrate(rules, modified, bag, guid).rules|
    ensures var auto := Migrate(rules, modified, bag, guid).rules[AutoIndex(rules, guid)];
            && auto.fileName == FileNameDefault
            && auto.trigger.location == {Farm}
            && auto.trigger.endTime == DefaultEndTime
            && auto.name == AutoBase(rules, guid).name
            && auto.enabled == AutoBase(rules, guid).enabled
            && auto.trigger.key == AutoBase(rules, guid).trigger.key
  {
    MigratedAutoIs(rules, modified, bag, guid);
    FixAutoRuleKeeps(AutoBase(rules, guid), bag);
  }

  /** Once the `(bool)` cast has not thrown, the automatic rule's weather is Snowy, Sunny
      and Windy exactly when rainy days were switched off, and Any otherwise. */
  lemma MigratedWeather(rules: seq<RuleValue>, modified: bool, bag: Bag, guid: string)
    requires HowOftenKey in bag && !(RainyDaysKey in bag && bag[RainyDaysKey].asBool.None?)
    ensures var weather := Migrate(rules, modified, bag, guid).rules[AutoIndex(rules, guid)].trigger.weather;
            && (weather == {Snowy, Sunny, Windy} <==> RainyDaysKey in bag && bag[RainyDaysKey].asBool == Some(false))
            && (weather == WeatherAny <==> !(RainyDaysKey in bag && bag[RainyDaysKey].asBool == Some(false)))
  {
    RainyDaysWeatherIff(bag);
  }

  /** The automatic rule's days start again from AnySeason; when the day table converts,
      they are AnySeason plus the flags of its truthy, parseable entries, and the unknown
      keys are the first warnings logged. */
  lemma MigratedDays(rules: seq<RuleValue>, modified: bool, bag: Bag, guid: string)
    requires HowOftenKey in bag && RainyDaysWeather(bag).Done?
    ensures var m := Migrate(rules, modified, bag, guid);
            var days := m.rules[AutoIndex(rules, guid)].trigger.days;
            match bag[HowOftenKey].asDayTable
            case None => days == AnySeason && m.warnings == [UnreadableOldConfig]
            case Some(entries) =>
              && days == AnySeason + LegacyDays(entries)
              && UnknownKeyWarnings(entries) <= m.warnings
  {
  }

  /** RulesModified is set exactly when every step up to it ran. */
  lemma MigratedModified(rules: seq<RuleValue>, modified: bool, bag: Bag, guid: string)
    ensures Migrate(rules, modified, bag, guid).modified == (modified || AutoRuleCompletes(bag))
  {
  }

  /** A second rule is appended exactly when the migration ran to the end with a key
      binding other than SButton.None; it fires on that key anywhere and names no file. */
  lemma MigratedKeyRule(rules: seq<RuleValue>, modified: bool, bag: Bag, guid: string)
    requires HowOftenKey in bag
    ensures var m := Migrate(rules, modified, bag, guid);
            |m.rules| == AutoIndex(rules, guid) + 2 <==>
              && AutoRuleCompletes(bag) && KeyStageCompletes(bag)
              && ButtonKey in bag && bag[ButtonKey].asButton != Some(NoButton)
    ensures var m := Migrate(rules, modified, bag, guid);
            |m.rules| == AutoIndex(rules, guid) + 2 ==>
              var keyRule := m.rules[AutoIndex(rules, guid) + 1];
              && Some(keyRule.trigger.key) == bag[ButtonKey].asButton
              && keyRule.trigger.location == LocationAny
              && keyRule.fileName == FileNameNone
              && keyRule.zoomLevel == GetOldData(bag, KeyZoomKey, AsZoom, 0.0, DefaultZoom).value
              && keyRule.directory == GetOldData(bag, KeyFolderKey, AsString, None, Some(DefaultString)).value
  {
  }

  /** The exception warning is logged exactly when some step of a migration threw, and
      then only once, as the last warning. */
  lemma {:induction false} MigratedThrowWarning(rules: seq<RuleValue>, modified: bool, bag: Bag, guid: string)
    ensures var m := Migrate(rules, modified, bag, guid);
            && (UnreadableOldConfig in m.warnings <==>
                  HowOftenKey in bag && !(AutoRuleCompletes(bag) && KeyStageCompletes(bag)))
            && (UnreadableOldConfig in m.warnings ==>
                  && m.warnings[|m.warnings| - 1] == UnreadableOldConfig
                  && UnreadableOldConfig !in m.warnings[..|m.warnings| - 1])
  {
    if HowOftenKey in bag && RainyDaysWeather(bag).Done? && bag[HowOftenKey].asDayTable.Some? {
      var entries := bag[HowOftenKey].asDayTable.value;
      UnknownKeyWarningsIff(entries, UnreadableOldConfig);
    }
  }

  // ---------------------------------------------------------------------------
  // A worked example.

  function BoolToken(b: bool): Token
  {
    Token(Some(b), None, None, None, None, None)
  }

  function DayTableToken(entries: seq<(string, bool)>): Token
  {
    Token(None, Some(entries), None, None, None, None)
  }

  function ButtonToken(b: Button): Token
  {
    Token(None, None, None, None, None, Some(b))
  }

  lemma MondaysLabel()
    ensures KeyToEnumName("Mondays") == "Mondays"
  {
    var s := "Mondays";
    assert !HasOf(s) by {
      forall i | 0 <= i < |s| - 1
        ensures !(s[i] == 'o' && s[i + 1] == 'f')
      {
      }
    }
    ReplaceOfKeepsPlain(s);
    RemoveSpacesKeepsPlain(s);
  }

  lemma ParseMondays(key: string)
    requires key == "Mondays"
    ensures ParseLegacyDay(key) == Some(Weekly(1))
  {
    MondaysLabel();
  }

  lemma ParseLastDay(key: string)
    requires key == "Last Day of Month"
    ensures ParseLegacyDay(key) == Some({Day(28)})
  {
    LastDayLabel(key);
  }

  /** The flags of the example's day table. */
  lemma ExampleDays(entries: seq<(string, bool)>, mondays: string, lastDay: string)
    requires mondays == "Mondays" && lastDay == "Last Day of Month"
    requires entries == [(mondays, true), (lastDay, true), ("Daily", false)]
    ensures LegacyDays(entries) == Weekly(1) + {Day(28)}
    ensures UnknownKeyWarnings(entries) == []
  {
    ParseMondays(mondays);
    ParseLastDay(lastDay);
    var two := entries[..2];
    assert two[..1] == [(mondays, true)] && two[..1][..0] == [];
    assert LegacyDays(two[..1]) == Weekly(1);
    assert LegacyDays(two) == Weekly(1) + {Day(28)};
    assert UnknownKeyWarnings(two[..1]) == [];
    assert UnknownKeyWarnings(two) == [];
  }

  /** A legacy file that takes the daily screenshot on Mondays and on the last day of the
      month, but not on rainy days, turns the placeholder rule into the automatic rule:
      Snowy, Sunny or Windy weather, those days in any season, on the farm, until 2 am.
      The directory, zoom and start time it does not give come out as null, 0 and 0. */
  lemma MigrationExample(guid: string, lastDay: string, entries: seq<(string, bool)>, bag: Bag)
    requires lastDay == "Last Day of Month"
    requires entries == [("Mondays", true), (lastDay, true), ("Daily", false)]
    requires bag == map[HowOftenKey := DayTableToken(entries), RainyDaysKey := BoolToken(false)]
    ensures var m := Migrate([NewRule.(name := Some(guid))], false, bag, guid);
            && |m.rules| == 1
            && m.rules[0].trigger.weather == {Snowy, Sunny, Windy}
            && m.rules[0].trigger.days == AnySeason + Weekly(1) + {Day(28)}
            && m.rules[0].trigger.location == {Farm}
            && m.rules[0].trigger.endTime == DefaultEndTime
            && m.rules[0].directory == None && m.rules[0].zoomLevel == 0.0 && m.rules[0].trigger.startTime == 0
            && m.modified && m.warnings == []
  {
    ExampleDays(entries, "Mondays", lastDay);
  }

  /** The same file with a screenshot key also gets a key-press rule that fires anywhere
      and names no file. */
  lemma KeyMigrationExample(guid: string, lastDay: string, entries: seq<(string, bool)>, bag: Bag, button: Button)
    requires lastDay == "Last Day of Month" && button != NoButton
    requires entries == [("Mondays", true), (lastDay, true), ("Daily", false)]
    requires bag == map[HowOftenKey := DayTableToken(entries), RainyDaysKey := BoolToken(false),
                        ButtonKey := ButtonToken(button)]
    ensures var m := Migrate([NewRule.(name := Some(guid))], false, bag, guid);
            && |m.rules| == 2
            && m.rules[1].trigger.key == button
            && m.rules[1].trigger.location == LocationAny
            && m.rules[1].fileName == FileNameNone
            && m.modified && m.warnings == []
  {
    ExampleDays(entries, "Mondays", lastDay);
  }
}
