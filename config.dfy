/// The ModConfig object: the mod's settings, its list of snapshot rules, the legacy
/// fields left over from deserialisation and the flag that asks for the file to be saved.
module ModConfig {
  import opened Wrappers
  import opened Flags
  import opened Log
  import opened Rules
  import opened Legacy
  import opened Validation

  class Config {
    /** The GUID of this launch, which marks the placeholder rule the constructor adds. */
    const launchGuid: string

    var auditoryEffects: bool
    var visualEffects: bool
    var screenshotNotifications: bool
    var weatherAny: bool
    var weatherSunny: bool
    var weatherRainy: bool
    var weatherWindy: bool
    var weatherStormy: bool
    var weatherSnowy: bool

    var snapshotRules: seq<Rule>
    /** The JSON fields no property matched; None stands for null. */
    var additionalData: Option<Bag>
    var rulesModified: bool
    /** The warnings sent to the console, oldest first. */
    ghost var log: seq<Warning>

    ghost function Repr(): set<object>
      reads this`snapshotRules
    {
      Objects(snapshotRules)
    }

    ghost predicate Valid()
      reads this`snapshotRules
    {
      IsGuid(launchGuid) && Distinct(snapshotRules)
    }

    /** The states of the snapshot rules, in list order. */
    function Rules(): seq<RuleValue>
      reads this`snapshotRules, Repr()
    {
      Values(snapshotRules)
    }

    /** A new configuration: every toggle on, no legacy data, and one placeholder rule
        named with the launch GUID (`guid` stands for Guid.NewGuid().ToString()). */
    constructor (guid: string)
      requires IsGuid(guid)
      ensures Valid() && fresh(Repr())
      ensures launchGuid == guid
      ensures Rules() == [NewRule.(name := Some(guid))]
      ensures auditoryEffects && visualEffects && screenshotNotifications
      ensures weatherAny && weatherSunny && weatherRainy && weatherWindy && weatherStormy && weatherSnowy
      ensures additionalData.None? && !rulesModified && log == []
    {
      launchGuid := guid;
      auditoryEffects, visualEffects, screenshotNotifications := true, true, true;
      weatherAny, weatherSunny, weatherRainy, weatherWindy, weatherStormy, weatherSnowy := true, true, true, true, true, true;
      additionalData := None;
      rulesModified := false;
      log := [];
      new;
      var placeholder := new Rule();
      snapshotRules := [placeholder];
      snapshotRules[0].name := Some(launchGuid);
    }

    /** Turns the three effect toggles back on; nothing else changes. */
    method Reset()
      modifies this`auditoryEffects, this`visualEffects, this`screenshotNotifications
      ensures auditoryEffects && visualEffects && screenshotNotifications
    {
      auditoryEffects := true;
      visualEffects := true;
      screenshotNotifications := true;
    }

    /** Repairs what the user wrote: every rule without a name is numbered, each rule
        repairs itself, and rules whose screenshots may overwrite each other, or another
        save's, are warned about. `repairs` stands for ModRule.ValidateUserInput and
        `canOverlap` for ModRule.FileNamesCanOverlap. */
    method ValidateUserInput(repairs: RuleValue -> bool, canOverlap: (RuleValue, RuleValue) -> bool)
      requires Valid()
      modifies this`rulesModified, this`log, Repr()
      ensures Valid()
      ensures Rules() == Renamed(old(Rules()), launchGuid)
      ensures rulesModified == (|| old(rulesModified)
                                || UnnamedCount(old(Rules()), launchGuid) > 0
                                || AnyRepairs(Rules(), repairs))
      ensures log == old(log) + RenameWarnings(old(Rules()), launchGuid) + ScanWarnings(Rules(), canOverlap, |Rules()|)
    {
      NameUnnamedRules(repairs);
      assert this !in Repr();
      ReportOverlaps(Rules(), canOverlap);
    }

    /** The first loop of ValidateUserInput (lines 248-260): it changes only names. */
    method NameUnnamedRules(repairs: RuleValue -> bool)
      requires Valid()
      modifies this`rulesModified, this`log, snapshotRules`name
      ensures Valid()
      ensures Rules() == Renamed(old(Rules()), launchGuid)
      ensures rulesModified == (|| old(rulesModified)
                                || UnnamedCount(old(Rules()), launchGuid) > 0
                                || AnyRepairs(Rules(), repairs))
      ensures log == old(log) + RenameWarnings(old(Rules()), launchGuid)
    {
      ghost var rules0 := Rules();
      ghost var done: seq<RuleValue> := [];
      var cnt := 0;
      var k := 0;
      while k < |snapshotRules|
        invariant k <= |snapshotRules| == |rules0|
        invariant done == Renamed(rules0[..k], launchGuid)
        invariant cnt == UnnamedCount(rules0[..k], launchGuid)
        invariant forall i :: 0 <= i < |rules0| ==> snapshotRules[i].Value() == if i < k then done[i] else rules0[i]
        invariant rulesModified == (old(rulesModified) || cnt > 0 || AnyRepairs(done, repairs))
        invariant log == old(log) + RenameWarnings(rules0[..k], launchGuid)
      {
        ghost var named;
        cnt, named := NameRule(snapshotRules[k], k, cnt, repairs, rules0, done, old(log), old(rulesModified));
        done := done + [named];
        k := k + 1;
      }
      assert rules0[..k] == rules0;
    }

    /** One pass of the renaming loop (lines 249-259) over rule k: `cnt` rules before it
        were unnamed, `done` are the rules before it after renaming. */
    method NameRule(rule: Rule, k: nat, cnt: nat, repairs: RuleValue -> bool, ghost rules0: seq<RuleValue>,
                    ghost done: seq<RuleValue>, ghost logged: seq<Warning>, ghost modified: bool)
      returns (next: nat, ghost named: RuleValue)
      requires k < |snapshotRules| == |rules0| && rule == snapshotRules[k]
      requires rule.Value() == rules0[k] && Distinct(snapshotRules)
      requires done == Renamed(rules0[..k], launchGuid)
      requires cnt == UnnamedCount(rules0[..k], launchGuid)
      requires log == logged + RenameWarnings(rules0[..k], launchGuid)
      requires rulesModified == (modified || cnt > 0 || AnyRepairs(done, repairs))
      modifies rule`name, this`log, this`rulesModified
      ensures named == rule.Value() && done + [named] == Renamed(rules0[..k + 1], launchGuid)
      ensures forall i :: 0 <= i < |snapshotRules| && i != k ==> snapshotRules[i].Value() == old(snapshotRules[i].Value())
      ensures next == UnnamedCount(rules0[..k + 1], launchGuid)
      ensures log == logged + RenameWarnings(rules0[..k + 1], launchGuid)
      ensures rulesModified == (modified || next > 0 || AnyRepairs(done + [rule.Value()], repairs))
    {
      RenameStep(rules0, launchGuid, k);
      next := cnt;
      if rule.name.None? || rule.name.value == "" || rule.name.value == launchGuid {
        next := cnt + 1;
        rule.name := Some(UnnamedLabel(next));
        log := log + [UnnamedRule(rule.name.value)];
        rulesModified := true;
      }
      AnyRepairsAppend(done, rule.Value(), repairs);
      if repairs(rule.Value()) {
        rulesModified := true;
      }
      named := rule.Value();
    }

    /** The second loop of ValidateUserInput (lines 261-286) over the states `rules` of the
        snapshot rules: it only logs, so the states do not change while it runs. */
    method ReportOverlaps(rules: seq<RuleValue>, canOverlap: (RuleValue, RuleValue) -> bool)
      modifies this`log
      ensures log == old(log) + ScanWarnings(rules, canOverlap, |rules|)
    {
      var i := 0;
      while i < |rules|
        invariant i <= |rules|
        invariant log == old(log) + ScanWarnings(rules, canOverlap, i)
      {
        ReportRow(rules, i, canOverlap);
        i := i + 1;
      }
    }

    /** One pass of the loop of lines 261-286: the overlap warnings of rule i, then its
        save-overlap warning. */
    method ReportRow(rules: seq<RuleValue>, i: nat, canOverlap: (RuleValue, RuleValue) -> bool)
      requires i < |rules|
      modifies this`log
      ensures log == old(log) + RowWarnings(rules, canOverlap, i)
    {
      var rule := rules[i];
      if rule.enabled && rule.fileName != FileNameNone && UniqueID !in rule.fileName {
        ReportPartners(rules, i, canOverlap);
      }
      if rule.fileName != FileNameNone && GameID !in rule.fileName && UniqueID !in rule.fileName {
        log := log + [SaveOverlap(i)];
      }
    }

    /** The inner loop of lines 267-276: rule i is compared with every later enabled rule. */
    method ReportPartners(rules: seq<RuleValue>, i: nat, canOverlap: (RuleValue, RuleValue) -> bool)
      requires i < |rules|
      modifies this`log
      ensures log == old(log) + PartnerWarnings(rules, canOverlap, i, |rules|)
    {
      var j := i + 1;
      while j < |rules|
        invariant i + 1 <= j <= |rules|
        invariant log == old(log) + PartnerWarnings(rules, canOverlap, i, j)
      {
        if rules[j].enabled {
          if canOverlap(rules[i], rules[j]) {
            log := log + [RuleOverlap(i, j)];
          }
        }
        j := j + 1;
      }
    }

    /** Migrates the legacy configuration format into rules once the JSON is read. An
        exception from a conversion ends the migration where it happened, keeps what was
        done, and is logged; the legacy fields are then dropped. */
    method OnDeserializedFixup()
      requires Valid()
      modifies this`snapshotRules, this`additionalData, this`rulesModified, this`log, Repr()
      ensures Valid()
      ensures old(snapshotRules) <= snapshotRules
      ensures forall i :: |old(snapshotRules)| <= i < |snapshotRules| ==> fresh(snapshotRules[i]) && fresh(snapshotRules[i].trigger)
      ensures old(additionalData).None? ==>
        && additionalData.None? && Rules() == old(Rules()) && rulesModified == old(rulesModified) && log == old(log)
      ensures old(additionalData).Some? ==>
        var m := Migrate(old(Rules()), old(rulesModified), old(additionalData).value, launchGuid);
        && additionalData == Some(map[])
        && Rules() == m.rules && rulesModified == m.modified && log == old(log) + m.warnings
    {
      if additionalData.None? {
        return;
      }
      var threw := MigrateLegacyRules(additionalData.value);
      if threw {
        log := log + [UnreadableOldConfig];
      }
      additionalData := Some(map[]);
    }

    /** The `try` block of OnDeserializedFixup (lines 160-222). Returns whether a conversion
        threw; everything but the exception's own warning is already logged. */
    method MigrateLegacyRules(bag: Bag) returns (threw: bool)
      requires Valid()
      modifies this`snapshotRules, this`rulesModified, this`log, Repr()
      ensures Valid()
      ensures old(snapshotRules) <= snapshotRules
      ensures forall i :: |old(snapshotRules)| <= i < |snapshotRules| ==> fresh(snapshotRules[i]) && fresh(snapshotRules[i].trigger)
      ensures var m := Migrate(old(Rules()), old(rulesModified), bag, launchGuid);
        && Rules() == m.rules && rulesModified == m.modified
        && old(log) + m.warnings == log + (if threw then [UnreadableOldConfig] else [])
    {
      if HowOftenKey !in bag {
        return false;
      }
      MigrateStages(Rules(), rulesModified, bag, launchGuid);
      threw := MigrateAutoRule(bag);
      if threw {
        return;
      }
      threw := AddLegacyKeyRule(bag);
    }

    /** Lines 162-206: the automatic rule is placed and edited. Returns whether a conversion
        threw, which ends the edits. */
    method MigrateAutoRule(bag: Bag) returns (threw: bool)
      requires Valid() && HowOftenKey in bag
      modifies this`snapshotRules, this`log, Repr()
      ensures Valid()
      ensures old(snapshotRules) <= snapshotRules
      ensures forall i :: |old(snapshotRules)| <= i < |snapshotRules| ==> fresh(snapshotRules[i]) && fresh(snapshotRules[i].trigger)
      ensures var o := FixAutoRule(AutoBase(old(Rules()), launchGuid), bag);
        && Rules() == PlaceAuto(old(Rules()), launchGuid, o.rule)
        && threw == o.threw && log == old(log) + o.warnings
    {
      var autoRule := PlaceAutoRule();
      threw := FixUpAutoRule(autoRule, AutoIndex(old(Rules()), launchGuid), bag);
      PlaceAutoReplace(old(Rules()), launchGuid, AutoBase(old(Rules()), launchGuid), autoRule.Value());
    }

    /** Lines 162-169: the automatic rule is the placeholder when the list holds only it,
        and otherwise a new rule appended to the list. */
    method PlaceAutoRule() returns (autoRule: Rule)
      requires Valid()
      modifies this`snapshotRules
      ensures Valid()
      ensures old(snapshotRules) <= snapshotRules
      ensures forall i :: |old(snapshotRules)| <= i < |snapshotRules| ==> fresh(snapshotRules[i]) && fresh(snapshotRules[i].trigger)
      ensures Rules() == PlaceAuto(old(Rules()), launchGuid, AutoBase(old(Rules()), launchGuid))
      ensures AutoIndex(old(Rules()), launchGuid) < |snapshotRules|
      ensures autoRule == snapshotRules[AutoIndex(old(Rules()), launchGuid)]
    {
      if |snapshotRules| == 1 && snapshotRules[0].name == Some(launchGuid) {
        autoRule := snapshotRules[0];
      } else {
        autoRule := new Rule();
        snapshotRules := snapshotRules + [autoRule];
      }
    }

    /** Lines 207-221: the rules are marked modified, then a key binding other than
        SButton.None becomes a new last rule that fires on that key anywhere and names no
        file. A conversion that throws leaves the list as it was. */
    method AddLegacyKeyRule(bag: Bag) returns (threw: bool)
      requires Valid()
      modifies this`snapshotRules, this`rulesModified
      ensures Valid() && rulesModified
      ensures old(snapshotRules) <= snapshotRules
      ensures forall i :: |old(snapshotRules)| <= i < |snapshotRules| ==> fresh(snapshotRules[i]) && fresh(snapshotRules[i].trigger)
      ensures var k := KeyRuleStage(old(Rules()), bag, []);
        Rules() == k.rules && k.warnings == (if threw then [UnreadableOldConfig] else [])
    {
      rulesModified := true;
      var button := GetOldData(bag, ButtonKey, AsButton, NoButton, NoButton);
      if button.Threw? {
        return true;
      }
      if button.value == NoButton {
        return false;
      }
      var keyRule := new Rule();
      keyRule.trigger.key := button.value;
      keyRule.trigger.location := LocationAny;
      var keyZoom := GetOldData(bag, KeyZoomKey, AsZoom, 0.0, DefaultZoom);
      if keyZoom.Threw? {
        return true;
      }
      keyRule.zoomLevel := keyZoom.value;
      var keyDirectory := GetOldData(bag, KeyFolderKey, AsString, None, Some(DefaultString));
      if keyDirectory.Threw? {
        return true;
      }
      keyRule.directory := keyDirectory.value;
      keyRule.fileName := FileNameNone;
      snapshotRules := snapshotRules + [keyRule];
      return false;
    }

    /** The edits of EditAutoRule seen on the rule list, where the automatic rule is rule
        k: only that entry changes. */
    method FixUpAutoRule(autoRule: Rule, ghost k: nat, bag: Bag) returns (threw: bool)
      requires Valid() && HowOftenKey in bag
      requires k < |snapshotRules| && autoRule == snapshotRules[k]
      modifies autoRule, autoRule.trigger, this`log
      ensures var o := FixAutoRule(old(autoRule.Value()), bag);
        Rules() == old(Rules())[k := o.rule] && threw == o.threw && log == old(log) + o.warnings
    {
      threw := EditAutoRule(autoRule, bag);
      forall i | 0 <= i < |snapshotRules| && i != k
        ensures snapshotRules[i].Value() == old(snapshotRules[i].Value())
      {
        assert snapshotRules[i] != autoRule && snapshotRules[i].trigger != autoRule.trigger;
      }
      assert Rules() == old(Rules())[k := autoRule.Value()];
    }

    /** The edits OnDeserializedFixup makes to the automatic rule (lines 170-206): its naming,
        location and end time, its weather, its days from the legacy day table, its
        directory, zoom and start time. Returns whether a conversion threw, which ends the
        edits. */
    method EditAutoRule(autoRule: Rule, bag: Bag) returns (threw: bool)
      requires HowOftenKey in bag
      modifies autoRule, autoRule.trigger, this`log
      ensures var o := FixAutoRule(old(autoRule.Value()), bag);
        autoRule.Value() == o.rule && threw == o.threw && log == old(log) + o.warnings
    {
      threw := ApplyLegacyWeather(autoRule, bag);
      if threw {
        return;
      }
      var table: Option<seq<(string, bool)>> := bag[HowOftenKey].asDayTable;
      if table.None? {
        return true;
      }
      MergeLegacyDays(autoRule.trigger, table.value);
      threw := ApplyLegacyDetails(autoRule, bag);
    }

    /** Lines 171-186: the forced fields, the weather and the cleared days. */
    method ApplyLegacyWeather(autoRule: Rule, bag: Bag) returns (threw: bool)
      modifies autoRule`fileName, autoRule.trigger`location, autoRule.trigger`endTime,
               autoRule.trigger`weather, autoRule.trigger`days
      ensures var o := WeatherStage(old(autoRule.Value()), bag);
        autoRule.Value() == o.rule && threw == o.threw
    {
      var autoTrigger: Trigger := autoRule.trigger;
      autoRule.fileName := FileNameDefault;
      autoTrigger.location := {Farm};
      autoTrigger.endTime := DefaultEndTime;
      if RainyDaysKey in bag {
        var rainy := bag[RainyDaysKey].asBool;
        if rainy.None? {
          return true;
        }
        if !rainy.value {
          autoTrigger.weather := {Snowy, Sunny, Windy};
        } else {
          autoTrigger.weather := WeatherAny;
        }
      } else {
        autoTrigger.weather := WeatherAny;
      }
      autoTrigger.days := AnySeason;
      return false;
    }

    /** Lines 201-206: the directory, zoom and start time read from the bag. */
    method ApplyLegacyDetails(autoRule: Rule, bag: Bag) returns (threw: bool)
      modifies autoRule`directory, autoRule`zoomLevel, autoRule.trigger`startTime
      ensures var o := DetailsStage(old(autoRule.Value()), bag, []);
        autoRule.Value() == o.rule && threw == o.threw
    {
      var directory := GetOldData(bag, FolderKey, AsString, None, Some(DefaultString));
      if directory.Threw? {
        return true;
      }
      autoRule.directory := directory.value;
      var zoom := GetOldData(bag, ZoomKey, AsZoom, 0.0, DefaultZoom);
      if zoom.Threw? {
        return true;
      }
      autoRule.zoomLevel := zoom.value;
      var start := GetOldData(bag, StartTimeKey, AsInt, 0, DefaultStartTime);
      if start.Threw? {
        return true;
      }
      autoRule.trigger.startTime := start.value;
      return false;
    }

    /** The days loop of OnDeserializedFixup: every truthy entry whose rewritten key names
        date flags adds them to the trigger's days; a truthy entry whose key names none is
        warned about. */
    method MergeLegacyDays(autoTrigger: Trigger, entries: seq<(string, bool)>)
      modifies autoTrigger`days, this`log
      ensures autoTrigger.days == old(autoTrigger.days) + LegacyDays(entries)
      ensures log == old(log) + UnknownKeyWarnings(entries)
    {
      var k := 0;
      while k < |entries|
        invariant k <= |entries|
        invariant autoTrigger.days == old(autoTrigger.days) + LegacyDays(entries[..k])
        invariant log == old(log) + UnknownKeyWarnings(entries[..k])
      {
        var (key, on) := entries[k];
        LegacyDaysStep(entries, k);
        if on {
          var date := ParseLegacyDay(key);
          if date.Some? {
            autoTrigger.days := autoTrigger.days + date.value;
          } else {
            log := log + [UnknownDateKey(key)];
          }
        }
        k := k + 1;
      }
      assert entries[..k] == entries;
    }
  }
}
