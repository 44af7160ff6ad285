# DailyScreenshot configuration engine

This project models `ModConfig`, the configuration object of the DailyScreenshot mod for
Stardew Valley, and proves what it does. It covers three parts:

- **Constructor and `Reset`.** The constructor adds one placeholder snapshot rule named
  with the launch GUID. `Reset` turns the three effect toggles back on.
- **Legacy migration** (`OnDeserializedFixup`, `GetOldData`).
  - The fields left over from the old configuration format arrive as a bag of JSON tokens.
  - When the bag holds `HowOftenToTakeScreenshot`, its fields are turned into one
    automatic screenshot rule and, when a key was also bound, a key-press rule. A bag
    without `HowOftenToTakeScreenshot` yields no rule, even when it binds a key.
  - The bag is then emptied.
- **Validation** (`ValidateUserInput`).
  - Every rule without a name is numbered "Unnamed Rule N" in list order.
  - The rules' own repairs mark the configuration modified.
  - Two scans warn about rules whose screenshot files may overwrite each other, or
    another save's files.

The model is split into modules:

- `Wrappers`: `Option`.
- `Flags`: the `[Flags]` enums, as sets of their single-bit members.
- `Log`: the warnings, as tags.
- `Rules`: `ModRule` and `ModTrigger`.
  - They are classes holding only the fields `ModConfig` touches.
  - Each has a `Value()` view as a datatype.
- `Legacy`: the migration as pure functions.
  - `GetOldData` and the label rewrite `Replace("of", "OfThe").Replace(" ", "")`.
  - `Migrate`, which includes the partial states an exception leaves behind.
  - The lemmas about the migration.
- `Validation`: the renaming and the overlap scans as pure functions, with their lemmas.
- `ModConfig`: the class `Config`.
  - It holds the toggles, the rule list as a `seq<Rule>`, the legacy bag, the
    `RulesModified` flag and a ghost log of warnings.
  - Its methods change these in place and are proved against the functions of `Legacy`
    and `Validation`.

Exceptions thrown by a conversion are modelled as a `threw` result. The `catch` block
logs `UnreadableOldConfig`, and the edits made before the throw stay.

## Model

| member | source | states |
|---|---|---|
| ModConfig.Config.constructor | DailyScreenshot/ModConfig.cs:123-128 | The rule list holds exactly one rule: a new rule whose name is the launch GUID. Every toggle is on, no legacy data is held, RulesModified is false and nothing is logged. |
| ModConfig.Config.Reset | DailyScreenshot/ModConfig.cs:130-135 | The three effect toggles are on, and nothing else may change. |
| Rules.Rule.constructor | DailyScreenshot/ModConfig.cs:167 | `new ModRule()`: a rule in state `NewRule` (no name, enabled, FileName Default, directory "Default", zoom 0.25) with a fresh trigger in state `NewTrigger`. These initial values are an assumption, since ModRule.cs is not part of this model. |
| Rules.Trigger.constructor | DailyScreenshot/ModConfig.cs:167 | `new ModTrigger()`: a trigger in state `NewTrigger` (no key, Location Any, Weather Any, every day of every season, 600 to 2600). These initial values are an assumption, since ModTrigger.cs is not part of this model. |
| Legacy.GetOldData | DailyScreenshot/ModConfig.cs:137-144 | An absent key gives `default(T)`. A present key gives the converted token, or a throw exactly when the conversion fails. |
| Legacy.GetOldDataIgnoresDefaultValue | DailyScreenshot/ModConfig.cs:137-144 | The result does not depend on the `defaultValue` argument. |
| ModConfig.Config.OnDeserializedFixup | DailyScreenshot/ModConfig.cs:152-230 | With a null bag, nothing changes. Otherwise the rules, RulesModified and the log are those of `Migrate`, the bag ends up empty even after an exception, and existing rules stay in place while new ones are fresh. |
| ModConfig.Config.MigrateLegacyRules | DailyScreenshot/ModConfig.cs:157-224 | The `try` block produces `Migrate`'s rules and flag. Its log is `Migrate`'s warnings minus the final exception warning, which is missing exactly when it reports a throw. |
| ModConfig.Config.MigrateAutoRule | DailyScreenshot/ModConfig.cs:162-206 | The rule list becomes the automatic rule put in place: the placeholder slot or a new last slot, holding the result of the edits. Its throw and its warnings are those of the edits. |
| ModConfig.Config.PlaceAutoRule | DailyScreenshot/ModConfig.cs:162-169 | The placeholder is reused when it is the only rule; otherwise a fresh rule is appended. The returned object is the one at `AutoIndex`. |
| Legacy.ReusesPlaceholder | DailyScreenshot/ModConfig.cs:163 | The list holds exactly one rule, and that rule is named with the launch GUID. |
| Legacy.AutoIndex | DailyScreenshot/ModConfig.cs:163-169 | The automatic rule's slot: 0 when the placeholder is reused, otherwise the old length, where the new rule is appended. |
| Legacy.AutoBase | DailyScreenshot/ModConfig.cs:163-168 | The rule the edits start from: the placeholder when it is reused, otherwise `new ModRule()`. |
| Legacy.PlaceAuto | DailyScreenshot/ModConfig.cs:163-169 | The list with the automatic rule in its slot: the placeholder overwritten, or the rule appended. |
| Legacy.PlaceAutoReplace | DailyScreenshot/ModConfig.cs:162-169 | Overwriting the placed automatic rule is the same as placing the new value. |
| ModConfig.Config.FixUpAutoRule | DailyScreenshot/ModConfig.cs:170-206 | Only the automatic rule's entry of the rule list changes, and it changes to the result of `FixAutoRule`. |
| ModConfig.Config.EditAutoRule | DailyScreenshot/ModConfig.cs:170-206 | The automatic rule becomes `FixAutoRule`'s rule. Its throw and its warnings are `FixAutoRule`'s. |
| Legacy.FixAutoRule | DailyScreenshot/ModConfig.cs:170-206 | The edits throw exactly when a conversion up to line 206 fails. |
| ModConfig.Config.ApplyLegacyWeather | DailyScreenshot/ModConfig.cs:170-186 | The automatic rule becomes `WeatherStage`'s: the forced fields, then the weather and AnySeason days, unless the `(bool)` cast throws. |
| Legacy.ForceAutoFields | DailyScreenshot/ModConfig.cs:171-173 | The automatic rule gets FileName Default, Location Farm and EndTime 2600; no other field changes. |
| Legacy.RainyDaysWeather | DailyScreenshot/ModConfig.cs:174-184 | The weather is Any when `TakeScreenshotOnRainyDays` is absent or true, and Snowy, Sunny and Windy when it is false. A failing `(bool)` cast throws. |
| Legacy.WeatherStage | DailyScreenshot/ModConfig.cs:171-186 | The forced fields, then the weather of `RainyDaysWeather` and the days reset to AnySeason. A throwing cast leaves only the forced fields. |
| Legacy.RainyDaysWeatherIff | DailyScreenshot/ModConfig.cs:174-184 | The weather step throws exactly when the cast fails. Otherwise the weather is Snowy, Sunny and Windy exactly when rainy days are present and false, and Any otherwise. |
| ModConfig.Config.MergeLegacyDays | DailyScreenshot/ModConfig.cs:187-199 | The days gain `LegacyDays(entries)`, and the log gains one unknown-key warning per truthy entry that does not parse, in order. |
| Legacy.LegacyDays | DailyScreenshot/ModConfig.cs:188-199 | The union of the flags of the truthy entries whose rewritten label parses; false entries and unparseable labels add nothing. |
| Legacy.UnknownKeyWarnings | DailyScreenshot/ModConfig.cs:188-199 | One unknown-key warning per truthy entry whose rewritten label does not parse, in table order. |
| Legacy.LegacyDaysStep | DailyScreenshot/ModConfig.cs:188-199 | One more entry adds its parsed flags when it is truthy and parses, and otherwise adds its warning when it is truthy. |
| Legacy.LegacyDaysIff | DailyScreenshot/ModConfig.cs:188-199 | A flag is set exactly when some truthy entry's rewritten name parses to flags containing it. |
| Legacy.UnknownKeyWarningsIff | DailyScreenshot/ModConfig.cs:188-199 | A warning names a key exactly when that key's entry is truthy and its rewritten name does not parse. |
| Legacy.ReplaceOf | DailyScreenshot/ModConfig.cs:193 | `Replace("of", "OfThe")`: every occurrence of "of", found left to right without overlap, becomes "OfThe"; other characters are kept in order. |
| Legacy.RemoveSpaces | DailyScreenshot/ModConfig.cs:193 | `Replace(" ", "")`: every space is removed; other characters are kept in order. |
| Legacy.KeyToEnumName | DailyScreenshot/ModConfig.cs:193 | The rewritten label: the "of" replacement, then the space removal. |
| Flags.TryParseDate | DailyScreenshot/ModConfig.cs:194 | `Enum.TryParse<DateFlags>` as a lookup of a member name in the `DateNames` table; None when the name is not a member. |
| Legacy.ParseLegacyDay | DailyScreenshot/ModConfig.cs:193-194 | The date flags a legacy label stands for: `TryParseDate` of its rewritten name. |
| Legacy.ReplaceOfLeavesNoOf | DailyScreenshot/ModConfig.cs:193 | After `Replace("of", "OfThe")` no "of" is left. |
| Legacy.ReplaceOfStart | DailyScreenshot/ModConfig.cs:193 | The replacement of a non-empty string is non-empty. It starts with 'O' when the input starts with "of", and otherwise with the input's first character. |
| Legacy.ReplaceOfKeepsPlain | DailyScreenshot/ModConfig.cs:193 | A string without "of" is left unchanged. |
| Legacy.NoOfInTail | DailyScreenshot/ModConfig.cs:193 | A string without "of" has none after its first character. |
| Legacy.ReplaceOfAppend | DailyScreenshot/ModConfig.cs:193 | A prefix without "of" that does not end in 'o' passes through the replacement unchanged. |
| Legacy.RemoveSpacesChars | DailyScreenshot/ModConfig.cs:193 | `Replace(" ", "")` keeps exactly the characters that are not spaces. |
| Legacy.RemoveSpacesAppend | DailyScreenshot/ModConfig.cs:193 | Space removal works part by part. |
| Legacy.RemoveSpacesKeepsPlain | DailyScreenshot/ModConfig.cs:193 | A string without spaces is left unchanged. |
| Legacy.DropSpace | DailyScreenshot/ModConfig.cs:193 | A space after a part without spaces is dropped. |
| Legacy.OfMonthLabel | DailyScreenshot/ModConfig.cs:192-193 | A label ending in "of Month" becomes its squeezed front followed by "OfTheMonth". |
| Legacy.ReplacedOfMonth | DailyScreenshot/ModConfig.cs:193 | "of Month" becomes "OfThe Month". |
| Legacy.SqueezedOfTheMonth | DailyScreenshot/ModConfig.cs:193 | "OfThe Month" without spaces is "OfTheMonth". |
| Legacy.LastDayFront | DailyScreenshot/ModConfig.cs:193 | "Last Day " contains no "of" and squeezes to "LastDay". |
| Legacy.LastDayLabel | DailyScreenshot/ModConfig.cs:192-193 | "Last Day of Month" becomes "LastDayOfTheMonth". |
| Legacy.MondaysLabel | DailyScreenshot/ModConfig.cs:193 | "Mondays" is left unchanged by the rewrite. |
| Legacy.ParseMondays | DailyScreenshot/ModConfig.cs:193-194 | The legacy label "Mondays" parses to the four Mondays of a month. |
| Legacy.ParseLastDay | DailyScreenshot/ModConfig.cs:192-194 | The legacy label "Last Day of Month" parses to day 28. |
| Legacy.ExampleDays | DailyScreenshot/ModConfig.cs:188-199 | A day table with Mondays and the last day switched on, and Daily switched off, yields the Mondays plus day 28, with no warning. |
| ModConfig.Config.ApplyLegacyDetails | DailyScreenshot/ModConfig.cs:201-206 | The directory, zoom and start time are read from the bag in that order, and a throwing conversion keeps the ones set before it. |
| Legacy.DetailsStage | DailyScreenshot/ModConfig.cs:201-206 | The directory, zoom and start time are read with `GetOldData` in that order; a throw keeps the fields set before it. |
| Legacy.KeyRule | DailyScreenshot/ModConfig.cs:212-219 | The key-press rule: a new rule with the bound key, Location Any, the given zoom and directory, and FileName None. |
| Legacy.KeyRuleStage | DailyScreenshot/ModConfig.cs:207-221 | RulesModified becomes true. A button other than SButton.None whose zoom and directory convert appends `KeyRule`; a throwing conversion logs the exception warning and adds no rule. |
| ModConfig.Config.AddLegacyKeyRule | DailyScreenshot/ModConfig.cs:207-221 | RulesModified is set. The list becomes `KeyRuleStage`'s, with new rules fresh. It reports a throw exactly when `KeyRuleStage` logs one. |
| Legacy.KeyRuleStageAfter | DailyScreenshot/ModConfig.cs:207-221 | The key-press stage appends its warnings after the earlier ones and always sets RulesModified. |
| Legacy.KeyRuleStageKeeps | DailyScreenshot/ModConfig.cs:207-221 | The key-press stage keeps the list it is given and adds at most one rule. |
| Legacy.Migrate | DailyScreenshot/ModConfig.cs:157-228 | A bag without `HowOftenToTakeScreenshot` changes nothing, even when it binds a key. Otherwise the automatic rule is placed and edited, then, unless that threw, the key-press stage runs; a throw keeps the edits made so far and logs the exception warning last. |
| Legacy.MigrateStages | DailyScreenshot/ModConfig.cs:160-222 | The migration is the automatic-rule stage followed, unless it threw, by the key-press stage. |
| Legacy.MigratedRuleList | DailyScreenshot/ModConfig.cs:162-169 | The automatic rule sits at `AutoIndex`. The earlier rules are kept when no placeholder is reused, and at most one rule follows the automatic rule. |
| Legacy.MigratedAutoIs | DailyScreenshot/ModConfig.cs:162-206 | The migrated list holds at `AutoIndex` the result of the edits on the rule they started from. |
| Legacy.FixAutoRuleKeeps | DailyScreenshot/ModConfig.cs:170-206 | The edits force FileName Default, Location Farm and EndTime 2600, and keep the name, the enabled flag and the key. |
| Legacy.MigratedAutoRule | DailyScreenshot/ModConfig.cs:162-173 | The automatic rule has FileName Default, Location Farm and EndTime 2600 even when a later step throws. It keeps the name, enabled flag and key of the rule it starts from. |
| Legacy.MigratedWeather | DailyScreenshot/ModConfig.cs:174-184 | When the cast does not throw, the automatic rule's weather is Snowy, Sunny and Windy exactly when rainy days are present and false, and Any otherwise. |
| Legacy.MigratedDays | DailyScreenshot/ModConfig.cs:186-199 | The days are AnySeason plus `LegacyDays` of the table, and its unknown-key warnings come first. A table that fails to convert leaves AnySeason and logs only the exception. |
| Legacy.MigratedModified | DailyScreenshot/ModConfig.cs:160-207 | RulesModified becomes true exactly when every step before line 207 ran without an exception, and keeps its old value otherwise. |
| Legacy.MigratedKeyRule | DailyScreenshot/ModConfig.cs:208-221 | A second rule is appended exactly when the migration completes with a key other than SButton.None. That rule fires on the key anywhere, names no file, and takes its zoom and directory from the bag. |
| Legacy.MigratedThrowWarning | DailyScreenshot/ModConfig.cs:157-228 | The exception warning is logged exactly when a step threw, and then once, as the last warning. |
| Legacy.MigrationExample | DailyScreenshot/ModConfig.cs:160-206 | A legacy file with Mondays, the last day and no rainy days turns the placeholder into a farm rule with that weather and those days. The missing directory, zoom and start time come out as null, 0 and 0. |
| Legacy.KeyMigrationExample | DailyScreenshot/ModConfig.cs:207-221 | The same file with a key binding also gets a key-press rule that fires anywhere and names no file. |
| ModConfig.Config.ValidateUserInput | DailyScreenshot/ModConfig.cs:246-287 | The rules become `Renamed` of the old rules. RulesModified is set when a rule was renamed or repaired itself. The log gains the rename warnings, then the overlap-scan warnings over the renamed rules. |
| ModConfig.Config.NameUnnamedRules | DailyScreenshot/ModConfig.cs:248-260 | The renaming loop produces `Renamed` of the old rules, sets RulesModified as above and logs one warning per rename, in list order. |
| ModConfig.Config.NameRule | DailyScreenshot/ModConfig.cs:249-259 | One pass renames rule k exactly when it needs a name, numbering it after the unnamed rules before it. No other rule changes. |
| Validation.NeedsName | DailyScreenshot/ModConfig.cs:251 | The name is null, empty or the launch GUID. |
| Validation.NatToString | DailyScreenshot/ModConfig.cs:254 | The decimal digits of n, most significant first, as string interpolation writes an int; at least one digit. |
| Validation.UnnamedLabel | DailyScreenshot/ModConfig.cs:254 | "Unnamed Rule " followed by the decimal number. |
| Validation.UnnamedCount | DailyScreenshot/ModConfig.cs:248-253 | The number of rules that need a name: the loop's final `cnt`. |
| Validation.RenamedAt | DailyScreenshot/ModConfig.cs:251-254 | Rule i after the loop: named "Unnamed Rule N", N one more than the unnamed rules before it, when it needs a name; unchanged otherwise. |
| Validation.Renamed | DailyScreenshot/ModConfig.cs:249-257 | The list after the renaming loop: `RenamedAt` at every index, in list order. |
| Validation.RenameWarnings | DailyScreenshot/ModConfig.cs:253-255 | One unnamed-rule warning per renamed rule, carrying its new name, in list order. |
| Validation.NatToStringInjective | DailyScreenshot/ModConfig.cs:254 | Different numbers give different decimal strings. |
| Validation.LabelIsName | DailyScreenshot/ModConfig.cs:251-254 | A generated "Unnamed Rule N" name is neither null, empty nor the launch GUID. |
| Validation.RenamedIndex | DailyScreenshot/ModConfig.cs:249-257 | Rule i of the renamed list is rule i renamed after the rules before it. |
| Validation.RenameStep | DailyScreenshot/ModConfig.cs:249-257 | One more rule is counted, named and warned about exactly when it needs a name. |
| Validation.RenamedChangesOnlyMissingNames | DailyScreenshot/ModConfig.cs:249-257 | Renaming changes only names, and it changes a rule exactly when that rule needs a name. |
| Validation.UnnamedCountGrows | DailyScreenshot/ModConfig.cs:251-253 | The unnamed count grows along the list, by one for each rule that needs a name. |
| Validation.RenamedNumbering | DailyScreenshot/ModConfig.cs:251-254 | Renamed rules are numbered in list order, from 1 up to the number of unnamed rules. |
| Validation.RenamedLabelsDistinct | DailyScreenshot/ModConfig.cs:251-254 | No two renamed rules get the same generated name. |
| Validation.RenamedAllNamed | DailyScreenshot/ModConfig.cs:249-257 | After renaming, no rule needs a name. |
| Validation.UnnamedCountZero | DailyScreenshot/ModConfig.cs:248-257 | The count is zero exactly when every rule has a name. |
| Validation.RenameWarningsCount | DailyScreenshot/ModConfig.cs:253-255 | One warning is logged per renamed rule. |
| Validation.RenameIdempotent | DailyScreenshot/ModConfig.cs:248-260 | A second validation renames nothing, counts nothing and logs no rename. |
| Validation.UserNameMayRepeatLabel | DailyScreenshot/ModConfig.cs:251-254 | A user name equal to "Unnamed Rule 1" is not repaired, so two rules share that name. |
| Validation.PlaceholderBecomesFirstUnnamed | DailyScreenshot/ModConfig.cs:123-128 | The constructor's placeholder becomes "Unnamed Rule 1" with one warning. |
| Validation.AnyRepairs | DailyScreenshot/ModConfig.cs:258-259 | Some rule, as the loop leaves it, reports a repair from its own validation. |
| Validation.AnyRepairsAppend | DailyScreenshot/ModConfig.cs:258-259 | Some rule reports a repair after one more rule exactly when an earlier one did or the new one does. |
| Validation.OverlapCandidate | DailyScreenshot/ModConfig.cs:263-265 | Rule i is compared with later rules: it is enabled, its FileName is not None and it lacks UniqueID. |
| Validation.SaveOverlapRisk | DailyScreenshot/ModConfig.cs:278-282 | The rule's FileName is not None and has neither GameID nor UniqueID; whether it is enabled plays no part. |
| Validation.PartnerWarnings | DailyScreenshot/ModConfig.cs:267-276 | The overlap warnings (i, j) for j from i + 1 up to m - 1, in order, where rule j is enabled and the two names can overlap. |
| Validation.RowWarnings | DailyScreenshot/ModConfig.cs:263-285 | Rule i's pass: its partner warnings when it is a candidate, then its save-overlap warning when that risk holds. |
| Validation.ScanWarnings | DailyScreenshot/ModConfig.cs:261-286 | The passes for rules 0 to n - 1, in order. |
| ModConfig.Config.ReportOverlaps | DailyScreenshot/ModConfig.cs:261-286 | The log gains `ScanWarnings` over every rule. |
| ModConfig.Config.ReportRow | DailyScreenshot/ModConfig.cs:263-285 | One pass logs rule i's overlap warnings when it is a candidate, then its save-overlap warning. |
| ModConfig.Config.ReportPartners | DailyScreenshot/ModConfig.cs:267-276 | Rule i is compared with every later enabled rule in order, and each pair that can overlap is logged. |
| Validation.PartnerWarningsIff | DailyScreenshot/ModConfig.cs:267-276 | A pair (i, j) is logged exactly when i < j, rule j is enabled and the pair can overlap. |
| Validation.RowWarningsIff | DailyScreenshot/ModConfig.cs:263-285 | Rule i's pass logs exactly its overlapping later partners when it is a candidate, and its save-overlap warning when that risk holds. |
| Validation.ScanWarningsIff | DailyScreenshot/ModConfig.cs:261-286 | The first n passes log exactly the overlap pairs whose first rule is among them, and the save-overlap warnings of those rules. |
| Validation.OverlapWarningIff | DailyScreenshot/ModConfig.cs:261-277 | A pair i < j is warned about exactly when both rules are enabled, rule i names files without UniqueID, and the names can overlap. |
| Validation.SaveOverlapIff | DailyScreenshot/ModConfig.cs:278-285 | Every rule, enabled or not, that names files with neither GameID nor UniqueID gets a save-overlap warning, and no other rule does. |
| Validation.ScanWarningsKinds | DailyScreenshot/ModConfig.cs:261-286 | The scan logs only overlap and save-overlap warnings. |

## Left out

- JSON (de)serialisation is not modelled: `[JsonExtensionData]`, the `[OnDeserialized]` wiring and the conversions themselves. The legacy bag is a map from key to a token, and a token records what each conversion ModConfig applies yields, or that it throws.
- Logging is not modelled as text. The console writer and the I18n message text become tags appended to a ghost log, and trace and error messages are not modelled.
- ModConfig.Config.constructor: `Guid.NewGuid()` is a parameter, required to have the length and alphabet of `Guid.ToString()` (36 characters, each a lower-case hexadecimal digit or a hyphen; the hyphen positions are not checked); randomness is not modelled.
- `ZoomLevel` is a `real`, and the model only copies it; single-precision float behaviour is not modelled.
- `SortRules` is not modelled. It calls `List.Sort` with ModRule's comparer, which is not part of this model, and .NET's sort is not stable.
- ModRule.cs and ModTrigger.cs are not part of this model.
  - ModRule.ValidateUserInput becomes the predicate `repairs`, and FileNamesCanOverlap becomes the predicate `canOverlap`.
  - The repairs a rule makes to its own fields are not modelled. The rules are taken to change only by renaming.
  - Only the fields ModConfig touches are modelled.
  - The initial state of a new rule or trigger (`NewRule`, `NewTrigger`) is an assumption; it matters only for fields ModConfig does not overwrite.
- The members of the flag enums beyond those ModConfig.cs names are assumptions. These include the composite values Daily, the weekday sets, AnySeason, Any and Default, and the `OffFarm` location bit, which stands for every location other than the farm.
- `Enum.TryParse<DateFlags>` becomes a case-sensitive lookup of single member names. Its acceptance of numeric values and of comma-separated lists, and its trimming of white space other than ' ' (which the rewrite has already removed) around a name, are not modelled.
- The legacy day table is a sequence of entries in enumeration order, and duplicate keys are not excluded. The order of .NET's `Dictionary` enumeration is not modelled.
- Only the conversion failures that the code's `try` block catches are modelled as exceptions. A null token, and other runtime failures, are not.
- Rule matching against the game state (time, weather, location) is not in ModConfig.cs and is not modelled.
- ModConfig.Config.ReportOverlaps reads the rule states once, as the values the renaming loop left. `canOverlap` is a pure function of two rule values, so the scan cannot change them.
- Single source methods are split into several Dafny methods so that each proof stays small: the renaming loop body, the overlap rows and partner loops, and the migration stages. Each of these methods runs the same statements in the same order as the source.

### Behaviour kept as the code has it

- Duplicate user-given names are not repaired: the renaming at ModConfig.cs:251-254 touches only null, empty or GUID names, so a user rule already called "Unnamed Rule 1" keeps that name next to a generated one (Validation.UserNameMayRepeatLabel).
- `GetOldData` ignores `defaultValue` (ModConfig.cs:143): absent legacy fields become null, 0 and 0, not DEFAULT_STRING, DEFAULT_ZOOM and DEFAULT_START_TIME (Legacy.GetOldDataIgnoresDefaultValue, Legacy.MigrationExample).
- The save-overlap warning (ModConfig.cs:278-285) does not test `Enabled`, so disabled rules get it too (Validation.SaveOverlapIff).
- ModConfig.cs never sets RulesModified back to false; only the constructor's initial value is false.
