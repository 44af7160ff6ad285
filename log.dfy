/// The warnings ModConfig writes through the mod's logger, as tags. The message text
/// (I18n) is not modelled; each tag keeps what identifies the warning.
module Log {

  datatype Warning =
    | UnknownDateKey(key: string)           // a truthy legacy day entry whose name does not parse
    | UnreadableOldConfig                   // an exception caught during legacy migration
    | UnnamedRule(name: string)             // a rule was given the generated name `name`
    | RuleOverlap(first: nat, second: nat)  // the file names of rules `first` and `second` can overlap
    | SaveOverlap(rule: nat)                // rule `rule` names its files without a save identifier
}
