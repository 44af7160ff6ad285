/// ModRule and ModTrigger, reduced to the fields ModConfig.cs reads and writes. Both are
/// objects that ModConfig updates in place, so they are classes; `Value()` gives the
/// state of one as a datatype value, which the specifications work with.
///
/// ModRule.cs and ModTrigger.cs are not part of this model: the values a fresh rule and
/// a fresh trigger start with (NewRule, NewTrigger) are stated once here and matter only
/// for the fields ModConfig.cs does not overwrite.
module Rules {
  import opened Wrappers
  import opened Flags

  /** A .NET string reference: None stands for null. */
  type Str = Option<string>

  /** An SButton value. */
  type Button = int

  /** SButton.None, which is also default(SButton). */
  const NoButton: Button := 0

  /** ModConfig.DEFAULT_STRING: a directory that means "the default directory". */
  const DefaultString: string := "Default"

  /** ModConfig.DEFAULT_ZOOM: a quarter of the map's size. */
  const DefaultZoom: real := 0.25

  /** ModConfig.DEFAULT_START_TIME: 6 am. */
  const DefaultStartTime: int := 600

  /** ModConfig.DEFAULT_END_TIME: 2 am of the next day, on the extended-hour scale. */
  const DefaultEndTime: int := 2600

  datatype TriggerValue = TriggerValue(
    key: Button,
    location: LocationFlags,
    weather: WeatherFlags,
    days: DateFlags,
    startTime: int,
    endTime: int)

  datatype RuleValue = RuleValue(
    name: Str,
    enabled: bool,
    fileName: FileNameFlags,
    directory: Str,
    zoomLevel: real,
    trigger: TriggerValue)

  /** The state of `new ModTrigger()`. */
  const NewTrigger: TriggerValue :=
    TriggerValue(NoButton, LocationAny, WeatherAny, Daily + AnySeason, DefaultStartTime, DefaultEndTime)

  /** The state of `new ModRule()`: no name yet, enabled, default naming, directory and zoom. */
  const NewRule: RuleValue :=
    RuleValue(None, true, FileNameDefault, Some(DefaultString), DefaultZoom, NewTrigger)

  class Trigger {
    var key: Button
    var location: LocationFlags
    var weather: WeatherFlags
    var days: DateFlags
    var startTime: int
    var endTime: int

    function Value(): TriggerValue
      reads this
    {
      TriggerValue(key, location, weather, days, startTime, endTime)
    }

    constructor ()
      ensures Value() == NewTrigger
    {
      key := NewTrigger.key;
      location := NewTrigger.location;
      weather := NewTrigger.weather;
      days := NewTrigger.days;
      startTime := NewTrigger.startTime;
      endTime := NewTrigger.endTime;
    }
  }

  class Rule {
    var name: Str
    var enabled: bool
    var fileName: FileNameFlags
    var directory: Str
    var zoomLevel: real
    /** A rule owns its trigger for its whole life; ModConfig never replaces it. */
    const trigger: Trigger

    function Value(): RuleValue
      reads this, trigger
    {
      RuleValue(name, enabled, fileName, directory, zoomLevel,
                TriggerValue(trigger.key, trigger.location, trigger.weather, trigger.days, trigger.startTime, trigger.endTime))
    }

    constructor ()
      ensures Value() == NewRule
      ensures fresh(trigger)
    {
      name := NewRule.name;
      enabled := NewRule.enabled;
      fileName := NewRule.fileName;
      directory := NewRule.directory;
      zoomLevel := NewRule.zoomLevel;
      trigger := new Trigger();
    }
  }

  /** The rule objects of a rule list and the trigger objects they own. */
  ghost function Objects(rs: seq<Rule>): (os: set<object>)
    ensures forall i :: 0 <= i < |rs| ==> rs[i] in os && rs[i].trigger in os
  {
    (set i | 0 <= i < |rs| :: rs[i] as object) + (set i | 0 <= i < |rs| :: rs[i].trigger as object)
  }

  /** No rule object, and no trigger object, occurs twice in a rule list. */
  ghost predicate Distinct(rs: seq<Rule>)
  {
    forall i, j :: 0 <= i < j < |rs| ==> rs[i] != rs[j] && rs[i].trigger != rs[j].trigger
  }

  /** The states of the rules of a list, in list order. */
  function Values(rs: seq<Rule>): (vs: seq<RuleValue>)
    reads Objects(rs)
    ensures |vs| == |rs|
    ensures forall i :: 0 <= i < |rs| ==> vs[i] == rs[i].Value()
  {
    seq(|rs|, i requires 0 <= i < |rs| reads Objects(rs) => rs[i].Value())
  }
}
