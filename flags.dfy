/// The [Flags] enumerations of ModTrigger and ModRule, modelled as finite sets of
/// their single-bit members: `a | b` is set union, `a & b == None` is disjointness,
/// `x == None` is emptiness.
///
/// ModTrigger.cs and ModRule.cs, which declare these enums, are not part of this
/// model; only the members that ModConfig.cs names are certain. The remaining members
/// and the composite values below (Daily, the weekday sets, AnySeason, Any, Default)
/// follow the game's 28-day seasons, whose day 1 is a Monday, and are stated once here.
module Flags {
  import opened Wrappers

  /** A single bit of ModTrigger.WeatherFlags. */
  datatype WeatherBit = Sunny | Rainy | Windy | Stormy | Snowy
  type WeatherFlags = set<WeatherBit>

  /** WeatherFlags.Any: every weather bit. */
  const WeatherAny: WeatherFlags := {Sunny, Rainy, Windy, Stormy, Snowy}

  /** A single bit of ModTrigger.LocationFlags. ModConfig.cs names only Farm and Any;
      every other location is folded into OffFarm. */
  datatype LocationBit = Farm | OffFarm
  type LocationFlags = set<LocationBit>

  /** LocationFlags.Any: every location bit. */
  const LocationAny: LocationFlags := {Farm, OffFarm}

  /** A single bit of ModTrigger.DateFlags: a day of the month (1 to 28) or a season. */
  datatype DateBit = Day(n: nat) | Spring | Summer | Fall | Winter
  type DateFlags = set<DateBit>

  const AnySeason: DateFlags := {Spring, Summer, Fall, Winter}
  const Daily: DateFlags := set n | 1 <= n <= 28 :: Day(n)

  /** The four days of a month that fall on the weekday of day `first`. */
  function Weekly(first: nat): DateFlags
  {
    {Day(first), Day(first + 7), Day(first + 14), Day(first + 21)}
  }

  /** The names Enum.TryParse<DateFlags> accepts, with the flags each one stands for. */
  const DateNames: map<string, DateFlags> := map[
    "Daily" := Daily,
    "Mondays" := Weekly(1),
    "Tuesdays" := Weekly(2),
    "Wednesdays" := Weekly(3),
    "Thursdays" := Weekly(4),
    "Fridays" := Weekly(5),
    "Saturdays" := Weekly(6),
    "Sundays" := Weekly(7),
    "FirstDayOfTheMonth" := {Day(1)},
    "LastDayOfTheMonth" := {Day(28)},
    "Spring" := {Spring},
    "Summer" := {Summer},
    "Fall" := {Fall},
    "Winter" := {Winter},
    "AnySeason" := AnySeason
  ]

  /** Enum.TryParse<DateFlags>, restricted to a lookup of a single member name. */
  function TryParseDate(name: string): Option<DateFlags>
  {
    if name in DateNames then Some(DateNames[name]) else None
  }

  /** A single bit of ModRule.FileNameFlags. */
  datatype FileNameBit = NameDate | NameLocation | NameTime | GameID | UniqueID
  type FileNameFlags = set<FileNameBit>

  /** FileNameFlags.None: no naming component. */
  const FileNameNone: FileNameFlags := {}

  /** FileNameFlags.Default: the naming components of the automatic daily screenshot. */
  const FileNameDefault: FileNameFlags := {NameDate, NameLocation, GameID}
}
