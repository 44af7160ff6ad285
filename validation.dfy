/// ModConfig.ValidateUserInput, as pure functions: the renaming of unnamed rules and the
/// two overlap scans over the rule list.
module Validation {
  import opened Wrappers
  import opened Flags
  import opened Log
  import opened Rules

  // ---------------------------------------------------------------------------
  // The generated names "Unnamed Rule N".

  /** The decimal digits of `n`, as C# string interpolation writes an int. */
  function NatToString(n: nat): (s: string)
    ensures |s| >= 1
    ensures n >= 10 ==> |s| >= 2
    decreases n
  {
    if n < 10 then [Digit(n)] else NatToString(n / 10) + [Digit(n % 10)]
  }

  function Digit(d: nat): char
    requires d < 10
  {
    "0123456789"[d]
  }

  /** Different numbers are written differently. */
  lemma {:induction false} NatToStringInjective(a: nat, b: nat)
    requires NatToString(a) == NatToString(b)
    ensures a == b
    decreases a
  {
    var s := NatToString(a);
    if a < 10 && b < 10 {
      assert Digit(a) == s[0] == Digit(b);
    } else if a >= 10 && b >= 10 {
      assert s[|s| - 1] == Digit(a % 10) == Digit(b % 10);
      assert NatToString(a / 10) == s[..|s| - 1] == NatToString(b / 10);
      NatToStringInjective(a / 10, b / 10);
    }
  }

  /** The name `$"Unnamed Rule {n}"` that ValidateUserInput gives the n-th unnamed rule. */
  function UnnamedLabel(n: nat): string
  {
    "Unnamed Rule " + NatToString(n)
  }

  /** The alphabet and length of Guid.ToString(): 36 characters, each a lower-case
      hexadecimal digit or a hyphen. The positions of the hyphens are not checked; the
      model needs only that a GUID never starts with the 'U' of a generated name. */
  predicate IsGuid(s: string)
  {
    |s| == 36 && forall i :: 0 <= i < |s| ==> s[i] in "0123456789abcdef-"
  }

  /** The name is null, empty or the launch GUID: the rule has not been named yet. */
  predicate NeedsName(name: Str, guid: string)
  {
    name.None? || name.value == "" || name.value == guid
  }

  /** A generated name never needs naming again. */
  lemma LabelIsName(n: nat, guid: string)
    requires IsGuid(guid)
    ensures !NeedsName(Some(UnnamedLabel(n)), guid)
  {
    assert UnnamedLabel(n)[0] == 'U';
  }

  // ---------------------------------------------------------------------------
  // The renaming loop.

  /** How many rules of the list need a name. */
  function UnnamedCount(rules: seq<RuleValue>, guid: string): nat
    decreases |rules|
  {
    if rules == [] then 0
    else UnnamedCount(rules[..|rules| - 1], guid) + (if NeedsName(rules[|rules| - 1].name, guid) then 1 else 0)
  }

  /** Rule `i` after the renaming loop: a rule without a name is numbered after the
      unnamed rules before it. */
  function RenamedAt(rules: seq<RuleValue>, guid: string, i: nat): RuleValue
    requires i < |rules|
  {
    if NeedsName(rules[i].name, guid)
    then rules[i].(name := Some(UnnamedLabel(UnnamedCount(rules[..i], guid) + 1)))
    else rules[i]
  }

  /** The rule list after the renaming loop, which visits the rules in list order. */
  function Renamed(rules: seq<RuleValue>, guid: string): (r: seq<RuleValue>)
    ensures |r| == |rules|
    decreases |rules|
  {
    if rules == [] then []
    else Renamed(rules[..|rules| - 1], guid) + [RenamedAt(rules, guid, |rules| - 1)]
  }

  /** Rule i of the renamed list is rule i renamed after the rules before it. */
  lemma {:induction false} RenamedIndex(rules: seq<RuleValue>, guid: string, i: nat)
    requires i < |rules|
    ensures Renamed(rules, guid)[i] == RenamedAt(rules, guid, i)
    decreases |rules|
  {
    var front := rules[..|rules| - 1];
    if i < |front| {
      RenamedIndex(front, guid, i);
      assert front[..i] == rules[..i];
    }
  }

  /** The warnings the renaming loop logs: the new name of each renamed rule, in list order. */
  function RenameWarnings(rules: seq<RuleValue>, guid: string): seq<Warning>
    decreases |rules|
  {
    if rules == [] then []
    else
      var front := rules[..|rules| - 1];
      RenameWarnings(front, guid)
        + (if NeedsName(rules[|rules| - 1].name, guid) then [UnnamedRule(UnnamedLabel(UnnamedCount(front, guid) + 1))] else [])
  }

  /** One more rule of the renaming loop: it is counted, named and warned about exactly
      when it needs a name. */
  lemma RenameStep(rules: seq<RuleValue>, guid: string, k: nat)
    requires k < |rules|
    ensures UnnamedCount(rules[..k + 1], guid) == UnnamedCount(rules[..k], guid) + (if NeedsName(rules[k].name, guid) then 1 else 0)
    ensures RenameWarnings(rules[..k + 1], guid) == RenameWarnings(rules[..k], guid)
      + (if NeedsName(rules[k].name, guid) then [UnnamedRule(UnnamedLabel(UnnamedCount(rules[..k], guid) + 1))] else [])
    ensures Renamed(rules[..k + 1], guid) == Renamed(rules[..k], guid) + [RenamedAt(rules, guid, k)]
  {
    assert rules[..k + 1][..k] == rules[..k];
  }

  /** Renaming changes nothing but names, and only the names that need it. */
  lemma RenamedChangesOnlyMissingNames(rules: seq<RuleValue>, guid: string, i: nat)
    requires IsGuid(guid) && i < |rules|
    ensures Renamed(rules, guid)[i] == rules[i].(name := Renamed(rules, guid)[i].name)
    ensures !NeedsName(rules[i].name, guid) <==> Renamed(rules, guid)[i] == rules[i]
  {
    RenamedIndex(rules, guid, i);
    if NeedsName(rules[i].name, guid) {
      LabelIsName(UnnamedCount(rules[..i], guid) + 1, guid);
    }
  }

  /** Unnamed counts only grow along the list, and each rule needing a name adds one. */
  lemma {:induction false} UnnamedCountGrows(rules: seq<RuleValue>, guid: string, i: nat, j: nat)
    requires i < j <= |rules|
    ensures UnnamedCount(rules[..i], guid) + (if NeedsName(rules[i].name, guid) then 1 else 0) <= UnnamedCount(rules[..j], guid)
    decreases j - i
  {
    assert rules[..i + 1][..i] == rules[..i];
    if j > i + 1 {
      UnnamedCountGrows(rules, guid, i, j - 1);
      assert rules[..j][..j - 1] == rules[..j - 1];
    }
  }

  /** The renamed rules are numbered 1, 2, ... in list order: rule i gets a number at most
      the number of unnamed rules, and later rules get larger numbers. */
  lemma RenamedNumbering(rules: seq<RuleValue>, guid: string, i: nat, j: nat)
    requires i < j < |rules| && NeedsName(rules[i].name, guid) && NeedsName(rules[j].name, guid)
    ensures UnnamedCount(rules[..i], guid) + 1 < UnnamedCount(rules[..j], guid) + 1 <= UnnamedCount(rules, guid)
  {
    UnnamedCountGrows(rules, guid, i, j);
    UnnamedCountGrows(rules, guid, j, |rules|);
    assert rules[..|rules|] == rules;
  }

  /** No two renamed rules get the same generated name. */
  lemma RenamedLabelsDistinct(rules: seq<RuleValue>, guid: string, i: nat, j: nat)
    requires i < j < |rules| && NeedsName(rules[i].name, guid) && NeedsName(rules[j].name, guid)
    ensures Renamed(rules, guid)[i].name != Renamed(rules, guid)[j].name
  {
    RenamedIndex(rules, guid, i);
    RenamedIndex(rules, guid, j);
    RenamedNumbering(rules, guid, i, j);
    var a, b := UnnamedCount(rules[..i], guid) + 1, UnnamedCount(rules[..j], guid) + 1;
    if UnnamedLabel(a) == UnnamedLabel(b) {
      assert NatToString(a) == UnnamedLabel(a)[13..] == UnnamedLabel(b)[13..] == NatToString(b);
      NatToStringInjective(a, b);
    }
  }

  /** After renaming no rule needs a name. */
  lemma RenamedAllNamed(rules: seq<RuleValue>, guid: string, i: nat)
    requires IsGuid(guid) && i < |rules|
    ensures !NeedsName(Renamed(rules, guid)[i].name, guid)
  {
    RenamedIndex(rules, guid, i);
    if NeedsName(rules[i].name, guid) {
      LabelIsName(UnnamedCount(rules[..i], guid) + 1, guid);
    }
  }

  /** The count of rules to rename is zero exactly when every rule has a name. */
  lemma {:induction false} UnnamedCountZero(rules: seq<RuleValue>, guid: string)
    ensures UnnamedCount(rules, guid) == 0 <==> forall i :: 0 <= i < |rules| ==> !NeedsName(rules[i].name, guid)
    decreases |rules|
  {
    if rules != [] {
      var front := rules[..|rules| - 1];
      UnnamedCountZero(front, guid);
      assert forall i :: 0 <= i < |front| ==> front[i] == rules[i];
    }
  }

  /** One warning is logged per renamed rule. */
  lemma {:induction false} RenameWarningsCount(rules: seq<RuleValue>, guid: string)
    ensures |RenameWarnings(rules, guid)| == UnnamedCount(rules, guid)
    decreases |rules|
  {
    if rules != [] {
      RenameWarningsCount(rules[..|rules| - 1], guid);
    }
  }

  /** A second validation renames nothing and logs no renaming. */
  lemma RenameIdempotent(rules: seq<RuleValue>, guid: string)
    requires IsGuid(guid)
    ensures Renamed(Renamed(rules, guid), guid) == Renamed(rules, guid)
    ensures UnnamedCount(Renamed(rules, guid), guid) == 0
    ensures RenameWarnings(Renamed(rules, guid), guid) == []
  {
    var once := Renamed(rules, guid);
    forall i | 0 <= i < |once|
      ensures !NeedsName(once[i].name, guid)
    {
      RenamedAllNamed(rules, guid, i);
    }
    forall i | 0 <= i < |once|
      ensures Renamed(once, guid)[i] == once[i]
    {
      RenamedIndex(once, guid, i);
    }
    UnnamedCountZero(once, guid);
    RenameWarningsCount(once, guid);
  }

  /** A user-given name equal to a generated one is not repaired: the list keeps two
      rules called "Unnamed Rule 1". */
  lemma UserNameMayRepeatLabel(guid: string, rules: seq<RuleValue>)
    requires IsGuid(guid)
    requires rules == [NewRule.(name := Some(UnnamedLabel(1))), NewRule]
    ensures Renamed(rules, guid)[0].name == Renamed(rules, guid)[1].name == Some(UnnamedLabel(1))
  {
    LabelIsName(1, guid);
    RenamedIndex(rules, guid, 0);
    RenamedIndex(rules, guid, 1);
    assert rules[..1][..0] == [];
    assert UnnamedCount(rules[..1], guid) == 0;
  }

  /** The placeholder the constructor makes is the first rule ValidateUserInput renames. */
  lemma PlaceholderBecomesFirstUnnamed(guid: string, rules: seq<RuleValue>)
    requires rules == [NewRule.(name := Some(guid))]
    ensures Renamed(rules, guid) == [NewRule.(name := Some(UnnamedLabel(1)))]
    ensures RenameWarnings(rules, guid) == [UnnamedRule(UnnamedLabel(1))]
  {
    assert rules[..0] == [] && rules[..|rules| - 1] == [];
  }

  /** Some rule's own validation (ModRule.ValidateUserInput, given as `repairs`) reports a repair. */
  predicate AnyRepairs(rules: seq<RuleValue>, repairs: RuleValue -> bool)
  {
    exists i :: 0 <= i < |rules| && repairs(rules[i])
  }

  /** One more rule for AnyRepairs. */
  lemma AnyRepairsAppend(rules: seq<RuleValue>, r: RuleValue, repairs: RuleValue -> bool)
    ensures AnyRepairs(rules + [r], repairs) <==> AnyRepairs(rules, repairs) || repairs(r)
  {
    if repairs(r) {
      assert (rules + [r])[|rules|] == r;
    }
    if AnyRepairs(rules, repairs) {
      var i :| 0 <= i < |rules| && repairs(rules[i]);
      assert (rules + [r])[i] == rules[i];
    }
  }

  // ---------------------------------------------------------------------------
  // The overlap scans.

  /** Rule i is compared with later rules: it is enabled and names its files without a
      unique identifier. */
  predicate OverlapCandidate(r: RuleValue)
  {
    r.enabled && r.fileName != FileNameNone && UniqueID !in r.fileName
  }

  /** The rule names its files, but with neither the game's nor a unique identifier. */
  predicate SaveOverlapRisk(r: RuleValue)
  {
    r.fileName != FileNameNone && GameID !in r.fileName && UniqueID !in r.fileName
  }

  /** The overlap warnings of rule i against the rules i+1 .. m-1. */
  function PartnerWarnings(rules: seq<RuleValue>, canOverlap: (RuleValue, RuleValue) -> bool, i: nat, m: nat): seq<Warning>
    requires i < m <= |rules|
    decreases m
  {
    if m == i + 1 then []
    else
      PartnerWarnings(rules, canOverlap, i, m - 1)
        + (if rules[m - 1].enabled && canOverlap(rules[i], rules[m - 1]) then [RuleOverlap(i, m - 1)] else [])
  }

  /** What one pass of the outer loop logs for rule i. */
  function RowWarnings(rules: seq<RuleValue>, canOverlap: (RuleValue, RuleValue) -> bool, i: nat): seq<Warning>
    requires i < |rules|
  {
    (if OverlapCandidate(rules[i]) then PartnerWarnings(rules, canOverlap, i, |rules|) else [])
      + (if SaveOverlapRisk(rules[i]) then [SaveOverlap(i)] else [])
  }

  /** What the first n passes of the outer loop log. */
  function ScanWarnings(rules: seq<RuleValue>, canOverlap: (RuleValue, RuleValue) -> bool, n: nat): seq<Warning>
    requires n <= |rules|
    decreases n
  {
    if n == 0 then [] else ScanWarnings(rules, canOverlap, n - 1) + RowWarnings(rules, canOverlap, n - 1)
  }

  lemma {:induction false} PartnerWarningsIff(rules: seq<RuleValue>, canOverlap: (RuleValue, RuleValue) -> bool, i: nat, m: nat, w: Warning)
    requires i < m <= |rules|
    ensures w in PartnerWarnings(rules, canOverlap, i, m) <==>
      w.RuleOverlap? && w.first == i && i < w.second < m && rules[w.second].enabled && canOverlap(rules[i], rules[w.second])
    decreases m
  {
    if m > i + 1 {
      PartnerWarningsIff(rules, canOverlap, i, m - 1, w);
    }
  }

  /** Rule i's pass warns about the later partners it can overlap with, when it is a
      candidate, and about the saves it can overwrite. */
  lemma RowWarningsIff(rules: seq<RuleValue>, canOverlap: (RuleValue, RuleValue) -> bool, i: nat, w: Warning)
    requires i < |rules|
    ensures w in RowWarnings(rules, canOverlap, i) <==>
      || (&& w.RuleOverlap? && w.first == i && i < w.second < |rules|
          && OverlapCandidate(rules[i]) && rules[w.second].enabled && canOverlap(rules[i], rules[w.second]))
      || (w == SaveOverlap(i) && SaveOverlapRisk(rules[i]))
  {
    PartnerWarningsIff(rules, canOverlap, i, |rules|, w);
  }

  lemma {:induction false} ScanWarningsIff(rules: seq<RuleValue>, canOverlap: (RuleValue, RuleValue) -> bool, n: nat, w: Warning)
    requires n <= |rules|
    ensures w in ScanWarnings(rules, canOverlap, n) <==>
      || (&& w.RuleOverlap? && w.first < n && w.first < w.second < |rules|
          && OverlapCandidate(rules[w.first]) && rules[w.second].enabled && canOverlap(rules[w.first], rules[w.second]))
      || (w.SaveOverlap? && w.rule < n && SaveOverlapRisk(rules[w.rule]))
    decreases n
  {
    if n > 0 {
      ScanWarningsIff(rules, canOverlap, n - 1, w);
      RowWarningsIff(rules, canOverlap, n - 1, w);
      assert ScanWarnings(rules, canOverlap, n) == ScanWarnings(rules, canOverlap, n - 1) + RowWarnings(rules, canOverlap, n - 1);
      if w.RuleOverlap? {
        assert w.first < n <==> w.first < n - 1 || w.first == n - 1;
      } else if w.SaveOverlap? {
        assert w.rule < n <==> w.rule < n - 1 || w.rule == n - 1;
      }
    }
  }

  /** An overlap warning names the pair i < j exactly when both rules are enabled, rule i
      names its files without a unique identifier, and the two names can overlap. */
  lemma OverlapWarningIff(rules: seq<RuleValue>, canOverlap: (RuleValue, RuleValue) -> bool, i: nat, j: nat)
    ensures RuleOverlap(i, j) in ScanWarnings(rules, canOverlap, |rules|) <==>
      && i < j < |rules|
      && rules[i].enabled && rules[i].fileName != FileNameNone && UniqueID !in rules[i].fileName
      && rules[j].enabled && canOverlap(rules[i], rules[j])
  {
    ScanWarningsIff(rules, canOverlap, |rules|, RuleOverlap(i, j));
  }

  /** The save-overlap warning is logged for every rule, enabled or not, that names its
      files with neither the game's nor a unique identifier. */
  lemma SaveOverlapIff(rules: seq<RuleValue>, canOverlap: (RuleValue, RuleValue) -> bool, i: nat)
    ensures SaveOverlap(i) in ScanWarnings(rules, canOverlap, |rules|) <==>
      && i < |rules|
      && rules[i].fileName != FileNameNone && GameID !in rules[i].fileName && UniqueID !in rules[i].fileName
  {
    ScanWarningsIff(rules, canOverlap, |rules|, SaveOverlap(i));
  }

  /** The scan logs nothing but overlap and save-overlap warnings. */
  lemma ScanWarningsKinds(rules: seq<RuleValue>, canOverlap: (RuleValue, RuleValue) -> bool, w: Warning)
    requires w in ScanWarnings(rules, canOverlap, |rules|)
    ensures w.RuleOverlap? || w.SaveOverlap?
  {
    ScanWarningsIff(rules, canOverlap, |rules|, w);
  }
}
