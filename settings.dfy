/**
 * Utils.OverrideSettings and Utils.IsValueProvided: the command-line
 * settings are folded, property by property, into the settings loaded from
 * settings.json, and every change is logged for the console.
 *
 * The reflection the code uses (GetProperties, GetValue, SetValue by
 * property name) is written out: a settings object is read and written
 * through the name of one of its properties, and a command's settings are
 * the list of its (name, value) properties in declaration order.
 */
module Settings {
  import opened Common

  /** A property value as object? sees it: null, a string or a boxed bool. */
  datatype Value = Null | Str(s: string) | Bool(b: bool)

  function OfString(s: Option<string>): Value {
    match s
    case None => Null
    case Some(v) => Str(v)
  }

  /** The properties of SettingsConfig, in declaration order. */
  const ConfigPropertyNames: seq<string> := ["ModsFolder", "Token", "DryMode", "ResoniteModLoaderSource", "Manifest"]

  const TokenProperty := "Token"
  const DryModeProperty := "DryMode"
  const TokenMask := "********"
  /** The masked Token line when no token was stored: Token [green]********[/] */
  const MaskedNewTokenLine := TokenProperty + " [green]" + TokenMask + "[/]"
  /** The masked Token line when a token was stored: Token [red]********[/] -> [green]********[/] */
  const MaskedChangedTokenLine := TokenProperty + " [red]" + TokenMask + "[/] -> [green]" + TokenMask + "[/]"

  /** The state of one SettingsConfig object. */
  datatype ConfigValues = ConfigValues(modsFolder: Option<string>, token: Option<string>, dryMode: bool,
                                       resoniteModLoaderSource: Option<string>, manifest: Option<string>)

  /** PropertyInfo.GetValue for a SettingsConfig property. */
  function GetValue(c: ConfigValues, name: string): Value
    requires name in ConfigPropertyNames
  {
    if name == "ModsFolder" then OfString(c.modsFolder)
    else if name == "Token" then OfString(c.token)
    else if name == "DryMode" then Bool(c.dryMode)
    else if name == "ResoniteModLoaderSource" then OfString(c.resoniteModLoaderSource)
    else OfString(c.manifest)
  }

  /** The values PropertyInfo.SetValue accepts for a property: a bool for DryMode, a string or null otherwise. */
  predicate Fits(name: string, v: Value) {
    if name == DryModeProperty then v.Bool? else !v.Bool?
  }

  function AsString(v: Value): Option<string> {
    if v.Str? then Some(v.s) else None
  }

  /** The settings after PropertyInfo.SetValue on one property. */
  function WithValue(c: ConfigValues, name: string, v: Value): (r: ConfigValues)
    requires name in ConfigPropertyNames && Fits(name, v)
    ensures GetValue(r, name) == v
    ensures forall other :: other in ConfigPropertyNames && other != name ==> GetValue(r, other) == GetValue(c, other)
  {
    if name == "ModsFolder" then c.(modsFolder := AsString(v))
    else if name == "Token" then c.(token := AsString(v))
    else if name == "DryMode" then c.(dryMode := v.b)
    else if name == "ResoniteModLoaderSource" then c.(resoniteModLoaderSource := AsString(v))
    else c.(manifest := AsString(v))
  }

  /** Two settings objects agree on every property exactly when they are the same. */
  lemma SameValuesSameConfig(a: ConfigValues, b: ConfigValues)
    requires forall name :: name in ConfigPropertyNames ==> GetValue(a, name) == GetValue(b, name)
    ensures a == b
  {
    assert GetValue(a, ConfigPropertyNames[0]) == GetValue(b, ConfigPropertyNames[0]);
    assert GetValue(a, ConfigPropertyNames[1]) == GetValue(b, ConfigPropertyNames[1]);
    assert GetValue(a, ConfigPropertyNames[2]) == GetValue(b, ConfigPropertyNames[2]);
    assert GetValue(a, ConfigPropertyNames[3]) == GetValue(b, ConfigPropertyNames[3]);
    assert GetValue(a, ConfigPropertyNames[4]) == GetValue(b, ConfigPropertyNames[4]);
  }

  /** IsValueProvided: not null, and not empty when it is a string; a bool always counts. */
  predicate IsValueProvided(v: Value) {
    match v
    case Null => false
    case Str(s) => s != ""
    case Bool(_) => true
  }

  /** A value as string interpolation prints it (null prints nothing, a bool prints True or False). */
  function Show(v: Value): string {
    match v
    case Null => ""
    case Str(s) => s
    case Bool(b) => if b then "True" else "False"
  }

  /**
   * The log line as the code writes it: only the NEW value of Token is
   * replaced by the mask; the old value is printed as it is.
   */
  function ChangeLine(name: string, oldValue: Value, newValue: Value): string {
    var shown := if name == TokenProperty then TokenMask else Show(newValue);
    if oldValue != Null then name + " [red]" + Show(oldValue) + "[/] -> [green]" + shown + "[/]"
    else name + " [green]" + shown + "[/]"
  }

  /** The log line with the token masked on both sides of the arrow. */
  function MaskedChangeLine(name: string, oldValue: Value, newValue: Value): string {
    var shownOld := if name == TokenProperty then TokenMask else Show(oldValue);
    var shown := if name == TokenProperty then TokenMask else Show(newValue);
    if oldValue != Null then name + " [red]" + shownOld + "[/] -> [green]" + shown + "[/]"
    else name + " [green]" + shown + "[/]"
  }

  /** The as-written line for Token carries the stored token verbatim, right after "Token [red]". */
  lemma ChangeLineLeaksOldToken(stored: string, newValue: Value)
    ensures var line := ChangeLine(TokenProperty, Str(stored), newValue);
      |line| >= 11 + |stored| && line[11..11 + |stored|] == stored
  {
    var line := ChangeLine(TokenProperty, Str(stored), newValue);
    var rest := "[/] -> [green]" + TokenMask + "[/]";
    assert line == "Token [red]" + stored + rest;
  }

  /** The masked line for Token reveals only whether a token was stored before, never either token. */
  lemma MaskedTokenLineRevealsNothing(old1: Value, new1: Value, old2: Value, new2: Value)
    requires old1.Null? == old2.Null?
    ensures MaskedChangeLine(TokenProperty, old1, new1) == MaskedChangeLine(TokenProperty, old2, new2)
    ensures MaskedChangeLine(TokenProperty, old1, new1) ==
      if old1.Null? then MaskedNewTokenLine else MaskedChangedTokenLine
  {
  }

  /** For every other property the masked line is the as-written one. */
  lemma MaskedAgreesOffToken(name: string, oldValue: Value, newValue: Value)
    requires name != TokenProperty
    ensures MaskedChangeLine(name, oldValue, newValue) == ChangeLine(name, oldValue, newValue)
  {
  }

  // ---------------------------------------------------------------------
  // The fold

  /** A command's settings: its properties as (name, value) in declaration order. */
  type CliProperties = seq<(string, Value)>

  /** Every property a command shares with SettingsConfig holds a value SetValue accepts. */
  predicate WellTyped(cli: CliProperties) {
    forall i :: 0 <= i < |cli| && cli[i].0 in ConfigPropertyNames ==> Fits(cli[i].0, cli[i].1)
  }

  /** Property names of one type are distinct. */
  predicate DistinctNames(cli: CliProperties) {
    forall i, j :: 0 <= i < j < |cli| ==> cli[i].0 != cli[j].0
  }

  datatype Overridden = Overridden(values: ConfigValues, log: seq<string>)

  /** One iteration of the loop: the property is copied and logged when it is known, provided and different. */
  function Apply(state: Overridden, name: string, newValue: Value): Overridden
    requires name in ConfigPropertyNames ==> Fits(name, newValue)
  {
    if name !in ConfigPropertyNames || !IsValueProvided(newValue) then state
    else
      var oldValue := GetValue(state.values, name);
      if oldValue == newValue then state
      else Overridden(WithValue(state.values, name, newValue), state.log + [MaskedChangeLine(name, oldValue, newValue)])
  }

  /** OverrideSettings as a function: the loop over the command's properties, in order. */
  function Override(c: ConfigValues, cli: CliProperties): Overridden
    requires WellTyped(cli)
  {
    if cli == [] then Overridden(c, [])
    else
      var last := cli[|cli| - 1];
      Apply(Override(c, cli[..|cli| - 1]), last.0, last.1)
  }

  /** The properties of a command that change the settings object: known, provided and different. */
  function Changes(c: ConfigValues, cli: CliProperties): (changes: CliProperties)
    requires WellTyped(cli)
    ensures |changes| <= |cli|
    ensures forall k :: 0 <= k < |changes| ==> changes[k] in cli
  {
    if cli == [] then []
    else
      var init := cli[..|cli| - 1];
      var last := cli[|cli| - 1];
      var known := Changes(c, init);
      if last.0 in ConfigPropertyNames && IsValueProvided(last.1) && GetValue(c, last.0) != last.1
      then known + [last] else known
  }

  /** The log lines for a list of changes against the original settings. */
  function Lines(c: ConfigValues, changes: CliProperties): (lines: seq<string>)
    requires forall k :: 0 <= k < |changes| ==> changes[k].0 in ConfigPropertyNames
    ensures |lines| == |changes|
  {
    if changes == [] then []
    else
      var last := changes[|changes| - 1];
      Lines(c, changes[..|changes| - 1]) + [MaskedChangeLine(last.0, GetValue(c, last.0), last.1)]
  }

  lemma {:induction false} LinesAt(c: ConfigValues, changes: CliProperties, k: nat)
    requires forall k :: 0 <= k < |changes| ==> changes[k].0 in ConfigPropertyNames
    requires k < |changes|
    ensures Lines(c, changes)[k] == MaskedChangeLine(changes[k].0, GetValue(c, changes[k].0), changes[k].1)
  {
    if k < |changes| - 1 {
      var init := changes[..|changes| - 1];
      assert init[k] == changes[k];
      LinesAt(c, init, k);
    }
  }

  /** The value the command provides for a settings property, if any. */
  function ProvidedFor(cli: CliProperties, name: string): Option<Value> {
    if cli == [] then None
    else
      var last := cli[|cli| - 1];
      if last.0 == name && IsValueProvided(last.1) then Some(last.1)
      else ProvidedFor(cli[..|cli| - 1], name)
  }

  lemma {:induction false} ProvidedForAbsent(cli: CliProperties, name: string)
    requires forall i :: 0 <= i < |cli| ==> cli[i].0 != name
    ensures ProvidedFor(cli, name) == None
  {
    if cli != [] {
      ProvidedForAbsent(cli[..|cli| - 1], name);
    }
  }

  /**
   * Fieldwise meaning of the fold: a property takes the command's value
   * when the command provides one, and keeps its old value otherwise.
   */
  lemma {:induction false} OverrideFieldwise(c: ConfigValues, cli: CliProperties, name: string)
    requires WellTyped(cli) && DistinctNames(cli)
    requires name in ConfigPropertyNames
    ensures GetValue(Override(c, cli).values, name) ==
      match ProvidedFor(cli, name)
      case Some(v) => v
      case None => GetValue(c, name)
  {
    if cli != [] {
      var init := cli[..|cli| - 1];
      var last := cli[|cli| - 1];
      assert WellTyped(init) && DistinctNames(init);
      OverrideFieldwise(c, init, name);
      if last.0 == name && IsValueProvided(last.1) {
        ProvidedForAbsent(init, name);
      }
    }
  }

  /**
   * The log has one line per property that changes, in order, each against
   * the value the property had before the call.
   */
  lemma {:induction false} OverrideLogsChanges(c: ConfigValues, cli: CliProperties)
    requires WellTyped(cli) && DistinctNames(cli)
    ensures forall k :: 0 <= k < |Changes(c, cli)| ==> Changes(c, cli)[k].0 in ConfigPropertyNames
    ensures Override(c, cli).log == Lines(c, Changes(c, cli))
  {
    ChangesAreKnown(c, cli);
    if cli != [] {
      var init := cli[..|cli| - 1];
      var last := cli[|cli| - 1];
      assert WellTyped(init) && DistinctNames(init);
      OverrideLogsChanges(c, init);
      if last.0 in ConfigPropertyNames {
        OverrideFieldwise(c, init, last.0);
        ProvidedForAbsent(init, last.0);
        var known := Changes(c, init);
        ChangesAreKnown(c, init);
        if IsValueProvided(last.1) && GetValue(c, last.0) != last.1 {
          assert (known + [last])[..|known|] == known;
        }
      }
    }
  }

  lemma {:induction false} ChangesAreKnown(c: ConfigValues, cli: CliProperties)
    requires WellTyped(cli)
    ensures forall k :: 0 <= k < |Changes(c, cli)| ==> Changes(c, cli)[k].0 in ConfigPropertyNames && IsValueProvided(Changes(c, cli)[k].1)
  {
    if cli != [] {
      ChangesAreKnown(c, cli[..|cli| - 1]);
    }
  }

  /** Running the same override twice changes nothing the second time and logs nothing. */
  lemma OverrideIdempotent(c: ConfigValues, cli: CliProperties)
    requires WellTyped(cli) && DistinctNames(cli)
    ensures var once := Override(c, cli).values;
      Override(once, cli) == Overridden(once, [])
  {
    var once := Override(c, cli).values;
    forall name | name in ConfigPropertyNames
      ensures GetValue(Override(once, cli).values, name) == GetValue(once, name)
    {
      OverrideFieldwise(c, cli, name);
      OverrideFieldwise(once, cli, name);
    }
    SameValuesSameConfig(Override(once, cli).values, once);
    OverrideLogsChanges(once, cli);
    NoChangesAfterOverride(c, cli, once);
  }

  lemma NoChangesAfterOverride(c: ConfigValues, cli: CliProperties, once: ConfigValues)
    requires WellTyped(cli) && DistinctNames(cli)
    requires once == Override(c, cli).values
    ensures Changes(once, cli) == []
  {
    NoChangesFrom(c, cli, cli, once);
  }

  /** No property of a prefix of the command's properties differs from the overridden value. */
  lemma {:induction false} NoChangesFrom(c: ConfigValues, all: CliProperties, cli: CliProperties, once: ConfigValues)
    requires WellTyped(all) && DistinctNames(all)
    requires once == Override(c, all).values
    requires |cli| <= |all| && cli == all[..|cli|]
    ensures WellTyped(cli) && Changes(once, cli) == []
  {
    assert WellTyped(cli);
    if cli != [] {
      var init := cli[..|cli| - 1];
      var last := cli[|cli| - 1];
      assert init == all[..|init|];
      NoChangesFrom(c, all, init, once);
      if last.0 in ConfigPropertyNames && IsValueProvided(last.1) {
        OverrideFieldwise(c, all, last.0);
        ProvidedForAt(all, |cli| - 1);
      }
    }
  }

  /** With distinct names, what the command provides for a property's name is that property's value, if provided. */
  lemma {:induction false} ProvidedForAt(cli: CliProperties, i: nat)
    requires DistinctNames(cli) && i < |cli|
    ensures ProvidedFor(cli, cli[i].0) == if IsValueProvided(cli[i].1) then Some(cli[i].1) else None
  {
    var init := cli[..|cli| - 1];
    if i < |cli| - 1 {
      assert init[i] == cli[i];
      ProvidedForAt(init, i);
    } else {
      ProvidedForAbsent(init, cli[i].0);
    }
  }

  // ---------------------------------------------------------------------
  // The settings object and the loop

  /** SettingsConfig, whose properties OverrideSettings sets in place. */
  class SettingsConfig {
    var modsFolder: Option<string>
    var token: Option<string>
    var dryMode: bool
    var resoniteModLoaderSource: Option<string>
    var manifest: Option<string>

    /** new SettingsConfig(): every string null, DryMode false. */
    constructor ()
      ensures Values() == ConfigValues(None, None, false, None, None)
    {
      modsFolder := None;
      token := None;
      dryMode := false;
      resoniteModLoaderSource := None;
      manifest := None;
    }

    function Values(): ConfigValues
      reads this
    {
      ConfigValues(modsFolder, token, dryMode, resoniteModLoaderSource, manifest)
    }

    method SetValue(name: string, v: Value)
      requires name in ConfigPropertyNames && Fits(name, v)
      modifies this
      ensures Values() == WithValue(old(Values()), name, v)
    {
      if name == "ModsFolder" {
        modsFolder := AsString(v);
      } else if name == "Token" {
        token := AsString(v);
      } else if name == "DryMode" {
        dryMode := v.b;
      } else if name == "ResoniteModLoaderSource" {
        resoniteModLoaderSource := AsString(v);
      } else {
        manifest := AsString(v);
      }
    }
  }

  /**
   * Utils.OverrideSettings: sets config's properties from the command's
   * and returns the change log (the config object itself is updated in place).
   */
  method OverrideSettings(config: SettingsConfig, cliSettings: CliProperties) returns (overriddenSettings: seq<string>)
    requires WellTyped(cliSettings)
    modifies config
    ensures config.Values() == Override(old(config.Values()), cliSettings).values
    ensures overriddenSettings == Override(old(config.Values()), cliSettings).log
  {
    ghost var initial := config.Values();
    overriddenSettings := [];
    var i := 0;
    while i < |cliSettings|
      invariant 0 <= i <= |cliSettings|
      invariant WellTyped(cliSettings[..i])
      invariant Overridden(config.Values(), overriddenSettings) == Override(initial, cliSettings[..i])
    {
      var (name, newValue) := cliSettings[i];
      assert cliSettings[..i + 1][..i] == cliSettings[..i];
      assert WellTyped(cliSettings[..i + 1]);
      if name in ConfigPropertyNames {
        if IsValueProvided(newValue) {
          var oldValue := GetValue(config.Values(), name);
          if oldValue != newValue {
            config.SetValue(name, newValue);
            overriddenSettings := overriddenSettings + [MaskedChangeLine(name, oldValue, newValue)];
          }
        }
      }
      i := i + 1;
    }
    assert cliSettings[..i] == cliSettings;
  }

  // ---------------------------------------------------------------------
  // The two commands' settings

  /** UpdateCommand.Settings: ModsFolder, Token, DryMode, ReadKeyExit. */
  datatype UpdateCli = UpdateCli(modsFolder: Option<string>, token: Option<string>, dryMode: bool, readKeyExit: bool)

  function UpdateCliProperties(cli: UpdateCli): (props: CliProperties)
    ensures WellTyped(props) && DistinctNames(props)
  {
    [("ModsFolder", OfString(cli.modsFolder)), ("Token", OfString(cli.token)),
     ("DryMode", Bool(cli.dryMode)), ("ReadKeyExit", Bool(cli.readKeyExit))]
  }

  /** SearchCommand.Settings: Query, Manifest, ReadKeyExit. */
  datatype SearchCli = SearchCli(query: Option<string>, manifest: Option<string>, readKeyExit: bool)

  function SearchCliProperties(cli: SearchCli): (props: CliProperties)
    ensures WellTyped(props) && DistinctNames(props)
  {
    [("Query", OfString(cli.query)), ("Manifest", OfString(cli.manifest)), ("ReadKeyExit", Bool(cli.readKeyExit))]
  }

  /**
   * A bool is always "provided": after the update command's override,
   * DryMode is the command-line value (false when --dry is absent), even
   * when settings.json stored true.
   */
  lemma DryModeFollowsCommandLine(c: ConfigValues, cli: UpdateCli)
    ensures Override(c, UpdateCliProperties(cli)).values.dryMode == cli.dryMode
  {
    var props := UpdateCliProperties(cli);
    OverrideFieldwise(c, props, DryModeProperty);
    assert props[..3][..2][..1][..0] == [];
  }

  /** An empty string on the command line keeps the stored value; a non-empty one replaces it. */
  lemma UpdateOverridesStrings(c: ConfigValues, cli: UpdateCli)
    ensures var r := Override(c, UpdateCliProperties(cli)).values;
      && r.modsFolder == (if cli.modsFolder.Some? && cli.modsFolder.value != "" then cli.modsFolder else c.modsFolder)
      && r.token == (if cli.token.Some? && cli.token.value != "" then cli.token else c.token)
      && r.resoniteModLoaderSource == c.resoniteModLoaderSource
      && r.manifest == c.manifest
  {
    UpdateOverridesGiven(c, cli);
    UpdateKeepsUnnamed(c, cli);
  }

  /** ModsFolder and Token take the command's value when it is a non-empty string. */
  lemma UpdateOverridesGiven(c: ConfigValues, cli: UpdateCli)
    ensures Override(c, UpdateCliProperties(cli)).values.modsFolder ==
      (if cli.modsFolder.Some? && cli.modsFolder.value != "" then cli.modsFolder else c.modsFolder)
    ensures Override(c, UpdateCliProperties(cli)).values.token ==
      (if cli.token.Some? && cli.token.value != "" then cli.token else c.token)
  {
    var props := UpdateCliProperties(cli);
    OverrideFieldwise(c, props, "ModsFolder");
    ProvidedForAt(props, 0);
    OverrideFieldwise(c, props, "Token");
    ProvidedForAt(props, 1);
  }

  /** The two string properties the update command has no option for keep their values. */
  lemma UpdateKeepsUnnamed(c: ConfigValues, cli: UpdateCli)
    ensures Override(c, UpdateCliProperties(cli)).values.resoniteModLoaderSource == c.resoniteModLoaderSource
    ensures Override(c, UpdateCliProperties(cli)).values.manifest == c.manifest
  {
    var props := UpdateCliProperties(cli);
    OverrideFieldwise(c, props, "ResoniteModLoaderSource");
    ProvidedForAbsent(props, "ResoniteModLoaderSource");
    OverrideFieldwise(c, props, "Manifest");
    ProvidedForAbsent(props, "Manifest");
  }

  /** The search command can only change Manifest. */
  lemma SearchOverridesManifestOnly(c: ConfigValues, cli: SearchCli)
    ensures var r := Override(c, SearchCliProperties(cli)).values;
      r == c.(manifest := if cli.manifest.Some? && cli.manifest.value != "" then cli.manifest else c.manifest)
  {
    var props := SearchCliProperties(cli);
    assert props[..2][..1][..0] == [];
    var r := Override(c, props).values;
    var expected := c.(manifest := if cli.manifest.Some? && cli.manifest.value != "" then cli.manifest else c.manifest);
    forall name | name in ConfigPropertyNames
      ensures GetValue(r, name) == GetValue(expected, name)
    {
      OverrideFieldwise(c, props, name);
      if name == "Manifest" {
        ProvidedForAt(props, 1);
      } else {
        ProvidedForAbsent(props, name);
      }
    }
    SameValuesSameConfig(r, expected);
  }

  /** Whatever the stored and the given tokens are, no log line shows either of them. */
  lemma TokenIsMaskedInLog(c: ConfigValues, cli: CliProperties)
    requires WellTyped(cli) && DistinctNames(cli)
    ensures forall line :: line in Override(c, cli).log && StartsWith(line, "Token ") ==>
      line == MaskedNewTokenLine || line == MaskedChangedTokenLine
  {
    OverrideLogsChanges(c, cli);
    ChangesAreKnown(c, cli);
    var changes := Changes(c, cli);
    var log := Override(c, cli).log;
    forall line | line in log && StartsWith(line, "Token ")
      ensures line == MaskedNewTokenLine || line == MaskedChangedTokenLine
    {
      var k :| 0 <= k < |log| && log[k] == line;
      LinesAt(c, changes, k);
      TokenLineMasked(changes[k].0, GetValue(c, changes[k].0), changes[k].1);
    }
  }

  /** A log line that starts with "Token " is one of the two masked forms. */
  lemma TokenLineMasked(name: string, oldValue: Value, newValue: Value)
    requires name in ConfigPropertyNames
    ensures var line := MaskedChangeLine(name, oldValue, newValue);
      StartsWith(line, "Token ") ==> line == MaskedNewTokenLine || line == MaskedChangedTokenLine
  {
    var line := MaskedChangeLine(name, oldValue, newValue);
    if name == TokenProperty {
      MaskedTokenLineRevealsNothing(oldValue, newValue, oldValue, newValue);
    } else {
      LineStartsWithName(name, oldValue, newValue);
      assert line[0] == name[0];
    }
  }

  /** Every log line begins with the property's name. */
  lemma LineStartsWithName(name: string, oldValue: Value, newValue: Value)
    ensures StartsWith(MaskedChangeLine(name, oldValue, newValue), name)
  {
    var line := MaskedChangeLine(name, oldValue, newValue);
    assert line[..|name|] == name;
  }
}
