/**
 * UpdateCommand: list the mods folder, then for every module in path order
 * pick a status without the network (no link, ignored) or through one of
 * the two update strategies, and append one row per module to the table.
 */
module UpdateCommand {
  import opened Common
  import opened Uris
  import opened Assembly
  import opened LinkScan
  import opened FileStore
  import opened Sync
  import opened Release
  import opened Settings

  /** The outside world of one run: the API, the tag feeds, the artifact downloads and the hash. */
  datatype Env = Env(api: ApiServer, feeds: FeedServer, downloads: DownloadServer, hash: Hasher)

  // ---------------------------------------------------------------------
  // UpdateMod: strategy selection

  /** The authenticated API is used exactly when the token is neither null nor empty. */
  predicate HasToken(config: ConfigValues) {
    config.token.Some? && config.token.value != ""
  }

  function UpdateModSpec(files: map<string, Bytes>, readOnly: set<string>, dllFile: string, urlValue: string,
                         config: ConfigValues, env: Env): Resolved
  {
    if HasToken(config) then
      DownloadSpec(files, readOnly, dllFile, urlValue, config.dryMode, config.token, env.api, env.downloads, env.hash)
    else
      var s := FeedSpec(files, readOnly, dllFile, urlValue, config.dryMode, env.feeds, env.downloads, env.hash);
      Resolved(Done(s.outcome), s.files)
  }

  method UpdateMod(fs: FileSystem, dllFile: string, urlValue: string, config: ConfigValues, env: Env) returns (reply: Reply)
    modifies fs`files
    ensures Resolved(reply, fs.files) == UpdateModSpec(old(fs.files), fs.readOnly, dllFile, urlValue, config, env)
  {
    if HasToken(config) {
      reply := Download(fs, dllFile, urlValue, config.dryMode, config.token, env.api, env.downloads, env.hash);
    } else {
      var outcome := DownloadFromRss(fs, dllFile, urlValue, config.dryMode, env.feeds, env.downloads, env.hash);
      reply := Done(outcome);
    }
  }

  /** With a token the tag feeds are never read; without one the API is never asked. */
  lemma StrategySelection(files: map<string, Bytes>, readOnly: set<string>, dllFile: string, urlValue: string,
                          config: ConfigValues, env: Env, other: Env)
    requires env.downloads == other.downloads && env.hash == other.hash
    ensures HasToken(config) && env.api == other.api ==>
      UpdateModSpec(files, readOnly, dllFile, urlValue, config, env) == UpdateModSpec(files, readOnly, dllFile, urlValue, config, other)
    ensures !HasToken(config) && env.feeds == other.feeds ==>
      UpdateModSpec(files, readOnly, dllFile, urlValue, config, env) == UpdateModSpec(files, readOnly, dllFile, urlValue, config, other)
    ensures !HasToken(config) ==> UpdateModSpec(files, readOnly, dllFile, urlValue, config, env).reply.Done?
  {
  }

  // ---------------------------------------------------------------------
  // AddStatusToTable: the status mapping

  const UpdateSymbol := "+"
  const NoChangeSymbol := "-"
  const IssueSymbol := "/"

  /** The symbol and the status text for a status code. */
  function StatusCell(status: int, dryMode: bool): (string, string) {
    if status == StatusUpdated then (UpdateSymbol, if dryMode then "[green]Update Available[/]" else "[green]Updated[/]")
    else if status == StatusUpToDate then (NoChangeSymbol, "[dim]Up To Date[/]")
    else if status == StatusNoLink then (IssueSymbol, "[red]No Link variable found[/]")
    else if status == StatusInvalidLink then (IssueSymbol, "[red]Invalid Link variable, no releases found[/]")
    else if status == StatusIgnored then (NoChangeSymbol, "[dim]Ignored[/]")
    else (IssueSymbol, "[red]Something went Wrong[/]")
  }

  /** One table row: symbol, file name, status text and release link. */
  datatype Row = Row(symbol: string, fileName: string, statusText: string, link: string)

  /** A nullable string as interpolation prints it. */
  function Printed(s: Option<string>): string {
    if s.Some? then s.value else ""
  }

  function StatusRow(status: int, dllFile: string, releaseUrl: Option<string>, dryMode: bool): Row {
    var (symbol, statusText) := StatusCell(status, dryMode);
    Row("[orange1]" + symbol + "[/]", FileName(dllFile), statusText, "[link=" + Printed(releaseUrl) + "]" + Printed(releaseUrl) + "[/]")
  }

  /** The classes of status codes the table tells apart. */
  datatype StatusClass = UpdatedClass | UpToDateClass | NoLinkClass | InvalidLinkClass | IgnoredClass | ErrorClass

  function ClassOf(status: int): StatusClass {
    if status == 0 then UpdatedClass
    else if status == 1 then UpToDateClass
    else if status == 2 then NoLinkClass
    else if status == 3 then InvalidLinkClass
    else if status == 4 then IgnoredClass
    else ErrorClass
  }

  /**
   * The status text tells the classes apart: two codes get the same text
   * exactly when they fall in the same class (every code other than 0 to 4
   * is "Something went Wrong").
   */
  lemma StatusTextSeparatesClasses(a: int, b: int, dryMode: bool)
    ensures StatusCell(a, dryMode).1 == StatusCell(b, dryMode).1 <==> ClassOf(a) == ClassOf(b)
  {
    // The seven texts have seven different lengths (26, 17, 18, 30, 48, 15 and 28).
  }

  /** The symbol: "+" exactly for status 0, "-" exactly for 1 and 4, "/" for everything else. */
  lemma StatusSymbols(status: int, dryMode: bool)
    ensures StatusCell(status, dryMode).0 == UpdateSymbol <==> status == StatusUpdated
    ensures StatusCell(status, dryMode).0 == NoChangeSymbol <==> status == StatusUpToDate || status == StatusIgnored
    ensures StatusCell(status, dryMode).0 == IssueSymbol <==> status !in {StatusUpdated, StatusUpToDate, StatusIgnored}
  {
  }

  /** Only status 0 depends on the dry run: "Update Available" instead of "Updated". */
  lemma DryModeOnlyRewordsUpdates(status: int)
    ensures StatusCell(status, true) != StatusCell(status, false) <==> status == StatusUpdated
  {
  }

  /** Table rows are appended, never edited. */
  class Table {
    var rows: seq<Row>

    constructor ()
      ensures rows == []
    {
      rows := [];
    }

    method AddRow(row: Row)
      modifies this
      ensures rows == old(rows) + [row]
    {
      rows := rows + [row];
    }
  }

  method AddStatusToTable(table: Table, status: int, dllFile: string, releaseUrl: Option<string>, dryMode: bool)
    modifies table
    ensures table.rows == old(table.rows) + [StatusRow(status, dllFile, releaseUrl, dryMode)]
  {
    var (symbol, statusText) := StatusCell(status, dryMode);
    table.AddRow(Row("[orange1]" + symbol + "[/]", FileName(dllFile), statusText,
                     "[link=" + Printed(releaseUrl) + "]" + Printed(releaseUrl) + "[/]"));
  }

  // ---------------------------------------------------------------------
  // DisplayModUpdateStatus

  /** The body of the foreach for one module: no link, ignored, or one of the strategies. */
  function StepSpec(files: map<string, Bytes>, readOnly: set<string>, dllFile: string, urlValue: Option<string>,
                    config: ConfigValues, env: Env): Resolved
  {
    match urlValue
    case None => Resolved(Done(Outcome(StatusNoLink, None)), files)
    case Some(u) =>
      if u == IgnoreMarker then Resolved(Done(Outcome(StatusIgnored, None)), files)
      else UpdateModSpec(files, readOnly, dllFile, u, config, env)
  }

  /** What the loop body does for one module, given the file system before it. */
  type Stepper = (map<string, Bytes>, string, Option<string>) -> Resolved

  function StepOf(readOnly: set<string>, config: ConfigValues, env: Env): Stepper {
    (files: map<string, Bytes>, dllFile: string, urlValue: Option<string>) => StepSpec(files, readOnly, dllFile, urlValue, config, env)
  }

  /** The rows so far, the file system, and the exception that escaped the loop, if any. */
  datatype Progress = Progress(rows: seq<Row>, files: map<string, Bytes>, fatal: Option<string>)

  /** The loop over a prefix of the dictionary, from the end. */
  function DisplaySpec(files: map<string, Bytes>, urls: seq<UrlEntry>, dryMode: bool, step: Stepper): Progress {
    if urls == [] then Progress([], files, None)
    else
      var p := DisplaySpec(files, urls[..|urls| - 1], dryMode, step);
      if p.fatal.Some? then p
      else
        var entry := urls[|urls| - 1];
        var r := step(p.files, entry.0, entry.1);
        match r.reply
        case Fatal(m) => Progress(p.rows, r.files, Some(m))
        case Done(o) => Progress(p.rows + [StatusRow(o.status, entry.0, o.releaseUrl, dryMode)], r.files, None)
  }

  method DisplayModUpdateStatus(fs: FileSystem, urls: seq<UrlEntry>, config: ConfigValues, env: Env)
    returns (table: Table, fatal: Option<string>)
    modifies fs`files
    ensures fresh(table)
    ensures Progress(table.rows, fs.files, fatal) == DisplaySpec(old(fs.files), urls, config.dryMode, StepOf(fs.readOnly, config, env))
  {
    var step := StepOf(fs.readOnly, config, env);
    table := new Table();
    var i := 0;
    while i < |urls|
      invariant 0 <= i <= |urls|
      invariant DisplaySpec(old(fs.files), urls[..i], config.dryMode, step) == Progress(table.rows, fs.files, None)
    {
      var dllFile, urlValue := urls[i].0, urls[i].1;
      assert urls[..i + 1][..i] == urls[..i] && urls[..i + 1][i] == (dllFile, urlValue);
      ghost var before := fs.files;
      var status: int;
      var releaseUrl: Option<string> := None;
      if urlValue.None? {
        status := StatusNoLink;
      } else if urlValue.value == IgnoreMarker {
        status := StatusIgnored;
      } else {
        var reply := UpdateMod(fs, dllFile, urlValue.value, config, env);
        StepUpdates(before, fs.readOnly, dllFile, urlValue.value, config, env);
        assert step(before, dllFile, urlValue) == Resolved(reply, fs.files);
        if reply.Fatal? {
          FatalStops(old(fs.files), urls, config.dryMode, step, i + 1);
          return table, Some(reply.message);
        }
        status, releaseUrl := reply.outcome.status, reply.outcome.releaseUrl;
      }
      assert step(before, dllFile, urlValue) == Resolved(Done(Outcome(status, releaseUrl)), fs.files);
      AddStatusToTable(table, status, dllFile, releaseUrl, config.dryMode);
      i := i + 1;
    }
    assert urls[..i] == urls;
    fatal := None;
  }

  /** A module with a link other than the ignore marker goes through UpdateMod. */
  lemma StepUpdates(files: map<string, Bytes>, readOnly: set<string>, dllFile: string, urlValue: string,
                    config: ConfigValues, env: Env)
    requires urlValue != IgnoreMarker
    ensures StepOf(readOnly, config, env)(files, dllFile, Some(urlValue)) == UpdateModSpec(files, readOnly, dllFile, urlValue, config, env)
  {
  }

  /** Once an exception has escaped, later modules are not visited. */
  lemma {:induction false} FatalStops(files: map<string, Bytes>, urls: seq<UrlEntry>, dryMode: bool, step: Stepper, i: nat)
    requires i <= |urls| && DisplaySpec(files, urls[..i], dryMode, step).fatal.Some?
    ensures DisplaySpec(files, urls, dryMode, step) == DisplaySpec(files, urls[..i], dryMode, step)
    decreases |urls| - i
  {
    if i < |urls| {
      assert urls[..i + 1][..i] == urls[..i];
      FatalStops(files, urls, dryMode, step, i + 1);
    } else {
      assert urls[..i] == urls;
    }
  }

  // ---------------------------------------------------------------------
  // Properties of the loop

  /**
   * Without an escaping exception there is exactly one row per module, in
   * dictionary order, naming the module's file; with one, fewer rows.
   */
  lemma {:induction false} OneRowPerModule(files: map<string, Bytes>, urls: seq<UrlEntry>, dryMode: bool, step: Stepper)
    ensures var p := DisplaySpec(files, urls, dryMode, step);
      && (p.fatal.None? ==> |p.rows| == |urls|)
      && (p.fatal.Some? ==> |p.rows| < |urls|)
      && forall k :: 0 <= k < |p.rows| ==> p.rows[k].fileName == FileName(urls[k].0)
  {
    RowCount(files, urls, dryMode, step);
    RowNames(files, urls, dryMode, step);
  }

  /** The row of a module names the module's file. */
  lemma StatusRowNamesFile(status: int, dllFile: string, releaseUrl: Option<string>, dryMode: bool)
    ensures StatusRow(status, dllFile, releaseUrl, dryMode).fileName == FileName(dllFile)
  {
  }

  lemma {:induction false} RowCount(files: map<string, Bytes>, urls: seq<UrlEntry>, dryMode: bool, step: Stepper)
    ensures var p := DisplaySpec(files, urls, dryMode, step);
      && (p.fatal.None? ==> |p.rows| == |urls|)
      && (p.fatal.Some? ==> |p.rows| < |urls|)
  {
    if urls != [] {
      RowCount(files, urls[..|urls| - 1], dryMode, step);
    }
  }

  lemma {:induction false} RowNames(files: map<string, Bytes>, urls: seq<UrlEntry>, dryMode: bool, step: Stepper)
    ensures var p := DisplaySpec(files, urls, dryMode, step);
      && |p.rows| <= |urls|
      && forall k :: 0 <= k < |p.rows| ==> p.rows[k].fileName == FileName(urls[k].0)
  {
    if urls != [] {
      var init := urls[..|urls| - 1];
      var last := urls[|urls| - 1];
      RowNames(files, init, dryMode, step);
      RowCount(files, init, dryMode, step);
      var p0 := DisplaySpec(files, init, dryMode, step);
      var p := DisplaySpec(files, urls, dryMode, step);
      if p0.fatal.None? {
        var r := step(p0.files, last.0, last.1);
        if r.reply.Done? {
          var row := StatusRow(r.reply.outcome.status, last.0, r.reply.outcome.releaseUrl, dryMode);
          assert p.rows == p0.rows + [row];
          StatusRowNamesFile(r.reply.outcome.status, last.0, r.reply.outcome.releaseUrl, dryMode);
          forall k | 0 <= k < |p.rows|
            ensures p.rows[k].fileName == FileName(urls[k].0)
          {
            if k < |p0.rows| {
              assert p.rows[k] == p0.rows[k] && urls[k] == init[k];
            } else {
              assert p.rows[k] == row && urls[k] == last;
            }
          }
        } else {
          assert p.rows == p0.rows;
          assert forall k :: 0 <= k < |init| ==> init[k] == urls[k];
        }
      } else {
        assert p == p0;
        assert forall k :: 0 <= k < |init| ==> init[k] == urls[k];
      }
    }
  }

  /** Each row shows the status its module's step reported, on the files the earlier modules left. */
  lemma {:induction false} RowsShowStatuses(files: map<string, Bytes>, urls: seq<UrlEntry>, dryMode: bool, step: Stepper)
    requires DisplaySpec(files, urls, dryMode, step).fatal.None?
    ensures var p := DisplaySpec(files, urls, dryMode, step);
      && |p.rows| == |urls|
      && forall k :: 0 <= k < |urls| ==>
        var r := step(DisplaySpec(files, urls[..k], dryMode, step).files, urls[k].0, urls[k].1);
        && r.reply.Done?
        && p.rows[k] == StatusRow(r.reply.outcome.status, urls[k].0, r.reply.outcome.releaseUrl, dryMode)
  {
    if urls != [] {
      var init := urls[..|urls| - 1];
      var last := urls[|urls| - 1];
      var p0 := DisplaySpec(files, init, dryMode, step);
      assert p0.fatal.None?;
      RowsShowStatuses(files, init, dryMode, step);
      var r := step(p0.files, last.0, last.1);
      assert r.reply.Done?;
      var p := DisplaySpec(files, urls, dryMode, step);
      assert p.rows == p0.rows + [StatusRow(r.reply.outcome.status, last.0, r.reply.outcome.releaseUrl, dryMode)];
      forall k | 0 <= k < |urls|
        ensures var rk := step(DisplaySpec(files, urls[..k], dryMode, step).files, urls[k].0, urls[k].1);
          && rk.reply.Done?
          && p.rows[k] == StatusRow(rk.reply.outcome.status, urls[k].0, rk.reply.outcome.releaseUrl, dryMode)
      {
        if k < |init| {
          assert init[k] == urls[k] && init[..k] == urls[..k];
          assert p.rows[k] == p0.rows[k];
        } else {
          assert urls[..k] == init;
        }
      }
    }
  }

  /** A module without a link is "No Link variable found" and an ignored one "Ignored", whatever the network does. */
  lemma NoNetworkStatuses(files: map<string, Bytes>, readOnly: set<string>, dllFile: string,
                          config: ConfigValues, env: Env)
    ensures StepSpec(files, readOnly, dllFile, None, config, env) == Resolved(Done(Outcome(StatusNoLink, None)), files)
    ensures StepSpec(files, readOnly, dllFile, Some(IgnoreMarker), config, env) == Resolved(Done(Outcome(StatusIgnored, None)), files)
    ensures StatusCell(StatusNoLink, config.dryMode) == (IssueSymbol, "[red]No Link variable found[/]")
    ensures StatusCell(StatusIgnored, config.dryMode) == (NoChangeSymbol, "[dim]Ignored[/]")
  {
  }

  /**
   * The filter counts the pieces of the parsed URI's text, but both update
   * paths index the raw link: an accepted link whose raw Split('/') has
   * fewer than five pieces makes Download throw out of range (a fatal
   * reply) and DownloadFromRSS catch it as (-1, null), with no file changed.
   */
  lemma ShortRawLinkFails(parse: UriParser, u: string, files: map<string, Bytes>, readOnly: set<string>, dllFile: string,
                          config: ConfigValues, env: Env)
    requires IsAcceptedLink(parse, u) && |Split(u, '/')| < 5
    ensures HasToken(config) ==>
      UpdateModSpec(files, readOnly, dllFile, u, config, env) == Resolved(Fatal(IndexOutOfRangeMessage), files)
    ensures !HasToken(config) ==>
      UpdateModSpec(files, readOnly, dllFile, u, config, env) == Resolved(Done(Outcome(StatusFailed, None)), files)
  {
  }

  /** A single module's step never changes a file in a dry run. */
  lemma StepDryRun(files: map<string, Bytes>, readOnly: set<string>, dllFile: string, urlValue: Option<string>,
                   config: ConfigValues, env: Env)
    requires config.dryMode
    ensures StepSpec(files, readOnly, dllFile, urlValue, config, env).files == files
  {
    if urlValue.Some? && urlValue.value != IgnoreMarker {
      DownloadDryRunWritesNothing(files, readOnly, dllFile, urlValue.value, config.token, env.api, env.downloads, env.hash);
      FeedDryRunWritesNothing(files, readOnly, dllFile, urlValue.value, env.feeds, env.downloads, env.hash);
    }
  }

  /** A loop whose every step leaves the files alone leaves the files alone. */
  lemma {:induction false} StepsKeepFiles(files: map<string, Bytes>, urls: seq<UrlEntry>, dryMode: bool, step: Stepper)
    requires forall f, d, u :: step(f, d, u).files == f
    ensures DisplaySpec(files, urls, dryMode, step).files == files
  {
    if urls != [] {
      StepsKeepFiles(files, urls[..|urls| - 1], dryMode, step);
    }
  }

  /** A dry run over the whole folder leaves every file as it was. */
  lemma DryRunChangesNoFile(files: map<string, Bytes>, readOnly: set<string>, urls: seq<UrlEntry>,
                            config: ConfigValues, env: Env)
    requires config.dryMode
    ensures DisplaySpec(files, urls, config.dryMode, StepOf(readOnly, config, env)).files == files
  {
    var step := StepOf(readOnly, config, env);
    forall f, d, u ensures step(f, d, u).files == f {
      StepDryRun(f, readOnly, d, u, config, env);
    }
    StepsKeepFiles(files, urls, config.dryMode, step);
  }

  /** Only the files of listed modules can change. */
  lemma {:induction false} OnlyListedFilesChange(files: map<string, Bytes>, urls: seq<UrlEntry>, dryMode: bool, step: Stepper, path: string)
    requires forall f, d, u :: path != d && path in f ==> path in step(f, d, u).files && step(f, d, u).files[path] == f[path]
    requires forall k :: 0 <= k < |urls| ==> urls[k].0 != path
    requires path in files
    ensures var after := DisplaySpec(files, urls, dryMode, step).files;
      path in after && after[path] == files[path]
  {
    if urls != [] {
      var init := urls[..|urls| - 1];
      assert forall k :: 0 <= k < |init| ==> init[k] == urls[k];
      OnlyListedFilesChange(files, init, dryMode, step, path);
    }
  }

  /** In a real run, a file no listed module stands for is never touched. */
  lemma UnlistedFilesKept(files: map<string, Bytes>, readOnly: set<string>, urls: seq<UrlEntry>,
                          config: ConfigValues, env: Env, path: string)
    requires forall k :: 0 <= k < |urls| ==> urls[k].0 != path
    requires path in files
    ensures var after := DisplaySpec(files, urls, config.dryMode, StepOf(readOnly, config, env)).files;
      path in after && after[path] == files[path]
  {
    var step := StepOf(readOnly, config, env);
    forall f, d, u | path != d && path in f ensures path in step(f, d, u).files && step(f, d, u).files[path] == f[path] {
      StepKeepsOtherFiles(f, readOnly, d, u, config, env, path);
    }
    OnlyListedFilesChange(files, urls, config.dryMode, step, path);
  }

  lemma StepKeepsOtherFiles(files: map<string, Bytes>, readOnly: set<string>, dllFile: string, urlValue: Option<string>,
                            config: ConfigValues, env: Env, path: string)
    requires path != dllFile && path in files
    ensures var after := StepSpec(files, readOnly, dllFile, urlValue, config, env).files;
      path in after && after[path] == files[path]
  {
    if urlValue.Some? && urlValue.value != IgnoreMarker {
      var u := urlValue.value;
      if HasToken(config) {
        var parts := Split(u, '/');
        if |parts| >= 5 {
          match LookupFrom(env.api, ApiUrl(parts[3], parts[4]), config.token, FileName(dllFile), 0)
          case AssetFound(downloadUrl) =>
            WritesWholeArtifactOrNothing(files, readOnly, dllFile, downloadUrl, config.dryMode, env.downloads, env.hash);
          case NoRelease =>
          case Abort(_) =>
        }
      } else {
        match PlanFromFeed(u, FileName(dllFile), env.feeds)
        case Fetch(downloadUrl) =>
          WritesWholeArtifactOrNothing(files, readOnly, dllFile, downloadUrl, config.dryMode, env.downloads, env.hash);
        case NoTag =>
        case Broken =>
      }
    }
  }

  // ---------------------------------------------------------------------
  // ExecuteAsync

  /** Directory.GetFiles(folder, "*.dll") with each file's module read: None when listing throws. */
  type FolderReader = string -> Option<seq<ModFile>>

  /** How a run ends: an exit code, or an exception escaping ExecuteAsync; with the rows shown and the files left. */
  datatype Run = Exit(code: int, rows: seq<Row>, files: map<string, Bytes>) | Crashed(message: string, rows: seq<Row>, files: map<string, Bytes>)

  /** The mods folder is usable only when it is neither null nor empty. */
  predicate HasModsFolder(config: ConfigValues) {
    config.modsFolder.Some? && config.modsFolder.value != ""
  }

  /**
   * ExecuteAsync from the settings that LoadAndOverrideSettingsAsync
   * returned: four early exits with code 1, then the update loop.
   */
  function RunSpec(interactive: bool, config: ConfigValues, readFolder: FolderReader, parse: UriParser,
                   files: map<string, Bytes>, readOnly: set<string>, env: Env): Run
  {
    if !interactive then Exit(1, [], files)
    else if !HasModsFolder(config) then Exit(1, [], files)
    else
      match readFolder(config.modsFolder.value)
      case None => Exit(1, [], files)
      case Some(dllFiles) =>
        var urls := SortByPath(Collected(parse, dllFiles));
        if urls == [] then Exit(1, [], files)
        else
          var p := DisplaySpec(files, urls, config.dryMode, StepOf(readOnly, config, env));
          if p.fatal.Some? then Crashed(p.fatal.value, p.rows, p.files) else Exit(0, p.rows, p.files)
  }

  method ExecuteAsync(fs: FileSystem, interactive: bool, config: ConfigValues, readFolder: FolderReader,
                      parse: UriParser, env: Env) returns (run: Run)
    modifies fs`files
    ensures run == RunSpec(interactive, config, readFolder, parse, old(fs.files), fs.readOnly, env)
  {
    if !interactive {
      return Exit(1, [], fs.files);
    }
    if !HasModsFolder(config) {
      return Exit(1, [], fs.files);
    }
    var dllFiles := readFolder(config.modsFolder.value);
    if dllFiles.None? {
      return Exit(1, [], fs.files);
    }
    var urls := GetFiles(parse, dllFiles.value);
    if urls == [] {
      return Exit(1, [], fs.files);
    }
    var table, fatal := DisplayModUpdateStatus(fs, urls, config, env);
    if fatal.Some? {
      return Crashed(fatal.value, table.rows, fs.files);
    }
    return Exit(0, table.rows, fs.files);
  }

  /**
   * The early exits return 1 before any module is looked at: no row, no
   * file changed, whatever the network does.
   */
  lemma EarlyExits(interactive: bool, config: ConfigValues, readFolder: FolderReader, parse: UriParser,
                   files: map<string, Bytes>, readOnly: set<string>, env: Env)
    requires !interactive || !HasModsFolder(config) || readFolder(config.modsFolder.value).None? ||
             Collected(parse, readFolder(config.modsFolder.value).value) == []
    ensures RunSpec(interactive, config, readFolder, parse, files, readOnly, env) == Exit(1, [], files)
  {
  }

  /** A run that gets past the early exits is the update loop over the sorted dictionary. */
  lemma RunReachesLoop(interactive: bool, config: ConfigValues, readFolder: FolderReader, parse: UriParser,
                       files: map<string, Bytes>, readOnly: set<string>, env: Env)
    requires interactive && HasModsFolder(config) && readFolder(config.modsFolder.value).Some?
    requires Collected(parse, readFolder(config.modsFolder.value).value) != []
    ensures var urls := SortByPath(Collected(parse, readFolder(config.modsFolder.value).value));
      var p := DisplaySpec(files, urls, config.dryMode, StepOf(readOnly, config, env));
      RunSpec(interactive, config, readFolder, parse, files, readOnly, env) ==
        if p.fatal.Some? then Crashed(p.fatal.value, p.rows, p.files) else Exit(0, p.rows, p.files)
  {
    var found := Collected(parse, readFolder(config.modsFolder.value).value);
    assert |multiset(SortByPath(found))| == |found| > 0;
  }

  /** A run that reaches the loop exits 0 with one row per module, unless an exception escapes. */
  lemma FullRun(interactive: bool, config: ConfigValues, readFolder: FolderReader, parse: UriParser,
                files: map<string, Bytes>, readOnly: set<string>, env: Env)
    requires interactive && HasModsFolder(config) && readFolder(config.modsFolder.value).Some?
    requires Collected(parse, readFolder(config.modsFolder.value).value) != []
    ensures var run := RunSpec(interactive, config, readFolder, parse, files, readOnly, env);
      var urls := SortByPath(Collected(parse, readFolder(config.modsFolder.value).value));
      && (run.Exit? ==> run.code == 0 && |run.rows| == |urls|)
      && (run.Crashed? ==> |run.rows| < |urls|)
      && (config.dryMode ==> run.files == files)
  {
    var urls := SortByPath(Collected(parse, readFolder(config.modsFolder.value).value));
    var step := StepOf(readOnly, config, env);
    RunReachesLoop(interactive, config, readFolder, parse, files, readOnly, env);
    OneRowPerModule(files, urls, config.dryMode, step);
    if config.dryMode {
      DryRunChangesNoFile(files, readOnly, urls, config, env);
    }
  }
}
