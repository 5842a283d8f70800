# ResoniteModUpdater, modelled in Dafny

ResoniteModUpdater is a command-line tool that keeps the mods in a Resonite
`rml_mods` folder up to date. The `update` command goes through the folder in
four steps:

1. It reads each assembly's `Link` property and takes the first GitHub
   repository link found in it.
2. It skips modules whose file name starts with `_`.
3. It finds the newest release, either through the GitHub REST API (when a
   token is configured) or through the repository's tag feed.
4. It replaces the local assembly only when the downloaded artifact's hash
   differs.

It then shows one status row per module. The `search` command downloads the
mod manifest, lists every entry whose name or description contains the query
(ignoring case), and links each hit to a release page. Both commands first
merge the command-line options into the saved settings.

The model is split into modules:

| module | file | what it holds |
|---|---|---|
| `Common` | `common.dfy` | `Option`/`Result`; `String.Split` and its inverse `Join`; `RemoveEmptyEntries`; `TrimEnd`; `Path.GetFileName`; ordinal ignore-case matching; the ordering used for sorting |
| `Uris` | `uris.dfy` | the parts of `System.Uri` the tool reads |
| `Assembly`, `LinkScan` | `link_scan.dfy` | `GetFiles`: the Cecil view of an assembly as data, the link filter, the ignore marker and the sort |
| `FileStore`, `Sync` | `sync.dfy` | the files of the mods folder as a class with a `map` field; `DownloadAndValidateDLL` |
| `Release` | `release.dfy` | `Download`: API lookup, 403 retry loop, asset match; `DownloadFromRSS`: feed lookup and URL construction |
| `Settings` | `settings.dfy` | `SettingsConfig` as a class; `OverrideSettings` and `IsValueProvided` over the properties that reflection enumerates |
| `Manifest` | `manifest.dfy` | the manifest records |
| `ManifestSearch` | `manifest_search.dfy` | `SearchManifest` |
| `UpdateCommand` | `update_command.dfy` | `UpdateMod`, `AddStatusToTable`, `DisplayModUpdateStatus`, `ExecuteAsync` of `update` |
| `SearchCommand` | `search_command.dfy` | `GetReleaseUrl`, the results table, `ExecuteAsync` of `search` |

Every outside effect is a parameter of the model:

- `UriParser` stands for `Uri.TryCreate`.
- `Hasher` stands for the MD5 hex digest.
- `ApiServer` answers the API request made on attempt *k*.
- `FeedServer` returns the items of a tag feed, or nothing when loading fails.
- `DownloadServer` returns the bytes at a URL, or nothing when the request fails.
- `FolderReader` lists the folder and reads each module.
- `Deserializer` stands for `JsonConvert.DeserializeObject`.
- `ManifestFetcher` stands for `HttpClient.GetStringAsync`.

An exception that the code catches becomes the status it returns. An
exception that escapes is a `Fatal`, `Err` or `Crashed`/`Failed` value that
carries its message.

The loops are proved against specification functions:

- `GetFiles` is proved against `SortByPath(Collected(…))`.
- `DisplayModUpdateStatus` is proved against `DisplaySpec`.
- `OverrideSettings` is proved against `Override`.
- `SearchManifest` is proved against `Search`.
- `Download`, `DownloadFromRss` and `DownloadAndValidateDll` are proved
  against `DownloadSpec`, `FeedSpec` and `Synchronize`.

The properties are lemmas over those functions.

Behaviour of the code worth noting:

- A release that has no asset named like the module gives status 3 ("Invalid
  Link variable, no releases found"), not "No Link variable found".
- The fourth consecutive 403 throws; three are retried.
- A module whose assembly cannot be read is left out of the dictionary (only
  a console line reports it).
- The link filter counts the pieces of `uri.ToString()`. Owner and repository
  come from the raw string's pieces 3 and 4. Links to a blob page of a
  repository pass the filter.
- The artifact replaces the file with one `File.WriteAllBytes`: no temporary
  file and no rename. That call truncates the file before writing it.
- Hashes are MD5.
- A bool on the command line always counts as provided. After `update`,
  `DryMode` is always the command-line value.

## Model

| member | source | states |
|---|---|---|
| LinkScan.StringOperands | ResoniteModUpdater/utils.cs:82-84 | every `ldstr` operand of the getter body is a candidate and nothing else is (set membership; instruction order is stated by FirstAcceptedInInstructionOrder) |
| LinkScan.FirstAccepted | ResoniteModUpdater/utils.cs:85-88 | the link is the first candidate that parses as an absolute http(s) URI on a host ending in github.com with more than four pieces after trimming '/'; none exactly when no candidate passes |
| LinkScan.ModProperties | ResoniteModUpdater/utils.cs:76-78 | the properties searched are exactly those of types whose base type is named ResoniteMod (set membership; the order is stated by FirstModPropertyInOrder) |
| LinkScan.IsAcceptedLink | ResoniteModUpdater/utils.cs:85-88 | the link filter as a predicate (no contract of its own): TryCreate succeeds, the scheme is http or https, the host ends with github.com and the trimmed text has more than four pieces |
| LinkScan.FirstAcceptedInInstructionOrder | ResoniteModUpdater/utils.cs:82-88 | the link taken from a getter is null exactly when no `ldstr` operand passes the filter, and otherwise the operand of the first passing `ldstr` in instruction order |
| LinkScan.FirstAcceptedSomeInOrder | ResoniteModUpdater/utils.cs:82-88 | a non-null link is the operand of an `ldstr` that passes the filter with no passing `ldstr` before it |
| LinkScan.FindPropertyAppend | ResoniteModUpdater/utils.cs:77-79 | FirstOrDefault by name over SelectMany looks at a later type only when no earlier one has the name |
| LinkScan.FirstModPropertyInOrder | ResoniteModUpdater/utils.cs:76-79 | the Link property read is null exactly when no ResoniteMod type has a property of that name, and otherwise the first one in type order and then property order |
| LinkScan.FirstModPropertySomeInOrder | ResoniteModUpdater/utils.cs:76-79 | a found property is the first named one of the first ResoniteMod type that has one |
| LinkScan.ScanModule | ResoniteModUpdater/utils.cs:73-97 | the body of the foreach for one file, as a function (no contract of its own; EntryExactlyWithLinkGetter, RecordedLinkIsFirstAcceptedLdstr, IgnoreMarkerWins and UnreadableDropped state it) |
| LinkScan.FindProperty | ResoniteModUpdater/utils.cs:79 | the first property named Link, none exactly when there is none |
| LinkScan.SortByPath | ResoniteModUpdater/utils.cs:99 | the dictionary is ordered by path and is a permutation of the unsorted one |
| LinkScan.GetFiles | ResoniteModUpdater/utils.cs:67-101 | the loop builds the collected dictionary and returns it sorted by path, a permutation of what was collected |
| LinkScan.CollectedMeans | ResoniteModUpdater/utils.cs:71-93 | a (path, link) pair is in the dictionary exactly when some listed file has that path and its module scan yields that link |
| LinkScan.CollectedPathsDistinct | ResoniteModUpdater/utils.cs:71-93 | the collected dictionary never holds the same path twice |
| LinkScan.PathsDistinctAfterSort | ResoniteModUpdater/utils.cs:90-99 | distinct file paths stay distinct keys after sorting |
| LinkScan.IgnoreMarkerWins | ResoniteModUpdater/utils.cs:89 | a file whose name starts with "_" is recorded with the link "_", whatever its getter holds |
| LinkScan.UnreadableDropped | ResoniteModUpdater/utils.cs:94-97 | an assembly that cannot be read adds no entry |
| LinkScan.EntryExactlyWithLinkGetter | ResoniteModUpdater/utils.cs:76-90 | an entry is recorded exactly when the assembly is readable and the first Link property of its ResoniteMod types has a getter with a body |
| LinkScan.RecordedLinkIsFirstAcceptedLdstr | ResoniteModUpdater/utils.cs:76-90 | without the ignore marker, the recorded value comes from the getter of the first Link property in type-then-property order, and is null exactly when none of its `ldstr` operands passes the filter, otherwise the first one that does |
| LinkScan.AcceptedLinkHasOwnerAndRepo | ResoniteModUpdater/utils.cs:88-111 | an accepted link whose text is its own ToString has pieces 3 and 4 for owner and repository |
| UpdateCommand.ShortRawLinkFails | ResoniteModUpdater/utils.cs:88-151 | an accepted link whose raw Split('/') has fewer than five pieces makes Download throw out of range and DownloadFromRSS return (-1, null), with no file changed |
| FileStore.FileSystem.ReadAllBytes | ResoniteModUpdater/utils.cs:173 | reads the stored bytes, none when the file is missing |
| FileStore.FileSystem.WriteAllBytes | ResoniteModUpdater/utils.cs:178 | writes the whole content unless the file is read-only, and changes nothing else |
| Sync.DownloadAndValidateDll | ResoniteModUpdater/utils.cs:166-190 | the method's status, link and new files are those of Synchronize |
| Sync.UpdatedExactlyWhenHashesDiffer | ResoniteModUpdater/utils.cs:172-184 | status 0 exactly when both reads succeed, the hashes differ and the write (if any) succeeds, and then the link is the download URL; status 1 exactly when the hashes agree |
| Sync.OverwrittenExactlyWhenUpdated | ResoniteModUpdater/utils.cs:174-184 | the files change exactly when the status is 0 and the run is not dry, and then the module's file holds the downloaded bytes; status 1 carries a null link and changes nothing |
| Sync.FailuresAreCaught | ResoniteModUpdater/utils.cs:170-189 | a failed download, a missing module file or a write that throws gives (-1, null) with no change, and nothing else gives -1 |
| Sync.DryRunWritesNothing | ResoniteModUpdater/utils.cs:178 | in a dry run no file changes |
| Sync.WritesWholeArtifactOrNothing | ResoniteModUpdater/utils.cs:176-189 | the set of files is unchanged, other files keep their bytes, and the module's file is either unchanged or exactly the downloaded artifact (the write is all-or-nothing in this model) |
| Sync.SecondSyncIsUpToDate | ResoniteModUpdater/utils.cs:176-184 | after an update, the same download again reports "Up To Date" and writes nothing |
| Release.FirstAssetNamed | ResoniteModUpdater/utils.cs:118-125 | the asset used is the first whose name is the module's file name; none exactly when no asset has that name |
| Release.Download | ResoniteModUpdater/utils.cs:102-143 | the reply and new files are those of DownloadSpec: a link of fewer than five pieces throws, otherwise the request loop decides and a found asset goes through DownloadAndValidateDLL |
| Release.RequestAsset | ResoniteModUpdater/utils.cs:108-142 | the request loop ends as LookupFrom does from retryCount 0: an asset named like the file, (3, null), or the exception of a fourth 403, a 401 or a failed request |
| Release.DownloadDryRunWritesNothing | ResoniteModUpdater/utils.cs:102-143 | in a dry run Download leaves every file as it was |
| Release.ForbiddenIsRetried | ResoniteModUpdater/utils.cs:127-137 | after k consecutive 403 answers (k at most 3) the lookup goes on as the (k+1)-th attempt |
| Release.ThreeForbiddenThenSuccess | ResoniteModUpdater/utils.cs:113-137 | three 403s then a success behave as that success alone |
| Release.FourthForbiddenIsFatal | ResoniteModUpdater/utils.cs:129-134 | a fourth consecutive 403 throws "Access to the resource is forbidden after multiple attempts." |
| Release.UnauthorizedIsNotRetried | ResoniteModUpdater/utils.cs:138-141 | a 401 throws "Invalid token provided" at once, whatever later attempts would answer |
| Release.OtherFailureIsInvalidLink | ResoniteModUpdater/utils.cs:142 | any other failure status ends the lookup with status 3 |
| Release.DownloadFromRss | ResoniteModUpdater/utils.cs:145-165 | the method's status, link and new files are those of FeedSpec |
| Release.FeedDryRunWritesNothing | ResoniteModUpdater/utils.cs:145-165 | in a dry run DownloadFromRSS leaves every file as it was |
| Release.ReleaseDownloadUrlPieces | ResoniteModUpdater/utils.cs:158 | the built download URL splits back into host, owner, repository, "releases", "download", tag and file name |
| Release.FeedPlanUsesLinkAndTag | ResoniteModUpdater/utils.cs:149-158 | the URL fetched carries the owner and repository of the link and piece 7 of the first feed item's first link as tag |
| Release.EmptyFeedIsInvalidLink | ResoniteModUpdater/utils.cs:154-156 | an empty feed, or a first item without title, gives status 3 and no change |
| Release.FeedFailuresAreCaught | ResoniteModUpdater/utils.cs:147-164 | a link with fewer than five pieces, a feed that fails to load, a titled first entry without links, or a tag link with fewer than eight pieces gives (-1, null) with no change |
| Release.FeedDownloadFailuresAreCaught | ResoniteModUpdater/utils.cs:159-189 | a planned download that fails, or whose module file is missing, gives (-1, null) with no change |
| Release.FeedRoundTrip | ResoniteModUpdater/utils.cs:149-158 | for a repository link whose feed starts with the tag page of tag t, the artifact fetched is releases/download/t/{file name} of that repository |
| Release.TagPageUrlPieces | ResoniteModUpdater/utils.cs:157 | a tag page URL has its tag at piece 7 |
| Settings.WithValue | ResoniteModUpdater/utils.cs:279 | SetValue changes the one named property and no other |
| Settings.SettingsConfig.SetValue | ResoniteModUpdater/utils.cs:279 | the object's new values are WithValue of the old ones |
| Settings.SettingsConfig.constructor | ResoniteModUpdater/utils.cs:18-25 | a new SettingsConfig holds nulls and DryMode false |
| Settings.OverrideSettings | ResoniteModUpdater/utils.cs:263-293 | the loop leaves the object and the log as Override computes them |
| Settings.OverrideFieldwise | ResoniteModUpdater/utils.cs:268-302 | each setting ends as the provided command-line value of that name if there is one, and otherwise keeps its old value |
| Settings.IsValueProvided | ResoniteModUpdater/utils.cs:294-302 | null is not provided, a string is provided when non-empty, anything else always (a predicate with no contract of its own; OverrideFieldwise and DryModeFollowsCommandLine state its effect) |
| Settings.OverrideLogsChanges | ResoniteModUpdater/utils.cs:276-287 | the log has one line per property whose provided value differs from the old one, in property order |
| Settings.ChangesAreKnown | ResoniteModUpdater/utils.cs:270-274 | only properties that SettingsConfig has, and values that count as provided, are logged |
| Settings.OverrideIdempotent | ResoniteModUpdater/utils.cs:263-293 | overriding again with the same options changes nothing and logs nothing |
| Settings.NoChangesAfterOverride | ResoniteModUpdater/utils.cs:277 | after one override, no option differs from the setting it overrode |
| Settings.DryModeFollowsCommandLine | ResoniteModUpdater/utils.cs:294-302 | a bool is always provided, so DryMode becomes the command-line flag |
| Settings.UpdateOverridesStrings | ResoniteModUpdater/utils.cs:268-302 | for `update`, ModsFolder and Token take the option when it is neither null nor empty; the other strings are kept |
| Settings.UpdateOverridesGiven | ResoniteModUpdater/utils.cs:268-302 | for `update`, ModsFolder and Token take the option's value exactly when it is a non-empty string |
| Settings.UpdateKeepsUnnamed | ResoniteModUpdater/utils.cs:268-302 | for `update`, ResoniteModLoaderSource and Manifest keep the configuration's values |
| Settings.SearchOverridesManifestOnly | ResoniteModUpdater/utils.cs:268-302 | for `search`, only Manifest can change, and only to a non-empty option |
| Settings.ChangeLineLeaksOldToken | ResoniteModUpdater/utils.cs:281-287 | the line as written shows the stored token verbatim after "Token [red]" |
| Settings.ChangeLine | ResoniteModUpdater/utils.cs:281-287 | the log line as written, as a function (no contract of its own; ChangeLineLeaksOldToken and MaskedAgreesOffToken state it) |
| Settings.MaskedAgreesOffToken | ResoniteModUpdater/utils.cs:285-287 | for every property but Token, the corrected line is the line as written |
| Settings.MaskedTokenLineRevealsNothing | ResoniteModUpdater/utils.cs:281-287 | the corrected Token line depends only on whether a token was stored |
| Settings.TokenIsMaskedInLog | ResoniteModUpdater/utils.cs:281-287 | every Token line of the corrected log is one of the two masked forms |
| Manifest.TryGetValue | ResoniteModUpdater/Commands/Search.cs:105 | the value found is stored under the key; none exactly when the key is absent |
| Manifest.TryGetValueFinds | ResoniteModUpdater/Commands/Search.cs:105 | with distinct keys, the value stored under a key is the one found |
| ManifestSearch.MaxKey | ResoniteModUpdater/utils.cs:210 | the latest version is a key at least as great as every key; null exactly when there are none |
| ManifestSearch.MaxKeyUnique | ResoniteModUpdater/utils.cs:210 | the maximum key is unique |
| ManifestSearch.SearchManifest | ResoniteModUpdater/utils.cs:196-225 | the nested loops return what Search computes |
| ManifestSearch.NothingToSearch | ResoniteModUpdater/utils.cs:200-202 | empty text, a null manifest or null Objects gives no results |
| ManifestSearch.SearchErrIff | ResoniteModUpdater/utils.cs:203-209 | the search throws exactly when a matching entry belongs to an object with an empty author dictionary |
| ManifestSearch.EntryResultsAreHits | ResoniteModUpdater/utils.cs:205-221 | within an object: one result per matching entry, each built from a matching entry with its id, the first author's name and URL and the maximum version, and every matching entry among them |
| ManifestSearch.EntryResultsCount | ResoniteModUpdater/utils.cs:205-221 | with an author, an object gives no exception and one result per matching entry |
| ManifestSearch.EntryResultsSound | ResoniteModUpdater/utils.cs:205-221 | each result of an object is built from one of its matching entries |
| ManifestSearch.EntryResultsComplete | ResoniteModUpdater/utils.cs:205-221 | each matching entry of an object gives a result |
| ManifestSearch.EntryResultsInOrder | ResoniteModUpdater/utils.cs:205-221 | within an object, the results of any two matching entries appear in the order of the entries |
| ManifestSearch.OrderStepHit | ResoniteModUpdater/utils.cs:207-220 | a matching entry's result is added after the results of all earlier entries |
| ManifestSearch.OrderStepMiss | ResoniteModUpdater/utils.cs:207-208 | an entry that does not match leaves the order of earlier results as it was |
| ManifestSearch.ObjectStep | ResoniteModUpdater/utils.cs:203-222 | the results over all objects are the results of the earlier objects followed by those of the last one, in object order |
| ManifestSearch.SearchEntries | ResoniteModUpdater/utils.cs:205-221 | the inner loop over one object's entries returns what EntryResults computes |
| ManifestSearch.ObjectResultsCount | ResoniteModUpdater/utils.cs:203-222 | across objects, there are as many results as matching entries |
| ManifestSearch.ObjectResultsSound | ResoniteModUpdater/utils.cs:203-222 | each result is built from a matching entry of some object and that object's first author |
| ManifestSearch.ObjectResultsComplete | ResoniteModUpdater/utils.cs:203-222 | each matching entry of each object is among the results |
| ManifestSearch.ObjectResultsAreHits | ResoniteModUpdater/utils.cs:203-222 | across objects: one result per matching entry, each from a matching entry, and every matching entry among them |
| ManifestSearch.LatestVersionIsMax | ResoniteModUpdater/utils.cs:210 | each result's latest version is the greatest version key of its entry |
| ManifestSearch.NoMatchNoResult | ResoniteModUpdater/utils.cs:207-208 | an entry that matches neither in name nor in description is never a result |
| SearchCommand.ReleaseUrlFirst | ResoniteModUpdater/Commands/Search.cs:105-110 | a non-null ReleaseUrl of the latest version is returned unchanged |
| SearchCommand.GetReleaseUrl | ResoniteModUpdater/Commands/Search.cs:103-137 | the priority chain as written, as a function (no contract of its own; ReleaseUrlFirst, DerivedPageSecond, Fallbacks, EntryWithoutVersionsThrows and ReleaseUrlAgrees state it) |
| SearchCommand.ReleaseUrl | ResoniteModUpdater/Commands/Search.cs:103-137 | the corrected chain, as a function (no contract of its own; ReleaseUrlCandidates, EntryWithoutVersionsFallsBack and ReleaseUrlAgrees state it) |
| SearchCommand.SearchRunSpec | ResoniteModUpdater/Commands/Search.cs:26-65 | ExecuteAsync of `search` as a function (no contract of its own; EmptyQueryNoSearch, NotInteractiveExits, SearchShowsEveryHit and CommandLineManifestWins state it) |
| SearchCommand.DerivedPageSecond | ResoniteModUpdater/Commands/Search.cs:112-126 | without ReleaseUrl, a github.com release-download link as last artifact gives the tag's release page |
| SearchCommand.LastArtifactOnly | ResoniteModUpdater/Commands/Search.cs:112 | artifacts before the last never change the link |
| SearchCommand.NoArtifactNoPage | ResoniteModUpdater/Commands/Search.cs:112-113 | a null or empty artifact list derives no page |
| SearchCommand.Fallbacks | ResoniteModUpdater/Commands/Search.cs:105-136 | when the latest version is not a key, or neither rule applies, the link is SourceLocation, else null |
| SearchCommand.ReleaseUrlCandidates | ResoniteModUpdater/Commands/Search.cs:103-137 | the link is SourceLocation or comes from the latest version's entry |
| SearchCommand.PathSegments | ResoniteModUpdater/Commands/Search.cs:116 | splitting with RemoveEmptyEntries drops exactly the empty segments |
| SearchCommand.ArtifactPathParsing | ResoniteModUpdater/Commands/Search.cs:116-123 | owner, repository and tag are the 1st, 2nd and 5th non-empty segments; fewer than five, or other 3rd/4th words, derive nothing |
| SearchCommand.SegmentCaseIgnored | ResoniteModUpdater/Commands/Search.cs:118 | a path segment matches "releases" or "download" exactly when it has the word's length and each character is that letter in lower or upper case |
| SearchCommand.EntryWithoutVersionsThrows | ResoniteModUpdater/Commands/Search.cs:105 | for a hit whose entry has no versions, GetReleaseUrl as written throws |
| SearchCommand.EntryWithoutVersionsFallsBack | ResoniteModUpdater/Commands/Search.cs:105-136 | for such a hit the corrected link is SourceLocation, else null |
| SearchCommand.ReleaseUrlAgrees | ResoniteModUpdater/Commands/Search.cs:103-137 | GetReleaseUrl as written fails exactly for a null latest version, and otherwise equals the corrected link |
| SearchCommand.ResultRows | ResoniteModUpdater/Commands/Search.cs:90-98 | one row per result, in order, with name, author, id, version cell and description |
| SearchCommand.EmptyQueryNoSearch | ResoniteModUpdater/Commands/Search.cs:36-40 | a null or empty query exits 0 without downloading anything, whatever the server holds |
| SearchCommand.NotInteractiveExits | ResoniteModUpdater/Commands/Search.cs:28-32 | a console that is not interactive exits 1 |
| SearchCommand.SearchShowsEveryHit | ResoniteModUpdater/Commands/Search.cs:42-64 | a completed search fetches the configured manifest or the default one, exits 0, and shows every hit in order |
| SearchCommand.CommandLineManifestWins | ResoniteModUpdater/Commands/Search.cs:34-42 | a non-empty --manifest option is the manifest searched |
| UpdateCommand.UpdateMod | ResoniteModUpdater/Commands/Update.cs:126-136 | the strategy's reply and files are those of UpdateModSpec |
| UpdateCommand.StrategySelection | ResoniteModUpdater/Commands/Update.cs:128-135 | with a non-empty token only the API is consulted, otherwise only the feed, which never throws |
| UpdateCommand.StatusTextSeparatesClasses | ResoniteModUpdater/Commands/Update.cs:140-148 | two statuses get the same text exactly when they are the same of 0-4, or both other |
| UpdateCommand.StatusSymbols | ResoniteModUpdater/Commands/Update.cs:140-148 | "+" exactly for 0, "-" exactly for 1 and 4, "/" for the rest |
| UpdateCommand.StatusCell | ResoniteModUpdater/Commands/Update.cs:140-148 | the symbol and text of a status, as a function (no contract of its own; StatusSymbols, StatusTextSeparatesClasses and DryModeOnlyRewordsUpdates state it) |
| UpdateCommand.StatusRow | ResoniteModUpdater/Commands/Update.cs:140-150 | the four cells of a row, as a function (no contract of its own; AddStatusToTable and RowsShowStatuses state it) |
| UpdateCommand.DryModeOnlyRewordsUpdates | ResoniteModUpdater/Commands/Update.cs:142 | the dry run changes only the text of status 0 |
| UpdateCommand.AddStatusToTable | ResoniteModUpdater/Commands/Update.cs:138-151 | appends exactly the status row of the module |
| UpdateCommand.DisplayModUpdateStatus | ResoniteModUpdater/Commands/Update.cs:93-124 | the loop's rows, files and escaping exception are those of DisplaySpec |
| UpdateCommand.FatalStops | ResoniteModUpdater/Commands/Update.cs:104-122 | once an exception escapes, later modules are not visited |
| UpdateCommand.OneRowPerModule | ResoniteModUpdater/Commands/Update.cs:104-122 | one row per module, in dictionary order, named by file name; fewer rows when an exception escapes |
| UpdateCommand.RowCount | ResoniteModUpdater/Commands/Update.cs:104-122 | one row per visited module when no exception escapes, fewer when one does |
| UpdateCommand.RowNames | ResoniteModUpdater/Commands/Update.cs:104-122 | the k-th row names the k-th module's file |
| UpdateCommand.RowsShowStatuses | ResoniteModUpdater/Commands/Update.cs:104-122 | each row shows the status its module's step reported on the files the earlier modules left |
| UpdateCommand.NoNetworkStatuses | ResoniteModUpdater/Commands/Update.cs:108-146 | no link gives "No Link variable found" and "_" gives "Ignored", with no network call and no change |
| UpdateCommand.StepDryRun | ResoniteModUpdater/Commands/Update.cs:104-122 | in a dry run one module's step changes no file |
| UpdateCommand.DryRunChangesNoFile | ResoniteModUpdater/Commands/Update.cs:93-124 | a dry run over the whole folder changes no file |
| UpdateCommand.UnlistedFilesKept | ResoniteModUpdater/Commands/Update.cs:93-124 | a file that no listed module stands for is never touched |
| UpdateCommand.StepKeepsOtherFiles | ResoniteModUpdater/Commands/Update.cs:104-122 | one module's step touches no other file |
| UpdateCommand.ExecuteAsync | ResoniteModUpdater/Commands/Update.cs:30-91 | the run ends as RunSpec says |
| UpdateCommand.EarlyExits | ResoniteModUpdater/Commands/Update.cs:32-76 | not interactive, no mods folder, a folder that cannot be read or no modules: exit 1 with no row and no file changed |
| UpdateCommand.FullRun | ResoniteModUpdater/Commands/Update.cs:78-90 | a run reaching the loop exits 0 with one row per module unless an exception escapes; a dry run changes no file |

## Left out

- Console output, the Live table and its refresh, colours, prompts, progress
  spinners and the `Task.Delay` of a minute between retries are not modelled.
- Release.Download: the request loop is a method of its own (RequestAsset), so
  the download of a found asset starts after that loop returns instead of from
  inside it; the requests made and the result are the same.
  The model keeps only the rows' cells and the returned codes.
- The 403 retry message and the "Error accessing mods folder" message are not
  modelled.
- Cecil's reading of an assembly is a datatype of the image. A failed read is
  `None`.
- `Uri.TryCreate`, `XmlReader`/`SyndicationFeed`, `JsonConvert` and
  `HttpClient` are parameters. Their parsing rules are not part of this model.
- MD5 is a parameter `Hasher`. Collisions are not excluded: two artifacts
  with the same digest count as the same file, as in the code.
- The culture-sensitive default string comparison is replaced by ordinal
  comparison wherever the code relies on it: the comparer of `OrderBy` in
  `GetFiles` and of `Keys.Max()` in `SearchManifest` become `LessEq` (only its
  total-order laws are used), and the culture-sensitive
  `StartsWith(string)`/`EndsWith(string)` of the host check, the ignore marker
  and the artifact host check become ordinal prefix and suffix tests.
- `StringComparison.OrdinalIgnoreCase` is modelled for ASCII letters only.
- `SaveSettings`, `LoadSettings`, `CheckAndSaveOverriddenSettings`,
  `NotifyOverriddenSettings` and the checks of `LoadAndOverrideSettingsAsync`
  are not modelled: they are file I/O and console prompts. The commands start
  from the settings that call returns.
- `Utils.UpdateAdditionalLibraries`, `GetLibraryPath`, `GetDefaultPath`, the
  self-update in `Program.cs` and the `Default` command are not modelled.
  They are not part of the update engine.
- The `ReadKeyExit` key press is not modelled.
- Sync.WritesWholeArtifactOrNothing: the write is modelled as all-or-nothing.
  In the model it fails only before the file is touched (a read-only path).
  `File.WriteAllBytes` truncates the file first, so a failure during the
  write (disk full, an I/O error) would leave a truncated module behind and
  still return (-1, null). The model does not capture that state.
- `Path.GetFileName` treats both `/` and `\` as separators, as on Windows.
  On Linux only `/` separates, so a name holding `\` would be cut
  differently there.
- Concurrency is not modelled. The methods run one module at a time, as the
  awaited code does.
- Settings.OverrideSettings: the model's log masks the old token value as
  well, which is the corrected line from the Findings table. The line as
  written is `Settings.ChangeLine`.
- SearchCommand.SearchRunSpec: the results table uses the corrected link
  `SearchCommand.ReleaseUrl`. A hit without versions therefore does not crash
  the model's run as it would the code's (see Findings).

## Findings

| source | as written | input that shows it | evidently intended | confidence | as-written member | corrected member |
|---|---|---|---|---|---|---|
| ResoniteModUpdater/utils.cs:281-287 | only the new Token value is replaced by `********`; the old value is interpolated as it is | a stored token `abc` and `--token xyz` log `Token [red]abc[/] -> [green]********[/]` | neither side of a Token line reveals a token | not executed; high | Settings.ChangeLineLeaksOldToken | Settings.TokenIsMaskedInLog |
| ResoniteModUpdater/Commands/Search.cs:105 | `TryGetValue(result.LatestVersion, …)` is called with the maximum of the version keys, which `Max` returns as null for an entry without versions; the call then throws `ArgumentNullException` | a manifest entry matching the query whose `versions` object is empty | the hit is shown with its SourceLocation link, as for a version that is not a key | not executed; medium | SearchCommand.EntryWithoutVersionsThrows | SearchCommand.EntryWithoutVersionsFallsBack |
