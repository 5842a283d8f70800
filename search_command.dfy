/**
 * SearchCommand: the release link shown for each search hit, and the
 * ExecuteAsync guards around Utils.SearchManifest. Downloading the
 * manifest is an input (HttpClient.GetStringAsync as a function from URL
 * to text or the exception it throws), and so is Uri.TryCreate.
 */
module SearchCommand {
  import opened Common
  import opened Uris
  import opened Manifest
  import opened ManifestSearch
  import opened Settings
  import opened Release

  // ---------------------------------------------------------------------
  // GetReleaseUrl

  const ReleasesSegment := "releases"
  const DownloadSegment := "download"

  /** The message of the ArgumentNullException Dictionary.TryGetValue throws for a null key. */
  const NullKeyMessage := "Value cannot be null. (Parameter 'key')"

  /** Enumerable.LastOrDefault behind `?.`: None for a null or empty list. */
  function LastArtifact(artifacts: Option<seq<ManifestEntryArtifact>>): Option<ManifestEntryArtifact> {
    if artifacts.None? || artifacts.value == [] then None
    else Some(artifacts.value[|artifacts.value| - 1])
  }

  /** The path of an artifact URL has the shape {owner}/{repo}/releases/download/{tag}/... once empty segments are dropped. */
  predicate IsReleaseDownloadPath(parts: seq<string>) {
    |parts| >= 5 && EqualsIgnoreCase(parts[2], ReleasesSegment) && EqualsIgnoreCase(parts[3], DownloadSegment)
  }

  /** The release page derived from the last artifact: None when its URL is null, not on GitHub, of another shape, or TryCreate fails. */
  function DerivedReleasePage(artifact: Option<ManifestEntryArtifact>, parse: UriParser): Option<Uri> {
    if artifact.None? || artifact.value.url.None? then None
    else
      var uri := artifact.value.url.value;
      if !EndsWith(uri.host, GitHubHost) then None
      else
        var parts := SplitNonEmpty(uri.absolutePath, '/');
        if IsReleaseDownloadPath(parts) then parse(TagPageUrl(parts[0], parts[1], parts[4])) else None
  }

  /** The link a version entry yields by itself: its ReleaseUrl, else the page derived from its last artifact. */
  function VersionReleaseUrl(version: ManifestEntryVersion, parse: UriParser): Option<Uri> {
    if version.releaseUrl.Some? then version.releaseUrl
    else DerivedReleasePage(LastArtifact(version.artifacts), parse)
  }

  /**
   * GetReleaseUrl as written: TryGetValue with the latest version as key
   * throws when that key is null, which is what SearchManifest stores for
   * an entry without versions.
   */
  function GetReleaseUrl(result: SearchResult, parse: UriParser): Result<Option<Uri>> {
    if result.latestVersion.None? then Err(NullKeyMessage)
    else
      var found := TryGetValue(result.entry.versions, result.latestVersion.value);
      if found.Some? && VersionReleaseUrl(found.value, parse).Some? then Ok(VersionReleaseUrl(found.value, parse))
      else Ok(result.entry.sourceLocation)
  }

  /** The release link with a null latest version treated as a key that is not there: SourceLocation, else null. */
  function ReleaseUrl(result: SearchResult, parse: UriParser): Option<Uri> {
    var found := if result.latestVersion.None? then None else TryGetValue(result.entry.versions, result.latestVersion.value);
    if found.Some? && VersionReleaseUrl(found.value, parse).Some? then VersionReleaseUrl(found.value, parse)
    else result.entry.sourceLocation
  }

  // ---------------------------------------------------------------------
  // Properties of the priority chain

  /** A non-null ReleaseUrl of the latest version wins, unchanged. */
  lemma ReleaseUrlFirst(result: SearchResult, parse: UriParser, version: ManifestEntryVersion)
    requires result.latestVersion.Some?
    requires DistinctKeys(result.entry.versions) && (result.latestVersion.value, version) in result.entry.versions
    requires version.releaseUrl.Some?
    ensures GetReleaseUrl(result, parse) == Ok(version.releaseUrl)
    ensures ReleaseUrl(result, parse) == version.releaseUrl
  {
    TryGetValueFinds(result.entry.versions, result.latestVersion.value, version);
  }

  /** Without a ReleaseUrl, a GitHub download link of the last artifact yields the tag's release page. */
  lemma DerivedPageSecond(result: SearchResult, parse: UriParser, version: ManifestEntryVersion, uri: Uri, page: Uri)
    requires result.latestVersion.Some?
    requires DistinctKeys(result.entry.versions) && (result.latestVersion.value, version) in result.entry.versions
    requires version.releaseUrl.None?
    requires LastArtifact(version.artifacts).Some? && LastArtifact(version.artifacts).value.url == Some(uri)
    requires EndsWith(uri.host, GitHubHost)
    requires var parts := SplitNonEmpty(uri.absolutePath, '/');
      IsReleaseDownloadPath(parts) && parse(TagPageUrl(parts[0], parts[1], parts[4])) == Some(page)
    ensures GetReleaseUrl(result, parse) == Ok(Some(page))
    ensures ReleaseUrl(result, parse) == Some(page)
  {
    TryGetValueFinds(result.entry.versions, result.latestVersion.value, version);
  }

  /**
   * The derived rule in full: a page comes out exactly when the last
   * artifact's URL is on a host ending in github.com, its non-empty path
   * segments have the release-download shape, and the page URL parses.
   */
  lemma DerivedPageExactly(artifact: Option<ManifestEntryArtifact>, parse: UriParser)
    ensures DerivedReleasePage(artifact, parse).Some? <==>
      && artifact.Some? && artifact.value.url.Some?
      && EndsWith(artifact.value.url.value.host, GitHubHost)
      && var parts := SplitNonEmpty(artifact.value.url.value.absolutePath, '/');
         IsReleaseDownloadPath(parts) && parse(TagPageUrl(parts[0], parts[1], parts[4])).Some?
  {
  }

  /** Only the last artifact matters: what comes before it never changes the link. */
  lemma LastArtifactOnly(version: ManifestEntryVersion, earlier: seq<ManifestEntryArtifact>, others: seq<ManifestEntryArtifact>,
                         last: ManifestEntryArtifact, parse: UriParser)
    ensures VersionReleaseUrl(version.(artifacts := Some(earlier + [last])), parse) ==
            VersionReleaseUrl(version.(artifacts := Some(others + [last])), parse)
  {
    assert LastArtifact(Some(earlier + [last])) == Some(last);
    assert LastArtifact(Some(others + [last])) == Some(last);
  }

  /** A null or empty artifact list derives nothing. */
  lemma NoArtifactNoPage(version: ManifestEntryVersion, parse: UriParser)
    requires version.artifacts.None? || version.artifacts.value == []
    ensures version.releaseUrl.None? ==> VersionReleaseUrl(version, parse).None?
  {
  }

  /** When the latest version is not a key, or neither rule applies, the link is SourceLocation (null when that is null). */
  lemma Fallbacks(result: SearchResult, parse: UriParser)
    requires result.latestVersion.Some?
    requires var found := TryGetValue(result.entry.versions, result.latestVersion.value);
      found.None? || VersionReleaseUrl(found.value, parse).None?
    ensures GetReleaseUrl(result, parse) == Ok(result.entry.sourceLocation)
    ensures ReleaseUrl(result, parse) == result.entry.sourceLocation
  {
  }

  /** The link is always one of the three candidates. */
  lemma ReleaseUrlCandidates(result: SearchResult, parse: UriParser)
    ensures var r := ReleaseUrl(result, parse);
      || r == result.entry.sourceLocation
      || (exists v :: v in result.entry.versions && result.latestVersion == Some(v.0) &&
            (r == v.1.releaseUrl || r == DerivedReleasePage(LastArtifact(v.1.artifacts), parse)))
  {
    if result.latestVersion.Some? {
      var found := TryGetValue(result.entry.versions, result.latestVersion.value);
      if found.Some? && VersionReleaseUrl(found.value, parse).Some? {
        var i :| 0 <= i < |result.entry.versions| && result.entry.versions[i] == (result.latestVersion.value, found.value);
        assert result.entry.versions[i] in result.entry.versions;
      }
    }
  }

  /** Empty path segments are dropped: a path joined from segments splits into its non-empty ones. */
  lemma PathSegments(segs: seq<string>)
    requires |segs| >= 1 && forall i :: 0 <= i < |segs| ==> '/' !in segs[i]
    ensures SplitNonEmpty(Join(segs, '/'), '/') == RemoveEmpty(segs)
  {
    SplitJoin(segs, '/');
  }

  /**
   * Path parsing on a GitHub artifact URL whose path is joined from
   * segments, with empty ones anywhere (leading, doubled or trailing
   * slashes): owner, repository and tag are the first, second and fifth
   * non-empty segments, and "releases"/"download" match in any case.
   */
  lemma ArtifactPathParsing(uri: Uri, segs: seq<string>, parse: UriParser, sha256: string)
    requires |segs| >= 1 && forall i :: 0 <= i < |segs| ==> '/' !in segs[i]
    requires uri.absolutePath == Join(segs, '/') && EndsWith(uri.host, GitHubHost)
    ensures var kept := RemoveEmpty(segs);
      var artifact := Some(ManifestEntryArtifact(Some(uri), sha256, None, None));
      && (IsReleaseDownloadPath(kept) ==> DerivedReleasePage(artifact, parse) == parse(TagPageUrl(kept[0], kept[1], kept[4])))
      && (!IsReleaseDownloadPath(kept) ==> DerivedReleasePage(artifact, parse).None?)
  {
    PathSegments(segs);
  }

  /**
   * The two fixed segments are matched ignoring case, but must be spelled
   * out in full: a segment matches exactly when it has the word's length and
   * each character is that letter in lower or upper case.
   */
  lemma SegmentCaseIgnored(segment: string)
    ensures EqualsIgnoreCase(segment, ReleasesSegment) <==>
      |segment| == |ReleasesSegment| &&
      forall i :: 0 <= i < |segment| ==> segment[i] == ReleasesSegment[i] || segment[i] == UpperAscii(ReleasesSegment[i])
    ensures EqualsIgnoreCase(segment, DownloadSegment) <==>
      |segment| == |DownloadSegment| &&
      forall i :: 0 <= i < |segment| ==> segment[i] == DownloadSegment[i] || segment[i] == UpperAscii(DownloadSegment[i])
  {
    IgnoreCaseAgainstLowercase(segment, ReleasesSegment);
    IgnoreCaseAgainstLowercase(segment, DownloadSegment);
  }

  // ---------------------------------------------------------------------
  // The finding: an entry without versions

  /**
   * SearchManifest stores the maximum of an entry's version keys, which is
   * null when the entry has none; GetReleaseUrl then throws for that hit.
   */
  lemma EntryWithoutVersionsThrows(author: seq<(string, ManifestAuthor)>, id: string, entry: ManifestEntry, parse: UriParser)
    requires author != [] && entry.versions == []
    ensures GetReleaseUrl(ResultFor(author, id, entry), parse) == Err(NullKeyMessage)
  {
    assert Keys(entry.versions) == [];
  }

  /** The corrected link treats that hit like a version that is not a key: it links to SourceLocation, or to nothing. */
  lemma EntryWithoutVersionsFallsBack(author: seq<(string, ManifestAuthor)>, id: string, entry: ManifestEntry, parse: UriParser)
    requires author != [] && entry.versions == []
    ensures ReleaseUrl(ResultFor(author, id, entry), parse) == entry.sourceLocation
  {
    assert Keys(entry.versions) == [];
  }

  /** The corrected link agrees with GetReleaseUrl wherever GetReleaseUrl does not throw, and is one of the candidates. */
  lemma ReleaseUrlAgrees(result: SearchResult, parse: UriParser)
    ensures GetReleaseUrl(result, parse).Ok? <==> result.latestVersion.Some?
    ensures GetReleaseUrl(result, parse).Ok? ==> GetReleaseUrl(result, parse).value == ReleaseUrl(result, parse)
  {
  }

  // ---------------------------------------------------------------------
  // The results table

  /** One row of the results table: name, author, id, version and description. */
  datatype ResultRow = ResultRow(name: string, author: string, id: string, version: string, description: string)

  /** A nullable value as interpolation prints it. */
  function Shown(s: Option<string>): string {
    if s.Some? then s.value else ""
  }

  function UriText(u: Option<Uri>): Option<string> {
    if u.Some? then Some(u.value.text) else None
  }

  /** The version cell: the latest version, wrapped in a link to the release page when the console shows links. */
  function VersionCell(result: SearchResult, parse: UriParser, links: bool): string {
    if links then "[link=" + Shown(UriText(ReleaseUrl(result, parse))) + "]" + Shown(result.latestVersion) + "[/]"
    else Shown(result.latestVersion)
  }

  function ResultRows(results: seq<SearchResult>, parse: UriParser, links: bool): (rows: seq<ResultRow>)
    ensures |rows| == |results|
    ensures forall k :: 0 <= k < |results| ==>
      rows[k] == ResultRow(results[k].entry.name, results[k].authorName, results[k].id,
                           VersionCell(results[k], parse, links), results[k].entry.description)
  {
    if results == [] then []
    else ResultRows(results[..|results| - 1], parse, links) +
         [ResultRow(results[|results| - 1].entry.name, results[|results| - 1].authorName, results[|results| - 1].id,
                    VersionCell(results[|results| - 1], parse, links), results[|results| - 1].entry.description)]
  }

  // ---------------------------------------------------------------------
  // ExecuteAsync

  /** Utils.Manifest: where the manifest is read from when the settings name none. */
  const ManifestUrl := "https://raw.githubusercontent.com/resonite-modding-group/resonite-mod-manifest/main/manifest.json"

  /** HttpClient.GetStringAsync: the text at a URL, or the exception's message. */
  type ManifestFetcher = string -> Result<string>

  /** How a search run ends: an exit code with the manifest URL fetched (if any) and the rows shown, or an escaping exception. */
  datatype SearchRun = Finished(code: int, fetched: Option<string>, rows: seq<ResultRow>) | Failed(message: string)

  /** settingsConfig.Manifest ?? Utils.Manifest. */
  function ManifestSource(config: ConfigValues): string {
    if config.manifest.Some? then config.manifest.value else ManifestUrl
  }

  /**
   * ExecuteAsync from the settings LoadAndOverrideSettingsAsync returned:
   * not interactive exits 1; a null or empty query exits 0 before any
   * download; otherwise the manifest is searched and every hit shown.
   */
  function SearchRunSpec(interactive: bool, config: ConfigValues, query: Option<string>, fetch: ManifestFetcher,
                         deserialize: Deserializer, parse: UriParser, links: bool): SearchRun
  {
    if !interactive then Finished(1, None, [])
    else if query.None? || query.value == "" then Finished(0, None, [])
    else
      var url := ManifestSource(config);
      match fetch(url)
      case Err(m) => Failed(m)
      case Ok(content) =>
        match Search(query.value, content, deserialize)
        case Err(m) => Failed(m)
        case Ok(results) => Finished(0, Some(url), ResultRows(results, parse, links))
  }

  /** A null or empty query exits 0 without downloading or searching, whatever the manifest holds. */
  lemma EmptyQueryNoSearch(config: ConfigValues, query: Option<string>, fetch: ManifestFetcher, other: ManifestFetcher,
                           deserialize: Deserializer, parse: UriParser, links: bool)
    requires query.None? || query.value == ""
    ensures SearchRunSpec(true, config, query, fetch, deserialize, parse, links) == Finished(0, None, [])
    ensures SearchRunSpec(true, config, query, fetch, deserialize, parse, links) ==
            SearchRunSpec(true, config, query, other, deserialize, parse, links)
  {
  }

  /** Not interactive: exit code 1, nothing fetched, nothing shown. */
  lemma NotInteractiveExits(config: ConfigValues, query: Option<string>, fetch: ManifestFetcher,
                            deserialize: Deserializer, parse: UriParser, links: bool)
    ensures SearchRunSpec(false, config, query, fetch, deserialize, parse, links) == Finished(1, None, [])
  {
  }

  /**
   * A search that completes fetches the configured manifest (the default
   * one when none is set), exits 0 and shows one row per hit, in order,
   * whether or not there were hits.
   */
  lemma SearchShowsEveryHit(config: ConfigValues, query: string, fetch: ManifestFetcher,
                            deserialize: Deserializer, parse: UriParser, links: bool, content: string, results: seq<SearchResult>)
    requires query != "" && fetch(ManifestSource(config)) == Ok(content)
    requires Search(query, content, deserialize) == Ok(results)
    ensures var run := SearchRunSpec(true, config, Some(query), fetch, deserialize, parse, links);
      && run.Finished? && run.code == 0
      && run.fetched == Some(if config.manifest.Some? then config.manifest.value else ManifestUrl)
      && |run.rows| == |results|
      && forall k :: 0 <= k < |results| ==> run.rows[k].id == results[k].id && run.rows[k].name == results[k].entry.name
  {
  }

  /** After the search command's override, the manifest searched is the --manifest option when it is given and not empty. */
  lemma CommandLineManifestWins(stored: ConfigValues, cli: SearchCli)
    requires cli.manifest.Some? && cli.manifest.value != ""
    ensures ManifestSource(Override(stored, SearchCliProperties(cli)).values) == cli.manifest.value
  {
    SearchOverridesManifestOnly(stored, cli);
  }
}
