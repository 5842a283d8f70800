/**
 * The two ways Utils resolves a mod's link to an artifact: Download asks the
 * authenticated releases API (retrying while it answers 403), and
 * DownloadFromRSS reads the repository's tag feed and builds the artifact
 * URL from the newest tag. Both hand the URL to DownloadAndValidateDLL.
 */
module Release {
  import opened Common
  import opened FileStore
  import opened Sync

  // ---------------------------------------------------------------------
  // The authenticated releases API

  /** A request to the API: its URL, the bearer token, and how many requests came before it in this call. */
  datatype ApiRequest = ApiRequest(url: string, token: Option<string>, attempt: nat)

  datatype Asset = Asset(name: string, browserDownloadUrl: string)

  /** What GetAsync gives back: a response (its status and, on success, the release's assets) or the exception it threw. */
  datatype ApiResponse = Answer(statusCode: int, assets: seq<Asset>) | NoAnswer(message: string)

  type ApiServer = ApiRequest -> ApiResponse

  const Forbidden := 403
  const Unauthorized := 401
  /** retryCount may reach this value; the next 403 is fatal. */
  const MaxRetries := 3
  const ForbiddenMessage := "Access to the resource is forbidden after multiple attempts."
  const InvalidTokenMessage := "Invalid token provided"
  const IndexOutOfRangeMessage := "Index was outside the bounds of the array."

  function ApiUrl(owner: string, repo: string): string {
    "https://api.github.com/repos/" + owner + "/" + repo + "/releases/latest"
  }

  predicate IsSuccessStatusCode(code: int) {
    200 <= code <= 299
  }

  /** The first asset whose name equals the file name. */
  function FirstAssetNamed(assets: seq<Asset>, fileName: string): (found: Option<Asset>)
    ensures found.None? <==> forall k :: 0 <= k < |assets| ==> assets[k].name != fileName
    ensures found.Some? ==>
      exists k :: 0 <= k < |assets| && assets[k] == found.value && found.value.name == fileName
        && forall j :: 0 <= j < k ==> assets[j].name != fileName
  {
    if assets == [] then None
    else if assets[0].name == fileName then Some(assets[0])
    else
      var rest := FirstAssetNamed(assets[1..], fileName);
      assert forall k :: 1 <= k < |assets| ==> assets[k] == assets[1..][k - 1];
      rest
  }

  /** Where the API loop ends: an asset to download, (3, null), or an exception that leaves Download. */
  datatype Lookup = AssetFound(downloadUrl: string) | NoRelease | Abort(message: string)

  /** The loop of Download from the request with the given retryCount on. */
  function LookupFrom(api: ApiServer, apiUrl: string, token: Option<string>, fileName: string, retryCount: nat): Lookup
    requires retryCount <= MaxRetries
    decreases MaxRetries - retryCount
  {
    match api(ApiRequest(apiUrl, token, retryCount))
    case NoAnswer(message) => Abort(message)
    case Answer(code, assets) =>
      if IsSuccessStatusCode(code) then
        match FirstAssetNamed(assets, fileName)
        case Some(asset) => AssetFound(asset.browserDownloadUrl)
        case None => NoRelease
      else if code == Forbidden then
        if retryCount + 1 > MaxRetries then Abort(ForbiddenMessage)
        else LookupFrom(api, apiUrl, token, fileName, retryCount + 1)
      else if code == Unauthorized then Abort(InvalidTokenMessage)
      else NoRelease
  }

  /** The result of the whole call: an outcome, or the message of an exception that escapes it. */
  datatype Reply = Done(outcome: Outcome) | Fatal(message: string)

  datatype Resolved = Resolved(reply: Reply, files: map<string, Bytes>)

  /** Utils.Download as a function of the file system and the servers. */
  function DownloadSpec(files: map<string, Bytes>, readOnly: set<string>, dllFile: string, url: string,
                        dryMode: bool, token: Option<string>, api: ApiServer, downloads: DownloadServer,
                        hash: Hasher): Resolved
  {
    var parts := Split(url, '/');
    if |parts| < 5 then Resolved(Fatal(IndexOutOfRangeMessage), files)
    else
      match LookupFrom(api, ApiUrl(parts[3], parts[4]), token, FileName(dllFile), 0)
      case AssetFound(downloadUrl) =>
        var s := Synchronize(files, readOnly, dllFile, downloadUrl, dryMode, downloads, hash);
        Resolved(Done(s.outcome), s.files)
      case NoRelease => Resolved(Done(Outcome(StatusInvalidLink, None)), files)
      case Abort(message) => Resolved(Fatal(message), files)
  }

  /** The request loop of Download: asks the API again while it answers 403, up to MaxRetries retries. */
  method RequestAsset(api: ApiServer, apiUrl: string, token: Option<string>, fileName: string) returns (lookup: Lookup)
    ensures lookup == LookupFrom(api, apiUrl, token, fileName, 0)
  {
    var retryCount := 0;
    while true
      invariant 0 <= retryCount <= MaxRetries
      invariant LookupFrom(api, apiUrl, token, fileName, retryCount) == LookupFrom(api, apiUrl, token, fileName, 0)
      decreases MaxRetries - retryCount
    {
      var response := api(ApiRequest(apiUrl, token, retryCount));
      if response.NoAnswer? {
        return Abort(response.message);
      }
      if IsSuccessStatusCode(response.statusCode) {
        var asset := FirstAssetNamed(response.assets, fileName);
        if asset.Some? {
          return AssetFound(asset.value.browserDownloadUrl);
        }
      } else if response.statusCode == Forbidden {
        retryCount := retryCount + 1;
        if retryCount > MaxRetries {
          return Abort(ForbiddenMessage);
        }
        continue;
      } else if response.statusCode == Unauthorized {
        return Abort(InvalidTokenMessage);
      }
      return NoRelease;
    }
  }

  method Download(fs: FileSystem, dllFile: string, url: string, dryMode: bool, token: Option<string>,
                  api: ApiServer, downloads: DownloadServer, hash: Hasher) returns (reply: Reply)
    modifies fs`files
    ensures Resolved(reply, fs.files) == DownloadSpec(old(fs.files), fs.readOnly, dllFile, url, dryMode, token, api, downloads, hash)
  {
    var parts := Split(url, '/');
    if |parts| < 5 {
      return Fatal(IndexOutOfRangeMessage);
    }
    var lookup := RequestAsset(api, ApiUrl(parts[3], parts[4]), token, FileName(dllFile));
    match lookup
    case AssetFound(downloadUrl) =>
      var outcome := DownloadAndValidateDll(fs, dllFile, downloadUrl, dryMode, downloads, hash);
      return Done(outcome);
    case NoRelease =>
      return Done(Outcome(StatusInvalidLink, None));
    case Abort(message) =>
      return Fatal(message);
  }

  /** A dry run through the releases API leaves the files as they were. */
  lemma DownloadDryRunWritesNothing(files: map<string, Bytes>, readOnly: set<string>, dllFile: string, url: string,
                                    token: Option<string>, api: ApiServer, downloads: DownloadServer, hash: Hasher)
    ensures DownloadSpec(files, readOnly, dllFile, url, true, token, api, downloads, hash).files == files
  {
    var parts := Split(url, '/');
    if |parts| >= 5 {
      match LookupFrom(api, ApiUrl(parts[3], parts[4]), token, FileName(dllFile), 0)
      case AssetFound(downloadUrl) =>
        DryRunWritesNothing(files, readOnly, dllFile, downloadUrl, downloads, hash);
      case NoRelease =>
      case Abort(_) =>
    }
  }

  // ---------------------------------------------------------------------
  // Properties of the API loop

  predicate IsForbidden(response: ApiResponse) {
    response.Answer? && response.statusCode == Forbidden
  }

  /** The first k requests of the call were all answered 403. */
  predicate ForbiddenBefore(api: ApiServer, apiUrl: string, token: Option<string>, k: nat) {
    forall j :: 0 <= j < k ==> IsForbidden(api(ApiRequest(apiUrl, token, j)))
  }

  /** Each 403 only moves the loop on to the next request: after k of them the loop is where it would start at k. */
  lemma {:induction false} ForbiddenIsRetried(api: ApiServer, apiUrl: string, token: Option<string>, fileName: string, k: nat)
    requires k <= MaxRetries
    requires ForbiddenBefore(api, apiUrl, token, k)
    ensures LookupFrom(api, apiUrl, token, fileName, 0) == LookupFrom(api, apiUrl, token, fileName, k)
  {
    if k > 0 {
      ForbiddenIsRetried(api, apiUrl, token, fileName, k - 1);
      assert IsForbidden(api(ApiRequest(apiUrl, token, k - 1)));
    }
  }

  /** Three 403s followed by a success proceed to the asset match of that success. */
  lemma ThreeForbiddenThenSuccess(api: ApiServer, apiUrl: string, token: Option<string>, fileName: string)
    requires ForbiddenBefore(api, apiUrl, token, 3)
    requires api(ApiRequest(apiUrl, token, 3)).Answer? && IsSuccessStatusCode(api(ApiRequest(apiUrl, token, 3)).statusCode)
    ensures LookupFrom(api, apiUrl, token, fileName, 0) ==
      match FirstAssetNamed(api(ApiRequest(apiUrl, token, 3)).assets, fileName)
      case Some(asset) => AssetFound(asset.browserDownloadUrl)
      case None => NoRelease
  {
    ForbiddenIsRetried(api, apiUrl, token, fileName, 3);
  }

  /** A fourth consecutive 403 throws. */
  lemma FourthForbiddenIsFatal(api: ApiServer, apiUrl: string, token: Option<string>, fileName: string)
    requires ForbiddenBefore(api, apiUrl, token, 4)
    ensures LookupFrom(api, apiUrl, token, fileName, 0) == Abort(ForbiddenMessage)
  {
    ForbiddenIsRetried(api, apiUrl, token, fileName, 3);
  }

  /**
   * A 401 throws at once: the result is the same whatever the server would
   * have answered to any later request.
   */
  lemma {:induction false} UnauthorizedIsNotRetried(api: ApiServer, other: ApiServer, apiUrl: string, token: Option<string>,
                                                   fileName: string, k: nat)
    requires k <= MaxRetries
    requires forall j :: 0 <= j <= k ==> other(ApiRequest(apiUrl, token, j)) == api(ApiRequest(apiUrl, token, j))
    requires ForbiddenBefore(api, apiUrl, token, k)
    requires api(ApiRequest(apiUrl, token, k)).Answer? && api(ApiRequest(apiUrl, token, k)).statusCode == Unauthorized
    ensures LookupFrom(api, apiUrl, token, fileName, 0) == Abort(InvalidTokenMessage)
    ensures LookupFrom(other, apiUrl, token, fileName, 0) == Abort(InvalidTokenMessage)
  {
    ForbiddenIsRetried(api, apiUrl, token, fileName, k);
    assert ForbiddenBefore(other, apiUrl, token, k);
    ForbiddenIsRetried(other, apiUrl, token, fileName, k);
  }

  /** A failure status other than 403 and 401 gives (3, null) without another request. */
  lemma OtherFailureIsInvalidLink(api: ApiServer, apiUrl: string, token: Option<string>, fileName: string, k: nat)
    requires k <= MaxRetries
    requires ForbiddenBefore(api, apiUrl, token, k)
    requires api(ApiRequest(apiUrl, token, k)).Answer?
    requires var code := api(ApiRequest(apiUrl, token, k)).statusCode;
      !IsSuccessStatusCode(code) && code != Forbidden && code != Unauthorized
    ensures LookupFrom(api, apiUrl, token, fileName, 0) == NoRelease
  {
    ForbiddenIsRetried(api, apiUrl, token, fileName, k);
  }

  // ---------------------------------------------------------------------
  // The tag feed

  /** An Atom entry: its title (None: null) and the ToString() of its links. */
  datatype FeedItem = FeedItem(title: Option<string>, links: seq<string>)

  /** What SyndicationFeed.Load gives for a feed URL (None: loading throws). */
  type FeedServer = string -> Option<seq<FeedItem>>

  function FeedUrl(owner: string, repo: string): string {
    "https://github.com/" + owner + "/" + repo + "/tags.atom"
  }

  function ReleaseDownloadUrl(owner: string, repo: string, tag: string, fileName: string): string {
    "https://github.com/" + owner + "/" + repo + "/releases/download/" + tag + "/" + fileName
  }

  /** Where the string surgery of DownloadFromRSS ends: a URL to download, (3, null), or a caught exception (-1, null). */
  datatype FeedPlan = Fetch(downloadUrl: string) | NoTag | Broken

  function PlanFromFeed(url: string, fileName: string, feeds: FeedServer): FeedPlan {
    var urlParts := Split(url, '/');
    if |urlParts| < 5 then Broken
    else
      var owner, repo := urlParts[3], urlParts[4];
      match feeds(FeedUrl(owner, repo))
      case None => Broken
      case Some(items) =>
        if items == [] then NoTag
        else if items[0].title.None? then NoTag
        else if items[0].links == [] then Broken
        else
          var linkParts := Split(items[0].links[0], '/');
          if |linkParts| < 8 then Broken
          else Fetch(ReleaseDownloadUrl(owner, repo, linkParts[7], fileName))
  }

  /** Utils.DownloadFromRSS as a function of the file system and the servers. */
  function FeedSpec(files: map<string, Bytes>, readOnly: set<string>, dllFile: string, url: string, dryMode: bool,
                    feeds: FeedServer, downloads: DownloadServer, hash: Hasher): Synced
  {
    match PlanFromFeed(url, FileName(dllFile), feeds)
    case Fetch(downloadUrl) => Synchronize(files, readOnly, dllFile, downloadUrl, dryMode, downloads, hash)
    case NoTag => Synced(Outcome(StatusInvalidLink, None), files)
    case Broken => Synced(Outcome(StatusFailed, None), files)
  }

  /** A dry run through the tag feed leaves the files as they were. */
  lemma FeedDryRunWritesNothing(files: map<string, Bytes>, readOnly: set<string>, dllFile: string, url: string,
                                feeds: FeedServer, downloads: DownloadServer, hash: Hasher)
    ensures FeedSpec(files, readOnly, dllFile, url, true, feeds, downloads, hash).files == files
  {
    match PlanFromFeed(url, FileName(dllFile), feeds)
    case Fetch(downloadUrl) =>
      DryRunWritesNothing(files, readOnly, dllFile, downloadUrl, downloads, hash);
    case NoTag =>
    case Broken =>
  }

  method DownloadFromRss(fs: FileSystem, dllFile: string, url: string, dryMode: bool,
                         feeds: FeedServer, downloads: DownloadServer, hash: Hasher) returns (outcome: Outcome)
    modifies fs`files
    ensures Synced(outcome, fs.files) == FeedSpec(old(fs.files), fs.readOnly, dllFile, url, dryMode, feeds, downloads, hash)
  {
    var urlParts := Split(url, '/');
    if |urlParts| < 5 {
      return Outcome(StatusFailed, None);
    }
    var owner := urlParts[3];
    var repo := urlParts[4];
    var tags := feeds(FeedUrl(owner, repo));
    if tags.None? {
      return Outcome(StatusFailed, None);
    }
    if tags.value == [] {
      return Outcome(StatusInvalidLink, None);
    }
    var latest := tags.value[0];
    if latest.title.None? {
      return Outcome(StatusInvalidLink, None);
    }
    if latest.links == [] {
      return Outcome(StatusFailed, None);
    }
    var linkParts := Split(latest.links[0], '/');
    if |linkParts| < 8 {
      return Outcome(StatusFailed, None);
    }
    var tag := linkParts[7];
    var downloadUrl := ReleaseDownloadUrl(owner, repo, tag, FileName(dllFile));
    outcome := DownloadAndValidateDll(fs, dllFile, downloadUrl, dryMode, downloads, hash);
  }

  // ---------------------------------------------------------------------
  // Properties of the feed path

  /**
   * The constructed URL splits back into its parts: owner, repository and
   * tag sit at indices 3, 4 and 7, followed by the pieces of the file name.
   */
  lemma ReleaseDownloadUrlPieces(owner: string, repo: string, tag: string, fileName: string)
    requires '/' !in owner && '/' !in repo && '/' !in tag
    ensures Split(ReleaseDownloadUrl(owner, repo, tag, fileName), '/') ==
      ["https:", "", "github.com", owner, repo, "releases", "download", tag] + Split(fileName, '/')
  {
    ReleaseDownloadGlued(owner, repo, tag, fileName);
    GluedDownloadUrlPieces(owner, repo, tag, fileName);
  }

  lemma ReleaseDownloadGlued(owner: string, repo: string, tag: string, fileName: string)
    ensures ReleaseDownloadUrl(owner, repo, tag, fileName) == GluedDownloadUrl(owner, repo, tag, fileName)
  {
    var g := "https:" + "/" + "" + "/" + "github.com" + "/";
    assert "https://github.com/" == g;
    assert "/releases/download/" == "/" + "releases" + "/" + "download" + "/";
  }

  /** ReleaseDownloadUrl written piece by piece. */
  function GluedDownloadUrl(owner: string, repo: string, tag: string, fileName: string): string {
    "https:" + "/" + "" + "/" + "github.com" + "/" + owner + "/" + DownloadTail(repo, tag, fileName)
  }

  function DownloadTail(repo: string, tag: string, fileName: string): string {
    repo + "/" + "releases" + "/" + "download" + "/" + tag + "/" + fileName
  }

  lemma GluedDownloadUrlPieces(owner: string, repo: string, tag: string, fileName: string)
    requires '/' !in owner && '/' !in repo && '/' !in tag
    ensures Split(GluedDownloadUrl(owner, repo, tag, fileName), '/') ==
      ["https:", "", "github.com", owner, repo, "releases", "download", tag] + Split(fileName, '/')
  {
    DownloadTailPieces(repo, tag, fileName);
    GluedPieces(owner, DownloadTail(repo, tag, fileName));
    EightPieces("https:", "", "github.com", owner, repo, "releases", "download", tag, Split(fileName, '/'));
  }

  lemma DownloadTailPieces(repo: string, tag: string, fileName: string)
    requires '/' !in repo && '/' !in tag
    ensures Split(DownloadTail(repo, tag, fileName), '/') == [repo, "releases", "download", tag] + Split(fileName, '/')
  {
    SplitFour(repo, "releases", "download", tag, fileName);
  }

  /** Two runs of four pieces in front of the rest, regrouped. */
  lemma EightPieces(p0: string, p1: string, p2: string, p3: string, p4: string, p5: string, p6: string, p7: string,
                    rest: seq<string>)
    ensures [p0, p1, p2, p3] + ([p4, p5, p6, p7] + rest) == [p0, p1, p2, p3, p4, p5, p6, p7] + rest
  {
  }

  /** Four leading pieces without a separator split off one by one. */
  lemma SplitFour(p0: string, p1: string, p2: string, p3: string, rest: string)
    requires '/' !in p0 && '/' !in p1 && '/' !in p2 && '/' !in p3
    ensures Split(p0 + "/" + p1 + "/" + p2 + "/" + p3 + "/" + rest, '/') == [p0, p1, p2, p3] + Split(rest, '/')
  {
    var r3 := p3 + "/" + rest;
    var r2 := p2 + "/" + r3;
    var r1 := p1 + "/" + r2;
    var l1 := p0 + "/" + p1;
    var l2 := l1 + "/" + p2;
    ShiftPiece(l2, p3, rest);
    ShiftPiece(l1, p2, r3);
    ShiftPiece(p0, p1, r2);
    SplitPrefixPiece(p3, rest);
    SplitPrefixPiece(p2, r3);
    SplitPrefixPiece(p1, r2);
    SplitPrefixPiece(p0, r1);
  }

  /** Moving a piece from the left half of a joined path to its right half. */
  lemma ShiftPiece(l: string, p: string, r: string)
    ensures l + "/" + p + "/" + r == l + "/" + (p + "/" + r)
  {
    assert l + "/" + p + "/" + r == (l + "/") + (p + "/" + r);
  }

  /** A first piece without a separator splits off on its own. */
  lemma SplitPrefixPiece(a: string, b: string)
    requires '/' !in a
    ensures Split(a + "/" + b, '/') == [a] + Split(b, '/')
  {
    SplitAtSeparator(a, b, '/');
    SplitWithoutSeparator(a, '/');
  }

  /**
   * A planned download points at the owner and repository of the mod's
   * link and at the tag of the feed's first link, for the local file name.
   */
  lemma FeedPlanUsesLinkAndTag(url: string, fileName: string, feeds: FeedServer)
    requires PlanFromFeed(url, fileName, feeds).Fetch?
    ensures var pieces := Split(PlanFromFeed(url, fileName, feeds).downloadUrl, '/');
      var urlParts := Split(url, '/');
      var items := feeds(FeedUrl(urlParts[3], urlParts[4])).value;
      && |pieces| >= 9
      && pieces[3] == urlParts[3] && pieces[4] == urlParts[4]
      && pieces[5] == "releases" && pieces[6] == "download"
      && pieces[7] == Split(items[0].links[0], '/')[7]
      && pieces[8..] == Split(fileName, '/')
  {
    var urlParts := Split(url, '/');
    var items := feeds(FeedUrl(urlParts[3], urlParts[4])).value;
    var tag := Split(items[0].links[0], '/')[7];
    ReleaseDownloadUrlPieces(urlParts[3], urlParts[4], tag, fileName);
  }

  /** An empty feed, or a first entry without a title, gives (3, null) and touches nothing. */
  lemma EmptyFeedIsInvalidLink(files: map<string, Bytes>, readOnly: set<string>, dllFile: string, url: string,
                               dryMode: bool, feeds: FeedServer, downloads: DownloadServer, hash: Hasher)
    requires |Split(url, '/')| >= 5
    requires var parts := Split(url, '/');
      var items := feeds(FeedUrl(parts[3], parts[4]));
      items.Some? && (items.value == [] || items.value[0].title.None?)
    ensures FeedSpec(files, readOnly, dllFile, url, dryMode, feeds, downloads, hash) == Synced(Outcome(StatusInvalidLink, None), files)
  {
  }

  /**
   * Every exception inside DownloadFromRSS's try block is caught and gives
   * (-1, null) with no file changed: a link with fewer than five pieces,
   * a feed that fails to load, a first titled entry without links, and a tag
   * link with fewer than eight pieces.
   */
  lemma FeedFailuresAreCaught(files: map<string, Bytes>, readOnly: set<string>, dllFile: string, url: string,
                              dryMode: bool, feeds: FeedServer, downloads: DownloadServer, hash: Hasher)
    ensures |Split(url, '/')| < 5 ==>
      FeedSpec(files, readOnly, dllFile, url, dryMode, feeds, downloads, hash) == Synced(Outcome(StatusFailed, None), files)
    ensures |Split(url, '/')| >= 5 && feeds(FeedUrl(Split(url, '/')[3], Split(url, '/')[4])).None? ==>
      FeedSpec(files, readOnly, dllFile, url, dryMode, feeds, downloads, hash) == Synced(Outcome(StatusFailed, None), files)
    ensures |Split(url, '/')| >= 5 && FirstTitledItemWithoutLinks(feeds(FeedUrl(Split(url, '/')[3], Split(url, '/')[4]))) ==>
      FeedSpec(files, readOnly, dllFile, url, dryMode, feeds, downloads, hash) == Synced(Outcome(StatusFailed, None), files)
    ensures |Split(url, '/')| >= 5 && ShortTagLink(feeds(FeedUrl(Split(url, '/')[3], Split(url, '/')[4]))) ==>
      FeedSpec(files, readOnly, dllFile, url, dryMode, feeds, downloads, hash) == Synced(Outcome(StatusFailed, None), files)
  {
  }

  /** The feed loaded and its first entry has a title but no link. */
  predicate FirstTitledItemWithoutLinks(items: Option<seq<FeedItem>>) {
    items.Some? && items.value != [] && items.value[0].title.Some? && items.value[0].links == []
  }

  /** The feed loaded and its first entry has a title and a first link with fewer than eight pieces. */
  predicate ShortTagLink(items: Option<seq<FeedItem>>) {
    items.Some? && items.value != [] && items.value[0].title.Some? && items.value[0].links != []
      && |Split(items.value[0].links[0], '/')| < 8
  }

  /**
   * The download step of DownloadFromRSS: a planned download that fails, or
   * whose module file is missing, is caught too and gives (-1, null).
   */
  lemma FeedDownloadFailuresAreCaught(files: map<string, Bytes>, readOnly: set<string>, dllFile: string, url: string,
                                      dryMode: bool, feeds: FeedServer, downloads: DownloadServer, hash: Hasher)
    requires PlanFromFeed(url, FileName(dllFile), feeds).Fetch?
    requires downloads(PlanFromFeed(url, FileName(dllFile), feeds).downloadUrl).None? || dllFile !in files
    ensures FeedSpec(files, readOnly, dllFile, url, dryMode, feeds, downloads, hash) == Synced(Outcome(StatusFailed, None), files)
  {
    FailuresAreCaught(files, readOnly, dllFile, PlanFromFeed(url, FileName(dllFile), feeds).downloadUrl, dryMode, downloads, hash);
  }

  /**
   * The intended path: a link https://github.com/{owner}/{repo} whose feed
   * starts with a titled entry linking to .../releases/tag/{tag} plans the
   * download of {fileName} from that tag's release.
   */
  lemma FeedRoundTrip(owner: string, repo: string, tag: string, title: string, fileName: string,
                      more: seq<FeedItem>, feeds: FeedServer)
    requires '/' !in owner && '/' !in repo && '/' !in tag
    requires feeds(FeedUrl(owner, repo)) == Some([FeedItem(Some(title), [TagPageUrl(owner, repo, tag)])] + more)
    ensures PlanFromFeed(RepositoryUrl(owner, repo), fileName, feeds) == Fetch(ReleaseDownloadUrl(owner, repo, tag, fileName))
  {
    RepositoryUrlPieces(owner, repo);
    TagPageUrlPieces(owner, repo, tag);
  }

  function RepositoryUrl(owner: string, repo: string): string {
    "https://github.com/" + owner + "/" + repo
  }

  function TagPageUrl(owner: string, repo: string, tag: string): string {
    "https://github.com/" + owner + "/" + repo + "/releases/tag/" + tag
  }

  lemma RepositoryUrlPieces(owner: string, repo: string)
    requires '/' !in owner && '/' !in repo
    ensures Split(RepositoryUrl(owner, repo), '/') == ["https:", "", "github.com", owner, repo]
  {
    assert RepositoryUrl(owner, repo) == "https:" + "/" + "" + "/" + "github.com" + "/" + owner + "/" + repo;
    GluedPieces(owner, repo);
    SplitWithoutSeparator(repo, '/');
  }

  lemma GluedPieces(owner: string, rest: string)
    requires '/' !in owner
    ensures Split("https:" + "/" + "" + "/" + "github.com" + "/" + owner + "/" + rest, '/') == ["https:", "", "github.com", owner] + Split(rest, '/')
  {
    SplitFour("https:", "", "github.com", owner, rest);
  }

  lemma TagPageUrlPieces(owner: string, repo: string, tag: string)
    requires '/' !in owner && '/' !in repo && '/' !in tag
    ensures Split(TagPageUrl(owner, repo, tag), '/') == ["https:", "", "github.com", owner, repo, "releases", "tag", tag]
  {
    var tail := TagPageTail(repo, tag);
    TagPageGlued(owner, repo, tag);
    TagPageTailPieces(repo, tag);
    GluedPieces(owner, tail);
  }

  lemma TagPageGlued(owner: string, repo: string, tag: string)
    ensures TagPageUrl(owner, repo, tag) == "https:" + "/" + "" + "/" + "github.com" + "/" + owner + "/" + TagPageTail(repo, tag)
  {
    var g := "https:" + "/" + "" + "/" + "github.com" + "/";
    assert "https://github.com/" == g;
    assert "/releases/tag/" == "/" + ("releases" + "/" + ("tag" + "/"));
    var lhs := g + owner + "/" + repo + "/releases/tag/" + tag;
    assert lhs == g + owner + "/" + (repo + "/" + ("releases" + "/" + ("tag" + "/" + tag)));
  }

  function TagPageTail(repo: string, tag: string): string {
    repo + "/" + ("releases" + "/" + ("tag" + "/" + tag))
  }

  lemma TagPageTailPieces(repo: string, tag: string)
    requires '/' !in repo && '/' !in tag
    ensures Split(TagPageTail(repo, tag), '/') == [repo, "releases", "tag", tag]
  {
    SplitWithoutSeparator(tag, '/');
    SplitPrefixPiece("tag", tag);
    SplitPrefixPiece("releases", "tag" + "/" + tag);
    SplitPrefixPiece(repo, "releases" + "/" + ("tag" + "/" + tag));
  }
}
