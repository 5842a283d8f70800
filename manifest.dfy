/**
 * The records of the mod manifest (manifest.json) as the search reads
 * them. A JSON object keyed by id is a list of (key, value) pairs in
 * document order, the order Dictionary enumerates them in; a property the
 * records mark nullable is an Option.
 */
module Manifest {
  import opened Common
  import opened Uris

  datatype ManifestAuthor = ManifestAuthor(url: Uri, icon: Option<Uri>, support: Option<Uri>)

  datatype ManifestEntryArtifact = ManifestEntryArtifact(url: Option<Uri>, sha256: string, filename: Option<string>,
                                                         installLocation: Option<string>)

  datatype ManifestEntryDependency = ManifestEntryDependency(version: string)

  datatype ManifestEntryVersion = ManifestEntryVersion(
    artifacts: Option<seq<ManifestEntryArtifact>>,
    dependencies: Option<seq<(string, ManifestEntryDependency)>>,
    conflicts: Option<seq<(string, ManifestEntryDependency)>>,
    releaseUrl: Option<Uri>)

  datatype ManifestEntry = ManifestEntry(
    name: string,
    description: string,
    category: string,
    sourceLocation: Option<Uri>,
    website: Option<Uri>,
    tags: Option<seq<string>>,
    flags: Option<seq<string>>,
    platforms: Option<seq<string>>,
    additionalAuthors: Option<seq<(string, ManifestAuthor)>>,
    versions: seq<(string, ManifestEntryVersion)>)

  datatype ManifestObject = ManifestObject(author: seq<(string, ManifestAuthor)>, entries: seq<(string, ManifestEntry)>)

  datatype ManifestData = ManifestData(objects: Option<seq<(string, ManifestObject)>>, schemaVersion: string)

  /** One hit of a search; LatestVersion is null when the entry lists no version. */
  datatype SearchResult = SearchResult(entry: ManifestEntry, id: string, authorName: string,
                                       latestVersion: Option<string>, authorUrl: Uri)

  /** The keys of a dictionary, in enumeration order. */
  function Keys<V>(d: seq<(string, V)>): (keys: seq<string>)
    ensures |keys| == |d|
    ensures forall i :: 0 <= i < |d| ==> keys[i] == d[i].0
  {
    if d == [] then [] else [d[0].0] + Keys(d[1..])
  }

  /** Dictionary.TryGetValue: the value stored under key, if any. */
  function TryGetValue<V>(d: seq<(string, V)>, key: string): (found: Option<V>)
    ensures found.None? <==> forall i :: 0 <= i < |d| ==> d[i].0 != key
    ensures found.Some? ==> exists i :: 0 <= i < |d| && d[i] == (key, found.value)
  {
    if d == [] then None
    else if d[0].0 == key then Some(d[0].1)
    else
      var rest := TryGetValue(d[1..], key);
      assert rest.Some? ==> exists i :: 0 <= i < |d[1..]| && d[1..][i] == (key, rest.value);
      rest
  }

  /** A Dictionary never holds a key twice. */
  predicate DistinctKeys<V>(d: seq<(string, V)>) {
    forall i, j :: 0 <= i < j < |d| ==> d[i].0 != d[j].0
  }

  /** With distinct keys, TryGetValue finds whatever is stored under the key. */
  lemma {:induction false} TryGetValueFinds<V>(d: seq<(string, V)>, key: string, value: V)
    requires DistinctKeys(d) && (key, value) in d
    ensures TryGetValue(d, key) == Some(value)
  {
    if d[0].0 != key {
      var i :| 0 <= i < |d| && d[i] == (key, value);
      assert d[1..][i - 1] == (key, value);
      assert DistinctKeys(d[1..]) by {
        forall i, j | 0 <= i < j < |d[1..]| ensures d[1..][i].0 != d[1..][j].0 {
          assert d[1..][i] == d[i + 1] && d[1..][j] == d[j + 1];
        }
      }
      TryGetValueFinds(d[1..], key, value);
    } else {
      var i :| 0 <= i < |d| && d[i] == (key, value);
      assert i == 0;
    }
  }
}
