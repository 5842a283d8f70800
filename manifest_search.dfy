/**
 * Utils.SearchManifest: every entry of every author object whose Name or
 * Description contains the search term (ignoring case) becomes one search
 * result, in document order. Fetching the manifest and parsing its JSON
 * are inputs: the downloaded text, and a deserializer from text to
 * ManifestData (null for the JSON literal null, an error when it throws).
 */
module ManifestSearch {
  import opened Common
  import opened Uris
  import opened Manifest

  /** JsonConvert.DeserializeObject<ManifestData>: a value, null, or the exception it throws. */
  type Deserializer = string -> Result<Option<ManifestData>>

  /** The message of the exception Enumerable.First throws on an empty author dictionary. */
  const NoElementsMessage := "Sequence contains no elements"

  /** Versions.Keys.Max(): null for no keys, otherwise the greatest key. */
  function MaxKey(keys: seq<string>): (m: Option<string>)
    ensures m.None? <==> keys == []
    ensures m.Some? ==> m.value in keys && forall k :: k in keys ==> LessEq(k, m.value)
  {
    if keys == [] then None
    else
      match MaxKey(keys[1..])
      case None =>
        LessEqReflexive(keys[0]);
        assert keys == [keys[0]];
        Some(keys[0])
      case Some(r) =>
        LessEqTotal(keys[0], r);
        LessEqReflexive(keys[0]);
        assert keys == [keys[0]] + keys[1..];
        if LessEq(keys[0], r) then Some(r)
        else
          assert forall k :: k in keys[1..] ==> LessEq(k, keys[0]) by {
            forall k | k in keys[1..] ensures LessEq(k, keys[0]) {
              LessEqTransitive(k, r, keys[0]);
            }
          }
          Some(keys[0])
  }

  /** The maximum is unique: any key that is in keys and at least every key is the one Max returns. */
  lemma MaxKeyUnique(keys: seq<string>, m: string)
    requires m in keys && forall k :: k in keys ==> LessEq(k, m)
    ensures MaxKey(keys) == Some(m)
  {
    LessEqAntisymmetric(m, MaxKey(keys).value);
  }

  /** The filter: Name or Description contains the term, ignoring case. */
  predicate Matches(entry: ManifestEntry, term: string) {
    ContainsIgnoreCase(entry.name, term) || ContainsIgnoreCase(entry.description, term)
  }

  /** The result for one matching entry of an object whose author dictionary is not empty. */
  function ResultFor(author: seq<(string, ManifestAuthor)>, id: string, entry: ManifestEntry): SearchResult
    requires author != []
  {
    SearchResult(entry, id, author[0].0, MaxKey(Keys(entry.versions)), author[0].1.url)
  }

  /** The inner loop over one object's entries (a prefix of them, from the end). */
  function EntryResults(term: string, author: seq<(string, ManifestAuthor)>, entries: seq<(string, ManifestEntry)>): Result<seq<SearchResult>>
  {
    if entries == [] then Ok([])
    else
      match EntryResults(term, author, entries[..|entries| - 1])
      case Err(m) => Err(m)
      case Ok(found) =>
        var (id, entry) := entries[|entries| - 1];
        if !Matches(entry, term) then Ok(found)
        else if author == [] then Err(NoElementsMessage)
        else Ok(found + [ResultFor(author, id, entry)])
  }

  /** The outer loop over the author objects (a prefix of them, from the end). */
  function ObjectResults(term: string, objects: seq<(string, ManifestObject)>): Result<seq<SearchResult>>
  {
    if objects == [] then Ok([])
    else
      match ObjectResults(term, objects[..|objects| - 1])
      case Err(m) => Err(m)
      case Ok(found) =>
        var obj := objects[|objects| - 1].1;
        match EntryResults(term, obj.author, obj.entries)
        case Err(m) => Err(m)
        case Ok(more) => Ok(found + more)
  }

  /** SearchManifest as a function of the downloaded text. */
  function Search(searchTerm: string, manifestContent: string, deserialize: Deserializer): Result<seq<SearchResult>> {
    if manifestContent == "" then Ok([])
    else
      match deserialize(manifestContent)
      case Err(m) => Err(m)
      case Ok(manifest) =>
        if manifest.None? || manifest.value.objects.None? then Ok([])
        else ObjectResults(searchTerm, manifest.value.objects.value)
  }

  method SearchManifest(searchTerm: string, manifestContent: string, deserialize: Deserializer)
    returns (results: Result<seq<SearchResult>>)
    ensures results == Search(searchTerm, manifestContent, deserialize)
  {
    if manifestContent == "" {
      return Ok([]);
    }
    var parsed := deserialize(manifestContent);
    if parsed.Err? {
      return Err(parsed.message);
    }
    var manifest := parsed.value;
    if manifest.None? || manifest.value.objects.None? {
      return Ok([]);
    }
    var objects := manifest.value.objects.value;
    var found: seq<SearchResult> := [];
    var i := 0;
    while i < |objects|
      invariant 0 <= i <= |objects|
      invariant ObjectResults(searchTerm, objects[..i]) == Ok(found)
    {
      assert objects[..i + 1][..i] == objects[..i];
      var more := SearchEntries(searchTerm, objects[i].1.author, objects[i].1.entries);
      if more.Err? {
        EntryResultsErrIff(searchTerm, objects[i].1.author, objects[i].1.entries);
        ObjectsErrorStops(searchTerm, objects, i + 1);
        return Err(NoElementsMessage);
      }
      found := found + more.value;
      i := i + 1;
    }
    assert objects[..i] == objects;
    results := Ok(found);
  }

  /** The inner loop over one object's entries; it throws on the first match under an empty author dictionary. */
  method SearchEntries(searchTerm: string, author: seq<(string, ManifestAuthor)>, entries: seq<(string, ManifestEntry)>)
    returns (results: Result<seq<SearchResult>>)
    ensures results == EntryResults(searchTerm, author, entries)
  {
    var more: seq<SearchResult> := [];
    var j := 0;
    while j < |entries|
      invariant 0 <= j <= |entries|
      invariant EntryResults(searchTerm, author, entries[..j]) == Ok(more)
    {
      var (id, entry) := entries[j];
      assert entries[..j + 1][..j] == entries[..j];
      if Matches(entry, searchTerm) {
        if author == [] {
          ObjectErrorStops(searchTerm, author, entries, j + 1);
          return Err(NoElementsMessage);
        }
        more := more + [ResultFor(author, id, entry)];
      }
      j := j + 1;
    }
    assert entries[..j] == entries;
    results := Ok(more);
  }

  /** Once the inner loop has thrown on a prefix, it has thrown on every longer prefix. */
  lemma {:induction false} ObjectErrorStops(term: string, author: seq<(string, ManifestAuthor)>, entries: seq<(string, ManifestEntry)>, j: nat)
    requires j <= |entries| && EntryResults(term, author, entries[..j]) == Err(NoElementsMessage)
    ensures EntryResults(term, author, entries) == Err(NoElementsMessage)
    decreases |entries| - j
  {
    if j < |entries| {
      assert entries[..j + 1][..j] == entries[..j];
      ObjectErrorStops(term, author, entries, j + 1);
    } else {
      assert entries[..j] == entries;
    }
  }

  /** Once an object has thrown, the whole search has thrown. */
  lemma ObjectsErrorStops(term: string, objects: seq<(string, ManifestObject)>, i: nat)
    requires 0 < i <= |objects|
    requires EntryResults(term, objects[i - 1].1.author, objects[i - 1].1.entries) == Err(NoElementsMessage)
    ensures ObjectResults(term, objects) == Err(NoElementsMessage)
  {
    assert objects[..i][..i - 1] == objects[..i - 1];
    assert objects[..i][i - 1] == objects[i - 1];
    ObjectResultsErrIff(term, objects[..i - 1]);
    ObjectsErrorStopsFrom(term, objects, i);
  }

  lemma {:induction false} ObjectsErrorStopsFrom(term: string, objects: seq<(string, ManifestObject)>, i: nat)
    requires i <= |objects|
    requires ObjectResults(term, objects[..i]) == Err(NoElementsMessage)
    ensures ObjectResults(term, objects) == Err(NoElementsMessage)
    decreases |objects| - i
  {
    if i < |objects| {
      assert objects[..i + 1][..i] == objects[..i];
      ObjectsErrorStopsFrom(term, objects, i + 1);
    } else {
      assert objects[..i] == objects;
    }
  }

  // ---------------------------------------------------------------------
  // Properties

  /** No manifest text, a null manifest or null Objects: no results and no error. */
  lemma NothingToSearch(term: string, content: string, deserialize: Deserializer)
    requires content == "" || deserialize(content) == Ok(None) ||
             (deserialize(content).Ok? && deserialize(content).value.Some? && deserialize(content).value.value.objects.None?)
    ensures Search(term, content, deserialize) == Ok([])
  {
  }

  /** A matching entry inside an object whose author dictionary is empty. */
  predicate Throws(term: string, objects: seq<(string, ManifestObject)>) {
    exists i, j :: 0 <= i < |objects| && 0 <= j < |objects[i].1.entries| &&
      objects[i].1.author == [] && Matches(objects[i].1.entries[j].1, term)
  }

  predicate EntriesThrow(term: string, author: seq<(string, ManifestAuthor)>, entries: seq<(string, ManifestEntry)>) {
    author == [] && exists j :: 0 <= j < |entries| && Matches(entries[j].1, term)
  }

  lemma {:induction false} EntryResultsErrIff(term: string, author: seq<(string, ManifestAuthor)>, entries: seq<(string, ManifestEntry)>)
    ensures EntryResults(term, author, entries).Err? <==> EntriesThrow(term, author, entries)
    ensures EntryResults(term, author, entries).Err? ==> EntryResults(term, author, entries) == Err(NoElementsMessage)
  {
    if entries != [] {
      var init := entries[..|entries| - 1];
      EntryResultsErrIff(term, author, init);
      if EntriesThrow(term, author, init) {
        var j :| 0 <= j < |init| && Matches(init[j].1, term);
        assert entries[j] == init[j];
      }
      if EntriesThrow(term, author, entries) && !Matches(entries[|entries| - 1].1, term) {
        var j :| 0 <= j < |entries| && Matches(entries[j].1, term);
        assert init[j] == entries[j];
      }
    }
  }

  /** The search throws exactly when some matching entry sits under an empty author dictionary. */
  lemma {:induction false} ObjectResultsErrIff(term: string, objects: seq<(string, ManifestObject)>)
    ensures ObjectResults(term, objects).Err? <==> Throws(term, objects)
    ensures ObjectResults(term, objects).Err? ==> ObjectResults(term, objects) == Err(NoElementsMessage)
  {
    if objects != [] {
      var init := objects[..|objects| - 1];
      var obj := objects[|objects| - 1].1;
      ObjectResultsErrIff(term, init);
      EntryResultsErrIff(term, obj.author, obj.entries);
      if Throws(term, init) {
        var i, j :| 0 <= i < |init| && 0 <= j < |init[i].1.entries| && init[i].1.author == [] && Matches(init[i].1.entries[j].1, term);
        assert objects[i] == init[i];
      }
      if EntriesThrow(term, obj.author, obj.entries) {
        var j :| 0 <= j < |obj.entries| && Matches(obj.entries[j].1, term);
        assert objects[|objects| - 1].1.entries[j] == obj.entries[j];
      }
      assert forall i :: 0 <= i < |init| ==> init[i] == objects[i];
    }
  }

  /** The search throws exactly when a matching entry has an author dictionary with no author. */
  lemma SearchErrIff(term: string, content: string, deserialize: Deserializer, data: ManifestData)
    requires content != "" && deserialize(content) == Ok(Some(data)) && data.objects.Some?
    ensures Search(term, content, deserialize).Err? <==> Throws(term, data.objects.value)
  {
    ObjectResultsErrIff(term, data.objects.value);
  }

  /** r is the result of one of the matching entries. */
  predicate IsEntryHit(term: string, author: seq<(string, ManifestAuthor)>, entries: seq<(string, ManifestEntry)>, r: SearchResult)
    requires author != []
  {
    exists j :: 0 <= j < |entries| && Matches(entries[j].1, term) && r == ResultFor(author, entries[j].0, entries[j].1)
  }

  /** The hits of one object: one result per matching entry, each with the object's author (their order is HitsInEntryOrder). */
  predicate EntryHitsAre(term: string, author: seq<(string, ManifestAuthor)>, entries: seq<(string, ManifestEntry)>, found: seq<SearchResult>)
    requires author != []
  {
    |found| == CountMatching(term, entries) &&
    (forall k :: 0 <= k < |found| ==> IsEntryHit(term, author, entries, found[k])) &&
    (forall j :: 0 <= j < |entries| && Matches(entries[j].1, term) ==> ResultFor(author, entries[j].0, entries[j].1) in found)
  }

  /** Number of entries that match the term. */
  function CountMatching(term: string, entries: seq<(string, ManifestEntry)>): nat {
    if entries == [] then 0
    else CountMatching(term, entries[..|entries| - 1]) + (if Matches(entries[|entries| - 1].1, term) then 1 else 0)
  }

  /**
   * Soundness and completeness for one object: each result comes from a
   * matching entry, each matching entry gives a result, one result per match.
   */
  lemma {:induction false} EntryResultsAreHits(term: string, author: seq<(string, ManifestAuthor)>, entries: seq<(string, ManifestEntry)>)
    requires author != []
    ensures EntryResults(term, author, entries).Ok?
    ensures EntryHitsAre(term, author, entries, EntryResults(term, author, entries).value)
  {
    EntryResultsErrIff(term, author, entries);
    EntryResultsCount(term, author, entries);
    EntryResultsSound(term, author, entries);
    EntryResultsComplete(term, author, entries);
  }

  /** With an author, one result per matching entry. */
  lemma {:induction false} EntryResultsCount(term: string, author: seq<(string, ManifestAuthor)>, entries: seq<(string, ManifestEntry)>)
    requires author != []
    ensures EntryResults(term, author, entries).Ok?
    ensures |EntryResults(term, author, entries).value| == CountMatching(term, entries)
  {
    if entries != [] {
      EntryResultsCount(term, author, entries[..|entries| - 1]);
    }
  }

  /** Each result is built from a matching entry. */
  lemma {:induction false} EntryResultsSound(term: string, author: seq<(string, ManifestAuthor)>, entries: seq<(string, ManifestEntry)>)
    requires author != []
    ensures EntryResults(term, author, entries).Ok?
    ensures forall k :: 0 <= k < |EntryResults(term, author, entries).value| ==>
      IsEntryHit(term, author, entries, EntryResults(term, author, entries).value[k])
  {
    if entries != [] {
      var init := entries[..|entries| - 1];
      var last := entries[|entries| - 1];
      EntryResultsSound(term, author, init);
      var found := EntryResults(term, author, init).value;
      var all := EntryResults(term, author, entries).value;
      assert all == if Matches(last.1, term) then found + [ResultFor(author, last.0, last.1)] else found;
      forall k | 0 <= k < |all|
        ensures IsEntryHit(term, author, entries, all[k])
      {
        if k < |found| {
          assert IsEntryHit(term, author, init, found[k]);
          var j :| 0 <= j < |init| && Matches(init[j].1, term) && found[k] == ResultFor(author, init[j].0, init[j].1);
          assert entries[j] == init[j];
          assert all[k] == found[k];
        } else {
          assert all[k] == ResultFor(author, last.0, last.1);
          assert Matches(entries[|entries| - 1].1, term);
        }
      }
    }
  }

  /** Each matching entry gives a result. */
  lemma {:induction false} EntryResultsComplete(term: string, author: seq<(string, ManifestAuthor)>, entries: seq<(string, ManifestEntry)>)
    requires author != []
    ensures EntryResults(term, author, entries).Ok?
    ensures forall j :: 0 <= j < |entries| && Matches(entries[j].1, term) ==>
      ResultFor(author, entries[j].0, entries[j].1) in EntryResults(term, author, entries).value
  {
    if entries != [] {
      var init := entries[..|entries| - 1];
      var last := entries[|entries| - 1];
      EntryResultsComplete(term, author, init);
      var found := EntryResults(term, author, init).value;
      var all := EntryResults(term, author, entries).value;
      assert all == if Matches(last.1, term) then found + [ResultFor(author, last.0, last.1)] else found;
      forall j | 0 <= j < |entries| && Matches(entries[j].1, term)
        ensures ResultFor(author, entries[j].0, entries[j].1) in all
      {
        if j < |init| {
          assert init[j] == entries[j];
        }
      }
    }
  }

  /** r1 occurs in the list before r2. */
  predicate OccursBefore(found: seq<SearchResult>, r1: SearchResult, r2: SearchResult) {
    exists k1, k2 :: 0 <= k1 < k2 < |found| && found[k1] == r1 && found[k2] == r2
  }

  /** For any two matching entries, their results appear in the same order as the entries. */
  predicate HitsInEntryOrder(term: string, author: seq<(string, ManifestAuthor)>, entries: seq<(string, ManifestEntry)>, found: seq<SearchResult>)
    requires author != []
  {
    forall j1, j2 :: 0 <= j1 < j2 < |entries| && Matches(entries[j1].1, term) && Matches(entries[j2].1, term) ==>
      OccursBefore(found, ResultFor(author, entries[j1].0, entries[j1].1), ResultFor(author, entries[j2].0, entries[j2].1))
  }

  /** Within an object, the results keep the order of the entries (List.Add in foreach order). */
  lemma {:induction false} EntryResultsInOrder(term: string, author: seq<(string, ManifestAuthor)>, entries: seq<(string, ManifestEntry)>)
    requires author != []
    ensures EntryResults(term, author, entries).Ok?
    ensures HitsInEntryOrder(term, author, entries, EntryResults(term, author, entries).value)
  {
    EntryResultsErrIff(term, author, entries);
    if entries != [] {
      var init := entries[..|entries| - 1];
      var last := entries[|entries| - 1];
      EntryResultsInOrder(term, author, init);
      EntryResultsAreHits(term, author, init);
      var found := EntryResults(term, author, init).value;
      assert entries == init + [last];
      assert EntryResults(term, author, entries).value ==
        if Matches(last.1, term) then found + [ResultFor(author, last.0, last.1)] else found;
      OrderStep(term, author, init, last, found);
    }
  }

  /** One more entry keeps the order: its result, if any, comes after all earlier ones. */
  lemma OrderStep(term: string, author: seq<(string, ManifestAuthor)>, init: seq<(string, ManifestEntry)>,
                  last: (string, ManifestEntry), found: seq<SearchResult>)
    requires author != []
    requires HitsInEntryOrder(term, author, init, found)
    requires EntryHitsAre(term, author, init, found)
    ensures HitsInEntryOrder(term, author, init + [last],
      if Matches(last.1, term) then found + [ResultFor(author, last.0, last.1)] else found)
  {
    if Matches(last.1, term) {
      OrderStepHit(term, author, init, last, found);
    } else {
      OrderStepMiss(term, author, init, last, found);
    }
  }

  lemma OrderStepHit(term: string, author: seq<(string, ManifestAuthor)>, init: seq<(string, ManifestEntry)>,
                     last: (string, ManifestEntry), found: seq<SearchResult>)
    requires author != []
    requires HitsInEntryOrder(term, author, init, found)
    requires forall j :: 0 <= j < |init| && Matches(init[j].1, term) ==> ResultFor(author, init[j].0, init[j].1) in found
    ensures HitsInEntryOrder(term, author, init + [last], found + [ResultFor(author, last.0, last.1)])
  {
    var entries := init + [last];
    var r := ResultFor(author, last.0, last.1);
    var all := found + [r];
    forall j1, j2 | 0 <= j1 < j2 < |entries| && Matches(entries[j1].1, term) && Matches(entries[j2].1, term)
      ensures OccursBefore(all, ResultFor(author, entries[j1].0, entries[j1].1), ResultFor(author, entries[j2].0, entries[j2].1))
    {
      var e1 := entries[j1];
      assert e1 == init[j1];
      if j2 < |init| {
        assert entries[j2] == init[j2];
        OccursBeforeExtends(found, [r], ResultFor(author, e1.0, e1.1), ResultFor(author, init[j2].0, init[j2].1));
      } else {
        assert entries[j2] == last;
        var k1 :| 0 <= k1 < |found| && found[k1] == ResultFor(author, e1.0, e1.1);
        assert all[k1] == found[k1] && all[|found|] == r;
      }
    }
  }

  lemma OrderStepMiss(term: string, author: seq<(string, ManifestAuthor)>, init: seq<(string, ManifestEntry)>,
                      last: (string, ManifestEntry), found: seq<SearchResult>)
    requires author != [] && !Matches(last.1, term)
    requires HitsInEntryOrder(term, author, init, found)
    ensures HitsInEntryOrder(term, author, init + [last], found)
  {
    var entries := init + [last];
    forall j1, j2 | 0 <= j1 < j2 < |entries| && Matches(entries[j1].1, term) && Matches(entries[j2].1, term)
      ensures OccursBefore(found, ResultFor(author, entries[j1].0, entries[j1].1), ResultFor(author, entries[j2].0, entries[j2].1))
    {
      assert entries[j1] == init[j1];
      assert entries[j2] == init[j2];
    }
  }

  /** Appending to a list keeps the order of what it held. */
  lemma OccursBeforeExtends(found: seq<SearchResult>, more: seq<SearchResult>, r1: SearchResult, r2: SearchResult)
    requires OccursBefore(found, r1, r2)
    ensures OccursBefore(found + more, r1, r2)
  {
    var k1, k2 :| 0 <= k1 < k2 < |found| && found[k1] == r1 && found[k2] == r2;
    assert (found + more)[k1] == r1 && (found + more)[k2] == r2;
  }

  /** Every result's LatestVersion is the greatest version key of its entry (null when there is none). */
  lemma LatestVersionIsMax(term: string, author: seq<(string, ManifestAuthor)>, entries: seq<(string, ManifestEntry)>, r: SearchResult)
    requires author != []
    requires EntryResults(term, author, entries).Ok? && r in EntryResults(term, author, entries).value
    ensures r.latestVersion.None? <==> r.entry.versions == []
    ensures r.latestVersion.Some? ==>
      (exists v :: (r.latestVersion.value, v) in r.entry.versions) &&
      forall i :: 0 <= i < |r.entry.versions| ==> LessEq(r.entry.versions[i].0, r.latestVersion.value)
    ensures Matches(r.entry, term) && r.authorName == author[0].0 && r.authorUrl == author[0].1.url
  {
    EntryResultsAreHits(term, author, entries);
    var found := EntryResults(term, author, entries).value;
    var k :| 0 <= k < |found| && found[k] == r;
    var j :| 0 <= j < |entries| && Matches(entries[j].1, term) && found[k] == ResultFor(author, entries[j].0, entries[j].1);
    var keys := Keys(r.entry.versions);
    if r.latestVersion.Some? {
      var i :| 0 <= i < |keys| && keys[i] == r.latestVersion.value;
      assert (r.latestVersion.value, r.entry.versions[i].1) in r.entry.versions;
      forall i | 0 <= i < |r.entry.versions|
        ensures LessEq(r.entry.versions[i].0, r.latestVersion.value)
      {
        assert keys[i] in keys;
      }
    }
  }

  /** Number of matching entries over all objects. */
  function CountAllMatching(term: string, objects: seq<(string, ManifestObject)>): nat {
    if objects == [] then 0
    else CountAllMatching(term, objects[..|objects| - 1]) + CountMatching(term, objects[|objects| - 1].1.entries)
  }

  /** Each result comes from a matching entry of some object, built with that object's first author. */
  predicate ObjectsSound(term: string, objects: seq<(string, ManifestObject)>, all: seq<SearchResult>) {
    forall k :: 0 <= k < |all| ==> IsHitOf(term, objects, all[k])
  }

  /** The result is built from a matching entry of some object and that object's first author. */
  predicate IsHitOf(term: string, objects: seq<(string, ManifestObject)>, r: SearchResult) {
    exists i, j :: 0 <= i < |objects| && 0 <= j < |objects[i].1.entries| &&
      objects[i].1.author != [] && Matches(objects[i].1.entries[j].1, term) &&
      r == ResultFor(objects[i].1.author, objects[i].1.entries[j].0, objects[i].1.entries[j].1)
  }

  /** Each matching entry of each object is among the results (and its object has an author). */
  predicate ObjectsComplete(term: string, objects: seq<(string, ManifestObject)>, all: seq<SearchResult>) {
    forall i, j :: 0 <= i < |objects| && 0 <= j < |objects[i].1.entries| && Matches(objects[i].1.entries[j].1, term) ==>
      objects[i].1.author != [] &&
      ResultFor(objects[i].1.author, objects[i].1.entries[j].0, objects[i].1.entries[j].1) in all
  }

  /** The hits of all objects: one per matching entry, each from a matching entry and its object's first author, and every matching entry among them. */
  predicate ObjectHitsAre(term: string, objects: seq<(string, ManifestObject)>, all: seq<SearchResult>) {
    && |all| == CountAllMatching(term, objects)
    && ObjectsSound(term, objects, all)
    && ObjectsComplete(term, objects, all)
  }

  /** One step of the outer loop: what the last object adds when the search does not throw. */
  lemma ObjectStep(term: string, objects: seq<(string, ManifestObject)>)
    requires objects != [] && ObjectResults(term, objects).Ok?
    ensures ObjectResults(term, objects[..|objects| - 1]).Ok?
    ensures EntryResults(term, objects[|objects| - 1].1.author, objects[|objects| - 1].1.entries).Ok?
    ensures ObjectResults(term, objects).value ==
      ObjectResults(term, objects[..|objects| - 1]).value + EntryResults(term, objects[|objects| - 1].1.author, objects[|objects| - 1].1.entries).value
    ensures CountAllMatching(term, objects) == CountAllMatching(term, objects[..|objects| - 1]) + CountMatching(term, objects[|objects| - 1].1.entries)
  {
    ObjectResultsErrIff(term, objects);
    ObjectResultsErrIff(term, objects[..|objects| - 1]);
    EntryResultsErrIff(term, objects[|objects| - 1].1.author, objects[|objects| - 1].1.entries);
  }

  /** What the last object's inner loop contributes, with or without an author. */
  lemma LastObjectHits(term: string, obj: ManifestObject)
    requires EntryResults(term, obj.author, obj.entries).Ok?
    ensures |EntryResults(term, obj.author, obj.entries).value| == CountMatching(term, obj.entries)
    ensures obj.author != [] ==> EntryHitsAre(term, obj.author, obj.entries, EntryResults(term, obj.author, obj.entries).value)
    ensures obj.author == [] ==> EntryResults(term, obj.author, obj.entries).value == []
    ensures obj.author == [] ==> forall j :: 0 <= j < |obj.entries| ==> !Matches(obj.entries[j].1, term)
  {
    if obj.author != [] {
      EntryResultsAreHits(term, obj.author, obj.entries);
    } else {
      NoMatchNoResult(term, obj.author, obj.entries);
    }
  }

  lemma {:induction false} ObjectResultsCount(term: string, objects: seq<(string, ManifestObject)>)
    requires ObjectResults(term, objects).Ok?
    ensures |ObjectResults(term, objects).value| == CountAllMatching(term, objects)
  {
    if objects != [] {
      ObjectStep(term, objects);
      ObjectResultsCount(term, objects[..|objects| - 1]);
      LastObjectHits(term, objects[|objects| - 1].1);
    }
  }

  lemma {:induction false} ObjectResultsSound(term: string, objects: seq<(string, ManifestObject)>)
    requires ObjectResults(term, objects).Ok?
    ensures ObjectsSound(term, objects, ObjectResults(term, objects).value)
  {
    if objects != [] {
      var init := objects[..|objects| - 1];
      var obj := objects[|objects| - 1].1;
      ObjectStep(term, objects);
      ObjectResultsSound(term, init);
      LastObjectHits(term, obj);
      var found := ObjectResults(term, init).value;
      var more := EntryResults(term, obj.author, obj.entries).value;
      var all := ObjectResults(term, objects).value;
      assert all == found + more;
      forall k | 0 <= k < |all|
        ensures IsHitOf(term, objects, all[k])
      {
        if k < |found| {
          assert all[k] == found[k];
          assert IsHitOf(term, init, found[k]);
          var i, j :| 0 <= i < |init| && 0 <= j < |init[i].1.entries| &&
            init[i].1.author != [] && Matches(init[i].1.entries[j].1, term) &&
            found[k] == ResultFor(init[i].1.author, init[i].1.entries[j].0, init[i].1.entries[j].1);
          assert objects[i] == init[i];
        } else {
          assert all[k] == more[k - |found|];
          assert obj.author != [];
          var j :| 0 <= j < |obj.entries| && Matches(obj.entries[j].1, term) && more[k - |found|] == ResultFor(obj.author, obj.entries[j].0, obj.entries[j].1);
          assert objects[|objects| - 1].1 == obj;
        }
      }
      assert ObjectsSound(term, objects, all);
    }
  }

  lemma {:induction false} ObjectResultsComplete(term: string, objects: seq<(string, ManifestObject)>)
    requires ObjectResults(term, objects).Ok?
    ensures ObjectsComplete(term, objects, ObjectResults(term, objects).value)
  {
    if objects != [] {
      var init := objects[..|objects| - 1];
      var obj := objects[|objects| - 1].1;
      ObjectStep(term, objects);
      ObjectResultsComplete(term, init);
      LastObjectHits(term, obj);
      var found := ObjectResults(term, init).value;
      var more := EntryResults(term, obj.author, obj.entries).value;
      var all := ObjectResults(term, objects).value;
      assert all == found + more;
      forall i, j | 0 <= i < |objects| && 0 <= j < |objects[i].1.entries| && Matches(objects[i].1.entries[j].1, term)
        ensures objects[i].1.author != [] &&
            ResultFor(objects[i].1.author, objects[i].1.entries[j].0, objects[i].1.entries[j].1) in all
      {
        if i < |init| {
          assert init[i] == objects[i];
          assert ResultFor(init[i].1.author, init[i].1.entries[j].0, init[i].1.entries[j].1) in found;
        } else {
          assert objects[i].1 == obj;
          assert obj.author != [];
          assert ResultFor(obj.author, obj.entries[j].0, obj.entries[j].1) in more;
        }
      }
    }
  }

  /**
   * Over all objects: when the search does not throw, it returns one result
   * per matching entry, each built from that entry and its object's first
   * author, and every matching entry is among them.
   */
  lemma ObjectResultsAreHits(term: string, objects: seq<(string, ManifestObject)>)
    requires ObjectResults(term, objects).Ok?
    ensures ObjectHitsAre(term, objects, ObjectResults(term, objects).value)
  {
    ObjectResultsCount(term, objects);
    ObjectResultsSound(term, objects);
    ObjectResultsComplete(term, objects);
  }

  /** Under an empty author dictionary nothing matches when the loop does not throw. */
  lemma NoMatchNoResult(term: string, author: seq<(string, ManifestAuthor)>, entries: seq<(string, ManifestEntry)>)
    requires author == [] && EntryResults(term, author, entries).Ok?
    ensures EntryResults(term, author, entries).value == [] && CountMatching(term, entries) == 0
    ensures forall j :: 0 <= j < |entries| ==> !Matches(entries[j].1, term)
  {
    EntryResultsErrIff(term, author, entries);
    NoMatchCountsZero(term, entries);
  }

  lemma {:induction false} NoMatchCountsZero(term: string, entries: seq<(string, ManifestEntry)>)
    requires forall j :: 0 <= j < |entries| ==> !Matches(entries[j].1, term)
    ensures CountMatching(term, entries) == 0
  {
    if entries != [] {
      var init := entries[..|entries| - 1];
      assert forall j :: 0 <= j < |init| ==> init[j] == entries[j];
      NoMatchCountsZero(term, init);
    }
  }
}
