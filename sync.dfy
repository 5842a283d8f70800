/**
 * The local file system as the updater sees it: the bytes of each file by
 * path, and the paths a write fails on (File.WriteAllBytes throws).
 */
module FileStore {
  import opened Common

  class FileSystem {
    var files: map<string, Bytes>
    var readOnly: set<string>

    constructor (files: map<string, Bytes>, readOnly: set<string>)
      ensures this.files == files && this.readOnly == readOnly
    {
      this.files := files;
      this.readOnly := readOnly;
    }

    /** File.ReadAllBytes: None when the file does not exist (it throws). */
    method ReadAllBytes(path: string) returns (data: Option<Bytes>)
      ensures data == if path in files then Some(files[path]) else None
    {
      data := if path in files then Some(files[path]) else None;
    }

    /** File.WriteAllBytes: replaces the whole content, or throws before touching the file. */
    method WriteAllBytes(path: string, data: Bytes) returns (written: bool)
      modifies this`files
      ensures written == (path !in readOnly)
      ensures files == if written then old(files)[path := data] else old(files)
    {
      written := path !in readOnly;
      if written {
        files := files[path := data];
      }
    }
  }
}

/**
 * Utils.DownloadAndValidateDLL: download the artifact, compare its hash
 * with the hash of the installed file, and overwrite the file only when
 * they differ and the run is not a dry run.
 */
module Sync {
  import opened Common
  import opened FileStore

  /** What GetByteArrayAsync returns for a URL (None: the download throws). */
  type DownloadServer = string -> Option<Bytes>

  /** ComputeHash: any deterministic function of the bytes (the code uses MD5). */
  type Hasher = Bytes -> string

  /** The (int, string?) pair the update helpers return. */
  datatype Outcome = Outcome(status: int, releaseUrl: Option<string>)

  const StatusUpdated := 0
  const StatusUpToDate := 1
  const StatusNoLink := 2
  const StatusInvalidLink := 3
  const StatusIgnored := 4
  const StatusFailed := -1

  /** An outcome together with the file system it leaves behind. */
  datatype Synced = Synced(outcome: Outcome, files: map<string, Bytes>)

  function Synchronize(files: map<string, Bytes>, readOnly: set<string>, dllFile: string, downloadUrl: string,
                dryMode: bool, downloads: DownloadServer, hash: Hasher): Synced
  {
    match downloads(downloadUrl)
    case None => Synced(Outcome(StatusFailed, None), files)
    case Some(downloaded) =>
      if dllFile !in files then Synced(Outcome(StatusFailed, None), files)
      else if hash(downloaded) != hash(files[dllFile]) then
        if dryMode then Synced(Outcome(StatusUpdated, Some(downloadUrl)), files)
        else if dllFile in readOnly then Synced(Outcome(StatusFailed, None), files)
        else Synced(Outcome(StatusUpdated, Some(downloadUrl)), files[dllFile := downloaded])
      else Synced(Outcome(StatusUpToDate, None), files)
  }

  method DownloadAndValidateDll(fs: FileSystem, dllFile: string, downloadUrl: string, dryMode: bool,
                                downloads: DownloadServer, hash: Hasher) returns (outcome: Outcome)
    modifies fs`files
    ensures Synced(outcome, fs.files) == Synchronize(old(fs.files), fs.readOnly, dllFile, downloadUrl, dryMode, downloads, hash)
  {
    var downloadedDllBytes := downloads(downloadUrl);
    if downloadedDllBytes.None? {
      return Outcome(StatusFailed, None);
    }
    var existingDllBytes := fs.ReadAllBytes(dllFile);
    if existingDllBytes.None? {
      return Outcome(StatusFailed, None);
    }
    var downloadedHashString := hash(downloadedDllBytes.value);
    var existingHashString := hash(existingDllBytes.value);
    if downloadedHashString != existingHashString {
      if !dryMode {
        var written := fs.WriteAllBytes(dllFile, downloadedDllBytes.value);
        if !written {
          return Outcome(StatusFailed, None);
        }
      }
      outcome := Outcome(StatusUpdated, Some(downloadUrl));
    } else {
      outcome := Outcome(StatusUpToDate, None);
    }
  }

  // ---------------------------------------------------------------------
  // Properties

  /** The status is "updated" exactly when both sides were read, their hashes differ and the write (if any) went through. */
  lemma UpdatedExactlyWhenHashesDiffer(files: map<string, Bytes>, readOnly: set<string>, dllFile: string,
                                       downloadUrl: string, dryMode: bool, downloads: DownloadServer, hash: Hasher)
    ensures var s := Synchronize(files, readOnly, dllFile, downloadUrl, dryMode, downloads, hash);
      s.outcome.status == StatusUpdated <==>
        && downloads(downloadUrl).Some? && dllFile in files
        && hash(downloads(downloadUrl).value) != hash(files[dllFile])
        && (dryMode || dllFile !in readOnly)
    ensures var s := Synchronize(files, readOnly, dllFile, downloadUrl, dryMode, downloads, hash);
      s.outcome.status == StatusUpdated ==> s.outcome.releaseUrl == Some(downloadUrl)
    ensures var s := Synchronize(files, readOnly, dllFile, downloadUrl, dryMode, downloads, hash);
      s.outcome.status == StatusUpToDate <==>
        && downloads(downloadUrl).Some? && dllFile in files
        && hash(downloads(downloadUrl).value) == hash(files[dllFile])
  {
  }

  /** A dry run never changes a file. */
  lemma DryRunWritesNothing(files: map<string, Bytes>, readOnly: set<string>, dllFile: string,
                            downloadUrl: string, downloads: DownloadServer, hash: Hasher)
    ensures Synchronize(files, readOnly, dllFile, downloadUrl, true, downloads, hash).files == files
  {
  }

  /**
   * The file is overwritten exactly when the run is not dry and reports
   * "updated", and then with the downloaded bytes; "up to date" carries no
   * link and changes nothing.
   */
  lemma OverwrittenExactlyWhenUpdated(files: map<string, Bytes>, readOnly: set<string>, dllFile: string,
                                      downloadUrl: string, dryMode: bool, downloads: DownloadServer, hash: Hasher)
    ensures var s := Synchronize(files, readOnly, dllFile, downloadUrl, dryMode, downloads, hash);
      s.files != files <==> s.outcome.status == StatusUpdated && !dryMode
    ensures var s := Synchronize(files, readOnly, dllFile, downloadUrl, dryMode, downloads, hash);
      s.outcome.status == StatusUpdated && !dryMode ==> s.files == files[dllFile := downloads(downloadUrl).value]
    ensures var s := Synchronize(files, readOnly, dllFile, downloadUrl, dryMode, downloads, hash);
      s.outcome.status == StatusUpToDate ==> s == Synced(Outcome(StatusUpToDate, None), files)
  {
    var s := Synchronize(files, readOnly, dllFile, downloadUrl, dryMode, downloads, hash);
    if s.outcome.status == StatusUpdated && !dryMode {
      var downloaded := downloads(downloadUrl).value;
      assert downloaded != files[dllFile];
      assert s.files[dllFile] == downloaded;
    }
  }

  /**
   * Every failure inside the try block is caught and reported as (-1, null)
   * with no file changed: a failed download, a missing module file, or a
   * write that throws; and these are the only ways to get -1.
   */
  lemma FailuresAreCaught(files: map<string, Bytes>, readOnly: set<string>, dllFile: string,
                          downloadUrl: string, dryMode: bool, downloads: DownloadServer, hash: Hasher)
    ensures downloads(downloadUrl).None? ==>
      Synchronize(files, readOnly, dllFile, downloadUrl, dryMode, downloads, hash) == Synced(Outcome(StatusFailed, None), files)
    ensures dllFile !in files ==>
      Synchronize(files, readOnly, dllFile, downloadUrl, dryMode, downloads, hash) == Synced(Outcome(StatusFailed, None), files)
    ensures (downloads(downloadUrl).Some? && dllFile in files && hash(downloads(downloadUrl).value) != hash(files[dllFile]) &&
             !dryMode && dllFile in readOnly) ==>
      Synchronize(files, readOnly, dllFile, downloadUrl, dryMode, downloads, hash) == Synced(Outcome(StatusFailed, None), files)
    ensures Synchronize(files, readOnly, dllFile, downloadUrl, dryMode, downloads, hash).outcome.status == StatusFailed ==>
      || downloads(downloadUrl).None? || dllFile !in files
      || (hash(downloads(downloadUrl).value) != hash(files[dllFile]) && !dryMode && dllFile in readOnly)
  {
  }

  /**
   * Only the module's own file can change, and only to the downloaded bytes
   * as a whole (the write itself is modelled as all-or-nothing).
   */
  lemma WritesWholeArtifactOrNothing(files: map<string, Bytes>, readOnly: set<string>, dllFile: string,
                                     downloadUrl: string, dryMode: bool, downloads: DownloadServer, hash: Hasher)
    ensures var s := Synchronize(files, readOnly, dllFile, downloadUrl, dryMode, downloads, hash);
      && s.files.Keys == files.Keys
      && (forall p :: p in files && p != dllFile ==> s.files[p] == files[p])
      && (s.files == files || (downloads(downloadUrl).Some? && s.files == files[dllFile := downloads(downloadUrl).value]))
  {
  }

  /**
   * Idempotence: after a run that wrote the artifact, running again with the
   * same download reports "up to date" and changes nothing.
   */
  lemma SecondSyncIsUpToDate(files: map<string, Bytes>, readOnly: set<string>, dllFile: string,
                             downloadUrl: string, downloads: DownloadServer, hash: Hasher)
    requires Synchronize(files, readOnly, dllFile, downloadUrl, false, downloads, hash).outcome.status == StatusUpdated
    ensures var first := Synchronize(files, readOnly, dllFile, downloadUrl, false, downloads, hash);
      Synchronize(first.files, readOnly, dllFile, downloadUrl, false, downloads, hash) == Synced(Outcome(StatusUpToDate, None), first.files)
  {
  }
}
