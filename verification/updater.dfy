/** The updater object of updater-enhanced.js: its configuration, the state
    it changes (the version file it settled on, the version files, the client
    files, the temp directory, the published progress events) and its four
    public operations. The patch server, the codec's exit status and the
    digests of decompressed files are oracles passed in as a
    `Manifest.Server`. */
module Updater {
  import opened Wrappers
  import opened Records
  import Paths
  import JsText
  import Cab
  import Manifest
  import Verifier
  import Planner
  import VersionStore

  datatype UpdateError =
    | LocalVersionFailed(storeError: VersionStore.StoreError)
    | RemoteVersionFailed
    | DeltaFailed(fetchError: Manifest.FetchError)
    | DownloadFailed(path: string)
    | DatabaseFailed(cabError: Cab.CabError)
    | VersionWriteFailed(writeError: VersionStore.StoreError)

  /** `${id}-${version}.cab`: the name of a file's patch archive. */
  function TempName(f: FileRecord): string
  {
    JsText.IntToDecimal(f.id) + "-" + JsText.IntToDecimal(f.version) + ".cab"
  }

  /** Where the server publishes a file's patch archive. */
  function PatchPath(f: FileRecord): string
  {
    Paths.Join("patch", TempName(f))
  }

  lemma NoSlashInDecimal(n: int)
    ensures '/' !in JsText.IntToDecimal(n)
  {
    var m := if n < 0 then -n else n;
    JsText.DecimalDigits(m);
    var d := JsText.IntToDecimal(m);
    assert forall i :: 0 <= i < |d| ==> JsText.IsDecimalDigit(d[i]);
    if n < 0 {
      assert JsText.IntToDecimal(n) == "-" + d;
    }
  }

  /** The download target is the base name of the patch URL. */
  lemma TempNameIsBasename(f: FileRecord)
    ensures Paths.Basename(PatchPath(f)) == TempName(f)
  {
    NoSlashInDecimal(f.id);
    NoSlashInDecimal(f.version);
    Paths.BasenameOfJoin("patch", TempName(f));
  }

  /** The temp files the archives of `fs` are downloaded to. */
  function TempNames(fs: seq<FileRecord>): set<string>
  {
    if fs == [] then {} else TempNames(fs[..|fs| - 1]) + {TempName(fs[|fs| - 1])}
  }

  lemma TempNamesSnoc(fs: seq<FileRecord>, f: FileRecord)
    ensures TempNames(fs + [f]) == TempNames(fs) + {TempName(f)}
  {
    assert (fs + [f])[..|fs|] == fs;
  }

  /** Removing one more archive from the temp directory. */
  lemma RemoveSnoc(temp: set<string>, fs: seq<FileRecord>, f: FileRecord)
    ensures (temp - TempNames(fs)) - {TempName(f)} == temp - TempNames(fs + [f])
  {
    TempNamesSnoc(fs, f);
  }

  lemma {:induction false} TempNamesHold(fs: seq<FileRecord>, i: nat)
    requires i < |fs|
    ensures TempName(fs[i]) in TempNames(fs)
    decreases |fs|
  {
    if i < |fs| - 1 {
      TempNamesHold(fs[..|fs| - 1], i);
    }
  }

  /** The temp directory after the download loop added the archives and
      the verification loop removed them again. */
  lemma DownloadedThenRemoved(temp: set<string>, archives: set<string>)
    ensures (temp + archives) - archives == temp - archives
  {
  }

  /** The first file whose patch archive the server does not publish. */
  function FirstUnpublished(fs: seq<FileRecord>, server: Manifest.Server): (r: Option<nat>)
    ensures r.Some? ==> r.value < |fs| && PatchPath(fs[r.value]) !in server.published
    ensures r.Some? ==> forall j :: 0 <= j < r.value ==> PatchPath(fs[j]) in server.published
    ensures r.None? <==> AllPublished(fs, server)
  {
    if fs == [] then None
    else if PatchPath(fs[0]) !in server.published then Some(0)
    else match FirstUnpublished(fs[1..], server)
      case None => None
      case Some(i) => Some(i + 1)
  }

  /** The first unpublished file is the one every earlier file precedes. */
  lemma FirstUnpublishedAt(fs: seq<FileRecord>, server: Manifest.Server, i: nat)
    requires i < |fs| && AllPublished(fs[..i], server) && PatchPath(fs[i]) !in server.published
    ensures FirstUnpublished(fs, server) == Some(i)
  {
    forall j | 0 <= j < i
      ensures PatchPath(fs[j]) in server.published
    {
      assert fs[..i][j] == fs[j];
    }
    assert !AllPublished(fs, server);
  }

  lemma ExtendPublished(fs: seq<FileRecord>, server: Manifest.Server, i: nat)
    requires i < |fs| && AllPublished(fs[..i], server) && PatchPath(fs[i]) in server.published
    ensures AllPublished(fs[..i + 1], server)
  {
    var s := fs[..i + 1];
    forall j | 0 <= j < |s|
      ensures PatchPath(s[j]) in server.published
    {
      if j < i {
        assert s[j] == fs[..i][j];
      }
    }
  }

  predicate AllPublished(fs: seq<FileRecord>, server: Manifest.Server)
  {
    forall i :: 0 <= i < |fs| ==> PatchPath(fs[i]) in server.published
  }

  /** The client files after extracting every archive in order: an archive
      the codec unpacks puts its payload's digest at the file's destination;
      one it fails on leaves the destination as it was. */
  function Extracted(disk: Verifier.Disk, fs: seq<FileRecord>, server: Manifest.Server, clientDirectory: string): Verifier.Disk
    requires AllPublished(fs, server)
  {
    if fs == [] then disk
    else
      var f := fs[|fs| - 1];
      var d := Extracted(disk, fs[..|fs| - 1], server, clientDirectory);
      var p := server.published[PatchPath(f)];
      if Cab.ClassifyClose(p.close).Pass? then d[Paths.Join(clientDirectory, f.destination) := Hashed(p.digest)] else d
  }

  /** One event per archive: `extract-progress (k, total, destination)` when
      the codec succeeds, an `error` of stage extract when it fails. */
  function ExtractLog(fs: seq<FileRecord>, server: Manifest.Server, clientDirectory: string, total: nat): (log: seq<Event>)
    requires AllPublished(fs, server)
    ensures |log| == |fs|
  {
    if fs == [] then []
    else
      var f := fs[|fs| - 1];
      var p := server.published[PatchPath(f)];
      ExtractLog(fs[..|fs| - 1], server, clientDirectory, total)
      + [if Cab.ClassifyClose(p.close).Pass? then ExtractProgress(|fs|, total, Paths.Join(clientDirectory, f.destination)) else Error(Extract)]
  }

  /** Extracting one more archive extends the disk and the log by that
      archive's step. */
  lemma ExtractSnoc(disk: Verifier.Disk, fs: seq<FileRecord>, f: FileRecord, server: Manifest.Server, clientDirectory: string,
                     total: nat, before: seq<Event>)
    requires AllPublished(fs, server) && PatchPath(f) in server.published
    ensures AllPublished(fs + [f], server)
    ensures var p := server.published[PatchPath(f)];
      var d := Extracted(disk, fs, server, clientDirectory);
      var passed := Cab.ClassifyClose(p.close).Pass?;
      && Extracted(disk, fs + [f], server, clientDirectory)
         == (if passed then d[Paths.Join(clientDirectory, f.destination) := Hashed(p.digest)] else d)
      && before + ExtractLog(fs + [f], server, clientDirectory, total)
         == before + ExtractLog(fs, server, clientDirectory, total)
            + [if passed then ExtractProgress(|fs| + 1, total, Paths.Join(clientDirectory, f.destination)) else Error(Extract)]
  {
    var s := fs + [f];
    assert s[..|s| - 1] == fs && s[|s| - 1] == f;
    forall i | 0 <= i < |s|
      ensures PatchPath(s[i]) in server.published
    {
      if i < |fs| {
        assert s[i] == fs[i];
      }
    }
  }

  /** One `error` event of stage verify per file whose hashing throws. */
  function VerifyErrors(fs: seq<FileRecord>, clientDirectory: string, disk: Verifier.Disk): seq<Event>
  {
    if fs == [] then []
    else
      var dest := Paths.Join(clientDirectory, fs[|fs| - 1].destination);
      VerifyErrors(fs[..|fs| - 1], clientDirectory, disk) + (if dest in disk && disk[dest] == ReadError then [Error(Verify)] else [])
  }

  lemma VerifyErrorsSnoc(fs: seq<FileRecord>, f: FileRecord, clientDirectory: string, disk: Verifier.Disk, before: seq<Event>)
    ensures var dest := Paths.Join(clientDirectory, f.destination);
      before + VerifyErrors(fs + [f], clientDirectory, disk)
      == before + VerifyErrors(fs, clientDirectory, disk) + (if dest in disk && disk[dest] == ReadError then [Error(Verify)] else [])
  {
    assert (fs + [f])[..|fs|] == fs;
  }

  /** Why the database step of a commit throws, if it does: the snapshot
      named by `dbFile` is downloaded into the temp directory and
      decompressed to `server.db` there; no overwrite is asked for, so the
      codec is skipped when a `server.db` is already present. */
  function DatabaseStep(tempNames: set<string>, dbFile: string, server: Manifest.Server): Option<UpdateError>
  {
    if dbFile !in server.published then Some(DownloadFailed(dbFile))
    else
      var closed := Cab.ClassifyClose(server.published[dbFile].close);
      if "server.db" !in tempNames + {Paths.Basename(dbFile)} && closed.Fail? then
        Some(DatabaseFailed(Cab.ProcessFailed(closed.error)))
      else None
  }

  /** The temp directory after the database step. A download the server
      refuses removes the file it had opened for writing; a failed codec
      leaves the archive behind; a successful step removes both the archive
      and `server.db`. */
  function DatabaseTemp(tempNames: set<string>, dbFile: string, server: Manifest.Server): set<string>
  {
    var tempDbCab := Paths.Basename(dbFile);
    if dbFile !in server.published then tempNames - {tempDbCab}
    else if DatabaseStep(tempNames, dbFile, server).Some? then tempNames + {tempDbCab}
    else tempNames - {"server.db", tempDbCab}
  }

  /** The version files after the commit step, or why it throws: the
      database step, then the rewrite of the version file. */
  function CommitOutcome(files: VersionStore.Files, versionFile: string, tempNames: set<string>, newVersion: int, dbFile: string, server: Manifest.Server)
    : Result<VersionStore.Files, UpdateError>
  {
    match DatabaseStep(tempNames, dbFile, server)
    case Some(e) => Failure(e)
    case None =>
      match VersionStore.WriteVersion(files, versionFile, newVersion)
      case Failure(e) => Failure(VersionWriteFailed(e))
      case Success(written) => Success(written)
  }

  /** What a check resolves with once the plan is known: a failed delta
      query is what it throws. */
  function Settle(plan: Result<Planner.UpdateInfo, Manifest.FetchError>): Result<Planner.UpdateInfo, UpdateError>
  {
    match plan
    case Failure(e) => Failure(DeltaFailed(e))
    case Success(u) => Success(u)
  }

  /** The event a check publishes last once the plan is known: an error
      when the delta query fails, an empty summary when there is nothing to
      update, none otherwise. */
  function Closing(plan: Result<Planner.UpdateInfo, Manifest.FetchError>): seq<Event>
  {
    match plan
    case Failure(_) => [Error(Check)]
    case Success(u) => if u.NoUpdate? then [UpdateSummary(0, 0, 0)] else []
  }

  /** The value `checkForUpdates` resolves with once the local version `v`
      and the server's announcement are known. */
  function KnownResult(v: int, info: Planner.RemoteInfo, server: Manifest.Server, clientDirectory: string, disk: Verifier.Disk)
    : Result<Planner.UpdateInfo, UpdateError>
  {
    Settle(Planner.CheckPlan(v, info, server, clientDirectory, disk))
  }

  /** The events `checkForUpdates` publishes once both versions are known:
      the version check, the verification, then the closing event. */
  function KnownEvents(v: int, info: Planner.RemoteInfo, server: Manifest.Server, clientDirectory: string, disk: Verifier.Disk)
    : seq<Event>
  {
    [VersionCheck(v, info.version)] + Verifier.VerificationLog(Planner.Required(server, info.version), clientDirectory, disk)
    + Closing(Planner.CheckPlan(v, info, server, clientDirectory, disk))
  }

  /** The value `checkForUpdates` resolves with, or what it throws. */
  function CheckResult(local: Result<(string, int), VersionStore.StoreError>, remote: Option<Planner.RemoteInfo>,
                       server: Manifest.Server, clientDirectory: string, disk: Verifier.Disk)
    : Result<Planner.UpdateInfo, UpdateError>
  {
    if local.Failure? then Failure(LocalVersionFailed(local.error))
    else if remote.None? then Failure(RemoteVersionFailed)
    else KnownResult(local.value.1, remote.value, server, clientDirectory, disk)
  }

  /** The events `checkForUpdates` publishes. */
  function CheckEvents(local: Result<(string, int), VersionStore.StoreError>, remote: Option<Planner.RemoteInfo>,
                       server: Manifest.Server, clientDirectory: string, disk: Verifier.Disk): seq<Event>
  {
    if local.Failure? || remote.None? then [Error(Check)]
    else KnownEvents(local.value.1, remote.value, server, clientDirectory, disk)
  }

  /** The two temp files a snapshot query on version `v` creates and
      removes: the downloaded archive and the database unpacked from it. */
  function SnapshotTempNames(v: int): set<string>
  {
    {"server.db." + JsText.IntToDecimal(v), "server.db." + JsText.IntToDecimal(v) + ".cab"}
  }

  /** The temp files of the snapshot queries on versions 1..target. */
  function ScanTempNames(target: int): set<string>
    decreases target
  {
    if target < 1 then {} else ScanTempNames(target - 1) + SnapshotTempNames(target)
  }

  /** The temp files a successful check removes: those of the scan over
      snapshots 1..target and, when the server is ahead, those of the delta
      query on the target snapshot. */
  function CheckTempNames(local: int, target: int): set<string>
  {
    ScanTempNames(target) + (if target > local then SnapshotTempNames(target) else {})
  }

  class Updater {
    const clientDirectory: string
    const tempDirectory: string
    const moduleDirectory: string
    const cwd: string
    var versionFile: string
    var files: VersionStore.Files
    var disk: Verifier.Disk
    var temp: set<string>
    var events: seq<Event>

    /** The client and temp directories are absolute, as the default
        configuration makes them. */
    predicate Valid()
    {
      Paths.IsAbsolute(clientDirectory) && Paths.IsAbsolute(tempDirectory)
    }

    constructor(clientDirectory: string, tempDirectory: string, moduleDirectory: string, cwd: string,
                versionFile: string, files: VersionStore.Files, disk: Verifier.Disk, temp: set<string>)
      ensures this.clientDirectory == clientDirectory && this.tempDirectory == tempDirectory
      ensures this.moduleDirectory == moduleDirectory && this.cwd == cwd
      ensures this.versionFile == versionFile && this.files == files && this.disk == disk
      ensures this.temp == temp && events == []
    {
      this.clientDirectory := clientDirectory;
      this.tempDirectory := tempDirectory;
      this.moduleDirectory := moduleDirectory;
      this.cwd := cwd;
      this.versionFile := versionFile;
      this.files := files;
      this.disk := disk;
      this.temp := temp;
      events := [];
    }

    function TempPath(name: string): string
    {
      Paths.Join(tempDirectory, name)
    }

    function TempPaths(names: set<string>): set<string>
    {
      set n | n in names :: TempPath(n)
    }

    /** `getLocalVersion()`: the first existing candidate is read and
        becomes the recorded version file. */
    method GetLocalVersion() returns (r: Result<int, VersionStore.StoreError>)
      modifies this`versionFile
      ensures var found := VersionStore.LocalVersion(VersionStore.Candidates(old(versionFile), clientDirectory, moduleDirectory), files);
        && (found.Failure? ==> r == Failure(found.error) && versionFile == old(versionFile))
        && (found.Success? ==> r == Success(found.value.1) && versionFile == found.value.0)
    {
      var possiblePaths := VersionStore.Candidates(versionFile, clientDirectory, moduleDirectory);
      var foundPath: Option<nat> := None;
      var i := 0;
      while i < |possiblePaths|
        invariant 0 <= i <= |possiblePaths|
        invariant forall j :: 0 <= j < i ==> possiblePaths[j] !in files
      {
        if possiblePaths[i] in files {
          foundPath := Some(i);
          break;
        }
        i := i + 1;
      }
      assert foundPath == VersionStore.FirstPresent(possiblePaths, files);
      if foundPath.None? {
        return Failure(VersionStore.NotFound(possiblePaths));
      }
      var path := possiblePaths[foundPath.value];
      var version := VersionStore.ReadVersion(files[path], path);
      if version.Failure? {
        return Failure(version.error);
      }
      versionFile := path;
      r := Success(version.value);
    }

    /** `updateLocalVersion(n)`: rewrite the recorded version file. */
    method UpdateLocalVersion(newVersion: int) returns (r: Outcome<VersionStore.StoreError>)
      modifies this`files
      ensures var written := VersionStore.WriteVersion(old(files), versionFile, newVersion);
        && (written.Failure? ==> r == Fail(written.error) && files == old(files))
        && (written.Success? ==> r == Pass && files == written.value)
    {
      if versionFile !in files {
        return Fail(VersionStore.NoFile(versionFile));
      }
      var updated := VersionStore.UpdatedDoc(files[versionFile], versionFile, newVersion);
      if updated.Failure? {
        return Fail(updated.error);
      }
      files := files[versionFile := updated.value];
      r := Pass;
    }

    /** `checkForUpdates()`, with the server's `Version.ini` already fetched
        (`None` when fetching it fails). */
    method CheckForUpdates(remote: Option<Planner.RemoteInfo>, server: Manifest.Server)
      returns (r: Result<Planner.UpdateInfo, UpdateError>)
      modifies this`versionFile, this`temp, this`events
      ensures var local := VersionStore.LocalVersion(VersionStore.Candidates(old(versionFile), clientDirectory, moduleDirectory), files);
        && r == CheckResult(local, remote, server, clientDirectory, disk)
        && events == old(events) + CheckEvents(local, remote, server, clientDirectory, disk)
        && versionFile == (if local.Success? then local.value.0 else old(versionFile))
        && temp == (if r.Success? && r.value.UpdateAvailable? then old(temp) - CheckTempNames(local.value.1, remote.value.version) else {})
    {
      var localVersion := GetLocalVersion();
      if localVersion.Failure? {
        temp := {};
        events := events + [Error(Check)];
        return Failure(LocalVersionFailed(localVersion.error));
      }
      if remote.None? {
        temp := {};
        events := events + [Error(Check)];
        return Failure(RemoteVersionFailed);
      }
      r := CheckKnown(localVersion.value, remote.value, server);
    }

    /** The rest of `checkForUpdates` once the local version `v` and the
        server's announcement are known. */
    method CheckKnown(v: int, info: Planner.RemoteInfo, server: Manifest.Server)
      returns (r: Result<Planner.UpdateInfo, UpdateError>)
      modifies this`temp, this`events
      ensures r == KnownResult(v, info, server, clientDirectory, disk)
      ensures events == old(events) + KnownEvents(v, info, server, clientDirectory, disk)
      ensures temp == (if r.Success? && r.value.UpdateAvailable? then old(temp) - CheckTempNames(v, info.version) else {})
    {
      temp := temp - CheckTempNames(v, info.version);
      var plan, log := Planner.Plan(v, info, server, clientDirectory, disk);
      r := Settle(plan);
      events := events + ([VersionCheck(v, info.version)] + log + Closing(plan));
      if !(plan.Success? && plan.value.UpdateAvailable?) {
        // a thrown delta query and a check with nothing to update both end
        // by cleaning the temp directory
        temp := {};
      }
    }

    /** The download loop: every archive lands in the temp directory under
        its base name; the first one the server does not publish throws. */
    method DownloadAll(fs: seq<FileRecord>, server: Manifest.Server) returns (failed: Option<nat>)
      modifies this`temp
      ensures failed == FirstUnpublished(fs, server)
      ensures failed.None? ==> temp == old(temp) + TempNames(fs)
      ensures failed.Some? ==> temp == (old(temp) + TempNames(fs[..failed.value])) - {TempName(fs[failed.value])}
    {
      var i := 0;
      while i < |fs|
        invariant 0 <= i <= |fs|
        invariant AllPublished(fs[..i], server)
        invariant temp == old(temp) + TempNames(fs[..i])
      {
        var file := fs[i];
        if PatchPath(file) !in server.published {
          // the file opened for writing is removed again
          temp := temp - {TempName(file)};
          FirstUnpublishedAt(fs, server, i);
          return Some(i);
        }
        // `path.basename(file.url)`, which is `TempName(file)` by
        // TempNameIsBasename
        var tempFile := TempName(file);
        temp := temp + {tempFile};
        assert fs[..i + 1] == fs[..i] + [file];
        TempNamesSnoc(fs[..i], file);
        ExtendPublished(fs, server, i);
        i := i + 1;
      }
      assert fs[..|fs|] == fs;
      failed := None;
    }

    /** The extraction loop: each archive is decompressed over its
        destination (overwrite on); a failure publishes an error and moves
        on. */
    method ExtractAll(fs: seq<FileRecord>, server: Manifest.Server)
      requires Valid() && AllPublished(fs, server) && TempNames(fs) <= temp
      modifies this`disk, this`events
      ensures disk == Extracted(old(disk), fs, server, clientDirectory)
      ensures events == old(events) + ExtractLog(fs, server, clientDirectory, |fs|)
    {
      var totalFiles := |fs|;
      var extractedCount := 0;
      ghost var done: seq<FileRecord> := [];
      while extractedCount < totalFiles
        invariant 0 <= extractedCount <= totalFiles && done == fs[..extractedCount]
        invariant AllPublished(done, server)
        invariant disk == Extracted(old(disk), done, server, clientDirectory)
        invariant events == old(events) + ExtractLog(done, server, clientDirectory, totalFiles)
      {
        var file := fs[extractedCount];
        ExtractSnoc(old(disk), done, file, server, clientDirectory, totalFiles, old(events));
        var payload := server.published[PatchPath(file)];
        var destination := Paths.Join(clientDirectory, file.destination);
        var tempPath := TempPath(TempName(file));
        TempNamesHold(fs, extractedCount);
        Paths.ResolveJoinAbsolute(cwd, tempDirectory, TempName(file));
        Paths.ResolveJoinAbsolute(cwd, clientDirectory, file.destination);
        var options := Cab.Options(false, true, destination, "");
        Cab.OutputOverrides(Cab.Decompress, tempPath, options, cwd);
        var run := Cab.Run(Cab.Decompress, tempPath, Some(options), cwd, TempPaths(temp), payload.close);
        assert run.output == destination;
        assert run.result.Pass? <==> Cab.ClassifyClose(payload.close).Pass?;
        extractedCount := extractedCount + 1;
        if run.result.Pass? {
          disk := disk[run.output := Hashed(payload.digest)];
          events := events + [ExtractProgress(extractedCount, totalFiles, destination)];
        } else {
          events := events + [Error(Extract)];
        }
        done := done + [file];
      }
      assert done == fs;
    }

    /** The verification loop after extraction: count the files whose
        destination hashes to the manifest's digest, publish an error for
        each hashing exception, and remove every archive from the temp
        directory. */
    method VerifyAll(fs: seq<FileRecord>) returns (successCount: nat, failCount: nat)
      modifies this`events, this`temp
      ensures successCount == |Verifier.Select(fs, clientDirectory, disk, Verifier.Intact)|
      ensures failCount == |Verifier.Select(fs, clientDirectory, disk, Verifier.Missing)|
                           + |Verifier.Select(fs, clientDirectory, disk, Verifier.Modified)|
      ensures successCount + failCount == |fs|
      ensures events == old(events) + VerifyErrors(fs, clientDirectory, disk)
      ensures temp == old(temp) - TempNames(fs)
    {
      successCount, failCount := 0, 0;
      var verifiedCount := 0;
      ghost var done: seq<FileRecord> := [];
      while verifiedCount < |fs|
        invariant 0 <= verifiedCount <= |fs| && done == fs[..verifiedCount]
        invariant successCount == |Verifier.Select(done, clientDirectory, disk, Verifier.Intact)|
        invariant successCount + failCount == verifiedCount
        invariant events == old(events) + VerifyErrors(done, clientDirectory, disk)
        invariant temp == old(temp) - TempNames(done)
      {
        var file := fs[verifiedCount];
        RemoveSnoc(old(temp), done, file);
        Verifier.SelectSnoc(done, file, clientDirectory, disk, Verifier.Intact);
        VerifyErrorsSnoc(done, file, clientDirectory, disk, old(events));
        var destination := Paths.Join(clientDirectory, file.destination);
        var intact := false;
        if destination in disk {
          match disk[destination]
          case Hashed(localHash) =>
            intact := localHash == file.hash;
          case ReadError =>
            events := events + [Error(Verify)];
        }
        if intact {
          assert Verifier.VerdictOf(file, clientDirectory, disk) == Verifier.Intact;
          successCount := successCount + 1;
        } else {
          assert Verifier.VerdictOf(file, clientDirectory, disk) != Verifier.Intact;
          failCount := failCount + 1;
        }
        temp := temp - {TempName(file)};
        verifiedCount := verifiedCount + 1;
        done := done + [file];
      }
      assert done == fs;
      Verifier.PartitionCounts(fs, clientDirectory, disk);
    }

    /** The commit step of a non-repair update with a `DB file`. */
    method Commit(newVersion: int, dbFile: string, server: Manifest.Server) returns (r: Outcome<UpdateError>)
      requires Valid()
      modifies this`files, this`temp
      ensures temp == DatabaseTemp(old(temp), dbFile, server)
      ensures var c := CommitOutcome(old(files), versionFile, old(temp), newVersion, dbFile, server);
        && (c.Failure? ==> r == Fail(c.error) && files == old(files))
        && (c.Success? ==> r == Pass && files == c.value)
    {
      var failure := DownloadDatabase(dbFile, server);
      if failure.Some? {
        return Fail(failure.value);
      }
      var written := UpdateLocalVersion(newVersion);
      if written.Fail? {
        return Fail(VersionWriteFailed(written.error));
      }
      r := Pass;
    }

    /** The database step of a commit; the temp files it creates are
        removed again when it succeeds. */
    method DownloadDatabase(dbFile: string, server: Manifest.Server) returns (failure: Option<UpdateError>)
      requires Valid()
      modifies this`temp
      ensures failure == DatabaseStep(old(temp), dbFile, server)
      ensures temp == DatabaseTemp(old(temp), dbFile, server)
    {
      if dbFile !in server.published {
        temp := temp - {Paths.Basename(dbFile)};
        return Some(DownloadFailed(dbFile));
      }
      var tempDbCab := Paths.Basename(dbFile);
      var present := temp + {tempDbCab};
      var tempDbPath := TempPath("server.db");
      Paths.ResolveJoinAbsolute(cwd, tempDirectory, tempDbCab);
      Paths.ResolveJoinAbsolute(cwd, tempDirectory, "server.db");
      assert TempPath(tempDbCab) in TempPaths(present);
      assert tempDbPath in TempPaths(present) <==> "server.db" in present by {
        forall n | n in present && TempPath(n) == tempDbPath
          ensures n == "server.db"
        {
          Paths.JoinInjective(tempDirectory, n, "server.db");
        }
      }
      temp := present;
      var run := Cab.Run(Cab.Decompress, TempPath(tempDbCab), Some(Cab.Options(false, false, tempDbPath, "")), cwd, TempPaths(present), server.published[dbFile].close);
      if run.result.Fail? {
        return Some(DatabaseFailed(run.result.error));
      }
      temp := temp - {"server.db", tempDbCab};
      failure := None;
    }

    /** `applyUpdates(updateInfo)`: download every archive, extract them,
        verify them, commit the new version unless it is a repair, publish
        the summary; on a throw publish an update error. The temp directory
        is emptied afterwards either way. */
    method ApplyUpdates(info: Planner.UpdateInfo, server: Manifest.Server) returns (r: Outcome<UpdateError>)
      requires Valid()
      modifies this`files, this`disk, this`temp, this`events
      ensures info.NoUpdate? ==>
        r == Pass && files == old(files) && disk == old(disk)
        && temp == old(temp) && events == old(events)
      ensures info.UpdateAvailable? ==> temp == {}
      ensures info.UpdateAvailable? && !AllPublished(info.filesToUpdate, server) ==>
        var i := FirstUnpublished(info.filesToUpdate, server).value;
        && r == Fail(DownloadFailed(PatchPath(info.filesToUpdate[i])))
        && files == old(files) && disk == old(disk)
        && events == old(events) + [DownloadStart(|info.filesToUpdate|)] + [Error(Update)]
      ensures info.UpdateAvailable? && AllPublished(info.filesToUpdate, server) ==>
        var fs := info.filesToUpdate;
        var n := |fs|;
        var extracted := Extracted(old(disk), fs, server, clientDirectory);
        var successCount := |Verifier.Select(fs, clientDirectory, extracted, Verifier.Intact)|;
        var before := old(events) + [DownloadStart(n)] + [DownloadComplete, ExtractStart(n)]
          + ExtractLog(fs, server, clientDirectory, n) + [ExtractComplete] + VerifyErrors(fs, clientDirectory, extracted);
        var commits := !info.isRepair && info.dbFile != "";
        var commit := CommitOutcome(old(files), old(versionFile), old(temp) - TempNames(fs), info.newVersion, info.dbFile, server);
        && disk == extracted
        && (commits && commit.Failure? ==>
              r == Fail(commit.error) && files == old(files) && events == before + [Error(Update)])
        && (!commits || commit.Success? ==>
              && r == Pass
              && files == (if commits then commit.value else old(files))
              && events == before + [UpdateSummary(n, successCount, n - successCount)]
                 + (if info.isRepair then [] else [VersionUpdate(info.newVersion)]))
    {
      if info.NoUpdate? {
        return Pass;
      }
      var totalFiles := |info.filesToUpdate|;
      events := events + [DownloadStart(totalFiles)];
      var failed := DownloadAll(info.filesToUpdate, server);
      if failed.Some? {
        events := events + [Error(Update)];
        temp := {};
        return Fail(DownloadFailed(PatchPath(info.filesToUpdate[failed.value])));
      }
      DownloadedThenRemoved(old(temp), TempNames(info.filesToUpdate));
      r := Install(info.filesToUpdate, info.isRepair, info.newVersion, info.dbFile, server);
    }

    /** `applyUpdates` once every archive is downloaded: extract them,
        verify them, then commit and publish the summary. */
    method Install(fs: seq<FileRecord>, isRepair: bool, newVersion: int, dbFile: string, server: Manifest.Server)
      returns (r: Outcome<UpdateError>)
      requires Valid() && AllPublished(fs, server) && TempNames(fs) <= temp
      modifies this`files, this`disk, this`temp, this`events
      ensures temp == {}
      ensures var n := |fs|;
        var extracted := Extracted(old(disk), fs, server, clientDirectory);
        var successCount := |Verifier.Select(fs, clientDirectory, extracted, Verifier.Intact)|;
        var before := old(events) + [DownloadComplete, ExtractStart(n)]
          + ExtractLog(fs, server, clientDirectory, n) + [ExtractComplete] + VerifyErrors(fs, clientDirectory, extracted);
        var commits := !isRepair && dbFile != "";
        var commit := CommitOutcome(old(files), versionFile, old(temp) - TempNames(fs), newVersion, dbFile, server);
        && disk == extracted
        && (commits && commit.Failure? ==>
              r == Fail(commit.error) && files == old(files) && events == before + [Error(Update)])
        && (!commits || commit.Success? ==>
              && r == Pass
              && files == (if commits then commit.value else old(files))
              && events == before + [UpdateSummary(n, successCount, n - successCount)]
                 + (if isRepair then [] else [VersionUpdate(newVersion)]))
    {
      var totalFiles := |fs|;
      events := events + [DownloadComplete, ExtractStart(totalFiles)];
      ExtractAll(fs, server);
      events := events + [ExtractComplete];
      var successCount, failCount := VerifyAll(fs);
      r := Finish(isRepair, newVersion, dbFile, totalFiles, successCount, failCount, server);
    }

    /** The end of `applyUpdates` after verification: commit the new
        version unless it is a repair or there is no `DB file`, then publish
        the summary and, unless it is a repair, the new version; a failed
        commit publishes an update error instead. The temp directory is
        emptied either way. */
    method Finish(isRepair: bool, newVersion: int, dbFile: string, totalFiles: nat, successCount: nat, failCount: nat,
                  server: Manifest.Server) returns (r: Outcome<UpdateError>)
      requires Valid()
      modifies this`files, this`temp, this`events
      ensures temp == {}
      ensures var commits := !isRepair && dbFile != "";
        var commit := CommitOutcome(old(files), versionFile, old(temp), newVersion, dbFile, server);
        && (commits && commit.Failure? ==>
              r == Fail(commit.error) && files == old(files) && events == old(events) + [Error(Update)])
        && (!commits || commit.Success? ==>
              && r == Pass
              && files == (if commits then commit.value else old(files))
              && events == old(events) + [UpdateSummary(totalFiles, successCount, failCount)]
                 + (if isRepair then [] else [VersionUpdate(newVersion)]))
    {
      if !isRepair && dbFile != "" {
        var committed := Commit(newVersion, dbFile, server);
        if committed.Fail? {
          events := events + [Error(Update)];
          temp := {};
          return committed;
        }
      }
      events := events + [UpdateSummary(totalFiles, successCount, failCount)];
      if !isRepair {
        events := events + [VersionUpdate(newVersion)];
      }
      temp := {};
      r := Pass;
    }
  }
}
