/** The decision `checkForUpdates` returns: which files to fetch (the delta
    to the server's version when it is newer, then every missing file, then
    every modified file, merged by id with later `set`s winning), and whether
    there is an update at all and whether it is a repair. */
module Planner {
  import opened Wrappers
  import opened Records
  import FileMap
  import Manifest
  import Verifier

  /** What the server's `Version.ini` announces: its version and its
      `DB file` entry (the empty string when absent). */
  datatype RemoteInfo = RemoteInfo(version: int, dbFile: string)

  datatype UpdateInfo =
    | NoUpdate(currentVersion: int)
    | UpdateAvailable(currentVersion: int, newVersion: int, filesToUpdate: seq<FileRecord>, dbFile: string, isRepair: bool)

  /** `for (const f of fs) fileMap.set(f.id, f)`. */
  method SetEach(m: seq<FileRecord>, fs: seq<FileRecord>) returns (r: seq<FileRecord>)
    ensures r == FileMap.SetAll(m, fs)
  {
    r := m;
    var i := 0;
    while i < |fs|
      invariant 0 <= i <= |fs|
      invariant r == FileMap.SetAll(m, fs[..i])
    {
      assert fs[..i + 1][..i] == fs[..i];
      r := FileMap.Set(r, fs[i]);
      i := i + 1;
    }
    assert fs[..|fs|] == fs;
  }

  /** The values of the map built from the delta, then the missing files,
      then the modified files. */
  function PlanFiles(delta: seq<FileRecord>, missing: seq<FileRecord>, modified: seq<FileRecord>): seq<FileRecord>
  {
    FileMap.SetAll(FileMap.SetAll(FileMap.SetAll([], delta), missing), modified)
  }

  /** One entry per id of the three lists; for each id the last modified
      record wins, then the last missing record, then the last delta row,
      whatever their versions. */
  lemma PlanSpec(delta: seq<FileRecord>, missing: seq<FileRecord>, modified: seq<FileRecord>)
    ensures FileMap.DistinctIds(PlanFiles(delta, missing, modified))
    ensures FileMap.Ids(PlanFiles(delta, missing, modified)) == FileMap.Ids(delta) + FileMap.Ids(missing) + FileMap.Ids(modified)
    ensures forall k :: (FileMap.Get(PlanFiles(delta, missing, modified), k)
      == FileMap.FirstSome(FileMap.LastWithId(modified, k), FileMap.FirstSome(FileMap.LastWithId(missing, k), FileMap.LastWithId(delta, k))))
  {
    var m0 := FileMap.SetAll([], delta);
    var m1 := FileMap.SetAll(m0, missing);
    FileMap.SetAllSpec([], delta);
    FileMap.SetAllSpec(m0, missing);
    FileMap.SetAllSpec(m1, modified);
  }

  /** A missing file's record from the required set replaces a delta row
      for the same id even when the delta row carries a newer version. */
  lemma MissingBeatsNewerDelta(d: FileRecord, f: FileRecord)
    requires d.id == f.id && d.version > f.version
    ensures FileMap.Get(PlanFiles([d], [f], []), f.id) == Some(f)
  {
    PlanSpec([d], [f], []);
  }

  /** The decision itself. */
  function Decide(local: int, remote: int, dbFile: string, filesToUpdate: seq<FileRecord>): UpdateInfo
  {
    if remote > local || |filesToUpdate| > 0 then
      UpdateAvailable(local, remote, filesToUpdate, dbFile, remote == local)
    else NoUpdate(local)
  }

  /** A server version below the local one with any damaged file is offered
      as an update, not a repair, whose new version is the lower one: applying
      it writes the lower version back. */
  lemma DowngradeOffered(local: int, remote: int, dbFile: string, files: seq<FileRecord>)
    requires remote < local && files != []
    ensures var r := Decide(local, remote, dbFile, files);
      r.UpdateAvailable? && !r.isRepair && r.newVersion < r.currentVersion
  {
  }

  /** The required set for the server's version. */
  function Required(server: Manifest.Server, target: int): seq<FileRecord>
  {
    Manifest.KeepLatest(Manifest.Collected(server, target))
  }

  /** A required file the disk does not hold intact. */
  predicate Damaged(f: FileRecord, clientDirectory: string, disk: Verifier.Disk)
  {
    Verifier.VerdictOf(f, clientDirectory, disk) != Verifier.Intact
  }

  /** The value `checkForUpdates` resolves with, or the failure of the delta
      query it throws. */
  function CheckPlan(local: int, remote: RemoteInfo, server: Manifest.Server, clientDirectory: string, disk: Verifier.Disk)
    : Result<UpdateInfo, Manifest.FetchError>
  {
    var required := Required(server, remote.version);
    var missing := Verifier.Select(required, clientDirectory, disk, Verifier.Missing);
    var modified := Verifier.Select(required, clientDirectory, disk, Verifier.Modified);
    if remote.version > local then
      match Manifest.VersionUpdateFiles(server, local, remote.version)
      case Failure(e) => Failure(e)
      case Success(delta) => Success(Decide(local, remote.version, remote.dbFile, PlanFiles(delta, missing, modified)))
    else
      Success(Decide(local, remote.version, remote.dbFile, PlanFiles([], missing, modified)))
  }

  /** The part of `checkForUpdates` after both versions are known: collect
      the required set, verify the client files against it, then merge the
      delta (when the server is ahead), the missing and the modified files;
      the verification publishes its events whatever follows. */
  method Plan(local: int, remote: RemoteInfo, server: Manifest.Server, clientDirectory: string, disk: Verifier.Disk)
    returns (r: Result<UpdateInfo, Manifest.FetchError>, log: seq<Event>)
    ensures r == CheckPlan(local, remote, server, clientDirectory, disk)
    ensures log == Verifier.VerificationLog(Required(server, remote.version), clientDirectory, disk)
  {
    var allRequiredFiles := Manifest.GetAllRequiredFilesInfo(server, remote.version);
    var missingFiles, modifiedFiles;
    missingFiles, modifiedFiles, log := Verifier.VerifyClientFiles(allRequiredFiles, clientDirectory, disk);
    var fileMap: seq<FileRecord> := [];
    if remote.version > local {
      var versionFiles := Manifest.VersionUpdateFiles(server, local, remote.version);
      if versionFiles.Failure? {
        return Failure(versionFiles.error), log;
      }
      fileMap := SetEach(fileMap, versionFiles.value);
    }
    fileMap := SetEach(fileMap, missingFiles);
    fileMap := SetEach(fileMap, modifiedFiles);
    if remote.version > local || |fileMap| > 0 {
      r := Success(UpdateAvailable(local, remote.version, fileMap, remote.dbFile, remote.version == local));
    } else {
      r := Success(NoUpdate(local));
    }
  }

  lemma SameIdSameRecord(m: seq<FileRecord>, a: FileRecord, b: FileRecord)
    requires FileMap.DistinctIds(m) && a in m && b in m && a.id == b.id
    ensures a == b
  {
  }

  /** A record of the missing or modified list, when both lists are drawn
      from one list with distinct ids, is itself in the plan: no delta row
      and no other record displaces it. */
  lemma RecordPlanned(required: seq<FileRecord>, delta: seq<FileRecord>, missing: seq<FileRecord>, modified: seq<FileRecord>, f: FileRecord)
    requires FileMap.DistinctIds(required)
    requires forall g :: g in missing ==> g in required
    requires forall g :: g in modified ==> g in required
    requires f in missing || f in modified
    ensures f in PlanFiles(delta, missing, modified)
  {
    var plan := PlanFiles(delta, missing, modified);
    PlanSpec(delta, missing, modified);
    if f in missing {
      FileMap.InIds(missing, f);
    } else {
      FileMap.InIds(modified, f);
    }
    var i :| 0 <= i < |plan| && plan[i].id == f.id;
    FileMap.FindAt(plan, f.id, i);
    SameIdSameRecord(required, f, plan[i]);
  }

  /** Without a delta, the plan holds nothing but records of the missing and
      modified lists. */
  lemma PlannedFromLists(missing: seq<FileRecord>, modified: seq<FileRecord>, f: FileRecord)
    requires f in PlanFiles([], missing, modified)
    ensures f in missing || f in modified
  {
    var plan := PlanFiles([], missing, modified);
    PlanSpec([], missing, modified);
    var i :| 0 <= i < |plan| && plan[i] == f;
    FileMap.FindAt(plan, f.id, i);
  }

  /** The plan built from the damaged files of a list with distinct ids
      holds every damaged file and every id of the delta; without a delta it
      holds nothing else. */
  lemma DamagedPlanned(required: seq<FileRecord>, delta: seq<FileRecord>, clientDirectory: string, disk: Verifier.Disk)
    requires FileMap.DistinctIds(required)
    ensures var missing := Verifier.Select(required, clientDirectory, disk, Verifier.Missing);
      var modified := Verifier.Select(required, clientDirectory, disk, Verifier.Modified);
      var plan := PlanFiles(delta, missing, modified);
      && FileMap.Ids(delta) <= FileMap.Ids(plan)
      && (forall f :: f in required && Damaged(f, clientDirectory, disk) ==> f in plan)
      && (delta == [] ==> forall f :: f in plan <==> f in required && Damaged(f, clientDirectory, disk))
  {
    var missing := Verifier.Select(required, clientDirectory, disk, Verifier.Missing);
    var modified := Verifier.Select(required, clientDirectory, disk, Verifier.Modified);
    var plan := PlanFiles(delta, missing, modified);
    PlanSpec(delta, missing, modified);
    Verifier.SelectMembers(required, clientDirectory, disk, Verifier.Missing);
    Verifier.SelectMembers(required, clientDirectory, disk, Verifier.Modified);
    forall f | f in required && Damaged(f, clientDirectory, disk)
      ensures f in plan
    {
      RecordPlanned(required, delta, missing, modified, f);
    }
    if delta == [] {
      forall f | f in plan
        ensures f in required && Damaged(f, clientDirectory, disk)
      {
        PlannedFromLists(missing, modified, f);
      }
    }
  }

  /** With the server at or below the local version, checking cannot fail;
      it offers an update exactly when some required file is damaged, the
      update is a repair exactly when the versions are equal, and it fetches
      exactly the damaged required files. */
  lemma RepairPlan(local: int, remote: RemoteInfo, server: Manifest.Server, clientDirectory: string, disk: Verifier.Disk)
    requires remote.version <= local
    ensures CheckPlan(local, remote, server, clientDirectory, disk).Success?
    ensures var required := Required(server, remote.version);
      var r := CheckPlan(local, remote, server, clientDirectory, disk).value;
      && r.currentVersion == local
      && (r.UpdateAvailable? <==> exists f :: f in required && Damaged(f, clientDirectory, disk))
      && (r.UpdateAvailable? ==>
            && r.newVersion == remote.version
            && r.dbFile == remote.dbFile
            && (r.isRepair <==> remote.version == local)
            && forall f :: f in r.filesToUpdate <==> f in required && Damaged(f, clientDirectory, disk))
  {
    var required := Required(server, remote.version);
    var missing := Verifier.Select(required, clientDirectory, disk, Verifier.Missing);
    var modified := Verifier.Select(required, clientDirectory, disk, Verifier.Modified);
    var plan := PlanFiles([], missing, modified);
    Manifest.KeepLatestSpec(Manifest.Collected(server, remote.version));
    DamagedPlanned(required, [], clientDirectory, disk);
    if |plan| > 0 {
      assert plan[0] in plan;
    }
  }

  /** With the server ahead, checking fails exactly when the delta query
      fails; otherwise it is an update (never a repair) to the server's
      version that fetches every id of the delta and every damaged required
      file. */
  lemma UpgradePlan(local: int, remote: RemoteInfo, server: Manifest.Server, clientDirectory: string, disk: Verifier.Disk)
    requires remote.version > local
    ensures CheckPlan(local, remote, server, clientDirectory, disk).Success?
      <==> Manifest.VersionUpdateFiles(server, local, remote.version).Success?
    ensures CheckPlan(local, remote, server, clientDirectory, disk).Success? ==>
      var delta := Manifest.VersionUpdateFiles(server, local, remote.version).value;
      var r := CheckPlan(local, remote, server, clientDirectory, disk).value;
      && r.UpdateAvailable? && !r.isRepair && r.currentVersion == local && r.newVersion == remote.version
      && r.dbFile == remote.dbFile
      && FileMap.Ids(delta) <= FileMap.Ids(r.filesToUpdate)
      && forall f :: f in Required(server, remote.version) && Damaged(f, clientDirectory, disk) ==> f in r.filesToUpdate
  {
    var delta := Manifest.VersionUpdateFiles(server, local, remote.version);
    if delta.Success? {
      Manifest.KeepLatestSpec(Manifest.Collected(server, remote.version));
      DamagedPlanned(Required(server, remote.version), delta.value, clientDirectory, disk);
    }
  }
}
