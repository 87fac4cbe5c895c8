/** Manifest resolution: the per-version snapshot databases the patch server
    publishes, the two queries the updater runs on them, the scan over
    versions 1..target that builds the required-file set, and the delta
    query against the target snapshot. */
module Manifest {
  import opened Wrappers
  import opened Records
  import JsText
  import Cab
  import FileMap

  /** A file the server publishes: the close event the codec produces when
      decompressing it, the MD5 digest of the decompressed output, and, when
      that output is a manifest database, its rows (`file_info` joined with
      `file_version`) in the order the database returns them. */
  datatype Payload = Payload(close: Cab.Close, digest: string, table: Option<seq<FileRecord>>)

  /** The patch server: payloads by path relative to its base URL. A path it
      does not publish answers with a non-200 status. */
  datatype Server = Server(published: map<string, Payload>)

  datatype FetchError = NotPublished(path: string) | DecompressFailed(cause: Cab.ProcessError) | NotADatabase(path: string)

  function SnapshotPath(version: int): string
  {
    "db/server.db." + JsText.IntToDecimal(version) + ".cab"
  }

  /** Download, decompress and open a snapshot; any of the three steps can
      fail. The decompression asks for no overwrite, so a database of the
      same name left over in the temp directory would be opened instead;
      this model takes the temp directory to hold none. */
  function FetchTable(server: Server, path: string): (r: Result<seq<FileRecord>, FetchError>)
    ensures r.Success? <==>
      path in server.published && Cab.ClassifyClose(server.published[path].close).Pass?
      && server.published[path].table.Some?
    ensures r.Success? ==> r.value == server.published[path].table.value
  {
    if path !in server.published then Failure(NotPublished(path))
    else
      var p := server.published[path];
      match Cab.ClassifyClose(p.close)
      case Fail(e) => Failure(DecompressFailed(e))
      case Pass => if p.table.None? then Failure(NotADatabase(path)) else Success(p.table.value)
  }

  // ----- the "current record at version v" query -----

  /** Row `r` of `rows` is the one the per-version query keeps at `v`: its
      version is the largest version at most `v` among the rows of its id. */
  predicate IsCurrentAt(rows: seq<FileRecord>, r: FileRecord, v: int)
  {
    r.version <= v && forall q :: q in rows && q.id == r.id && q.version <= v ==> q.version <= r.version
  }

  /** The query `WHERE fv.version <= v AND fv.version = (SELECT MAX(version)
      ... WHERE id = fi.id AND version <= v)`, on the rows in `rows` that
      belong to the prefix `part`, in database order. */
  function CurrentAmong(rows: seq<FileRecord>, part: seq<FileRecord>, v: int): seq<FileRecord>
  {
    if part == [] then []
    else
      var r := part[|part| - 1];
      CurrentAmong(rows, part[..|part| - 1], v) + (if IsCurrentAt(rows, r, v) then [r] else [])
  }

  function CurrentRows(rows: seq<FileRecord>, v: int): seq<FileRecord>
  {
    CurrentAmong(rows, rows, v)
  }

  lemma {:induction false} CurrentAmongMembers(rows: seq<FileRecord>, part: seq<FileRecord>, v: int)
    ensures forall r :: r in CurrentAmong(rows, part, v) <==> r in part && IsCurrentAt(rows, r, v)
  {
    if part != [] {
      CurrentAmongMembers(rows, part[..|part| - 1], v);
      assert part == part[..|part| - 1] + [part[|part| - 1]];
    }
  }

  /** Among the rows of `id` with version at most `v`, one has the largest
      version. */
  lemma {:induction false} MaxRowExists(rows: seq<FileRecord>, q: FileRecord, v: int) returns (r: FileRecord)
    requires q in rows && q.version <= v
    ensures r in rows && r.id == q.id && IsCurrentAt(rows, r, v)
  {
    var last := rows[|rows| - 1];
    var init := rows[..|rows| - 1];
    assert rows == init + [last];
    if p :| p in init && p.id == q.id && p.version <= v {
      var r0 := MaxRowExists(init, p, v);
      r := if last.id == q.id && last.version <= v && last.version > r0.version then last else r0;
      forall x | x in rows && x.id == r.id && x.version <= v
        ensures x.version <= r.version
      {
        if x in init {
          assert x.version <= r0.version;
        } else {
          assert x == last;
        }
      }
    } else {
      assert q == last;
      r := q;
      forall x | x in rows && x.id == r.id && x.version <= v
        ensures x.version <= r.version
      {
        if x in init {
          assert false;
        }
      }
    }
  }

  /** The per-version query keeps exactly the rows that are current at `v`,
      and every id that has a row at or below `v` keeps one. */
  lemma CurrentRowsSpec(rows: seq<FileRecord>, v: int)
    ensures forall r :: r in CurrentRows(rows, v) <==> r in rows && IsCurrentAt(rows, r, v)
    ensures forall q :: q in rows && q.version <= v ==>
      exists r :: r in CurrentRows(rows, v) && r.id == q.id
  {
    CurrentAmongMembers(rows, rows, v);
    forall q | q in rows && q.version <= v
      ensures exists r :: r in CurrentRows(rows, v) && r.id == q.id
    {
      var r := MaxRowExists(rows, q, v);
      assert r in CurrentRows(rows, v);
    }
  }

  // ----- the delta query -----

  /** `WHERE fv.version > current`, every matching row in database order,
      with no deduplication. */
  function ChangedSince(rows: seq<FileRecord>, current: int): (r: seq<FileRecord>)
    ensures |r| <= |rows|
    ensures forall f :: multiset(r)[f] == if f.version > current then multiset(rows)[f] else 0
  {
    if rows == [] then []
    else
      var init, last := rows[..|rows| - 1], rows[|rows| - 1];
      assert rows == init + [last];
      ChangedSince(init, current) + (if last.version > current then [last] else [])
  }

  /** `getVersionUpdateFiles(current, newVersion)`: fails when the target
      snapshot cannot be downloaded, decompressed or queried; otherwise
      every row of that snapshot newer than `current`. */
  function VersionUpdateFiles(server: Server, current: int, newVersion: int): (r: Result<seq<FileRecord>, FetchError>)
    ensures r.Success? <==> FetchTable(server, SnapshotPath(newVersion)).Success?
    ensures r.Success? ==>
      var rows := FetchTable(server, SnapshotPath(newVersion)).value;
      forall f :: multiset(r.value)[f] == (if f.version > current then multiset(rows)[f] else 0)
  {
    match FetchTable(server, SnapshotPath(newVersion))
    case Failure(e) => Failure(e)
    case Success(rows) => Success(ChangedSince(rows, current))
  }

  /** A snapshot whose rows are all at or below its own version has nothing
      newer than itself: a delta from the target to the target is empty. */
  lemma {:induction false} NoDeltaFromTarget(server: Server, v: int)
    requires FetchTable(server, SnapshotPath(v)).Success?
    requires forall f :: f in FetchTable(server, SnapshotPath(v)).value ==> f.version <= v
    ensures VersionUpdateFiles(server, v, v) == Success([])
  {
    var r := VersionUpdateFiles(server, v, v).value;
    assert forall f :: multiset(r)[f] == 0;
  }

  // ----- the scan over versions 1..target -----

  /** The rows snapshot `v` contributes: none when it fails. */
  function Contribution(server: Server, v: int): seq<FileRecord>
  {
    match FetchTable(server, SnapshotPath(v))
    case Failure(_) => []
    case Success(rows) => CurrentRows(rows, v)
  }

  /** The rows collected from snapshots 1..n, in version order. */
  function Collected(server: Server, n: int): seq<FileRecord>
    decreases n
  {
    if n < 1 then [] else Collected(server, n - 1) + Contribution(server, n)
  }

  lemma {:induction false} CollectedMembers(server: Server, n: int)
    ensures forall r :: r in Collected(server, n) <==>
      exists v :: 1 <= v <= n && r in Contribution(server, v)
    decreases n
  {
    if n >= 1 {
      CollectedMembers(server, n - 1);
    }
  }

  /** The fold of lines 235-240: replace the stored entry of an id only when
      its version is strictly smaller. */
  function Keep(m: seq<FileRecord>, f: FileRecord): seq<FileRecord>
  {
    match FileMap.Get(m, f.id)
    case None => FileMap.Set(m, f)
    case Some(e) => if e.version < f.version then FileMap.Set(m, f) else m
  }

  function KeepLatest(fs: seq<FileRecord>): seq<FileRecord>
  {
    if fs == [] then [] else Keep(KeepLatest(fs[..|fs| - 1]), fs[|fs| - 1])
  }

  /** The entry the merge holds for `id` after the rows of `fs`, one id at
      a time. */
  function LatestOf(fs: seq<FileRecord>, id: int): Option<FileRecord>
  {
    if fs == [] then None
    else
      var prev := LatestOf(fs[..|fs| - 1], id);
      var f := fs[|fs| - 1];
      if f.id == id && (prev.None? || prev.value.version < f.version) then Some(f) else prev
  }

  /** `fs[i]` is `e`, and every earlier row of its id has a smaller version. */
  ghost predicate FirstMaxAt(fs: seq<FileRecord>, e: FileRecord, i: int)
  {
    0 <= i < |fs| && fs[i] == e && forall j :: 0 <= j < i && fs[j].id == e.id ==> fs[j].version < e.version
  }

  /** `e` carries the largest version of its id in `fs`, and among the rows
      with that version it is the first one collected. */
  ghost predicate IsLatest(fs: seq<FileRecord>, e: FileRecord)
  {
    && (forall j :: 0 <= j < |fs| && fs[j].id == e.id ==> fs[j].version <= e.version)
    && exists i :: FirstMaxAt(fs, e, i)
  }

  /** The merge as a whole agrees with the merge seen one id at a time. */
  lemma {:induction false} KeepLatestGet(fs: seq<FileRecord>)
    ensures FileMap.DistinctIds(KeepLatest(fs))
    ensures FileMap.Ids(KeepLatest(fs)) == FileMap.Ids(fs)
    ensures forall id :: FileMap.Get(KeepLatest(fs), id) == LatestOf(fs, id)
  {
    if fs != [] {
      var init, f := fs[..|fs| - 1], fs[|fs| - 1];
      assert fs == init + [f];
      KeepLatestGet(init);
      var m := KeepLatest(init);
      FileMap.IdsOfAppend(init, f);
      FileMap.SetSpec(m, f);
    }
  }

  /** Seen one id at a time, the merge holds nothing exactly for the ids
      that never occur, and otherwise the first row with the largest
      version. */
  lemma {:induction false} LatestOfSpec(fs: seq<FileRecord>, id: int)
    ensures LatestOf(fs, id).None? <==> id !in FileMap.Ids(fs)
    ensures LatestOf(fs, id).Some? ==> LatestOf(fs, id).value.id == id && IsLatest(fs, LatestOf(fs, id).value)
  {
    if fs != [] {
      var init, f := fs[..|fs| - 1], fs[|fs| - 1];
      assert fs == init + [f];
      LatestOfSpec(init, id);
      FileMap.IdsOfAppend(init, f);
      var prev := LatestOf(init, id);
      if f.id == id && (prev.None? || prev.value.version < f.version) {
        forall j | 0 <= j < |init| && init[j].id == id
          ensures init[j].version < f.version
        {
          assert id in FileMap.Ids(init);
        }
        assert FirstMaxAt(fs, f, |init|);
      } else if prev.Some? {
        var i :| FirstMaxAt(init, prev.value, i);
        assert FirstMaxAt(fs, prev.value, i);
      }
    }
  }

  /** The merge yields one entry per distinct id of the collected rows, and
      that entry is the first-collected row with the id's largest version. */
  lemma KeepLatestSpec(fs: seq<FileRecord>)
    ensures FileMap.DistinctIds(KeepLatest(fs))
    ensures FileMap.Ids(KeepLatest(fs)) == FileMap.Ids(fs)
    ensures forall k :: 0 <= k < |KeepLatest(fs)| ==> IsLatest(fs, KeepLatest(fs)[k])
  {
    KeepLatestGet(fs);
    var r := KeepLatest(fs);
    forall k | 0 <= k < |r|
      ensures IsLatest(fs, r[k])
    {
      FileMap.FindAt(r, r[k].id, k);
      LatestOfSpec(fs, r[k].id);
    }
  }

  /** `getAllRequiredFilesInfo(target)`: scan snapshots 1..target, skipping
      any that fails, then merge the collected rows by id. */
  method GetAllRequiredFilesInfo(server: Server, target: int) returns (unique: seq<FileRecord>)
    ensures unique == KeepLatest(Collected(server, target))
  {
    var files := CollectRows(server, target);
    unique := MergeLatest(files);
  }

  /** The scan loop: the current rows of every snapshot that can be read,
      in version order. */
  method CollectRows(server: Server, target: int) returns (files: seq<FileRecord>)
    ensures files == Collected(server, target)
  {
    files := [];
    var version := 1;
    while version <= target
      invariant 1 <= version <= (if target >= 1 then target + 1 else 1)
      invariant files == Collected(server, version - 1)
    {
      var table := FetchTable(server, SnapshotPath(version));
      if table.Success? {
        files := files + CurrentRows(table.value, version);
      }
      version := version + 1;
    }
  }

  /** The merge loop of lines 235-242. */
  method MergeLatest(files: seq<FileRecord>) returns (fileMap: seq<FileRecord>)
    ensures fileMap == KeepLatest(files)
  {
    fileMap := [];
    var i := 0;
    while i < |files|
      invariant 0 <= i <= |files|
      invariant fileMap == KeepLatest(files[..i])
    {
      var file := files[i];
      assert files[..i + 1][..i] == files[..i] && files[..i + 1][i] == file;
      assert KeepLatest(files[..i + 1]) == Keep(fileMap, file);
      var existing := FileMap.Get(fileMap, file.id);
      if existing.None? || existing.value.version < file.version {
        fileMap := FileMap.Set(fileMap, file);
      }
      i := i + 1;
    }
    assert files[..|files|] == files;
  }

  /** The ids the scan for target `V` yields are exactly those some
      successfully read snapshot `v <= V` reported, each once. */
  lemma RequiredIds(server: Server, target: int)
    ensures FileMap.DistinctIds(KeepLatest(Collected(server, target)))
    ensures forall id :: id in FileMap.Ids(KeepLatest(Collected(server, target))) <==>
      exists v, r :: 1 <= v <= target && r in Contribution(server, v) && r.id == id
  {
    var fs := Collected(server, target);
    KeepLatestSpec(fs);
    CollectedMembers(server, target);
    forall id
      ensures id in FileMap.Ids(fs) <==> exists v, r :: 1 <= v <= target && r in Contribution(server, v) && r.id == id
    {
      if id in FileMap.Ids(fs) {
        var j :| 0 <= j < |fs| && fs[j].id == id;
        assert fs[j] in fs;
      }
      if exists v, r :: 1 <= v <= target && r in Contribution(server, v) && r.id == id {
        var v, r :| 1 <= v <= target && r in Contribution(server, v) && r.id == id;
        assert r in fs;
        var j :| 0 <= j < |fs| && fs[j] == r;
        assert fs[j].id in FileMap.Ids(fs);
      }
    }
  }

  /** Every entry the scan for target `V` yields is a row some successfully
      read snapshot `v <= V` reported, and no snapshot in that range
      reported a larger version for its id. */
  lemma RequiredEntries(server: Server, target: int)
    ensures var req := KeepLatest(Collected(server, target));
      forall k :: 0 <= k < |req| ==>
        && (exists v :: 1 <= v <= target && req[k] in Contribution(server, v))
        && (forall v, r :: 1 <= v <= target && r in Contribution(server, v) && r.id == req[k].id ==>
              r.version <= req[k].version)
  {
    var fs := Collected(server, target);
    var req := KeepLatest(fs);
    KeepLatestSpec(fs);
    CollectedMembers(server, target);
    forall k | 0 <= k < |req|
      ensures exists v :: 1 <= v <= target && req[k] in Contribution(server, v)
      ensures forall v, r :: 1 <= v <= target && r in Contribution(server, v) && r.id == req[k].id ==>
                r.version <= req[k].version
    {
      var e := req[k];
      assert IsLatest(fs, e);
      var i :| FirstMaxAt(fs, e, i);
      assert e in fs;
      forall v, r | 1 <= v <= target && r in Contribution(server, v) && r.id == e.id
        ensures r.version <= e.version
      {
        assert r in fs;
        var j :| 0 <= j < |fs| && fs[j] == r;
      }
    }
  }
}
