/** `verifyClientFiles`: every required file is checked against the disk in
    list order and lands in exactly one of three classes. The disk is an
    oracle: a map from absolute path to what hashing that file gives; a path
    it does not hold does not exist. */
module Verifier {
  import opened Records
  import Paths

  type Disk = map<string, HashOutcome>

  datatype Verdict = Missing | Modified | Intact

  /** One file's class: absent on disk is missing; a hashing exception or a
      digest other than the manifest's is modified; the manifest's digest is
      intact. */
  function VerdictOf(f: FileRecord, clientDirectory: string, disk: Disk): (v: Verdict)
    ensures v == Intact <==> var p := Paths.Join(clientDirectory, f.destination); p in disk && disk[p] == Hashed(f.hash)
    ensures v == Missing <==> Paths.Join(clientDirectory, f.destination) !in disk
  {
    var p := Paths.Join(clientDirectory, f.destination);
    if p !in disk then Missing
    else match disk[p]
      case ReadError => Modified
      case Hashed(h) => if h == f.hash then Intact else Modified
  }

  /** The files of class `v`, in list order. */
  function Select(files: seq<FileRecord>, clientDirectory: string, disk: Disk, v: Verdict): (r: seq<FileRecord>)
    ensures |r| <= |files|
  {
    if files == [] then []
    else
      var init, last := files[..|files| - 1], files[|files| - 1];
      Select(init, clientDirectory, disk, v) + (if VerdictOf(last, clientDirectory, disk) == v then [last] else [])
  }

  lemma SelectSnoc(files: seq<FileRecord>, f: FileRecord, clientDirectory: string, disk: Disk, v: Verdict)
    ensures Select(files + [f], clientDirectory, disk, v)
      == Select(files, clientDirectory, disk, v) + (if VerdictOf(f, clientDirectory, disk) == v then [f] else [])
  {
    assert (files + [f])[..|files|] == files;
  }

  /** A class holds every file of its verdict, as often as the list does,
      and nothing else. */
  lemma {:induction false} SelectCounts(files: seq<FileRecord>, clientDirectory: string, disk: Disk, v: Verdict)
    ensures forall f :: (multiset(Select(files, clientDirectory, disk, v))[f]
      == if VerdictOf(f, clientDirectory, disk) == v then multiset(files)[f] else 0)
  {
    if files != [] {
      var init, last := files[..|files| - 1], files[|files| - 1];
      assert files == init + [last];
      SelectCounts(init, clientDirectory, disk, v);
    }
  }

  /** A class holds exactly the listed files of its verdict. */
  lemma {:induction false} SelectMembers(files: seq<FileRecord>, clientDirectory: string, disk: Disk, v: Verdict)
    ensures forall f :: f in Select(files, clientDirectory, disk, v) <==> f in files && VerdictOf(f, clientDirectory, disk) == v
  {
    if files != [] {
      var init, last := files[..|files| - 1], files[|files| - 1];
      assert files == init + [last];
      SelectMembers(init, clientDirectory, disk, v);
    }
  }

  /** One `verification-progress` event per file: `(k, total, destination)`
      for the k-th file, counting from 1. */
  function ProgressLog(files: seq<FileRecord>, total: nat): (log: seq<Event>)
    ensures |log| == |files|
    ensures forall k :: 0 <= k < |files| ==> log[k] == VerificationProgress(k + 1, total, files[k].destination)
  {
    if files == [] then []
    else ProgressLog(files[..|files| - 1], total) + [VerificationProgress(|files|, total, files[|files| - 1].destination)]
  }

  lemma ProgressSnoc(files: seq<FileRecord>, f: FileRecord, total: nat, before: seq<Event>)
    ensures before + ProgressLog(files + [f], total)
      == before + ProgressLog(files, total) + [VerificationProgress(|files| + 1, total, f.destination)]
  {
    assert (files + [f])[..|files|] == files;
  }

  /** The events one verification publishes. */
  function VerificationLog(files: seq<FileRecord>, clientDirectory: string, disk: Disk): seq<Event>
  {
    [VerificationStart(|files|)]
    + ProgressLog(files, |files|)
    + [VerificationComplete(|Select(files, clientDirectory, disk, Missing)|, |Select(files, clientDirectory, disk, Modified)|)]
  }

  method VerifyClientFiles(files: seq<FileRecord>, clientDirectory: string, disk: Disk)
    returns (missing: seq<FileRecord>, modified: seq<FileRecord>, log: seq<Event>)
    ensures missing == Select(files, clientDirectory, disk, Missing)
    ensures modified == Select(files, clientDirectory, disk, Modified)
    ensures log == VerificationLog(files, clientDirectory, disk)
  {
    missing, modified := [], [];
    var totalFiles := |files|;
    var checkedFiles := 0;
    log := [VerificationStart(totalFiles)];
    ghost var done: seq<FileRecord> := [];
    while checkedFiles < totalFiles
      invariant 0 <= checkedFiles <= totalFiles && done == files[..checkedFiles]
      invariant missing == Select(done, clientDirectory, disk, Missing)
      invariant modified == Select(done, clientDirectory, disk, Modified)
      invariant log == [VerificationStart(totalFiles)] + ProgressLog(done, totalFiles)
    {
      var file := files[checkedFiles];
      SelectSnoc(done, file, clientDirectory, disk, Missing);
      SelectSnoc(done, file, clientDirectory, disk, Modified);
      ProgressSnoc(done, file, totalFiles, [VerificationStart(totalFiles)]);
      checkedFiles := checkedFiles + 1;
      log := log + [VerificationProgress(checkedFiles, totalFiles, file.destination)];
      var localFile := Paths.Join(clientDirectory, file.destination);
      if localFile !in disk {
        assert VerdictOf(file, clientDirectory, disk) == Missing;
        missing := missing + [file];
      } else {
        match disk[localFile]
        case ReadError =>
          assert VerdictOf(file, clientDirectory, disk) == Modified;
          modified := modified + [file];
        case Hashed(localHash) =>
          if localHash != file.hash {
            assert VerdictOf(file, clientDirectory, disk) == Modified;
            modified := modified + [file];
          } else {
            assert VerdictOf(file, clientDirectory, disk) == Intact;
          }
      }
      done := done + [file];
    }
    assert done == files;
    log := log + [VerificationComplete(|missing|, |modified|)];
  }

  /** The three classes partition the list: their sizes add up to the
      number of files checked. */
  lemma {:induction false} PartitionCounts(files: seq<FileRecord>, clientDirectory: string, disk: Disk)
    ensures |Select(files, clientDirectory, disk, Missing)| + |Select(files, clientDirectory, disk, Modified)|
            + |Select(files, clientDirectory, disk, Intact)| == |files|
  {
    if files != [] {
      PartitionCounts(files[..|files| - 1], clientDirectory, disk);
    }
  }

  /** Nothing is reported missing or modified exactly when every file is
      intact. */
  lemma {:induction false} NothingToRepair(files: seq<FileRecord>, clientDirectory: string, disk: Disk)
    ensures Select(files, clientDirectory, disk, Missing) == [] && Select(files, clientDirectory, disk, Modified) == []
            <==> forall f :: f in files ==> VerdictOf(f, clientDirectory, disk) == Intact
  {
    if files != [] {
      var init, last := files[..|files| - 1], files[|files| - 1];
      assert files == init + [last];
      NothingToRepair(init, clientDirectory, disk);
    }
  }
}
