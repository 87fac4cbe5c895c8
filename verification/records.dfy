/** The values the updater passes around: manifest rows, the outcome of
    hashing a file on disk, and the events it publishes on the progress bus. */
module Records {

  /** One row of a manifest snapshot (`file_info` joined with
      `file_version`): a logical file `id`, its path relative to the client
      directory, the version at which `hash` became current, and the MD5
      digest as a hex string. The patch URL of a row is derived from `id`
      and `version`. */
  datatype FileRecord = FileRecord(id: int, destination: string, version: int, hash: string)

  /** What `md5File` yields for a file that exists: its digest, or an
      exception (an unreadable file). A path absent from the disk map does
      not exist. */
  datatype HashOutcome = Hashed(digest: string) | ReadError

  /** The stage tag of an `error` event. */
  datatype Stage = Check | Extract | Verify | Update

  /** The events of the progress bus, without the float-valued percent and
      speed fields and without the time-throttled `download-progress`. */
  datatype Event =
    | VersionCheck(localVersion: int, remoteVersion: int)
    | VerificationStart(totalFiles: nat)
    | VerificationProgress(current: nat, total: nat, filePath: string)
    | VerificationComplete(missingCount: nat, modifiedCount: nat)
    | DownloadStart(totalFiles: nat)
    | DownloadComplete
    | ExtractStart(totalFiles: nat)
    | ExtractProgress(current: nat, total: nat, filePath: string)
    | ExtractComplete
    | VersionUpdate(newVersion: int)
    | UpdateSummary(totalFiles: nat, successCount: nat, failCount: nat)
    | Error(stage: Stage)
}
