# Game client updater — a Dafny model

This project models the core of the game launcher's updater:

- `updater-enhanced.js`, the class that:
  - finds and rewrites the local `Version.ini`;
  - resolves the required-file set from the per-version manifest snapshots the patch server publishes;
  - verifies the client files against it;
  - plans an update or a repair;
  - downloads, extracts and verifies the patch archives, then commits the new version.
- `lib/cab.js`, the wrapper around the external LZMA codec.

## State and oracles

The updater object becomes the class `Updater.Updater`.

Its configuration is held in constant fields:
- the client directory;
- the temp directory;
- the updater module's directory;
- the working directory.

What it changes is held in fields that its methods reassign:
- the version file path it settled on;
- the version files, each as the document `ini.decode` makes of it;
- the client files, as a map from absolute path to what MD5-hashing the file yields (a path that is not in the map does not exist);
- the names of the files in the temp directory;
- the log of events published on the progress bus.

The outside world is passed in as parameters:
- `Manifest.Server` maps each published path to what decompressing it produces:
  - the codec's close event;
  - the digest of the output;
  - the output's rows, when it is a manifest database.
- The server's `Version.ini` is an `Option<RemoteInfo>`; `None` stands for a failed fetch.

Pure parts are datatypes and functions:
- paths;
- `parseInt` and `toString`;
- the `Map` used for deduplication, as an association list in insertion order;
- the two SQL queries;
- the merge and the decision.

Loops and state changes are methods proved against those functions.

## Behaviour worth knowing

When one `id` is both missing (at version 3) and in the delta (at version 5), one might expect the newer delta row to win. The code does a plain `fileMap.set` of the missing record after the delta rows (`updater-enhanced.js:74-82`), so the later record wins whatever its version: `Planner.MissingBeatsNewerDelta`.

One might also expect `updateLocalVersion` to keep the product name in front of `" v "` unchanged. That holds only when the name does not itself end in `" v"`:
- `VersionStore.RewriteStable` proves the stable case;
- `VersionStore.RewriteDrifts` proves that a name such as `"Game v"` loses its last two characters on the second update.

## Model

| member | source | states |
|---|---|---|
| Paths.Resolve | lib/cab.js:21-22 | an absolute path resolves to itself; against an absolute working directory every result is absolute |
| Paths.LastSegmentSpec | updater-enhanced.js:343 | the last segment has no separator, is a suffix of the path and is preceded by a separator unless it is the whole path |
| Paths.BasenameSpec | lib/cab.js:52 | a base name never holds a separator |
| Paths.ResolveIdempotent | lib/cab.js:43-44 | resolving a resolved path again changes nothing |
| Paths.BasenameOfJoin | updater-enhanced.js:343 | the base name of `dir/name` is `name` for a separator-free non-empty name |
| Paths.LastSegmentOfSuffix | updater-enhanced.js:343 | the last segment after a trailing separator is the separator-free suffix |
| Paths.ResolveJoinAbsolute | lib/cab.js:43 | resolving a path joined onto an absolute directory leaves it unchanged |
| Paths.JoinInjective | updater-enhanced.js:435-436 | two names joined onto one directory give equal paths only if the names are equal |
| JsText.DigitValue | updater-enhanced.js:552 | a digit's value is below its radix |
| JsText.DigitChar | updater-enhanced.js:589 | the digit character written for a value reads back as that value |
| JsText.DecimalDigits | updater-enhanced.js:589 | `toString` of an integer is non-empty, and all digits for a natural number |
| JsText.TrimStart | updater-enhanced.js:552 | what `parseInt` skips is all white space, and what remains does not start with white space |
| JsText.DigitPrefix | updater-enhanced.js:552 | the digits `parseInt` reads are the longest prefix of radix digits |
| JsText.IntToDecimal | updater-enhanced.js:589 | `toString` of an integer; its contract is `JsText.DecimalDigits` and `JsText.ParseIntOfDecimal` |
| JsText.ParseInt | updater-enhanced.js:552 | `parseInt` with no radix: white space, sign, `0x` prefix, longest digit run, `NaN` without digits; its contract is `JsText.ParseIntOfDecimal` |
| JsText.DigitsValueOfDecimal | updater-enhanced.js:552 | the decimal text of a natural number evaluates back to that number |
| JsText.DigitPrefixOfDigits | updater-enhanced.js:552 | an all-digit text is read in full |
| JsText.ParseIntOfDecimal | updater-enhanced.js:589 | `parseInt(n.toString())` is `n` for every integer |
| JsText.ParseIntOrZeroOfDecimal | updater-enhanced.js:552 | `parseInt(n.toString()) \|\| 0` is `n` |
| JsText.BeforeFirst | updater-enhanced.js:585 | `split(sep)[0]` is a prefix holding no `sep`, followed by `sep` unless it is the whole text |
| JsText.BeforeFirstStops | updater-enhanced.js:585 | `split(sep)[0]` of `a + sep + rest` is `a` when `sep` starts nowhere earlier |
| JsText.BeforeFirstAbsent | updater-enhanced.js:585 | a text without `sep` is its own `split(sep)[0]` |
| JsText.BeforeFirstStep | updater-enhanced.js:585 | `split(sep)[0]` peels one leading character that starts no `sep` |
| JsText.OccursShift | updater-enhanced.js:585 | an occurrence of `sep` shifts by one when the first character is dropped |
| FileMap.Find | updater-enhanced.js:236 | `Map.get` finds the first entry of a key, and none when the key is absent |
| FileMap.Get | updater-enhanced.js:236 | `Map.get`; its contract is `FileMap.FindAt` and `FileMap.FindAbsent` |
| FileMap.Set | updater-enhanced.js:75 | `Map.set` keyed by the record's id; its contract is `FileMap.SetSpec` |
| FileMap.SetAll | updater-enhanced.js:74-87 | a run of `Map.set`s; its contract is `FileMap.SetAllSpec` |
| FileMap.LastWithId | updater-enhanced.js:74-87 | the record a run of `set`s leaves is a record of that key with no later record of the key after it, and there is none exactly when the key never occurs |
| FileMap.IdsOfAppend | updater-enhanced.js:89 | appending an entry adds exactly its key |
| FileMap.InIds | updater-enhanced.js:89 | a listed record's key is among the keys |
| FileMap.FindAt | updater-enhanced.js:236 | with distinct keys, `get` of a key returns the entry holding it |
| FileMap.FindAbsent | updater-enhanced.js:236 | `get` of an absent key is undefined |
| FileMap.SetShape | updater-enhanced.js:75 | `set` keeps keys distinct and in place, adds its key, stores its record and leaves other entries alone |
| FileMap.SetSpec | updater-enhanced.js:75 | after `set`, `get` of its key is the new record and every other key's `get` and position are unchanged |
| FileMap.SetAllSpec | updater-enhanced.js:74-87 | after a run of `set`s each key holds the last record of that key, or its old record when the run has none |
| Cab.StripCab | lib/cab.js:44 | one trailing ".cab" is removed and nothing else |
| Cab.Args | lib/cab.js:72 | the argument vector starts with the mode flag and ends with `-f -k --lzma input output` |
| Cab.ArgsInjective | lib/cab.js:72 | different calls give different argument vectors |
| Cab.ClassifyClose | lib/cab.js:85-97 | the close and error handlers; its contract is `Cab.ClassifyCloseSpec` |
| Cab.OutputPath | lib/cab.js:43-55 | the default output, then `outputDirectory`, then `outputFile`; its contract is `Cab.OutputOverrides` |
| Cab.ClassifyCloseSpec | lib/cab.js:85-97 | the promise resolves exactly on exit code 0 with stderr empty or "null"; a non-zero exit is reported before diagnostics |
| Cab.Run | lib/cab.js:42-62 | a missing input or missing options throw before anything runs; the output path; the codec runs exactly when overwrite is on or the output, resolved against the working directory, does not exist, with the argument vector; success and the input's deletion follow the codec's outcome |
| Cab.DefaultOutputsRoundTrip | lib/cab.js:22 | decompressing the default output of compressing a file lands on that file |
| Cab.OutputOverrides | lib/cab.js:51-55 | `outputFile` wins over `outputDirectory`, which keeps the default's base name |
| Manifest.FetchTable | updater-enhanced.js:252-266 | a snapshot's rows are read exactly when it is published, decompresses and is a database |
| Manifest.CurrentAmong | updater-enhanced.js:195-205 | the per-version query; its contract is `Manifest.CurrentAmongMembers` and `Manifest.CurrentRowsSpec` |
| Manifest.CurrentAmongMembers | updater-enhanced.js:195-205 | the query keeps exactly the rows whose version is the largest of their id at or below the version |
| Manifest.MaxRowExists | updater-enhanced.js:200-204 | every id with a row at or below the version has a row of maximal version |
| Manifest.CurrentRowsSpec | updater-enhanced.js:195-205 | the per-version query keeps exactly the current rows, and keeps one for every id present at or below the version |
| Manifest.ChangedSince | updater-enhanced.js:270-276 | the delta query holds every row newer than the given version, as often as the table does, and no other row |
| Manifest.VersionUpdateFiles | updater-enhanced.js:247-303 | `getVersionUpdateFiles` fails exactly when the target snapshot cannot be read, and otherwise returns every newer row |
| Manifest.NoDeltaFromTarget | updater-enhanced.js:274 | the delta from a snapshot's own version is empty when no row lies beyond it |
| Manifest.CollectedMembers | updater-enhanced.js:168-230 | the scan collects exactly the current rows of every readable snapshot from 1 to the target |
| Manifest.KeepLatestGet | updater-enhanced.js:235-242 | the merge has distinct ids, the collected ids, and agrees with the merge taken one id at a time |
| Manifest.LatestOfSpec | updater-enhanced.js:237 | per id the merge holds nothing exactly when the id never occurs, and otherwise the first row of largest version |
| Manifest.KeepLatest | updater-enhanced.js:235-242 | the keep-the-newer merge; its contract is `Manifest.KeepLatestSpec` |
| Manifest.KeepLatestSpec | updater-enhanced.js:232-244 | one entry per distinct id, each the first-collected row of its id's largest version |
| Manifest.GetAllRequiredFilesInfo | updater-enhanced.js:164-245 | the result is the merge of the rows collected from snapshots 1..target |
| Manifest.CollectRows | updater-enhanced.js:168-230 | the scan loop yields the current rows of every readable snapshot, in version order, skipping failures |
| Manifest.MergeLatest | updater-enhanced.js:232-242 | the merge loop computes the keep-the-newer fold |
| Manifest.RequiredIds | updater-enhanced.js:164-245 | the required ids are exactly those some readable snapshot at or below the target reported, each once |
| Manifest.RequiredEntries | updater-enhanced.js:164-245 | each required entry was reported by some readable snapshot, and no such snapshot reported a newer version of its id |
| Verifier.VerdictOf | updater-enhanced.js:132-147 | a file is intact exactly when its path hashes to the manifest digest, and missing exactly when its path is absent |
| Verifier.Select | updater-enhanced.js:119-120 | a class is no longer than the list |
| Verifier.SelectSnoc | updater-enhanced.js:127-148 | checking one more file extends exactly its class |
| Verifier.SelectCounts | updater-enhanced.js:127-148 | a class holds every file of its verdict as often as the list does, and nothing else |
| Verifier.SelectMembers | updater-enhanced.js:127-148 | a class holds exactly the listed files of its verdict |
| Verifier.ProgressLog | updater-enhanced.js:128-130 | the k-th progress event carries k, the total and the k-th destination |
| Verifier.ProgressSnoc | updater-enhanced.js:130 | checking one more file appends its progress event |
| Verifier.VerifyClientFiles | updater-enhanced.js:118-162 | missing and modified are the files of those verdicts in list order; the events are start, one progress per file, complete with both counts |
| Verifier.PartitionCounts | updater-enhanced.js:127-148 | missing, modified and intact add up to the number of files |
| Verifier.NothingToRepair | updater-enhanced.js:150-157 | nothing is missing or modified exactly when every file is intact |
| Planner.SetEach | updater-enhanced.js:74-87 | the `set` loop computes a run of `set`s |
| Planner.PlanSpec | updater-enhanced.js:69-89 | one entry per id of the three lists; per id, the last modified record wins, then the last missing record, then the last delta row |
| Planner.MissingBeatsNewerDelta | updater-enhanced.js:72-82 | a missing record displaces a delta row of the same id even when the delta row is newer |
| Planner.DowngradeOffered | updater-enhanced.js:91-100 | a server behind the client with a damaged file offers a non-repair update to the lower version |
| Planner.Decide | updater-enhanced.js:91-108 | an update exactly when the server is ahead or a file must be fetched, a repair exactly at equal versions; its contract is `Planner.RepairPlan`, `Planner.UpgradePlan` and `Planner.DowngradeOffered` |
| Planner.CheckPlan | updater-enhanced.js:55-109 | the value a check resolves with once both versions are known; its contract is `Planner.RepairPlan` and `Planner.UpgradePlan` |
| Planner.Plan | updater-enhanced.js:55-109 | the plan is the check's decision, and the events are the verification's |
| Planner.RecordPlanned | updater-enhanced.js:79-87 | every missing or modified record is itself in the plan |
| Planner.PlannedFromLists | updater-enhanced.js:79-89 | without a delta, the plan holds only missing or modified records |
| Planner.DamagedPlanned | updater-enhanced.js:68-89 | the plan holds every damaged required file and every delta id, and without a delta it holds exactly the damaged files |
| Planner.RepairPlan | updater-enhanced.js:55-109 | with the server at or below the client the check cannot fail; it offers an update exactly when a file is damaged, a repair exactly at equal versions, fetching exactly the damaged files |
| Planner.UpgradePlan | updater-enhanced.js:55-109 | with the server ahead the check fails exactly when the delta query fails; otherwise it is a non-repair update to the server's version, covering every delta id and every damaged file |
| VersionStore.Candidates | updater-enhanced.js:529-535 | five candidate paths, the configured file first |
| VersionStore.FirstPresent | updater-enhanced.js:537-544 | the first existing candidate, with no earlier one existing, or none at all |
| VersionStore.ReadVersion | updater-enhanced.js:551-552 | reading fails exactly when the `Download` section is missing; otherwise the version is `parseInt(Download.Version) \|\| 0`, so a missing key or a value with no leading number reads as 0 |
| VersionStore.UpdatedDoc | updater-enhanced.js:580-592 | the rewritten document; its contract is `VersionStore.UpdatedDocReadsBack`, `VersionStore.UpdatedDocProductVersion` and `VersionStore.UpdatedDocKeepsOthers` |
| VersionStore.UpdatedDocReadsBack | updater-enhanced.js:580-590 | a rewrite fails exactly without a `Download` section; otherwise it reads back as the new version and names that version's snapshot |
| VersionStore.UpdatedDocProductVersion | updater-enhanced.js:584-587 | a non-empty `ProductVersion` becomes the text before its first " v ", then " v ", then the new version; a `Version` section without one is left alone |
| VersionStore.UpdatedDocKeepsOthers | updater-enhanced.js:582-592 | a rewrite keeps every section and every key other than the three it sets |
| VersionStore.MarkerOnlyAtEnd | updater-enhanced.js:585-586 | appending " v " to a text free of it creates no earlier occurrence unless the text ends in " v" |
| VersionStore.RewriteStable | updater-enhanced.js:584-586 | when the prefix does not end in " v", rewriting keeps it and rewriting twice is rewriting once |
| VersionStore.CutTrailingV | updater-enhanced.js:585 | cutting a trailing " v" leaves a text without " v " that does not end in " v" |
| VersionStore.SecondCut | updater-enhanced.js:585 | a name ending in " v" is cut at its own " v" on the second rewrite |
| VersionStore.RewriteDrifts | updater-enhanced.js:584-586 | a product name ending in " v" loses two characters on the second rewrite |
| Updater.NoSlashInDecimal | updater-enhanced.js:214 | a number's text holds no separator |
| Updater.TempNameIsBasename | updater-enhanced.js:343 | the download target of a patch archive is `id-version.cab` |
| Updater.TempNamesSnoc | updater-enhanced.js:341-371 | downloading one more archive adds exactly its name |
| Updater.RemoveSnoc | updater-enhanced.js:430 | removing one more archive removes exactly its name |
| Updater.TempNamesHold | updater-enhanced.js:379-400 | every listed archive is among the downloaded names |
| Updater.FirstUnpublished | updater-enhanced.js:341-371 | the first archive the server does not publish, all earlier ones published, or none exactly when all are |
| Updater.FirstUnpublishedAt | updater-enhanced.js:341-371 | the first unpublished archive is the one all earlier archives precede |
| Updater.ExtendPublished | updater-enhanced.js:341-371 | a published archive extends a published prefix |
| Updater.ExtractLog | updater-enhanced.js:379-400 | one event per archive |
| Updater.ExtractSnoc | updater-enhanced.js:379-400 | extracting one more archive writes its digest on success, and appends its progress event or an extract error |
| Updater.VerifyErrorsSnoc | updater-enhanced.js:425-428 | verifying one more file appends an error exactly when hashing it throws |
| Updater.DatabaseStep | updater-enhanced.js:434-444 | why the database step throws; its contract is `Updater.Updater.DownloadDatabase` |
| Updater.DatabaseTemp | updater-enhanced.js:434-444 | the temp directory after the database step; its contract is `Updater.Updater.DownloadDatabase` |
| Updater.Updater.constructor | updater-enhanced.js:17-43 | the configuration and initial state are those given, with no events |
| Updater.Updater.GetLocalVersion | updater-enhanced.js:527-556 | fails when no candidate exists or its `Download` section is missing; otherwise returns its version and records its path |
| Updater.Updater.UpdateLocalVersion | updater-enhanced.js:580-603 | the recorded version file is rewritten, or left as it was on failure |
| Updater.Updater.CheckForUpdates | updater-enhanced.js:45-116 | the result, the events published and the temp directory after a check, including both failures before the plan |
| Updater.Updater.CheckKnown | updater-enhanced.js:53-115 | once both versions are known: the decision, the version-check and verification events then the closing one, and the temp directory cleaned unless an update follows |
| Updater.Updater.DownloadAll | updater-enhanced.js:341-371 | stops at the first unpublished archive, whose half-opened file is removed again; otherwise every archive lands in the temp directory |
| Updater.Updater.ExtractAll | updater-enhanced.js:373-402 | the client files after extracting every archive in order, with one progress or error event each |
| Updater.Updater.VerifyAll | updater-enhanced.js:404-432 | success and failure counts are the intact and damaged files and add up to the total; one error per hashing exception; every archive removed |
| Updater.Updater.Commit | updater-enhanced.js:434-447 | the database step then the version rewrite; the version files change only on success; the temp directory is as the database step leaves it |
| Updater.Updater.DownloadDatabase | updater-enhanced.js:434-444 | fails when the snapshot is not published, or when the codec runs and fails; the temp directory loses a refused download, keeps the archive after a failed codec, and loses both files on success |
| Updater.Updater.ApplyUpdates | updater-enhanced.js:305-474 | no update changes nothing; otherwise the result, the client files, the version files and the events of download, extraction, verification, commit and summary, with the temp directory emptied |
| Updater.Updater.Install | updater-enhanced.js:373-474 | after the downloads: extraction, verification, commit and summary as above |
| Updater.Updater.Finish | updater-enhanced.js:434-474 | a non-repair update with a `DB file` commits; a failed commit publishes an update error; otherwise summary then version update unless it is a repair |

## Left out

- Network I/O is not modelled. Downloads, `getRemoteVersionInfo` (`updater-enhanced.js:558-578`) and the `fetch` of the server's `Version.ini` become the `Server` and `Option<RemoteInfo>` parameters.
- A remote version that `parseInt` reads as `NaN` is not modelled; the remote version is an integer.
- The content-length probe (`getRemoteFileSize`) and the time-throttled `download-progress` events with their byte counts, speed and percentage are not modelled.
- The 3-second delay and the `fullCheck` flag that only controls it are not modelled.
- Console logging and the `displayPath` text are not modelled.
- The progress-event emitter is not modelled; events are appended to a log instead.
- The entry point at `updater-enhanced.js:634-677` and the choice of base path by `app.isPackaged` are not modelled. The configuration is the constructor's parameters.
- Creating the temp directory in the constructor and the destination directories during extraction is not modelled. The client-file map has no directories.
- `cleanTempDirectory` is modelled as emptying the set of temp names. Failures to unlink an entry (such as a subdirectory) and the `rmdir` of an empty directory are not modelled.
- Path normalisation (`.`, `..`, repeated or back slashes, drive letters) is not modelled. Paths are POSIX strings.
- `ini.decode` and `ini.encode` are not modelled. A version file is modelled by the decoded document, and encoding then decoding is taken to give the same document back.
- The SQLite database is modelled by the rows of `file_info` joined with `file_version`, in the order the query returns them. The `ORDER BY fi.id` sort is not modelled: the rows stay in database order.
- The `url` field of a record is not stored; it is derived from `id` and `version` (`Updater.PatchPath`).
- `maxRetries` and `retryDelay` are not modelled; the source never reads them.
- `getElzmaPath` and the codec's work on the data are not modelled. The codec's close event and the digest of its output come from the `Server` oracle.
- Partial output left by a failed extraction and partial downloads are not modelled. A failed extraction leaves the destination as it was.
- `JsText.IntToDecimal` covers only integers below 10^21. Larger numbers, which JavaScript prints in exponent form, are not modelled.
- JsText.ParseInt: reads every digit run exactly. JavaScript rounds a value above 2^53 to the nearest double, so versions that large are not modelled.
- The `error` event's payload (the error object) is not modelled; `Error` carries only its stage.
- Updater.Updater.CheckKnown: assumes no `server.db.N` database is left over in the temp directory when the scan starts. The scan and the delta query decompress without overwrite (`updater-enhanced.js:178-180`, `258-260`), so a leftover database would be queried instead of the fresh one; its contents are not modelled.
- Updater.Updater.CheckForUpdates: makes the same assumption about leftover snapshot databases, since it delegates to `CheckKnown`.
- Updater.Updater.ApplyUpdates: its first download failure is modelled only as an unpublished archive. A transfer that breaks part way through is not distinguished.
