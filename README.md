# cloud-crypto, modelled in Dafny

`cloud-crypto.py` encrypts a folder file by file into a folder of blobs. Each blob is named
by a random uuid. A metadata file maps each plaintext path to `{"uuid", "sha1"}`. Given
the metadata of an earlier run, it keeps each file's uuid and re-encrypts only files whose
SHA-1 changed. In sync mode (`-m` without `-a`) it deletes the blobs of files that vanished.
In append mode (`-a`) nothing is deleted and the old records are kept. Decryption (`-d`)
rebuilds the plaintext tree from the metadata and the blobs.

This project models:
- the encryption run;
- the decryption run;
- the rewriting of walked paths into metadata keys;
- the command-line scanner `get_arguments`.

Then it proves what these promise.

Modules:

- `Types` (types.dfy): blobs (`seq<bv8>`), records, metadata maps, the fatal outcomes, and
  the predicates shared by the proofs.
  - `RoundTrip` is the cipher round trip.
  - `Consistent`: every record's blob decrypts to content with the record's fingerprint.
  - `UuidsInjective`: no two records name the same blob.
- `Storage` (folder.dfy): a directory as a class `Folder` whose map of files is updated in
  place by `Write` (`write_file`) and `Remove` (`os.remove`).
- `Sync` (sync.dfy): what one encryption run computes, as folds over the listing, plus the
  lemmas about them.
  - The folds are `Records` (the upserts into `g_metadata`), `Writes` (the blobs written),
    `EncryptedCount` (`encr_files_ctr`), `Deleted` (the blobs removed), `OutMetadata` and
    `OutBlobs`.
  - The lemmas cover identifier reuse, skip-on-unchanged, the rerun no-op, sync and
    append modes, and preservation of the consistency invariant.
- `Encryption` (encryption.dfy): the imperative run.
  - `EncryptListing` is the loop over the listing. It mutates the metadata map, the
    counter and the destination `Folder`.
  - `RemoveVanished` is the deletion loop.
  - `EncryptFolder` strings them together with the `-m`/`-a` error paths.
  - Each is proved against the `Sync` functions.
- `Decryption` (decryption.dfy): the decryption loop, proved against `Plaintexts`, the
  tree the metadata describes. Also the end-to-end lemmas: decrypting the output of an
  encryption run gives back each file.
- `Paths` (paths.dfy): Python's `str.replace`, the as-written normalisation `Normalize`,
  its properties, and the corrected `Fixed` (see Findings).
- `Arguments` (arguments.dfy): `GetArguments`, the while loop over `argv`, proved against
  the fold `Stored`. Lemmas give the meaning of the option map.

Parameters stand in for what the program calls out to:
- SHA-1 is `hash: Bytes -> Digest`.
- Fernet is `encrypt: Bytes -> Bytes` and `decrypt: Bytes -> Option<Bytes>`, where `None`
  means `InvalidToken`.
- The uuids that `uuid.uuid4` would draw are `newIds`, one per listed entry.
- A walked entry's contents are present exactly when `os.path.isfile` accepts its path.

The round trip and the freshness of the uuids are premises of the lemmas that need them
(`RoundTrip`, `FreshIdsValid`). They are not assumed anywhere.

Points where the code behaves differently from what a reader of the program might expect;
the model follows the code:
- **Per-file errors.** Decryption and reconciliation do not skip a failing file. The code
  stops at the first one: a missing blob, a blob the cipher rejects, or a removal of a
  blob that is not there. The model returns `Failed(...)` or `Aborted(...)` at that record,
  the first in the key order of the metadata, with everything before it done.
- **`./` prefixes.** The code removes only the Windows `.\`, so a POSIX `./` prefix stays
  in the metadata keys (`Paths.PosixUnchanged`).
- **Metadata location.** The metadata is written to `metadata.txt` in the working
  directory, although line 271 says it is in the output folder. The model returns the map
  and does not name the file.
- **`-a` without `-m`.** This is not ruled out. The run writes the first file's blob and
  then fails storing a record into a `None` map (line 253). It is modelled as
  `Aborted(NoMetadataToAppend)`.
- **Repeated keys.** Two walked paths can normalise to the same key: on POSIX the walked
  paths `d/a\b` (a file named `a\b`) and `d/a/b` (the file `b` of a directory `a`) both
  become `d/a/b`. The loop processes such a
  listing, and so does the model. In sync mode both entries see the loaded metadata, so a
  changed file is encrypted and counted twice (`Sync.RepeatedChangedPathRewritesBlob`),
  and a new file leaves an orphaned blob (`Sync.RepeatedNewPathOrphansBlob`). In append
  mode the lookup sees the record just stored, so the repeat is unchanged
  (`Sync.AppendRepeatUnchanged`). Entries with one key read one file, because the loop
  tests and hashes the normalised path (`Sync.OneFilePerKey`). Under that premise alone
  the consistency invariant, the round trip, the rerun no-op and both modes' laws hold,
  repeated keys included. Only the per-entry identifier and write lemmas listed under
  "Left out" take distinct keys as a premise (`Sync.WellFormed`).

## Model

| member | source | states |
|---|---|---|
| Storage.Folder.Write | cloud-crypto.py:96-107 | writing a file creates or overwrites exactly that name and leaves every other file as it was |
| Storage.Folder.Remove | cloud-crypto.py:264 | removal deletes exactly that name; it reports failure exactly when the name was absent, which is where `os.remove` raises |
| Sync.Records | cloud-crypto.py:215-253 | definition: the dict of upserts after the first `n` entries; each file stores `{uuid, sha1}` under its path, the uuid being the one the lookup finds or the drawn one, and a later upsert of a path replaces an earlier one |
| Sync.Writes | cloud-crypto.py:215-244 | definition: the blobs written after the first `n` entries; a new or changed file writes its ciphertext under its uuid |
| Sync.EncryptedCount | cloud-crypto.py:213-247 | `encr_files_ctr` after `n` entries is at most `n` |
| Sync.Deleted | cloud-crypto.py:260-265 | definition: the blobs of prior paths missing from the listing, and none in append mode |
| Sync.OutMetadata | cloud-crypto.py:209-269 | definition: the dumped `g_metadata`, the records alone in sync mode and the prior map overridden by them in append mode |
| Sync.OutBlobs | cloud-crypto.py:215-265 | definition: the destination folder after a run that did not abort, the old blobs plus those written, minus those deleted |
| Sync.RemovedStep | cloud-crypto.py:260-264 | one step of the reconciliation loop adds at most one removed blob, that of the path at its position when it has vanished |
| Sync.RemovedAll | cloud-crypto.py:260-265 | run over the whole key order, the reconciliation loop removes exactly the blobs of the vanished paths |
| Sync.RecordsKeys | cloud-crypto.py:218-253 | the records built after `n` entries cover exactly the paths of the regular files among them |
| Sync.WritesKeys | cloud-crypto.py:240-244 | the blobs written after `n` entries are exactly the identifiers of the new or changed files among them |
| Sync.CountZeroIffAllUnchanged | cloud-crypto.py:240-247 | `encr_files_ctr` is zero iff no entry is a new or changed file |
| Sync.CountBoundsWrites | cloud-crypto.py:240-247 | the loop writes at most as many distinct blobs as `encr_files_ctr` counts |
| Sync.LookupSeesPrior | cloud-crypto.py:209-233 | the lookup finds the prior record of the path: always in sync mode, and in append mode (where `metadata` is `g_metadata`, which the loop updates) when no earlier entry has that path; so the uuid is the prior one or the drawn one, and the file is unchanged iff the prior sha1 equals its hash |
| Sync.NoFileNoEffect | cloud-crypto.py:218 | entries that are not regular files record nothing and write nothing |
| Sync.FirstFileWritten | cloud-crypto.py:209-253 | without `-m`, the first regular file is encrypted under its freshly drawn uuid, and that blob is the only one written before `-a` without `-m` fails |
| Sync.RecordsAt | cloud-crypto.py:253 | after the loop passes file `i`, its record is `{uuid for i, hash of its contents}` as long as no later entry has its path |
| Sync.RecordsLast | cloud-crypto.py:218-253 | each recorded path holds the record of the last file with that path: a repeated path keeps only its last upsert |
| Sync.RepeatedNewPathOrphansBlob | cloud-crypto.py:224-253 | sync mode, a new path listed twice: the first entry writes a blob under its own drawn uuid, and no output record names that blob |
| Sync.RepeatedChangedPathRewritesBlob | cloud-crypto.py:227-247 | sync mode, a changed file listed twice: both entries are encrypted and counted, and both write the same prior blob |
| Sync.AppendRepeatUnchanged | cloud-crypto.py:209-238 | append mode, a file listed again with the same contents: the lookup finds the record just stored, so the repeat is unchanged, not rewritten, and keeps the same uuid |
| Sync.IdentifierReuse | cloud-crypto.py:224-253 | each listed file's output record has the hash of its current contents; a prior path keeps the prior uuid whatever its content, and a new path gets its fresh uuid |
| Sync.DistinctUuids | cloud-crypto.py:224-230 | given injective prior uuids and fresh uuids that are distinct and unused, distinct entries get distinct uuids |
| Sync.OriginsDistinct | cloud-crypto.py:224-253 | identifiers that come from different paths (each the path's prior uuid or a uuid drawn for an entry of that path) differ, given injective prior uuids and fresh drawn ones |
| Sync.UuidInOrigin | cloud-crypto.py:224-233 | the uuid an entry gets is its path's prior uuid, the uuid of a record stored earlier under that path, or its own drawn one |
| Sync.RecordsOrigin | cloud-crypto.py:224-253 | every record stored so far holds a uuid that comes from its own path, repeated keys included |
| Sync.UuidOrigin | cloud-crypto.py:224-233 | the uuid any entry gets comes from its own path |
| Sync.OtherUuidNotReused | cloud-crypto.py:224-230 | no entry gets the uuid of a different prior path, repeated keys included |
| Sync.VanishedUuidNotReused | cloud-crypto.py:224-262 | no entry gets the uuid of a prior path that has vanished from the listing, repeated keys included |
| Sync.WritesAt | cloud-crypto.py:240-244 | the blob of a new or changed file holds the ciphertext of its current contents when the loop ends |
| Sync.NotEncryptedNotWritten | cloud-crypto.py:227-240 | the uuid of an unchanged file, or of an entry that is not a file, is never written |
| Sync.CountIsBlobsWritten | cloud-crypto.py:240-247 | `encr_files_ctr` equals the number of distinct blobs written |
| Sync.SkipOnUnchanged | cloud-crypto.py:227-247 | a listed entry's blob is rewritten, with its current ciphertext, iff it is a file that is new or whose sha1 differs; otherwise its blob keeps its old bytes |
| Sync.RecordedWithHash | cloud-crypto.py:221-253 | after a run, every listed file's key holds, in the records and the output metadata alike, a record with the fingerprint of its contents, even when the key repeats |
| Sync.EncryptedBlobKept | cloud-crypto.py:240-265 | the output record of a new or changed file's key names exactly that file's ciphertext in the output folder, repeated keys included |
| Sync.RerunRecordsFromPrior | cloud-crypto.py:227-253 | on a rerun with the first run's metadata, in either mode and with repeated keys, the loop encrypts nothing and every record it stores is the loaded one |
| Sync.RerunFileUnchanged | cloud-crypto.py:227-238 | run again with the first run's metadata over the same listing, every file is unchanged and gets the same record |
| Sync.RerunRecordsAgree | cloud-crypto.py:227-253 | on such a rerun no entry is encrypted, and every record agrees with the first run's metadata |
| Sync.RerunDeletesNothing | cloud-crypto.py:260-265 | on such a rerun the reconciliation loop deletes no blob |
| Sync.RerunSameKeys | cloud-crypto.py:218-253 | both runs record the same set of paths |
| Sync.RerunSameMetadata | cloud-crypto.py:253-269 | the rerun writes the same metadata as the first run |
| Sync.RerunIsNoOp | cloud-crypto.py:215-269 | a rerun over an unmodified listing, in the same mode, encrypts zero files, writes and deletes no blob, reproduces the metadata and leaves the destination folder unchanged |
| Sync.NothingToDoKeepsBlobs | cloud-crypto.py:240-265 | a run that writes no blob and deletes none leaves the destination folder as it was |
| Sync.SyncMode | cloud-crypto.py:253-265 | with `-m` and no `-a`: the output metadata holds exactly the listed files; the deleted blobs are exactly those of prior paths missing from the listing; other blobs survive; no output record names a deleted blob; repeated keys included |
| Sync.AppendMode | cloud-crypto.py:209-260 | with `-a`: the output keys are the prior keys plus the recorded paths; prior records not recorded again are kept verbatim; every prior path keeps its uuid; no blob is deleted; repeated keys included |
| Sync.AppendKeepsPriorUuids | cloud-crypto.py:211-253 | in append mode a prior path recorded again keeps its prior uuid, however often it is listed |
| Sync.UnrecordedNotWritten | cloud-crypto.py:227-244 | the blob of a prior record that no entry so far has replaced has not been written |
| Sync.LoopKeepsConsistency | cloud-crypto.py:215-253 | loop invariant, for any listing whose entries with one key read one file: every record stored so far is backed by a blob that decrypts to content with its sha1, and every entry encrypted so far finds exactly its ciphertext under its key's current record |
| Sync.WrittenStep | cloud-crypto.py:240-253 | an iteration over a new or changed file sets exactly its record and its blob, and no other stored record names that blob |
| Sync.KeptStep | cloud-crypto.py:227-253 | an iteration over an unchanged file stores the record the lookup found and writes nothing |
| Sync.EncryptStepKeeps | cloud-crypto.py:240-253 | an iteration over a new or changed file keeps that invariant: its blob is written and no other record's blob is touched |
| Sync.UnchangedStepKeeps | cloud-crypto.py:227-253 | an iteration over an unchanged file keeps that invariant: nothing is written and the stored record is the one the lookup found |
| Sync.FoundBacked | cloud-crypto.py:209-238 | the record the lookup finds for an unchanged file is backed by the folder, and any earlier encrypted entry of that key stored that very record |
| Sync.RecordedNotDeleted | cloud-crypto.py:253-264 | no output record names a blob that sync mode deletes, repeated keys included |
| Sync.PriorBlobUntouched | cloud-crypto.py:227-244 | the blob of a prior record that is not recorded again is never overwritten |
| Sync.RecordedBlobReadable | cloud-crypto.py:235-253 | from a consistent start, the blob of a recorded file is present after the run, decrypts, and has that file's fingerprint, repeated keys included |
| Sync.OutputInjective | cloud-crypto.py:224-253 | the output records name pairwise distinct blobs, for any listing |
| Sync.ConsistencyPreserved | cloud-crypto.py:235-265 | if every prior record's blob decrypts to content with its sha1, then every output record's blob does too, and the output uuids stay distinct; for any listing whose entries with one key read one file |
| Sync.ConsistentNeverBlocks | cloud-crypto.py:260-265 | from a consistent start with injective uuids, no removal of the reconciliation loop fails, at any position of the key order |
| Encryption.EncryptFolder | cloud-crypto.py:186-269 | a missing `-m` file aborts before any write; `-a` without `-m` aborts iff some entry is a file, after writing exactly the first file's blob; otherwise either the run returns the output metadata and count and leaves the folder at `OutBlobs`, every removal having succeeded, or it aborts at the first position of the key order whose removal fails, with exactly the blobs of the vanished paths before it removed |
| Encryption.EncryptListing | cloud-crypto.py:215-253 | for any listing, repeated paths included, the loop returns the output metadata and `encr_files_ctr` and adds exactly the written blobs to the folder; with no metadata to append to, it stops at the first file |
| Encryption.RemoveVanished | cloud-crypto.py:260-265 | in the key order of the metadata, either every removal succeeds and exactly the blobs of the vanished paths are gone, or the run fails at the first position whose removal fails, having removed exactly the blobs of the vanished paths before it |
| Decryption.CollectedIsPlaintexts | cloud-crypto.py:294-299 | plaintexts gathered for every record form the metadata's plaintext tree |
| Decryption.CollectedBeforeFailure | cloud-crypto.py:294-299 | plaintexts gathered up to an unreadable record make that record the first unreadable one, and are the plaintexts of the records before it |
| Decryption.EnumerationSize | cloud-crypto.py:294 | the key order of the loaded metadata has one entry per record |
| Decryption.DecryptRecord | cloud-crypto.py:295-299 | one iteration succeeds iff the record's blob is present and accepted, and then writes its decryption under the path; otherwise it raises the matching error and writes nothing |
| Decryption.DecryptRecords | cloud-crypto.py:294-303 | the loop succeeds iff every record's blob is present and accepted; it then adds exactly the plaintext tree to the output folder, and `decr_files_ctr` equals the number of records; otherwise it stops with the error of the first unreadable record in key order, having added exactly the plaintexts of the records before it |
| Decryption.DecryptFolder | cloud-crypto.py:274-306 | without `-m`, or with a `-m` that names no file, it stops before any write; otherwise as `DecryptRecords`: the whole plaintext tree, or the first unreadable record's error with exactly the records before it written |
| Decryption.ConsistentDecrypts | cloud-crypto.py:294-299 | consistent metadata is readable, and each path decrypts to content with its record's sha1 |
| Decryption.EncryptThenDecrypt | cloud-crypto.py:215-299 | decrypting the output of a run that started consistent succeeds; it gives every recorded file content with its current fingerprint, and a new or changed file exactly its contents; repeated keys included |
| Decryption.FirstRunReadable | cloud-crypto.py:186-269 | a run without `-m` records exactly the listed files, and the result is readable; repeated keys included |
| Decryption.FirstRunRoundTrip | cloud-crypto.py:186-306 | encrypting without `-m` and then decrypting gives back exactly the listed files with their contents; repeated keys included, because the first entry of each key is new and so encrypted |
| Paths.Replace | cloud-crypto.py:116-117 | `str.replace` with a replacement no longer than the pattern never lengthens the string, and one of the same length keeps its length |
| Paths.Normalize | cloud-crypto.py:116-117 | the metadata key of a walked path is no longer than it and holds no backslash |
| Paths.ReplaceAbsent | cloud-crypto.py:116-117 | `str.replace` of a pattern that does not occur changes nothing |
| Paths.ReplaceBackslash | cloud-crypto.py:117 | replacing `\` by `/` is the character-by-character rewrite |
| Paths.NormalizeSlashes | cloud-crypto.py:116-117 | the normalised path is the path left by the first replacement with each `\` turned into `/` and nothing else changed |
| Paths.PosixUnchanged | cloud-crypto.py:116-117 | a path without a backslash is returned unchanged (so a POSIX `./` prefix is kept) |
| Paths.BackslashFree | cloud-crypto.py:117 | the second replacement leaves a backslash-free path unchanged |
| Paths.NormalizeIdempotent | cloud-crypto.py:116-117 | normalising twice equals normalising once |
| Paths.NoBackslashNoDotBackslash | cloud-crypto.py:116 | a backslash-free path contains no `.\` |
| Paths.NormalizeDropsParent | cloud-crypto.py:116 | as written, `..\r` becomes `.` followed by the normalisation of `r`: the parent step is lost |
| Paths.NormalizeBreaksParent | cloud-crypto.py:116 | as written, `..\a.txt` becomes `.a.txt` |
| Paths.StripAgrees | cloud-crypto.py:116 | where every `.\` starts a path component, deleting them all is the same as deleting only `.` components |
| Paths.FixedAgrees | cloud-crypto.py:116-117 | the corrected normalisation equals the original on every path whose `.\` are whole components |
| Paths.FixedKeepsParent | cloud-crypto.py:116-117 | the corrected normalisation maps `..\r` to `../` followed by the normalisation of `r` |
| Paths.FixedNoBackslash | cloud-crypto.py:117 | the corrected normalisation also yields paths without a backslash |
| Paths.ListFiles | cloud-crypto.py:110-120 | the listing holds one path per walked file, in walk order, each normalised by lines 116-117 as written |
| Arguments.LastIndex | cloud-crypto.py:148 | the index of the last occurrence of a flag, if any; no later element equals it |
| Arguments.Halts | cloud-crypto.py:127-151 | definition: the element that ends the scan, `-h`, an empty element, an unlisted dash-argument, or a value-taking flag with nothing after it |
| Arguments.HaltResult | cloud-crypto.py:130-148 | definition: the result for each way the scan ends, help, IndexError on an empty element, an unrecognised argument, or IndexError on a missing value |
| Arguments.Stored | cloud-crypto.py:127-151 | definition: the option map after the first `n` elements, `-a` storing `True` and each value-taking flag storing the element after it |
| Arguments.StoredKeys | cloud-crypto.py:138-148 | the option map holds exactly `-a` and the value-taking flags present in `argv`; non-dash elements are ignored |
| Arguments.StoredEnabled | cloud-crypto.py:138-139 | `-a` maps to `True` |
| Arguments.StoredValue | cloud-crypto.py:142-148 | a value-taking flag maps to the element after its last occurrence, so a later repetition overwrites an earlier one |
| Arguments.VerboseNotStored | cloud-crypto.py:133-136 | `-v` is never stored in the option map |
| Arguments.GetArguments | cloud-crypto.py:123-153 | the scan stops at the first element that ends it: `-h` gives help (exit 0), an unlisted dash-argument gives an error (exit 1), an empty element or a final value-taking flag raises IndexError; otherwise it returns the option map `Stored` and verbose iff `-v` occurs |
| Arguments.OptionsMeaning | cloud-crypto.py:127-151 | after a completed scan: the keys are `-a` plus the value flags present; `-a` is `True`; each value flag has the element after its last occurrence; `-v` is absent |

## Left out

- Fernet (lines 57-82) is a foreign library. It is a pair of function parameters, so a
  Fernet ciphertext, which is randomised, is modelled as one determined value per plaintext.
- SHA-1 and the chunked read of `hash_file` (lines 30-45) are library hashing and file
  I/O. They are the parameter `hash` over whole contents.
- `uuid.uuid4` (lines 48-49) is randomness. Its values are the input `newIds`. Their
  freshness is a lemma premise (`FreshIdsValid`), not a method precondition.
- Key creation, the password prompt and the key file (lines 85-93, 162-182) are
  interactive I/O and are not modelled.
- The `os.walk` traversal and `os.path.join` (lines 113-115) are filesystem queries. The
  joined paths are the input of `Paths.ListFiles`. The runs take the listing with contents
  as input; `os.path.isfile` becomes whether an entry has contents. Two entries with the
  same key read the same file in the source; the runs accept any listing, and the lemmas
  that need it take this as the premise `Sync.OneFilePerKey`.
- The listing's contents are taken as independent of the destination folder. With the
  default `out_e/` inside the encrypted tree (the help's own `-e .` example, line 21), a
  later run lists and encrypts the earlier blobs and `metadata.txt`, and a blob written
  during the loop can change a file listed after it. A snapshot listing does not express
  either effect.
- JSON load and dump (lines 204, 269, 281) are library serialisation. The loaded map
  is an input, with its key order as a separate input (`keyOrder` for reconciliation,
  `order` for decryption). The dumped map is the result `Encrypted(metadata, ...)`.
  - With `-a`, no `-m` and no file in the listing, the source dumps `null`; the model
    returns the empty map there.
  - Writing the map to `metadata.txt` in the working directory is not modelled.
- The output folder name (`out_e/`, `out_d/`, `-o`, the added `/`, lines 194-200 and
  286-291) is not modelled. The folders are `Folder` objects given directly.
- `write_file` directory creation and its error print (lines 96-104) are filesystem side
  effects. Writing is a map update.
- Decryption path aliasing is not modelled: `DecryptFolder` requires the output folder
  and the blob folder to be distinct objects. The blob folder is read as a snapshot.
- Printing is output only and has no state effect: help text, `mprint`, progress lines and
  the final tallies (lines 9-27, 52-54, 248-256, 302-306).
- The dispatch in `main` between `-e` and `-d` on the option map, and the
  `len(myargs) == 0` exit (lines 186 and 274, and the `__main__` block at lines 311-319),
  are not modelled. Each run takes its options
  as parameters.
- Sync.IdentifierReuse, Sync.DistinctUuids, Sync.WritesAt, Sync.NotEncryptedNotWritten,
  Sync.CountIsBlobsWritten, Sync.SkipOnUnchanged: these take distinct normalised keys as
  a premise (`Sync.WellFormed`). Two walked paths can share a key: on POSIX `d/a\b` and
  `d/a/b` both become `d/a/b`. With a shared key most of these fail as stated. A new path
  keeps the uuid drawn for its last entry. Two entries share a uuid. The counter can exceed
  the number of blobs. An unchanged repeat in append mode shares a written uuid. The
  repeated-key behaviour is stated instead by `Sync.RecordsLast`,
  `Sync.RepeatedNewPathOrphansBlob`, `Sync.RepeatedChangedPathRewritesBlob`,
  `Sync.AppendRepeatUnchanged` and `Sync.CountBoundsWrites`.
- Arguments.GetArguments: requires a non-empty `argv`, which `sys.argv` always is.
  `prog_name = argv[0]` is only passed to the help text.

## Findings

| source | as written | input that shows it | evidently intended | confidence | as-written member | corrected member |
|---|---|---|---|---|---|---|
| cloud-crypto.py:116 | `full_path.replace('.\\', '')` deletes every `.\`, including the one inside a parent component `..\` | the walked path `..\a.txt` becomes `.a.txt`, so `os.path.isfile` at line 218 looks for a different file and the entry is skipped | delete only `.` components, the `.\` that starts the path or follows a separator | medium, not executed | Paths.NormalizeBreaksParent | Paths.FixedKeepsParent |

`Paths.NormalizeDropsParent` states the general form of the as-written behaviour.
`Paths.FixedAgrees` proves that the corrected `Paths.Fixed` equals the original on every
path whose `.\` are whole components. `Paths.ListFiles` models the listing as written,
with `Normalize`.
