/** The `-e` branch of `main`: encrypt a listing into a destination folder of blobs. */
module Encryption {
  import opened Types
  import opened Sync
  import opened Storage

  datatype EncryptOutcome =
    | Encrypted(metadata: Metadata, count: nat)  // the map dumped to metadata.txt and encr_files_ctr
    | Aborted(error: Fatal)

  /** The inputs of the run as a job; without `-m` the prior map is empty. */
  function JobFor(files: seq<SourceFile>, newIds: seq<Uuid>, meta: MetadataArg, append: bool,
                  hash: Bytes -> Digest, encrypt: Bytes -> Bytes): Job
  {
    Job(files, newIds, if meta.Loaded? then meta.records else map[], append, hash, encrypt)
  }

  /**
   * One encryption run. `files` is the normalised listing, with the contents of the entries
   * that are files, `newIds[i]` the uuid drawn for `files[i]`, `meta` the `-m` option,
   * `keyOrder` the key order of the loaded metadata, `append` the `-a` flag. The run aborts
   * before writing anything when `-m` names no file; with `-a` but no `-m` it aborts after
   * writing the blob of the first file, when it tries to store that file's record in a
   * metadata map that is None. Otherwise it writes the blobs of new and changed files and,
   * in sync mode, removes the blobs of vanished paths in key order; the first removal of a
   * blob that is not there aborts it.
   */
  method EncryptFolder(dest: Folder, files: seq<SourceFile>, newIds: seq<Uuid>, meta: MetadataArg,
                       keyOrder: seq<string>, append: bool, hash: Bytes -> Digest, encrypt: Bytes -> Bytes)
    returns (outcome: EncryptOutcome)
    requires |newIds| == |files|
    requires meta.Loaded? ==> Enumerates(keyOrder, meta.records)
    modifies dest
    ensures meta.Missing? ==> outcome == Aborted(MetadataNotFound) && dest.files == old(dest.files)
    ensures !meta.Missing? ==>
      var j := JobFor(files, newIds, meta, append, hash, encrypt);
      var written := old(dest.files) + Writes(j, |files|);
      && (outcome == Aborted(NoMetadataToAppend) <==>
            append && meta.NotGiven? && exists k :: 0 <= k < |files| && Present(j, k))
      && (outcome == Aborted(NoMetadataToAppend) ==>
            exists k :: 0 <= k < |files| && FirstFile(j, k) && dest.files == old(dest.files) + Writes(j, k + 1))
      && (outcome.Encrypted? ==>
            && outcome.metadata == OutMetadata(j)
            && outcome.count == EncryptedCount(j, |files|)
            && dest.files == OutBlobs(j, old(dest.files))
            && (meta.Loaded? && !append ==> RemovalsSucceed(j, written, keyOrder, |keyOrder|)))
      && (outcome.Aborted? && outcome.error != NoMetadataToAppend ==>
            && meta.Loaded? && !append
            && exists k :: 0 <= k < |keyOrder| && outcome.error == RemoveFailed(keyOrder[k])
                 && RemovalsSucceed(j, written, keyOrder, k) && RemovalFails(j, written, keyOrder, k)
                 && dest.files == written - RemovedBefore(j, keyOrder, k))
  {
    if meta.Missing? {
      return Aborted(MetadataNotFound);
    }
    var prior: Metadata := if meta.Loaded? then meta.records else map[];
    ghost var j := JobFor(files, newIds, meta, append, hash, encrypt);
    var g, count, crashed := EncryptListing(dest, files, newIds, prior, append, append && meta.NotGiven?, hash, encrypt);
    if crashed {
      return Aborted(NoMetadataToAppend);
    }
    if meta.Loaded? && !append {
      var failed := RemoveVanished(dest, prior, keyOrder, Listed(files), j);
      if failed.Some? {
        return Aborted(RemoveFailed(failed.value));
      }
    }
    return Encrypted(g, count);
  }

  /**
   * The loop over the listing (lines 215-253): for each entry that is a file, hash it, reuse
   * the prior uuid or take the drawn one, write the ciphertext unless the fingerprint is
   * unchanged, and upsert the record. `noMap` says that `g_metadata` is None (`-a` without
   * `-m`); the upsert then fails, which `crashed` reports.
   */
  method EncryptListing(dest: Folder, files: seq<SourceFile>, newIds: seq<Uuid>, prior: Metadata,
                        append: bool, noMap: bool, hash: Bytes -> Digest, encrypt: Bytes -> Bytes)
    returns (g: Metadata, count: nat, crashed: bool)
    requires |newIds| == |files|
    modifies dest
    ensures var j := Job(files, newIds, prior, append, hash, encrypt);
      && (crashed <==> noMap && exists k :: 0 <= k < |files| && Present(j, k))
      && (crashed ==>
            exists k :: 0 <= k < |files| && FirstFile(j, k) && dest.files == old(dest.files) + Writes(j, k + 1))
      && (!crashed ==>
            && g == OutMetadata(j)
            && count == EncryptedCount(j, |files|)
            && dest.files == old(dest.files) + Writes(j, |files|))
  {
    ghost var j := Job(files, newIds, prior, append, hash, encrypt);
    var base: Metadata := if append then prior else map[];
    g := base;
    count := 0;
    crashed := false;
    var i := 0;
    while i < |files|
      invariant 0 <= i <= |files|
      invariant g == base + Records(j, i)
      invariant count == EncryptedCount(j, i)
      invariant dest.files == old(dest.files) + Writes(j, i)
      invariant noMap ==> forall l :: 0 <= l < i ==> !Present(j, l)
    {
      var f := files[i];
      if f.contents.Some? {
        var sha1 := hash(f.contents.value);
        var uuid := newIds[i];
        var same := false;
        // in append mode `metadata` and `g_metadata` are one dict: the lookup sees earlier upserts
        var lookup := if append then g else prior;
        assert lookup == Lookup(j, i);
        if f.path in lookup {
          uuid := lookup[f.path].uuid;
          if lookup[f.path].sha1 == sha1 {
            same := true;
          }
        }
        assert uuid == UuidFor(j, i) && same == Unchanged(j, i);
        WritesStep(j, i, old(dest.files));
        if !same {
          dest.Write(uuid, encrypt(f.contents.value));
          count := count + 1;
        }
        if noMap {
          assert FirstFile(j, i);
          return g, count, true;
        }
        RecordsStep(j, i, base);
        g := g[f.path := Record(uuid, sha1)];
      }
      i := i + 1;
    }
  }

  /**
   * The reconciliation loop (lines 260-265): in the key order of the metadata, remove the
   * blob of every prior path that is not listed any more. It stops at the first removal of
   * a blob that is not there.
   */
  method RemoveVanished(dest: Folder, prior: Metadata, order: seq<string>, listed: set<string>, ghost j: Job)
    returns (failed: Option<string>)
    requires prior == j.prior && listed == Listed(j.files) && !j.append && Enumerates(order, prior)
    modifies dest
    ensures failed.None? ==>
      RemovalsSucceed(j, old(dest.files), order, |order|) && dest.files == old(dest.files) - Deleted(j)
    ensures failed.Some? ==>
      exists k :: 0 <= k < |order| && failed.value == order[k]
        && RemovalsSucceed(j, old(dest.files), order, k) && RemovalFails(j, old(dest.files), order, k)
        && dest.files == old(dest.files) - RemovedBefore(j, order, k)
  {
    var k := 0;
    while k < |order|
      invariant k <= |order|
      invariant RemovalsSucceed(j, old(dest.files), order, k)
      invariant dest.files == old(dest.files) - RemovedBefore(j, order, k)
    {
      var p := order[k];
      RemovedStep(j, order, k);
      if p !in listed {
        var removed := dest.Remove(prior[p].uuid);
        if !removed {
          return Some(p);
        }
        SubtractTwice(old(dest.files), RemovedBefore(j, order, k), {prior[p].uuid});
      }
      k := k + 1;
    }
    RemovedAll(j, order);
    return None;
  }
}
