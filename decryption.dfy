/** The `-d` branch of `main`: rebuild the plaintext tree from metadata and blobs. */
module Decryption {
  import opened Types
  import opened Sync
  import opened Storage

  datatype DecryptOutcome =
    | Decrypted(count: nat)  // decr_files_ctr
    | Failed(error: Fatal)

  /** Record `p` exists, its blob is present, and the cipher accepts the blob. */
  ghost predicate RecordReadable(m: Metadata, blobs: map<Uuid, Bytes>, decrypt: Bytes -> Option<Bytes>, p: string) {
    p in m && m[p].uuid in blobs && decrypt(blobs[m[p].uuid]).Some?
  }

  /** Every record is readable. */
  ghost predicate Readable(m: Metadata, blobs: map<Uuid, Bytes>, decrypt: Bytes -> Option<Bytes>) {
    forall p :: p in m ==> RecordReadable(m, blobs, decrypt, p)
  }

  /** The plaintext tree the metadata describes: path -> decryption of the record's blob. */
  ghost function Plaintexts(m: Metadata, blobs: map<Uuid, Bytes>, decrypt: Bytes -> Option<Bytes>): map<string, Bytes>
    requires Readable(m, blobs, decrypt)
  {
    map p | p in m :: decrypt(blobs[m[p].uuid]).value
  }

  /** Every record listed in `ps` is readable. */
  ghost predicate AllReadable(m: Metadata, blobs: map<Uuid, Bytes>, decrypt: Bytes -> Option<Bytes>, ps: seq<string>) {
    forall q :: q in ps ==> RecordReadable(m, blobs, decrypt, q)
  }

  /** The plaintexts of the records listed in `ps`. */
  ghost function Decrypts(m: Metadata, blobs: map<Uuid, Bytes>, decrypt: Bytes -> Option<Bytes>, ps: seq<string>): map<string, Bytes>
    requires AllReadable(m, blobs, decrypt, ps)
  {
    map q | q in ps :: decrypt(blobs[m[q].uuid]).value
  }

  /** The error the run stops with at an unreadable record: a missing blob, or one the cipher rejects. */
  ghost function FailureAt(m: Metadata, blobs: map<Uuid, Bytes>, decrypt: Bytes -> Option<Bytes>, p: string): Fatal
    requires p in m && !RecordReadable(m, blobs, decrypt, p)
  {
    if m[p].uuid !in blobs then BlobNotFound(p) else AuthenticationFailed(p)
  }

  /** Position `k` of `order` holds the first unreadable record. */
  ghost predicate StopsAt(m: Metadata, blobs: map<Uuid, Bytes>, decrypt: Bytes -> Option<Bytes>, order: seq<string>, k: nat)
    requires k < |order|
  {
    AllReadable(m, blobs, decrypt, order[..k]) && !RecordReadable(m, blobs, decrypt, order[k])
  }

  /** Plaintexts collected for every record are the plaintext tree. */
  lemma CollectedIsPlaintexts(m: Metadata, blobs: map<Uuid, Bytes>, decrypt: Bytes -> Option<Bytes>,
                              done: map<string, Bytes>)
    requires done.Keys == m.Keys
    requires forall q :: q in done ==> m[q].uuid in blobs && Some(done[q]) == decrypt(blobs[m[q].uuid])
    ensures Readable(m, blobs, decrypt)
    ensures done == Plaintexts(m, blobs, decrypt)
  {
  }

  /**
   * Plaintexts collected for the records before position `k`, where the one at `k` is
   * unreadable: `k` is the first unreadable position, and what was collected is the
   * plaintexts of the records before it.
   */
  lemma CollectedBeforeFailure(m: Metadata, blobs: map<Uuid, Bytes>, decrypt: Bytes -> Option<Bytes>,
                               order: seq<string>, k: nat, done: map<string, Bytes>)
    requires Enumerates(order, m) && k < |order|
    requires done.Keys == set q | q in order[..k]
    requires forall q :: q in done ==> m[q].uuid in blobs && Some(done[q]) == decrypt(blobs[m[q].uuid])
    requires !RecordReadable(m, blobs, decrypt, order[k])
    ensures StopsAt(m, blobs, decrypt, order, k)
    ensures done == Decrypts(m, blobs, decrypt, order[..k])
  {
  }

  /**
   * One decryption run. Without `-m` it stops before any write; a metadata file that does
   * not exist stops it there too (`open` raises). Otherwise, in the key order of the
   * metadata, each record's blob is read from `source`, decrypted and written to `out`
   * under the record's path; the first record whose blob is missing or rejected stops the
   * run there. The metadata is only read.
   */
  method DecryptFolder(out: Folder, source: Folder, meta: MetadataArg, order: seq<string>,
                       decrypt: Bytes -> Option<Bytes>)
    returns (outcome: DecryptOutcome)
    requires out != source
    requires meta.Loaded? ==> Enumerates(order, meta.records)
    modifies out
    ensures meta.NotGiven? ==> outcome == Failed(MetadataRequired) && out.files == old(out.files)
    ensures meta.Missing? ==> outcome == Failed(MetadataNotFound) && out.files == old(out.files)
    ensures meta.Loaded? ==> (outcome.Decrypted? <==> Readable(meta.records, source.files, decrypt))
    ensures meta.Loaded? && outcome.Decrypted? ==>
      && outcome.count == |meta.records|
      && out.files == old(out.files) + Plaintexts(meta.records, source.files, decrypt)
    ensures meta.Loaded? && outcome.Failed? ==>
      exists k :: 0 <= k < |order| && StopsAt(meta.records, source.files, decrypt, order, k)
        && outcome.error == FailureAt(meta.records, source.files, decrypt, order[k])
        && out.files == old(out.files) + Decrypts(meta.records, source.files, decrypt, order[..k])
  {
    if meta.NotGiven? {
      return Failed(MetadataRequired);
    }
    if meta.Missing? {
      return Failed(MetadataNotFound);
    }
    outcome := DecryptRecords(out, meta.records, order, source.files, decrypt);
  }

  /**
   * One iteration of the loop over the metadata (lines 295-299): read the record's blob,
   * decrypt it and write the plaintext under the record's path; `failure` is the error
   * raised when the blob is missing or rejected.
   */
  method DecryptRecord(out: Folder, m: Metadata, blobs: map<Uuid, Bytes>, decrypt: Bytes -> Option<Bytes>, p: string)
    returns (failure: Option<Fatal>, plain: Bytes)
    requires p in m
    modifies out
    ensures failure.None? <==> RecordReadable(m, blobs, decrypt, p)
    ensures failure.None? ==>
      decrypt(blobs[m[p].uuid]) == Some(plain) && out.files == old(out.files)[p := plain]
    ensures failure.Some? ==>
      failure.value == FailureAt(m, blobs, decrypt, p) && out.files == old(out.files)
  {
    var uuid := m[p].uuid;
    if uuid !in blobs {
      return Some(BlobNotFound(p)), [];
    }
    var result := decrypt(blobs[uuid]);
    if result.None? {
      return Some(AuthenticationFailed(p)), [];
    }
    plain := result.value;
    out.Write(p, plain);
    failure := None;
  }

  /** A list of distinct elements has as many elements as the set it lists. */
  lemma {:induction false} DistinctSize<T>(s: seq<T>)
    requires forall i, j :: 0 <= i < j < |s| ==> s[i] != s[j]
    ensures |set x | x in s| == |s|
  {
    if s != [] {
      var t := s[..|s| - 1];
      DistinctSize(t);
      assert (set x | x in s) == (set x | x in t) + {s[|s| - 1]};
      assert s[|s| - 1] !in t;
    }
  }

  /** An enumeration of the metadata has one entry per record. */
  lemma EnumerationSize(order: seq<string>, m: Metadata)
    requires Enumerates(order, m)
    ensures |order| == |m|
  {
    DistinctSize(order);
    assert (set x | x in order) == m.Keys;
  }

  /** Collecting the plaintext of position `k` extends the collected keys by `order[k]`. */
  lemma CollectedStep(order: seq<string>, k: nat, next: nat, done: map<string, Bytes>, plain: Bytes)
    requires next == k + 1 <= |order| && done.Keys == set q | q in order[..k]
    ensures done[order[k] := plain].Keys == set q | q in order[..next]
  {
    assert order[..next] == order[..k] + [order[k]];
  }

  /**
   * The loop over the metadata (lines 294-303), on a snapshot of the blob folder. It stops
   * at the first record in `order` that is unreadable, having written the plaintexts of
   * the records before it.
   */
  method DecryptRecords(out: Folder, m: Metadata, order: seq<string>, blobs: map<Uuid, Bytes>,
                        decrypt: Bytes -> Option<Bytes>)
    returns (outcome: DecryptOutcome)
    requires Enumerates(order, m)
    modifies out
    ensures outcome.Decrypted? <==> Readable(m, blobs, decrypt)
    ensures outcome.Decrypted? ==>
      outcome.count == |m| && out.files == old(out.files) + Plaintexts(m, blobs, decrypt)
    ensures outcome.Failed? ==>
      exists k :: 0 <= k < |order| && StopsAt(m, blobs, decrypt, order, k)
        && outcome.error == FailureAt(m, blobs, decrypt, order[k])
        && out.files == old(out.files) + Decrypts(m, blobs, decrypt, order[..k])
  {
    var count := 0;
    ghost var done: map<string, Bytes> := map[];
    while count < |order|
      invariant count <= |order|
      invariant done.Keys == set q | q in order[..count]
      invariant forall q :: q in done ==> m[q].uuid in blobs && Some(done[q]) == decrypt(blobs[m[q].uuid])
      invariant out.files == old(out.files) + done
    {
      var p := order[count];
      var failure, plain := DecryptRecord(out, m, blobs, decrypt, p);
      if failure.Some? {
        CollectedBeforeFailure(m, blobs, decrypt, order, count, done);
        return Failed(failure.value);
      }
      CollectedStep(order, count, count + 1, done, plain);
      UpdateUnion(old(out.files), done, p, plain);
      count := count + 1;
      done := done[p := plain];
    }
    assert order[..count] == order;
    EnumerationSize(order, m);
    CollectedIsPlaintexts(m, blobs, decrypt, done);
    return Decrypted(count);
  }

  // ---------------------------------------------------------------------------
  // Decrypting what an encryption run produced

  /** Consistent metadata is readable, and each path decrypts to content with its record's fingerprint. */
  lemma ConsistentDecrypts(m: Metadata, blobs: map<Uuid, Bytes>, hash: Bytes -> Digest, decrypt: Bytes -> Option<Bytes>)
    requires Consistent(m, blobs, hash, decrypt)
    ensures Readable(m, blobs, decrypt)
    ensures forall p :: p in m ==> hash(Plaintexts(m, blobs, decrypt)[p]) == m[p].sha1
  {
  }

  /**
   * Decrypting the output of an encryption run that started from a consistent state
   * succeeds, and gives every recorded file content with its current fingerprint; a new or
   * changed file gets back exactly its current contents. Keys may repeat in the listing.
   */
  lemma EncryptThenDecrypt(j: Job, before: map<Uuid, Bytes>, decrypt: Bytes -> Option<Bytes>, i: nat)
    requires RunPremises(j) && RoundTrip(j.encrypt, decrypt)
    requires Consistent(j.prior, before, j.hash, decrypt)
    requires i < |j.files| && Present(j, i)
    ensures Readable(OutMetadata(j), OutBlobs(j, before), decrypt)
    ensures j.files[i].path in Plaintexts(OutMetadata(j), OutBlobs(j, before), decrypt)
    ensures j.hash(Plaintexts(OutMetadata(j), OutBlobs(j, before), decrypt)[j.files[i].path])
            == j.hash(j.files[i].contents.value)
    ensures !Unchanged(j, i) ==>
              Plaintexts(OutMetadata(j), OutBlobs(j, before), decrypt)[j.files[i].path] == j.files[i].contents.value
  {
    var p, m, b := j.files[i].path, OutMetadata(j), OutBlobs(j, before);
    ConsistencyPreserved(j, before, decrypt);
    ConsistentDecrypts(m, b, j.hash, decrypt);
    RecordedWithHash(j, i);
    if !Unchanged(j, i) {
      EncryptedBlobKept(j, before, decrypt, i);
      assert decrypt(b[m[p].uuid]) == j.files[i].contents;
    }
  }

  /** The first entry of the listing with the key of entry `i`. */
  lemma {:induction false} FirstOfKey(files: seq<SourceFile>, i: nat) returns (f: nat)
    requires i < |files|
    ensures f <= i && files[f].path == files[i].path
    ensures forall l :: 0 <= l < f ==> files[l].path != files[i].path
  {
    if l :| 0 <= l < i && files[l].path == files[i].path {
      f := FirstOfKey(files, l);
    } else {
      f := i;
    }
  }

  /** A first run (no `-m`) writes a record for exactly the listed files, all readable. */
  lemma FirstRunReadable(j: Job, before: map<Uuid, Bytes>, decrypt: Bytes -> Option<Bytes>)
    requires RunPremises(j) && RoundTrip(j.encrypt, decrypt) && j.prior == map[]
    ensures Readable(OutMetadata(j), OutBlobs(j, before), decrypt)
    ensures OutMetadata(j).Keys == Recorded(j)
  {
    assert Consistent(j.prior, before, j.hash, decrypt);
    ConsistencyPreserved(j, before, decrypt);
    RecordsKeys(j, |j.files|);
  }

  /**
   * A first run (no `-m`) followed by a decryption run gives back exactly the listed tree:
   * one plaintext per listed file, equal to the file's contents. The first entry of each key
   * is new, so it is encrypted, and the record the key ends with names its ciphertext.
   */
  lemma FirstRunRoundTrip(j: Job, before: map<Uuid, Bytes>, decrypt: Bytes -> Option<Bytes>)
    requires RunPremises(j) && RoundTrip(j.encrypt, decrypt) && j.prior == map[]
    ensures Readable(OutMetadata(j), OutBlobs(j, before), decrypt)
    ensures Plaintexts(OutMetadata(j), OutBlobs(j, before), decrypt).Keys == Recorded(j)
    ensures forall i :: 0 <= i < |j.files| && Present(j, i) ==>
              Plaintexts(OutMetadata(j), OutBlobs(j, before), decrypt)[j.files[i].path] == j.files[i].contents.value
  {
    FirstRunReadable(j, before, decrypt);
    forall i | 0 <= i < |j.files| && Present(j, i)
      ensures Plaintexts(OutMetadata(j), OutBlobs(j, before), decrypt)[j.files[i].path] == j.files[i].contents.value
    {
      var f := FirstOfKey(j.files, i);
      assert j.files[f].contents == j.files[i].contents;
      RecordsKeys(j, f);
      assert j.files[i].path !in Lookup(j, f);
      EncryptThenDecrypt(j, before, decrypt, f);
    }
  }
}
