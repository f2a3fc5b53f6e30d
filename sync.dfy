/**
 * What one encryption run computes, as functions of its inputs: the records of the
 * listed files, the blobs it writes, the number of files it encrypts, and the blobs
 * that sync mode deletes. The loop in module Encryption is proved against these,
 * and the properties of a run are proved here about them.
 */
module Sync {
  import opened Types

  /**
   * The inputs of one run. `newIds[i]` is the identifier allocated for `files[i]`
   * (the source draws a uuid on every iteration); `prior` is the loaded metadata,
   * empty when `-m` is not given; `append` is the `-a` flag.
   */
  datatype Job = Job(files: seq<SourceFile>, newIds: seq<Uuid>, prior: Metadata, append: bool,
                     hash: Bytes -> Digest, encrypt: Bytes -> Bytes)

  /**
   * Entries with one key read one file: line 218 tests, and line 221 hashes, the normalised
   * path `f` and not the walked one, so entries of a listing that share a key agree on its
   * contents. This holds for every listing the walk gives.
   */
  predicate OneFilePerKey(files: seq<SourceFile>) {
    forall a, b :: 0 <= a < |files| && 0 <= b < |files| && files[a].path == files[b].path ==>
      files[a].contents == files[b].contents
  }

  /**
   * No normalised path is listed twice. The walk lists each file once, but two walked paths
   * can normalise to the same key: on POSIX the walked paths `d/a\b` (a file named `a\b`)
   * and `d/a/b` both become `d/a/b`. Only the per-entry lemmas about identifiers and writes
   * (`Assumptions`) take this as a premise.
   */
  predicate DistinctPaths(files: seq<SourceFile>) {
    forall a, b :: 0 <= a < b < |files| ==> files[a].path != files[b].path
  }

  predicate WellFormed(j: Job) {
    |j.newIds| == |j.files| && DistinctPaths(j.files)
  }

  /** The random identifiers never collide with each other nor with a prior record's. */
  ghost predicate FreshIdsValid(j: Job) {
    && (forall a, b :: 0 <= a < b < |j.newIds| ==> j.newIds[a] != j.newIds[b])
    && (forall a, p :: 0 <= a < |j.newIds| && p in j.prior ==> j.newIds[a] != j.prior[p].uuid)
  }

  /** One drawn identifier per entry, the drawn ones fresh, and prior records naming distinct blobs. */
  ghost predicate IdsValid(j: Job) {
    |j.newIds| == |j.files| && UuidsInjective(j.prior) && FreshIdsValid(j)
  }

  /** The premises of the consistency invariant, which allow repeated keys. */
  ghost predicate RunPremises(j: Job) {
    IdsValid(j) && OneFilePerKey(j.files)
  }

  /** The premises of the per-entry identifier lemmas, which need distinct keys. */
  ghost predicate Assumptions(j: Job) {
    WellFormed(j) && IdsValid(j)
  }

  /** The paths of the listing, which the `f not in files` test of line 261 consults. */
  function Listed(files: seq<SourceFile>): set<string> {
    set i | 0 <= i < |files| :: files[i].path
  }

  /** `os.path.isfile` accepts the path of listed entry `i`; the loop ignores the others. */
  predicate Present(j: Job, i: nat)
    requires i < |j.files|
  {
    j.files[i].contents.Some?
  }

  /**
   * The dict the lookup of lines 227-233 consults once the records `r` are stored. In append
   * mode `metadata` and `g_metadata` are one dict (line 211), so the lookup sees the records
   * stored earlier in the same run; in sync mode it is the loaded metadata.
   */
  function LookupIn(j: Job, r: Metadata): Metadata {
    if j.append then j.prior + r else j.prior
  }

  /** The identifier entry `i` gets once the records `r` are stored: the one found, or the drawn one. */
  function UuidIn(j: Job, i: nat, r: Metadata): Uuid
    requires i < |j.files| == |j.newIds|
  {
    var p, l := j.files[i].path, LookupIn(j, r);
    if p in l then l[p].uuid else j.newIds[i]
  }

  /** The records the loop upserts for the first `n` entries (line 253): a later upsert of a path wins. */
  function Records(j: Job, n: nat): Metadata
    requires n <= |j.files| == |j.newIds|
  {
    if n == 0 then map[]
    else
      var i, r := n - 1, Records(j, n - 1);
      if Present(j, i) then r[j.files[i].path := Record(UuidIn(j, i, r), j.hash(j.files[i].contents.value))]
      else r
  }

  /** The dict the lookup consults for entry `i`. */
  function Lookup(j: Job, i: nat): Metadata
    requires i <= |j.files| == |j.newIds|
  {
    LookupIn(j, Records(j, i))
  }

  /** The identifier file `i` ends up with: the record's found by the lookup, or the freshly drawn one. */
  function UuidFor(j: Job, i: nat): Uuid
    requires i < |j.files| == |j.newIds|
  {
    UuidIn(j, i, Records(j, i))
  }

  /** The lookup finds file `i` with the fingerprint it has now. */
  predicate Unchanged(j: Job, i: nat)
    requires i < |j.files| == |j.newIds|
  {
    var p, l := j.files[i].path, Lookup(j, i);
    Present(j, i) && p in l && l[p].sha1 == j.hash(j.files[i].contents.value)
  }

  /** The loop writes a blob for entry `i`: a file that is new or changed. */
  predicate Encrypts(j: Job, i: nat)
    requires i < |j.files| == |j.newIds|
  {
    Present(j, i) && !Unchanged(j, i)
  }

  /** The record the loop stores for file `i`. */
  function RecordFor(j: Job, i: nat): Record
    requires i < |j.files| == |j.newIds| && Present(j, i)
  {
    Record(UuidFor(j, i), j.hash(j.files[i].contents.value))
  }

  /** The ciphertext the loop writes for file `i`. */
  function BlobFor(j: Job, i: nat): Bytes
    requires i < |j.files| && Present(j, i)
  {
    j.encrypt(j.files[i].contents.value)
  }

  /** The blobs the loop writes for the first `n` entries: only the new or changed ones. */
  function Writes(j: Job, n: nat): map<Uuid, Bytes>
    requires n <= |j.files| == |j.newIds|
  {
    if n == 0 then map[]
    else
      var i := n - 1;
      if Encrypts(j, i) then Writes(j, i)[UuidFor(j, i) := BlobFor(j, i)] else Writes(j, i)
  }

  /** `encr_files_ctr` after the first `n` entries: at most one per entry. */
  function EncryptedCount(j: Job, n: nat): (c: nat)
    requires n <= |j.files| == |j.newIds|
    ensures c <= n
  {
    if n == 0 then 0
    else EncryptedCount(j, n - 1) + if Encrypts(j, n - 1) then 1 else 0
  }

  /** The listed paths that name a file: the ones the loop records. */
  function Recorded(j: Job): set<string> {
    set k | 0 <= k < |j.files| && Present(j, k) :: j.files[k].path
  }

  /** Entry `k` is the first file of the listing. */
  predicate FirstFile(j: Job, k: nat)
    requires k < |j.files|
  {
    Present(j, k) && forall l :: 0 <= l < k ==> !Present(j, l)
  }

  /** Prior paths that the current listing no longer has. */
  function Vanished(j: Job): set<string> {
    j.prior.Keys - Listed(j.files)
  }

  /** Blobs the reconciliation loop removes: none in append mode. */
  function Deleted(j: Job): set<Uuid> {
    if j.append then {} else set p | p in Vanished(j) :: j.prior[p].uuid
  }

  /** The metadata written out at the end: `g_metadata` starts as the prior map only in append mode. */
  function OutMetadata(j: Job): Metadata
    requires |j.files| == |j.newIds|
  {
    (if j.append then j.prior else map[]) + Records(j, |j.files|)
  }

  /** The destination folder after a run that did not abort. */
  function OutBlobs(j: Job, before: map<Uuid, Bytes>): map<Uuid, Bytes>
    requires |j.files| == |j.newIds|
  {
    (before + Writes(j, |j.files|)) - Deleted(j)
  }

  /**
   * The blobs the reconciliation loop (lines 260-265) has removed before it reaches position
   * `k` of the prior key order: those of the vanished paths at earlier positions.
   */
  function RemovedBefore(j: Job, order: seq<string>, k: nat): set<Uuid>
    requires k <= |order| && forall l :: 0 <= l < |order| ==> order[l] in j.prior
  {
    set l | 0 <= l < k && order[l] !in Listed(j.files) :: j.prior[order[l]].uuid
  }

  /**
   * The removal at position `k` fails (`os.remove` raises): the path has vanished and its
   * blob is not in the folder `blobs` left by the loop over the listing, or an earlier
   * vanished path named the same blob and removed it first.
   */
  predicate RemovalFails(j: Job, blobs: map<Uuid, Bytes>, order: seq<string>, k: nat)
    requires k < |order| && forall l :: 0 <= l < |order| ==> order[l] in j.prior
  {
    && order[k] !in Listed(j.files)
    && j.prior[order[k]].uuid !in blobs.Keys - RemovedBefore(j, order, k)
  }

  /** The reconciliation loop gets past the first `k` positions. */
  predicate RemovalsSucceed(j: Job, blobs: map<Uuid, Bytes>, order: seq<string>, k: nat)
    requires k <= |order| && forall l :: 0 <= l < |order| ==> order[l] in j.prior
  {
    forall l :: 0 <= l < k ==> !RemovalFails(j, blobs, order, l)
  }

  /** One step of the reconciliation loop adds at most the blob of the path at position `k`. */
  lemma RemovedStep(j: Job, order: seq<string>, k: nat)
    requires k < |order| && forall l :: 0 <= l < |order| ==> order[l] in j.prior
    ensures RemovedBefore(j, order, k + 1) ==
      RemovedBefore(j, order, k) + if order[k] !in Listed(j.files) then {j.prior[order[k]].uuid} else {}
  {
  }

  /** Run to its end, the reconciliation loop removes exactly the blobs of the vanished paths. */
  lemma RemovedAll(j: Job, order: seq<string>)
    requires Enumerates(order, j.prior) && !j.append
    ensures RemovedBefore(j, order, |order|) == Deleted(j)
  {
    forall u | u in Deleted(j) ensures u in RemovedBefore(j, order, |order|) {
      var p :| p in Vanished(j) && j.prior[p].uuid == u;
      var l :| 0 <= l < |order| && order[l] == p;
    }
  }

  // ---------------------------------------------------------------------------
  // What the folds compute

  /** The records cover exactly the paths of the files among the first `n` entries. */
  lemma {:induction false} RecordsKeys(j: Job, n: nat)
    requires n <= |j.files| == |j.newIds|
    ensures Records(j, n).Keys == set k | 0 <= k < n && Present(j, k) :: j.files[k].path
  {
    if n > 0 {
      RecordsKeys(j, n - 1);
    }
  }

  /** The blobs written are exactly those of the new or changed files among the first `n`. */
  lemma {:induction false} WritesKeys(j: Job, n: nat)
    requires n <= |j.files| == |j.newIds|
    ensures Writes(j, n).Keys == set k | 0 <= k < n && Encrypts(j, k) :: UuidFor(j, k)
  {
    if n > 0 {
      WritesKeys(j, n - 1);
    }
  }

  /** The counter is zero exactly when none of the first `n` entries is a new or changed file. */
  lemma {:induction false} CountZeroIffAllUnchanged(j: Job, n: nat)
    requires n <= |j.files| == |j.newIds|
    ensures EncryptedCount(j, n) == 0 <==> forall k :: 0 <= k < n ==> !Encrypts(j, k)
  {
    if n > 0 {
      CountZeroIffAllUnchanged(j, n - 1);
    }
  }

  /**
   * The loop writes at most as many blobs as it counts. It can write fewer: a changed file
   * listed twice in sync mode is counted twice and rewrites one blob.
   */
  lemma {:induction false} CountBoundsWrites(j: Job, n: nat)
    requires n <= |j.files| == |j.newIds|
    ensures |Writes(j, n)| <= EncryptedCount(j, n)
  {
    if n > 0 {
      CountBoundsWrites(j, n - 1);
    }
  }

  /**
   * The lookup for file `i` finds what the prior metadata holds for its path: always in sync
   * mode, and in append mode when no earlier entry has the same path (so nothing stored in
   * this run shadows the prior record).
   */
  lemma LookupSeesPrior(j: Job, i: nat)
    requires i < |j.files| == |j.newIds|
    requires j.append ==> forall l :: 0 <= l < i ==> j.files[l].path != j.files[i].path
    ensures var p := j.files[i].path;
      && UuidFor(j, i) == (if p in j.prior then j.prior[p].uuid else j.newIds[i])
      && (Unchanged(j, i) <==> Present(j, i) && p in j.prior && j.prior[p].sha1 == j.hash(j.files[i].contents.value))
  {
    RecordsKeys(j, i);
    assert j.append ==> j.files[i].path !in Records(j, i);
  }

  /** One iteration of the loop over a file, on the metadata being built. */
  lemma RecordsStep(j: Job, i: nat, base: Metadata)
    requires i < |j.files| == |j.newIds| && Present(j, i)
    ensures (base + Records(j, i))[j.files[i].path := RecordFor(j, i)] == base + Records(j, i + 1)
  {
  }

  /** One iteration of the loop over a file, on the destination folder. */
  lemma WritesStep(j: Job, i: nat, before: map<Uuid, Bytes>)
    requires i < |j.files| == |j.newIds| && Present(j, i)
    ensures Unchanged(j, i) ==> before + Writes(j, i) == before + Writes(j, i + 1)
    ensures !Unchanged(j, i) ==>
      (before + Writes(j, i))[UuidFor(j, i) := BlobFor(j, i)] == before + Writes(j, i + 1)
  {
  }

  /** Entries that are not files record nothing and write nothing. */
  lemma {:induction false} NoFileNoEffect(j: Job, n: nat)
    requires n <= |j.files| == |j.newIds|
    requires forall l :: 0 <= l < n ==> !Present(j, l)
    ensures Records(j, n) == map[] && Writes(j, n) == map[]
  {
    if n > 0 {
      NoFileNoEffect(j, n - 1);
    }
  }

  /**
   * Without prior metadata, the first file of the listing is always encrypted, under its
   * freshly drawn identifier: it is the one blob written before `-a` without `-m` fails.
   */
  lemma FirstFileWritten(j: Job, k: nat)
    requires k < |j.files| == |j.newIds| && j.prior == map[] && FirstFile(j, k)
    ensures Writes(j, k + 1) == map[j.newIds[k] := BlobFor(j, k)]
  {
    NoFileNoEffect(j, k);
  }

  // ---------------------------------------------------------------------------
  // Identifier reuse

  /** The record of file `i` after the first `n >= i + 1` entries, when no later entry among them has its path. */
  lemma {:induction false} RecordsAt(j: Job, n: nat, i: nat)
    requires i < n <= |j.files| == |j.newIds| && Present(j, i)
    requires forall l :: i < l < n ==> j.files[l].path != j.files[i].path
    ensures j.files[i].path in Records(j, n)
    ensures Records(j, n)[j.files[i].path] == RecordFor(j, i)
  {
    if i < n - 1 {
      RecordsAt(j, n - 1, i);
    }
  }

  /**
   * Every listed file gets the record `{uuid, hash(contents)}`, where the uuid is the prior
   * record's whenever the path was in the prior metadata (whatever its content now) and the
   * freshly drawn one otherwise.
   */
  lemma IdentifierReuse(j: Job, i: nat)
    requires WellFormed(j) && i < |j.files| && Present(j, i)
    ensures var p := j.files[i].path;
      && p in OutMetadata(j)
      && OutMetadata(j)[p].sha1 == j.hash(j.files[i].contents.value)
      && OutMetadata(j)[p].uuid == (if p in j.prior then j.prior[p].uuid else j.newIds[i])
  {
    RecordsAt(j, |j.files|, i);
    LookupSeesPrior(j, i);
  }

  /** Under the assumptions, distinct listed entries get distinct identifiers. */
  lemma DistinctUuids(j: Job, a: nat, b: nat)
    requires Assumptions(j)
    requires a < |j.files| && b < |j.files| && a != b
    ensures UuidFor(j, a) != UuidFor(j, b)
  {
    LookupSeesPrior(j, a);
    LookupSeesPrior(j, b);
  }

  /** Where an identifier stored under path `q` comes from: the prior record of `q`, or a uuid drawn for an entry of `q`. */
  ghost predicate Origin(j: Job, q: string, u: Uuid) {
    || (q in j.prior && u == j.prior[q].uuid)
    || exists e :: 0 <= e < |j.newIds| && e < |j.files| && j.files[e].path == q && u == j.newIds[e]
  }

  /** Identifiers that come from different paths differ. */
  lemma OriginsDistinct(j: Job, q: string, u: Uuid, r: string, v: Uuid)
    requires IdsValid(j) && q != r && Origin(j, q, u) && Origin(j, r, v)
    ensures u != v
  {
    if exists e :: 0 <= e < |j.newIds| && e < |j.files| && j.files[e].path == q && u == j.newIds[e] {
      var e :| 0 <= e < |j.newIds| && e < |j.files| && j.files[e].path == q && u == j.newIds[e];
      if exists d :: 0 <= d < |j.newIds| && d < |j.files| && j.files[d].path == r && v == j.newIds[d] {
        var d :| 0 <= d < |j.newIds| && d < |j.files| && j.files[d].path == r && v == j.newIds[d];
        assert e != d;
        if e < d { assert j.newIds[e] != j.newIds[d]; } else { assert j.newIds[d] != j.newIds[e]; }
      }
    }
  }

  /** The identifier an entry gets comes from its own path, when the records it sees do. */
  lemma UuidInOrigin(j: Job, i: nat, r: Metadata)
    requires i < |j.files| == |j.newIds|
    requires forall q :: q in r ==> Origin(j, q, r[q].uuid)
    ensures Origin(j, j.files[i].path, UuidIn(j, i, r))
  {
    var p, l := j.files[i].path, LookupIn(j, r);
    if p !in l {
      assert Origin(j, p, j.newIds[i]);
    } else if p !in r {
      assert l[p] == j.prior[p];
    }
  }

  /** Every record stored so far holds an identifier that comes from its own path. */
  lemma {:induction false} RecordsOrigin(j: Job, n: nat)
    requires n <= |j.files| == |j.newIds|
    ensures forall q :: q in Records(j, n) ==> Origin(j, q, Records(j, n)[q].uuid)
  {
    if n > 0 {
      RecordsOrigin(j, n - 1);
      UuidInOrigin(j, n - 1, Records(j, n - 1));
    }
  }

  /** The identifier an entry gets comes from its own path. */
  lemma UuidOrigin(j: Job, i: nat)
    requires i < |j.files| == |j.newIds|
    ensures Origin(j, j.files[i].path, UuidFor(j, i))
  {
    RecordsOrigin(j, i);
    UuidInOrigin(j, i, Records(j, i));
  }

  /** No listed entry receives the identifier of a different prior path. */
  lemma OtherUuidNotReused(j: Job, i: nat, p: string)
    requires IdsValid(j)
    requires i < |j.files| && p in j.prior && j.files[i].path != p
    ensures UuidFor(j, i) != j.prior[p].uuid
  {
    UuidOrigin(j, i);
    OriginsDistinct(j, j.files[i].path, UuidFor(j, i), p, j.prior[p].uuid);
  }

  /** In particular no listed entry receives the identifier of a prior path that vanished. */
  lemma VanishedUuidNotReused(j: Job, i: nat, p: string)
    requires IdsValid(j)
    requires i < |j.files| && p in Vanished(j)
    ensures UuidFor(j, i) != j.prior[p].uuid
  {
    assert j.files[i].path != p;
    OtherUuidNotReused(j, i, p);
  }

  // ---------------------------------------------------------------------------
  // Repeated paths

  /** A recorded path holds the record of the last file among the first `n` entries with that path. */
  lemma {:induction false} RecordsLast(j: Job, n: nat, q: string)
    requires n <= |j.files| == |j.newIds| && q in Records(j, n)
    ensures exists k :: 0 <= k < n && j.files[k].path == q && Present(j, k) && Records(j, n)[q] == RecordFor(j, k)
              && forall l :: k < l < n && Present(j, l) ==> j.files[l].path != q
  {
    var i := n - 1;
    if !(Present(j, i) && j.files[i].path == q) {
      RecordsLast(j, i, q);
    }
  }

  /**
   * Sync mode, a new path listed twice: the first entry is encrypted under its own drawn
   * identifier, and no output record names that blob; the later entry's record replaced it.
   */
  lemma RepeatedNewPathOrphansBlob(j: Job, a: nat, b: nat)
    requires |j.files| == |j.newIds| && FreshIdsValid(j) && !j.append
    requires a < b < |j.files| && j.files[a].path == j.files[b].path && Present(j, a) && Present(j, b)
    requires j.files[a].path !in j.prior
    ensures Encrypts(j, a) && UuidFor(j, a) == j.newIds[a]
    ensures j.newIds[a] in Writes(j, |j.files|)
    ensures forall q :: q in OutMetadata(j) ==> OutMetadata(j)[q].uuid != j.newIds[a]
  {
    LookupSeesPrior(j, a);
    WritesKeys(j, |j.files|);
    forall q | q in OutMetadata(j) ensures OutMetadata(j)[q].uuid != j.newIds[a] {
      RecordsLast(j, |j.files|, q);
      var k :| 0 <= k < |j.files| && j.files[k].path == q && Present(j, k) && Records(j, |j.files|)[q] == RecordFor(j, k)
                && forall l :: k < l < |j.files| && Present(j, l) ==> j.files[l].path != q;
      LookupSeesPrior(j, k);
      assert k < b ==> j.files[b].path != q;
      assert k != a;
    }
  }

  /**
   * Sync mode, a changed file listed twice: both entries see the prior record, so both are
   * encrypted, counted, and written to the same prior blob.
   */
  lemma RepeatedChangedPathRewritesBlob(j: Job, a: nat, b: nat)
    requires |j.files| == |j.newIds| && !j.append
    requires a < b < |j.files| && j.files[a] == j.files[b] && j.files[a].path in j.prior
    requires Encrypts(j, a)
    ensures Encrypts(j, b)
    ensures UuidFor(j, a) == UuidFor(j, b) == j.prior[j.files[a].path].uuid
  {
    LookupSeesPrior(j, a);
    LookupSeesPrior(j, b);
  }

  /**
   * Append mode, a file listed again with the same contents and no entry of that path in
   * between: the lookup finds the record stored for the earlier entry, so the repeat is
   * unchanged (neither written nor counted) and keeps the earlier identifier.
   */
  lemma AppendRepeatUnchanged(j: Job, a: nat, b: nat)
    requires |j.files| == |j.newIds| && j.append
    requires a < b < |j.files| && j.files[a] == j.files[b] && Present(j, a)
    requires forall l :: a < l < b ==> j.files[l].path != j.files[a].path
    ensures Unchanged(j, b) && !Encrypts(j, b)
    ensures UuidFor(j, b) == UuidFor(j, a)
  {
    RecordsAt(j, b, a);
  }

  // ---------------------------------------------------------------------------
  // Skip-on-unchanged

  /** The blob written for a changed or new file is the ciphertext of its current contents. */
  lemma {:induction false} WritesAt(j: Job, n: nat, i: nat)
    requires Assumptions(j) && i < n <= |j.files|
    requires Encrypts(j, i)
    ensures UuidFor(j, i) in Writes(j, n)
    ensures Writes(j, n)[UuidFor(j, i)] == BlobFor(j, i)
  {
    if i < n - 1 {
      WritesAt(j, n - 1, i);
      if Encrypts(j, n - 1) {
        DistinctUuids(j, i, n - 1);
      }
    }
  }

  /** The identifier of an entry the loop does not encrypt is never written to. */
  lemma NotEncryptedNotWritten(j: Job, i: nat)
    requires Assumptions(j) && i < |j.files|
    requires !Encrypts(j, i)
    ensures UuidFor(j, i) !in Writes(j, |j.files|)
  {
    WritesKeys(j, |j.files|);
    if UuidFor(j, i) in Writes(j, |j.files|) {
      var k :| 0 <= k < |j.files| && Encrypts(j, k) && UuidFor(j, k) == UuidFor(j, i);
      DistinctUuids(j, i, k);
    }
  }

  /** With distinct identifiers, the counter equals the number of blobs written. */
  lemma {:induction false} CountIsBlobsWritten(j: Job, n: nat)
    requires Assumptions(j) && n <= |j.files|
    ensures EncryptedCount(j, n) == |Writes(j, n)|
  {
    if n > 0 {
      CountIsBlobsWritten(j, n - 1);
      var i := n - 1;
      WritesKeys(j, i);
      if Encrypts(j, i) && UuidFor(j, i) in Writes(j, i) {
        var k :| 0 <= k < i && Encrypts(j, k) && UuidFor(j, k) == UuidFor(j, i);
        DistinctUuids(j, i, k);
      }
    }
  }

  /**
   * Skip-on-unchanged: a listed entry's blob is written, with its current ciphertext, exactly
   * when the entry is a file that is new or whose fingerprint differs from the prior record;
   * otherwise the blob keeps the bytes it had before the run.
   */
  lemma SkipOnUnchanged(j: Job, before: map<Uuid, Bytes>, i: nat)
    requires Assumptions(j) && i < |j.files|
    ensures UuidFor(j, i) in Writes(j, |j.files|) <==> Encrypts(j, i)
    ensures Encrypts(j, i) ==> (before + Writes(j, |j.files|))[UuidFor(j, i)] == BlobFor(j, i)
    ensures !Encrypts(j, i) && UuidFor(j, i) in before ==>
              (before + Writes(j, |j.files|))[UuidFor(j, i)] == before[UuidFor(j, i)]
  {
    if Encrypts(j, i) {
      WritesAt(j, |j.files|, i);
    } else {
      NotEncryptedNotWritten(j, i);
    }
  }

  /**
   * A run records each file of the listing with the fingerprint of its contents, in its
   * output metadata as in the records, even when the key repeats.
   */
  lemma RecordedWithHash(j1: Job, i: nat)
    requires |j1.newIds| == |j1.files| && OneFilePerKey(j1.files)
    requires i < |j1.files| && Present(j1, i)
    ensures j1.files[i].path in Records(j1, |j1.files|)
    ensures OutMetadata(j1)[j1.files[i].path] == Records(j1, |j1.files|)[j1.files[i].path]
    ensures OutMetadata(j1)[j1.files[i].path].sha1 == j1.hash(j1.files[i].contents.value)
  {
    var p, n := j1.files[i].path, |j1.files|;
    RecordsKeys(j1, n);
    RecordsLast(j1, n, p);
    var k :| 0 <= k < n && j1.files[k].path == p && Present(j1, k) && Records(j1, n)[p] == RecordFor(j1, k)
              && forall l :: k < l < n && Present(j1, l) ==> j1.files[l].path != p;
    assert j1.files[k].contents == j1.files[i].contents;
    assert OutMetadata(j1)[p] == Records(j1, n)[p];
  }

  /**
   * On a rerun with the first run's metadata, every entry finds its key's record with its
   * current fingerprint, so the loop encrypts nothing and stores the records it finds.
   */
  lemma {:induction false} RerunRecordsFromPrior(j1: Job, j2: Job, n: nat)
    requires |j1.newIds| == |j1.files| && |j2.newIds| == |j2.files| && OneFilePerKey(j1.files)
    requires j2.files == j1.files && j2.hash == j1.hash
    requires j2.prior == OutMetadata(j1) && n <= |j2.files|
    ensures forall q :: q in Records(j2, n) ==> q in j2.prior && Records(j2, n)[q] == j2.prior[q]
    ensures forall k :: 0 <= k < n ==> !Encrypts(j2, k)
  {
    if n > 0 {
      var i := n - 1;
      RerunRecordsFromPrior(j1, j2, i);
      if Present(j2, i) {
        RecordedWithHash(j1, i);
        var p := j2.files[i].path;
        assert Lookup(j2, i)[p] == j2.prior[p];
      }
    }
  }

  /** On a rerun with the first run's metadata, every file is unchanged and keeps its record. */
  lemma RerunFileUnchanged(j1: Job, j2: Job, i: nat)
    requires |j1.newIds| == |j1.files| && |j2.newIds| == |j2.files| && OneFilePerKey(j1.files)
    requires j2.files == j1.files && j2.hash == j1.hash
    requires j2.prior == OutMetadata(j1)
    requires i < |j1.files| && Present(j1, i)
    ensures Unchanged(j2, i)
    ensures j2.files[i].path in Records(j2, |j2.files|) && j1.files[i].path in OutMetadata(j1)
    ensures Records(j2, |j2.files|)[j2.files[i].path] == OutMetadata(j1)[j1.files[i].path]
  {
    RerunRecordsFromPrior(j1, j2, |j2.files|);
    RecordsKeys(j2, |j2.files|);
    assert Present(j2, i) && !Encrypts(j2, i);
  }

  /** The records of a rerun agree with the first run's metadata wherever they are defined. */
  lemma RerunRecordsAgree(j1: Job, j2: Job)
    requires |j1.newIds| == |j1.files| && |j2.newIds| == |j2.files| && OneFilePerKey(j1.files)
    requires j2.files == j1.files && j2.hash == j1.hash
    requires j2.prior == OutMetadata(j1)
    ensures forall k :: 0 <= k < |j2.files| ==> !Encrypts(j2, k)
    ensures forall p :: p in Records(j2, |j2.files|) ==>
              p in OutMetadata(j1) && Records(j2, |j2.files|)[p] == OutMetadata(j1)[p]
  {
    RerunRecordsFromPrior(j1, j2, |j2.files|);
  }

  /** A rerun of a sync run deletes nothing: every prior path is listed again. */
  lemma RerunDeletesNothing(j1: Job, j2: Job)
    requires |j1.newIds| == |j1.files| && |j2.newIds| == |j2.files|
    requires j2.files == j1.files && j2.append == j1.append
    requires j2.prior == OutMetadata(j1)
    ensures Deleted(j2) == {}
  {
    RecordsKeys(j1, |j1.files|);
    if !j1.append {
      forall p | p in j2.prior ensures p in Listed(j2.files) {
        assert p in Records(j1, |j1.files|);
      }
      assert Vanished(j2) == {};
    }
  }

  /** A rerun reproduces the first run's metadata. */
  lemma RerunSameMetadata(j1: Job, j2: Job)
    requires |j1.newIds| == |j1.files| && |j2.newIds| == |j2.files| && OneFilePerKey(j1.files)
    requires j2.files == j1.files && j2.append == j1.append && j2.hash == j1.hash
    requires j2.prior == OutMetadata(j1)
    ensures OutMetadata(j2) == OutMetadata(j1)
  {
    RerunSameKeys(j1, j2);
    RerunRecordsAgree(j1, j2);
    var m1, r2 := OutMetadata(j1), Records(j2, |j2.files|);
    if j1.append {
      assert m1 + r2 == m1;
    } else {
      assert r2.Keys == m1.Keys;
    }
  }

  /** Both runs record the same paths. */
  lemma RerunSameKeys(j1: Job, j2: Job)
    requires |j1.newIds| == |j1.files| && |j2.newIds| == |j2.files| && j2.files == j1.files
    ensures Records(j2, |j2.files|).Keys == Records(j1, |j1.files|).Keys
  {
    RecordsKeys(j1, |j1.files|);
    RecordsKeys(j2, |j2.files|);
  }

  /**
   * A rerun over an unmodified listing, given the first run's metadata and the same mode,
   * encrypts nothing, writes no blob, deletes no blob, and reproduces the same metadata.
   */
  lemma RerunIsNoOp(j1: Job, j2: Job, before: map<Uuid, Bytes>)
    requires |j1.newIds| == |j1.files| && |j2.newIds| == |j2.files| && OneFilePerKey(j1.files)
    requires j2.files == j1.files && j2.append == j1.append && j2.hash == j1.hash
    requires j2.prior == OutMetadata(j1)
    ensures EncryptedCount(j2, |j2.files|) == 0
    ensures Writes(j2, |j2.files|) == map[]
    ensures Deleted(j2) == {}
    ensures OutMetadata(j2) == OutMetadata(j1)
    ensures OutBlobs(j2, before) == before
  {
    CountZeroIffAllUnchanged(j2, |j2.files|);
    WritesKeys(j2, |j2.files|);
    RerunRecordsAgree(j1, j2);
    RerunDeletesNothing(j1, j2);
    RerunSameMetadata(j1, j2);
    assert Writes(j2, |j2.files|).Keys == {};
    NothingToDoKeepsBlobs(j2, before);
  }

  lemma NothingToDoKeepsBlobs(j: Job, before: map<Uuid, Bytes>)
    requires |j.files| == |j.newIds|
    requires Writes(j, |j.files|) == map[] && Deleted(j) == {}
    ensures OutBlobs(j, before) == before
  {
    var w := Writes(j, |j.files|);
    assert before + w == before;
  }

  // ---------------------------------------------------------------------------
  // Sync and append modes

  /**
   * Sync mode: the output metadata holds exactly the listed files; the blobs removed are
   * those of prior paths absent from the listing (the second clause only unfolds `Deleted`
   * and `Vanished`), the other blobs survive, and no removed blob belongs to a record of the
   * output metadata, repeated keys included.
   */
  lemma SyncMode(j: Job, before: map<Uuid, Bytes>)
    requires IdsValid(j) && !j.append
    ensures OutMetadata(j).Keys == Recorded(j)
    ensures Deleted(j) == set p | p in j.prior && p !in Listed(j.files) :: j.prior[p].uuid
    ensures forall u :: u in before && u !in Deleted(j) ==> u in OutBlobs(j, before)
    ensures forall u :: u in Deleted(j) ==> u !in OutBlobs(j, before)
    ensures forall p :: p in OutMetadata(j) ==> OutMetadata(j)[p].uuid !in Deleted(j)
  {
    RecordsKeys(j, |j.files|);
    forall p | p in OutMetadata(j)
      ensures OutMetadata(j)[p].uuid !in Deleted(j)
    {
      RecordedNotDeleted(j, p);
    }
  }

  /**
   * Append mode: the output metadata is the prior map overridden by the current records;
   * prior records of paths that are not recorded again are kept verbatim, recorded prior
   * paths keep their uuid, and no blob is deleted.
   */
  lemma AppendMode(j: Job, before: map<Uuid, Bytes>)
    requires |j.newIds| == |j.files| && j.append
    ensures OutMetadata(j).Keys == j.prior.Keys + Recorded(j)
    ensures forall p :: p in j.prior && p !in Recorded(j) ==> OutMetadata(j)[p] == j.prior[p]
    ensures forall p :: p in j.prior ==> OutMetadata(j)[p].uuid == j.prior[p].uuid
    ensures before.Keys <= OutBlobs(j, before).Keys
  {
    RecordsKeys(j, |j.files|);
    AppendKeepsPriorUuids(j, |j.files|);
  }

  /** In append mode a prior path recorded again keeps its uuid: the lookup finds the prior record or one stored from it. */
  lemma {:induction false} AppendKeepsPriorUuids(j: Job, n: nat)
    requires n <= |j.files| == |j.newIds| && j.append
    ensures forall q :: q in Records(j, n) && q in j.prior ==> Records(j, n)[q].uuid == j.prior[q].uuid
  {
    if n > 0 {
      AppendKeepsPriorUuids(j, n - 1);
    }
  }

  // ---------------------------------------------------------------------------
  // The consistency invariant

  /** A prior record that no entry so far has replaced names a blob the loop has not written. */
  lemma {:induction false} UnrecordedNotWritten(j: Job, n: nat, p: string)
    requires IdsValid(j) && n <= |j.files|
    requires p in j.prior && p !in Records(j, n)
    ensures j.prior[p].uuid !in Writes(j, n)
  {
    if n > 0 {
      var i := n - 1;
      UnrecordedNotWritten(j, i, p);
      if Encrypts(j, i) {
        UuidOrigin(j, i);
        OriginsDistinct(j, j.files[i].path, UuidFor(j, i), p, j.prior[p].uuid);
      }
    }
  }

  /**
   * Every entry among the first `n` that the loop encrypted finds exactly its own ciphertext
   * in `blobs`, under the record `r` holds for its key.
   */
  ghost predicate Exact(j: Job, r: Metadata, blobs: map<Uuid, Bytes>, n: nat)
    requires n <= |j.files| == |j.newIds|
  {
    forall e :: 0 <= e < n && Encrypts(j, e) ==>
      && j.files[e].path in r
      && r[j.files[e].path].uuid in blobs
      && blobs[r[j.files[e].path].uuid] == BlobFor(j, e)
  }

  /**
   * The loop invariant behind consistency, over any listing whose same-key entries read one
   * file: after the first `n` entries every stored record's blob is in the folder, decrypts,
   * and has the record's fingerprint; and every entry encrypted so far finds, under the
   * record now stored for its key, exactly its own ciphertext.
   */
  lemma {:induction false} LoopKeepsConsistency(j: Job, before: map<Uuid, Bytes>, decrypt: Bytes -> Option<Bytes>, n: nat)
    requires RunPremises(j) && RoundTrip(j.encrypt, decrypt) && n <= |j.files|
    requires Consistent(j.prior, before, j.hash, decrypt)
    ensures Consistent(Records(j, n), before + Writes(j, n), j.hash, decrypt)
    ensures Exact(j, Records(j, n), before + Writes(j, n), n)
  {
    if n > 0 {
      var i := n - 1;
      LoopKeepsConsistency(j, before, decrypt, i);
      if !Present(j, i) {
        assert Records(j, n) == Records(j, i) && Writes(j, n) == Writes(j, i);
      } else if Encrypts(j, i) {
        EncryptStepKeeps(j, before, decrypt, i);
      } else {
        UnchangedStepKeeps(j, before, decrypt, i);
      }
    }
  }

  /** Storing a record in a consistent map keeps it consistent when the folder backs the record and keeps the others' blobs. */
  lemma ConsistentUpdate(r: Metadata, b: map<Uuid, Bytes>, b1: map<Uuid, Bytes>,
                         hash: Bytes -> Digest, decrypt: Bytes -> Option<Bytes>, p: string, rec: Record)
    requires Consistent(r, b, hash, decrypt)
    requires forall q :: q in r && q != p ==> r[q].uuid in b1 && b1[r[q].uuid] == b[r[q].uuid]
    requires rec.uuid in b1 && decrypt(b1[rec.uuid]).Some? && hash(decrypt(b1[rec.uuid]).value) == rec.sha1
    ensures Consistent(r[p := rec], b1, hash, decrypt)
  {
  }

  /** One step of the invariant over a new or changed file: its blob is written, no other record's blob is touched. */
  lemma EncryptStepKeeps(j: Job, before: map<Uuid, Bytes>, decrypt: Bytes -> Option<Bytes>, i: nat)
    requires RunPremises(j) && RoundTrip(j.encrypt, decrypt) && i < |j.files| && Encrypts(j, i)
    requires Consistent(Records(j, i), before + Writes(j, i), j.hash, decrypt)
    requires Exact(j, Records(j, i), before + Writes(j, i), i)
    ensures Consistent(Records(j, i + 1), before + Writes(j, i + 1), j.hash, decrypt)
    ensures Exact(j, Records(j, i + 1), before + Writes(j, i + 1), i + 1)
  {
    var p, u, x := j.files[i].path, UuidFor(j, i), BlobFor(j, i);
    var r, b := Records(j, i), before + Writes(j, i);
    WrittenStep(j, before, i);
    assert decrypt(x) == j.files[i].contents;
    ConsistentUpdate(r, b, b[u := x], j.hash, decrypt, p, RecordFor(j, i));
    ExactEncryptStep(j, r, b, i);
  }

  /** The records and the folder after an iteration that writes: the record and the blob of entry `i` are set. */
  lemma WrittenStep(j: Job, before: map<Uuid, Bytes>, i: nat)
    requires IdsValid(j) && i < |j.files| && Encrypts(j, i)
    ensures Records(j, i + 1) == Records(j, i)[j.files[i].path := RecordFor(j, i)]
    ensures before + Writes(j, i + 1) == (before + Writes(j, i))[UuidFor(j, i) := BlobFor(j, i)]
    ensures forall q :: q in Records(j, i) && q != j.files[i].path ==> Records(j, i)[q].uuid != UuidFor(j, i)
  {
    var p, u := j.files[i].path, UuidFor(j, i);
    var r := Records(j, i);
    UpdateUnion(before, Writes(j, i), u, BlobFor(j, i));
    RecordsOrigin(j, i);
    UuidOrigin(j, i);
    forall q | q in r && q != p ensures r[q].uuid != u {
      OriginsDistinct(j, q, r[q].uuid, p, u);
    }
  }

  /** The exactness half of the step over a new or changed file. */
  lemma ExactEncryptStep(j: Job, r: Metadata, b: map<Uuid, Bytes>, i: nat)
    requires RunPremises(j) && i < |j.files| && Encrypts(j, i)
    requires Exact(j, r, b, i)
    requires forall q :: q in r && q != j.files[i].path ==> r[q].uuid != UuidFor(j, i)
    ensures Exact(j, r[j.files[i].path := RecordFor(j, i)], b[UuidFor(j, i) := BlobFor(j, i)], i + 1)
  {
    var p := j.files[i].path;
    forall e | 0 <= e < i + 1 && Encrypts(j, e) && j.files[e].path == p
      ensures BlobFor(j, e) == BlobFor(j, i)
    {
      assert j.files[e].contents == j.files[i].contents;
    }
  }

  /**
   * One step of the invariant over an unchanged file: nothing is written, and the record
   * stored is the one found by the lookup, which the folder already backs.
   */
  lemma UnchangedStepKeeps(j: Job, before: map<Uuid, Bytes>, decrypt: Bytes -> Option<Bytes>, i: nat)
    requires RunPremises(j) && i < |j.files| && Unchanged(j, i)
    requires Consistent(j.prior, before, j.hash, decrypt)
    requires Consistent(Records(j, i), before + Writes(j, i), j.hash, decrypt)
    requires Exact(j, Records(j, i), before + Writes(j, i), i)
    ensures Consistent(Records(j, i + 1), before + Writes(j, i + 1), j.hash, decrypt)
    ensures Exact(j, Records(j, i + 1), before + Writes(j, i + 1), i + 1)
  {
    var p, l := j.files[i].path, Lookup(j, i);
    var r, b := Records(j, i), before + Writes(j, i);
    KeptStep(j, i);
    FoundBacked(j, before, decrypt, i);
    ConsistentUpdate(r, b, b, j.hash, decrypt, p, l[p]);
    ExactUnchangedStep(j, r, b, i);
  }

  /** The records and the blobs after an iteration over an unchanged file: the found record is stored again, nothing is written. */
  lemma KeptStep(j: Job, i: nat)
    requires i < |j.files| == |j.newIds| && Unchanged(j, i)
    ensures Records(j, i + 1) == Records(j, i)[j.files[i].path := Lookup(j, i)[j.files[i].path]]
    ensures Writes(j, i + 1) == Writes(j, i)
  {
  }

  /** The exactness half of the step over an unchanged file. */
  lemma ExactUnchangedStep(j: Job, r: Metadata, b: map<Uuid, Bytes>, i: nat)
    requires i < |j.files| == |j.newIds| && Unchanged(j, i)
    requires Exact(j, r, b, i)
    requires forall e :: 0 <= e < i && Encrypts(j, e) && j.files[e].path == j.files[i].path ==>
               j.files[i].path in r && r[j.files[i].path] == Lookup(j, i)[j.files[i].path]
    ensures Exact(j, r[j.files[i].path := Lookup(j, i)[j.files[i].path]], b, i + 1)
  {
  }

  /**
   * The record the lookup finds for an unchanged file is backed by the folder, and an
   * earlier encrypted entry of the same key stored that very record.
   */
  lemma FoundBacked(j: Job, before: map<Uuid, Bytes>, decrypt: Bytes -> Option<Bytes>, i: nat)
    requires RunPremises(j) && i < |j.files| && Unchanged(j, i)
    requires Consistent(j.prior, before, j.hash, decrypt)
    requires Consistent(Records(j, i), before + Writes(j, i), j.hash, decrypt)
    ensures var p, l, b := j.files[i].path, Lookup(j, i), before + Writes(j, i);
      && l[p].uuid in b && decrypt(b[l[p].uuid]).Some? && j.hash(decrypt(b[l[p].uuid]).value) == l[p].sha1
    ensures var p, l, r := j.files[i].path, Lookup(j, i), Records(j, i);
      forall e :: 0 <= e < i && Encrypts(j, e) && j.files[e].path == p ==> p in r && r[p] == l[p]
  {
    var p, l, r := j.files[i].path, Lookup(j, i), Records(j, i);
    if p !in r {
      assert l[p] == j.prior[p];
      UnrecordedNotWritten(j, i, p);
      RecordsKeys(j, i);
    } else if !j.append {
      RecordsLast(j, i, p);
      var k :| 0 <= k < i && j.files[k].path == p && Present(j, k) && r[p] == RecordFor(j, k)
                && forall l :: k < l < i && Present(j, l) ==> j.files[l].path != p;
      assert j.files[k].contents == j.files[i].contents;
      LookupSeesPrior(j, k);
      LookupSeesPrior(j, i);
      assert r[p] == j.prior[p] == l[p];
    } else {
      assert l[p] == r[p];
    }
  }

  /** A recorded identifier is never one that sync mode deletes. */
  lemma RecordedNotDeleted(j: Job, p: string)
    requires IdsValid(j) && p in Records(j, |j.files|)
    ensures Records(j, |j.files|)[p].uuid !in Deleted(j)
  {
    RecordsKeys(j, |j.files|);
    RecordsOrigin(j, |j.files|);
    if !j.append {
      forall q | q in Vanished(j) ensures Records(j, |j.files|)[p].uuid != j.prior[q].uuid {
        OriginsDistinct(j, p, Records(j, |j.files|)[p].uuid, q, j.prior[q].uuid);
      }
    }
  }

  /** The output record of an encrypted file's key names exactly its ciphertext in the output folder. */
  lemma EncryptedBlobKept(j: Job, before: map<Uuid, Bytes>, decrypt: Bytes -> Option<Bytes>, i: nat)
    requires RunPremises(j) && RoundTrip(j.encrypt, decrypt)
    requires Consistent(j.prior, before, j.hash, decrypt)
    requires i < |j.files| && Encrypts(j, i)
    ensures j.files[i].path in OutMetadata(j)
    ensures OutMetadata(j)[j.files[i].path].uuid in OutBlobs(j, before)
    ensures OutBlobs(j, before)[OutMetadata(j)[j.files[i].path].uuid] == BlobFor(j, i)
  {
    var p := j.files[i].path;
    LoopKeepsConsistency(j, before, decrypt, |j.files|);
    RecordedWithHash(j, i);
    RecordedNotDeleted(j, p);
  }

  /** A prior record that is not recorded again names a blob the run does not write. */
  lemma PriorBlobUntouched(j: Job, p: string)
    requires IdsValid(j) && p in j.prior && p !in Recorded(j)
    ensures j.prior[p].uuid !in Writes(j, |j.files|)
  {
    RecordsKeys(j, |j.files|);
    UnrecordedNotWritten(j, |j.files|, p);
  }

  /**
   * The consistency invariant survives a run: if before the run every prior record's blob
   * decrypts to content with the record's fingerprint, then afterwards every output record's
   * blob does too, and output records still name distinct blobs. This holds for any listing
   * whose entries with one key read one file, repeated keys included.
   */
  lemma ConsistencyPreserved(j: Job, before: map<Uuid, Bytes>, decrypt: Bytes -> Option<Bytes>)
    requires RunPremises(j)
    requires RoundTrip(j.encrypt, decrypt)
    requires Consistent(j.prior, before, j.hash, decrypt)
    ensures Consistent(OutMetadata(j), OutBlobs(j, before), j.hash, decrypt)
    ensures UuidsInjective(OutMetadata(j))
  {
    RecordsKeys(j, |j.files|);
    var m, b := OutMetadata(j), OutBlobs(j, before);
    forall p | p in m
      ensures m[p].uuid in b && decrypt(b[m[p].uuid]).Some? && j.hash(decrypt(b[m[p].uuid]).value) == m[p].sha1
    {
      if p in Recorded(j) {
        RecordedBlobReadable(j, before, decrypt, p);
      } else {
        PriorBlobUntouched(j, p);
      }
    }
    OutputInjective(j);
  }

  /** The record of a recorded path names the blob of its current contents, or the kept one. */
  lemma RecordedBlobReadable(j: Job, before: map<Uuid, Bytes>, decrypt: Bytes -> Option<Bytes>, p: string)
    requires RunPremises(j)
    requires RoundTrip(j.encrypt, decrypt)
    requires Consistent(j.prior, before, j.hash, decrypt)
    requires p in Recorded(j)
    ensures p in OutMetadata(j)
    ensures var m, b := OutMetadata(j), OutBlobs(j, before);
      m[p].uuid in b && decrypt(b[m[p].uuid]).Some? && j.hash(decrypt(b[m[p].uuid]).value) == m[p].sha1
  {
    RecordsKeys(j, |j.files|);
    LoopKeepsConsistency(j, before, decrypt, |j.files|);
    RecordedNotDeleted(j, p);
  }

  /** Output records name distinct blobs, whatever keys repeat in the listing. */
  lemma OutputInjective(j: Job)
    requires IdsValid(j)
    ensures UuidsInjective(OutMetadata(j))
  {
    RecordsOrigin(j, |j.files|);
    var m := OutMetadata(j);
    forall p, q | p in m && q in m && p != q
      ensures m[p].uuid != m[q].uuid
    {
      assert Origin(j, p, m[p].uuid);
      assert Origin(j, q, m[q].uuid);
      OriginsDistinct(j, p, m[p].uuid, q, m[q].uuid);
    }
  }

  /** From a consistent state the reconciliation loop never hits a missing blob. */
  lemma ConsistentNeverBlocks(j: Job, before: map<Uuid, Bytes>, decrypt: Bytes -> Option<Bytes>, order: seq<string>)
    requires UuidsInjective(j.prior)
    requires Consistent(j.prior, before, j.hash, decrypt)
    requires |j.files| == |j.newIds| && Enumerates(order, j.prior)
    ensures RemovalsSucceed(j, before + Writes(j, |j.files|), order, |order|)
  {
    var written := before + Writes(j, |j.files|);
    forall k | 0 <= k < |order| ensures !RemovalFails(j, written, order, k) {
      assert j.prior[order[k]].uuid in written;
    }
  }
}
