/** Values shared by the encryption and decryption runs of cloud-crypto. */
module Types {

  datatype Option<+T> = None | Some(value: T)

  type Bytes = seq<bv8>

  /** A blob name: the text of a random version-4 UUID. */
  type Uuid = string

  /** The hex SHA-1 digest used as a change-detection fingerprint. */
  type Digest = string

  /** The value stored under a plaintext path in the metadata file: `{"uuid": ..., "sha1": ...}`. */
  datatype Record = Record(uuid: Uuid, sha1: Digest)

  /** The metadata file: plaintext path -> record. */
  type Metadata = map<string, Record>

  /**
   * One entry of the source listing: a normalised path and, when `os.path.isfile` accepts
   * that path, the bytes of the file there (`None` when no regular file has that name).
   */
  datatype SourceFile = SourceFile(path: string, contents: Option<Bytes>)

  /** What the `-m` option yields: not given, given but naming no file, or a loaded map. */
  datatype MetadataArg = NotGiven | Missing | Loaded(records: Metadata)

  /** The ways a run stops with exit status 1 (an explicit exit or an uncaught exception). */
  datatype Fatal =
    | MetadataRequired                 // decrypt mode without -m
    | MetadataNotFound                 // -m names no file
    | RemoveFailed(path: string)       // os.remove of a blob that is not there
    | BlobNotFound(path: string)       // decrypt: the record's blob is missing
    | AuthenticationFailed(path: string) // decrypt: the cipher rejects the blob
    | NoMetadataToAppend               // -a without -m: `g_metadata` is None when a record is stored

  /** No two records of `m` name the same blob. */
  ghost predicate UuidsInjective(m: Metadata) {
    forall p, q :: p in m && q in m && p != q ==> m[p].uuid != m[q].uuid
  }

  /** The cipher round trip: decrypting a ciphertext gives back its plaintext. */
  ghost predicate RoundTrip(encrypt: Bytes -> Bytes, decrypt: Bytes -> Option<Bytes>) {
    forall x :: decrypt(encrypt(x)) == Some(x)
  }

  /**
   * Blob/record consistency: every record's blob is in the folder, decrypts, and the
   * plaintext it decrypts to has the record's fingerprint.
   */
  ghost predicate Consistent(m: Metadata, blobs: map<Uuid, Bytes>,
                             hash: Bytes -> Digest, decrypt: Bytes -> Option<Bytes>) {
    forall p :: p in m ==>
      && m[p].uuid in blobs
      && decrypt(blobs[m[p].uuid]).Some?
      && hash(decrypt(blobs[m[p].uuid]).value) == m[p].sha1
  }

  /**
   * `order` lists the keys of `m` in the order iterating the loaded dict gives them (the
   * order of the metadata file), each once.
   */
  ghost predicate Enumerates(order: seq<string>, m: Metadata) {
    && (forall i, j :: 0 <= i < j < |order| ==> order[i] != order[j])
    && (forall p :: p in m <==> p in order)
  }

  /** Removing two sets of keys one after the other is removing their union. */
  lemma SubtractTwice<K, V>(a: map<K, V>, b: set<K>, c: set<K>)
    ensures a - b - c == a - (b + c)
  {
  }

  /** Updating a union at a key is updating its right operand there. */
  lemma UpdateUnion<K, V>(a: map<K, V>, b: map<K, V>, k: K, v: V)
    ensures (a + b)[k := v] == a + b[k := v]
  {
  }
}
