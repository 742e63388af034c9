/**
 The local byte store (`store.rs`, `store/recovery.rs`): an object is a blob file plus a
 metadata file that commits it. Put writes the blob, then the metadata; delete removes the
 blob first. The content hash is symbolic, hence free of collisions.
 */
module ByteStore {
  import opened Prelude
  import opened Filesystem
  import opened AtomicFile

  /** Validated object keys contain no dot. */
  type ObjectKey = k: string | '.' !in k

  datatype Hash = HashOf(bytes: Bytes)

  datatype Metadata = Metadata(key: ObjectKey, kind: nat, byteLen: nat, hash: Hash, keyEpoch: nat, createdAt: nat)

  datatype Stored = Blob(bytes: Bytes) | Record(metadata: Metadata)

  datatype PutRequest = PutRequest(key: ObjectKey, kind: nat, byteLen: nat, expectedHash: Hash, keyEpoch: nat)

  datatype Result<+T> = Ok(value: T) | ObjectAlreadyExists | Missing | Corrupt | Io

  const META_SUFFIX: string := ".meta.json"

  function BlobPath(k: ObjectKey): Path { Path(0, Ordinary(k)) }

  function MetaPath(k: ObjectKey): Path { Path(0, Ordinary(k + META_SUFFIX)) }

  /** No two of the files of any two objects share a name. */
  lemma PathsDistinct(j: ObjectKey, k: ObjectKey)
    ensures BlobPath(j) != MetaPath(k)
    ensures MetaPath(j) == MetaPath(k) ==> j == k
  {
    assert (k + META_SUFFIX)[|k|] == '.';
    if j + META_SUFFIX == k + META_SUFFIX {
      assert j == (j + META_SUFFIX)[..|j|] == (k + META_SUFFIX)[..|k|] == k;
    }
  }

  predicate Describes(m: Metadata, k: ObjectKey, b: Bytes) {
    m.key == k && m.byteLen == |b| && m.hash == HashOf(b)
  }

  /** The record says of the object what `n` says, possibly written at another time. */
  ghost predicate SameObject(m: Metadata, n: Metadata) {
    m.key == n.key && m.kind == n.kind && m.byteLen == n.byteLen && m.hash == n.hash && m.keyEpoch == n.keyEpoch
  }

  ghost predicate Answers(m: Metadata, request: PutRequest) {
    && m.key == request.key && m.kind == request.kind && m.byteLen == request.byteLen
    && m.hash == request.expectedHash && m.keyEpoch == request.keyEpoch
  }

  /** There is a record for the key, or a blob that is not these bytes. */
  ghost predicate Taken(files: map<Path, Entry<Stored>>, k: ObjectKey, bytes: Bytes) {
    At(files, MetaPath(k)).Some? || (At(files, BlobPath(k)).Some? && !Holds(At(files, BlobPath(k)), Blob(bytes)))
  }

  /** The answer of a put that no failure touches. */
  ghost function PutAnswer(files: map<Path, Entry<Stored>>, request: PutRequest, now: nat, bytes: Bytes): Result<Metadata> {
    if At(files, MetaPath(request.key)).Some? then ObjectAlreadyExists
    else if At(files, BlobPath(request.key)) == None || Holds(At(files, BlobPath(request.key)), Blob(bytes)) then
      Ok(Metadata(request.key, request.kind, |bytes|, HashOf(bytes), request.keyEpoch, now))
    else ObjectAlreadyExists
  }

  /** The object is complete: its metadata is there and describes exactly the blob. */
  predicate Committed(files: map<Path, Entry<Stored>>, k: ObjectKey, b: Bytes) {
    && Holds(At(files, BlobPath(k)), Blob(b))
    && At(files, MetaPath(k)).Some? && At(files, MetaPath(k)).value.File?
    && At(files, MetaPath(k)).value.content.Record?
    && Describes(At(files, MetaPath(k)).value.content.metadata, k, b)
  }

  predicate Complete(files: map<Path, Entry<Stored>>, k: ObjectKey) {
    && At(files, BlobPath(k)).Some? && At(files, BlobPath(k)).value.File?
    && At(files, BlobPath(k)).value.content.Blob?
    && Committed(files, k, At(files, BlobPath(k)).value.content.bytes)
  }

  /** The answer of a get that no failure touches. */
  ghost function GetAnswer(files: map<Path, Entry<Stored>>, k: ObjectKey): Result<Bytes> {
    match At(files, MetaPath(k))
    case None => Missing
    case Some(e) =>
      if !e.File? || !e.content.Record? || e.content.metadata.key != k then Corrupt
      else
        match At(files, BlobPath(k))
        case None => Missing
        case Some(b) =>
          if b.File? && b.content.Blob? && Describes(e.content.metadata, k, b.content.bytes) then Ok(b.content.bytes)
          else Corrupt
  }

  /** Every other object is as it was. */
  ghost predicate OthersKept(before: map<Path, Entry<Stored>>, after: map<Path, Entry<Stored>>, k: ObjectKey) {
    forall j: ObjectKey :: j != k ==>
      At(after, BlobPath(j)) == At(before, BlobPath(j)) && At(after, MetaPath(j)) == At(before, MetaPath(j))
  }

  function Concat(chunks: seq<Bytes>): Bytes {
    if chunks == [] then [] else chunks[0] + Concat(chunks[1..])
  }

  lemma ConcatAppend(chunks: seq<Bytes>, i: nat)
    requires i < |chunks|
    ensures Concat(chunks[..i + 1]) == Concat(chunks[..i]) + chunks[i]
  {
    if i == 0 {
      assert chunks[..1] == [chunks[0]];
    } else {
      ConcatAppend(chunks[1..], i - 1);
      assert chunks[..i + 1][1..] == chunks[1..][..i];
      assert chunks[..i][1..] == chunks[1..][..i - 1];
    }
  }

  /** The copying loop of `write_streamed_object`: what the writer produced, or None when the
      source turned out longer than, shorter than or different from what was requested. */
  method Consume(chunks: seq<Bytes>, request: PutRequest) returns (write: Option<Bytes>)
    ensures write == if |Concat(chunks)| == request.byteLen && HashOf(Concat(chunks)) == request.expectedHash
                     then Some(Concat(chunks)) else None
  {
    var hashed: Bytes := [];
    var byteLen := 0;
    for i := 0 to |chunks|
      invariant hashed == Concat(chunks[..i]) && byteLen == |hashed| <= request.byteLen
    {
      ConcatAppend(chunks, i);
      if byteLen + |chunks[i]| > request.byteLen {
        ConcatPrefix(chunks, i + 1);
        return None;
      }
      hashed := hashed + chunks[i];
      byteLen := byteLen + |chunks[i]|;
    }
    assert chunks[..|chunks|] == chunks;
    if byteLen != request.byteLen || HashOf(hashed) != request.expectedHash {
      return None;
    }
    return Some(hashed);
  }

  lemma ConcatPrefix(chunks: seq<Bytes>, i: nat)
    requires i <= |chunks|
    ensures |Concat(chunks[..i])| <= |Concat(chunks)|
    decreases |chunks| - i
  {
    if i == |chunks| {
      assert chunks[..i] == chunks;
    } else {
      ConcatAppend(chunks, i);
      ConcatPrefix(chunks, i + 1);
    }
  }

  class LocalByteStore {
    const disk: Disk<Stored>

    ghost predicate Valid()
      reads this, disk
    {
      disk.Valid() && disk.shared == {}
    }

    constructor (disk: Disk<Stored>)
      requires disk.Valid() && disk.shared == {}
      ensures Valid() && this.disk == disk
    {
      this.disk := disk;
    }

    /** A step that left every file alone. */
    twostate predicate Untouched()
      reads disk
    {
      disk.Steady() && forall p :: At(disk.files, p) == old(At(disk.files, p))
    }

    method Exists(p: Path) returns (found: bool)
      requires Valid()
      modifies disk
      ensures Untouched()
      ensures found ==> At(disk.files, p).Some?
      ensures !found ==> At(disk.files, p) == None || (disk.faulted && disk.probeFailed)
    {
      var probe := disk.Probe(p);
      found := probe.Found?;
    }

    /** `metadata_for_key`. */
    method MetadataForKey(k: ObjectKey) returns (r: Result<Metadata>)
      requires Valid()
      modifies disk
      ensures Untouched()
      ensures r.Ok? ==> Holds(At(disk.files, MetaPath(k)), Record(r.value)) && r.value.key == k
      ensures r == Missing ==> At(disk.files, MetaPath(k)) == None
      ensures r == Io ==> disk.faulted
      ensures r == Corrupt ==> At(disk.files, MetaPath(k)).Some?
      ensures r != ObjectAlreadyExists
      ensures forall m :: Holds(At(disk.files, MetaPath(k)), Record(m)) && m.key == k ==> r == Ok(m) || r == Io
    {
      var probe := disk.Probe(MetaPath(k));
      match probe
      case Absent => r := Missing;
      case Unreadable => r := Io;
      case Found(e) =>
        if e.File? && e.content.Record? && e.content.metadata.key == k {
          r := Ok(e.content.metadata);
        } else {
          r := Corrupt;
        }
    }

    /** `verify_metadata`, returning the verified bytes. */
    method VerifyMetadata(m: Metadata) returns (r: Result<Bytes>)
      requires Valid()
      modifies disk
      ensures Untouched()
      ensures r.Ok? ==> Holds(At(disk.files, BlobPath(m.key)), Blob(r.value)) && Describes(m, m.key, r.value)
      ensures r == Missing ==> At(disk.files, BlobPath(m.key)) == None
      ensures At(disk.files, BlobPath(m.key)) == None ==> r == Missing || r == Io
      ensures r == Io ==> disk.faulted
      ensures r == Corrupt ==> !exists b :: Holds(At(disk.files, BlobPath(m.key)), Blob(b)) && Describes(m, m.key, b)
      ensures r != ObjectAlreadyExists
    {
      var probe := disk.Probe(BlobPath(m.key));
      match probe
      case Absent => r := Missing;
      case Unreadable => r := Io;
      case Found(e) =>
        if e.File? && e.content.Blob? && Describes(m, m.key, e.content.bytes) {
          r := Ok(e.content.bytes);
        } else {
          r := Corrupt;
        }
    }

    /** `get_object`. */
    method Get(k: ObjectKey) returns (r: Result<Bytes>)
      requires Valid()
      modifies disk
      ensures Untouched()
      ensures r.Ok? ==> Committed(disk.files, k, r.value)
      ensures forall b :: Committed(disk.files, k, b) ==> r == Ok(b) || (r == Io && disk.faulted)
      ensures r == GetAnswer(disk.files, k) || (r == Io && disk.faulted)
    {
      var m := MetadataForKey(k);
      match m
      case Ok(metadata) => r := VerifyMetadata(metadata);
      case ObjectAlreadyExists => r := ObjectAlreadyExists;
      case Missing => r := Missing;
      case Corrupt => r := Corrupt;
      case Io => r := Io;
    }

    /** `write_metadata`. */
    method WriteMetadata(m: Metadata) returns (r: Result<Metadata>)
      requires Valid()
      modifies disk
      ensures Valid() && disk.Steady()
      ensures SameBut(old(disk.files), disk.files, {MetaPath(m.key)}, old(disk.nextSerial), disk.nextSerial)
      ensures At(disk.files, MetaPath(m.key)) == old(At(disk.files, MetaPath(m.key))) ||
              (old(At(disk.files, MetaPath(m.key))) == None && Holds(At(disk.files, MetaPath(m.key)), Record(m)))
      ensures r.Ok? ==> r.value == m && old(At(disk.files, MetaPath(m.key))) == None
      ensures r.Ok? ==> Holds(At(disk.files, MetaPath(m.key)), Record(m))
      ensures r == ObjectAlreadyExists ==> old(At(disk.files, MetaPath(m.key))).Some?
      ensures r.Ok? || r == ObjectAlreadyExists || (r == Io && disk.faulted)
    {
      var wrote := WriteAtomic(disk, MetaPath(m.key), WriteOptions(0, false, false), Some(Record(m)));
      r := if wrote == Done then Ok(m) else if wrote == AlreadyExists then ObjectAlreadyExists else Io;
    }

    /** `matching_committed_metadata`. */
    method MatchingCommitted(expected: Metadata) returns (r: Result<Metadata>)
      requires Valid()
      modifies disk
      ensures Untouched()
      ensures r.Ok? ==> exists b :: Committed(disk.files, expected.key, b) && Describes(expected, expected.key, b)
      ensures r.Ok? ==> Holds(At(disk.files, MetaPath(expected.key)), Record(r.value)) && SameObject(r.value, expected)
      ensures r == Io ==> disk.faulted
      ensures r == Missing ==> At(disk.files, MetaPath(expected.key)) == None || At(disk.files, BlobPath(expected.key)) == None
      ensures r == Corrupt ==> At(disk.files, MetaPath(expected.key)).Some? && !Complete(disk.files, expected.key)
      ensures r == ObjectAlreadyExists ==>
        exists m :: Holds(At(disk.files, MetaPath(expected.key)), Record(m)) && !SameObject(m, expected)
      ensures forall m :: Holds(At(disk.files, MetaPath(expected.key)), Record(m)) && m.key == expected.key ==>
        disk.faulted || (if SameObject(m, expected) then Complete(disk.files, m.key) ==> r == Ok(m) else r == ObjectAlreadyExists)
    {
      var m := MetadataForKey(expected.key);
      if !m.Ok? {
        return m;
      }
      var metadata := m.value;
      if metadata.kind != expected.kind || metadata.byteLen != expected.byteLen || metadata.hash != expected.hash
         || metadata.keyEpoch != expected.keyEpoch {
        assert Holds(At(disk.files, MetaPath(expected.key)), Record(metadata)) && !SameObject(metadata, expected);
        return ObjectAlreadyExists;
      }
      var v := VerifyMetadata(metadata);
      match v
      case Ok(b) =>
        assert Committed(disk.files, expected.key, b) && Describes(expected, expected.key, b);
        r := Ok(metadata);
      case ObjectAlreadyExists => r := ObjectAlreadyExists;
      case Missing => r := Missing;
      case Corrupt => r := Corrupt;
      case Io => r := Io;
    }

    /** What a put of `k` may do at any cut: other objects stay; a complete object stays. */
    twostate predicate PutKeeps(k: ObjectKey)
      reads this, disk
    {
      && Valid() && disk.Steady()
      && SameBut(old(disk.files), disk.files, {BlobPath(k), MetaPath(k)}, old(disk.nextSerial), disk.nextSerial)
      && (Complete(old(disk.files), k) ==>
            && At(disk.files, BlobPath(k)) == old(At(disk.files, BlobPath(k)))
            && At(disk.files, MetaPath(k)) == old(At(disk.files, MetaPath(k))))
    }

    /** `commit_metadata_after_object_write`, called with the blob just written. */
    method CommitMetadata(m: Metadata, ghost b: Bytes) returns (r: Result<Metadata>)
      requires Valid() && Describes(m, m.key, b) && Holds(At(disk.files, BlobPath(m.key)), Blob(b))
      modifies disk
      ensures Valid() && disk.Steady()
      ensures SameBut(old(disk.files), disk.files, {BlobPath(m.key), MetaPath(m.key)}, old(disk.nextSerial), disk.nextSerial)
      ensures r.Ok? ==> Committed(disk.files, m.key, b)
      ensures r.Ok? ==> Holds(At(disk.files, MetaPath(m.key)), Record(r.value)) && SameObject(r.value, m)
      ensures old(At(disk.files, MetaPath(m.key))) == None ==> r == Ok(m) || disk.faulted
      ensures forall n :: Holds(old(At(disk.files, MetaPath(m.key))), Record(n)) && n.key == m.key ==>
        disk.faulted || r == if SameObject(n, m) then Ok(n) else ObjectAlreadyExists
      ensures (r == Io ==> disk.faulted) && r != Missing
      ensures r == ObjectAlreadyExists ==> old(At(disk.files, MetaPath(m.key))).Some?
      // A blob that nothing commits is removed again; one that is committed stays.
      ensures At(disk.files, MetaPath(m.key)) == None ==> At(disk.files, BlobPath(m.key)) == None || disk.removeFailed
      ensures At(disk.files, MetaPath(m.key)).Some? ==>
        At(disk.files, BlobPath(m.key)) == old(At(disk.files, BlobPath(m.key))) || disk.probeFailed
    {
      PathsDistinct(m.key, m.key);
      r := WriteMetadata(m);
      if r == ObjectAlreadyExists {
        r := MatchingCommitted(m);
      } else if !r.Ok? {
        var found := Exists(MetaPath(m.key));
        if !found {
          var _ := disk.Remove(BlobPath(m.key));
        }
      }
    }

    /** `adopt_matching_uncommitted_object`: finish an object whose blob a crash left behind. */
    method Adopt(m: Metadata, ghost b: Bytes) returns (r: Result<Metadata>)
      requires Valid() && Describes(m, m.key, b)
      modifies disk
      ensures PutKeeps(m.key)
      ensures At(disk.files, BlobPath(m.key)) == old(At(disk.files, BlobPath(m.key)))
      ensures r.Ok? ==> Committed(disk.files, m.key, b) && !Complete(old(disk.files), m.key)
      ensures r.Ok? ==> Holds(At(disk.files, MetaPath(m.key)), Record(r.value)) && SameObject(r.value, m)
      ensures (old(At(disk.files, MetaPath(m.key))) == None && Holds(old(At(disk.files, BlobPath(m.key))), Blob(b))) ==>
        r == Ok(m) || disk.faulted
      ensures old(At(disk.files, MetaPath(m.key))) == None && !Holds(old(At(disk.files, BlobPath(m.key))), Blob(b)) ==>
        r == ObjectAlreadyExists || disk.faulted
      ensures Complete(old(disk.files), m.key) ==> r == ObjectAlreadyExists || disk.faulted
      ensures (r == Io ==> disk.faulted) && r != Missing
      ensures r == ObjectAlreadyExists ==>
        old(At(disk.files, MetaPath(m.key))).Some? || !Holds(old(At(disk.files, BlobPath(m.key))), Blob(b))
    {
      PathsDistinct(m.key, m.key);
      for attempt := 0 to 5
        invariant Valid() && Untouched()
        invariant attempt > 0 ==> At(disk.files, MetaPath(m.key)) == None
      {
        var existing := MetadataForKey(m.key);
        if existing.Ok? {
          return ObjectAlreadyExists;
        }
        if existing != Missing {
          return existing;
        }
      }
      var probe := disk.Probe(BlobPath(m.key));
      match probe
      case Absent => r := ObjectAlreadyExists;
      case Unreadable => r := Io;
      case Found(e) =>
        if !e.File? || !e.content.Blob? || |e.content.bytes| != m.byteLen || HashOf(e.content.bytes) != m.hash {
          return ObjectAlreadyExists;
        }
        r := WriteMetadata(m);
        if r == ObjectAlreadyExists {
          r := MatchingCommitted(m);
        }
    }

    /** The common part of both puts: the blob, then the metadata that commits it. */
    method Store(request: PutRequest, now: nat, write: Option<Bytes>) returns (r: Result<Metadata>)
      requires Valid()
      requires write.Some? ==> |write.value| == request.byteLen && HashOf(write.value) == request.expectedHash
      modifies disk
      ensures PutKeeps(request.key)
      ensures r.Ok? ==> write.Some? && Committed(disk.files, request.key, write.value) && !Complete(old(disk.files), request.key)
      ensures r.Ok? ==> Holds(At(disk.files, MetaPath(request.key)), Record(r.value)) && Answers(r.value, request)
      ensures (r == Io ==> disk.faulted) && r != Missing
      ensures r == ObjectAlreadyExists ==> write.Some? && Taken(old(disk.files), request.key, write.value)
      ensures write.None? ==> KeyUntouched(request.key) && (r == Corrupt || disk.faulted)
      ensures Complete(old(disk.files), request.key) && write.Some? ==> r == ObjectAlreadyExists || disk.faulted
      ensures write.Some? && old(At(disk.files, MetaPath(request.key))) == None ==>
        r == PutAnswer(old(disk.files), request, now, write.value) || disk.faulted
    {
      var k := request.key;
      PathsDistinct(k, k);
      var content: Option<Stored> := if write.Some? then Some(Blob(write.value)) else None;
      var wrote := WriteAtomic(disk, BlobPath(k), WriteOptions(0, false, false), content);
      if wrote == InvalidInput {
        return Corrupt;
      }
      if wrote != Done && wrote != AlreadyExists {
        return Io;
      }
      var m := Metadata(k, request.kind, request.byteLen, request.expectedHash, request.keyEpoch, now);
      if wrote == Done {
        r := CommitMetadata(m, write.value);
      } else {
        r := Adopt(m, write.value);
      }
    }

    twostate predicate KeyUntouched(k: ObjectKey)
      reads disk
    {
      && At(disk.files, BlobPath(k)) == old(At(disk.files, BlobPath(k)))
      && At(disk.files, MetaPath(k)) == old(At(disk.files, MetaPath(k)))
    }

    /** `write_buffered_object`. */
    method PutBuffered(request: PutRequest, now: nat, bytes: Bytes) returns (r: Result<Metadata>)
      requires Valid()
      modifies disk
      ensures PutKeeps(request.key)
      ensures r.Ok? ==> Committed(disk.files, request.key, bytes) && !Complete(old(disk.files), request.key)
      ensures |bytes| != request.byteLen || HashOf(bytes) != request.expectedHash ==> r == Corrupt && KeyUntouched(request.key)
      ensures r.Ok? ==> Holds(At(disk.files, MetaPath(request.key)), Record(r.value)) && Answers(r.value, request)
      ensures (r == Io ==> disk.faulted) && r != Missing
      ensures r == ObjectAlreadyExists ==> Taken(old(disk.files), request.key, bytes)
      ensures |bytes| == request.byteLen && HashOf(bytes) == request.expectedHash ==>
        r == PutAnswer(old(disk.files), request, now, bytes) || disk.faulted
    {
      if |bytes| != request.byteLen || HashOf(bytes) != request.expectedHash {
        return Corrupt;
      }
      var found := Exists(MetaPath(request.key));
      if found {
        return ObjectAlreadyExists;
      }
      r := Store(request, now, Some(bytes));
    }

    /** `write_streamed_object`. */
    method PutStreamed(request: PutRequest, now: nat, chunks: seq<Bytes>) returns (r: Result<Metadata>)
      requires Valid()
      modifies disk
      ensures PutKeeps(request.key)
      ensures r.Ok? ==> Committed(disk.files, request.key, Concat(chunks)) && !Complete(old(disk.files), request.key)
      ensures |Concat(chunks)| != request.byteLen || HashOf(Concat(chunks)) != request.expectedHash ==>
        KeyUntouched(request.key) &&
        (disk.faulted || r == if old(At(disk.files, MetaPath(request.key))).Some? then ObjectAlreadyExists else Corrupt)
      ensures r.Ok? ==> Holds(At(disk.files, MetaPath(request.key)), Record(r.value)) && Answers(r.value, request)
      ensures (r == Io ==> disk.faulted) && r != Missing
      ensures r == ObjectAlreadyExists ==> Taken(old(disk.files), request.key, Concat(chunks))
      ensures |Concat(chunks)| == request.byteLen && HashOf(Concat(chunks)) == request.expectedHash ==>
        r == PutAnswer(old(disk.files), request, now, Concat(chunks)) || disk.faulted
    {
      var found := Exists(MetaPath(request.key));
      if found {
        return ObjectAlreadyExists;
      }
      var write := Consume(chunks, request);
      r := Store(request, now, write);
    }

    /** What `delete_object` verifies first: a pair that is there must match. */
    method CheckPair(k: ObjectKey) returns (r: Result<()>)
      requires Valid()
      modifies disk
      ensures Valid() && Untouched()
      ensures (Complete(disk.files, k) || At(disk.files, BlobPath(k)) == None || At(disk.files, MetaPath(k)) == None) ==>
        r.Ok? || disk.faulted
      ensures At(disk.files, BlobPath(k)).Some? && At(disk.files, MetaPath(k)).Some? && !Complete(disk.files, k) ==>
        r == Corrupt || disk.faulted
      ensures r in {Ok(()), Corrupt, Io} && (r == Io ==> disk.faulted)
      ensures r == Corrupt ==>
        At(disk.files, BlobPath(k)).Some? && At(disk.files, MetaPath(k)).Some? && !Complete(disk.files, k)
    {
      var metaThere := Exists(MetaPath(k));
      var blobThere := false;
      if metaThere {
        blobThere := Exists(BlobPath(k));
      }
      if blobThere {
        var m := MetadataForKey(k);
        if !m.Ok? {
          return if m == Io then Io else Corrupt;
        }
        var v := VerifyMetadata(m.value);
        if !v.Ok? {
          return if v == Io then Io else Corrupt;
        }
      }
      r := Ok(());
    }

    /** `delete_object`. */
    method Delete(k: ObjectKey) returns (r: Result<()>)
      requires Valid()
      modifies disk
      ensures Valid() && disk.Steady()
      ensures SameBut(old(disk.files), disk.files, {BlobPath(k), MetaPath(k)}, 0, 0)
      ensures r.Ok? ==> At(disk.files, BlobPath(k)) == None && At(disk.files, MetaPath(k)) == None
      // At every cut the metadata outlives the blob, so no blob is left that nothing names.
      ensures At(disk.files, BlobPath(k)).Some? ==>
        && At(disk.files, BlobPath(k)) == old(At(disk.files, BlobPath(k)))
        && At(disk.files, MetaPath(k)) == old(At(disk.files, MetaPath(k)))
      // A complete object, a half-deleted one and an absent one can all be deleted.
      ensures (Complete(old(disk.files), k) || old(At(disk.files, BlobPath(k))) == None
               || old(At(disk.files, MetaPath(k))) == None) ==> r.Ok? || disk.faulted
      // A pair that does not match is refused and stays.
      ensures (old(At(disk.files, BlobPath(k))).Some? && old(At(disk.files, MetaPath(k))).Some?
               && !Complete(old(disk.files), k)) ==> (r == Corrupt && KeyUntouched(k)) || disk.faulted
      ensures r in {Ok(()), Corrupt, Io} && (r == Io ==> disk.faulted)
      ensures r == Corrupt ==> !Complete(old(disk.files), k) && KeyUntouched(k)
    {
      PathsDistinct(k, k);
      r := CheckPair(k);
      if !r.Ok? {
        return;
      }
      var removed := disk.Remove(BlobPath(k));
      if removed == Failed {
        return Io;
      }
      removed := disk.Remove(MetaPath(k));
      if removed == Failed {
        return Io;
      }
      r := Ok(());
    }

    /** One operation of a run. */
    method Perform(op: Operation) returns (ok: bool)
      requires Valid()
      modifies disk
      ensures Valid() && Performed(op, ok, old(disk.files), disk.files)
      ensures !disk.faulted ==> (ok <==> Works(op, old(disk.files)))
    {
      match op
      case Put(request, now, chunks, streamed) =>
        var r: Result<Metadata>;
        if streamed {
          r := PutStreamed(request, now, chunks);
        } else {
          r := PutBuffered(request, now, Concat(chunks));
        }
        OthersUntouched(old(disk.files), disk.files, request.key);
        return r.Ok?;
      case Deletion(k) =>
        var r := Delete(k);
        OthersUntouched(old(disk.files), disk.files, k);
        return r.Ok?;
    }

    /** Any sequence of puts and deletes, each possibly cut by a crash. `ok` says which calls
        returned success: every object then owed to the caller is complete, and an object that
        was complete at the start changes only if some operation deletes it. `states` is what was on
        disk between the operations, and `calm` during which of them nothing failed. */
    method Run(ops: seq<Operation>) returns (ok: seq<bool>, ghost calm: seq<bool>, ghost states: seq<map<Path, Entry<Stored>>>)
      requires Valid()
      modifies disk
      ensures Valid() && |ok| == |ops|
      ensures forall k :: k in Owed(ops, ok) ==> Committed(disk.files, k, Owed(ops, ok)[k])
      ensures forall k: ObjectKey :: Complete(old(disk.files), k) && Deletion(k) !in ops ==>
        ObjectKept(old(disk.files), disk.files, k)
      ensures Traced(ops, ok, calm, states) && states[0] == old(disk.files) && states[|ops|] == disk.files
    {
      ok, calm, states := [], [], [disk.files];
      for i := 0 to |ops|
        invariant Valid() && |ok| == i && Paid(ops[..i], ok, disk.files)
        invariant Undeleted(ops[..i], old(disk.files), disk.files)
        invariant Traced(ops[..i], ok, calm, states) && states[0] == old(disk.files) && states[i] == disk.files
      {
        disk.Restart();
        ghost var before := disk.files;
        var done := Perform(ops[i]);
        OwedStep(ops[..i], ok, ops[i], done, before, disk.files);
        UndeletedStep(ops[..i], ops[i], done, old(disk.files), before, disk.files);
        TracedMore(ops[..i], ok, calm, states, ops[i], done, !disk.faulted, disk.files);
        assert ops[..i + 1] == ops[..i] + [ops[i]];
        ok, calm, states := ok + [done], calm + [!disk.faulted], states + [disk.files];
      }
      assert ops[..|ops|] == ops;
    }
  }

  /** A put succeeds if what it declares is what it brings and the key is free or holds these bytes
      without a record; a delete unless the pair does not match. */
  ghost predicate Works(op: Operation, files: map<Path, Entry<Stored>>) {
    match op
    case Put(request, _, chunks, _) =>
      && |Concat(chunks)| == request.byteLen && HashOf(Concat(chunks)) == request.expectedHash
      && !Taken(files, request.key, Concat(chunks))
    case Deletion(k) => Complete(files, k) || At(files, BlobPath(k)) == None || At(files, MetaPath(k)) == None
  }

  /** Each operation does what it does from one state to the next, and answers rightly if calm. */
  ghost predicate Traced(ops: seq<Operation>, ok: seq<bool>, calm: seq<bool>, states: seq<map<Path, Entry<Stored>>>) {
    && |ok| == |calm| == |ops| && |states| == |ops| + 1
    && forall i {:trigger ops[i]} :: 0 <= i < |ops| ==>
         Performed(ops[i], ok[i], states[i], states[i + 1]) && (calm[i] ==> (ok[i] <==> Works(ops[i], states[i])))
  }

  lemma TracedMore(ops: seq<Operation>, ok: seq<bool>, calm: seq<bool>, states: seq<map<Path, Entry<Stored>>>,
                   op: Operation, done: bool, quiet: bool, files: map<Path, Entry<Stored>>)
    requires Traced(ops, ok, calm, states) && Performed(op, done, states[|ops|], files)
    requires quiet ==> (done <==> Works(op, states[|ops|]))
    ensures Traced(ops + [op], ok + [done], calm + [quiet], states + [files])
  {
    var os, ss := ops + [op], states + [files];
    forall i | 0 <= i < |os|
      ensures Performed(os[i], (ok + [done])[i], ss[i], ss[i + 1])
      ensures (calm + [quiet])[i] ==> ((ok + [done])[i] <==> Works(os[i], ss[i]))
    {
      if i < |ops| {
        assert os[i] == ops[i] && ss[i] == states[i] && ss[i + 1] == states[i + 1];
      }
    }
  }

  ghost predicate ObjectKept(before: map<Path, Entry<Stored>>, after: map<Path, Entry<Stored>>, k: ObjectKey) {
    && At(after, BlobPath(k)) == At(before, BlobPath(k))
    && At(after, MetaPath(k)) == At(before, MetaPath(k))
  }

  /** What one operation does, at whatever point it was cut. */
  ghost predicate Performed(op: Operation, ok: bool, before: map<Path, Entry<Stored>>, after: map<Path, Entry<Stored>>) {
    match op
    case Put(request, _, chunks, _) =>
      && OthersKept(before, after, request.key)
      && (Complete(before, request.key) ==> ObjectKept(before, after, request.key))
      && (ok ==> Committed(after, request.key, Concat(chunks)) && !Complete(before, request.key))
    case Deletion(k) =>
      && OthersKept(before, after, k)
      && (ok ==> At(after, BlobPath(k)) == None && At(after, MetaPath(k)) == None)
  }

  /** Every object owed after the operations so far is there. */
  ghost predicate Paid(ops: seq<Operation>, ok: seq<bool>, files: map<Path, Entry<Stored>>)
    requires |ops| == |ok|
  {
    forall k :: k in Owed(ops, ok) ==> Committed(files, k, Owed(ops, ok)[k])
  }

  lemma OwedStep(ops: seq<Operation>, ok: seq<bool>, op: Operation, done: bool,
                 before: map<Path, Entry<Stored>>, after: map<Path, Entry<Stored>>)
    requires |ops| == |ok| && Paid(ops, ok, before) && Performed(op, done, before, after)
    ensures Paid(ops + [op], ok + [done], after)
  {
    assert (ops + [op])[..|ops|] == ops && (ok + [done])[..|ok|] == ok;
    forall k | k in Owed(ops, ok) && (op.Deletion? ==> op.key != k) && (op.Put? ==> op.request.key != k || !done)
      ensures Committed(after, k, Owed(ops, ok)[k])
    {
      assert Committed(before, k, Owed(ops, ok)[k]);
      assert ObjectKept(before, after, k);
    }
  }

  ghost predicate Undeleted(ops: seq<Operation>, start: map<Path, Entry<Stored>>, files: map<Path, Entry<Stored>>) {
    forall k: ObjectKey :: Complete(start, k) && Deletion(k) !in ops ==> ObjectKept(start, files, k)
  }

  lemma UndeletedStep(ops: seq<Operation>, op: Operation, done: bool,
                      start: map<Path, Entry<Stored>>, before: map<Path, Entry<Stored>>, after: map<Path, Entry<Stored>>)
    requires Undeleted(ops, start, before) && Performed(op, done, before, after)
    ensures Undeleted(ops + [op], start, after)
  {
    forall k: ObjectKey | Complete(start, k) && Deletion(k) !in ops + [op]
      ensures ObjectKept(start, after, k)
    {
      assert Deletion(k) !in ops && op != Deletion(k);
      assert ObjectKept(start, before, k);
      assert ObjectKept(before, after, k);
    }
  }

  /** The objects whose put succeeded and whose delete has not begun. */
  function Owed(ops: seq<Operation>, ok: seq<bool>): map<ObjectKey, Bytes>
    requires |ops| == |ok|
  {
    if ops == [] then map[]
    else
      var n := |ops| - 1;
      var rest := Owed(ops[..n], ok[..n]);
      match ops[n]
      case Put(request, _, chunks, _) => if ok[n] then rest[request.key := Concat(chunks)] else rest
      case Deletion(k) => rest - {k}
  }

  datatype Operation =
    | Put(request: PutRequest, now: nat, chunks: seq<Bytes>, streamed: bool)
    | Deletion(key: ObjectKey)

  lemma OthersUntouched(before: map<Path, Entry<Stored>>, after: map<Path, Entry<Stored>>, k: ObjectKey)
    requires exists lo: nat, hi: nat :: SameBut(before, after, {BlobPath(k), MetaPath(k)}, lo, hi)
    ensures OthersKept(before, after, k)
  {
    forall j: ObjectKey | j != k
      ensures At(after, BlobPath(j)) == At(before, BlobPath(j)) && At(after, MetaPath(j)) == At(before, MetaPath(j))
    {
      PathsDistinct(j, k);
      PathsDistinct(k, j);
    }
  }
}
