/**
 Finding the manifest of one ref version while other writers keep moving the head
 (`lookup_ref_version` in `manifest_transport.rs`). The hosted ref is a log: version v, for
 v >= 1, is its v-th entry, and version 0 is the headless genesis ref.
 */
module RefLookup {
  import opened Prelude

  const HISTORY_LIMIT: nat := 500

  type ManifestKey = nat

  /** A snapshot id is a manifest key exactly when it carries the manifest prefix. */
  datatype SnapshotId = Manifest(key: ManifestKey) | Opaque(id: nat)

  datatype Observation = Observation(version: nat, key: ManifestKey)

  datatype Lookup = FoundKey(key: ManifestKey) | NotAdvanced | Unknown | TransportFailed

  datatype Row = Row(version: nat, target: SnapshotId)

  /** `head_observation` of the log's last version. */
  function Head(log: seq<SnapshotId>): Option<Observation> {
    if log == [] || log[|log| - 1].Opaque? then None else Some(Observation(|log|, log[|log| - 1].key))
  }

  /** The newest `limit` rows, newest first. */
  function History(log: seq<SnapshotId>, limit: nat): (rows: seq<Row>)
    ensures |rows| == Min(limit, |log|)
    ensures forall i :: 0 <= i < |rows| ==> rows[i] == Row(|log| - i, log[|log| - i - 1])
  {
    seq(Min(limit, |log|), i requires 0 <= i < Min(limit, |log|) => Row(|log| - i, log[|log| - i - 1]))
  }

  /** A row names its snapshot whether or not that is a manifest key. */
  function KeyOf(s: SnapshotId): ManifestKey {
    match s
    case Manifest(key) => key
    case Opaque(id) => id
  }

  /** What a lookup without transport failures says, from the log at its three reads. */
  function Answer(first: seq<SnapshotId>, listed: seq<SnapshotId>, last: seq<SnapshotId>, version: nat): Lookup
    requires first <= listed <= last
  {
    if Head(first) == None || |first| < version then NotAdvanced
    else if |first| == version then FoundKey(KeyOf(first[version - 1]))
    else if |first| - version + 1 > HISTORY_LIMIT then Unknown
    else if 1 <= version && |listed| - version + 1 <= HISTORY_LIMIT then FoundKey(KeyOf(listed[version - 1]))
    else if Head(last).Some? && |last| - version + 1 > HISTORY_LIMIT then Unknown
    else NotAdvanced
  }

  /** A version that existed at the first read is denied exactly when that head is not
      manifest-backed, or when the listing lost the version that the first head still promised and
      the last head is not manifest-backed. */
  lemma DeniedExactly(first: seq<SnapshotId>, listed: seq<SnapshotId>, last: seq<SnapshotId>, version: nat)
    requires first <= listed <= last && 1 <= version <= |first|
    ensures Answer(first, listed, last, version) == NotAdvanced <==>
      || Head(first) == None
      || (version < |first| <= version + HISTORY_LIMIT - 1 && version + HISTORY_LIMIT - 1 < |listed| && Head(last) == None)
  {
  }

  /** For one: version 1 is a manifest and is denied, because version 2 is not. */
  lemma OpaqueHeadDenies()
    ensures var log := [Manifest(7), Opaque(0)];
      log[0].Manifest? && Answer(log, log, log, 1) == NotAdvanced
  {
  }

  class HostedRef {
    var log: seq<SnapshotId>
    /** How many reads have failed so far. */
    ghost var failures: nat

    constructor (log: seq<SnapshotId>)
      ensures this.log == log && failures == 0
    {
      this.log, failures := log, 0;
    }

    /** Other writers append any number of versions. */
    method Advance()
      modifies this`log
      ensures old(log) <= log
    {
      var more: seq<SnapshotId> := *;
      log := log + more;
    }

    method ReadRef() returns (failed: bool, head: Option<Observation>)
      modifies this
      ensures old(log) <= log && head == Head(log)
      ensures failures == old(failures) + if failed then 1 else 0
    {
      Advance();
      failed, head := *, Head(log);
      failures := failures + if failed then 1 else 0;
    }

    method ListHistory(limit: nat) returns (failed: bool, rows: seq<Row>)
      modifies this
      ensures old(log) <= log && rows == History(log, limit)
      ensures failures == old(failures) + if failed then 1 else 0
    {
      Advance();
      failed, rows := *, History(log, limit);
      failures := failures + if failed then 1 else 0;
    }

    method FindRow(rows: seq<Row>, version: nat) returns (row: Option<Row>)
      ensures row.Some? ==> row.value in rows && row.value.version == version
      ensures row.None? ==> forall i :: 0 <= i < |rows| ==> rows[i].version != version
    {
      for i := 0 to |rows|
        invariant forall j :: 0 <= j < i ==> rows[j].version != version
      {
        if rows[i].version == version {
          return Some(rows[i]);
        }
      }
      return None;
    }

    /** `lookup_ref_version`. `first`, `listed` and `last` are the log at the first read, at the
        listing and at the last read, as far as the call got. */
    method Lookup(version: nat)
      returns (r: Lookup, ghost first: seq<SnapshotId>, ghost listed: seq<SnapshotId>, ghost last: seq<SnapshotId>)
      modifies this
      ensures old(log) <= first <= listed <= last <= log
      // Found: the version exists by now and this is its own key.
      ensures r.FoundKey? ==> 1 <= version <= |log| && r.key == KeyOf(log[version - 1])
      ensures r == TransportFailed || r == Answer(first, listed, last, version)
      // The call fails exactly when one of its reads does.
      ensures r == TransportFailed <==> failures > old(failures)
      // Unknown: the version exists but has fallen out of the listing.
      ensures r == Unknown ==> version <= |last| && |last| - version + 1 > HISTORY_LIMIT
      // A version still within the listing at the last read is found.
      ensures 1 <= version <= |first| && |log| - version + 1 <= HISTORY_LIMIT && Head(first).Some? ==>
        r == TransportFailed || r == FoundKey(KeyOf(log[version - 1]))
    {
      var failed, current := ReadRef();
      first, listed, last := log, log, log;
      if failed {
        return TransportFailed, first, listed, last;
      }
      if current == None {
        return NotAdvanced, first, listed, last;
      }
      if current.value.version == version {
        return FoundKey(current.value.key), first, listed, last;
      }
      if current.value.version < version {
        return NotAdvanced, first, listed, last;
      }
      if current.value.version - version + 1 > HISTORY_LIMIT {
        return Unknown, first, listed, last;
      }
      var rows: seq<Row>;
      failed, rows := ListHistory(HISTORY_LIMIT);
      listed, last := log, log;
      if failed {
        return TransportFailed, first, listed, last;
      }
      assert version >= 1 && |log| - version + 1 <= HISTORY_LIMIT ==> rows[|log| - version].version == version;
      var row := FindRow(rows, version);
      if row.Some? {
        return FoundKey(KeyOf(row.value.target)), first, listed, last;
      }
      var after: Option<Observation>;
      failed, after := ReadRef();
      last := log;
      if failed {
        return TransportFailed, first, listed, last;
      }
      if after == None || after.value.version < version {
        return NotAdvanced, first, listed, last;
      }
      if after.value.version - version + 1 > HISTORY_LIMIT {
        return Unknown, first, listed, last;
      }
      return NotAdvanced, first, listed, last;
    }
  }

  ghost predicate ManifestBacked(log: seq<SnapshotId>) {
    forall i :: 0 <= i < |log| ==> log[i].Manifest?
  }

  /** On a log of manifests, the lookup never denies a version that existed when it began. */
  method LookupOnManifests(hosted: HostedRef, version: nat) returns (r: Lookup)
    requires version >= 1
    modifies hosted
    ensures old(hosted.log) <= hosted.log
    ensures ManifestBacked(hosted.log) ==>
      && (r == NotAdvanced ==> version > |old(hosted.log)|)
      && (r.FoundKey? ==> version <= |hosted.log| && hosted.log[version - 1] == Manifest(r.key))
      && (r == Unknown ==> version <= |hosted.log| && |hosted.log| - version + 1 > HISTORY_LIMIT)
    ensures r == TransportFailed <==> hosted.failures > old(hosted.failures)
    // A version that stays listed is found, unless a read fails.
    ensures ManifestBacked(hosted.log) && version <= |old(hosted.log)| && |hosted.log| - version + 1 <= HISTORY_LIMIT ==>
      hosted.failures > old(hosted.failures) || r == FoundKey(hosted.log[version - 1].key)
  {
    ghost var first, listed, last;
    r, first, listed, last := hosted.Lookup(version);
    assert ManifestBacked(hosted.log) ==> ManifestBacked(first) && ManifestBacked(last);
    if 1 <= version <= |first| {
      DeniedExactly(first, listed, last, version);
    }
  }
}
