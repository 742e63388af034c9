/**
 Bounded prefetch (`prefetch_blobs` in `manifest_transport.rs`): requests are merged by key,
 keeping the largest declared size, and downloaded in consecutive batches of at most 32
 items and 32 MiB.
 */
module Prefetch {
  import opened Prelude

  const DOWNLOAD_CONCURRENCY: nat := 32
  const MAX_PREFETCH_BYTES: nat := 32 * 1024 * 1024

  datatype Request = Request(key: nat, byteLen: nat)

  // ---- merging ----------------------------------------------------------------

  ghost predicate Ordered(rs: seq<Request>) {
    forall i, j :: 0 <= i < j < |rs| ==> rs[i].key < rs[j].key
  }

  function SizeOf(rs: seq<Request>, key: nat): (size: Option<nat>) {
    if rs == [] then None
    else
      var before := SizeOf(rs[..|rs| - 1], key);
      var last := rs[|rs| - 1];
      if last.key != key then before
      else Some(if before.Some? then Max(before.value, last.byteLen) else last.byteLen)
  }

  /** It is the largest size any request for the key declares. */
  lemma {:induction false} SizeIsLargest(rs: seq<Request>, key: nat)
    ensures forall q :: q in rs && q.key == key ==> SizeOf(rs, key).Some? && q.byteLen <= SizeOf(rs, key).value
    ensures SizeOf(rs, key).Some? ==> Request(key, SizeOf(rs, key).value) in rs
  {
    if rs != [] {
      var n := |rs| - 1;
      SizeIsLargest(rs[..n], key);
      assert rs == rs[..n] + [rs[n]];
    }
  }

  /** The ordered map of the source: each key once, at its largest declared size. */
  method Merge(rs: seq<Request>) returns (unique: map<nat, nat>)
    ensures forall key :: SizeOf(rs, key) == if key in unique then Some(unique[key]) else None
  {
    unique := map[];
    for n := 0 to |rs|
      invariant forall key :: SizeOf(rs[..n], key) == if key in unique then Some(unique[key]) else None
    {
      var r := rs[n];
      assert rs[..n + 1][..n] == rs[..n];
      unique := unique[r.key := if r.key in unique then Max(unique[r.key], r.byteLen) else r.byteLen];
    }
    assert rs[..|rs|] == rs;
  }

  predicate IsLeast(k: nat, keys: set<nat>) {
    k in keys && forall j :: j in keys ==> k <= j
  }

  lemma {:induction false} LeastExists(keys: set<nat>)
    requires keys != {}
    ensures exists k :: IsLeast(k, keys)
  {
    var k :| k in keys;
    var rest := keys - {k};
    assert forall j :: j in keys ==> j == k || j in rest;
    if rest == {} {
      assert IsLeast(k, keys);
    } else {
      LeastExists(rest);
      var least :| IsLeast(least, rest);
      assert IsLeast(if k <= least then k else least, keys);
    }
  }

  /** Iterating an ordered map. */
  method InKeyOrder(unique: map<nat, nat>) returns (rs: seq<Request>)
    ensures Ordered(rs)
    ensures forall q :: q in rs <==> q.key in unique && q.byteLen == unique[q.key]
  {
    rs := [];
    var rest := unique.Keys;
    while rest != {}
      invariant rest <= unique.Keys && Ordered(rs)
      invariant forall i, k :: 0 <= i < |rs| && k in rest ==> rs[i].key < k
      invariant forall q :: q in rs <==> q.key in unique && q.key !in rest && q.byteLen == unique[q.key]
      decreases |rest|
    {
      var k := Least(rest);
      rs, rest := rs + [Request(k, unique[k])], rest - {k};
    }
  }

  method Least(keys: set<nat>) returns (k: nat)
    requires keys != {}
    ensures IsLeast(k, keys)
  {
    LeastExists(keys);
    k :| IsLeast(k, keys);
  }

  // ---- batching ---------------------------------------------------------------

  /** The bytes that requests `lo` to `hi` declare together. */
  function Bytes(rs: seq<Request>, lo: nat, hi: nat): nat
    requires hi <= |rs|
  {
    if hi <= lo then 0 else Bytes(rs, lo, hi - 1) + rs[hi - 1].byteLen
  }

  /** Requests `lo` to `hi` are a batch the downloader may run: not empty, and within both limits. */
  predicate Fits(rs: seq<Request>, lo: nat, hi: nat) {
    && lo < hi <= |rs| && hi - lo <= DOWNLOAD_CONCURRENCY
    && Bytes(rs, lo, hi) <= MAX_PREFETCH_BYTES
  }

  /** `cuts` are the batch ends: an in-order partition of `rs` into fitting batches. */
  predicate Partition(rs: seq<Request>, cuts: seq<nat>) {
    && (forall i {:trigger Start(cuts, i)} :: 0 <= i < |cuts| ==> Fits(rs, Start(cuts, i), cuts[i]))
    && Start(cuts, |cuts|) == |rs|
  }

  function Start(cuts: seq<nat>, i: nat): nat
    requires i <= |cuts|
  {
    if i == 0 then 0 else cuts[i - 1]
  }

  lemma {:induction false} BytesSplit(rs: seq<Request>, lo: nat, mid: nat, hi: nat)
    requires lo <= mid <= hi <= |rs|
    ensures Bytes(rs, lo, hi) == Bytes(rs, lo, mid) + Bytes(rs, mid, hi)
    decreases hi - mid
  {
    if mid < hi {
      BytesSplit(rs, lo, mid, hi - 1);
    }
  }

  /** No fitting batch from `start` reaches further than `end`. */
  ghost predicate Furthest(rs: seq<Request>, start: nat, end: nat) {
    forall e: nat :: Fits(rs, start, e) ==> e <= end
  }

  /** The inner loop: grow one batch from `start` as far as both limits allow. */
  method NextBatch(rs: seq<Request>, start: nat) returns (end: nat)
    requires start < |rs|
    requires forall r :: r in rs ==> r.byteLen <= MAX_PREFETCH_BYTES
    ensures Fits(rs, start, end) && Furthest(rs, start, end)
  {
    end := start;
    var batchBytes := 0;
    while end < |rs| && end - start < DOWNLOAD_CONCURRENCY
      invariant start <= end <= |rs| && end - start <= DOWNLOAD_CONCURRENCY
      invariant batchBytes == Bytes(rs, start, end) <= MAX_PREFETCH_BYTES
    {
      var next := rs[end].byteLen;
      assert rs[end] in rs;
      if end > start && Min(batchBytes + next, U64_MAX) > MAX_PREFETCH_BYTES {
        forall e | end < e <= |rs|
          ensures !Fits(rs, start, e)
        {
          BytesSplit(rs, start, end + 1, e);
        }
        return;
      }
      batchBytes := Min(batchBytes + next, U64_MAX);
      end := end + 1;
    }
  }

  lemma FitsShorter(rs: seq<Request>, lo: nat, from: nat, to: nat)
    requires lo <= from < to && Fits(rs, lo, to)
    ensures Fits(rs, from, to)
  {
    BytesSplit(rs, lo, from, to);
  }

  /** Every batch fits and reaches as far as the limits allow. */
  ghost predicate Greedy(rs: seq<Request>, cuts: seq<nat>) {
    forall i {:trigger Start(cuts, i)} :: 0 <= i < |cuts| ==>
      Fits(rs, Start(cuts, i), cuts[i]) && Furthest(rs, Start(cuts, i), cuts[i])
  }

  lemma GreedyStep(rs: seq<Request>, cuts: seq<nat>, end: nat)
    requires Greedy(rs, cuts)
    requires Fits(rs, Start(cuts, |cuts|), end) && Furthest(rs, Start(cuts, |cuts|), end)
    ensures Greedy(rs, cuts + [end])
  {
    var more := cuts + [end];
    assert forall i :: 0 <= i <= |cuts| ==> Start(more, i) == Start(cuts, i);
  }

  /** Greedy batches reach at least as far as those of any other partition, batch by batch. */
  lemma {:induction false} StaysAhead(rs: seq<Request>, greedy: seq<nat>, other: seq<nat>, i: nat)
    requires Greedy(rs, greedy) && Partition(rs, other)
    requires i < |greedy| && i < |other|
    ensures other[i] <= greedy[i]
  {
    if i > 0 {
      StaysAhead(rs, greedy, other, i - 1);
    }
    var from, to := Start(greedy, i), other[i];
    assert Fits(rs, Start(other, i), to) && Start(other, i) <= from < greedy[i];
    if from < to {
      FitsShorter(rs, Start(other, i), from, to);
    }
  }

  /** So no in-order partition within the limits has fewer batches. */
  lemma GreedyIsMinimal(rs: seq<Request>, greedy: seq<nat>, other: seq<nat>)
    requires Greedy(rs, greedy) && Partition(rs, other)
    ensures |greedy| <= |other|
  {
    var n := |other|;
    assert n < |greedy| ==> Fits(rs, Start(greedy, n), greedy[n]);
    assert n < |greedy| ==> Start(greedy, n) < |rs|;
    if 0 < n <= |greedy| {
      StaysAhead(rs, greedy, other, n - 1);
    }
  }

  /** The outer loop: batches from the first request to the last. */
  method CutBatches(requests: seq<Request>) returns (cuts: seq<nat>)
    requires forall q :: q in requests ==> q.byteLen <= MAX_PREFETCH_BYTES
    ensures Partition(requests, cuts) && Greedy(requests, cuts)
  {
    var start: nat := 0;
    cuts := [];
    while start < |requests|
      invariant start == Start(cuts, |cuts|) <= |requests| && Greedy(requests, cuts)
      decreases |requests| - start
    {
      var end := NextBatch(requests, start);
      GreedyStep(requests, cuts, end);
      cuts, start := cuts + [end], end;
    }
  }

  datatype Outcome = Batches(requests: seq<Request>, cuts: seq<nat>) | Oversized

  /** The requests to download: each requested key once, at its largest declared size. */
  method UniqueRequests(rs: seq<Request>) returns (requests: seq<Request>)
    ensures Ordered(requests)
    ensures forall q :: q in requests ==> SizeOf(rs, q.key) == Some(q.byteLen) && q in rs
    ensures forall q :: q in rs ==> exists p :: p in requests && p.key == q.key && q.byteLen <= p.byteLen
  {
    var unique := Merge(rs);
    requests := InKeyOrder(unique);
    forall q | q in rs
      ensures exists p :: p in requests && p.key == q.key && q.byteLen <= p.byteLen
    {
      SizeIsLargest(rs, q.key);
      assert Request(q.key, unique[q.key]) in requests;
    }
    forall q | q in requests
      ensures SizeOf(rs, q.key) == Some(q.byteLen) && q in rs
    {
      SizeIsLargest(rs, q.key);
    }
  }

  /** `prefetch_blobs`, up to the downloads themselves. */
  method Prefetch(rs: seq<Request>) returns (r: Outcome)
    ensures r.Oversized? <==> exists q :: q in rs && q.byteLen > MAX_PREFETCH_BYTES
    // Each requested key is fetched exactly once, at its largest declared size.
    ensures r.Batches? ==> Ordered(r.requests)
    ensures r.Batches? ==> forall q :: q in r.requests ==> SizeOf(rs, q.key) == Some(q.byteLen)
    ensures r.Batches? ==> forall q :: q in rs ==> exists p :: p in r.requests && p.key == q.key
    // In as few batches as any in-order partition within both limits.
    ensures r.Batches? ==> Partition(r.requests, r.cuts)
    ensures r.Batches? ==> forall other :: Partition(r.requests, other) ==> |r.cuts| <= |other|
  {
    var requests := UniqueRequests(rs);
    for i := 0 to |requests|
      invariant forall j :: 0 <= j < i ==> requests[j].byteLen <= MAX_PREFETCH_BYTES
    {
      if requests[i].byteLen > MAX_PREFETCH_BYTES {
        return Oversized;
      }
    }
    var cuts := CutBatches(requests);
    forall other | Partition(requests, other)
      ensures |cuts| <= |other|
    {
      GreedyIsMinimal(requests, cuts, other);
    }
    return Batches(requests, cuts);
  }
}
