/**
 Upload before reference (`manifest_transport.rs`, `manifest_transport/upload_pipeline.rs`):
 blobs are queued by each device and uploaded by a drain that every publishing call runs
 first. The drain takes the whole queue before it uploads anything.

 The system is any number of devices sharing one remote. A step is one remote effect or one
 local transition, so runs interleave devices between any two uploads of one drain.
 */
module UploadPipeline {
  import opened Prelude

  type Device = nat
  type BlobKey = nat
  type ManifestKey = nat

  const MAX_QUEUED_BYTES: nat := 32 * 1024 * 1024
  const MAX_QUEUED_OBJECTS: nat := 256

  /** A queued blob and its size. */
  type Job = (BlobKey, nat)

  /** The queue has reached one of its bounds. */
  predicate MustDrain(queue: seq<Job>) {
    Total(queue) >= MAX_QUEUED_BYTES || |queue| >= MAX_QUEUED_OBJECTS
  }

  function KeysOf(queue: seq<Job>): set<BlobKey> { set job | job in queue :: job.0 }

  /** The queue of one transport: owned sealed blobs and their total size. */
  class UploadQueue {
    var queued: seq<Job>
    var queuedBytes: nat

    ghost predicate Valid()
      reads this
    {
      queuedBytes == Total(queued)
    }

    constructor ()
      ensures Valid() && queued == []
    {
      queued, queuedBytes := [], 0;
    }

    /** `push`: the caller must drain as soon as either bound is reached. */
    method Push(key: BlobKey, size: nat) returns (drainNow: bool)
      requires Valid()
      modifies this
      ensures Valid() && queued == old(queued) + [(key, size)]
      ensures drainNow <==> Total(queued) >= 33_554_432 || |queued| >= 256
    {
      queued, queuedBytes := queued + [(key, size)], queuedBytes + size;
      drainNow := queuedBytes >= MAX_QUEUED_BYTES || |queued| >= MAX_QUEUED_OBJECTS;
    }

    /** `take`: everything queued leaves the queue at once. */
    method Take() returns (jobs: seq<Job>)
      requires Valid()
      modifies this
      ensures Valid() && jobs == old(queued) && queued == []
    {
      jobs := queued;
      queued, queuedBytes := [], 0;
    }
  }

  function Total(jobs: seq<Job>): nat {
    if jobs == [] then 0 else Total(jobs[..|jobs| - 1]) + jobs[|jobs| - 1].1
  }

  /** What a transport call does once its drain has succeeded. */
  datatype Call =
    | AcceptBlob(blob: BlobKey)
    | Settle
    | Fetch
    | PutManifests(manifests: set<ManifestKey>)
    | CompareAndSwap(manifest: ManifestKey)

  datatype Phase = Idle | Draining(jobs: set<BlobKey>, call: Call) | Publishing(call: Call)

  /** `queue` is the contents of the transport's `UploadQueue`. `accepted` is bookkeeping of the
      caller: the blobs whose put returned success, with no failed call on this transport since. */
  datatype Transport = Transport(queue: seq<Job>, phase: Phase, accepted: set<BlobKey>)

  datatype System = System(
    names: ManifestKey -> set<BlobKey>,
    blobs: set<BlobKey>,
    manifests: set<ManifestKey>,
    refs: seq<ManifestKey>,
    devices: map<Device, Transport>)

  datatype Step =
    | PutBlob(blob: BlobKey, size: nat)
    /** A streamed put: the blob may be stored although the call fails, or its answer is lost. */
    | PutBlobReader(blob: BlobKey, stored: bool, ok: bool)
    | Begin(call: Call)
    /** One queued blob reaches the remote. `reported` is false when the answer is lost. */
    | Upload(blob: BlobKey, reported: bool)
    | DrainDone
    | CommitManifest(manifest: ManifestKey)
    /** The remote moves the ref, whether or not the caller learns of it. */
    | MoveRef
    | Return
    | Fail

  /** The blobs a call is about to make reachable. */
  function Needs(s: System, call: Call): set<BlobKey> {
    match call
    case PutManifests(ms) => set m, b | m in ms && b in s.names(m) :: b
    case CompareAndSwap(m) => s.names(m)
    case _ => {}
  }

  /** When a step can happen. */
  predicate Enabled(s: System, d: Device, step: Step) {
    d in s.devices &&
    var t := s.devices[d];
    match step
    case PutBlob(_, _) => t.phase.Idle?
    case PutBlobReader(_, stored, ok) => t.phase.Idle? && (ok ==> stored)
    case Begin(call) => t.phase.Idle? && !call.AcceptBlob?
    case Upload(b, _) => t.phase.Draining? && b in t.phase.jobs
    case DrainDone => t.phase.Draining? && t.phase.jobs == {}
    case CommitManifest(m) => t.phase.Publishing? && t.phase.call.PutManifests? && m in t.phase.call.manifests
    case MoveRef => t.phase.Publishing? && t.phase.call.CompareAndSwap?
    case Return => t.phase.Publishing? && (t.phase.call.PutManifests? ==> t.phase.call.manifests <= s.manifests)
    case Fail => !t.phase.Idle?
  }

  function After(s: System, d: Device, step: Step): System
    requires Enabled(s, d, step)
  {
    var t := s.devices[d];
    match step
    case PutBlob(b, size) =>
      var pushed := t.queue + [(b, size)];
      if MustDrain(pushed) then
        s.(devices := s.devices[d := t.(queue := [], phase := Draining(KeysOf(pushed), AcceptBlob(b)))])
      else
        s.(devices := s.devices[d := t.(queue := pushed, accepted := t.accepted + {b})])
    case PutBlobReader(b, stored, ok) =>
      s.(blobs := if stored then s.blobs + {b} else s.blobs,
         devices := s.devices[d := t.(accepted := if ok then t.accepted + {b} else {})])
    case Begin(call) =>
      s.(devices := s.devices[d := t.(queue := [], phase := Draining(KeysOf(t.queue), call))])
    case Upload(b, reported) =>
      var jobs := if reported then t.phase.jobs - {b} else t.phase.jobs;
      s.(blobs := s.blobs + {b}, devices := s.devices[d := t.(phase := t.phase.(jobs := jobs))])
    case DrainDone =>
      s.(devices := s.devices[d := t.(phase := Publishing(t.phase.call))])
    case CommitManifest(m) => s.(manifests := s.manifests + {m})
    case MoveRef => s.(refs := s.refs + [t.phase.call.manifest])
    case Return =>
      var accepted := if t.phase.call.AcceptBlob? then t.accepted + {t.phase.call.blob} else t.accepted;
      s.(devices := s.devices[d := t.(phase := Idle, accepted := accepted)])
    case Fail =>
      s.(devices := s.devices[d := t.(phase := Idle, accepted := {})])
  }

  /** Everything reachable is stored. */
  predicate Closed(s: System) {
    && (forall m :: m in s.manifests ==> s.names(m) <= s.blobs)
    && (forall i :: 0 <= i < |s.refs| ==> s.names(s.refs[i]) <= s.blobs)
  }

  /** Where each accepted or needed blob is. */
  predicate Tracked(s: System, t: Transport) {
    match t.phase
    case Idle => t.accepted <= s.blobs + KeysOf(t.queue)
    case Draining(jobs, call) =>
      && t.queue == [] && t.accepted <= s.blobs + jobs && Needs(s, call) <= s.blobs + jobs
      && (call.AcceptBlob? ==> call.blob in s.blobs + jobs)
    case Publishing(call) =>
      && t.queue == [] && t.accepted <= s.blobs && Needs(s, call) <= s.blobs
      && (call.AcceptBlob? ==> call.blob in s.blobs)
  }

  predicate Invariant(s: System) {
    Closed(s) && forall d :: d in s.devices ==> Tracked(s, s.devices[d])
  }

  /** The caller's side: when a call that publishes begins, every blob it makes reachable is
      stored or still queued on this transport. */
  predicate Covered(s: System, d: Device, step: Step)
    requires Enabled(s, d, step)
  {
    step.Begin? ==> Needs(s, step.call) <= s.blobs + KeysOf(s.devices[d].queue)
  }

  /** Blobs accepted with no failed call since are a way to tell. */
  lemma AcceptedCovers(s: System, d: Device, call: Call)
    requires Invariant(s) && Enabled(s, d, Begin(call))
    requires Needs(s, call) <= s.blobs + s.devices[d].accepted
    ensures Covered(s, d, Begin(call))
  {
    assert Tracked(s, s.devices[d]);
  }

  /** A transport that does nothing stays tracked while the store grows. */
  lemma TrackedElsewhere(s: System, s': System, t: Transport)
    requires Tracked(s, t) && s'.names == s.names && s.blobs <= s'.blobs
    ensures Tracked(s', t)
  {
    assert forall call :: Needs(s', call) == Needs(s, call);
  }

  lemma TrackedHere(s: System, d: Device, step: Step)
    requires Enabled(s, d, step) && Covered(s, d, step) && Tracked(s, s.devices[d])
    ensures Tracked(After(s, d, step), After(s, d, step).devices[d])
  {
    var t, s' := s.devices[d], After(s, d, step);
    assert forall call :: Needs(s', call) == Needs(s, call);
    if step.PutBlob? {
      assert KeysOf(t.queue + [(step.blob, step.size)]) == KeysOf(t.queue) + {step.blob};
    }
  }

  lemma ClosedAfter(s: System, d: Device, step: Step)
    requires Closed(s) && Enabled(s, d, step) && Tracked(s, s.devices[d])
    ensures Closed(After(s, d, step))
  {
    var t, s' := s.devices[d], After(s, d, step);
    forall m | m in s'.manifests
      ensures s'.names(m) <= s'.blobs
    {
      if step.CommitManifest? && m == step.manifest {
        assert forall b :: b in s.names(m) ==> b in Needs(s, t.phase.call);
      }
    }
  }

  lemma StepKeeps(s: System, d: Device, step: Step)
    requires Invariant(s) && Enabled(s, d, step) && Covered(s, d, step)
    ensures Invariant(After(s, d, step))
  {
    var s' := After(s, d, step);
    ClosedAfter(s, d, step);
    TrackedHere(s, d, step);
    forall e | e in s'.devices && e != d
      ensures Tracked(s', s'.devices[e])
    {
      TrackedElsewhere(s, s', s.devices[e]);
    }
  }

  /** A run: which device does what, in any interleaving. */
  predicate Runs(s: System, run: seq<(Device, Step)>)
    decreases |run|
  {
    run == [] || (Enabled(s, run[0].0, run[0].1) && Runs(After(s, run[0].0, run[0].1), run[1..]))
  }

  function End(s: System, run: seq<(Device, Step)>): System
    requires Runs(s, run)
    decreases |run|
  {
    if run == [] then s else End(After(s, run[0].0, run[0].1), run[1..])
  }

  /** A run in which every caller keeps its side. */
  predicate Careful(s: System, run: seq<(Device, Step)>)
    requires Runs(s, run)
    decreases |run|
  {
    run == [] || (Covered(s, run[0].0, run[0].1) && Careful(After(s, run[0].0, run[0].1), run[1..]))
  }

  predicate Fresh(s: System) {
    s.manifests == {} && s.refs == [] && forall d :: d in s.devices ==> s.devices[d] == Transport([], Idle, {})
  }

  /** At every moment of every careful run of any number of devices, every manifest that has a
      row and every manifest the ref ever pointed to has all of its blobs stored. */
  lemma {:induction false} UploadBeforeReference(s: System, run: seq<(Device, Step)>)
    requires (Fresh(s) || Invariant(s)) && Runs(s, run) && Careful(s, run)
    ensures Invariant(End(s, run)) && Closed(End(s, run))
    decreases |run|
  {
    if run != [] {
      StepKeeps(s, run[0].0, run[0].1);
      UploadBeforeReference(After(s, run[0].0, run[0].1), run[1..]);
    }
  }

  // ---- a put is kept ----------------------------------------------------------

  /** What a put of `b` on device `d` does: the blob is queued and accepted, or it is among the jobs
      of a drain that will accept it. */
  lemma PutIsKept(s: System, d: Device, b: BlobKey, size: nat)
    requires Enabled(s, d, PutBlob(b, size))
    ensures var t, t' := s.devices[d], After(s, d, PutBlob(b, size)).devices[d];
      && (t'.phase.Draining? <==> Total(t.queue) + size >= 33_554_432 || |t.queue| + 1 >= 256)
      && (|| (t'.phase.Idle? && KeysOf(t'.queue) == KeysOf(t.queue) + {b} && t'.accepted == t.accepted + {b})
          || (t'.phase == Draining(KeysOf(t.queue) + {b}, AcceptBlob(b)) && t'.queue == [] && t'.accepted == t.accepted))
  {
    var queue := s.devices[d].queue;
    assert (queue + [(b, size)])[..|queue|] == queue;
    assert KeysOf(queue + [(b, size)]) == KeysOf(queue) + {b};
  }

  /** The blob is stored, or on its way from this device. */
  predicate Underway(s: System, d: Device, b: BlobKey) {
    d in s.devices &&
    (b in s.blobs ||
     match s.devices[d].phase
     case Idle => b in KeysOf(s.devices[d].queue)
     case Draining(jobs, _) => b in jobs
     case Publishing(_) => false)
  }

  lemma UnderwayStep(s: System, d: Device, b: BlobKey, e: Device, step: Step)
    requires Underway(s, d, b) && Enabled(s, e, step) && !(e == d && step.Fail?)
    ensures Underway(After(s, e, step), d, b)
  {
    if e == d && step.PutBlob? {
      PutIsKept(s, d, step.blob, step.size);
    }
  }

  lemma {:induction false} UnderwayRun(s: System, d: Device, b: BlobKey, run: seq<(Device, Step)>)
    requires Underway(s, d, b) && Runs(s, run) && (d, Fail) !in run
    ensures Underway(End(s, run), d, b)
    decreases |run|
  {
    if run != [] {
      assert run[0] in run;
      UnderwayStep(s, d, b, run[0].0, run[0].1);
      UnderwayRun(After(s, run[0].0, run[0].1), d, b, run[1..]);
    }
  }

  /** Whatever other devices do, once a device has put a blob and then returns from a call, with no
      failed call of its own in between, the blob is stored. */
  lemma PutIsStored(s: System, d: Device, b: BlobKey, size: nat, between: seq<(Device, Step)>)
    requires Enabled(s, d, PutBlob(b, size))
    requires Runs(After(s, d, PutBlob(b, size)), between) && (d, Fail) !in between
    requires Enabled(End(After(s, d, PutBlob(b, size)), between), d, Return)
    ensures b in End(After(s, d, PutBlob(b, size)), between).blobs
  {
    PutIsKept(s, d, b, size);
    UnderwayRun(After(s, d, PutBlob(b, size)), d, b, between);
  }

  /** Storing is for good: no step removes a blob, and the ref log only grows. */
  lemma {:induction false} StoredStays(s: System, run: seq<(Device, Step)>)
    requires Runs(s, run)
    ensures s.blobs <= End(s, run).blobs && s.manifests <= End(s, run).manifests && s.refs <= End(s, run).refs
    decreases |run|
  {
    if run != [] {
      StoredStays(After(s, run[0].0, run[0].1), run[1..]);
    }
  }

  /** A put that had to drain accepts its blob when it returns, a put of manifests returns with all of
      them and all of their blobs stored, and no return changes the queue. */
  lemma ReturnMeans(s: System, d: Device)
    requires Invariant(s) && Enabled(s, d, Return)
    ensures var t, t' := s.devices[d], After(s, d, Return).devices[d];
      && t'.phase.Idle? && t'.queue == t.queue
      && t'.accepted == t.accepted + (if t.phase.call.AcceptBlob? then {t.phase.call.blob} else {})
      && (t.phase.call.PutManifests? ==>
            forall m :: m in t.phase.call.manifests ==> m in s.manifests && s.names(m) <= s.blobs)
  {
  }

  /** A streamed put is stored when it says so, and only then counted as accepted. */
  lemma StreamedPutMeans(s: System, d: Device, b: BlobKey, stored: bool, ok: bool)
    requires Enabled(s, d, PutBlobReader(b, stored, ok))
    ensures var s' := After(s, d, PutBlobReader(b, stored, ok));
      && (ok ==> b in s'.blobs && s'.devices[d].accepted == s.devices[d].accepted + {b})
      && (!ok ==> s'.devices[d].accepted == {}) && (!stored ==> s'.blobs == s.blobs)
      && s'.devices[d].queue == s.devices[d].queue
  {
  }

  // ---- the caller's side is needed --------------------------------------------

  lemma {:induction false} RunsOn(s: System, first: seq<(Device, Step)>, second: seq<(Device, Step)>)
    requires Runs(s, first) && Runs(End(s, first), second)
    ensures Runs(s, first + second) && End(s, first + second) == End(End(s, first), second)
    ensures Careful(s, first) && Careful(End(s, first), second) ==> Careful(s, first + second)
    decreases |first|
  {
    if first == [] {
      assert first + second == second;
    } else {
      RunsOn(After(s, first[0].0, first[0].1), first[1..], second);
      assert (first + second)[1..] == first[1..] + second;
    }
  }

  /** A drain whose uploads all succeed. */
  lemma {:induction false} DrainsAll(s: System, d: Device) returns (run: seq<(Device, Step)>)
    requires d in s.devices && s.devices[d].phase.Draining?
    ensures Runs(s, run) && Careful(s, run)
    ensures var t := s.devices[d];
      End(s, run) == s.(blobs := s.blobs + t.phase.jobs, devices := s.devices[d := t.(phase := Publishing(t.phase.call))])
    decreases s.devices[d].phase.jobs
  {
    var t := s.devices[d];
    if t.phase.jobs == {} {
      run := [(d, DrainDone)];
      assert run[1..] == [] && s.blobs + {} == s.blobs;
    } else {
      var b :| b in t.phase.jobs;
      var s1 := After(s, d, Upload(b, true));
      var rest := DrainsAll(s1, d);
      run := [(d, Upload(b, true))] + rest;
      assert run[1..] == rest;
      assert s1.blobs + s1.devices[d].phase.jobs == s.blobs + t.phase.jobs;
    }
  }

  /** The step by which a call makes its manifest `m` reachable. */
  function Reaches(call: Call, m: ManifestKey): Step {
    if call.CompareAndSwap? then MoveRef else CommitManifest(m)
  }

  /** An uncovered call has a run, careful from there on, that publishes a manifest without one of
      its blobs. */
  lemma UncoveredPublishes(s: System, d: Device, call: Call) returns (run: seq<(Device, Step)>)
    requires Enabled(s, d, Begin(call)) && !Covered(s, d, Begin(call))
    ensures Runs(s, run) && run != [] && run[0] == (d, Begin(call))
    ensures Careful(After(s, d, Begin(call)), run[1..])
    ensures !Closed(End(s, run))
  {
    var begun := After(s, d, Begin(call));
    var drain := DrainsAll(begun, d);
    var drained := End(begun, drain);
    var b :| b in Needs(s, call) && b !in s.blobs + KeysOf(s.devices[d].queue);
    var m :| b in s.names(m) && (call == CompareAndSwap(m) || (call.PutManifests? && m in call.manifests));
    var last: seq<(Device, Step)> := [(d, Reaches(call, m))];
    assert last[1..] == [];
    assert Runs(drained, last) && Careful(drained, last);
    var end := After(drained, d, Reaches(call, m));
    assert End(end, last[1..]) == end;
    assert End(drained, last) == end;
    assert b !in end.blobs && b in end.names(m);
    assert if call.CompareAndSwap? then end.refs[|end.refs| - 1] == m else m in end.manifests;
    assert !Closed(end);
    RunsOn(begun, drain, last);
    run := [(d, Begin(call))] + (drain + last);
    assert run[1..] == drain + last;
  }

  /** So the law holds from a call on, whatever everyone does carefully afterwards, exactly when
      the call is covered. */
  lemma LawIffCovered(s: System, d: Device, call: Call)
    requires Invariant(s) && Enabled(s, d, Begin(call))
    ensures Covered(s, d, Begin(call)) <==>
      forall run :: Runs(s, run) && run != [] && run[0] == (d, Begin(call)) && Careful(After(s, d, Begin(call)), run[1..]) ==>
        Closed(End(s, run))
  {
    if Covered(s, d, Begin(call)) {
      forall run | Runs(s, run) && run != [] && run[0] == (d, Begin(call)) && Careful(After(s, d, Begin(call)), run[1..])
        ensures Closed(End(s, run))
      {
        UploadBeforeReference(s, run);
      }
    } else {
      var run := UncoveredPublishes(s, d, call);
    }
  }

  /** How a call comes to be uncovered: the drain empties the queue before it uploads. A blob
      accepted before a failed settle is in neither the queue nor the store, and a manifest that
      names it is uncovered. */
  lemma FailedDrainForgets(s: System, d: Device, b: BlobKey, m: ManifestKey)
    requires Fresh(s) && d in s.devices && b !in s.blobs && b in s.names(m)
    ensures var run := [(d, PutBlob(b, 1)), (d, Begin(Settle)), (d, Fail)];
      && Runs(s, run) && Careful(s, run)
      && Enabled(End(s, run), d, Begin(CompareAndSwap(m)))
      && !Covered(End(s, run), d, Begin(CompareAndSwap(m)))
  {
    assert ([] + [(b, 1)])[..0] == [] && Total([]) == 0;
    assert Total([] + [(b, 1)]) == 1;
    var s1 := After(s, d, PutBlob(b, 1));
    var s2 := After(s1, d, Begin(Settle));
    var s3 := After(s2, d, Fail);
    var last: seq<(Device, Step)> := [(d, Fail)];
    var rest: seq<(Device, Step)> := [(d, Begin(Settle))] + last;
    var run: seq<(Device, Step)> := [(d, PutBlob(b, 1))] + rest;
    assert run == [(d, PutBlob(b, 1)), (d, Begin(Settle)), (d, Fail)];
    assert run[1..] == rest && rest[1..] == last && last[1..] == [];
    assert Runs(s3, last[1..]) && End(s3, last[1..]) == s3;
    assert Runs(s2, last) && End(s2, last) == s3 && Careful(s2, last);
    assert Runs(s1, rest) && End(s1, rest) == s3 && Careful(s1, rest);
  }
}
