/**
 Storage garbage collection: planning and executing byte deletes (`bowline-storage/src/gc.rs`)
 and the bounded multi-pass sweep over the control plane (`bowline-control-plane/src/gc.rs`).
 Others may change rows and bytes before any remote operation, and any operation may fail.
 */
module StorageGc {
  import opened Prelude

  const MAX_SWEEP_PASSES: nat := 4

  type Key = nat

  datatype RetentionState = Pending | Current | OrphanCandidate | Retained | DeleteEligible

  datatype ObjectRef = ObjectRef(
    key: Key,
    retention: RetentionState,
    byCurrentHead: bool,
    bySnapshot: Option<nat>,
    byWorkViewBase: bool,
    byActiveOverlay: bool,
    verified: bool)

  datatype Report = Report(
    deleted: seq<Key>,
    skipped: seq<Key>,
    failures: seq<Key>,
    metadataDeleted: seq<Key>,
    metadataFailures: seq<Key>)
  {
    function Unfinished(): nat { |skipped| + |failures| + |metadataFailures| }
  }

  datatype Verdict = Converged | Stalled(unfinished: nat) | BudgetExhausted(unfinished: nat)

  datatype Sweep = Sweep(passes: seq<Report>, verdict: Verdict)

  // ---- what a listing condemns -------------------------------------------------

  predicate Referenced(o: ObjectRef) {
    o.byCurrentHead || o.bySnapshot.Some? || o.byWorkViewBase || o.byActiveOverlay
  }

  predicate Condemned(o: ObjectRef) {
    !Referenced(o) && o.verified && o.retention == DeleteEligible
  }

  /** The keys of the condemned rows, in listing order. */
  function Doomed(listing: seq<ObjectRef>): seq<Key> {
    if listing == [] then []
    else
      var last := listing[|listing| - 1];
      if Condemned(last) then Doomed(listing[..|listing| - 1]) + [last.key] else Doomed(listing[..|listing| - 1])
  }

  function Kept(listing: seq<ObjectRef>): seq<Key> {
    if listing == [] then []
    else
      var last := listing[|listing| - 1];
      if Condemned(last) then Kept(listing[..|listing| - 1]) else Kept(listing[..|listing| - 1]) + [last.key]
  }

  lemma {:induction false} DoomedHas(listing: seq<ObjectRef>, key: Key)
    ensures key in Doomed(listing) <==> exists o :: o in listing && Condemned(o) && o.key == key
    ensures forall o: ObjectRef :: Condemned(o) <==>
      && !o.byCurrentHead && o.bySnapshot == None && !o.byWorkViewBase && !o.byActiveOverlay
      && o.verified && o.retention == DeleteEligible
  {
    if listing != [] {
      DoomedHas(listing[..|listing| - 1], key);
      assert listing == listing[..|listing| - 1] + [listing[|listing| - 1]];
    }
  }

  /** Rows sharing a key are condemned together. Distinct keys give this. */
  ghost predicate Agreeing(listing: seq<ObjectRef>) {
    forall o, p :: o in listing && p in listing && o.key == p.key ==> (Condemned(o) <==> Condemned(p))
  }

  ghost predicate DistinctKeys(listing: seq<ObjectRef>) {
    forall i, j :: 0 <= i < j < |listing| ==> listing[i].key != listing[j].key
  }

  /** No object that some row shows as referenced, unverified or not delete-eligible is condemned,
      exactly when rows sharing a key agree. */
  lemma SparesRetained(listing: seq<ObjectRef>)
    ensures Agreeing(listing) <==> forall o :: o in listing && !Condemned(o) ==> o.key !in Doomed(listing)
    ensures DistinctKeys(listing) ==> Agreeing(listing)
    // The same in the rows' own flags.
    ensures DistinctKeys(listing) ==>
      forall o: ObjectRef :: o in listing && o.key in Doomed(listing) ==>
        && !o.byCurrentHead && o.bySnapshot == None && !o.byWorkViewBase && !o.byActiveOverlay
        && o.verified && o.retention == DeleteEligible
  {
    forall o | o in listing
      ensures o.key in Doomed(listing) <==> exists p :: p in listing && Condemned(p) && p.key == o.key
    {
      DoomedHas(listing, o.key);
    }
    if DistinctKeys(listing) {
      forall o, p | o in listing && p in listing && o.key == p.key
        ensures o == p
      {
        var i :| 0 <= i < |listing| && listing[i] == o;
        var j :| 0 <= j < |listing| && listing[j] == p;
        assert i == j;
      }
    }
  }

  /** The planner does not merge rows by key: an object at the current head goes when a second row
      for it is unreferenced. */
  lemma DisagreeingRowsCondemn(key: Key)
    ensures
      var head := ObjectRef(key, Current, true, None, false, false, true);
      var stray := ObjectRef(key, DeleteEligible, false, None, false, false, true);
      Doomed([head, stray]) == [head.key]
  {
    var head := ObjectRef(key, Current, true, None, false, false, true);
    var stray := ObjectRef(key, DeleteEligible, false, None, false, false, true);
    assert [head, stray][..1] == [head] && [head][..0] == [];
    assert Doomed([head]) == [];
  }

  // ---- what is left ------------------------------------------------------------

  /** The rows whose key is not among `keys`. */
  function Without(rows: seq<ObjectRef>, keys: set<Key>): (r: seq<ObjectRef>) {
    if rows == [] then []
    else
      var last := rows[|rows| - 1];
      if last.key in keys then Without(rows[..|rows| - 1], keys) else Without(rows[..|rows| - 1], keys) + [last]
  }

  lemma {:induction false} WithoutOneMore(rows: seq<ObjectRef>, keys: set<Key>, key: Key)
    ensures Without(Without(rows, keys), {key}) == Without(rows, keys + {key})
  {
    if rows != [] {
      var front, last := rows[..|rows| - 1], rows[|rows| - 1];
      WithoutOneMore(front, keys, key);
      if last.key !in keys {
        assert (Without(front, keys) + [last])[..|Without(front, keys)|] == Without(front, keys);
      }
    }
  }

  lemma {:induction false} WithoutHas(rows: seq<ObjectRef>, keys: set<Key>)
    ensures forall o :: o in Without(rows, keys) <==> o in rows && o.key !in keys
    ensures keys == {} ==> Without(rows, keys) == rows
  {
    if rows != [] {
      WithoutHas(rows[..|rows| - 1], keys);
      assert rows == rows[..|rows| - 1] + [rows[|rows| - 1]];
    }
  }

  function KeySet(keys: seq<Key>): set<Key> { set k | k in keys }

  /** A clean pass leaves nothing condemned. */
  lemma CleanPassLeaves(rows: seq<ObjectRef>)
    ensures Doomed(Without(rows, KeySet(Doomed(rows)))) == []
    ensures Doomed(rows) == [] ==> Without(rows, KeySet(Doomed(rows))) == rows
  {
    var left := Without(rows, KeySet(Doomed(rows)));
    assert Doomed(left) != [] ==> Doomed(left)[0] in Doomed(left);
    WithoutHas(rows, KeySet(Doomed(rows)));
    forall k
      ensures k !in Doomed(left)
    {
      DoomedHas(left, k);
      DoomedHas(rows, k);
    }
  }

  /** When rows sharing a key agree, a clean pass removes the condemned rows and no others. */
  lemma CleanPassKeeps(rows: seq<ObjectRef>)
    requires Agreeing(rows)
    ensures forall o :: o in Without(rows, KeySet(Doomed(rows))) <==> o in rows && !Condemned(o)
  {
    WithoutHas(rows, KeySet(Doomed(rows)));
    SparesRetained(rows);
    forall o | o in rows && Condemned(o)
      ensures o.key in Doomed(rows)
    {
      DoomedHas(rows, o.key);
    }
  }

  // ---- planning ----------------------------------------------------------------

  /** `plan_gc`. */
  method PlanGc(objects: seq<ObjectRef>) returns (retained: seq<Key>, candidates: seq<Key>)
    ensures candidates == Doomed(objects) && retained == Kept(objects)
  {
    retained, candidates := [], [];
    for i := 0 to |objects|
      invariant candidates == Doomed(objects[..i]) && retained == Kept(objects[..i])
    {
      var o := objects[i];
      assert objects[..i + 1][..i] == objects[..i];
      if o.byCurrentHead || o.bySnapshot.Some? || o.byWorkViewBase || o.byActiveOverlay || !o.verified {
        retained := retained + [o.key];
        continue;
      }
      match o.retention {
        case DeleteEligible => candidates := candidates + [o.key];
        case _ => retained := retained + [o.key];
      }
    }
    assert objects[..|objects|] == objects;
  }

  /** Every listed key is planned for exactly one fate. */
  lemma {:induction false} PlanPartitions(objects: seq<ObjectRef>)
    ensures multiset(Doomed(objects)) + multiset(Kept(objects)) == multiset(seq(|objects|, i requires 0 <= i < |objects| => objects[i].key))
  {
    var keys := seq(|objects|, i requires 0 <= i < |objects| => objects[i].key);
    if objects != [] {
      var front, last := objects[..|objects| - 1], objects[|objects| - 1];
      PlanPartitions(front);
      assert keys == seq(|front|, i requires 0 <= i < |front| => front[i].key) + [last.key];
    }
  }

  // ---- the remote side ---------------------------------------------------------

  /** What the remote side saw: a listing it showed, or a deletion it was asked for and what it
      answered. */
  datatype Act = Listed(listing: seq<ObjectRef>) | Bytes(key: Key, ok: bool) | Row(key: Key, ok: bool)

  /** A key asked for and the answer to it. */
  type Answer = (Key, bool)

  /** One workspace's metadata rows in the control plane and its bytes in the object store. */
  class Remote {
    var rows: seq<ObjectRef>
    var bytes: set<Key>
    /** Nothing has failed and nobody else has acted so far. */
    ghost var quiet: bool
    /** Everything shown and answered, in order. */
    ghost var log: seq<Act>
    /** How many listings failed. */
    ghost var unlisted: nat

    constructor (rows: seq<ObjectRef>, bytes: set<Key>)
      ensures this.rows == rows && this.bytes == bytes && quiet && log == [] && unlisted == 0
    {
      this.rows, this.bytes, quiet, log, unlisted := rows, bytes, true, [], 0;
    }

    /** Anyone else may act here. */
    method Interfere()
      modifies this`rows, this`bytes, this`quiet
      ensures quiet ==> old(quiet) && rows == old(rows) && bytes == old(bytes)
    {
      var acts: bool := *;
      if acts {
        rows, bytes, quiet := *, *, false;
      }
    }

    /** `list_storage_gc_objects`. */
    method ListObjects() returns (r: Option<seq<ObjectRef>>)
      modifies this
      ensures quiet ==> old(quiet) && rows == old(rows) && bytes == old(bytes) && r == Some(rows)
      ensures r.Some? ==> r.value == rows
      ensures log == if r.Some? then old(log) + [Listed(r.value)] else old(log)
      ensures unlisted == if r.Some? then old(unlisted) else old(unlisted) + 1
    {
      Interfere();
      var fails: bool := *;
      if fails {
        quiet, unlisted := false, unlisted + 1;
        return None;
      }
      log := log + [Listed(rows)];
      return Some(rows);
    }

    /** `delete_object`: absent bytes delete cleanly; a failed delete may still have taken effect. */
    method DeleteBytes(key: Key) returns (ok: bool)
      modifies this
      ensures log == old(log) + [Bytes(key, ok)] && unlisted == old(unlisted)
      ensures ok ==> key !in bytes
      ensures quiet ==> old(quiet) && ok && rows == old(rows) && bytes == old(bytes) - {key}
    {
      Interfere();
      ok := *;
      log := log + [Bytes(key, ok)];
      var acts: bool := *;
      quiet := quiet && ok;
      if ok || acts {
        bytes := bytes - {key};
      }
    }

    /** `delete_object_metadata_after_gc`: an absent row counts as deleted. */
    method DeleteRow(key: Key) returns (ok: bool)
      modifies this
      ensures log == old(log) + [Row(key, ok)] && unlisted == old(unlisted)
      ensures ok ==> forall o :: o in rows ==> o.key != key
      ensures quiet ==> old(quiet) && ok && rows == Without(old(rows), {key}) && bytes == old(bytes)
    {
      Interfere();
      ok := *;
      log := log + [Row(key, ok)];
      var acts: bool := *;
      quiet := quiet && ok;
      if ok || acts {
        WithoutHas(rows, {key});
        rows := Without(rows, {key});
      }
    }

    // ---- one pass --------------------------------------------------------------

    /** `execute_gc_plan`. Planned keys the latest listing no longer condemns are skipped; every
        other one is asked for once, in order, and reported as the store answered. */
    method ExecuteGcPlan(planned: seq<Key>, latest: seq<ObjectRef>)
      returns (deleted: seq<Key>, skipped: seq<Key>, failures: seq<Key>, ghost answers: seq<Answer>)
      modifies this
      ensures skipped == Among(planned, KeySet(Doomed(latest)), false)
      ensures log == old(log) + ByteActs(answers) && KeysOf(answers) == Among(planned, KeySet(Doomed(latest)), true)
      ensures deleted == Said(answers, true) && failures == Said(answers, false) && unlisted == old(unlisted)
      ensures quiet ==> old(quiet) && rows == old(rows) && failures == []
      ensures quiet ==> bytes == old(bytes) - KeySet(KeysOf(answers))
    {
      var _, latestCandidates := PlanGc(latest);
      var condemned := KeySet(latestCandidates);
      deleted, skipped, failures, answers := [], [], [], [];
      for i := 0 to |planned|
        invariant KeysOf(answers) == Among(planned[..i], condemned, true)
        invariant skipped == Among(planned[..i], condemned, false)
        invariant log == old(log) + ByteActs(answers)
        invariant deleted == Said(answers, true) && failures == Said(answers, false) && unlisted == old(unlisted)
        invariant quiet ==> old(quiet) && rows == old(rows) && failures == []
        invariant quiet ==> bytes == old(bytes) - KeySet(KeysOf(answers))
      {
        var key := planned[i];
        assert planned[..i + 1][..i] == planned[..i];
        if key !in condemned {
          skipped := skipped + [key];
          continue;
        }
        var ok := DeleteBytes(key);
        AnswersMore(answers, key, ok);
        ByteActsMore(old(log), answers, key, ok);
        KeySetStep(old(bytes), KeysOf(answers), key);
        answers := answers + [(key, ok)];
        if ok {
          deleted := deleted + [key];
        } else {
          failures := failures + [key];
        }
      }
      assert planned[..|planned|] == planned;
    }

    /** The metadata half of `sweep_storage_gc`: each row is asked for once, in order, and reported
        as the control plane answered. */
    method DeleteRows(keys: seq<Key>) returns (deleted: seq<Key>, failures: seq<Key>, ghost answers: seq<Answer>)
      modifies this
      ensures log == old(log) + RowActs(answers) && KeysOf(answers) == keys
      ensures deleted == Said(answers, true) && failures == Said(answers, false) && unlisted == old(unlisted)
      ensures quiet ==> old(quiet) && failures == []
      ensures quiet ==> rows == Without(old(rows), KeySet(keys)) && bytes == old(bytes)
    {
      deleted, failures, answers := [], [], [];
      WithoutHas(rows, {});
      assert KeySet(keys[..0]) == {};
      for i := 0 to |keys|
        invariant KeysOf(answers) == keys[..i]
        invariant log == old(log) + RowActs(answers)
        invariant deleted == Said(answers, true) && failures == Said(answers, false) && unlisted == old(unlisted)
        invariant quiet ==> old(quiet) && failures == []
        invariant quiet ==> rows == Without(old(rows), KeySet(keys[..i])) && bytes == old(bytes)
      {
        ghost var done := keys[..i];
        assert keys[..i + 1] == done + [keys[i]];
        KeySetStep({}, done, keys[i]);
        WithoutOneMore(old(rows), KeySet(done), keys[i]);
        var ok := DeleteRow(keys[i]);
        AnswersMore(answers, keys[i], ok);
        RowActsMore(old(log), answers, keys[i], ok);
        answers := answers + [(keys[i], ok)];
        if ok {
          deleted := deleted + [keys[i]];
        } else {
          failures := failures + [keys[i]];
        }
      }
      assert keys[..|keys|] == keys;
    }

    /** `sweep_storage_gc`. `p` is what the remote showed and answered; it determines the report. */
    method SweepStorageGc() returns (r: Option<Report>, ghost p: Pass)
      modifies this
      ensures r == None ==> !quiet && log == old(log)
      ensures unlisted == if r == None then old(unlisted) + 1 else old(unlisted)
      ensures r.Some? ==> InOrder(p) && log == AfterPass(old(log), p) && r.value == ReportOf(p)
      ensures quiet ==> old(quiet) && r.Some? && p.listing == old(rows) && r.value == Clean(p.listing)
      ensures quiet ==> rows == Without(old(rows), KeySet(Doomed(p.listing))) && bytes == old(bytes) - KeySet(Doomed(p.listing))
    {
      p := Pass([], [], []);
      var listed := ListObjects();
      if listed == None {
        return None, p;
      }
      var _, candidates := PlanGc(listed.value);
      AmongAll(candidates, KeySet(candidates));
      var deleted, skipped, failures, answers := ExecuteGcPlan(candidates, listed.value);
      var metadataDeleted, metadataFailures, rowAnswers := DeleteRows(deleted);
      r := Some(Report(deleted, skipped, failures, metadataDeleted, metadataFailures));
      p := Pass(listed.value, answers, rowAnswers);
      SaidPartitions(answers);
      SaidPartitions(rowAnswers);
    }

    // ---- the whole sweep ---------------------------------------------------------

    /** `sweep_storage_gc_until_converged`. `history` is what the remote showed and answered in each
        completed pass, also when a later listing fails. */
    method SweepUntilConverged() returns (r: Option<Sweep>, ghost history: seq<Pass>)
      modifies this
      // Whatever fails and whoever interferes, the remote is asked for exactly these passes, the
      // reports are its answers and the verdict is what they show.
      ensures Orderly(history) && log == AfterPasses(old(log), history)
      ensures r == None <==> unlisted != old(unlisted)
      ensures r.Some? ==> Explained(r.value, history)
      // Undisturbed, two passes at most settle any state of rows and bytes.
      ensures quiet ==> old(quiet) && r.Some? && r.value.verdict == Converged
      ensures quiet ==> |history| == if Doomed(old(rows)) == [] then 1 else 2
      ensures quiet ==> Doomed(rows) == [] && rows == Without(old(rows), KeySet(Doomed(old(rows))))
      ensures quiet ==> bytes == old(bytes) - KeySet(Doomed(old(rows)))
    {
      var done: seq<Report> := [];
      history := [];
      for n := 0 to MAX_SWEEP_PASSES
        invariant |done| == n && Progressing(done, history)
        invariant log == AfterPasses(old(log), history) && unlisted == old(unlisted)
        invariant quiet ==> old(quiet) && Settling(n, old(rows), old(bytes), rows, bytes)
      {
        ghost var rows1, bytes1 := rows, bytes;
        var report, p := SweepStorageGc();
        if report == None {
          return None, history;
        }
        if quiet {
          Settle(n, old(rows), old(bytes), rows1, bytes1, rows, bytes);
        }
        AfterMore(old(log), history, p);
        var verdict := Judge(done, report.value, history, p);
        done, history := done + [report.value], history + [p];
        if verdict.Some? {
          return Some(Sweep(done, verdict.value)), history;
        }
      }
      Exhausted(done, history);
      r := Some(Sweep(done, BudgetExhausted(done[|done| - 1].Unfinished())));
    }
  }

  /** Whether the sweep stops after a pass, and with what verdict. */
  method Judge(done: seq<Report>, rep: Report, ghost history: seq<Pass>, ghost p: Pass) returns (verdict: Option<Verdict>)
    requires Progressing(done, history) && |done| < MAX_SWEEP_PASSES && InOrder(p) && rep == ReportOf(p)
    ensures verdict.Some? ==> Explained(Sweep(done + [rep], verdict.value), history + [p])
    ensures verdict == Some(Converged) <==> Doomed(p.listing) == []
    ensures verdict == None <==> rep.metadataDeleted != []
    ensures Orderly(history + [p])
    ensures verdict == None ==> Progressing(done + [rep], history + [p])
  {
    Explain(done, history, p);
    if rep.deleted == [] && rep.Unfinished() == 0 {
      return Some(Converged);
    }
    if rep.metadataDeleted == [] {
      return Some(Stalled(rep.Unfinished()));
    }
    return None;
  }

  // ---- answers and the acts they leave -----------------------------------------

  /** The members of `keys` that are in `of`, or those that are not, in order. */
  function Among(keys: seq<Key>, of: set<Key>, member: bool): seq<Key> {
    if keys == [] then []
    else
      var last := keys[|keys| - 1];
      if (last in of) == member then Among(keys[..|keys| - 1], of, member) + [last]
      else Among(keys[..|keys| - 1], of, member)
  }

  lemma {:induction false} AmongAll(keys: seq<Key>, of: set<Key>)
    requires KeySet(keys) <= of
    ensures Among(keys, of, true) == keys && Among(keys, of, false) == []
  {
    if keys != [] {
      var last := keys[|keys| - 1];
      assert keys == keys[..|keys| - 1] + [last] && last in KeySet(keys);
      assert KeySet(keys[..|keys| - 1]) <= KeySet(keys);
      AmongAll(keys[..|keys| - 1], of);
    }
  }

  function KeysOf(answers: seq<Answer>): seq<Key> {
    if answers == [] then [] else KeysOf(answers[..|answers| - 1]) + [answers[|answers| - 1].0]
  }

  /** The keys given this answer, in order. */
  function Said(answers: seq<Answer>, b: bool): seq<Key> {
    if answers == [] then []
    else
      var last := answers[|answers| - 1];
      if last.1 == b then Said(answers[..|answers| - 1], b) + [last.0] else Said(answers[..|answers| - 1], b)
  }

  function ByteActs(answers: seq<Answer>): seq<Act> {
    if answers == [] then []
    else ByteActs(answers[..|answers| - 1]) + [Bytes(answers[|answers| - 1].0, answers[|answers| - 1].1)]
  }

  function RowActs(answers: seq<Answer>): seq<Act> {
    if answers == [] then []
    else RowActs(answers[..|answers| - 1]) + [Row(answers[|answers| - 1].0, answers[|answers| - 1].1)]
  }

  lemma AnswersMore(answers: seq<Answer>, key: Key, b: bool)
    ensures KeysOf(answers + [(key, b)]) == KeysOf(answers) + [key]
    ensures Said(answers + [(key, b)], b) == Said(answers, b) + [key]
    ensures Said(answers + [(key, b)], !b) == Said(answers, !b)
  {
    assert (answers + [(key, b)])[..|answers|] == answers;
  }

  lemma ByteActsMore(log: seq<Act>, answers: seq<Answer>, key: Key, b: bool)
    ensures log + ByteActs(answers) + [Bytes(key, b)] == log + ByteActs(answers + [(key, b)])
  {
    assert (answers + [(key, b)])[..|answers|] == answers;
  }

  lemma RowActsMore(log: seq<Act>, answers: seq<Answer>, key: Key, b: bool)
    ensures log + RowActs(answers) + [Row(key, b)] == log + RowActs(answers + [(key, b)])
  {
    assert (answers + [(key, b)])[..|answers|] == answers;
  }

  /** Yes and no partition the keys asked for; all yes means all of them. */
  lemma {:induction false} SaidPartitions(answers: seq<Answer>)
    ensures multiset(Said(answers, true)) + multiset(Said(answers, false)) == multiset(KeysOf(answers))
    ensures Said(answers, false) == [] ==> Said(answers, true) == KeysOf(answers)
  {
    if answers != [] {
      SaidPartitions(answers[..|answers| - 1]);
    }
  }

  lemma KeySetStep(whole: set<Key>, keys: seq<Key>, key: Key)
    ensures KeySet(keys + [key]) == KeySet(keys) + {key}
    ensures whole - KeySet(keys) - {key} == whole - KeySet(keys + [key])
  {
  }

  // ---- passes ------------------------------------------------------------------

  /** What the remote showed and answered in one pass. */
  datatype Pass = Pass(listing: seq<ObjectRef>, bytes: seq<Answer>, rows: seq<Answer>)

  /** Bytes are asked for exactly for the condemned keys, then rows exactly for those whose bytes
      were deleted. */
  ghost predicate InOrder(p: Pass) {
    KeysOf(p.bytes) == Doomed(p.listing) && KeysOf(p.rows) == Said(p.bytes, true)
  }

  function ReportOf(p: Pass): Report {
    Report(Said(p.bytes, true), [], Said(p.bytes, false), Said(p.rows, true), Said(p.rows, false))
  }

  function AfterPass(log: seq<Act>, p: Pass): seq<Act> {
    log + [Listed(p.listing)] + ByteActs(p.bytes) + RowActs(p.rows)
  }

  function AfterPasses(log: seq<Act>, history: seq<Pass>): seq<Act> {
    if history == [] then log else AfterPass(AfterPasses(log, history[..|history| - 1]), history[|history| - 1])
  }

  lemma AfterMore(log: seq<Act>, history: seq<Pass>, p: Pass)
    ensures AfterPasses(log, history + [p]) == AfterPass(AfterPasses(log, history), p)
  {
    assert (history + [p])[..|history|] == history;
  }

  ghost predicate Orderly(history: seq<Pass>) {
    forall i :: 0 <= i < |history| ==> InOrder(history[i])
  }

  function Clean(listing: seq<ObjectRef>): Report {
    Report(Doomed(listing), [], [], Doomed(listing), [])
  }

  /** A pass accounts for every key its listing condemned, at both steps. */
  lemma PassPartitions(p: Pass)
    requires InOrder(p)
    ensures var rep := ReportOf(p);
      && multiset(rep.deleted) + multiset(rep.failures) == multiset(Doomed(p.listing))
      && multiset(rep.metadataDeleted) + multiset(rep.metadataFailures) == multiset(rep.deleted)
  {
    SaidPartitions(p.bytes);
    SaidPartitions(p.rows);
  }

  lemma PassCounts(p: Pass)
    requires InOrder(p)
    ensures var rep := ReportOf(p);
      && rep.Unfinished() + |rep.metadataDeleted| == |Doomed(p.listing)|
      && (rep.deleted == [] && rep.Unfinished() == 0 <==> Doomed(p.listing) == [])
      && (rep.metadataDeleted != [] ==> Doomed(p.listing) != [])
  {
    var rep := ReportOf(p);
    PassPartitions(p);
    assert |multiset(rep.deleted)| + |multiset(rep.failures)| == |multiset(Doomed(p.listing))|;
    assert |multiset(rep.metadataDeleted)| + |multiset(rep.metadataFailures)| == |multiset(rep.deleted)|;
  }

  /** Undisturbed, the first pass to find anything condemned leaves what `Without` describes. */
  ghost predicate Settling(n: nat, rows0: seq<ObjectRef>, bytes0: set<Key>, rows: seq<ObjectRef>, bytes: set<Key>) {
    if n == 0 then rows == rows0 && bytes == bytes0
    else
      && n == 1 && Doomed(rows0) != []
      && rows == Without(rows0, KeySet(Doomed(rows0))) && bytes == bytes0 - KeySet(Doomed(rows0))
  }

  lemma Settle(n: nat, rows0: seq<ObjectRef>, bytes0: set<Key>, rows1: seq<ObjectRef>, bytes1: set<Key>,
               rows: seq<ObjectRef>, bytes: set<Key>)
    requires Settling(n, rows0, bytes0, rows1, bytes1)
    requires rows == Without(rows1, KeySet(Doomed(rows1))) && bytes == bytes1 - KeySet(Doomed(rows1))
    ensures Doomed(rows1) == [] <==> n == 1 || Doomed(rows0) == []
    ensures Doomed(rows1) != [] ==> Settling(n + 1, rows0, bytes0, rows, bytes)
    ensures Doomed(rows1) == [] ==>
      Doomed(rows) == [] && rows == Without(rows0, KeySet(Doomed(rows0))) && bytes == bytes0 - KeySet(Doomed(rows0))
  {
    CleanPassLeaves(rows0);
    CleanPassLeaves(rows1);
  }

  // ---- what the verdict says ---------------------------------------------------

  /** The reports are those of the passes. */
  ghost predicate Reported(done: seq<Report>, history: seq<Pass>) {
    |done| == |history| && forall i :: 0 <= i < |done| ==> done[i] == ReportOf(history[i])
  }

  /** Each of the passes removed a row. */
  predicate RowsRemoved(passes: seq<Report>) {
    forall i :: 0 <= i < |passes| ==> passes[i].metadataDeleted != []
  }

  ghost predicate Progressing(done: seq<Report>, history: seq<Pass>) {
    Reported(done, history) && Orderly(history) && RowsRemoved(done)
  }

  lemma ReportedMore(done: seq<Report>, history: seq<Pass>, p: Pass)
    requires Reported(done, history) && Orderly(history) && InOrder(p)
    ensures Reported(done + [ReportOf(p)], history + [p]) && Orderly(history + [p])
  {
    var d, h := done + [ReportOf(p)], history + [p];
    forall i | 0 <= i < |h|
      ensures d[i] == ReportOf(h[i]) && InOrder(h[i])
    {
      if i < |history| {
        assert d[i] == done[i] && h[i] == history[i];
      }
    }
  }

  /** One more pass either explains a verdict or is progress. */
  lemma Explain(done: seq<Report>, history: seq<Pass>, p: Pass)
    requires Progressing(done, history) && |done| < MAX_SWEEP_PASSES && InOrder(p)
    ensures var rep := ReportOf(p);
      && (rep.deleted == [] && rep.Unfinished() == 0 <==> Doomed(p.listing) == [])
      && (rep.metadataDeleted != [] ==> Doomed(p.listing) != [] && Progressing(done + [rep], history + [p]))
      && (Doomed(p.listing) == [] ==> Explained(Sweep(done + [rep], Converged), history + [p]))
      && (Doomed(p.listing) != [] && rep.metadataDeleted == [] ==>
            Explained(Sweep(done + [rep], Stalled(rep.Unfinished())), history + [p]))
    ensures Orderly(history + [p])
  {
    PassCounts(p);
    ReportedMore(done, history, p);
    assert (done + [ReportOf(p)])[..|done|] == done;
  }

  /** A budget of passes that all made progress is exhausted. */
  lemma Exhausted(done: seq<Report>, history: seq<Pass>)
    requires Progressing(done, history) && |done| == MAX_SWEEP_PASSES
    ensures Explained(Sweep(done, BudgetExhausted(done[|done| - 1].Unfinished())), history)
  {
    PassCounts(history[|done| - 1]);
  }

  /** The verdict in terms of what the passes saw: every pass before the last removed a row; the
      last one found nothing to delete, removed no row of the `unfinished` it should have, or was
      the last of the budget. */
  ghost predicate Explained(s: Sweep, history: seq<Pass>) {
    && 0 < |s.passes| <= MAX_SWEEP_PASSES && Reported(s.passes, history) && Orderly(history)
    && RowsRemoved(s.passes[..|s.passes| - 1])
    && var shown, last := Doomed(history[|history| - 1].listing), s.passes[|history| - 1];
       && (s.verdict.Converged? <==> shown == [])
       && (s.verdict.Stalled? <==> shown != [] && last.metadataDeleted == [])
       && (s.verdict.Stalled? ==> s.verdict.unfinished == |shown|)
       && (s.verdict.BudgetExhausted? ==> |history| == MAX_SWEEP_PASSES)
       && (s.verdict.BudgetExhausted? ==> s.verdict.unfinished == |shown| - |last.metadataDeleted|)
  }

  // ---- what a sweep may delete -------------------------------------------------

  /** The listing condemns the key; and if it names every object once, it shows no row for it that
      is referenced, unverified or not delete-eligible. */
  ghost predicate Condemns(listing: seq<ObjectRef>, key: Key) {
    && key in Doomed(listing)
    && (DistinctKeys(listing) ==> forall o: ObjectRef :: o in listing && o.key == key ==> Condemned(o))
  }

  /** A deletion comes after a listing, the latest one, that condemns its key; a row's also after
      its bytes were deleted since that listing. */
  ghost predicate Justified(log: seq<Act>, i: nat)
    requires i < |log|
  {
    match log[i]
    case Listed(_) => true
    case Bytes(key, _) => exists j :: LatestListing(log, j, i) && Condemns(log[j].listing, key)
    case Row(key, _) =>
      exists j, k :: LatestListing(log, j, i) && Condemns(log[j].listing, key) && j < k < i && log[k] == Bytes(key, true)
  }

  ghost predicate LatestListing(log: seq<Act>, j: int, i: nat)
    requires i < |log|
  {
    0 <= j < i && log[j].Listed? && forall k :: j < k < i ==> !log[k].Listed?
  }

  lemma {:induction false} ActsAt(answers: seq<Answer>)
    ensures |ByteActs(answers)| == |RowActs(answers)| == |KeysOf(answers)| == |answers|
    ensures forall i :: 0 <= i < |answers| ==>
      && ByteActs(answers)[i] == Bytes(answers[i].0, answers[i].1)
      && RowActs(answers)[i] == Row(answers[i].0, answers[i].1)
      && KeysOf(answers)[i] == answers[i].0
  {
    if answers != [] {
      ActsAt(answers[..|answers| - 1]);
    }
  }

  lemma {:induction false} SaidYes(answers: seq<Answer>, key: Key) returns (i: nat)
    requires key in Said(answers, true)
    ensures i < |answers| && answers[i] == (key, true)
  {
    var n := |answers| - 1;
    if answers[n] == (key, true) {
      i := n;
    } else {
      i := SaidYes(answers[..n], key);
    }
  }

  lemma DoomedIsCondemned(listing: seq<ObjectRef>, key: Key)
    requires key in Doomed(listing)
    ensures Condemns(listing, key)
  {
    SparesRetained(listing);
  }

  /** Where a pass put its acts. */
  lemma PassAt(log: seq<Act>, p: Pass)
    ensures var after, n, m := AfterPass(log, p), |log| + 1, |p.bytes|;
      && |after| == n + m + |p.rows| && log <= after && after[|log|] == Listed(p.listing)
      && (forall i :: 0 <= i < m ==> after[n + i] == Bytes(p.bytes[i].0, p.bytes[i].1))
      && (forall i :: 0 <= i < |p.rows| ==> after[n + m + i] == Row(p.rows[i].0, p.rows[i].1))
  {
    ActsAt(p.bytes);
    ActsAt(p.rows);
    var bytes, rows := ByteActs(p.bytes), RowActs(p.rows);
    assert forall i :: 0 <= i < |bytes| ==> AfterPass(log, p)[|log| + 1 + i] == bytes[i];
    assert forall i :: 0 <= i < |rows| ==> AfterPass(log, p)[|log| + 1 + |bytes| + i] == rows[i];
  }

  lemma PassLength(log: seq<Act>, p: Pass)
    ensures var after := AfterPass(log, p);
      |after| == |log| + 1 + |p.bytes| + |p.rows| && after[|log|] == Listed(p.listing)
  {
    PassAt(log, p);
  }

  lemma BytesJustified(log: seq<Act>, p: Pass, i: nat)
    requires InOrder(p) && i < |p.bytes|
    ensures var after := AfterPass(log, p); |log| + 1 + i < |after| && Justified(after, |log| + 1 + i)
  {
    var after, at := AfterPass(log, p), |log| + 1 + i;
    PassAt(log, p);
    NoListing(log, p, at);
    assert p.bytes[i].0 in Doomed(p.listing) by {
      ActsAt(p.bytes);
      assert KeysOf(p.bytes)[i] == p.bytes[i].0;
    }
    DoomedIsCondemned(p.listing, p.bytes[i].0);
    assert LatestListing(after, |log|, at);
  }

  lemma RowJustified(log: seq<Act>, p: Pass, i: nat)
    requires InOrder(p) && i < |p.rows|
    ensures var after := AfterPass(log, p);
      |log| + 1 + |p.bytes| + i < |after| && Justified(after, |log| + 1 + |p.bytes| + i)
  {
    var after, at, key := AfterPass(log, p), |log| + 1 + |p.bytes| + i, p.rows[i].0;
    PassAt(log, p);
    NoListing(log, p, at);
    assert key in Said(p.bytes, true) by {
      ActsAt(p.rows);
      assert KeysOf(p.rows)[i] == key;
    }
    var k := SaidYes(p.bytes, key);
    assert key in Doomed(p.listing) by {
      ActsAt(p.bytes);
      assert KeysOf(p.bytes)[k] == key;
    }
    DoomedIsCondemned(p.listing, key);
    assert LatestListing(after, |log|, at) && after[|log| + 1 + k] == Bytes(key, true);
  }

  lemma ListingJustified(log: seq<Act>, i: nat)
    requires i < |log| && log[i].Listed?
    ensures Justified(log, i)
  {
  }

  lemma PassJustified(log: seq<Act>, p: Pass, i: nat)
    requires InOrder(p) && |log| <= i < |AfterPass(log, p)|
    ensures Justified(AfterPass(log, p), i)
  {
    PassLength(log, p);
    var n, m := i - |log| - 1, |p.bytes|;
    if i == |log| {
      ListingJustified(AfterPass(log, p), i);
    } else if n < m {
      BytesJustified(log, p, n);
      assert |log| + 1 + n == i;
    } else {
      RowJustified(log, p, n - m);
      assert |log| + 1 + m + (n - m) == i;
    }
  }

  lemma NoListing(log: seq<Act>, p: Pass, i: nat)
    requires |log| < i < |AfterPass(log, p)|
    ensures var after := AfterPass(log, p);
      !after[i].Listed? && forall k :: |log| < k < i ==> !after[k].Listed?
  {
    var after, n, m := AfterPass(log, p), |log| + 1, |p.bytes|;
    PassAt(log, p);
    forall k | |log| < k < |after|
      ensures !after[k].Listed?
    {
      if k < n + m {
        assert after[n + (k - n)] == Bytes(p.bytes[k - n].0, p.bytes[k - n].1);
      } else {
        assert after[n + m + (k - n - m)] == Row(p.rows[k - n - m].0, p.rows[k - n - m].1);
      }
    }
  }

  lemma JustifiedStays(log: seq<Act>, longer: seq<Act>, i: nat)
    requires i < |log| && log <= longer && Justified(log, i)
    ensures Justified(longer, i)
  {
    assert longer[i] == log[i];
    if !log[i].Listed? {
      var key := log[i].key;
      var j :| LatestListing(log, j, i) && Condemns(log[j].listing, key) &&
        (log[i].Row? ==> exists k :: j < k < i && log[k] == Bytes(key, true));
      assert LatestListing(longer, j, i) && longer[j] == log[j];
      if log[i].Row? {
        var k :| j < k < i && log[k] == Bytes(key, true);
        assert longer[k] == log[k];
      }
    }
  }

  /** Nothing a sweep asks the remote for, of bytes or of a row, is without a condemning listing of
      its own pass, and rows go after their bytes. */
  lemma {:induction false} SweepJustified(log: seq<Act>, history: seq<Pass>, i: nat)
    requires Orderly(history) && |log| <= i < |AfterPasses(log, history)|
    ensures Justified(AfterPasses(log, history), i)
    decreases |history|
  {
    var n := |history| - 1;
    var before := AfterPasses(log, history[..n]);
    PassAt(before, history[n]);
    if i < |before| {
      SweepJustified(log, history[..n], i);
      JustifiedStays(before, AfterPass(before, history[n]), i);
    } else {
      PassJustified(before, history[n], i);
    }
  }
}
