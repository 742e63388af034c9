/**
 Puts of one object that overlap (`store.rs`, `store/recovery.rs`). Writers share the blob and the
 metadata of a key; a step is one file operation. A writer whose metadata write fails looks for
 metadata once and, seeing none, removes the blob, which another writer may be adopting.
 */
module StoreOverlap {
  import opened Prelude

  type Writer = nat
  type Document = nat

  /** How far a put has come. */
  datatype Phase =
    | Out
    /** It found no metadata. */
    | Started(doc: Document)
    /** It created the blob. */
    | Wrote(doc: Document)
    /** The blob was there already. */
    | Conflicted(doc: Document)
    /** That blob holds the same bytes and still has no metadata. */
    | Adopting(doc: Document)
    /** Its metadata write failed. */
    | Failed(doc: Document)
    /** And it saw no metadata, so it will remove the blob. */
    | Withdrawing(doc: Document)

  /** The two files, and the bytes some put has returned success for. */
  datatype State = State(blob: Option<Document>, meta: Option<Document>, promised: Option<Document>, writers: map<Writer, Phase>)

  datatype Step =
    | Begin(doc: Document)
    | WriteBlob
    | Compare
    | WriteMetadata(ok: bool)
    | Look
    | RemoveBlob
    | Stop

  predicate Enabled(s: State, w: Writer, step: Step) {
    w in s.writers &&
    var p := s.writers[w];
    match step
    case Begin(_) => p.Out? && s.meta == None
    case WriteBlob => p.Started?
    case Compare => p.Conflicted? && s.blob == Some(p.doc) && s.meta == None
    case WriteMetadata(ok) => p.Wrote? || (p.Adopting? && ok)
    case Look => p.Failed?
    case RemoveBlob => p.Withdrawing?
    case Stop => true
  }

  /** Metadata is only created. Where there is some, a put succeeds if it and the blob match. */
  function After(s: State, w: Writer, step: Step): State
    requires Enabled(s, w, step)
  {
    var p := s.writers[w];
    match step
    case Begin(doc) => s.(writers := s.writers[w := Started(doc)])
    case WriteBlob =>
      s.(blob := if s.blob == None then Some(p.doc) else s.blob,
         writers := s.writers[w := if s.blob == None then Wrote(p.doc) else Conflicted(p.doc)])
    case Compare => s.(writers := s.writers[w := Adopting(p.doc)])
    case WriteMetadata(ok) =>
      if !ok then s.(writers := s.writers[w := Failed(p.doc)])
      else if s.meta == None then s.(meta := Some(p.doc), promised := Some(p.doc), writers := s.writers[w := Out])
      else if s.meta == Some(p.doc) && s.blob == Some(p.doc) then s.(promised := Some(p.doc), writers := s.writers[w := Out])
      else s.(writers := s.writers[w := Out])
    case Look => s.(writers := s.writers[w := if s.meta == None then Withdrawing(p.doc) else Out])
    case RemoveBlob => s.(blob := None, writers := s.writers[w := Out])
    case Stop => s.(writers := s.writers[w := Out])
  }

  predicate Runs(s: State, run: seq<(Writer, Step)>)
    decreases |run|
  {
    run == [] || (Enabled(s, run[0].0, run[0].1) && Runs(After(s, run[0].0, run[0].1), run[1..]))
  }

  function End(s: State, run: seq<(Writer, Step)>): State
    requires Runs(s, run)
    decreases |run|
  {
    if run == [] then s else End(After(s, run[0].0, run[0].1), run[1..])
  }

  /** What a put returned success for can be read back. */
  predicate Kept(s: State) {
    s.promised.Some? ==> s.blob == s.promised && s.meta == s.promised
  }

  // ---- when objects are kept -------------------------------------------------------

  /** The blob is removed only while there is no metadata and nobody is adopting it. */
  predicate Covered(s: State, w: Writer, step: Step)
    requires Enabled(s, w, step)
  {
    step == RemoveBlob ==> s.meta == None && forall o :: o in s.writers ==> !s.writers[o].Adopting?
  }

  predicate Careful(s: State, run: seq<(Writer, Step)>)
    requires Runs(s, run)
    decreases |run|
  {
    run == [] || (Covered(s, run[0].0, run[0].1) && Careful(After(s, run[0].0, run[0].1), run[1..]))
  }

  /** It created the blob and may remove it. */
  predicate Owner(p: Phase) { p.Wrote? || p.Failed? || p.Withdrawing? }

  /** Whoever created or adopts the blob finds its own bytes there, only one created it, and metadata
      is of the blob. */
  predicate Invariant(s: State) {
    && (forall w :: w in s.writers && (Owner(s.writers[w]) || s.writers[w].Adopting?) ==> s.blob == Some(s.writers[w].doc))
    && (forall v, w :: v in s.writers && w in s.writers && Owner(s.writers[v]) && Owner(s.writers[w]) ==> v == w)
    && s.meta == s.promised && (s.meta.Some? ==> s.blob == s.meta)
  }

  /** A metadata write that finds some succeeds exactly if blob and metadata are this put's bytes, and
      changes neither; a put can be killed anywhere, which changes neither. */
  lemma LateWriteMeans(s: State, w: Writer)
    requires w in s.writers
    ensures Enabled(s, w, Stop) && After(s, w, Stop) == s.(writers := s.writers[w := Out])
    ensures Enabled(s, w, WriteMetadata(true)) && s.meta.Some? ==>
      var s', doc := After(s, w, WriteMetadata(true)), s.writers[w].doc;
      && s'.blob == s.blob && s'.meta == s.meta && s'.writers == s.writers[w := Out]
      && s'.promised == if s.meta == s.blob == Some(doc) then Some(doc) else s.promised
  {
  }

  lemma StepKeeps(s: State, w: Writer, step: Step)
    requires Invariant(s) && Enabled(s, w, step) && Covered(s, w, step)
    ensures Invariant(After(s, w, step))
  {
    var s' := After(s, w, step);
    assert forall o :: o in s'.writers && o != w ==> s'.writers[o] == s.writers[o];
  }

  /** However many puts overlap, a careful run keeps what was promised. */
  lemma {:induction false} CarefulKeeps(s: State, run: seq<(Writer, Step)>)
    requires Invariant(s) && Runs(s, run) && Careful(s, run)
    ensures Invariant(End(s, run)) && Kept(End(s, run))
    decreases |run|
  {
    if run != [] {
      StepKeeps(s, run[0].0, run[0].1);
      CarefulKeeps(After(s, run[0].0, run[0].1), run[1..]);
    }
  }

  // ---- and when they are not -------------------------------------------------------

  /** An uncovered removal breaks a promise, at once or when the adopting put succeeds. */
  lemma UncoveredBreaks(s: State, w: Writer) returns (rest: seq<(Writer, Step)>)
    requires Invariant(s) && Enabled(s, w, RemoveBlob) && !Covered(s, w, RemoveBlob)
    ensures Runs(After(s, w, RemoveBlob), rest) && Careful(After(s, w, RemoveBlob), rest)
    ensures !Kept(End(After(s, w, RemoveBlob), rest))
  {
    var removed := After(s, w, RemoveBlob);
    if s.meta.Some? {
      rest := [];
    } else {
      var o :| o in s.writers && s.writers[o].Adopting?;
      rest := [(o, WriteMetadata(true))];
      var done := After(removed, o, WriteMetadata(true));
      assert rest[1..] == [] && Runs(done, []) && End(done, []) == done;
    }
  }

  /** So a removal keeps every promise, whatever everyone does carefully afterwards, exactly when
      there is no metadata and nobody is adopting the blob. */
  lemma KeptIffCovered(s: State, w: Writer)
    requires Invariant(s) && Enabled(s, w, RemoveBlob)
    ensures var removed := After(s, w, RemoveBlob);
      Covered(s, w, RemoveBlob) <==>
        forall rest :: Runs(removed, rest) && Careful(removed, rest) ==> Kept(End(removed, rest))
  {
    var removed := After(s, w, RemoveBlob);
    if Covered(s, w, RemoveBlob) {
      StepKeeps(s, w, RemoveBlob);
      forall rest | Runs(removed, rest) && Careful(removed, rest)
        ensures Kept(End(removed, rest))
      {
        CarefulKeeps(removed, rest);
      }
    } else {
      var rest := UncoveredBreaks(s, w);
    }
  }

  lemma {:induction false} Extend(s: State, run: seq<(Writer, Step)>, w: Writer, step: Step) returns (longer: seq<(Writer, Step)>)
    requires Runs(s, run) && Enabled(End(s, run), w, step)
    ensures Runs(s, longer) && End(s, longer) == After(End(s, run), w, step)
    decreases |run|
  {
    if run == [] {
      longer := [(w, step)];
      assert longer[1..] == [] && End(After(s, w, step), []) == After(s, w, step);
    } else {
      var rest := Extend(After(s, run[0].0, run[0].1), run[1..], w, step);
      longer := [run[0]] + rest;
      assert longer[1..] == rest;
    }
  }

  /** Two puts of the same bytes: the first writes the blob, fails to write metadata and sees none;
      the second adopts the blob and succeeds; the first removes it. */
  lemma OverlapBreaks(doc: Document, first: Writer, second: Writer) returns (run: seq<(Writer, Step)>)
    requires first != second
    ensures var s := State(None, None, None, map[first := Out, second := Out]);
      Runs(s, run) && End(s, run).promised == End(s, run).meta == Some(doc) && End(s, run).blob == None
  {
    var s := State(None, None, None, map[first := Out, second := Out]);
    run := [];
    assert End(s, run) == s;
    run := Extend(s, run, first, Begin(doc));
    run := Extend(s, run, second, Begin(doc));
    run := Extend(s, run, first, WriteBlob);
    run := Extend(s, run, first, WriteMetadata(false));
    run := Extend(s, run, first, Look);
    run := Extend(s, run, second, WriteBlob);
    run := Extend(s, run, second, Compare);
    run := Extend(s, run, second, WriteMetadata(true));
    run := Extend(s, run, first, RemoveBlob);
  }
}
