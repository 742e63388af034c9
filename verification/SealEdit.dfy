/**
 One seal attempt among edits (`recovery_preimage.rs`): which edits can be deleted unsealed. A step
 is one file operation of the attempt, or an edit, which may come at any time except between the
 final check and the removal it decides on.
 */
module SealEdit {
  import opened Prelude

  type Document = nat

  /** A regular plaintext file: what a `stat` shows of it, and its bytes. */
  datatype File = File(identity: nat, doc: Document)

  /** How far the attempt has come. `id` is what the first stat showed and `doc` what was read. */
  datatype Phase =
    | Start
    | Statted(id: nat)
    | HasRead(id: nat, doc: Document)
    | Stable(id: nat, doc: Document)
    | Published(id: nat, doc: Document, own: bool)
    | Authenticated(id: nat, doc: Document, own: bool)
    | CheckStatted(id: nat, doc: Document, own: bool)
    | CheckRead(id: nat, doc: Document, own: bool)
    | Checked(id: nat, doc: Document, own: bool)
    | Ended

  /** The two files, the attempt, and what it has deleted. An envelope is what it opens to. */
  datatype State = State(plaintext: Option<File>, envelope: Option<Document>, phase: Phase, deleted: seq<File>)

  datatype Step =
    | Edit(file: Option<File>)
    /** The next operation of the attempt, when it goes well. */
    | Go
    /** It does not: the attempt ends, and may take back an envelope of its own once authenticated. */
    | Fail(withdraw: bool)

  predicate Enabled(s: State, step: Step) {
    match step
    case Edit(_) => !s.phase.Checked?
    case Fail(withdraw) => !s.phase.Ended? && (withdraw ==> Owns(s.phase))
    case Go =>
      match s.phase
      case Start => s.plaintext.Some?
      case Statted(_) => s.plaintext.Some?
      case HasRead(id, _) => s.plaintext.Some? && s.plaintext.value.identity == id
      case Stable(_, _) => true
      case Published(_, doc, _) => s.envelope == Some(doc)
      case Authenticated(id, _, _) => s.plaintext.Some? && s.plaintext.value.identity == id
      case CheckStatted(_, doc, _) => s.plaintext.Some? && s.plaintext.value.doc == doc
      case CheckRead(id, _, _) => s.plaintext.Some? && s.plaintext.value.identity == id
      case Checked(_, _, _) => s.plaintext.Some?
      case Ended => false
  }

  /** The attempt may take back its envelope. */
  predicate Owns(p: Phase) {
    (p.Authenticated? || p.CheckStatted? || p.CheckRead? || p.Checked?) && p.own
  }

  function After(s: State, step: Step): State
    requires Enabled(s, step)
  {
    match step
    case Edit(file) => s.(plaintext := file)
    case Fail(withdraw) => s.(envelope := if withdraw then None else s.envelope, phase := Ended)
    case Go =>
      match s.phase
      case Start => s.(phase := Statted(s.plaintext.value.identity))
      case Statted(id) => s.(phase := HasRead(id, s.plaintext.value.doc))
      case HasRead(id, doc) => s.(phase := Stable(id, doc))
      case Stable(id, doc) =>
        s.(envelope := if s.envelope == None then Some(doc) else s.envelope, phase := Published(id, doc, s.envelope == None))
      case Published(id, doc, own) => s.(phase := Authenticated(id, doc, own))
      case Authenticated(id, doc, own) => s.(phase := CheckStatted(id, doc, own))
      case CheckStatted(id, doc, own) => s.(phase := CheckRead(id, doc, own))
      case CheckRead(id, doc, own) => s.(phase := Checked(id, doc, own))
      case Checked(_, _, _) => s.(plaintext := None, phase := Ended, deleted := s.deleted + [s.plaintext.value])
  }

  /** A failure ends the attempt, and takes back the envelope or leaves both files alone. */
  lemma FailureEnds(s: State, withdraw: bool)
    requires Enabled(s, Fail(withdraw))
    ensures After(s, Fail(withdraw)) == State(s.plaintext, if withdraw then None else s.envelope, Ended, s.deleted)
  {
  }

  predicate Runs(s: State, run: seq<Step>)
    decreases |run|
  {
    run == [] || (Enabled(s, run[0]) && Runs(After(s, run[0]), run[1..]))
  }

  function End(s: State, run: seq<Step>): State
    requires Runs(s, run)
    decreases |run|
  {
    if run == [] then s else End(After(s, run[0]), run[1..])
  }

  // ---- no edit is lost, unless it comes inside the check ----------------------------

  /** No edit comes between the check's read and its closing stat. */
  predicate Undisturbed(s: State, run: seq<Step>)
    requires Runs(s, run)
    decreases |run|
  {
    run == [] || (!(run[0].Edit? && s.phase.CheckRead?) && Undisturbed(After(s, run[0]), run[1..]))
  }

  /** Everything deleted is in the envelope, and past authentication the envelope holds what was read. */
  predicate Sealed(s: State) {
    && (forall f :: f in s.deleted ==> s.envelope == Some(f.doc))
    && (s.deleted != [] ==> s.phase.Ended?)
    && ((s.phase.Authenticated? || s.phase.CheckStatted? || s.phase.CheckRead? || s.phase.Checked?) ==>
          s.envelope == Some(s.phase.doc))
  }

  /** Once the check has read them, the bytes of the file are those that were sealed. */
  predicate Matches(s: State) {
    (s.phase.CheckRead? || s.phase.Checked?) ==> s.plaintext.Some? && s.plaintext.value.doc == s.phase.doc
  }

  lemma {:induction false} NoEditLost(s: State, run: seq<Step>)
    requires Sealed(s) && Matches(s) && Runs(s, run) && Undisturbed(s, run)
    ensures Sealed(End(s, run))
    ensures forall f :: f in End(s, run).deleted ==> End(s, run).envelope == Some(f.doc)
    decreases |run|
  {
    if run != [] {
      NoEditLost(After(s, run[0]), run[1..]);
    }
  }

  /** An envelope that was there before the attempt stays, whatever fails and whoever edits. */
  lemma EarlierStays(s: State, run: seq<Step>)
    requires s.phase.Start? && s.envelope.Some? && Runs(s, run)
    ensures End(s, run).envelope == s.envelope
  {
    NotOwned(s, run);
  }

  /** The attempt has not published an envelope of its own. */
  predicate Borrows(p: Phase) {
    match p
    case Published(_, _, own) => !own
    case Authenticated(_, _, own) => !own
    case CheckStatted(_, _, own) => !own
    case CheckRead(_, _, own) => !own
    case Checked(_, _, own) => !own
    case _ => true
  }

  lemma {:induction false} NotOwned(s: State, run: seq<Step>)
    requires Borrows(s.phase) && s.envelope.Some? && Runs(s, run)
    ensures End(s, run).envelope == s.envelope
    decreases |run|
  {
    if run != [] {
      NotOwned(After(s, run[0]), run[1..]);
    }
  }

  // ---- and inside the check, exactly the edits that keep the identity ----------------

  /** Once the check has read the sealed bytes, an edit that comes before its closing stat can be
      deleted, unsealed, if and only if it keeps what a stat shows. */
  lemma EditDeletedIff(s: State, g: File)
    requires s.phase.CheckRead? && Sealed(s)
    ensures var run := [Edit(Some(g)), Go, Go];
      && (Runs(s, run) <==> g.identity == s.phase.id)
      && (Runs(s, run) ==>
            End(s, run).deleted == s.deleted + [g] && End(s, run).envelope == Some(s.phase.doc) && End(s, run).plaintext == None)
  {
    var edited := After(s, Edit(Some(g)));
    var rest := [Go, Go];
    var run := [Edit(Some(g)), Go, Go];
    assert run[1..] == rest && rest[1..] == [Go] && [Go][1..] == [];
    if g.identity == s.phase.id {
      var checked := After(edited, Go);
      var removed := After(checked, Go);
      assert Runs(removed, []) && End(removed, []) == removed;
      assert Runs(checked, [Go]) && End(checked, [Go]) == removed;
      assert Runs(edited, rest) && End(edited, rest) == removed;
    }
  }

  lemma {:induction false} RunsGo(s: State, run: seq<Step>, step: Step) returns (longer: seq<Step>)
    requires Runs(s, run) && Enabled(End(s, run), step)
    ensures Runs(s, longer) && End(s, longer) == After(End(s, run), step)
    ensures Undisturbed(s, run) && !(step.Edit? && End(s, run).phase.CheckRead?) ==> Undisturbed(s, longer)
    decreases |run|
  {
    if run == [] {
      longer := [step];
      assert longer[1..] == [] && End(After(s, step), []) == After(s, step);
    } else {
      var rest := RunsGo(After(s, run[0]), run[1..], step);
      longer := [run[0]] + rest;
      assert longer[1..] == rest;
    }
  }

  /** A whole attempt that nobody disturbs seals the plaintext and deletes it. */
  lemma SealsAndDeletes(f: File) returns (run: seq<Step>)
    ensures var s := State(Some(f), None, Start, []);
      Runs(s, run) && Undisturbed(s, run) && End(s, run) == State(None, Some(f.doc), Ended, [f])
  {
    var s := State(Some(f), None, Start, []);
    run := [];
    assert End(s, run) == s;
    run := RunsGo(s, run, Go);
    run := RunsGo(s, run, Go);
    run := RunsGo(s, run, Go);
    run := RunsGo(s, run, Go);
    run := RunsGo(s, run, Go);
    run := RunsGo(s, run, Go);
    run := RunsGo(s, run, Go);
    run := RunsGo(s, run, Go);
    run := RunsGo(s, run, Go);
  }

  /** A whole attempt that seals 1, deletes the edit 2 and keeps no copy of it. */
  lemma EditLost(identity: nat) returns (run: seq<Step>)
    ensures var s := State(Some(File(identity, 1)), None, Start, []);
      Runs(s, run) && End(s, run) == State(None, Some(1), Ended, [File(identity, 2)])
  {
    var s := State(Some(File(identity, 1)), None, Start, []);
    run := [];
    assert End(s, run) == s;
    run := RunsGo(s, run, Go);
    run := RunsGo(s, run, Go);
    run := RunsGo(s, run, Go);
    run := RunsGo(s, run, Go);
    run := RunsGo(s, run, Go);
    run := RunsGo(s, run, Go);
    run := RunsGo(s, run, Go);
    run := RunsGo(s, run, Edit(Some(File(identity, 2))));
    run := RunsGo(s, run, Go);
    run := RunsGo(s, run, Go);
  }
}
