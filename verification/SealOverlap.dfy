/**
 Seal attempts that overlap (`recovery_preimage.rs`). Nothing in an attempt keeps another one out,
 so any number of them share one plaintext and one envelope. A step is one file operation; nobody
 else edits. An attempt that fails a check withdraws the envelope if it published it, whoever has
 come to rely on it since.
 */
module SealOverlap {
  import opened Prelude

  type Attempt = nat
  type Document = nat

  /** How far an attempt has come; `own` when it published the envelope itself. */
  datatype Phase =
    | Out
    | Read(doc: Document)
    | Published(doc: Document, own: bool)
    | Authenticated(doc: Document, own: bool)
    | Checked(doc: Document, own: bool)
    | Withdrawing

  /** What the two files hold; an envelope is what it opens to. */
  datatype State = State(plaintext: Option<Document>, envelope: Option<Document>, attempts: map<Attempt, Phase>)

  datatype Step =
    | Begin
    | Publish
    | Authenticate
    /** The re-check of the plaintext. It may fail for any reason. */
    | Check(ok: bool)
    | Remove(ok: bool)
    | Withdraw
    /** Killed, or returned with an error that undoes nothing. */
    | Stop

  /** An attempt that may still withdraw the envelope. */
  predicate Owner(p: Phase) {
    match p
    case Published(_, own) => own
    case Authenticated(_, own) => own
    case Checked(_, own) => own
    case Withdrawing => true
    case _ => false
  }

  predicate Enabled(s: State, a: Attempt, step: Step) {
    a in s.attempts &&
    var p := s.attempts[a];
    match step
    case Begin => p.Out? && s.plaintext.Some?
    case Publish => p.Read?
    case Authenticate => p.Published? && s.envelope == Some(p.doc)
    case Check(ok) => p.Authenticated? && (ok ==> s.plaintext == Some(p.doc))
    case Remove(ok) => p.Checked? && (ok ==> s.plaintext.Some?)
    case Withdraw => p.Withdrawing?
    case Stop => true
  }

  function After(s: State, a: Attempt, step: Step): State
    requires Enabled(s, a, step)
  {
    var p := s.attempts[a];
    match step
    case Begin => s.(attempts := s.attempts[a := Read(s.plaintext.value)])
    case Publish =>
      s.(envelope := if s.envelope == None then Some(p.doc) else s.envelope,
         attempts := s.attempts[a := Published(p.doc, s.envelope == None)])
    case Authenticate => s.(attempts := s.attempts[a := Authenticated(p.doc, p.own)])
    case Check(ok) =>
      s.(attempts := s.attempts[a := if ok then Checked(p.doc, p.own) else if p.own then Withdrawing else Out])
    case Remove(ok) =>
      s.(plaintext := if ok then None else s.plaintext,
         attempts := s.attempts[a := if !ok && p.own then Withdrawing else Out])
    case Withdraw => s.(envelope := None, attempts := s.attempts[a := Out])
    case Stop => s.(attempts := s.attempts[a := Out])
  }

  predicate Runs(s: State, run: seq<(Attempt, Step)>)
    decreases |run|
  {
    run == [] || (Enabled(s, run[0].0, run[0].1) && Runs(After(s, run[0].0, run[0].1), run[1..]))
  }

  function End(s: State, run: seq<(Attempt, Step)>): State
    requires Runs(s, run)
    decreases |run|
  {
    if run == [] then s else End(After(s, run[0].0, run[0].1), run[1..])
  }

  /** An attempt can be killed anywhere, which changes no file; one that withdraws is done. */
  lemma KilledAnywhere(s: State, a: Attempt)
    requires a in s.attempts
    ensures Enabled(s, a, Stop) && After(s, a, Stop) == s.(attempts := s.attempts[a := Out])
    ensures Enabled(s, a, Withdraw) ==> After(s, a, Withdraw) == State(s.plaintext, None, s.attempts[a := Out])
  {
  }

  /** The bytes are in the plaintext file or in an envelope that opens to them. */
  predicate Kept(s: State, b: Document) {
    s.plaintext == Some(b) || s.envelope == Some(b)
  }

  // ---- when the bytes are kept ----------------------------------------------------

  /** The plaintext is deleted only while the envelope holds it and no other attempt can still
      withdraw that envelope. */
  predicate Covered(s: State, a: Attempt, step: Step)
    requires Enabled(s, a, step)
  {
    step == Remove(true) ==>
      s.envelope == Some(s.attempts[a].doc) && forall o :: o in s.attempts && o != a ==> !Owner(s.attempts[o])
  }

  predicate Careful(s: State, run: seq<(Attempt, Step)>)
    requires Runs(s, run)
    decreases |run|
  {
    run == [] || (Covered(s, run[0].0, run[0].1) && Careful(After(s, run[0].0, run[0].1), run[1..]))
  }

  predicate Holds(p: Phase, b: Document) {
    (p.Read? || p.Published? || p.Authenticated? || p.Checked?) ==> p.doc == b
  }

  /** Every attempt has read `b`; and once the plaintext is gone, the envelope is there to stay. */
  predicate Invariant(s: State, b: Document) {
    && (forall a :: a in s.attempts ==> Holds(s.attempts[a], b))
    && (s.plaintext == Some(b) ||
        (s.plaintext == None && s.envelope == Some(b) && forall a :: a in s.attempts ==> !Owner(s.attempts[a])))
  }

  lemma StepKeeps(s: State, a: Attempt, step: Step, b: Document)
    requires Invariant(s, b) && Enabled(s, a, step) && Covered(s, a, step)
    ensures Invariant(After(s, a, step), b)
  {
    var s' := After(s, a, step);
    assert Holds(s.attempts[a], b);
    forall o | o in s'.attempts
      ensures Holds(s'.attempts[o], b)
    {
      assert o != a ==> s'.attempts[o] == s.attempts[o];
    }
  }

  /** However many attempts overlap, a careful run keeps the bytes. */
  lemma {:induction false} CarefulKeeps(s: State, run: seq<(Attempt, Step)>, b: Document)
    requires Invariant(s, b) && Runs(s, run) && Careful(s, run)
    ensures Invariant(End(s, run), b) && Kept(End(s, run), b)
    decreases |run|
  {
    if run != [] {
      StepKeeps(s, run[0].0, run[0].1, b);
      CarefulKeeps(After(s, run[0].0, run[0].1), run[1..], b);
    }
  }

  // ---- and when they are not --------------------------------------------------------

  lemma {:induction false} Extend(s: State, run: seq<(Attempt, Step)>, a: Attempt, step: Step) returns (longer: seq<(Attempt, Step)>)
    requires Runs(s, run) && Enabled(End(s, run), a, step)
    ensures Runs(s, longer) && End(s, longer) == After(End(s, run), a, step)
    ensures Careful(s, run) && Covered(End(s, run), a, step) ==> Careful(s, longer)
    decreases |run|
  {
    if run == [] {
      longer := [(a, step)];
      assert longer[1..] == [] && End(After(s, a, step), []) == After(s, a, step);
    } else {
      var rest := Extend(After(s, run[0].0, run[0].1), run[1..], a, step);
      longer := [run[0]] + rest;
      assert longer[1..] == rest;
    }
  }

  /** An owner in flight can always come to withdraw the envelope. */
  lemma OwnerWithdraws(s: State, o: Attempt, b: Document) returns (run: seq<(Attempt, Step)>)
    requires o in s.attempts && Owner(s.attempts[o]) && Holds(s.attempts[o], b) && s.envelope == Some(b)
    ensures Runs(s, run) && Careful(s, run)
    ensures End(s, run).plaintext == s.plaintext && End(s, run).envelope == None
  {
    run := [];
    assert End(s, run) == s;
    if s.attempts[o].Published? {
      run := Extend(s, run, o, Authenticate);
    }
    if End(s, run).attempts[o].Authenticated? {
      run := Extend(s, run, o, Check(false));
    }
    if End(s, run).attempts[o].Checked? {
      run := Extend(s, run, o, Remove(false));
    }
    run := Extend(s, run, o, Withdraw);
  }

  /** An uncovered deletion has a run, careful from there on, that ends with the bytes in neither
      file. */
  lemma UncoveredLoses(s: State, a: Attempt, b: Document) returns (rest: seq<(Attempt, Step)>)
    requires Invariant(s, b) && Enabled(s, a, Remove(true)) && !Covered(s, a, Remove(true))
    ensures Runs(After(s, a, Remove(true)), rest) && Careful(After(s, a, Remove(true)), rest)
    ensures !Kept(End(After(s, a, Remove(true)), rest), b)
  {
    var removed := After(s, a, Remove(true));
    assert Holds(s.attempts[a], b);
    if s.envelope != Some(b) {
      rest := [];
    } else {
      var o :| o in s.attempts && o != a && Owner(s.attempts[o]);
      assert removed.attempts[o] == s.attempts[o];
      rest := OwnerWithdraws(removed, o, b);
    }
  }

  /** So a deletion leaves the bytes safe, whatever everyone does carefully afterwards, exactly when
      the envelope holds them and no other attempt that published it is still in flight. */
  lemma KeptIffCovered(s: State, a: Attempt, b: Document)
    requires Invariant(s, b) && Enabled(s, a, Remove(true))
    ensures var removed := After(s, a, Remove(true));
      Covered(s, a, Remove(true)) <==>
        forall rest :: Runs(removed, rest) && Careful(removed, rest) ==> Kept(End(removed, rest), b)
  {
    var removed := After(s, a, Remove(true));
    if Covered(s, a, Remove(true)) {
      StepKeeps(s, a, Remove(true), b);
      forall rest | Runs(removed, rest) && Careful(removed, rest)
        ensures Kept(End(removed, rest), b)
      {
        CarefulKeeps(removed, rest, b);
      }
    } else {
      var rest := UncoveredLoses(s, a, b);
    }
  }

  predicate Fresh(s: State, b: Document) {
    s.plaintext == Some(b) && forall a :: a in s.attempts ==> s.attempts[a] == Out
  }

  /** Two attempts lose the bytes: the first publishes, the second relies on that envelope, deletes
      the plaintext and succeeds, and the first, finding the plaintext gone, withdraws it. */
  lemma OverlapLoses(s: State, b: Document, first: Attempt, second: Attempt) returns (run: seq<(Attempt, Step)>)
    requires Fresh(s, b) && s.envelope == None
    requires first in s.attempts && second in s.attempts && first != second
    ensures Runs(s, run) && End(s, run).plaintext == None && End(s, run).envelope == None
  {
    run := [];
    assert End(s, run) == s;
    run := Extend(s, run, first, Begin);
    run := Extend(s, run, first, Publish);
    run := Extend(s, run, first, Authenticate);
    run := Extend(s, run, second, Begin);
    run := Extend(s, run, second, Publish);
    run := Extend(s, run, second, Authenticate);
    run := Extend(s, run, second, Check(true));
    run := Extend(s, run, second, Remove(true));
    run := Extend(s, run, first, Check(false));
    run := Extend(s, run, first, Withdraw);
  }

  // ---- one at a time ------------------------------------------------------------------

  /** Nobody else is in flight. */
  predicate Alone(s: State, a: Attempt) {
    forall o :: o in s.attempts && o != a ==> s.attempts[o] == Out
  }

  /** Each step is made by an attempt that is alone, as a lock around attempts would have it. */
  predicate OneAtATime(s: State, run: seq<(Attempt, Step)>)
    requires Runs(s, run)
    decreases |run|
  {
    run == [] || (Alone(s, run[0].0) && OneAtATime(After(s, run[0].0, run[0].1), run[1..]))
  }

  /** An attempt past authentication can rely on the envelope. */
  predicate Reliable(s: State) {
    forall a :: a in s.attempts && (s.attempts[a].Authenticated? || s.attempts[a].Checked?) ==>
      s.envelope == Some(s.attempts[a].doc)
  }

  /** Attempts that never overlap are careful, so they keep the bytes. */
  lemma {:induction false} OneAtATimeKeeps(s: State, run: seq<(Attempt, Step)>, b: Document)
    requires Invariant(s, b) && Reliable(s) && Runs(s, run) && OneAtATime(s, run)
    ensures Careful(s, run) && Kept(End(s, run), b)
    decreases |run|
  {
    if run != [] {
      var a, step := run[0].0, run[0].1;
      StepKeeps(s, a, step, b);
      OneAtATimeKeeps(After(s, a, step), run[1..], b);
    }
  }
}
