/**
 Sealing a recovery preimage (`recovery_preimage.rs`): publish an encrypted envelope,
 authenticate it, check the plaintext once more, and only then delete the plaintext.

 Encryption is symbolic: an envelope opens only under the context it was sealed for.
 */
module RecoverySeal {
  import opened Prelude
  import opened Filesystem
  import opened AtomicFile

  /** What a file can hold: bytes, or an envelope sealed under a key and context. */
  datatype Document = Raw(bytes: Bytes) | Sealed(context: nat, inner: Document)

  const ENVELOPE_OVERHEAD: nat := 54
  const MAX_DECODED: nat := 2 * 1024 * 1024 * 1024

  function Length(d: Document): nat {
    match d
    case Raw(bytes) => |bytes|
    case Sealed(_, inner) => ENVELOPE_OVERHEAD + Length(inner)
  }

  /** `open_with_associated_data`. */
  function Open(d: Document, context: nat, limit: nat): Option<Document> {
    if d.Sealed? && d.context == context && Length(d.inner) <= limit then Some(d.inner) else None
  }

  predicate OpensTo(e: Option<Entry<Document>>, context: nat, d: Document) {
    e.Some? && e.value.File? && e.value.content == Sealed(context, d)
  }

  datatype Identity = Identity(inode: nat, mode: nat, length: nat)

  function IdentityOf(e: Entry<Document>): Identity
    requires e.File?
  {
    Identity(e.inode, e.mode, Length(e.content))
  }

  datatype SealResult =
    | Complete
    | PlaintextMissing
    | PlaintextChanged
    | IoError
    | EnvelopeRejected
    | Mismatch
    | Revalidation
    | Cleanup

  /** The comparison that ends `verify_plaintext_unchanged`. */
  predicate Unchanged(expected: Identity, doc: Document, before: Entry<Document>, current: Document,
                      after: Entry<Document>)
  {
    before.File? && after.File? && IdentityOf(before) == expected && IdentityOf(after) == expected && current == doc
  }

  /** An edit made after the re-check has read the bytes and before its closing stat passes, if it
      keeps inode, mode and length. */
  lemma RecheckMissesInPlaceEdit() returns (expected: Identity, doc: Document, before: Entry<Document>, after: Entry<Document>)
    ensures before.File? && IdentityOf(before) == expected && before.content == doc
    ensures after.File? && after.content != doc
    ensures Unchanged(expected, doc, before, doc, after)
  {
    doc := Raw([1]);
    before, after := File(7, 0, doc), File(7, 0, Raw([2]));
    expected := Identity(7, 0, 1);
  }

  class Sealer {
    const disk: Disk<Document>
    const plaintext: Path
    const sealed: Path
    /** The key, epoch and associated data of this preimage. */
    const context: nat

    ghost predicate Valid()
      reads this, disk
    {
      && disk.Valid()
      && plaintext != sealed && plaintext.name.Ordinary? && sealed.name.Ordinary?
      && disk.shared <= {plaintext}
    }

    constructor (disk: Disk<Document>, plaintext: Path, sealed: Path, context: nat)
      requires disk.Valid() && disk.shared <= {plaintext}
      requires plaintext != sealed && plaintext.name.Ordinary? && sealed.name.Ordinary?
      ensures Valid() && this.disk == disk && this.plaintext == plaintext && this.sealed == sealed
      ensures this.context == context
    {
      this.disk, this.plaintext, this.sealed, this.context := disk, plaintext, sealed, context;
    }

    /** Every plaintext this process has deleted since change `from` can be opened from the
        envelope, and it never did anything else to the plaintext path. */
    ghost predicate Kept(from: nat)
      reads this, disk
    {
      forall i :: from <= i < |disk.visible| && disk.visible[i].path == plaintext ==>
        && disk.visible[i].after == None
        && disk.visible[i].before.Some? && disk.visible[i].before.value.File?
        && OpensTo(At(disk.files, sealed), context, disk.visible[i].before.value.content)
    }

    /** Reading a path that outsiders may turn into a link yields whatever it points to. */
    method ReadDocument(p: Path) returns (r: SealResult, e: Entry<Document>, d: Document)
      requires Valid()
      modifies disk
      ensures disk.Idle() && disk.removeFailed == old(disk.removeFailed)
      ensures r in {Complete, PlaintextMissing, IoError}
      ensures r == Complete ==> At(disk.files, p) == Some(e) && (e.File? ==> d == e.content)
      ensures r == Complete ==> |old(disk.probed)| < |disk.probed| && disk.probed[|old(disk.probed)|] == (p, Some(e))
      ensures r == PlaintextMissing ==> At(disk.files, p) == None
      ensures if r == IoError then disk.faulted else disk.faulted == old(disk.faulted)
    {
      e, d := Symlink, Raw([]);
      var probe := disk.Probe(p);
      match probe
      case Absent => r := PlaintextMissing;
      case Unreadable => r := IoError;
      case Found(entry) =>
        r, e := Complete, entry;
        if entry.File? {
          d := entry.content;
        } else {
          d := *;
        }
    }

    /** Observation `at` found the plaintext with this identity. */
    ghost predicate SeenAt(at: nat, id: Identity)
      reads disk
    {
      && at < |disk.probed| && disk.probed[at].0 == plaintext
      && disk.probed[at].1.Some? && disk.probed[at].1.value.File? && IdentityOf(disk.probed[at].1.value) == id
    }

    /** `read_stable_plaintext`. */
    method ReadStable() returns (r: SealResult, expected: Identity, doc: Document)
      requires Valid()
      modifies disk
      ensures disk.Idle() && disk.removeFailed == old(disk.removeFailed)
      ensures r in {Complete, PlaintextMissing, PlaintextChanged, IoError}
      ensures if r == IoError then disk.faulted else disk.faulted == old(disk.faulted)
      // Whoever edits, the file at the closing stat has this identity; and missing means missing.
      ensures r == Complete ==> At(disk.files, plaintext).Some? && At(disk.files, plaintext).value.File?
      ensures r == Complete ==> IdentityOf(At(disk.files, plaintext).value) == expected
      ensures r == Complete ==> SeenAt(|old(disk.probed)|, expected)
      ensures r == PlaintextMissing ==> At(disk.files, plaintext) == None
      ensures r == Complete && disk.shared == {} ==>
        && Holds(old(At(disk.files, plaintext)), doc)
        && IdentityOf(old(At(disk.files, plaintext)).value) == expected
      ensures r == PlaintextMissing && disk.shared == {} ==> old(At(disk.files, plaintext)) == None
      ensures r == PlaintextChanged && disk.shared == {} ==>
        old(At(disk.files, plaintext)).Some? && !old(At(disk.files, plaintext)).value.File?
    {
      expected, doc := Identity(0, 0, 0), Raw([]);
      var before, after: Entry<Document>;
      var ignored: Document;
      r, before, ignored := ReadDocument(plaintext);
      if r != Complete {
        return;
      }
      if !before.File? {
        r := PlaintextChanged;
        return;
      }
      var read: Entry<Document>;
      r, read, doc := ReadDocument(plaintext);
      if r != Complete {
        return;
      }
      r, after, ignored := ReadDocument(plaintext);
      if r != Complete {
        return;
      }
      if !after.File? || IdentityOf(before) != IdentityOf(after) {
        r := PlaintextChanged;
        return;
      }
      expected := IdentityOf(after);
    }

    /** `authenticate_existing_preimage`, then securing the envelope's mode. */
    method Authenticate(doc: Document) returns (r: SealResult)
      requires Valid()
      modifies disk
      ensures disk.Idle() && disk.removeFailed == old(disk.removeFailed)
      ensures r == Complete ==> OpensTo(At(disk.files, sealed), context, doc) && disk.faulted == old(disk.faulted)
      ensures r in {Complete, PlaintextMissing, IoError, EnvelopeRejected, Mismatch}
      ensures r == PlaintextMissing ==> At(disk.files, sealed) == None
      ensures r == IoError ==> disk.faulted || (At(disk.files, sealed).Some? && !At(disk.files, sealed).value.File?)
      ensures r in {EnvelopeRejected, Mismatch} ==> At(disk.files, sealed).Some? && At(disk.files, sealed).value.File?
      ensures r == EnvelopeRejected ==> Open(At(disk.files, sealed).value.content, context, Length(doc)) == None
      ensures r == Mismatch ==> Open(At(disk.files, sealed).value.content, context, Length(doc)) !in {None, Some(doc)}
      ensures OpensTo(old(At(disk.files, sealed)), context, doc) ==> r == Complete || disk.faulted
    {
      var envelope: Document;
      var entry: Entry<Document>;
      r, entry, envelope := ReadDocument(sealed);
      if r != Complete {
        return;
      }
      if !entry.File? {
        r := IoError;
        return;
      }
      match Open(envelope, context, Length(doc))
      case None =>
        r := EnvelopeRejected;
      case Some(plain) =>
        if plain != doc {
          r := Mismatch;
        } else {
          var secured := disk.Touch();
          r := if secured == Done then Complete else IoError;
        }
    }

    /** `verify_plaintext_unchanged`. Outsiders are taken to be idle after the closing stat,
        and already after the read when `idle` holds. */
    method Recheck(expected: Identity, doc: Document, idle: bool) returns (r: SealResult)
      requires Valid()
      modifies disk
      ensures disk.Valid() && disk.visible == old(disk.visible) && disk.nextSerial == old(disk.nextSerial)
      ensures disk.shared == {} && SameBut(old(disk.files), disk.files, {plaintext}, 0, 0)
      ensures (old(disk.faulted) ==> disk.faulted) && (old(disk.crashed) ==> disk.crashed)
      ensures old(disk.probed) <= disk.probed && disk.starts == old(disk.starts)
      ensures (old(disk.removeFailed) ==> disk.removeFailed) && old(disk.unremoved) <= disk.unremoved
      ensures (old(disk.probeFailed) ==> disk.probeFailed)
      ensures r == Complete ==> At(disk.files, plaintext).Some? && At(disk.files, plaintext).value.File?
      ensures r == Complete ==> IdentityOf(At(disk.files, plaintext).value) == expected && disk.faulted == old(disk.faulted)
      ensures r == Complete && (idle || old(disk.shared) == {}) ==> At(disk.files, plaintext).value.content == doc
      ensures old(disk.shared) == {} ==> At(disk.files, plaintext) == old(At(disk.files, plaintext))
      ensures (old(disk.shared) == {} && Holds(old(At(disk.files, plaintext)), doc) &&
               IdentityOf(old(At(disk.files, plaintext)).value) == expected) ==> r == Complete || disk.faulted
    {
      var before, read, after: Entry<Document>;
      var ignored, current: Document;
      r, before, ignored := ReadDocument(plaintext);
      if r == Complete {
        r, read, current := ReadDocument(plaintext);
        if idle {
          disk.shared := {};
        }
        if r == Complete {
          r, after, ignored := ReadDocument(plaintext);
          if r == Complete && !Unchanged(expected, doc, before, current, after) {
            r := PlaintextChanged;
          }
        }
      }
      disk.shared := {};
    }

    /** `resume_authenticated_seal`: no plaintext, so an authentic envelope is the whole result. */
    method Resume() returns (r: SealResult)
      requires Valid()
      modifies disk
      ensures disk.Idle()
      ensures r == Complete ==> exists d :: OpensTo(At(disk.files, sealed), context, d)
      ensures r == Complete ==> disk.faulted == old(disk.faulted)
      ensures r == PlaintextMissing ==> At(disk.files, sealed) == None
      ensures r in {Complete, PlaintextMissing, IoError, EnvelopeRejected}
      ensures r == IoError ==> disk.faulted || (At(disk.files, sealed).Some? && !At(disk.files, sealed).value.File?)
      ensures r == EnvelopeRejected ==>
        && At(disk.files, sealed).Some? && At(disk.files, sealed).value.File?
        && Open(At(disk.files, sealed).value.content, context, MAX_DECODED) == None
      ensures old(At(disk.files, sealed)) == None ==> r == PlaintextMissing || disk.faulted
      ensures (exists d :: OpensTo(old(At(disk.files, sealed)), context, d) && Length(d) <= MAX_DECODED) ==>
        r == Complete || disk.faulted
    {
      var envelope: Document;
      var entry: Entry<Document>;
      r, entry, envelope := ReadDocument(sealed);
      if r != Complete {
        return;
      }
      if !entry.File? {
        r := IoError;
      } else if Open(envelope, context, MAX_DECODED).None? {
        r := EnvelopeRejected;
      } else {
        assert OpensTo(At(disk.files, sealed), context, envelope.inner);
        var secured := disk.Touch();
        r := if secured == Done then Complete else IoError;
      }
    }

    /** The changes one attempt may make, in order: publish the envelope while its name is free,
        then either take that same envelope back or delete the plaintext; or, with an envelope
        already there, only delete the plaintext. */
    ghost predicate AttemptChanges(changes: seq<Change<Document>>)
    {
      || changes == []
      || (|changes| == 1 && (IsPublish(changes[0]) || IsDelete(changes[0])))
      || (|changes| == 2 && IsPublish(changes[0]) &&
          (changes[1] == Change(sealed, changes[0].after, None) || IsDelete(changes[1])))
    }

    ghost predicate IsPublish(c: Change<Document>) {
      c.path == sealed && c.before == None && (exists d :: OpensTo(c.after, context, d))
    }

    ghost predicate IsDelete(c: Change<Document>) {
      c.path == plaintext && c.before.Some? && c.before.value.File? && c.after == None
    }

    /** The middle part: publish an envelope unless there is one, and authenticate what is there. */
    method Publish(doc: Document) returns (r: SealResult, publishedNew: bool)
      requires Valid()
      modifies disk
      ensures Valid() && disk.Steady()
      ensures SameBut(old(disk.files), disk.files, disk.shared + {sealed}, old(disk.nextSerial), disk.nextSerial)
      ensures
        || (disk.visible == old(disk.visible) && At(disk.files, sealed) == old(At(disk.files, sealed)))
        || (old(At(disk.files, sealed)) == None && OpensTo(At(disk.files, sealed), context, doc)
            && disk.visible == old(disk.visible) + [Change(sealed, None, At(disk.files, sealed))])
      ensures publishedNew ==> disk.visible != old(disk.visible)
      // The envelope is for its owner only.
      ensures disk.visible != old(disk.visible) ==> At(disk.files, sealed).value.mode == 384
      ensures r == Complete ==> (publishedNew <==> disk.visible != old(disk.visible))
      ensures r in {Complete, IoError, EnvelopeRejected, Mismatch}
      ensures r in {EnvelopeRejected, Mismatch} ==> !OpensTo(At(disk.files, sealed), context, doc)
      ensures r == Complete ==> OpensTo(At(disk.files, sealed), context, doc)
      ensures r == Complete ==> disk.faulted == old(disk.faulted) || disk.probeFailed || disk.removeFailed
      ensures (old(At(disk.files, sealed)) == None || OpensTo(old(At(disk.files, sealed)), context, doc)) ==>
        r == Complete || disk.faulted
      ensures !disk.removeFailed ==> SiblingsGone(disk.files, sealed, old(disk.nextSerial), disk.nextSerial)
    {
      publishedNew := false;
      var step := disk.Touch();
      if step != Done {
        return IoError, false;
      }
      var envelope := Sealed(context, doc);
      var wrote := WriteAtomic(disk, sealed, WriteOptions(0x180, true, false), Some(envelope));
      if wrote != Done && wrote != AlreadyExists {
        return IoError, false;
      }
      publishedNew := wrote == Done;
      r := Authenticate(doc);
    }

    /** `remove_encrypted_after_plaintext_failure`, for an envelope this attempt published. */
    method Withdraw(publishedNew: bool)
      requires Valid() && disk.shared == {}
      modifies disk
      ensures disk.Steady() && disk.nextSerial == old(disk.nextSerial)
      ensures SameBut(old(disk.files), disk.files, {sealed}, 0, 0)
      ensures
        || (disk.visible == old(disk.visible) && At(disk.files, sealed) == old(At(disk.files, sealed)))
        || (publishedNew && At(disk.files, sealed) == None
            && disk.visible == old(disk.visible) + [Change(sealed, old(At(disk.files, sealed)), None)])
      ensures publishedNew ==> At(disk.files, sealed) == None || sealed in disk.unremoved
      ensures publishedNew && sealed.dir !in old(disk.unsynced) ==> sealed.dir !in disk.unsynced || disk.faulted
    {
      if publishedNew {
        var rollback := disk.Remove(sealed);
        if rollback == Done {
          var _ := disk.SyncParent(sealed);
        }
      }
    }

    /** The last part of an attempt: re-check, then delete the plaintext or roll back. */
    method Finish(expected: Identity, doc: Document, idle: bool, publishedNew: bool) returns (r: SealResult)
      requires Valid() && OpensTo(At(disk.files, sealed), context, doc)
      modifies disk
      ensures Valid() && disk.shared == old(disk.shared) && disk.nextSerial == old(disk.nextSerial)
      ensures (old(disk.faulted) ==> disk.faulted) && (old(disk.removeFailed) ==> disk.removeFailed)
      ensures (old(disk.probeFailed) ==> disk.probeFailed)
      ensures old(disk.probed) <= disk.probed && disk.starts == old(disk.starts)
      ensures SameBut(old(disk.files), disk.files, {plaintext, sealed}, 0, 0)
      ensures At(disk.files, sealed) == old(At(disk.files, sealed)) || (publishedNew && At(disk.files, sealed) == None)
      ensures old(disk.visible) <= disk.visible
      ensures disk.visible == old(disk.visible) || |disk.visible| == |old(disk.visible)| + 1
      ensures |disk.visible| == |old(disk.visible)| ==> At(disk.files, sealed) == old(At(disk.files, sealed))
      ensures |disk.visible| == |old(disk.visible)| + 1 ==>
        var c := disk.visible[|old(disk.visible)|];
        if At(disk.files, sealed) == None then
          c == Change(sealed, old(At(disk.files, sealed)), None)
        else
          // Even when edits come during the re-check, only what keeps the identity is deleted.
          IsDelete(c) && IdentityOf(c.before.value) == expected && (idle ==> c.before.value.content == doc)
      ensures disk.shared == {} ==>
        || At(disk.files, plaintext) == old(At(disk.files, plaintext))
        || (At(disk.files, plaintext) == None && At(disk.files, sealed) == old(At(disk.files, sealed))
            && Holds(old(At(disk.files, plaintext)), doc))
      ensures r == Complete ==> At(disk.files, plaintext) == None && At(disk.files, sealed).Some?
      ensures r == Complete ==> plaintext.dir !in disk.unsynced && disk.faulted == old(disk.faulted)
      ensures r in {Complete, IoError, Revalidation, Cleanup} && (r == IoError ==> disk.faulted)
      // A failed check or removal takes the envelope back, if it is this attempt's, and only then.
      ensures publishedNew && r in {Revalidation, Cleanup} ==> At(disk.files, sealed) == None || sealed in disk.unremoved
      ensures At(disk.files, sealed) != old(At(disk.files, sealed)) ==> r in {Revalidation, Cleanup}
      ensures (disk.shared == {} && Holds(old(At(disk.files, plaintext)), doc) &&
               IdentityOf(old(At(disk.files, plaintext)).value) == expected) ==> r == Complete || disk.faulted
    {
      var outsiders := disk.shared;
      var hook := disk.Touch();
      if hook != Done {
        return IoError;
      }
      r := Recheck(expected, doc, idle);
      if r != Complete {
        Withdraw(publishedNew);
        disk.shared := outsiders;
        return Revalidation;
      }
      r := DeletePlaintext(publishedNew);
      disk.shared := outsiders;
    }

    /** Delete the plaintext, or roll back. */
    method DeletePlaintext(publishedNew: bool) returns (r: SealResult)
      requires Valid() && disk.shared == {} && At(disk.files, plaintext).Some?
      modifies disk
      ensures disk.Steady() && disk.nextSerial == old(disk.nextSerial)
      ensures SameBut(old(disk.files), disk.files, {plaintext, sealed}, 0, 0)
      ensures
        if r == Cleanup then
          && At(disk.files, plaintext) == old(At(disk.files, plaintext)) && disk.faulted
          && (|| (disk.visible == old(disk.visible) && At(disk.files, sealed) == old(At(disk.files, sealed)))
              || (publishedNew && At(disk.files, sealed) == None
                  && disk.visible == old(disk.visible) + [Change(sealed, old(At(disk.files, sealed)), None)]))
          && (publishedNew ==> At(disk.files, sealed) == None || sealed in disk.unremoved)
        else
          && At(disk.files, plaintext) == None && At(disk.files, sealed) == old(At(disk.files, sealed))
          && disk.visible == old(disk.visible) + [Change(plaintext, old(At(disk.files, plaintext)), None)]
      ensures r in {Complete, IoError, Cleanup} && (r == IoError ==> disk.faulted)
      ensures r == Complete ==> plaintext.dir !in disk.unsynced && disk.faulted == old(disk.faulted)
    {
      var deleted := disk.Remove(plaintext);
      if deleted != Done {
        Withdraw(publishedNew);
        return Cleanup;
      }
      var synced := disk.SyncParent(plaintext);
      r := if synced == Done then Complete else IoError;
    }

    /** A regular plaintext whose envelope is absent or already holds it; or an authentic
        envelope alone. */
    predicate SealableFrom(plain: Option<Entry<Document>>, envelope: Option<Entry<Document>>) {
      if plain.Some? then
        plain.value.File? && (envelope == None || OpensTo(envelope, context, plain.value.content))
      else
        && envelope.Some? && envelope.value.File?
        && Open(envelope.value.content, context, MAX_DECODED).Some?
    }

    /** Every plaintext deleted since change `from` had the identity found by observation `at`. */
    ghost predicate DeletedAs(from: nat, at: nat)
      reads this, disk
    {
      forall i :: from <= i < |disk.visible| && disk.visible[i].path == plaintext ==>
        IsDelete(disk.visible[i]) && SeenAt(at, IdentityOf(disk.visible[i].before.value))
    }

    /** `seal_local_recovery_preimage_with`. */
    method Seal(idle: bool) returns (r: SealResult)
      requires Valid() && !disk.crashed
      modifies disk
      ensures Valid() && disk.shared == old(disk.shared)
      ensures old(disk.visible) <= disk.visible && AttemptChanges(disk.visible[|old(disk.visible)|..])
      ensures old(disk.probed) <= disk.probed && disk.starts == old(disk.starts)
      ensures SameBut(old(disk.files), disk.files, {plaintext, sealed}, old(disk.nextSerial), disk.nextSerial)
      // An envelope that was there before is never touched.
      ensures old(At(disk.files, sealed)).Some? ==> At(disk.files, sealed) == old(At(disk.files, sealed))
      // What was deleted can be opened; and whatever edits there were, it has the inode, mode and
      // length that the attempt first saw.
      ensures idle ==> Kept(|old(disk.visible)|)
      ensures DeletedAs(|old(disk.visible)|, |old(disk.probed)|)
      // No temporary sibling of the envelope stays, when removals succeed.
      ensures !disk.removeFailed ==> SiblingsGone(disk.files, sealed, old(disk.nextSerial), disk.nextSerial)
      // With nobody editing, a new envelope holds the plaintext.
      ensures (disk.shared == {} && old(At(disk.files, sealed)) == None && old(At(disk.files, plaintext)).Some?
               && old(At(disk.files, plaintext)).value.File?) ==>
        At(disk.files, sealed) == None || OpensTo(At(disk.files, sealed), context, old(At(disk.files, plaintext)).value.content)
      // An attempt that gives up on the plaintext leaves no envelope of its own.
      ensures (old(At(disk.files, sealed)) == None && r in {Revalidation, Cleanup}) ==>
        At(disk.files, sealed) == None || sealed in disk.unremoved
      // Nothing but the final deletion touches the plaintext.
      ensures disk.shared == {} ==>
        || At(disk.files, plaintext) == old(At(disk.files, plaintext))
        || (At(disk.files, plaintext) == None && old(At(disk.files, plaintext)).Some?
            && old(At(disk.files, plaintext)).value.File?
            && OpensTo(At(disk.files, sealed), context, old(At(disk.files, plaintext)).value.content))
      ensures r == Complete ==> exists d :: OpensTo(At(disk.files, sealed), context, d)
      ensures r == Complete && disk.shared == {} ==> At(disk.files, plaintext) == None
      ensures r == PlaintextMissing && disk.shared == {} ==>
        old(At(disk.files, plaintext)) == None && old(At(disk.files, sealed)) == None
      // Success is reported only if every step succeeded, inspections and clean-ups aside.
      ensures r == Complete ==> disk.faulted == old(disk.faulted) || disk.probeFailed || disk.removeFailed
      // Without faults or edits the attempt succeeds whenever it can.
      ensures disk.shared == {} && SealableFrom(old(At(disk.files, plaintext)), old(At(disk.files, sealed))) ==>
        r == Complete || disk.faulted
    {
      var expected: Identity;
      var doc: Document;
      r, expected, doc := ReadStable();
      if r == PlaintextMissing {
        r := Resume();
        return;
      }
      if r != Complete {
        return;
      }
      r := SealRead(expected, doc, idle);
    }

    /** The attempt once it has the plaintext: publish, then delete or roll back. */
    method SealRead(expected: Identity, doc: Document, idle: bool) returns (r: SealResult)
      requires Valid()
      modifies disk
      ensures Valid() && disk.shared == old(disk.shared)
      ensures (old(disk.faulted) ==> disk.faulted) && (old(disk.removeFailed) ==> disk.removeFailed)
      ensures old(disk.probed) <= disk.probed && disk.starts == old(disk.starts) && old(disk.nextSerial) <= disk.nextSerial
      ensures old(disk.visible) <= disk.visible && AttemptChanges(disk.visible[|old(disk.visible)|..])
      ensures forall i :: |old(disk.visible)| <= i < |disk.visible| && disk.visible[i].path == plaintext ==>
        && IsDelete(disk.visible[i]) && IdentityOf(disk.visible[i].before.value) == expected
        && OpensTo(At(disk.files, sealed), context, doc) && (idle ==> disk.visible[i].before.value.content == doc)
      ensures SameBut(old(disk.files), disk.files, disk.shared + {plaintext, sealed}, old(disk.nextSerial), disk.nextSerial)
      ensures old(At(disk.files, sealed)).Some? ==> At(disk.files, sealed) == old(At(disk.files, sealed))
      ensures old(At(disk.files, sealed)) == None ==> At(disk.files, sealed) == None || OpensTo(At(disk.files, sealed), context, doc)
      ensures (old(At(disk.files, sealed)) == None && r in {Revalidation, Cleanup}) ==>
        At(disk.files, sealed) == None || sealed in disk.unremoved
      ensures !disk.removeFailed ==> SiblingsGone(disk.files, sealed, old(disk.nextSerial), disk.nextSerial)
      ensures disk.shared == {} ==>
        || At(disk.files, plaintext) == old(At(disk.files, plaintext))
        || (At(disk.files, plaintext) == None && Holds(old(At(disk.files, plaintext)), doc)
            && OpensTo(At(disk.files, sealed), context, doc))
      ensures r == Complete ==> OpensTo(At(disk.files, sealed), context, doc) && At(disk.files, plaintext) == None
      ensures r == Complete ==> disk.faulted == old(disk.faulted) || disk.probeFailed || disk.removeFailed
      ensures r != PlaintextMissing
      ensures (disk.shared == {} && Holds(old(At(disk.files, plaintext)), doc)
               && IdentityOf(old(At(disk.files, plaintext)).value) == expected
               && (old(At(disk.files, sealed)) == None || OpensTo(old(At(disk.files, sealed)), context, doc))) ==>
        r == Complete || disk.faulted
    {
      var publishedNew: bool;
      r, publishedNew := Publish(doc);
      if r != Complete {
        return;
      }
      r := Finish(expected, doc, idle, publishedNew);
    }

    /** Every plaintext deleted since change `from` had the identity that one of the attempts from
        the `first` start on saw first. */
    ghost predicate DeletedBySome(from: nat, first: nat)
      reads this, disk
    {
      forall i :: from <= i < |disk.visible| && disk.visible[i].path == plaintext ==>
        && IsDelete(disk.visible[i])
        && exists k :: first <= k < |disk.starts| && SeenAt(disk.starts[k], IdentityOf(disk.visible[i].before.value))
    }

    /** The plaintext `first` is there, with no envelope or one that holds it; or it is gone and sealed. */
    ghost predicate InHand(files: map<Path, Entry<Document>>, first: Entry<Document>) {
      && first.File?
      && (|| (At(files, plaintext) == Some(first) && (At(files, sealed) == None || OpensTo(At(files, sealed), context, first.content)))
          || SealedAway(files, first))
    }

    ghost predicate SealedAway(files: map<Path, Entry<Document>>, first: Entry<Document>) {
      first.File? && At(files, plaintext) == None && OpensTo(At(files, sealed), context, first.content)
    }

    /** One of them, after `from` changes and since the `first` start. */
    method Attempt(idle: bool, ghost from: nat, ghost first: nat)
      requires Valid() && from <= |disk.visible| && first <= |disk.starts| && DeletedBySome(from, first)
      requires idle ==> Kept(from)
      modifies disk
      ensures Valid() && disk.shared == old(disk.shared) && old(disk.visible) <= disk.visible
      ensures |disk.starts| == |old(disk.starts)| + 1 && DeletedBySome(from, first)
      ensures idle ==> Kept(from)
      ensures forall e :: disk.shared == {} && InHand(old(disk.files), e) ==> InHand(disk.files, e) && (SealedAway(disk.files, e) || disk.faulted)
      ensures old(At(disk.files, sealed)).Some? ==> At(disk.files, sealed) == old(At(disk.files, sealed))
      ensures disk.shared == {} ==>
        || At(disk.files, plaintext) == old(At(disk.files, plaintext))
        || (At(disk.files, plaintext) == None && old(At(disk.files, plaintext)).Some?
            && old(At(disk.files, plaintext)).value.File?
            && OpensTo(At(disk.files, sealed), context, old(At(disk.files, plaintext)).value.content))
    {
      ghost var last := |disk.starts|;
      disk.Restart();
      var _ := Seal(idle);
      forall i | from <= i < |disk.visible| && disk.visible[i].path == plaintext
        ensures IsDelete(disk.visible[i])
        ensures exists k :: first <= k < |disk.starts| && SeenAt(disk.starts[k], IdentityOf(disk.visible[i].before.value))
      {
        if i < |old(disk.visible)| {
          assert disk.visible[i] == old(disk.visible)[i];
          var k :| first <= k < last && old(SeenAt(disk.starts[k], IdentityOf(disk.visible[i].before.value)));
          assert SeenAt(disk.starts[k], IdentityOf(disk.visible[i].before.value));
        } else {
          assert SeenAt(disk.starts[last], IdentityOf(disk.visible[i].before.value));
        }
      }
    }

    /** Any number of attempts, one after the other, each cut by a crash or failed at any operation. */
    method Attempts(n: nat, idle: bool)
      requires Valid()
      modifies disk
      ensures Valid() && disk.shared == old(disk.shared) && old(disk.visible) <= disk.visible
      // No attempt ever changes an envelope that was there at the start.
      ensures old(At(disk.files, sealed)).Some? ==> At(disk.files, sealed) == old(At(disk.files, sealed))
      // Whatever plaintext was deleted, and whenever, the envelope still holds it.
      ensures idle ==> Kept(|old(disk.visible)|)
      // And whatever edits come when, what is deleted has the identity its attempt saw first.
      ensures |disk.starts| == |old(disk.starts)| + n && DeletedBySome(|old(disk.visible)|, |old(disk.starts)|)
      // Once an attempt in which nothing fails comes, the plaintext is sealed and gone.
      ensures forall e :: n > 0 && disk.shared == {} && InHand(old(disk.files), e) ==> SealedAway(disk.files, e) || disk.faulted
      // With nobody else editing, the starting plaintext is never lost.
      ensures disk.shared == {} && old(At(disk.files, plaintext)).Some? && old(At(disk.files, plaintext)).value.File? ==>
        || At(disk.files, plaintext) == old(At(disk.files, plaintext))
        || (At(disk.files, plaintext) == None
            && OpensTo(At(disk.files, sealed), context, old(At(disk.files, plaintext)).value.content))
    {
      for i := 0 to n
        invariant Valid() && disk.shared == old(disk.shared) && old(disk.visible) <= disk.visible
        invariant |disk.starts| == |old(disk.starts)| + i && DeletedBySome(|old(disk.visible)|, |old(disk.starts)|)
        invariant old(At(disk.files, sealed)).Some? ==> At(disk.files, sealed) == old(At(disk.files, sealed))
        invariant idle ==> Kept(|old(disk.visible)|)
        invariant forall e :: disk.shared == {} && InHand(old(disk.files), e) ==> InHand(disk.files, e) && (i > 0 ==> SealedAway(disk.files, e) || disk.faulted)
        invariant disk.shared == {} && old(At(disk.files, plaintext)).Some? && old(At(disk.files, plaintext)).value.File? ==>
          || At(disk.files, plaintext) == old(At(disk.files, plaintext))
          || (At(disk.files, plaintext) == None
              && OpensTo(At(disk.files, sealed), context, old(At(disk.files, plaintext)).value.content))
      {
        Attempt(idle, |old(disk.visible)|, |old(disk.starts)|);
      }
    }
  }
}
