/**
 The staged atomic write of `fs_atomic.rs`: fill a private temporary sibling, then commit it
 by rename (replace) or by hard link (no-replace), with a copying fallback when source and
 destination live on different devices.
 */
module AtomicFile {
  import opened Prelude
  import opened Filesystem

  datatype WriteOptions = WriteOptions(mode: nat, rejectSymlink: bool, replaceExisting: bool)

  /** The temporary siblings of `final` stamped in [lo, hi) are all gone. */
  ghost predicate SiblingsGone<C>(files: map<Path, Entry<C>>, final: Path, lo: nat, hi: nat)
    requires final.name.Ordinary?
  {
    forall s: nat :: lo <= s < hi ==> At(files, Path(final.dir, Temporary(final.name.text, s))) == None
  }

  /** A complete regular file holding `content`. */
  predicate Holds<C(==)>(e: Option<Entry<C>>, content: C) {
    e.Some? && e.value.File? && e.value.content == content
  }

  /** The commit put the complete content at `final` in one step and did nothing else visible. */
  ghost predicate Published<C>(before: seq<Change<C>>, after: seq<Change<C>>, final: Path, mode: nat, content: C) {
    && |after| == |before| + 1
    && before == after[..|before|]
    && after[|before|].path == final
    && Holds(after[|before|].after, content) && after[|before|].after.value.mode == mode
  }

  /** ... and the name was free the instant before. */
  ghost predicate PublishedFresh<C>(before: seq<Change<C>>, after: seq<Change<C>>, final: Path, mode: nat, content: C) {
    Published(before, after, final, mode, content) && after[|before|].before == None
  }

  class StagedAtomicFile<C(0, ==, !new)> {
    const disk: Disk<C>
    const temp: Path
    const final: Path
    ghost const content: C
    ghost const mode: nat
    var committed: bool

    /** A filled, uncommitted staging file. */
    ghost predicate Staged()
      reads this, disk
    {
      && disk.Valid()
      && final.name.Ordinary?
      && temp.name.Temporary?
      && temp == Path(final.dir, Temporary(final.name.text, temp.name.serial))
      && temp.name.serial < disk.nextSerial
      && !committed
      && Holds(At(disk.files, temp), content) && At(disk.files, temp).value.mode == mode
    }

    constructor (disk: Disk<C>, temp: Path, final: Path, ghost mode: nat, ghost content: C)
      requires disk.Valid() && final.name.Ordinary?
      requires temp.name.Temporary? && temp == Path(final.dir, Temporary(final.name.text, temp.name.serial))
      requires temp.name.serial < disk.nextSerial
      requires Holds(At(disk.files, temp), content) && At(disk.files, temp).value.mode == mode
      ensures Staged() && this.disk == disk && this.temp == temp && this.final == final
      ensures this.content == content && this.mode == mode
    {
      this.disk, this.temp, this.final := disk, temp, final;
      this.mode, this.content := mode, content;
      committed := false;
    }

    /** What a no-replace commit at `at` may have done: nothing, or publish there once while
        the name was free. No later state of `at` is of this process's making. */
    twostate predicate NoReplaceCommit(at: Path, r: Outcome)
      requires at.name.Ordinary?
      reads disk
    {
      && disk.Steady()
      && SameBut(old(disk.files), disk.files, disk.shared + {temp, at}, old(disk.nextSerial), disk.nextSerial)
      && (disk.visible == old(disk.visible) || PublishedFresh(old(disk.visible), disk.visible, at, mode, content))
      && (r == Done ==> disk.visible != old(disk.visible) && at.dir !in disk.unsynced)
      && (r in {Done, AlreadyExists} ==> disk.faulted == old(disk.faulted) || disk.probeFailed || disk.removeFailed)
      && (at !in disk.shared ==>
            if disk.visible == old(disk.visible) then
              At(disk.files, at) == old(At(disk.files, at))
            else
              old(At(disk.files, at)) == None && At(disk.files, at) == disk.visible[|old(disk.visible)|].after)
      && (r == AlreadyExists ==> disk.visible == old(disk.visible))
      && (r == AlreadyExists && at !in disk.shared ==> old(At(disk.files, at)).Some?)
      && (!disk.removeFailed ==> SiblingsGone(disk.files, at, old(disk.nextSerial), disk.nextSerial))
      && (r == InvalidInput ==> disk.device(temp.dir) != disk.device(at.dir))
      && (r in {Done, AlreadyExists} || disk.faulted ||
          (at in disk.shared && disk.device(temp.dir) != disk.device(at.dir)))
    }

    /** `Drop`: an uncommitted value removes its private sibling. */
    method Drop()
      requires disk.Valid() && temp.name.Temporary?
      modifies disk
      ensures disk.Steady() && disk.nextSerial == old(disk.nextSerial) && disk.visible == old(disk.visible)
      ensures SameBut(old(disk.files), disk.files, disk.shared + {temp}, 0, 0)
      ensures old(At(disk.files, temp)) == None ==> At(disk.files, temp) == None
      ensures !committed && !disk.removeFailed ==> At(disk.files, temp) == None
      ensures committed ==> disk.files == old(disk.files) && disk.unsynced == old(disk.unsynced) && disk.faulted == old(disk.faulted)
      ensures disk.faulted == old(disk.faulted) || disk.removeFailed
    {
      if !committed {
        var _ := disk.Remove(temp);
      }
    }

    method CommitReplace() returns (r: Outcome)
      requires Staged()
      modifies this, disk
      ensures disk.Steady() && disk.nextSerial == old(disk.nextSerial)
      ensures SameBut(old(disk.files), disk.files, disk.shared + {temp, final}, 0, 0)
      ensures disk.visible == old(disk.visible) || Published(old(disk.visible), disk.visible, final, mode, content)
      // Success is durable: the new name is synced, and nothing failed.
      ensures r == Done ==> disk.visible != old(disk.visible) && final.dir !in disk.unsynced && disk.faulted == old(disk.faulted)
      ensures final !in disk.shared ==>
        if disk.visible == old(disk.visible) then
          At(disk.files, final) == old(At(disk.files, final))
        else
          At(disk.files, final) == disk.visible[|old(disk.visible)|].after
      ensures !disk.removeFailed ==> At(disk.files, temp) == None
      ensures r == Done || (r in {NotFound, Failed} && disk.faulted)
    {
      r := disk.Rename(temp, final);
      if r == Done {
        committed := true;
        r := disk.SyncParent(final);
      }
      Drop();
    }

    /** `commit_no_replace` (`at == final`) and `commit_no_replace_at`. */
    method CommitNoReplaceAt(at: Path) returns (r: Outcome)
      requires Staged() && at.name.Ordinary?
      modifies this, disk
      ensures NoReplaceCommit(at, r)
      ensures !disk.removeFailed ==> At(disk.files, temp) == None
      decreases if disk.device(temp.dir) == disk.device(at.dir) then 0 else 1, 3
    {
      r := CommitNoReplaceInner(at);
      Drop();
    }

    method CommitNoReplaceInner(at: Path) returns (r: Outcome)
      requires Staged() && at.name.Ordinary?
      modifies this, disk
      ensures NoReplaceCommit(at, r)
      ensures committed ==> At(disk.files, temp) == None
      ensures r == Done ==> committed
      decreases if disk.device(temp.dir) == disk.device(at.dir) then 0 else 1, 2
    {
      r := disk.Link(temp, at);
      if r == CrossesDevices {
        r := CommitCrossDevice(at);
        return;
      }
      if r != Done {
        return;
      }
      r := Unlink();
      if r != Done {
        return;
      }
      r := disk.SyncParent(at);
    }

    /** The staging name goes; from here on the file is committed. */
    method Unlink() returns (r: Outcome)
      requires disk.Valid() && temp.name.Temporary? && At(disk.files, temp).Some? && !committed
      modifies this, disk
      ensures disk.Steady() && disk.nextSerial == old(disk.nextSerial) && disk.visible == old(disk.visible)
      ensures SameBut(old(disk.files), disk.files, disk.shared + {temp}, 0, 0)
      ensures r == Done || (r == Failed && disk.faulted)
      ensures committed <==> r == Done
      ensures r == Done ==> disk.faulted == old(disk.faulted) && At(disk.files, temp) == None
      ensures r == Done ==> disk.unsynced == old(disk.unsynced) - {temp.dir}
    {
      r := disk.Remove(temp);
      if r != Done {
        return;
      }
      r := disk.SyncParent(temp);
      if r != Done {
        return;
      }
      committed := true;
    }

    /** The fallback for a destination on another device. */
    method CommitCrossDevice(at: Path) returns (r: Outcome)
      requires Staged() && at.name.Ordinary?
      requires disk.device(temp.dir) != disk.device(at.dir)
      modifies this, disk
      ensures NoReplaceCommit(at, r)
      ensures committed ==> At(disk.files, temp) == None
      ensures r == Done ==> committed
      decreases 1, 1
    {
      r := CopyAcross(at);
      if r != Done {
        return;
      }
      r := Unlink();
    }

    /** What the copying fallback checks first: a free destination and a regular source. */
    method Inspect(at: Path) returns (r: Outcome, source: Option<Entry<C>>)
      requires Staged() && at.name.Ordinary?
      modifies disk
      ensures disk.Idle() && disk.removeFailed == old(disk.removeFailed)
      ensures source.Some? ==> source.value.File? && source.value.content == content && source.value.mode == mode
      ensures source.Some? ==> disk.faulted == old(disk.faulted)
      ensures source.Some? && at !in disk.shared ==> old(At(disk.files, at)) == None
      ensures source == None ==> r == AlreadyExists || (r == Failed && disk.faulted)
      ensures r == AlreadyExists ==> disk.faulted == old(disk.faulted)
      ensures r == AlreadyExists && at !in disk.shared ==> old(At(disk.files, at)).Some?
    {
      r, source := Failed, None;
      var existing := disk.Probe(at);
      if existing.Found? {
        return AlreadyExists, None;
      }
      if existing.Unreadable? {
        return;
      }
      var found := disk.Probe(temp);
      if !found.Found? {
        return;
      }
      if !found.entry.File? {
        return InvalidInput, None;
      }
      source := Some(found.entry);
    }

    /** Copies into a sibling of the destination and commits that without replacing. */
    method CopyAcross(at: Path) returns (r: Outcome)
      requires Staged() && at.name.Ordinary?
      requires disk.device(temp.dir) != disk.device(at.dir)
      modifies disk
      ensures NoReplaceCommit(at, r)
      ensures At(disk.files, temp) == old(At(disk.files, temp))
      decreases 1, 0
    {
      var source: Option<Entry<C>>;
      r, source := Inspect(at);
      if source == None {
        return;
      }
      r := CommitCopy(at, source.value.mode, source.value.content);
    }

    /** A second staging file beside the destination, with the same bytes, committed there. */
    method CommitCopy(at: Path, permissions: nat, bytes: C) returns (r: Outcome)
      requires disk.Valid() && at.name.Ordinary? && permissions == mode && bytes == content
      modifies disk
      ensures disk.Steady()
      ensures SameBut(old(disk.files), disk.files, disk.shared + {at}, old(disk.nextSerial), disk.nextSerial)
      ensures disk.visible == old(disk.visible) || PublishedFresh(old(disk.visible), disk.visible, at, mode, content)
      ensures r == Done ==> disk.visible != old(disk.visible) && at.dir !in disk.unsynced
      ensures r in {Done, AlreadyExists} ==> disk.faulted == old(disk.faulted) || disk.probeFailed || disk.removeFailed
      ensures at !in disk.shared ==>
        if disk.visible == old(disk.visible) then
          At(disk.files, at) == old(At(disk.files, at))
        else
          old(At(disk.files, at)) == None && At(disk.files, at) == disk.visible[|old(disk.visible)|].after
      ensures r == AlreadyExists ==> disk.visible == old(disk.visible)
      ensures r == AlreadyExists && at !in disk.shared ==> old(At(disk.files, at)).Some?
      ensures !disk.removeFailed ==> SiblingsGone(disk.files, at, old(disk.nextSerial), disk.nextSerial)
      ensures r in {Done, AlreadyExists} || disk.faulted || at in disk.shared || old(At(disk.files, at)) == Some(Symlink)
      decreases 0, 4
    {
      var destination: StagedAtomicFile?<C>;
      r, destination := Stage(disk, at, WriteOptions(permissions, true, false), Some(bytes));
      if destination != null {
        r := destination.CommitNoReplaceAt(at);
      }
    }
  }

  /** `stage_atomic_with_parent_policy`: nothing visible changes; a failure removes the sibling. */
  method Stage<C(0, ==, !new)>(disk: Disk<C>, final: Path, options: WriteOptions, write: Option<C>)
    returns (r: Outcome, staged: StagedAtomicFile?<C>)
    requires disk.Valid() && final.name.Ordinary?
    modifies disk
    ensures disk.Steady() && disk.visible == old(disk.visible)
    ensures SameBut(old(disk.files), disk.files, disk.shared, old(disk.nextSerial), disk.nextSerial)
    ensures disk.nextSerial <= old(disk.nextSerial) + 1
    ensures staged != null <==> r == Done
    ensures staged != null ==>
      && fresh(staged) && staged.Staged() && staged.disk == disk && staged.final == final
      && write == Some(staged.content) && staged.mode == options.mode
      && staged.temp.name.serial == old(disk.nextSerial) && disk.nextSerial == old(disk.nextSerial) + 1
    ensures staged == null && !disk.removeFailed ==>
      SiblingsGone(disk.files, final, old(disk.nextSerial), disk.nextSerial)
    ensures r == Done ==> disk.faulted == old(disk.faulted) || disk.probeFailed
    ensures r != AlreadyExists && (r == InvalidInput && !options.rejectSymlink ==> write.None?)
    ensures write.None? ==> r == InvalidInput || disk.faulted
    ensures options.rejectSymlink && final !in disk.shared && old(At(disk.files, final)) == Some(Symlink) ==>
      r == InvalidInput || disk.probeFailed
    ensures r == Done || disk.faulted || write.None? ||
      (options.rejectSymlink && (final in disk.shared || old(At(disk.files, final)) == Some(Symlink)))
  {
    staged := null;
    if options.rejectSymlink {
      var target := disk.Probe(final);
      if target.Found? && target.entry.Symlink? {
        return InvalidInput, null;
      }
    }
    r := disk.Touch();
    if r != Done {
      return;
    }
    var temp;
    r, temp := FillTemporary(disk, final, options.mode, write);
    if r == Done {
      staged := new StagedAtomicFile(disk, temp, final, options.mode, write.value);
    }
  }

  /** The filling half of `stage_atomic_with_parent_policy`: clear a stale sibling, write, and clean up
      after a failed write. */
  method FillTemporary<C(0, ==, !new)>(disk: Disk<C>, final: Path, mode: nat, write: Option<C>)
    returns (r: Outcome, temp: Path)
    requires disk.Valid() && final.name.Ordinary?
    modifies disk
    ensures disk.Steady() && disk.visible == old(disk.visible)
    ensures SameBut(old(disk.files), disk.files, disk.shared, old(disk.nextSerial), disk.nextSerial)
    ensures disk.nextSerial == old(disk.nextSerial) + 1
    ensures temp == Path(final.dir, Temporary(final.name.text, old(disk.nextSerial)))
    ensures r == Done ==> write.Some? && Holds(At(disk.files, temp), write.value)
    // The file has its mode from the first byte on, whatever becomes of the write.
    ensures r == Done || At(disk.files, temp) != old(At(disk.files, temp)) ==>
      At(disk.files, temp) == None || (At(disk.files, temp).value.File? && At(disk.files, temp).value.mode == mode)
    ensures r != Done && !disk.removeFailed ==> At(disk.files, temp) == None
    ensures r == Done || (r == InvalidInput && write.None?) || (r == Failed && disk.faulted)
    ensures r == Done ==> disk.faulted == old(disk.faulted)
  {
    temp := disk.TemporarySibling(final);
    r := disk.Remove(temp);
    if r == Failed {
      return;
    }
    r := disk.Fill(temp, mode, write);
    if r != Done {
      var _ := disk.Remove(temp);
    }
  }

  /** `write_atomic_with`. */
  method WriteAtomic<C(0, ==, !new)>(disk: Disk<C>, final: Path, options: WriteOptions, write: Option<C>)
    returns (r: Outcome)
    requires disk.Valid() && final.name.Ordinary?
    modifies disk
    ensures disk.Steady()
    ensures SameBut(old(disk.files), disk.files, disk.shared + {final}, old(disk.nextSerial), disk.nextSerial)
    ensures disk.visible == old(disk.visible) ||
      (write.Some? && Published(old(disk.visible), disk.visible, final, options.mode, write.value) &&
       (!options.replaceExisting ==> PublishedFresh(old(disk.visible), disk.visible, final, options.mode, write.value)))
    ensures r == Done ==> disk.visible != old(disk.visible) && final.dir !in disk.unsynced
    ensures r in {Done, AlreadyExists} ==> disk.faulted == old(disk.faulted) || disk.probeFailed || disk.removeFailed
    ensures final !in disk.shared ==>
      if disk.visible == old(disk.visible) then
        At(disk.files, final) == old(At(disk.files, final))
      else
        && At(disk.files, final) == disk.visible[|old(disk.visible)|].after
        && (!options.replaceExisting ==> old(At(disk.files, final)) == None)
    ensures r == AlreadyExists ==> disk.visible == old(disk.visible) && !options.replaceExisting && write.Some?
    ensures r == InvalidInput && !options.rejectSymlink ==> write.None?
    ensures write.None? ==> r == InvalidInput || disk.faulted
    ensures options.rejectSymlink && final !in disk.shared && old(At(disk.files, final)) == Some(Symlink) ==>
      (r == InvalidInput && disk.visible == old(disk.visible)) || disk.probeFailed
    ensures r == AlreadyExists && final !in disk.shared ==> old(At(disk.files, final)).Some?
    ensures !disk.removeFailed ==>
      SiblingsGone(disk.files, final, old(disk.nextSerial), disk.nextSerial)
    ensures r in {Done, AlreadyExists} || disk.faulted || write.None? ||
      (options.rejectSymlink && (final in disk.shared || old(At(disk.files, final)) == Some(Symlink)))
  {
    if options.rejectSymlink {
      var target := disk.Probe(final);
      if target.Found? && target.entry.Symlink? {
        return InvalidInput;
      }
    }
    var staged: StagedAtomicFile?<C>;
    r, staged := Stage(disk, final, options, write);
    if staged == null {
      return;
    }
    if options.replaceExisting {
      r := staged.CommitReplace();
    } else {
      r := staged.CommitNoReplaceAt(final);
    }
  }
}
