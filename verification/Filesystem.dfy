/**
 A file system as the crash-safe protocols see it: one map from paths to entries, changed by
 one atomic operation at a time.

 Three kinds of trouble can strike before every operation:
 - outsiders may create, rewrite or delete anything under the `shared` paths;
 - the process may be killed: `crashed` becomes true and from then on no operation has an
   effect, so whatever a protocol's final state satisfies holds of every cut of every run;
 - the operation may fail without effect.
 */
module Filesystem {
  import opened Prelude

  /** Temporary siblings have reserved names, stamped with a serial number. */
  datatype Name = Ordinary(text: string) | Temporary(of: string, serial: nat)

  datatype Path = Path(dir: nat, name: Name)

  datatype Entry<+C> = File(inode: nat, mode: nat, content: C) | Symlink | Directory

  datatype Outcome = Done | NotFound | AlreadyExists | CrossesDevices | InvalidInput | Failed

  datatype Probe<+C> = Found(entry: Entry<C>) | Absent | Unreadable

  /** One change this process made to an ordinary (non-temporary) name. */
  datatype Change<+C> = Change(path: Path, before: Option<Entry<C>>, after: Option<Entry<C>>)

  function At<C>(files: map<Path, Entry<C>>, p: Path): Option<Entry<C>> {
    if p in files then Some(files[p]) else None
  }

  /** A temporary sibling stamped in the serial window [lo, hi). */
  predicate Fresh(p: Path, lo: nat, hi: nat) {
    p.name.Temporary? && lo <= p.name.serial < hi
  }

  /** Outside `except` and the serial window, both states hold the same entries. */
  ghost predicate SameBut<C(!new)>(a: map<Path, Entry<C>>, b: map<Path, Entry<C>>,
                                   except: set<Path>, lo: nat, hi: nat)
  {
    forall p :: p !in except && !Fresh(p, lo, hi) ==> At(a, p) == At(b, p)
  }

  class Disk<C(0, !new)> {
    var files: map<Path, Entry<C>>
    var crashed: bool
    var nextSerial: nat
    /** Which device a directory lives on. */
    const device: nat -> nat
    /** Paths that outsiders may touch. */
    var shared: set<Path>
    ghost var faulted: bool
    ghost var removeFailed: bool
    ghost var probeFailed: bool
    /** Paths whose removal failed, and directories changed since they were last synced. */
    ghost var unremoved: set<Path>
    ghost var unsynced: set<nat>
    ghost var visible: seq<Change<C>>
    /** Every observation of a path, and how many had been made at each start of the process. */
    ghost var probed: seq<(Path, Option<Entry<C>>)>
    ghost var starts: seq<nat>

    ghost predicate Valid()
      reads this
    {
      && (crashed ==> faulted)
      && (removeFailed ==> faulted)
      && forall p :: p in shared ==> p.name.Ordinary?
    }

    constructor (files: map<Path, Entry<C>>, device: nat -> nat, shared: set<Path>)
      requires forall p :: p in shared ==> p.name.Ordinary?
      ensures Valid() && this.files == files && this.device == device && this.shared == shared
      ensures !crashed && !faulted && visible == []
    {
      this.files := files;
      this.device := device;
      this.shared := shared;
      crashed, nextSerial := false, 1;
      faulted, removeFailed, probeFailed, visible := false, false, false, [];
      probed, starts, unremoved, unsynced := [], [], {}, {};
    }

    /** What every operation keeps, whatever happens. */
    twostate predicate Steady()
      reads this
    {
      && Valid()
      && shared == old(shared)
      && old(nextSerial) <= nextSerial
      && (old(crashed) ==> crashed)
      && (old(faulted) ==> faulted)
      && (old(removeFailed) ==> removeFailed)
      && (old(probeFailed) ==> probeFailed)
      && old(unremoved) <= unremoved
      && old(visible) <= visible
      && old(probed) <= probed && starts == old(starts)
    }

    /** An operation that left the files alone, apart from what outsiders did. */
    twostate predicate Idle()
      reads this
    {
      && Steady()
      && nextSerial == old(nextSerial)
      && visible == old(visible)
      && SameBut(old(files), files, shared, 0, 0)
    }

    /** The process is started again after a crash or an error return. */
    method Restart()
      requires Valid()
      modifies this
      ensures Valid() && !crashed && !faulted && !removeFailed
      ensures files == old(files) && shared == old(shared) && visible == old(visible)
      ensures probed == old(probed) && starts == old(starts) + [|probed|]
    {
      starts := starts + [|probed|];
      var serial: nat := *;
      nextSerial := serial;
      crashed, faulted, removeFailed, probeFailed := false, false, false, false;
    }

    /** Outsiders act, then the process may be killed or the next operation may fail. */
    method Disturb() returns (fails: bool)
      requires Valid()
      modifies this
      ensures Idle() && probed == old(probed)
      ensures removeFailed == old(removeFailed) && probeFailed == old(probeFailed)
      ensures unsynced == old(unsynced) && unremoved == old(unremoved)
      ensures fails ==> faulted
      ensures crashed ==> fails
      ensures !fails ==> faulted == old(faulted)
    {
      var steps: nat := *;
      while steps > 0
        invariant SameBut(old(files), files, shared, 0, 0)
        invariant unchanged(`shared) && unchanged(`visible) && unchanged(`nextSerial)
        invariant unchanged(`crashed) && unchanged(`faulted) && unchanged(`removeFailed)
        invariant unchanged(`probed) && unchanged(`probeFailed) && unchanged(`starts)
        invariant unchanged(`unremoved) && unchanged(`unsynced)
      {
        var p: Path := *;
        var e: Entry<C> := *;
        if p in shared {
          if * {
            files := files[p := e];
          } else {
            files := files - {p};
          }
        }
        steps := steps - 1;
      }
      fails := crashed;
      if * {
        crashed, fails := true, true;
      } else if * {
        fails := true;
      }
      if fails {
        faulted := true;
      }
    }

    /** `symlink_metadata`, or reading a file: what is at `p` right now. */
    method Probe(p: Path) returns (r: Probe<C>)
      requires Valid()
      modifies this
      ensures Idle() && removeFailed == old(removeFailed) && unsynced == old(unsynced)
      ensures r.Found? ==> At(files, p) == Some(r.entry)
      ensures r.Absent? ==> At(files, p) == None
      ensures r.Unreadable? ==> faulted && probeFailed
      ensures crashed ==> r.Unreadable?
      ensures !r.Unreadable? ==> faulted == old(faulted)
      ensures r.Found? ==> |old(probed)| < |probed| && probed[|old(probed)|] == (p, Some(r.entry))
    {
      var fails := Disturb();
      if fails {
        probeFailed := true;
        r := Unreadable;
      } else if p in files {
        r := Found(files[p]);
        probed := probed + [(p, Some(files[p]))];
      } else {
        r := Absent;
        probed := probed + [(p, None)];
      }
    }

    /** A step that can fail but changes no entry: chmod, creating parent directories. */
    method Touch() returns (r: Outcome)
      requires Valid()
      modifies this
      ensures Idle() && removeFailed == old(removeFailed) && unsynced == old(unsynced)
      ensures r == Done || r == Failed
      ensures r == Failed ==> faulted
      ensures crashed ==> r == Failed
      ensures r == Done ==> faulted == old(faulted)
    {
      var fails := Disturb();
      r := if fails then Failed else Done;
    }

    /** `sync_parent_for_path`. */
    method SyncParent(p: Path) returns (r: Outcome)
      requires Valid()
      modifies this
      ensures Idle() && removeFailed == old(removeFailed)
      ensures r == Done || r == Failed
      ensures r == Failed ==> faulted
      ensures crashed ==> r == Failed
      ensures r == Done ==> faulted == old(faulted)
      ensures unsynced == if r == Done then old(unsynced) - {p.dir} else old(unsynced)
    {
      var fails := Disturb();
      if fails {
        return Failed;
      }
      unsynced := unsynced - {p.dir};
      return Done;
    }

    /** The next temporary sibling of `final` (`temp_sibling`). */
    method TemporarySibling(final: Path) returns (temp: Path)
      requires Valid() && final.name.Ordinary?
      modifies this`nextSerial
      ensures Steady()
      ensures temp == Path(final.dir, Temporary(final.name.text, old(nextSerial)))
      ensures nextSerial == old(nextSerial) + 1
    {
      temp := Path(final.dir, Temporary(final.name.text, nextSerial));
      nextSerial := nextSerial + 1;
    }

    /** Creates and fills a temporary file (`create_new`, write, fsync). `write` is what the
        writer produces, or None when it gives up part way; a failure can leave any bytes. */
    method Fill(temp: Path, mode: nat, write: Option<C>) returns (r: Outcome)
      requires Valid() && temp.name.Temporary?
      modifies this
      ensures Steady() && nextSerial == old(nextSerial) && visible == old(visible)
      ensures removeFailed == old(removeFailed) && probeFailed == old(probeFailed)
      ensures SameBut(old(files), files, shared + {temp}, 0, 0)
      ensures r == Done ==> write.Some? && faulted == old(faulted) && old(At(files, temp)) == None
      ensures r == Done ==> exists i :: At(files, temp) == Some(File(i, mode, write.value))
      ensures At(files, temp) != old(At(files, temp)) ==>
        At(files, temp).Some? && At(files, temp).value.File? && At(files, temp).value.mode == mode
      ensures r == AlreadyExists ==> old(At(files, temp)).Some? && At(files, temp) == old(At(files, temp))
      ensures r == InvalidInput ==> write.None?
      ensures r in {Done, AlreadyExists, InvalidInput} || (r == Failed && faulted)
      ensures r == Done ==> !crashed
    {
      var fails := Disturb();
      if fails {
        return Failed;
      }
      if temp in files {
        return AlreadyExists;
      }
      var inode: nat := *;
      var part: C := *;
      files := files[temp := File(inode, mode, part)];
      fails := Disturb();
      if fails {
        return Failed;
      }
      if write.None? {
        return InvalidInput;
      }
      files := files[temp := File(inode, mode, write.value)];
      return Done;
    }

    method Remove(p: Path) returns (r: Outcome)
      requires Valid()
      modifies this
      ensures Steady() && nextSerial == old(nextSerial)
      ensures r in {Done, NotFound, Failed}
      ensures r != Failed ==> !crashed && removeFailed == old(removeFailed) && faulted == old(faulted)
      ensures r == Failed ==> Idle() && removeFailed
      ensures probeFailed == old(probeFailed)
      ensures unremoved == if r == Failed then old(unremoved) + {p} else old(unremoved)
      ensures unsynced == if r == Done then old(unsynced) + {p.dir} else old(unsynced)
      ensures r == NotFound ==> Idle() && At(files, p) == None
      ensures r == Done ==> SameBut(old(files), files, shared + {p}, 0, 0) && At(files, p) == None
      ensures r == Done && p !in shared ==> old(At(files, p)).Some?
      ensures r == Done && p.name.Ordinary? ==>
        && |visible| == |old(visible)| + 1
        && visible[|old(visible)|] == Change(p, visible[|old(visible)|].before, None)
        && visible[|old(visible)|].before.Some?
        && (p !in shared ==> visible[|old(visible)|].before == old(At(files, p)))
      ensures r == Done && p.name.Temporary? ==> visible == old(visible)
    {
      var fails := Disturb();
      if fails {
        removeFailed, unremoved := true, unremoved + {p};
        return Failed;
      }
      if p !in files {
        return NotFound;
      }
      if p.name.Ordinary? {
        visible := visible + [Change(p, Some(files[p]), None)];
      }
      files, unsynced := files - {p}, unsynced + {p.dir};
      return Done;
    }

    /** `rename`: the target takes the source's entry in one step, whatever it held. */
    method Rename(temp: Path, final: Path) returns (r: Outcome)
      requires Valid() && temp.name.Temporary? && final.name.Ordinary?
      modifies this
      ensures Steady() && nextSerial == old(nextSerial) && removeFailed == old(removeFailed)
      ensures r in {Done, NotFound, Failed}
      ensures r == Failed ==> faulted
      ensures r != Failed ==> !crashed && faulted == old(faulted)
      ensures r == NotFound ==> old(At(files, temp)) == None
      ensures r != Done ==> Idle() && unsynced == old(unsynced)
      ensures r == Done ==>
        && SameBut(old(files), files, shared + {temp, final}, 0, 0)
        && At(files, temp) == None
        && old(At(files, temp)).Some?
        && At(files, final) == old(At(files, temp))
        && unsynced == old(unsynced) + {temp.dir, final.dir}
        && |visible| == |old(visible)| + 1
        && visible[|old(visible)|] == Change(final, visible[|old(visible)|].before, At(files, final))
        && (final !in shared ==> visible[|old(visible)|].before == old(At(files, final)))
    {
      var fails := Disturb();
      if fails {
        return Failed;
      }
      if temp !in files {
        return NotFound;
      }
      visible := visible + [Change(final, At(files, final), Some(files[temp]))];
      files, unsynced := files[final := files[temp]] - {temp}, unsynced + {temp.dir, final.dir};
      return Done;
    }

    /** `hard_link`: gives the source's entry a second name, only if that name is free. */
    method Link(temp: Path, final: Path) returns (r: Outcome)
      requires Valid() && temp.name.Temporary? && final.name.Ordinary?
      modifies this
      ensures Steady() && nextSerial == old(nextSerial) && removeFailed == old(removeFailed)
      ensures r in {Done, NotFound, AlreadyExists, CrossesDevices, Failed}
      ensures r == Failed ==> faulted
      ensures r != Failed ==> !crashed && faulted == old(faulted)
      ensures r == NotFound ==> old(At(files, temp)) == None
      ensures r == CrossesDevices <==> r != Failed && r != NotFound && device(temp.dir) != device(final.dir)
      ensures r == AlreadyExists ==> At(files, final).Some?
      ensures r != Done ==> Idle() && unsynced == old(unsynced)
      ensures r == Done ==>
        && SameBut(old(files), files, shared + {final}, 0, 0)
        && old(At(files, temp)).Some?
        && At(files, final) == old(At(files, temp))
        && unsynced == old(unsynced) + {final.dir}
        && visible == old(visible) + [Change(final, None, At(files, final))]
        && (final !in shared ==> old(At(files, final)) == None)
    {
      var fails := Disturb();
      if fails {
        return Failed;
      }
      if temp !in files {
        return NotFound;
      }
      if device(temp.dir) != device(final.dir) {
        return CrossesDevices;
      }
      if final in files {
        return AlreadyExists;
      }
      visible := visible + [Change(final, None, Some(files[temp]))];
      files, unsynced := files[final := files[temp]], unsynced + {final.dir};
      return Done;
    }
  }
}
