/**
 Daemon log rotation (`daemon_logs.rs`): over the cap, the retained generations shift one
 older, the live file is renamed to generation 1, and the daemon's stream is pointed at a
 fresh live file. Records can be appended before every file operation, and every file
 operation can fail.
 */
module LogRotation {
  import opened Prelude

  type Inode = nat

  datatype Step = Done | NotFound | Failed

  datatype RotationOutcome =
    | Unchanged
    | Rotated
    | Unattached
    | InspectError
    | RetainError
    | ReattachError(restoredLiveFile: bool)

  datatype Event = Write(record: Bytes) | Pass

  /** What one generation holds. */
  ghost function Slot(names: map<nat, Inode>, content: map<Inode, Bytes>, g: nat): Bytes {
    if g in names && names[g] in content then content[names[g]] else []
  }

  /** What generations 0 to `top` hold; generation 0 is the live file. */
  ghost function Slots(names: map<nat, Inode>, content: map<Inode, Bytes>, top: nat): (slots: seq<Bytes>)
    ensures |slots| == top + 1
    ensures forall g :: 0 <= g <= top ==> slots[g] == Slot(names, content, g)
  {
    seq(top + 1, g requires 0 <= g => Slot(names, content, g))
  }

  /** Generations read one after the other, oldest first; generation 0, the live file, last. */
  ghost function Read(slots: seq<Bytes>): Bytes {
    if slots == [] then [] else slots[|slots| - 1] + Read(slots[..|slots| - 1])
  }

  lemma {:induction false} ReadSplit(slots: seq<Bytes>, k: nat)
    requires k <= |slots|
    ensures Read(slots) == Read(slots[k..]) + Read(slots[..k])
    decreases |slots| - k
  {
    if k == |slots| {
      assert slots[..k] == slots;
    } else {
      var n := |slots| - 1;
      ReadSplit(slots[..n], k);
      assert slots[..n][k..] == slots[k..][..n - k] && slots[..n][..k] == slots[..k];
    }
  }

  lemma {:induction false} ReadPair(slots: seq<Bytes>, g: nat)
    requires g + 1 < |slots|
    ensures Read(slots) == Read(slots[g + 2..]) + (slots[g + 1] + (slots[g] + Read(slots[..g])))
  {
    ReadSplit(slots, g + 2);
    var two, one := slots[..g + 2], slots[..g + 1];
    assert two[..g + 1] == one && one[..g] == slots[..g];
    assert Read(two) == two[g + 1] + Read(one);
    assert Read(one) == one[g] + Read(slots[..g]);
  }

  /** Moving a generation into an empty older slot is invisible to a reader. */
  lemma {:induction false} ReadShift(slots: seq<Bytes>, g: nat)
    requires g + 1 < |slots| && slots[g + 1] == []
    ensures Read(slots[g := []][g + 1 := slots[g]]) == Read(slots)
  {
    var shifted := slots[g := []][g + 1 := slots[g]];
    ReadPair(slots, g);
    ReadPair(shifted, g);
    assert shifted[g + 2..] == slots[g + 2..] && shifted[..g] == slots[..g];
  }

  /** Emptying the oldest slot drops exactly its bytes from the front. */
  lemma {:induction false} ReadDropOldest(slots: seq<Bytes>)
    requires slots != []
    ensures Read(slots[|slots| - 1 := []]) == Read(slots)[|slots[|slots| - 1]|..]
  {
    assert slots[|slots| - 1 := []][..|slots| - 1] == slots[..|slots| - 1];
  }

  /** Bytes added to the newest slot in use come out at the end. */
  lemma {:induction false} ReadAppend(slots: seq<Bytes>, at: nat, more: Bytes)
    requires at < |slots| && forall i :: 0 <= i < at ==> slots[i] == []
    ensures Read(slots[at := slots[at] + more]) == Read(slots) + more
  {
    var grown := slots[at := slots[at] + more];
    ReadSplit(slots, at + 1);
    ReadSplit(grown, at + 1);
    assert grown[at + 1..] == slots[at + 1..];
    assert grown[..at + 1][..at] == slots[..at] == slots[..at + 1][..at];
    ReadEmpty(slots[..at]);
  }

  lemma {:induction false} ReadEmpty(slots: seq<Bytes>)
    requires forall i :: 0 <= i < |slots| ==> slots[i] == []
    ensures Read(slots) == []
  {
    if slots != [] {
      ReadEmpty(slots[..|slots| - 1]);
    }
  }

  /** No inode has two names. */
  ghost predicate Injective(names: map<nat, Inode>) {
    forall g, h :: g in names && h in names && names[g] == names[h] ==> g == h
  }

  /** A write through a descriptor on generation `at`, when everything newer is empty. */
  lemma AppendSlots(names: map<nat, Inode>, content: map<Inode, Bytes>, at: nat, more: Bytes, top: nat)
    requires Injective(names) && at in names && at <= top && names[at] in content
    requires forall i :: 0 <= i < at ==> Slot(names, content, i) == []
    ensures var content' := content[names[at] := content[names[at]] + more];
      Read(Slots(names, content', top)) == Read(Slots(names, content, top)) + more
  {
    var slots := Slots(names, content, top);
    ReadAppend(slots, at, more);
    var content' := content[names[at] := content[names[at]] + more];
    assert Slots(names, content', top) == slots[at := slots[at] + more];
  }

  /** The names after renaming generation `g` to `g + 1`. */
  function Retired(names: map<nat, Inode>, g: nat): (names': map<nat, Inode>)
    requires g in names
    ensures Injective(names) ==> Injective(names')
    ensures forall h :: h in names' <==> h == g + 1 || (h != g && h in names)
    ensures forall h :: h in names' ==> names'[h] == if h == g + 1 then names[g] else names[h]
  {
    names[g + 1 := names[g]] - {g}
  }

  /** The rename of generation `g` onto `g + 1`. */
  lemma RetireSlots(names: map<nat, Inode>, content: map<Inode, Bytes>, g: nat, top: nat)
    requires g in names && g < top && (g + 1 in names ==> g + 1 == top)
    ensures |Slot(names, content, g + 1)| <= |Read(Slots(names, content, top))|
    ensures Read(Slots(Retired(names, g), content, top)) ==
      Read(Slots(names, content, top))[|Slot(names, content, g + 1)|..]
  {
    var slots := Slots(names, content, top);
    var trimmed := slots[g + 1 := []];
    if g + 1 == top {
      ReadDropOldest(slots);
    } else {
      assert trimmed == slots;
    }
    ReadShift(trimmed, g);
    assert Slots(Retired(names, g), content, top) == trimmed[g := []][g + 1 := trimmed[g]];
  }

  /** Putting generation 1 back over an absent or empty live file. */
  lemma RestoreSlots(names: map<nat, Inode>, content: map<Inode, Bytes>, top: nat)
    requires 1 in names && 1 <= top && Slot(names, content, 0) == []
    ensures Read(Slots(names[0 := names[1]] - {1}, content, top)) == Read(Slots(names, content, top))
  {
    var slots := Slots(names[0 := names[1]] - {1}, content, top);
    ReadShift(slots, 0);
    assert Slots(names, content, top) == slots[0 := []][1 := slots[0]];
  }

  lemma DiscardSlots(names: map<nat, Inode>, content: map<Inode, Bytes>)
    ensures |Slot(names, content, 1)| <= |Read(Slots(names, content, 1))|
    ensures Read(Slots(names - {1}, content, 1)) == Read(Slots(names, content, 1))[|Slot(names, content, 1)|..]
  {
    var slots := Slots(names, content, 1);
    ReadDropOldest(slots);
    assert slots[1 := []] == Slots(names - {1}, content, 1);
  }

  lemma DropFront(written: Bytes, dropped: nat, k: nat)
    requires dropped + k <= |written|
    ensures written[dropped..][k..] == written[dropped + k..]
  {
  }

  lemma AppendSuffix(written: Bytes, dropped: nat, more: Bytes)
    requires dropped <= |written|
    ensures written[dropped..] + more == (written + more)[dropped..]
  {
  }

  /** A new empty live file adds nothing to read. */
  lemma CreateSlots(names: map<nat, Inode>, content: map<Inode, Bytes>, inode: Inode, top: nat)
    requires 0 !in names && inode !in content && forall g :: g in names ==> names[g] in content
    ensures Slots(names[0 := inode], content[inode := []], top) == Slots(names, content, top)
  {
  }

  // ---- how old bytes are --------------------------------------------------------

  /** For each generation, how far into everything written it and the older ones reach; the last
      entry is how much has been dropped. A byte at or after `cuts[g]` is newer than `g`. */
  ghost predicate AreCuts(cuts: seq<nat>, names: map<nat, Inode>, content: map<Inode, Bytes>, dropped: nat, top: nat) {
    && |cuts| == top + 2 && cuts[top + 1] == dropped
    && forall g {:trigger Slot(names, content, g)} :: 0 <= g <= top ==> cuts[g] == cuts[g + 1] + |Slot(names, content, g)|
  }

  /** From generation `from` on, the cuts are the same. */
  ghost predicate SameFrom(cuts: seq<nat>, cuts': seq<nat>, from: nat) {
    |cuts'| == |cuts| && forall h {:trigger cuts'[h]} :: from <= h < |cuts| ==> cuts'[h] == cuts[h]
  }

  /** The cuts once bytes were added to generation `at` and nothing newer holds any. */
  ghost function Grown(cuts: seq<nat>, at: nat, more: nat): seq<nat>
    requires |cuts| >= 2 && at <= 1
  {
    if at == 0 then cuts[0 := cuts[0] + more] else cuts[0 := cuts[0] + more][1 := cuts[1] + more]
  }

  /** The cuts once generation `from` was renamed onto the next: it is one older, and the oldest is
      dropped if it was in the way. */
  ghost function Renamed(cuts: seq<nat>, from: nat): seq<nat>
    requires from + 2 < |cuts|
  {
    var moved := cuts[from + 1 := cuts[from]];
    if from + 3 == |cuts| then moved[from + 2 := cuts[from + 1]] else moved
  }

  lemma RetireCuts(cuts: seq<nat>, names: map<nat, Inode>, content: map<Inode, Bytes>, dropped: nat, from: nat, top: nat)
    requires AreCuts(cuts, names, content, dropped, top)
    requires from in names && from < top && (from + 1 in names ==> from + 1 == top)
    ensures AreCuts(Renamed(cuts, from), Retired(names, from), content, dropped + |Slot(names, content, from + 1)|, top)
  {
    var names' := Retired(names, from);
    assert |Slot(names, content, from)| + cuts[from + 1] == cuts[from];
    assert |Slot(names, content, from + 1)| + cuts[from + 2] == cuts[from + 1];
    forall g | 0 <= g <= top
      ensures Renamed(cuts, from)[g] == Renamed(cuts, from)[g + 1] + |Slot(names', content, g)|
    {
      assert Slot(names', content, g) ==
        if g == from then [] else if g == from + 1 then Slot(names, content, from) else Slot(names, content, g);
      assert cuts[g] == cuts[g + 1] + |Slot(names, content, g)|;
    }
  }

  lemma RenamedSame(a: seq<nat>, b: seq<nat>, from: nat)
    requires SameFrom(a, b, 1) && from + 2 < |a|
    ensures SameFrom(Renamed(a, from), Renamed(b, from), if from == 0 then 2 else 1)
  {
  }

  lemma AppendCuts(cuts: seq<nat>, names: map<nat, Inode>, content: map<Inode, Bytes>, dropped: nat, at: nat, more: Bytes, top: nat)
    requires AreCuts(cuts, names, content, dropped, top) && Injective(names) && top >= 1
    requires at <= 1 && at in names && names[at] in content && (at == 1 ==> Slot(names, content, 0) == [])
    ensures AreCuts(Grown(cuts, at, |more|), names, content[names[at] := content[names[at]] + more], dropped, top)
  {
    var content' := content[names[at] := content[names[at]] + more];
    forall g | 0 <= g <= top
      ensures Grown(cuts, at, |more|)[g] == Grown(cuts, at, |more|)[g + 1] + |Slot(names, content', g)|
    {
      assert Slot(names, content', g) == if g == at then Slot(names, content, g) + more else Slot(names, content, g);
      assert cuts[g] == cuts[g + 1] + |Slot(names, content, g)|;
    }
  }

  lemma RestoreCuts(cuts: seq<nat>, names: map<nat, Inode>, content: map<Inode, Bytes>, dropped: nat, top: nat)
    requires AreCuts(cuts, names, content, dropped, top) && 1 in names && 1 <= top && Slot(names, content, 0) == []
    ensures AreCuts(cuts[1 := cuts[2]], names[0 := names[1]] - {1}, content, dropped, top)
  {
    var names' := names[0 := names[1]] - {1};
    assert cuts[0] == cuts[1] + |Slot(names, content, 0)| && cuts[1] == cuts[2] + |Slot(names, content, 1)|;
    forall g | 0 <= g <= top
      ensures cuts[1 := cuts[2]][g] == cuts[1 := cuts[2]][g + 1] + |Slot(names', content, g)|
    {
      assert Slot(names', content, g) ==
        if g == 0 then Slot(names, content, 1) else if g == 1 then [] else Slot(names, content, g);
      assert cuts[g] == cuts[g + 1] + |Slot(names, content, g)|;
    }
  }

  lemma DiscardCuts(cuts: seq<nat>, names: map<nat, Inode>, content: map<Inode, Bytes>, dropped: nat)
    requires AreCuts(cuts, names, content, dropped, 1)
    ensures AreCuts(cuts[2 := cuts[1]], names - {1}, content, dropped + |Slot(names, content, 1)|, 1)
  {
    assert cuts[0] == cuts[1] + |Slot(names, content, 0)| && cuts[1] == cuts[2] + |Slot(names, content, 1)|;
    forall g | 0 <= g <= 1
      ensures cuts[2 := cuts[1]][g] == cuts[2 := cuts[1]][g + 1] + |Slot(names - {1}, content, g)|
    {
      assert Slot(names - {1}, content, g) == if g == 1 then [] else Slot(names, content, g);
    }
  }

  lemma CreateCuts(cuts: seq<nat>, names: map<nat, Inode>, content: map<Inode, Bytes>, dropped: nat, inode: Inode, top: nat)
    requires AreCuts(cuts, names, content, dropped, top)
    requires 0 !in names && inode !in content && forall g :: g in names ==> names[g] in content
    ensures AreCuts(cuts, names[0 := inode], content[inode := []], dropped, top)
  {
    forall g | 0 <= g <= top
      ensures cuts[g] == cuts[g + 1] + |Slot(names[0 := inode], content[inode := []], g)|
    {
      assert Slot(names[0 := inode], content[inode := []], g) == Slot(names, content, g);
    }
  }

  /** Older generations reach less far. */
  ghost predicate Falling(cuts: seq<nat>) {
    forall i, j :: 0 <= i <= j < |cuts| ==> cuts[j] <= cuts[i]
  }

  lemma {:induction false} CutFalls(cuts: seq<nat>, names: map<nat, Inode>, content: map<Inode, Bytes>, dropped: nat, top: nat, i: nat, j: nat)
    requires AreCuts(cuts, names, content, dropped, top) && i <= j <= top + 1
    ensures cuts[j] <= cuts[i]
    decreases j - i
  {
    if i < j {
      assert cuts[i] == cuts[i + 1] + |Slot(names, content, i)|;
      CutFalls(cuts, names, content, dropped, top, i + 1, j);
    }
  }

  lemma CutsFall(cuts: seq<nat>, names: map<nat, Inode>, content: map<Inode, Bytes>, dropped: nat, top: nat)
    requires AreCuts(cuts, names, content, dropped, top)
    ensures Falling(cuts)
  {
    forall i, j | 0 <= i <= j < |cuts|
      ensures cuts[j] <= cuts[i]
    {
      CutFalls(cuts, names, content, dropped, top, i, j);
    }
  }

  /** No byte got older by more than one generation, and if any were dropped, then the oldest
      generation as a whole. */
  ghost predicate OneOlder(cuts: seq<nat>, cuts': seq<nat>) {
    && |cuts'| == |cuts| >= 3
    && (forall h {:trigger cuts'[h]} :: 2 <= h < |cuts| ==> cuts'[h] <= cuts[h - 1])
    && (cuts'[|cuts| - 1] == cuts[|cuts| - 1] || cuts'[|cuts| - 1] == cuts[|cuts| - 2])
  }

  /** While generations above `g` have been renamed: they are one older at most, and nothing newer
      has moved. */
  ghost predicate Shifting(start: seq<nat>, cuts: seq<nat>, g: nat) {
    OneOlder(start, cuts) && forall h {:trigger cuts[h]} :: 1 <= h <= g + 1 && h < |start| ==> cuts[h] == start[h]
  }

  lemma StartShift(cuts: seq<nat>, names: map<nat, Inode>, content: map<Inode, Bytes>, dropped: nat, top: nat, g: nat)
    requires AreCuts(cuts, names, content, dropped, top) && top >= 1
    ensures Shifting(cuts, cuts, g)
  {
    CutsFall(cuts, names, content, dropped, top);
  }

  lemma ShiftStep(start: seq<nat>, before: seq<nat>, after: seq<nat>, g: nat)
    requires 1 <= g && g + 2 < |start| && Shifting(start, before, g)
    requires SameFrom(before, after, 1) || SameFrom(Renamed(before, g), after, 1)
    ensures Shifting(start, after, g - 1)
  {
    forall h | 2 <= h < |start|
      ensures after[h] <= start[h - 1]
    {
      assert before[h] <= start[h - 1];
      assert after[h] == before[h] || after[h] == Renamed(before, g)[h];
    }
    assert after[|start| - 1] == before[|start| - 1] || after[|start| - 1] == before[|start| - 2];
  }

  /** The last rename, of the live file, after the shift. */
  lemma CutoffStep(start: seq<nat>, before: seq<nat>, after: seq<nat>)
    requires |start| >= 3 && Shifting(start, before, 0)
    requires SameFrom(before, after, 1) || SameFrom(Renamed(before, 0), after, 2)
    ensures OneOlder(start, after)
  {
    forall h | 2 <= h < |start|
      ensures after[h] <= start[h - 1]
    {
      assert before[h] <= start[h - 1];
      assert after[h] == before[h] || after[h] == Renamed(before, 0)[h];
    }
  }

  lemma NothingOlder(cuts: seq<nat>, names: map<nat, Inode>, content: map<Inode, Bytes>, dropped: nat, top: nat, after: seq<nat>)
    requires AreCuts(cuts, names, content, dropped, top) && top >= 1 && SameFrom(cuts, after, 2)
    ensures OneOlder(cuts, after)
  {
    CutsFall(cuts, names, content, dropped, top);
  }

  lemma StillOneOlder(start: seq<nat>, before: seq<nat>, after: seq<nat>)
    requires OneOlder(start, before) && SameFrom(before, after, 2)
    ensures OneOlder(start, after)
  {
  }

  lemma OldestOnly(cuts: seq<nat>, names: map<nat, Inode>, content: map<Inode, Bytes>, dropped: nat, top: nat, after: seq<nat>)
    requires AreCuts(cuts, names, content, dropped, top) && top >= 1 && OneOlder(cuts, after)
    ensures after[top + 1] == dropped || after[top + 1] == dropped + |Slot(names, content, top)|
  {
    assert cuts[top] == cuts[top + 1] + |Slot(names, content, top)|;
  }

  lemma OneOlderSince(start: seq<nat>, before: seq<nat>, after: seq<nat>)
    requires SameFrom(start, before, 1) && OneOlder(before, after)
    ensures OneOlder(start, after)
  {
    forall h | 2 <= h < |start|
      ensures after[h] <= start[h - 1]
    {
      assert after[h] <= before[h - 1] && before[h - 1] == start[h - 1];
    }
  }

  lemma PassAges(cuts: seq<nat>, names: map<nat, Inode>, content: map<Inode, Bytes>, dropped: nat, top: nat,
                 before: seq<nat>, after: seq<nat>)
    requires AreCuts(cuts, names, content, dropped, top) && top >= 1
    requires SameFrom(cuts, before, 1) && OneOlder(before, after)
    ensures OneOlder(cuts, after)
    ensures after[top + 1] == dropped || after[top + 1] == dropped + |Slot(names, content, top)|
  {
    OneOlderSince(cuts, before, after);
    OldestOnly(cuts, names, content, dropped, top, after);
  }

  /** Of the first `total` bytes, those newer than generation `h` got older by `steps` at most. */
  ghost predicate Aged(start: seq<nat>, cuts: seq<nat>, steps: nat, total: nat) {
    |cuts| == |start| &&
    forall h {:trigger start[h]} :: 1 <= h && h + steps < |start| && start[h] < total ==> cuts[h + steps] <= start[h]
  }

  lemma AgedAppend(start: seq<nat>, before: seq<nat>, cuts: seq<nat>, steps: nat, total: nat)
    requires |start| >= 2 && Aged(start, before, steps, total)
    requires SameFrom(before, cuts, 2) && (before[1] < total ==> cuts[1] == before[1])
    ensures Aged(start, cuts, steps, total)
  {
    forall h | 1 <= h && h + steps < |start| && start[h] < total
      ensures cuts[h + steps] <= start[h]
    {
      assert before[h + steps] <= start[h];
    }
  }

  lemma AgedPass(start: seq<nat>, before: seq<nat>, cuts: seq<nat>, steps: nat, total: nat)
    requires Aged(start, before, steps, total) && OneOlder(before, cuts)
    ensures Aged(start, cuts, steps + 1, total)
  {
    forall h | 1 <= h && h + steps + 1 < |start| && start[h] < total
      ensures cuts[h + steps + 1] <= start[h]
    {
      assert before[h + steps] <= start[h];
    }
  }

  // ---- what every operation keeps -------------------------------------------------

  /** Names point to distinct existing inodes. */
  ghost predicate WellFormed(names: map<nat, Inode>, content: map<Inode, Bytes>, nextInode: nat, stream: Inode, top: nat) {
    && (forall g :: g in names ==> g <= top && names[g] in content)
    && Injective(names)
    && (forall i :: i in content ==> i < nextInode)
    && stream in content
  }

  /** The stream writes the newest bytes: into the live file, or into generation 1 while the live
      file is missing or empty. */
  ghost predicate AtEnd(names: map<nat, Inode>, content: map<Inode, Bytes>, stream: Inode) {
    || (0 in names && names[0] == stream)
    || (1 in names && names[1] == stream && Slot(names, content, 0) == [])
  }

  /** What a reader gets is a contiguous suffix of everything written. */
  ghost predicate Suffix(names: map<nat, Inode>, content: map<Inode, Bytes>, written: Bytes, dropped: nat, top: nat) {
    dropped <= |written| && Read(Slots(names, content, top)) == written[dropped..]
  }

  ghost predicate Good(names: map<nat, Inode>, content: map<Inode, Bytes>, nextInode: nat, stream: Inode,
                       written: Bytes, dropped: nat, cuts: seq<nat>, top: nat) {
    && top >= 1
    && WellFormed(names, content, nextInode, stream, top) && AtEnd(names, content, stream)
    && Suffix(names, content, written, dropped, top)
    && AreCuts(cuts, names, content, dropped, top) && cuts[0] == |written|
  }

  lemma AppendGood(names: map<nat, Inode>, content: map<Inode, Bytes>, nextInode: nat, stream: Inode,
                   written: Bytes, dropped: nat, cuts: seq<nat>, top: nat, at: nat, more: Bytes)
    requires Good(names, content, nextInode, stream, written, dropped, cuts, top)
    requires at == if 0 in names && names[0] == stream then 0 else 1
    ensures Good(names, content[stream := content[stream] + more], nextInode, stream,
                 written + more, dropped, Grown(cuts, at, |more|), top)
  {
    AppendSlots(names, content, at, more, top);
    AppendSuffix(written, dropped, more);
    AppendCuts(cuts, names, content, dropped, at, more, top);
  }

  lemma RetireGood(names: map<nat, Inode>, content: map<Inode, Bytes>, nextInode: nat, stream: Inode,
                   written: Bytes, dropped: nat, cuts: seq<nat>, top: nat, from: nat)
    requires Good(names, content, nextInode, stream, written, dropped, cuts, top) && 0 in names && names[0] == stream
    requires from in names && from < top && (from + 1 in names ==> from + 1 == top)
    ensures Good(Retired(names, from), content, nextInode, stream,
                 written, dropped + |Slot(names, content, from + 1)|, Renamed(cuts, from), top)
  {
    RetireSlots(names, content, from, top);
    DropFront(written, dropped, |Slot(names, content, from + 1)|);
    RetireCuts(cuts, names, content, dropped, from, top);
  }

  lemma CreateGood(names: map<nat, Inode>, content: map<Inode, Bytes>, nextInode: nat, stream: Inode,
                   written: Bytes, dropped: nat, cuts: seq<nat>, top: nat)
    requires Good(names, content, nextInode, stream, written, dropped, cuts, top) && 0 !in names
    ensures Good(names[0 := nextInode], content[nextInode := []], nextInode + 1, stream, written, dropped, cuts, top)
  {
    CreateSlots(names, content, nextInode, top);
    CreateCuts(cuts, names, content, dropped, nextInode, top);
  }

  lemma RestoreGood(names: map<nat, Inode>, content: map<Inode, Bytes>, nextInode: nat, stream: Inode,
                    written: Bytes, dropped: nat, cuts: seq<nat>, top: nat)
    requires Good(names, content, nextInode, stream, written, dropped, cuts, top)
    requires 1 in names && names[1] == stream && Slot(names, content, 0) == []
    ensures Good(names[0 := names[1]] - {1}, content, nextInode, stream, written, dropped, cuts[1 := cuts[2]], top)
  {
    RestoreSlots(names, content, top);
    RestoreCuts(cuts, names, content, dropped, top);
  }

  lemma DiscardGood(names: map<nat, Inode>, content: map<Inode, Bytes>, nextInode: nat, stream: Inode,
                    written: Bytes, dropped: nat, cuts: seq<nat>)
    requires Good(names, content, nextInode, stream, written, dropped, cuts, 1) && 0 in names && names[0] == stream
    ensures Good(names - {1}, content, nextInode, stream,
                 written, dropped + |Slot(names, content, 1)|, cuts[2 := cuts[1]], 1)
  {
    DiscardSlots(names, content);
    DropFront(written, dropped, |Slot(names, content, 1)|);
    DiscardCuts(cuts, names, content, dropped);
  }

  class DaemonLog {
    var names: map<nat, Inode>
    var content: map<Inode, Bytes>
    var nextInode: nat
    /** The inode the daemon's own descriptor writes into. */
    var stream: Inode
    const retained: nat
    const maxBytes: nat
    /** Everything that was ever written, and how much of it has been dropped again. */
    ghost var written: Bytes
    ghost var dropped: nat
    /** How far each generation reaches into `written`. */
    ghost var cuts: seq<nat>
    ghost var faulted: bool
    /** How many operations failed. */
    ghost var failures: nat

    ghost function Top(): nat { if retained == 0 then 1 else retained }

    ghost predicate Valid()
      reads this
    {
      Good(names, content, nextInode, stream, written, dropped, cuts, Top())
    }

    constructor (retained: nat, maxBytes: nat)
      ensures Valid() && this.retained == retained && this.maxBytes == maxBytes
      ensures written == [] && dropped == 0 && !faulted && Attached()
    {
      this.retained, this.maxBytes := retained, maxBytes;
      names, content, nextInode, stream := map[0 := 0], map[0 := []], 1, 0;
      written, dropped, faulted, failures := [], 0, false, 0;
      cuts := seq((if retained == 0 then 1 else retained) + 2, _ => 0);
      new;
      ReadEmpty(Slots(names, content, Top()));
    }

    /** What every operation keeps: nothing written is unwritten or given back. */
    twostate predicate Grows()
      reads this
    {
      && old(written) <= written
      && (old(faulted) ==> faulted)
      && old(failures) <= failures
    }

    /** The daemon writes a record through its stream. */
    method Append(more: Bytes)
      requires Valid()
      modifies this
      ensures Valid() && Grows() && written == old(written) + more
      ensures names == old(names) && stream == old(stream) && dropped == old(dropped) && faulted == old(faulted)
      ensures failures == old(failures)
      ensures nextInode == old(nextInode) && content == old(content)[stream := old(content[stream]) + more]
      ensures SameFrom(old(cuts), cuts, if Attached() then 1 else 2)
    {
      ghost var at := if 0 in names && names[0] == stream then 0 else 1;
      AppendGood(names, content, nextInode, stream, written, dropped, cuts, Top(), at, more);
      cuts := Grown(cuts, at, |more|);
      content := content[stream := content[stream] + more];
      written := written + more;
    }

    /** Records may arrive at any time; the next operation may fail. */
    method Disturb() returns (fails: bool)
      requires Valid()
      modifies this
      ensures Valid() && Grows()
      ensures names == old(names) && stream == old(stream) && dropped == old(dropped) && nextInode == old(nextInode)
      ensures content.Keys == old(content.Keys)
      ensures forall i :: i in content && i != stream ==> content[i] == old(content[i])
      ensures |content[stream]| - |old(content[stream])| == |written| - |old(written)|
      ensures fails ==> faulted
      ensures !fails ==> faulted == old(faulted)
      ensures failures == if fails then old(failures) + 1 else old(failures)
      ensures SameFrom(old(cuts), cuts, if Attached() then 1 else 2)
    {
      var more: Bytes := *;
      Append(more);
      fails := *;
      if fails {
        faulted, failures := true, failures + 1;
      }
    }

    /** The daemon's stream writes the live file. */
    ghost predicate Attached()
      reads this
    {
      0 in names && names[0] == stream
    }

    /** What every operation of a pass keeps. */
    twostate predicate Passes()
      reads this
    {
      Valid() && Grows()
    }

    /** Renames generation `from` to `from + 1`, replacing only what is oldest. */
    method Retire(from: nat) returns (r: Step)
      requires Valid() && Attached() && from < Top()
      requires from + 1 in names ==> from + 1 == Top()
      modifies this
      ensures Passes() && stream == old(stream)
      ensures r == Failed ==> faulted
      ensures r != Failed ==> faulted == old(faulted)
      ensures if r == Failed then failures > old(failures) else failures == old(failures)
      ensures r == NotFound ==> from !in names
      ensures r != Done ==> names == old(names) && dropped == old(dropped) && SameFrom(old(cuts), cuts, 1)
      ensures r == Done ==> from in old(names) && names == Retired(old(names), from)
      ensures r == Done ==> dropped == old(dropped) + |old(Slot(names, content, from + 1))|
      ensures r == Done ==> SameFrom(Renamed(old(cuts), from), cuts, if from == 0 then 2 else 1)
    {
      var fails := Disturb();
      if fails {
        return Failed;
      }
      if from !in names {
        return NotFound;
      }
      RenamedSame(old(cuts), cuts, from);
      assert Slot(names, content, from + 1) == old(Slot(names, content, from + 1));
      Rename(from);
      return Done;
    }

    method Rename(from: nat)
      requires Valid() && Attached() && from in names && from < Top()
      requires from + 1 in names ==> from + 1 == Top()
      modifies this`names, this`dropped, this`cuts
      ensures Valid() && names == Retired(old(names), from) && cuts == Renamed(old(cuts), from)
      ensures dropped == old(dropped) + |old(Slot(names, content, from + 1))|
    {
      RetireGood(names, content, nextInode, stream, written, dropped, cuts, Top(), from);
      dropped := dropped + |Slot(names, content, from + 1)|;
      names, cuts := Retired(names, from), Renamed(cuts, from);
    }

    /** `shift_retained_generations`: afterwards generation 1 is free, unless it is the oldest. */
    method Shift() returns (r: Step)
      requires Valid() && Attached()
      modifies this
      ensures Passes() && Attached() && stream == old(stream)
      ensures r == Done ==> Replaceable(1)
      ensures r == Done || (r == Failed && faulted)
      ensures r == Done ==> faulted == old(faulted)
      ensures if r == Done then failures == old(failures) else failures > old(failures)
      ensures Shifted(old(cuts), 1)
    {
      ghost var start := cuts;
      assert Shifted(start, Top()) by {
        StartShift(cuts, names, content, dropped, Top(), Top() - 1);
      }
      var to: nat := if retained == 0 then 1 else retained;
      while to >= 2
        invariant Passes() && Attached() && stream == old(stream)
        invariant 1 <= to <= Top() && Replaceable(to)
        invariant faulted == old(faulted) && failures == old(failures)
        invariant Shifted(start, to)
      {
        r := ShiftOnto(to, start);
        if r == Failed {
          return;
        }
        to := to - 1;
      }
      return Done;
    }

    /** The name is free, or of the oldest generation. */
    ghost predicate Replaceable(h: nat)
      reads this
    {
      h in names ==> h == Top()
    }

    /** The shift has come down to generation `to`, which is the next to be overwritten. */
    ghost predicate Shifted(start: seq<nat>, to: nat)
      reads this
    {
      |start| == Top() + 2 && 1 <= to && Shifting(start, cuts, to - 1)
    }

    /** One rename of that loop. */
    method ShiftOnto(to: nat, ghost start: seq<nat>) returns (r: Step)
      requires Valid() && Attached() && 2 <= to <= Top() && Replaceable(to) && Shifted(start, to)
      modifies this
      ensures Passes() && Attached() && stream == old(stream)
      ensures if r == Failed then faulted && failures > old(failures) else faulted == old(faulted) && failures == old(failures)
      ensures r != Failed ==> Replaceable(to - 1)
      ensures Shifted(start, to - 1) && Shifted(start, 1)
    {
      ghost var before := cuts;
      r := Retire(to - 1);
      ShiftStep(start, before, cuts, to - 1);
    }

    /** Opening a live file that is not there creates it empty. */
    method CreateLive() returns (r: Step)
      requires Valid() && 0 !in names && 1 in names && names[1] == stream
      modifies this
      ensures Passes() && dropped == old(dropped) && stream == old(stream)
      ensures r == Done || (r == Failed && faulted && names == old(names))
      ensures if r == Done then failures == old(failures) else failures > old(failures)
      ensures r == Done ==> faulted == old(faulted) && names - {0} == old(names)
      ensures r == Done ==> 0 in names && names[0] !in old(content) && content[names[0]] == []
      ensures SameFrom(old(cuts), cuts, 2)
    {
      var fails := Disturb();
      if fails {
        return Failed;
      }
      CreateGood(names, content, nextInode, stream, written, dropped, cuts, Top());
      names, content := names[0 := nextInode], content[nextInode := []];
      nextInode := nextInode + 1;
      return Done;
    }

    /** `reattach_live_file`: open a fresh live file, then point the stream at it. */
    method Reattach() returns (r: Step)
      requires Valid() && 0 !in names && 1 in names && names[1] == stream
      modifies this
      ensures Passes() && dropped == old(dropped)
      ensures r == Done || (r == Failed && faulted)
      ensures r == Done ==> faulted == old(faulted)
      ensures if r == Done then failures == old(failures) else failures > old(failures)
      ensures names - {0} == old(names)
      ensures r == Done ==> Attached() && stream !in old(content) && |Slot(names, content, 0)| <= |written| - |old(written)|
      ensures r == Failed ==> stream == old(stream) && Slot(names, content, 0) == []
      ensures SameFrom(old(cuts), cuts, 2)
    {
      var created := CreateLive();
      if created != Done {
        return Failed;
      }
      var fails := Disturb();
      if fails {
        return Failed;
      }
      stream := names[0];
      return Done;
    }

    /** Put the live inode back under its own name. */
    method Restore() returns (r: Step)
      requires Valid() && 1 in names && names[1] == stream && Slot(names, content, 0) == []
      modifies this
      ensures Passes() && dropped == old(dropped) && stream == old(stream)
      ensures r == Done ==> Attached()
      ensures r == Done || (r == Failed && faulted)
      ensures if r == Done then failures == old(failures) else failures > old(failures)
      ensures SameFrom(old(cuts), cuts, 2)
    {
      var fails := Disturb();
      if fails {
        return Failed;
      }
      RestoreGood(names, content, nextInode, stream, written, dropped, cuts, Top());
      names, cuts := names[0 := names[1]] - {1}, cuts[1 := cuts[2]];
      return Done;
    }

    /** With no history wanted, the cutoff generation goes again. */
    method Discard() returns (r: Step)
      requires Valid() && Attached() && Top() == 1
      modifies this
      ensures Passes() && Attached() && stream == old(stream)
      ensures r == Done || (r == Failed && faulted)
      ensures r == Done ==> faulted == old(faulted)
      ensures if r == Done then failures == old(failures) else failures > old(failures)
      ensures |content[stream]| - |old(content[stream])| == |written| - |old(written)|
      ensures names == if r == Done then old(names) - {1} else old(names)
      ensures dropped == if r == Done then old(dropped) + |old(Slot(names, content, 1))| else old(dropped)
    {
      var fails := Disturb();
      if fails {
        return Failed;
      }
      ghost var k := |Slot(names, content, 1)|;
      DiscardGood(names, content, nextInode, stream, written, dropped, cuts);
      names, dropped, cuts := names - {1}, dropped + k, cuts[2 := cuts[1]];
      return Done;
    }

    method Rotate() returns (r: RotationOutcome)
      requires Valid() && Attached()
      modifies this
      ensures Passes()
      ensures r == Rotated ==> Attached() && |Slot(names, content, 0)| <= |written| - |old(written)|
      ensures r == Rotated && retained >= 1 ==> 1 in names && names[1] == old(stream)
      ensures r == ReattachError(true) ==> Attached() && stream == old(stream)
      // Success means that nothing failed; the live file is left away only if putting it back failed too.
      ensures if r == Rotated then failures == old(failures) else failures > old(failures)
      ensures r == Rotated && retained == 0 ==> 1 !in names
      ensures r == ReattachError(false) ==> failures >= old(failures) + 2
      ensures r == Rotated || (faulted && (r == RetainError || r.ReattachError?))
      ensures retained >= 1 ==> OneOlder(old(cuts), cuts)
    {
      ghost var start := cuts;
      var step := CutOff();
      if step != Done {
        return RetainError;
      }
      ghost var before := cuts;
      r := Replace();
      if retained >= 1 {
        StillOneOlder(start, before, cuts);
      }
    }

    /** The first half of `rotate`: make room, then rename the live file to generation 1. */
    method CutOff() returns (r: Step)
      requires Valid() && Attached()
      modifies this
      ensures Passes() && OneOlder(old(cuts), cuts) && stream == old(stream)
      ensures r == Done || faulted
      ensures if r == Done then failures == old(failures) else failures > old(failures)
      ensures r == Done ==> faulted == old(faulted) && 0 !in names && 1 in names && names[1] == stream
    {
      ghost var start := cuts;
      r := Shift();
      if r != Done {
        return;
      }
      ghost var shifted := cuts;
      r := Retire(0);
      CutoffStep(start, shifted, cuts);
    }

    /** The rest of `rotate`, after the live file has become generation 1. */
    method Replace() returns (r: RotationOutcome)
      requires Valid() && 0 !in names && 1 in names && names[1] == stream
      modifies this
      ensures Passes() && (retained >= 1 ==> dropped == old(dropped))
      ensures r == Rotated ==> Attached() && |Slot(names, content, 0)| <= |written| - |old(written)|
      ensures r == Rotated && retained >= 1 ==> 1 in names && names[1] == old(stream)
      ensures r == ReattachError(true) ==> Attached() && stream == old(stream)
      // Success means that nothing failed; the live file is left away only if putting it back failed too.
      ensures if r == Rotated then failures == old(failures) else failures > old(failures)
      ensures r == Rotated && retained == 0 ==> 1 !in names
      ensures r == ReattachError(false) ==> failures >= old(failures) + 2
      ensures r == Rotated || (faulted && (r == RetainError || r.ReattachError?))
      ensures retained >= 1 ==> SameFrom(old(cuts), cuts, 2)
    {
      var step := Reattach();
      if step != Done {
        step := Restore();
        return ReattachError(step == Done);
      }
      if retained == 0 {
        step := Discard();
        if step != Done {
          return RetainError;
        }
      }
      return Rotated;
    }

    /** The first half of `enforce_log_cap`: None is a decision to rotate. */
    method Decide() returns (r: Option<RotationOutcome>)
      requires Valid()
      modifies this
      ensures Passes() && names == old(names) && stream == old(stream) && dropped == old(dropped)
      ensures SameFrom(old(cuts), cuts, if Attached() then 1 else 2)
      ensures r == None ==> Attached() && faulted == old(faulted)
      ensures if r == Some(InspectError) then failures > old(failures) else failures == old(failures)
      ensures r == Some(Unchanged) ==> |Slot(names, content, 0)| <= maxBytes
      ensures r in {None, Some(Unchanged), Some(Unattached), Some(InspectError)}
      ensures r == Some(Unattached) ==> !Attached()
      ensures r == Some(InspectError) ==> faulted
      ensures |old(Slot(names, content, 0))| > maxBytes ==>
        r == (if old(Attached()) then None else Some(Unattached)) || faulted
      ensures r == None ==> |old(Slot(names, content, 0))| + |written| - |old(written)| > maxBytes
      ensures 0 !in old(names) ==> r == Some(Unchanged) || faulted
    {
      var fails := Disturb();
      if fails {
        return Some(InspectError);
      }
      if 0 !in names {
        return Some(Unchanged);
      }
      var inode := names[0];
      if |content[inode]| <= maxBytes {
        return Some(Unchanged);
      }
      fails := Disturb();
      if fails {
        return Some(InspectError);
      }
      return if stream != inode then Some(Unattached) else None;
    }

    /** `enforce_log_cap`. */
    method Enforce() returns (r: RotationOutcome)
      requires Valid()
      modifies this
      ensures Passes()
      // At most one file is lost per pass, and only the oldest generation.
      ensures retained >= 1 ==>
        dropped == old(dropped) || dropped == old(dropped) + |old(Slot(names, content, Top()))|
      ensures retained >= 1 ==> OneOlder(old(cuts), cuts)
      ensures r == Rotated ==> Attached() && |Slot(names, content, 0)| <= |written| - |old(written)|
      ensures r == Rotated && retained >= 1 ==> 1 in names && names[1] == old(stream)
      ensures r in {Unchanged, Unattached, InspectError} ==>
        names == old(names) && stream == old(stream) && dropped == old(dropped)
      ensures r == Unattached ==> !old(Attached())
      ensures if r in {Unchanged, Unattached, Rotated} then failures == old(failures) else failures > old(failures)
      ensures r == Unchanged ==> |Slot(names, content, 0)| <= maxBytes
      ensures r == Rotated && retained == 0 ==> 1 !in names
      ensures r == ReattachError(true) ==> Attached() && stream == old(stream)
      ensures r == ReattachError(false) ==> failures >= old(failures) + 2
      // A file over the cap is rotated, one that stays within it is left alone.
      ensures |old(Slot(names, content, 0))| > maxBytes ==>
        r == (if old(Attached()) then Rotated else Unattached) || faulted
      ensures |old(Slot(names, content, 0))| + |written| - |old(written)| <= maxBytes ==>
        r in {Unchanged, Unattached, InspectError}
      ensures 0 !in old(names) ==> r == Unchanged || faulted
    {
      ghost var start := cuts;
      var decided := Decide();
      if decided.Some? {
        assert OneOlder(start, cuts) by {
          NothingOlder(start, old(names), old(content), old(dropped), Top(), cuts);
        }
        return decided.value;
      }
      r := RotateSince(start, old(names), old(content), old(dropped));
    }

    /** `rotate`, as part of a pass that began with these cuts and files. */
    method RotateSince(ghost start: seq<nat>, ghost names0: map<nat, Inode>, ghost content0: map<Inode, Bytes>, ghost dropped0: nat)
      returns (r: RotationOutcome)
      requires Valid() && Attached() && SameFrom(start, cuts, 1) && AreCuts(start, names0, content0, dropped0, Top())
      modifies this
      ensures Passes()
      ensures r == Rotated ==> Attached() && |Slot(names, content, 0)| <= |written| - |old(written)|
      ensures r == Rotated && retained >= 1 ==> 1 in names && names[1] == old(stream)
      ensures r == ReattachError(true) ==> Attached() && stream == old(stream)
      ensures if r == Rotated then failures == old(failures) else failures > old(failures)
      ensures r == Rotated && retained == 0 ==> 1 !in names
      ensures r == ReattachError(false) ==> failures >= old(failures) + 2
      ensures r == Rotated || (faulted && (r == RetainError || r.ReattachError?))
      ensures retained >= 1 ==> OneOlder(start, cuts)
      ensures retained >= 1 ==> dropped == dropped0 || dropped == dropped0 + |Slot(names0, content0, Top())|
    {
      ghost var before := cuts;
      r := Rotate();
      if retained >= 1 {
        PassAges(start, names0, content0, dropped0, Top(), before, cuts);
      }
    }

    method WriteRecord(record: Bytes, ghost start: seq<nat>, ghost steps: nat, ghost total: nat)
      requires Valid() && total <= |written| && (retained >= 1 ==> Aged(start, cuts, steps, total))
      modifies this
      ensures Valid() && written == old(written) + record && failures == old(failures)
      ensures old(Attached()) ==> Attached()
      ensures retained >= 1 ==> Aged(start, cuts, steps, total)
    {
      assert cuts[1] < |written| ==> Attached() by {
        assert cuts[0] == cuts[1] + |Slot(names, content, 0)|;
      }
      Append(record);
      if retained >= 1 {
        AgedAppend(start, old(cuts), cuts, steps, total);
      }
    }

    method RunPass(ghost start: seq<nat>, ghost steps: nat, ghost total: nat)
      requires Valid() && total <= |written| && (retained >= 1 ==> Aged(start, cuts, steps, total))
      modifies this
      ensures Valid() && old(written) <= written && old(failures) <= failures
      ensures old(Attached()) && failures == old(failures) ==>
        Attached() && |Slot(names, content, 0)| <= maxBytes + |written| - |old(written)|
      ensures retained >= 1 ==> Aged(start, cuts, steps + 1, total)
    {
      var _ := Enforce();
      if retained >= 1 {
        AgedPass(start, old(cuts), cuts, steps, total);
      }
    }

    /** One event; `start`, `total` and `done` are those of the run so far. */
    method Handle(event: Event, ghost start: seq<nat>, ghost total: nat, ghost done: seq<Event>)
      requires Valid() && CarriedFrom(written, total, done)
      requires retained >= 1 ==> Aged(start, cuts, PassCount(done), total)
      modifies this
      ensures Valid() && old(written) <= written
      ensures event.Write? ==> written == old(written) + event.record
      ensures CarriedFrom(written, total, done + [event])
      ensures old(failures) <= failures
      ensures old(Attached()) && failures == old(failures) ==> Attached()
      ensures event.Pass? && old(Attached()) && failures == old(failures) ==>
        |Slot(names, content, 0)| <= maxBytes + |written| - |old(written)|
      ensures retained >= 1 ==> Aged(start, cuts, PassCount(done + [event]), total)
    {
      PassCountMore(done, event);
      ghost var before := written;
      match event {
        case Write(record) => WriteRecord(record, start, PassCount(done), total);
        case Pass => RunPass(start, PassCount(done), total);
      }
      CarriesMore(before, written, total, done, event);
    }

    /** Any run of appends and enforcement passes: what a reader gets is what was written, less
        a prefix, and each pass makes bytes older by one generation at most. */
    method Run(events: seq<Event>) returns (ghost last: nat)
      requires Valid()
      modifies this
      // Unless something fails, a pass leaves the live file within the cap and what came meanwhile.
      ensures last <= |written|
      ensures (events != [] && events[|events| - 1].Pass? && old(Attached()) && failures == old(failures)) ==>
        |Slot(names, content, 0)| <= maxBytes + |written| - last
      ensures Valid() && old(written) <= written
      // Every record of the run was written, in order; during passes others may be as well.
      ensures CarriedFrom(written, |old(written)|, events)
      ensures dropped <= |written| && Read(Slots(names, content, Top())) == written[dropped..]
      // Bytes newer than generation `h` are still there after `Top() + 1 - h` passes: those of the
      // live file, for one, after as many passes as generations are retained.
      ensures retained >= 1 ==> Aged(old(cuts), cuts, PassCount(events), |old(written)|)
      ensures retained >= 1 ==> KeptSince(old(cuts), dropped, PassCount(events), |old(written)|)
    {
      ghost var start, total := cuts, |written|;
      last := total;
      assert PassCount(events[..0]) == 0 && Aged(start, cuts, 0, total);
      for i := 0 to |events|
        invariant Valid() && old(written) <= written && CarriedFrom(written, total, events[..i])
        invariant retained >= 1 ==> Aged(start, cuts, PassCount(events[..i]), total)
        invariant old(failures) <= failures && last <= |written|
        invariant old(Attached()) && failures == old(failures) ==> Attached()
        invariant (i > 0 && events[i - 1].Pass? && old(Attached()) && failures == old(failures)) ==>
          |Slot(names, content, 0)| <= maxBytes + |written| - last
      {
        last := |written|;
        Handle(events[i], start, total, events[..i]);
        assert events[..i + 1] == events[..i] + [events[i]];
      }
      assert events[..|events|] == events;
      if retained >= 1 {
        AgedKeeps(start, cuts, PassCount(events), total);
      }
    }
  }

  /** Of the first `total` bytes, those newer than some generation have not been dropped, if there
      were too few passes to age them out. */
  ghost predicate KeptSince(start: seq<nat>, dropped: nat, passes: nat, total: nat) {
    forall h {:trigger start[h]} :: 1 <= h && h + passes == |start| - 1 && start[h] < total ==> dropped <= start[h]
  }

  lemma AgedKeeps(start: seq<nat>, cuts: seq<nat>, passes: nat, total: nat)
    requires Aged(start, cuts, passes, total) && start != []
    ensures KeptSince(start, cuts[|cuts| - 1], passes, total)
  {
  }

  /** What was written holds the records of the events in order, each in one piece. */
  ghost predicate Carries(w: Bytes, events: seq<Event>)
    decreases |events|
  {
    events != [] ==>
      exists k: nat :: k <= |w| && Carries(w[..k], events[..|events| - 1])
        && (events[|events| - 1].Write? ==> w[k..] == events[|events| - 1].record)
  }

  /** What was written after the first `total` bytes does. */
  ghost predicate CarriedFrom(written: Bytes, total: nat, events: seq<Event>) {
    total <= |written| && Carries(written[total..], events)
  }

  lemma CarriesMore(before: Bytes, after: Bytes, total: nat, events: seq<Event>, event: Event)
    requires before <= after && CarriedFrom(before, total, events)
    requires event.Write? ==> after == before + event.record
    ensures CarriedFrom(after, total, events + [event])
  {
    var w, k := after[total..], |before| - total;
    assert w[..k] == before[total..] && (events + [event])[..|events|] == events;
    assert event.Write? ==> w[k..] == event.record;
  }

  lemma PassCountMore(events: seq<Event>, event: Event)
    ensures PassCount(events + [event]) == PassCount(events) + if event.Pass? then 1 else 0
  {
    assert (events + [event])[..|events|] == events;
  }

  function PassCount(events: seq<Event>): nat {
    if events == [] then 0
    else PassCount(events[..|events| - 1]) + if events[|events| - 1].Pass? then 1 else 0
  }
}
