/**
 Live device trust for one workspace (`device_trust.rs`): the verifier map behind the
 resolver, and the budget that bounds how often an unverifiable head may cost a read of the
 control plane. Times are nanoseconds on a clock that different callers may read in any order.
 */
module DeviceTrust {
  import opened Prelude

  type Workspace = nat
  type DeviceId = nat
  type Proof = nat

  const COOLDOWN: nat := 30 * 1_000_000_000
  const REFUSED_RETRY: nat := 600 * 1_000_000_000
  const MAX_REFUSED_SIGNERS: nat := 64

  /** An authorized device, which may not have published a verifier. */
  datatype DeviceRecord = DeviceRecord(device: DeviceId, verifier: Option<Proof>)

  datatype Entry = Entry(device: DeviceId, proof: Proof)

  datatype Outcome = Learned | NotAuthorized | AlreadyRefused | RateLimited | Unavailable

  /** One call, as the run so far remembers it: whether it spent a budgeted read, what it did to
      the refusals, and the list it installed. */
  datatype Call = Call(
    device: DeviceId,
    now: nat,
    read: bool,
    recorded: bool,
    changed: bool,
    installed: Option<seq<DeviceRecord>>)

  /** Something that happens to a workspace's trust: an unknown signer at some clock reading, or an
      explicit refresh; `read` is what the control plane would answer. */
  datatype Event =
    | Signer(device: DeviceId, now: nat, read: Option<seq<DeviceRecord>>)
    | Explicit(read: Option<seq<DeviceRecord>>)

  type Cache = map<(Option<Workspace>, DeviceId), Proof>

  function Answer(cache: Cache, w: Workspace, device: DeviceId): Option<Proof> {
    if (Some(w), device) in cache then Some(cache[(Some(w), device)]) else None
  }

  // ---- the authoritative list -------------------------------------------------

  /** The last proof listed for a device. */
  function LastOf(list: seq<Entry>, device: DeviceId): Option<Proof> {
    if list == [] then None
    else if list[|list| - 1].device == device then Some(list[|list| - 1].proof)
    else LastOf(list[..|list| - 1], device)
  }

  function LastPublished(records: seq<DeviceRecord>, device: DeviceId): Option<Proof> {
    if records == [] then None
    else
      var last := records[|records| - 1];
      if last.device == device && last.verifier.Some? then last.verifier
      else LastPublished(records[..|records| - 1], device)
  }

  predicate InOrder(list: seq<Entry>) {
    forall i, j :: 0 <= i < j < |list| ==> list[i].device <= list[j].device
  }

  /** A stable sort puts a further entry after everything not greater. */
  function Insert(list: seq<Entry>, e: Entry): (r: seq<Entry>)
    ensures |r| == |list| + 1
  {
    if list == [] || list[|list| - 1].device <= e.device then list + [e]
    else Insert(list[..|list| - 1], e) + [list[|list| - 1]]
  }

  lemma {:induction false} InsertFacts(list: seq<Entry>, e: Entry)
    requires InOrder(list)
    ensures InOrder(Insert(list, e))
    ensures forall x :: x in Insert(list, e) <==> x == e || x in list
    ensures forall d :: LastOf(Insert(list, e), d) == if d == e.device then Some(e.proof) else LastOf(list, d)
  {
    if list == [] || list[|list| - 1].device <= e.device {
      assert (list + [e])[..|list|] == list;
    } else {
      var front, last := list[..|list| - 1], list[|list| - 1];
      InsertFacts(front, e);
      var t := Insert(front, e);
      assert (t + [last])[..|t|] == t;
      forall i | 0 <= i < |t|
        ensures t[i].device <= last.device
      {
        assert t[i] in t;
      }
    }
  }

  predicate Strict(list: seq<Entry>) {
    forall i, j :: 0 <= i < j < |list| ==> list[i].device < list[j].device
  }

  predicate Lists(list: seq<Entry>, device: DeviceId) {
    exists i :: 0 <= i < |list| && list[i].device == device
  }

  lemma {:induction false} LastOfListed(list: seq<Entry>, d: DeviceId)
    ensures LastOf(list, d).Some? <==> Lists(list, d)
    ensures LastOf(list, d).Some? ==> Entry(d, LastOf(list, d).value) in list
  {
    if list != [] {
      LastOfListed(list[..|list| - 1], d);
    }
  }

  lemma {:induction false} InsertStrict(list: seq<Entry>, e: Entry)
    requires InOrder(list)
    ensures Strict(Insert(list, e)) <==> Strict(list) && !Lists(list, e.device)
  {
    if list != [] && e.device < list[|list| - 1].device {
      var front, last := list[..|list| - 1], list[|list| - 1];
      var t := Insert(front, e);
      InsertStrict(front, e);
      StrictLast(front, last);
      StrictLast(t, last);
      assert list == front + [last];
      ListsLast(front, last, e.device);
      assert Below(t, last) <==> Below(front, last) by {
        InsertFacts(front, e);
      }
    } else {
      StrictLast(list, e);
      if list != [] {
        NotAbove(list, e);
      }
    }
  }

  predicate Below(list: seq<Entry>, last: Entry) {
    forall x :: x in list ==> x.device < last.device
  }

  lemma ListsLast(front: seq<Entry>, last: Entry, device: DeviceId)
    ensures Lists(front + [last], device) <==> Lists(front, device) || last.device == device
  {
    var all := front + [last];
    assert forall i :: 0 <= i < |front| ==> all[i] == front[i];
    assert all[|front|] == last;
  }

  /** Entries in order, none above the new one: the new one is strictly last unless it is listed. */
  lemma NotAbove(list: seq<Entry>, e: Entry)
    requires list != [] && InOrder(list) && list[|list| - 1].device <= e.device
    ensures Below(list, e) <==> !Lists(list, e.device)
  {
    if !Lists(list, e.device) {
      forall x | x in list
        ensures x.device < e.device
      {
        var i :| 0 <= i < |list| && list[i] == x;
      }
    }
  }

  lemma StrictLast(list: seq<Entry>, last: Entry)
    ensures Strict(list + [last]) <==> Strict(list) && Below(list, last)
  {
    var all := list + [last];
    assert forall i :: 0 <= i < |list| ==> all[i] == list[i];
    if Strict(all) {
      forall x | x in list
        ensures x.device < last.device
      {
        var i :| 0 <= i < |list| && list[i] == x;
        assert all[i].device < all[|list|].device;
      }
    }
  }

  /** No device publishes two verifiers in the list. */
  predicate PublishedOnce(records: seq<DeviceRecord>) {
    forall i, j :: 0 <= i < j < |records| && records[i].verifier.Some? && records[j].verifier.Some? ==>
      records[i].device != records[j].device
  }

  lemma {:induction false} LastPublishedAny(records: seq<DeviceRecord>, d: DeviceId)
    ensures LastPublished(records, d).Some? <==> exists i :: 0 <= i < |records| && records[i].device == d && records[i].verifier.Some?
  {
    if records != [] {
      LastPublishedAny(records[..|records| - 1], d);
    }
  }

  lemma PublishedOnceStep(records: seq<DeviceRecord>)
    requires records != [] && records[|records| - 1].verifier.Some?
    ensures PublishedOnce(records) <==>
      PublishedOnce(records[..|records| - 1]) && LastPublished(records[..|records| - 1], records[|records| - 1].device) == None
  {
    LastPublishedAny(records[..|records| - 1], records[|records| - 1].device);
  }

  function LatestOf(r: DeviceRecord, earlier: Option<Proof>, d: DeviceId): Option<Proof> {
    if r.device == d && r.verifier.Some? then r.verifier else earlier
  }

  lemma OneMoreRecord(front: seq<DeviceRecord>, r: DeviceRecord)
    ensures forall d :: LastPublished(front + [r], d) == LatestOf(r, LastPublished(front, d), d)
    ensures r.verifier == None ==> (PublishedOnce(front + [r]) <==> PublishedOnce(front))
  {
    var all := front + [r];
    assert all[..|front|] == front;
    assert forall i :: 0 <= i < |front| ==> all[i] == front[i];
  }

  /** The list of `front` with one more published verifier. */
  lemma OneMoreVerifier(front: seq<DeviceRecord>, r: DeviceRecord, list: seq<Entry>)
    requires r.verifier.Some? && InOrder(list) && (Strict(list) <==> PublishedOnce(front))
    requires forall d :: LastOf(list, d) == LastPublished(front, d)
    ensures var more := Insert(list, Entry(r.device, r.verifier.value));
      && InOrder(more) && (Strict(more) <==> PublishedOnce(front + [r]))
      && forall d :: LastOf(more, d) == LastPublished(front + [r], d)
  {
    var e := Entry(r.device, r.verifier.value);
    InsertFacts(list, e);
    OneMoreRecord(front, r);
    assert Strict(Insert(list, e)) <==> PublishedOnce(front + [r]) by {
      InsertStrict(list, e);
      LastOfListed(list, e.device);
      assert (front + [r])[..|front|] == front;
      PublishedOnceStep(front + [r]);
    }
  }

  /** The published verifiers in device order, records of one device in their own order. */
  function Authorized(records: seq<DeviceRecord>): seq<Entry> {
    if records == [] then []
    else
      var rest, last := Authorized(records[..|records| - 1]), records[|records| - 1];
      if last.verifier.Some? then Insert(rest, Entry(last.device, last.verifier.value)) else rest
  }

  /** The published verifiers as they come. */
  function Verifiers(records: seq<DeviceRecord>): seq<Entry> {
    if records == [] then []
    else
      var rest, last := Verifiers(records[..|records| - 1]), records[|records| - 1];
      if last.verifier.Some? then rest + [Entry(last.device, last.verifier.value)] else rest
  }

  lemma {:induction false} InsertAdds(list: seq<Entry>, e: Entry)
    ensures multiset(Insert(list, e)) == multiset(list) + multiset{e}
  {
    if list != [] {
      InsertAdds(list[..|list| - 1], e);
      assert list == list[..|list| - 1] + [list[|list| - 1]];
    }
  }

  /** Sorting loses and invents nothing. */
  lemma {:induction false} AuthorizedPermutes(records: seq<DeviceRecord>)
    ensures multiset(Authorized(records)) == multiset(Verifiers(records))
  {
    if records != [] {
      var rest, last := Authorized(records[..|records| - 1]), records[|records| - 1];
      AuthorizedPermutes(records[..|records| - 1]);
      if last.verifier.Some? {
        InsertAdds(rest, Entry(last.device, last.verifier.value));
      }
    }
  }

  /** `authorized_device_proof_verifiers`. */
  method AuthorizedVerifiers(records: seq<DeviceRecord>) returns (list: seq<Entry>)
    ensures list == Authorized(records) && InOrder(list)
    ensures forall d :: LastOf(list, d) == LastPublished(records, d)
    ensures Strict(list) <==> PublishedOnce(records)
  {
    list := [];
    for i := 0 to |records|
      invariant list == Authorized(records[..i]) && InOrder(list)
      invariant forall d :: LastOf(list, d) == LastPublished(records[..i], d)
      invariant Strict(list) <==> PublishedOnce(records[..i])
    {
      var record := records[i];
      assert records[..i + 1] == records[..i] + [record] && records[..i + 1][..i] == records[..i];
      if record.verifier.Some? {
        OneMoreVerifier(records[..i], record, list);
        list := Insert(list, Entry(record.device, record.verifier.value));
      } else {
        OneMoreRecord(records[..i], record);
      }
    }
    assert records[..|records|] == records;
  }

  /** Whether the refreshed list differs from the list of what was installed before; the latter
      is in device order and holds each device once. */
  predicate Changed(refreshed: seq<Entry>, before: map<DeviceId, Proof>) {
    !Strict(refreshed) || Table(refreshed) != before
  }

  function Table(list: seq<Entry>): map<DeviceId, Proof>
    requires Strict(list)
  {
    map e | e in list :: e.device := e.proof
  }

  function Look(m: map<DeviceId, Proof>, d: DeviceId): Option<Proof> { if d in m then Some(m[d]) else None }

  /** The answers a list gives. */
  function MapOf(list: seq<Entry>): map<DeviceId, Proof> {
    if list == [] then map[]
    else MapOf(list[..|list| - 1])[list[|list| - 1].device := list[|list| - 1].proof]
  }

  lemma {:induction false} MapOfLooks(list: seq<Entry>)
    ensures forall d :: Look(MapOf(list), d) == LastOf(list, d)
  {
    if list != [] {
      MapOfLooks(list[..|list| - 1]);
    }
  }

  /** With each device listed once, trust reads as changed exactly when some device's answer did. */
  lemma ChangedMeans(list: seq<Entry>, before: map<DeviceId, Proof>)
    requires Strict(list)
    ensures Changed(list, before) <==> exists d :: LastOf(list, d) != Look(before, d)
  {
    TableLooks(list);
    if forall d :: LastOf(list, d) == Look(before, d) {
      SameLooks(Table(list), before);
    }
  }

  /** Some answer for the workspace differs between the two caches. */
  ghost predicate TrustMoved(was: Cache, now: Cache, w: Workspace) {
    exists d :: Answer(was, w, d) != Answer(now, w, d)
  }

  lemma ChangedIsMoved(list: seq<Entry>, before: map<DeviceId, Proof>, was: Cache, now: Cache, w: Workspace)
    requires forall d :: Look(before, d) == Answer(was, w, d)
    requires forall d :: Answer(now, w, d) == LastOf(list, d)
    ensures Changed(list, before) <==> (Strict(list) ==> TrustMoved(was, now, w))
  {
    if Strict(list) {
      ChangedMeans(list, before);
    }
  }

  lemma TableLooks(list: seq<Entry>)
    requires Strict(list)
    ensures forall d :: LastOf(list, d) == Look(Table(list), d)
  {
    forall d: DeviceId
      ensures LastOf(list, d) == Look(Table(list), d)
    {
      LastOfListed(list, d);
    }
  }

  lemma SameLooks(m: map<DeviceId, Proof>, n: map<DeviceId, Proof>)
    requires forall d :: Look(m, d) == Look(n, d)
    ensures m == n
  {
    assert forall d :: d in m ==> Look(m, d) == Look(n, d);
    assert forall d :: d in n ==> Look(m, d) == Look(n, d);
  }

  // ---- what a run of calls satisfies ------------------------------------------

  /** Reads are a cooldown apart, and none is later than the stamp. */
  ghost predicate Paced(calls: seq<Call>, stamp: Option<nat>) {
    && (forall i, j :: 0 <= i < j < |calls| && calls[i].read && calls[j].read ==> calls[i].now + COOLDOWN <= calls[j].now)
    && (forall i :: 0 <= i < |calls| && calls[i].read ==> stamp.Some? && calls[i].now <= stamp.value)
  }

  /** Some call after `i` and before `j` saw the workspace's trust change. */
  ghost predicate Overtaken(calls: seq<Call>, i: int, j: int) {
    exists k :: 0 <= i < k < j <= |calls| && calls[k].changed
  }

  /** A recorded refusal stands in the table until it is overtaken. */
  ghost predicate Remembered(calls: seq<Call>, refused: map<DeviceId, nat>) {
    forall i :: 0 <= i < |calls| && calls[i].recorded && !Overtaken(calls, i, |calls|) ==>
      calls[i].device in refused && calls[i].now <= refused[calls[i].device]
  }

  /** A recorded refusal rules out reads for its signer within the retry interval, unless it was
      overtaken in between. */
  ghost predicate Respected(calls: seq<Call>) {
    forall i, j :: 0 <= i < j < |calls| && calls[i].recorded && calls[j].read && calls[j].device == calls[i].device ==>
      calls[i].now + REFUSED_RETRY <= calls[j].now || Overtaken(calls, i, j)
  }

  /** One more call keeps all of it, if it reads only when the stamp and the table allow. */
  lemma CallKeeps(calls: seq<Call>, stamp: Option<nat>, refused: map<DeviceId, nat>, c: Call, refused': map<DeviceId, nat>)
    requires Paced(calls, stamp) && Remembered(calls, refused) && Respected(calls)
    requires c.read ==> stamp.Some? ==> stamp.value + COOLDOWN <= c.now
    requires c.read ==> c.device in refused ==> refused[c.device] + REFUSED_RETRY <= c.now
    requires refused' == Refusals(c, refused)
    requires c.recorded ==> c.read
    ensures Paced(calls + [c], Stamp(c, stamp))
    ensures Remembered(calls + [c], refused')
    ensures Respected(calls + [c])
  {
    var n, all := |calls|, calls + [c];
    forall i, j | 0 <= i < j <= n && Overtaken(calls, i, j)
      ensures Overtaken(all, i, j)
    {
      var k :| i < k < j && calls[k].changed;
      assert all[k].changed;
    }
    forall i | 0 <= i < n && all[i].recorded && !Overtaken(all, i, n + 1)
      ensures all[i].device in refused' && all[i].now <= refused'[all[i].device]
    {
      assert !all[n].changed;
      assert !Overtaken(calls, i, n);
    }
  }

  /** A call reads exactly if its device is unknown, not lately refused, and out of the cooldown. */
  ghost predicate ReadsWhen(c: Call, w: Workspace, cache: Cache, refused: map<DeviceId, nat>, stamp: Option<nat>) {
    c.read <==>
      && Answer(cache, w, c.device) == None
      && (c.device in refused ==> refused[c.device] + REFUSED_RETRY <= c.now)
      && (stamp.Some? ==> stamp.value + COOLDOWN <= c.now)
  }

  /** What a call about an unknown signer comes to: what it installs, what it answers, and exactly
      when it records a refusal (there is room) and counts trust as changed (an answer moved, or the
      list named a device twice). */
  ghost predicate Settles(c: Call, r: Outcome, read: Option<seq<DeviceRecord>>, w: Workspace, was: Cache, now: Cache,
                          refused: map<DeviceId, nat>)
  {
    && c.installed == (if c.read then read else None)
    && (c.installed == None ==> now == was)
    && (c.installed.Some? ==> forall d :: Answer(now, w, d) == LastPublished(c.installed.value, d))
    && (r == Learned <==> Answer(now, w, c.device).Some?)
    && (r == NotAuthorized <==> c.installed.Some? && Answer(now, w, c.device) == None)
    && (r == Unavailable <==> c.read && read.None?)
    && (c.recorded <==> r == NotAuthorized && (c.changed || |refused| < MAX_REFUSED_SIGNERS))
    && (c.changed <==> c.installed.Some? && (PublishedOnce(c.installed.value) ==> TrustMoved(was, now, w)))
  }

  lemma OneMoreRefusal(refused: map<DeviceId, nat>, device: DeviceId, now: nat)
    ensures |refused[device := now]| <= |refused| + 1
    ensures refused[device := now] == refused + map[device := now]
  {
    assert refused[device := now].Keys == refused.Keys + {device};
    assert |refused.Keys + {device}| <= |refused.Keys| + 1;
  }

  lemma SettlesRight(c: Call, r: Outcome, read: seq<DeviceRecord>, list: seq<Entry>, before: map<DeviceId, Proof>,
                     w: Workspace, was: Cache, now: Cache, refused: map<DeviceId, nat>)
    requires c.read && c.installed == Some(read)
    requires forall d :: Look(before, d) == Answer(was, w, d)
    requires forall d :: Answer(now, w, d) == LastPublished(read, d)
    requires (forall d :: LastOf(list, d) == LastPublished(read, d)) && (Strict(list) <==> PublishedOnce(read))
    requires c.changed == Changed(list, before)
    requires r == if LastOf(list, c.device).Some? then Learned else NotAuthorized
    requires c.recorded <==> r == NotAuthorized && (c.changed || |refused| < MAX_REFUSED_SIGNERS)
    ensures Settles(c, r, Some(read), w, was, now, refused)
  {
    ChangedIsMoved(list, before, was, now, w);
  }

  function Refusals(c: Call, refused: map<DeviceId, nat>): map<DeviceId, nat> {
    (if c.changed then map[] else refused) + (if c.recorded then map[c.device := c.now] else map[])
  }

  function Stamp(c: Call, stamp: Option<nat>): Option<nat> { if c.read then Some(c.now) else stamp }

  class WorkspaceDeviceTrust {
    const workspace: Workspace
    var verifiers: Cache
    var lastRefreshAt: Option<nat>
    /** When each refused signer was last asked about. */
    var refused: map<DeviceId, nat>
    ghost var calls: seq<Call>

    ghost predicate Valid()
      reads this
    {
      && Paced(calls, lastRefreshAt) && Remembered(calls, refused) && Respected(calls)
      && |refused| <= MAX_REFUSED_SIGNERS
    }

    constructor (workspace: Workspace, verifiers: Cache)
      ensures Valid() && this.workspace == workspace && this.verifiers == verifiers && calls == []
      ensures lastRefreshAt == None && refused == map[]
    {
      this.workspace, this.verifiers := workspace, verifiers;
      lastRefreshAt, refused, calls := None, map[], [];
    }

    /** The resolver: it only reads the shared map. */
    function Resolve(w: Workspace, device: DeviceId): Option<Proof>
      reads this`verifiers
    {
      Answer(verifiers, w, device)
    }

    /** The installed verifiers of this workspace. */
    function Installed(): (m: map<DeviceId, Proof>)
      reads this`verifiers
      ensures forall d :: Look(m, d) == Answer(verifiers, workspace, d)
    {
      map key | key in verifiers && key.0 == Some(workspace) :: key.1 := verifiers[key]
    }

    /** `install`. */
    method Install(list: seq<Entry>)
      modifies this`verifiers
      ensures forall d :: Resolve(workspace, d) == LastOf(list, d)
      ensures forall key: (Option<Workspace>, DeviceId) :: key.0 != Some(workspace) ==>
        (key in verifiers <==> key in old(verifiers)) && (key in verifiers ==> verifiers[key] == old(verifiers)[key])
    {
      verifiers := map key | key in verifiers && key.0 != Some(workspace) :: verifiers[key];
      for i := 0 to |list|
        invariant forall d :: Resolve(workspace, d) == LastOf(list[..i], d)
        invariant forall key: (Option<Workspace>, DeviceId) :: key.0 != Some(workspace) ==>
          (key in verifiers <==> key in old(verifiers)) && (key in verifiers ==> verifiers[key] == old(verifiers)[key])
      {
        assert list[..i + 1][..i] == list[..i];
        verifiers := verifiers[(Some(workspace), list[i].device) := list[i].proof];
      }
      assert list[..|list|] == list;
    }

    /** `read_and_install`: afterwards the resolver answers exactly from the last list read, and
        answers for other workspaces are untouched. */
    method ReadAndInstall(read: Option<seq<DeviceRecord>>) returns (list: Option<seq<Entry>>)
      modifies this`verifiers
      ensures list.Some? <==> read.Some?
      ensures read.None? ==> verifiers == old(verifiers)
      ensures list.Some? ==> list.value == Authorized(read.value) && InOrder(list.value)
      ensures list.Some? ==> forall d :: LastOf(list.value, d) == LastPublished(read.value, d)
      ensures list.Some? ==> (Strict(list.value) <==> PublishedOnce(read.value))
      ensures read.Some? ==> forall d :: Resolve(workspace, d) == LastPublished(read.value, d)
      ensures forall w, d :: w != workspace ==> Resolve(w, d) == old(Resolve(w, d))
    {
      if read == None {
        return None;
      }
      var authoritative := AuthorizedVerifiers(read.value);
      Install(authoritative);
      return Some(authoritative);
    }

    /** `claim_refresh`. */
    method ClaimRefresh(device: DeviceId, now: nat) returns (refusal: Option<Outcome>)
      modifies this`lastRefreshAt
      ensures refusal == Some(AlreadyRefused) <==> device in refused && now < refused[device] + REFUSED_RETRY
      ensures refusal == None <==>
        && (device in refused ==> refused[device] + REFUSED_RETRY <= now)
        && (old(lastRefreshAt).Some? ==> old(lastRefreshAt).value + COOLDOWN <= now)
      ensures lastRefreshAt == if refusal == None then Some(now) else old(lastRefreshAt)
      ensures refusal in {None, Some(AlreadyRefused), Some(RateLimited)}
    {
      if device in refused && Elapsed(now, refused[device]) < REFUSED_RETRY {
        return Some(AlreadyRefused);
      }
      if lastRefreshAt.Some? && Elapsed(now, lastRefreshAt.value) < COOLDOWN {
        return Some(RateLimited);
      }
      lastRefreshAt := Some(now);
      return None;
    }

    /** `settle`: record what the read concluded about `device`. */
    method Settle(device: DeviceId, before: map<DeviceId, Proof>, refreshed: seq<Entry>, now: nat)
      returns (r: Outcome, ghost recorded: bool, ghost changed: bool)
      requires |refused| <= MAX_REFUSED_SIGNERS
      modifies this`refused
      ensures changed == Changed(refreshed, before)
      ensures r == if LastOf(refreshed, device).Some? then Learned else NotAuthorized
      ensures recorded <==> r == NotAuthorized && (changed || |old(refused)| < MAX_REFUSED_SIGNERS)
      ensures |refused| <= MAX_REFUSED_SIGNERS
      ensures refused == (if changed then map[] else old(refused)) + (if recorded then map[device := now] else map[])
    {
      recorded, changed := false, Changed(refreshed, before);
      LastOfListed(refreshed, device);
      var learned := Lists(refreshed, device);
      if Changed(refreshed, before) {
        refused := map[];
      }
      if learned {
        return Learned, recorded, changed;
      }
      if |refused| < MAX_REFUSED_SIGNERS {
        recorded := true;
        OneMoreRefusal(refused, device, now);
        refused := refused[device := now];
      }
      return NotAuthorized, recorded, changed;
    }

    /** `refresh_unknown_signer`. `read` is what the control plane would answer. */
    method RefreshUnknownSigner(read: Option<seq<DeviceRecord>>, device: DeviceId, now: nat)
      returns (r: Outcome, ghost c: Call)
      requires Valid()
      modifies this
      ensures Valid() && calls == old(calls) + [c] && c.device == device && c.now == now
      ensures ReadsWhen(c, workspace, old(verifiers), old(refused), old(lastRefreshAt))
      ensures Settles(c, r, read, workspace, old(verifiers), verifiers, old(refused))
      ensures refused == Refusals(c, old(refused)) && lastRefreshAt == Stamp(c, old(lastRefreshAt))
      ensures r == AlreadyRefused <==>
        old(Resolve(workspace, device)) == None && device in old(refused) && now < old(refused)[device] + REFUSED_RETRY
      ensures r == RateLimited <==>
        && old(Resolve(workspace, device)) == None && r != AlreadyRefused
        && old(lastRefreshAt).Some? && now < old(lastRefreshAt).value + COOLDOWN
      ensures forall w, d :: w != workspace ==> Resolve(w, d) == old(Resolve(w, d))
    {
      if Resolve(workspace, device).Some? {
        c := Call(device, now, false, false, false, None);
        Log(c, old(lastRefreshAt), old(refused));
        return Learned, c;
      }
      var refusal := ClaimRefresh(device, now);
      if refusal.Some? {
        c := Call(device, now, false, false, false, None);
        Log(c, old(lastRefreshAt), old(refused));
        return refusal.value, c;
      }
      r, c := ReadAndSettle(read, device, now, old(lastRefreshAt));
    }

    /** The rest of `refresh_unknown_signer`, once the claim is granted. `stamp` is what the claim
        overwrote. */
    method ReadAndSettle(read: Option<seq<DeviceRecord>>, device: DeviceId, now: nat, ghost stamp: Option<nat>)
      returns (r: Outcome, ghost c: Call)
      requires Paced(calls, stamp) && Remembered(calls, refused) && Respected(calls)
      requires |refused| <= MAX_REFUSED_SIGNERS && lastRefreshAt == Some(now)
      requires stamp.Some? ==> stamp.value + COOLDOWN <= now
      requires device in refused ==> refused[device] + REFUSED_RETRY <= now
      requires Resolve(workspace, device) == None
      modifies this`verifiers, this`refused, this`calls
      ensures Valid() && calls == old(calls) + [c] && c.device == device && c.now == now && c.read
      ensures Settles(c, r, read, workspace, old(verifiers), verifiers, old(refused)) && refused == Refusals(c, old(refused))
      ensures forall w, d :: w != workspace ==> Resolve(w, d) == old(Resolve(w, d))
    {
      ghost var table := refused;
      r, c := Conclude(read, device, now);
      Log(c, stamp, table);
    }

    method Conclude(read: Option<seq<DeviceRecord>>, device: DeviceId, now: nat) returns (r: Outcome, ghost c: Call)
      requires |refused| <= MAX_REFUSED_SIGNERS && Resolve(workspace, device) == None
      modifies this`verifiers, this`refused
      ensures c.device == device && c.now == now && c.read && |refused| <= MAX_REFUSED_SIGNERS
      ensures Settles(c, r, read, workspace, old(verifiers), verifiers, old(refused)) && refused == Refusals(c, old(refused))
      ensures forall w, d :: w != workspace ==> Resolve(w, d) == old(Resolve(w, d))
    {
      var before := Installed();
      assert forall d :: Look(before, d) == Answer(old(verifiers), workspace, d);
      var refreshed := ReadAndInstall(read);
      assert forall w, d :: w != workspace ==> Resolve(w, d) == old(Resolve(w, d));
      if refreshed == None {
        return Unavailable, Call(device, now, true, false, false, None);
      }
      ghost var table := refused;
      ghost var recorded, changed;
      r, recorded, changed := Settle(device, before, refreshed.value, now);
      c := Call(device, now, true, recorded, changed, read);
      SettlesRight(c, r, read.value, refreshed.value, before, workspace, old(verifiers), verifiers, table);
    }

    /** Bookkeeping for the run: this call happened. */
    ghost method Log(c: Call, stamp: Option<nat>, table: map<DeviceId, nat>)
      requires Paced(calls, stamp) && Remembered(calls, table) && Respected(calls)
      requires lastRefreshAt == Stamp(c, stamp)
      requires c.read ==> stamp.Some? ==> stamp.value + COOLDOWN <= c.now
      requires c.read ==> c.device in table ==> table[c.device] + REFUSED_RETRY <= c.now
      requires refused == Refusals(c, table)
      requires c.recorded ==> c.read
      requires |refused| <= MAX_REFUSED_SIGNERS
      modifies this`calls
      ensures Valid() && calls == old(calls) + [c]
    {
      CallKeeps(calls, stamp, table, c, refused);
      calls := calls + [c];
    }

    /** `refresh`: an explicit read, outside the budget. */
    method Refresh(read: Option<seq<DeviceRecord>>) returns (list: Option<seq<Entry>>)
      requires Valid()
      modifies this`verifiers, this`calls
      ensures Valid() && calls == old(calls) + [Call(0, 0, false, false, false, read)]
      ensures list == if read == None then None else Some(Authorized(read.value))
      ensures read.Some? ==> forall d :: Resolve(workspace, d) == LastPublished(read.value, d)
      ensures read.None? ==> verifiers == old(verifiers)
      ensures forall w, d :: w != workspace ==> Resolve(w, d) == old(Resolve(w, d))
    {
      list := ReadAndInstall(read);
      Log(Call(0, 0, false, false, false, read), lastRefreshAt, refused);
    }

    /** One event of a run that began with `b`. */
    method Handle(event: Event, ghost b: Beginning) returns (ghost c: Call)
      requires Valid() && b.workspace == workspace && Tracks(b, calls, verifiers, refused, lastRefreshAt)
      modifies this
      ensures Valid() && calls == old(calls) + [c] && Explains(event, old(calls), c, b)
      ensures Tracks(b, calls, verifiers, refused, lastRefreshAt)
      ensures forall w, d :: w != workspace ==> Resolve(w, d) == old(Resolve(w, d))
    {
      match event
      case Signer(device, now, read) =>
        var outcome, made := RefreshUnknownSigner(read, device, now);
        c := made;
        SignerExplained(b, old(calls), old(verifiers), old(refused), old(lastRefreshAt), read, c, outcome, verifiers);
        TracksMore(b, old(calls), old(verifiers), old(refused), old(lastRefreshAt), c, verifiers);
      case Explicit(read) =>
        var _ := Refresh(read);
        c := Call(0, 0, false, false, false, read);
        TracksMore(b, old(calls), old(verifiers), old(refused), old(lastRefreshAt), c, verifiers);
    }

    /** Any sequence of unknown signers, clock readings, explicit refreshes and answers. */
    method Run(events: seq<Event>)
      requires Valid() && calls == []
      modifies this
      ensures Valid() && Paced(calls, lastRefreshAt) && Respected(calls)
      // Everything the log says of a call follows from the event and the calls before it.
      ensures Explained(events, calls, Beginning(workspace, old(verifiers), old(refused), old(lastRefreshAt)))
      ensures refused == TableAfter(old(refused), calls) && lastRefreshAt == StampAfter(old(lastRefreshAt), calls)
      // The resolver answers exactly from the last list read, for this workspace alone.
      ensures forall d :: Resolve(workspace, d) == Installing(LastInstalled(calls), old(verifiers), workspace, d)
      ensures forall w, d :: w != workspace ==> Resolve(w, d) == old(Resolve(w, d))
    {
      ghost var b := Beginning(workspace, verifiers, refused, lastRefreshAt);
      for n := 0 to |events|
        invariant Valid() && Explained(events[..n], calls, b) && Tracks(b, calls, verifiers, refused, lastRefreshAt)
        invariant forall w, d :: w != workspace ==> Resolve(w, d) == old(Resolve(w, d))
      {
        ghost var was := calls;
        var c := Handle(events[n], b);
        ExplainedMore(events[..n], events[n], was, c, b);
        assert events[..n + 1] == events[..n] + [events[n]];
      }
      assert events[..|events|] == events;
    }
  }

  /** Where a run began. */
  datatype Beginning = Beginning(workspace: Workspace, verifiers: Cache, refused: map<DeviceId, nat>, stamp: Option<nat>)

  /** The refusal table after the calls: cleared by changed trust, added to by recorded refusals. */
  function TableAfter(start: map<DeviceId, nat>, calls: seq<Call>): map<DeviceId, nat> {
    if calls == [] then start
    else
      Refusals(calls[|calls| - 1], TableAfter(start, calls[..|calls| - 1]))
  }

  /** When the last budgeted read was. */
  function StampAfter(start: Option<nat>, calls: seq<Call>): Option<nat> {
    if calls == [] then start
    else Stamp(calls[|calls| - 1], StampAfter(start, calls[..|calls| - 1]))
  }

  /** What the resolver said of `d` after the calls. */
  function Held(b: Beginning, calls: seq<Call>, d: DeviceId): Option<Proof> {
    Installing(LastInstalled(calls), b.verifiers, b.workspace, d)
  }

  /** The list names a device twice, or gives one an answer it did not have after the calls. */
  ghost predicate Moves(b: Beginning, calls: seq<Call>, list: seq<DeviceRecord>) {
    PublishedOnce(list) ==> exists d :: LastPublished(list, d) != Held(b, calls, d)
  }

  /** A call as the log has it, from its event and the calls before it: exactly when it read, what it
      installed, and exactly when it changed trust and recorded a refusal. */
  ghost predicate Explains(event: Event, before: seq<Call>, c: Call, b: Beginning) {
    match event
    case Explicit(read) => c == Call(0, 0, false, false, false, read)
    case Signer(device, now, read) =>
      var table, stamp := TableAfter(b.refused, before), StampAfter(b.stamp, before);
      && c.device == device && c.now == now && c.installed == (if c.read then read else None)
      && (c.read <==>
            && Held(b, before, device) == None
            && (device in table ==> table[device] + REFUSED_RETRY <= now)
            && (stamp.Some? ==> stamp.value + COOLDOWN <= now))
      && (c.changed <==> c.installed.Some? && Moves(b, before, c.installed.value))
      && (c.recorded <==>
            && c.installed.Some? && LastPublished(c.installed.value, device) == None
            && (c.changed || |table| < MAX_REFUSED_SIGNERS))
  }

  /** Each call is explained by its event and the calls before it. */
  ghost predicate Explained(events: seq<Event>, calls: seq<Call>, b: Beginning) {
    |calls| == |events| && forall i {:trigger events[i]} :: 0 <= i < |calls| ==> Explains(events[i], calls[..i], calls[i], b)
  }

  lemma ExplainedMore(events: seq<Event>, event: Event, calls: seq<Call>, c: Call, b: Beginning)
    requires Explained(events, calls, b) && Explains(event, calls, c, b)
    ensures Explained(events + [event], calls + [c], b)
  {
    var es, cs := events + [event], calls + [c];
    forall i | 0 <= i < |cs|
      ensures Explains(es[i], cs[..i], cs[i], b)
    {
      if i < |calls| {
        assert cs[..i] == calls[..i] && cs[i] == calls[i] && es[i] == events[i];
      } else {
        assert cs[..i] == calls;
      }
    }
  }

  /** The fields are what the calls made of the beginning. */
  ghost predicate Tracks(b: Beginning, calls: seq<Call>, cache: Cache, refused: map<DeviceId, nat>, stamp: Option<nat>) {
    && (forall d :: Answer(cache, b.workspace, d) == Held(b, calls, d))
    && refused == TableAfter(b.refused, calls) && stamp == StampAfter(b.stamp, calls)
  }

  lemma TracksMore(b: Beginning, calls: seq<Call>, cache: Cache, refused: map<DeviceId, nat>, stamp: Option<nat>, c: Call, cache': Cache)
    requires Tracks(b, calls, cache, refused, stamp)
    requires c.installed.Some? ==> forall d :: Answer(cache', b.workspace, d) == LastPublished(c.installed.value, d)
    requires c.installed == None ==> cache' == cache
    ensures Tracks(b, calls + [c], cache', Refusals(c, refused), Stamp(c, stamp))
  {
    assert (calls + [c])[..|calls|] == calls;
  }

  lemma SignerExplained(b: Beginning, calls: seq<Call>, cache: Cache, refused: map<DeviceId, nat>, stamp: Option<nat>,
                        read: Option<seq<DeviceRecord>>, c: Call, r: Outcome, cache': Cache)
    requires Tracks(b, calls, cache, refused, stamp)
    requires ReadsWhen(c, b.workspace, cache, refused, stamp) && Settles(c, r, read, b.workspace, cache, cache', refused)
    ensures Explains(Signer(c.device, c.now, read), calls, c, b)
  {
    assert forall d :: Answer(cache, b.workspace, d) == Held(b, calls, d);
    if c.installed.Some? {
      var list := c.installed.value;
      assert forall d :: Answer(cache', b.workspace, d) == LastPublished(list, d);
      assert TrustMoved(cache, cache', b.workspace) <==> exists d :: LastPublished(list, d) != Held(b, calls, d);
    }
  }

  /** The last list that any call installed. */
  function LastInstalled(calls: seq<Call>): Option<seq<DeviceRecord>> {
    if calls == [] then None
    else if calls[|calls| - 1].installed.Some? then calls[|calls| - 1].installed
    else LastInstalled(calls[..|calls| - 1])
  }

  /** The answer for `d` once `list`, if any, has replaced the answers of `w`. */
  function Installing(list: Option<seq<DeviceRecord>>, was: Cache, w: Workspace, d: DeviceId): Option<Proof> {
    if list.Some? then LastPublished(list.value, d) else Answer(was, w, d)
  }

  // ---- witnesses ----------------------------------------------------------------

  /** Whole cooldowns since the start. */
  function Tick(i: nat): nat { i * 30_000_000_000 }

  /** Sixty-four strangers, one after each cooldown, and then the first of them twice more; the
      workspace has no devices. */
  function Stranger(i: nat): Event {
    Signer(if i < MAX_REFUSED_SIGNERS then i else 0, Tick(i), Some([]))
  }

  function Strangers(n: nat): (events: seq<Event>)
    ensures |events| == n && forall i :: 0 <= i < n ==> events[i] == Stranger(i)
  {
    if n == 0 then [] else Strangers(n - 1) + [Stranger(n - 1)]
  }

  /** Each of them is asked about and refused, but only the first sixty-four refusals are recorded. */
  function Turned(i: nat): Call {
    Call(Stranger(i).device, Tick(i), true, i < MAX_REFUSED_SIGNERS, false, Some([]))
  }

  predicate Filled(table: map<DeviceId, nat>, n: nat) {
    && |table| == Min(n, MAX_REFUSED_SIGNERS)
    && (forall d :: d in table ==> d < n && d < MAX_REFUSED_SIGNERS)
    && (n > 0 ==> 0 in table && table[0] == 0)
  }

  lemma FilledMore(table: map<DeviceId, nat>, n: nat)
    requires Filled(table, n)
    ensures n < MAX_REFUSED_SIGNERS ==> n !in table && Filled(table + map[n := Tick(n)], n + 1)
    ensures n >= MAX_REFUSED_SIGNERS ==> Filled(table, n + 1)
  {
    if n < MAX_REFUSED_SIGNERS {
      var more := table + map[n := Tick(n)];
      assert more.Keys == table.Keys + {n};
    }
  }

  lemma NothingMoves(b: Beginning, before: seq<Call>)
    requires b.verifiers == map[] && LastInstalled(before) in {None, Some([])}
    ensures forall d :: Held(b, before, d) == None
    ensures !Moves(b, before, [])
  {
    assert forall d :: LastPublished([], d) == None;
  }

  /** The call of stranger `n`, after those before. */
  lemma StrangerTurned(b: Beginning, before: seq<Call>, c: Call, n: nat)
    requires Explains(Stranger(n), before, c, b)
    requires (forall d :: Held(b, before, d) == None) && !Moves(b, before, [])
    requires Filled(TableAfter(b.refused, before), n)
    requires StampAfter(b.stamp, before) == if n == 0 then None else Some(Tick(n - 1))
    ensures c == Turned(n)
  {
    var table, device := TableAfter(b.refused, before), Stranger(n).device;
    assert device in table ==> table[device] + REFUSED_RETRY <= Tick(n);
    assert c.read && c.installed == Some([]) && LastPublished([], device) == None;
  }

  /** What the calls of the first `n` strangers leave behind. */
  ghost predicate Behind(b: Beginning, calls: seq<Call>, n: nat) {
    && Filled(TableAfter(b.refused, calls), n)
    && LastInstalled(calls) == (if n == 0 then None else Some([]))
    && StampAfter(b.stamp, calls) == (if n == 0 then None else Some(Tick(n - 1)))
  }

  lemma AfterMore(b: Beginning, before: seq<Call>, c: Call)
    ensures TableAfter(b.refused, before + [c]) == Refusals(c, TableAfter(b.refused, before))
    ensures StampAfter(b.stamp, before + [c]) == Stamp(c, StampAfter(b.stamp, before))
    ensures LastInstalled(before + [c]) == if c.installed.Some? then c.installed else LastInstalled(before)
  {
    assert (before + [c])[..|before|] == before;
  }

  lemma TurnedRefusals(table: map<DeviceId, nat>, n: nat)
    ensures Refusals(Turned(n), table) == if n < MAX_REFUSED_SIGNERS then table + map[n := Tick(n)] else table
  {
  }

  lemma BehindMore(b: Beginning, before: seq<Call>, n: nat)
    requires Behind(b, before, n)
    ensures Behind(b, before + [Turned(n)], n + 1)
  {
    var table := TableAfter(b.refused, before);
    AfterMore(b, before, Turned(n));
    FilledMore(table, n);
    TurnedRefusals(table, n);
  }

  lemma TurnedNext(b: Beginning, before: seq<Call>, c: Call, n: nat)
    requires b.verifiers == map[] && Behind(b, before, n) && Explains(Stranger(n), before, c, b)
    ensures c == Turned(n)
  {
    NothingMoves(b, before);
    StrangerTurned(b, before, c, n);
  }

  lemma BehindPrefix(b: Beginning, calls: seq<Call>, n: nat)
    requires 0 < n <= |calls| && Behind(b, calls[..n - 1], n - 1) && calls[n - 1] == Turned(n - 1)
    ensures Behind(b, calls[..n], n)
  {
    TakeMore(calls, n);
    BehindMore(b, calls[..n - 1], n - 1);
  }

  lemma TakeMore(calls: seq<Call>, n: nat)
    requires 0 < n <= |calls|
    ensures calls[..n] == calls[..n - 1] + [calls[n - 1]]
  {
  }

  lemma {:induction false} StrangersBehind(b: Beginning, calls: seq<Call>, total: nat, n: nat)
    requires b.verifiers == map[] && b.refused == map[] && b.stamp == None
    requires n <= total && Explained(Strangers(total), calls, b)
    ensures Behind(b, calls[..n], n)
    decreases n, 0
  {
    if n > 0 {
      StrangerAt(b, calls, total, n - 1);
      StrangersBehind(b, calls, total, n - 1);
      BehindPrefix(b, calls, n);
    }
  }

  lemma StrangerAt(b: Beginning, calls: seq<Call>, total: nat, n: nat)
    requires b.verifiers == map[] && b.refused == map[] && b.stamp == None
    requires n < total && Explained(Strangers(total), calls, b)
    ensures calls[n] == Turned(n)
    decreases n, 1
  {
    StrangersBehind(b, calls, total, n);
    assert Explains(Strangers(total)[n], calls[..n], calls[n], b);
    TurnedNext(b, calls[..n], calls[n], n);
  }

  /** So a full table forgets: 64 refusals 30 seconds apart are recorded; then the first device is
      asked about, refused and not recorded, and one cooldown later it is asked about again. */
  method FullTableForgets(w: Workspace) returns (trust: WorkspaceDeviceTrust)
    ensures fresh(trust) && |trust.calls| == MAX_REFUSED_SIGNERS + 2
    ensures forall i :: 0 <= i < MAX_REFUSED_SIGNERS + 2 ==> trust.calls[i] == Turned(i)
    ensures |trust.refused| == MAX_REFUSED_SIGNERS && 0 in trust.refused && trust.refused[0] == 0
  {
    trust := new WorkspaceDeviceTrust(w, map[]);
    trust.Run(Strangers(MAX_REFUSED_SIGNERS + 2));
    StrangersForgotten(Beginning(w, map[], map[], None), trust.calls);
  }

  lemma StrangersForgotten(b: Beginning, calls: seq<Call>)
    requires b.verifiers == map[] && b.refused == map[] && b.stamp == None
    requires Explained(Strangers(MAX_REFUSED_SIGNERS + 2), calls, b)
    ensures forall i :: 0 <= i < MAX_REFUSED_SIGNERS + 2 ==> calls[i] == Turned(i)
    ensures Filled(TableAfter(map[], calls), MAX_REFUSED_SIGNERS + 2)
  {
    var n := MAX_REFUSED_SIGNERS + 2;
    forall i: nat | i < n
      ensures calls[i] == Turned(i)
    {
      StrangerAt(b, calls, n, i);
    }
    StrangersBehind(b, calls, n, n);
    assert calls[..n] == calls;
  }

  /** A list that names a device twice counts as changed although no answer moved. */
  lemma DoubledDeviceReadsAsChanged(device: DeviceId, proof: Proof)
    ensures var list := [Entry(device, proof), Entry(device, proof)];
      Changed(list, map[device := proof]) && forall d :: LastOf(list, d) == Look(map[device := proof], d)
  {
    var list := [Entry(device, proof), Entry(device, proof)];
    assert !(list[0].device < list[1].device);
    assert list[..1] == [Entry(device, proof)] && [Entry(device, proof)][..0] == [];
    forall d: DeviceId
      ensures LastOf(list, d) == Look(map[device := proof], d)
    {
      assert LastOf([Entry(device, proof)], d) == if d == device then Some(proof) else None;
    }
  }

  /** `saturating_duration_since`. */
  function Elapsed(now: nat, since: nat): nat { if now < since then 0 else now - since }
}
