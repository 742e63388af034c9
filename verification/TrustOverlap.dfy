/**
 Device-trust refreshes in flight together (`device_trust.rs`). One call claims the budget, notes
 what is installed, reads the control plane, installs what it read, and settles; each of these is
 a step of its own and the steps of different calls interleave. The log has one moment per step.
 */
module TrustOverlap {
  import opened Prelude
  import opened DeviceTrust

  type Answers = map<DeviceId, Proof>

  /** A step of the call that step `claim` began, or an explicit refresh. */
  datatype Step =
    | Claim(device: DeviceId, now: nat)
    | Note(claim: nat)
    | Arrival(claim: nat, read: Option<seq<DeviceRecord>>)
    | Settling(claim: nat)
    | Explicit(read: Option<seq<DeviceRecord>>)

  /** A call in flight. `before` is what it noted, at step `noted`; `list` was installed at step
      `arrived`, over the answers `over`. */
  datatype Flight =
    | Claimed(device: DeviceId, at: nat)
    | Noted(device: DeviceId, at: nat, noted: nat, before: Answers)
    | Arrived(device: DeviceId, at: nat, noted: nat, before: Answers, arrived: nat, list: seq<Entry>, over: Answers)

  /** What a step came to. A conclusion records its refusal under the time of its claim. */
  datatype Moment =
    | Quiet
    | Granted(device: DeviceId, now: nat)
    | Seen(claim: nat)
    | Installed(list: seq<Entry>)
    | Concluded(claim: nat, device: DeviceId, at: nat, noted: nat, before: Answers, arrived: nat, list: seq<Entry>,
                over: Answers, recorded: bool, changed: bool)

  /** The workspace's installed answers, the budget, the calls in flight, and what happened. */
  datatype State = State(
    held: Answers,
    stamp: Option<nat>,
    refused: map<DeviceId, nat>,
    flights: map<nat, Flight>,
    log: seq<Moment>)

  // ---- one step -----------------------------------------------------------------

  /** The budget allows a read. */
  predicate MayRead(stamp: Option<nat>, refused: map<DeviceId, nat>, device: DeviceId, now: nat) {
    && (device in refused ==> refused[device] + REFUSED_RETRY <= now)
    && (stamp.Some? ==> stamp.value + COOLDOWN <= now)
  }

  /** What settling a flight comes to: the list is compared with what was noted. */
  function Conclusion(claim: nat, f: Flight, refused: map<DeviceId, nat>): Moment
    requires f.Arrived?
  {
    var changed := Changed(f.list, f.before);
    var recorded := !Lists(f.list, f.device) && (changed || |refused| < MAX_REFUSED_SIGNERS);
    Concluded(claim, f.device, f.at, f.noted, f.before, f.arrived, f.list, f.over, recorded, changed)
  }

  /** The refusal table once a moment has come. */
  function Tabled(refused: map<DeviceId, nat>, m: Moment): map<DeviceId, nat> {
    if !m.Concluded? then refused
    else (if m.changed then map[] else refused) + (if m.recorded then map[m.device := m.at] else map[])
  }

  function After(s: State, step: Step): State {
    var n, quiet := |s.log|, s.(log := s.log + [Quiet]);
    match step
    case Claim(device, now) =>
      if MayRead(s.stamp, s.refused, device, now) then
        s.(stamp := Some(now), flights := s.flights[n := Claimed(device, now)], log := s.log + [Granted(device, now)])
      else quiet
    case Note(c) =>
      if c in s.flights && s.flights[c].Claimed? then
        var f := s.flights[c];
        s.(flights := s.flights[c := Noted(f.device, f.at, n, s.held)], log := s.log + [Seen(c)])
      else quiet
    case Arrival(c, read) =>
      if c in s.flights && s.flights[c].Noted? then
        if read == None then quiet.(flights := s.flights - {c})
        else
          var f, list := s.flights[c], Authorized(read.value);
          s.(held := MapOf(list),
             flights := s.flights[c := Arrived(f.device, f.at, f.noted, f.before, n, list, s.held)],
             log := s.log + [Installed(list)])
      else quiet
    case Settling(c) =>
      if c in s.flights && s.flights[c].Arrived? then
        var m := Conclusion(c, s.flights[c], s.refused);
        s.(refused := Tabled(s.refused, m), flights := s.flights - {c}, log := s.log + [m])
      else quiet
    case Explicit(read) =>
      if read == None then quiet
      else s.(held := MapOf(Authorized(read.value)), log := s.log + [Installed(Authorized(read.value))])
  }

  function End(s: State, steps: seq<Step>): State {
    if steps == [] then s else After(End(s, steps[..|steps| - 1]), steps[|steps| - 1])
  }

  /** Nothing in flight, nothing happened. */
  predicate Fresh(s: State) {
    s.stamp == None && s.refused == map[] && s.flights == map[] && s.log == []
  }

  // ---- refusals ------------------------------------------------------------------

  predicate Refusal(m: Moment) { m.Concluded? && m.recorded }

  /** The refusal table after the log. */
  function Table(log: seq<Moment>): map<DeviceId, nat> {
    if log == [] then map[] else Tabled(Table(log[..|log| - 1]), log[|log| - 1])
  }

  /** Changed trust came after moment `i` and before moment `j`. */
  ghost predicate Wiped(log: seq<Moment>, i: int, j: int) {
    exists k :: 0 <= i < k < j <= |log| && log[k].Concluded? && log[k].changed
  }

  /** The table stands for every refusal not wiped since: no later read than it allows. */
  ghost predicate Stands(log: seq<Moment>) {
    forall i :: 0 <= i < |log| && Refusal(log[i]) && !Wiped(log, i, |log|) ==>
      log[i].device in Table(log) && log[i].at <= Table(log)[log[i].device]
  }

  /** Moment `j` records a refusal over that of moment `i`, for the same device. */
  ghost predicate Replaces(log: seq<Moment>, i: int, j: int)
    requires 0 <= i < j < |log|
  {
    Refusal(log[i]) && Refusal(log[j]) && log[i].device == log[j].device && !Wiped(log, i, j + 1)
  }

  /** Refusals of one device are recorded in the order of their claims, unless wiped in between. */
  ghost predicate InClaimOrder(log: seq<Moment>) {
    forall i, j :: 0 <= i < j < |log| && Replaces(log, i, j) ==> log[i].claim <= log[j].claim
  }

  /** A conclusion belongs to an earlier claim. */
  predicate Rooted(log: seq<Moment>) {
    forall k :: 0 <= k < |log| && log[k].Concluded? ==>
      log[k].claim < k && log[log[k].claim] == Granted(log[k].device, log[k].at)
  }

  predicate Spaced(log: seq<Moment>) {
    forall i, j :: 0 <= i < j < |log| && log[i].Granted? && log[j].Granted? ==> log[i].now + COOLDOWN <= log[j].now
  }

  /** Reads are granted only when the table at that moment allows. */
  predicate Allowed(log: seq<Moment>) {
    forall j :: 0 <= j < |log| && log[j].Granted? && log[j].device in Table(log[..j]) ==>
      Table(log[..j])[log[j].device] + REFUSED_RETRY <= log[j].now
  }

  // ---- the exact condition ------------------------------------------------------

  ghost predicate InTimeOrder(log: seq<Moment>) {
    forall i, j :: 0 <= i < j < |log| && Replaces(log, i, j) ==> log[i].at <= log[j].at
  }

  /** Since grants are spaced, claim order is the order of the recorded times. */
  lemma ClaimOrderIsTimeOrder(log: seq<Moment>)
    requires Rooted(log) && Spaced(log)
    ensures InClaimOrder(log) <==> InTimeOrder(log)
  {
    forall i, j | 0 <= i < j < |log| && Replaces(log, i, j)
      ensures log[i].claim <= log[j].claim <==> log[i].at <= log[j].at
    {
      var a, b := log[i].claim, log[j].claim;
      assert log[a].now == log[i].at && log[b].now == log[j].at;
    }
  }

  lemma WipedPrefix(log: seq<Moment>, n: int, i: int, j: int)
    requires j <= n <= |log| && 0 <= n
    ensures Wiped(log[..n], i, j) <==> Wiped(log, i, j)
  {
  }

  /** The last moment is a refusal that is not older than any it replaces. */
  ghost predicate LastInOrder(log: seq<Moment>)
    requires log != []
  {
    forall i :: 0 <= i < |log| - 1 && Replaces(log, i, |log| - 1) ==> log[i].at <= log[|log| - 1].at
  }

  lemma TimeOrderSplits(log: seq<Moment>)
    requires log != []
    ensures InTimeOrder(log) <==> InTimeOrder(log[..|log| - 1]) && LastInOrder(log)
  {
    var n := |log| - 1;
    var front := log[..n];
    forall i, j | 0 <= i < j < n
      ensures Replaces(log, i, j) <==> Replaces(front, i, j)
    {
      WipedPrefix(log, n, i, j + 1);
    }
    if InTimeOrder(log) {
      forall i, j | 0 <= i < j < n && Replaces(front, i, j)
        ensures front[i].at <= front[j].at
      {
        assert Replaces(log, i, j);
      }
    }
    if InTimeOrder(front) && LastInOrder(log) {
      forall i, j | 0 <= i < j <= n && Replaces(log, i, j)
        ensures log[i].at <= log[j].at
      {
        if j < n {
          assert Replaces(front, i, j);
        }
      }
    }
  }

  /** Where the table stood before, it stands after one more moment exactly if that is in order. */
  lemma StandsStep(log: seq<Moment>)
    requires log != [] && Stands(log[..|log| - 1])
    ensures Stands(log) <==> LastInOrder(log)
  {
    var n := |log| - 1;
    var front, last := log[..n], log[n];
    forall i | 0 <= i < n
      ensures Wiped(log, i, n + 1) <==> Wiped(front, i, n) || (last.Concluded? && last.changed)
    {
      WipedPrefix(log, n, i, n);
    }
    if Stands(log) {
      forall i | 0 <= i < n && Replaces(log, i, n)
        ensures log[i].at <= last.at
      {
        assert Table(log)[last.device] == last.at;
      }
    }
    if LastInOrder(log) {
      forall i | 0 <= i < |log| && Refusal(log[i]) && !Wiped(log, i, |log|)
        ensures log[i].device in Table(log) && log[i].at <= Table(log)[log[i].device]
      {
        if i < n {
          assert front[i] == log[i];
          assert Refusal(last) && last.device == log[i].device ==> Replaces(log, i, n);
        }
      }
    }
  }

  /** At every moment the table stands for every refusal not wiped, if and only if the refusals
      of each device arrive in the order of their times. */
  lemma {:induction false} StandsIffInOrder(log: seq<Moment>)
    ensures (forall n :: 0 <= n <= |log| ==> Stands(log[..n])) <==> InTimeOrder(log)
  {
    assert log[..|log|] == log;
    if log != [] {
      var front := log[..|log| - 1];
      StandsIffInOrder(front);
      TimeOrderSplits(log);
      assert forall n :: 0 <= n <= |front| ==> front[..n] == log[..n];
      if Stands(front) {
        StandsStep(log);
      }
      assert front[..|front|] == front;
    }
  }

  /** No read comes within the retry interval of a refusal of its device, unless trust changed in
      between. */
  ghost predicate Respected(log: seq<Moment>) {
    forall i, j :: 0 <= i < j < |log| && Refusal(log[i]) && log[j].Granted? && log[j].device == log[i].device ==>
      log[i].at + REFUSED_RETRY <= log[j].now || Wiped(log, i, j)
  }

  /** Claim order is enough for every refusal to be respected. */
  lemma OrderRespects(log: seq<Moment>)
    requires Rooted(log) && Spaced(log) && Allowed(log) && InClaimOrder(log)
    ensures Respected(log)
  {
    ClaimOrderIsTimeOrder(log);
    StandsIffInOrder(log);
    forall i, j | 0 <= i < j < |log| && Refusal(log[i]) && log[j].Granted? && log[j].device == log[i].device
      ensures log[i].at + REFUSED_RETRY <= log[j].now || Wiped(log, i, j)
    {
      WipedPrefix(log, j, i, j);
      assert Stands(log[..j]) && log[..j][i] == log[i];
    }
  }

  // ---- stale clears --------------------------------------------------------------

  /** The answers installed after the log. */
  function HeldAfter(start: Answers, log: seq<Moment>): Answers {
    if log == [] then start
    else if log[|log| - 1].Installed? then MapOf(log[|log| - 1].list)
    else HeldAfter(start, log[..|log| - 1])
  }

  /** A conclusion is what its call noted and installed, when it did, and the table at its own time. */
  ghost predicate Traced(start: Answers, log: seq<Moment>, k: nat)
    requires k < |log| && log[k].Concluded?
  {
    var m := log[k];
    && m.noted < m.arrived < k && log[m.noted] == Seen(m.claim) && log[m.arrived] == Installed(m.list)
    && m.before == HeldAfter(start, log[..m.noted]) && m.over == HeldAfter(start, log[..m.arrived])
    && m.changed == Changed(m.list, m.before)
    && (m.recorded <==> !Lists(m.list, m.device) && (m.changed || |Table(log[..k])| < MAX_REFUSED_SIGNERS))
  }

  ghost predicate AllTraced(start: Answers, log: seq<Moment>) {
    forall k: nat {:trigger log[k]} :: k < |log| && log[k].Concluded? ==> Traced(start, log, k)
  }

  /** It cleared the refusals although its own list changed no answer and names each device once. */
  predicate StaleClear(m: Moment) {
    m.Concluded? && m.changed && Strict(m.list) && MapOf(m.list) == m.over
  }

  /** It left the refusals although its own list changed an answer. */
  predicate StaleKeep(m: Moment) {
    m.Concluded? && !m.changed && MapOf(m.list) != m.over
  }

  lemma ChangedIsOther(list: seq<Entry>, before: Answers)
    requires Strict(list)
    ensures Changed(list, before) <==> MapOf(list) != before
  {
    ChangedMeans(list, before);
    MapOfLooks(list);
    if forall d :: LastOf(list, d) == Look(before, d) {
      SameLooks(MapOf(list), before);
    }
  }

  /** Exactly when a settle goes by a stale note: it clears without cause if its list is not what the
      call noted but is what was installed by the time it came; it fails to clear if it is the other
      way round; and either way someone else installed something in between. */
  lemma StaleExactly(start: Answers, log: seq<Moment>, k: nat)
    requires k < |log| && log[k].Concluded? && Traced(start, log, k)
    ensures StaleClear(log[k]) <==>
      Strict(log[k].list) && MapOf(log[k].list) == log[k].over && log[k].over != log[k].before
    ensures StaleKeep(log[k]) <==>
      Strict(log[k].list) && MapOf(log[k].list) == log[k].before && log[k].over != log[k].before
    ensures StaleClear(log[k]) || StaleKeep(log[k]) ==> InstalledBetween(log, log[k].noted, log[k].arrived)
  {
    var m := log[k];
    if Strict(m.list) {
      ChangedIsOther(m.list, m.before);
    }
    if !InstalledBetween(log, m.noted, m.arrived) {
      HeldSame(start, log, m.noted, m.arrived);
    }
  }

  ghost predicate InstalledBetween(log: seq<Moment>, i: nat, j: nat) {
    exists k :: 0 <= i < k < j <= |log| && log[k].Installed?
  }

  lemma {:induction false} HeldSame(start: Answers, log: seq<Moment>, i: nat, j: nat)
    requires i < j <= |log| && !log[i].Installed? && !InstalledBetween(log, i, j)
    ensures HeldAfter(start, log[..j]) == HeldAfter(start, log[..i])
    decreases j
  {
    assert log[..j][..j - 1] == log[..j - 1];
    if j > i + 1 {
      assert !log[j - 1].Installed?;
      assert !InstalledBetween(log, i, j - 1);
      HeldSame(start, log, i, j - 1);
    }
  }

  /** A settle between moments `i` and `j` cleared the refusals for cause: its own list moved an
      answer or names a device twice. */
  ghost predicate WipedForCause(log: seq<Moment>, i: int, j: int) {
    exists k :: 0 <= i < k < j <= |log| && log[k].Concluded? && log[k].changed && !StaleClear(log[k])
  }

  ghost predicate RespectedForCause(log: seq<Moment>) {
    forall i, j :: 0 <= i < j < |log| && Refusal(log[i]) && log[j].Granted? && log[j].device == log[i].device ==>
      log[i].at + REFUSED_RETRY <= log[j].now || WipedForCause(log, i, j)
  }

  /** Without stale clears, refusals recorded in claim order give way to moved answers only. */
  lemma RespectsForCause(log: seq<Moment>)
    requires Rooted(log) && Spaced(log) && Allowed(log) && InClaimOrder(log)
    requires forall k :: 0 <= k < |log| ==> !StaleClear(log[k])
    ensures RespectedForCause(log)
  {
    OrderRespects(log);
    forall i, j | 0 <= i < j < |log| && Refusal(log[i]) && log[j].Granted? && log[j].device == log[i].device && Wiped(log, i, j)
      ensures WipedForCause(log, i, j)
    {
      var k :| i < k < j && log[k].Concluded? && log[k].changed;
      assert !StaleClear(log[k]);
    }
  }

  // ---- every run -------------------------------------------------------------------

  /** `stamp` is the time of the newest grant. */
  ghost predicate Newest(log: seq<Moment>, stamp: Option<nat>) {
    && (forall i :: 0 <= i < |log| && log[i].Granted? ==> stamp.Some? && log[i].now <= stamp.value)
    && (stamp.Some? ==> exists i :: 0 <= i < |log| && log[i].Granted? && log[i].now == stamp.value)
  }

  /** A flight is what its claim, note and arrival left. */
  ghost predicate Flying(start: Answers, log: seq<Moment>, c: nat, f: Flight) {
    && c < |log| && log[c] == Granted(f.device, f.at)
    && (f.Noted? || f.Arrived? ==>
          f.noted < |log| && log[f.noted] == Seen(c) && f.before == HeldAfter(start, log[..f.noted]))
    && (f.Arrived? ==>
          && f.noted < f.arrived < |log| && log[f.arrived] == Installed(f.list)
          && f.over == HeldAfter(start, log[..f.arrived]))
  }

  ghost predicate AllFlying(start: Answers, log: seq<Moment>, flights: map<nat, Flight>) {
    forall c :: c in flights ==> Flying(start, log, c, flights[c])
  }

  /** What every step keeps. */
  ghost predicate Kept(start: Answers, s: State) {
    && s.held == HeldAfter(start, s.log) && s.refused == Table(s.log) && |s.refused| <= MAX_REFUSED_SIGNERS
    && Newest(s.log, s.stamp) && Spaced(s.log) && Allowed(s.log) && Rooted(s.log)
    && AllFlying(start, s.log, s.flights) && AllTraced(start, s.log)
  }

  lemma LogMore(start: Answers, log: seq<Moment>, m: Moment)
    ensures (log + [m])[..|log|] == log
    ensures Table(log + [m]) == Tabled(Table(log), m)
    ensures HeldAfter(start, log + [m]) == if m.Installed? then MapOf(m.list) else HeldAfter(start, log)
    ensures forall k :: 0 <= k <= |log| ==> (log + [m])[..k] == log[..k]
  {
    assert (log + [m])[..|log|] == log;
  }

  lemma FlyingMore(start: Answers, log: seq<Moment>, m: Moment, flights: map<nat, Flight>)
    requires AllFlying(start, log, flights)
    ensures AllFlying(start, log + [m], flights)
  {
    LogMore(start, log, m);
    forall c | c in flights
      ensures Flying(start, log + [m], c, flights[c])
    {
      assert Flying(start, log, c, flights[c]);
    }
  }

  lemma TracedMore(start: Answers, log: seq<Moment>, m: Moment)
    requires AllTraced(start, log)
    requires m.Concluded? ==> Traced(start, log + [m], |log|)
    ensures AllTraced(start, log + [m])
  {
    var all := log + [m];
    LogMore(start, log, m);
    forall k: nat | k < |all| && all[k].Concluded?
      ensures Traced(start, all, k)
    {
      if k < |log| {
        assert all[k] == log[k];
        assert Traced(start, log, k);
      }
    }
  }

  /** Moments other than grants keep what is about grants. */
  lemma GrantsSame(log: seq<Moment>, m: Moment, stamp: Option<nat>)
    requires Newest(log, stamp) && Spaced(log) && Allowed(log) && !m.Granted?
    ensures Newest(log + [m], stamp) && Spaced(log + [m]) && Allowed(log + [m])
  {
    var all := log + [m];
    assert forall k :: 0 <= k < |log| ==> all[k] == log[k] && all[..k] == log[..k];
    if stamp.Some? {
      var i :| 0 <= i < |log| && log[i].Granted? && log[i].now == stamp.value;
      assert all[i].Granted?;
    }
  }

  lemma GrantKeeps(log: seq<Moment>, device: DeviceId, now: nat, stamp: Option<nat>)
    requires Newest(log, stamp) && Spaced(log) && Allowed(log) && MayRead(stamp, Table(log), device, now)
    ensures var all := log + [Granted(device, now)]; Newest(all, Some(now)) && Spaced(all) && Allowed(all)
  {
    var all := log + [Granted(device, now)];
    assert forall k :: 0 <= k < |log| ==> all[k] == log[k] && all[..k] == log[..k];
    assert all[..|log|] == log && all[|log|] == Granted(device, now);
  }

  lemma RootedMore(log: seq<Moment>, m: Moment)
    requires Rooted(log) && (m.Concluded? ==> m.claim < |log| && log[m.claim] == Granted(m.device, m.at))
    ensures Rooted(log + [m])
  {
    var all := log + [m];
    assert forall k :: 0 <= k < |log| ==> all[k] == log[k];
  }

  lemma ClaimKeeps(start: Answers, s: State, device: DeviceId, now: nat)
    requires Kept(start, s) && MayRead(s.stamp, s.refused, device, now)
    ensures Kept(start, After(s, Claim(device, now)))
  {
    var m := Granted(device, now);
    var s' := After(s, Claim(device, now));
    LogMore(start, s.log, m);
    GrantKeeps(s.log, device, now, s.stamp);
    RootedMore(s.log, m);
    FlyingMore(start, s.log, m, s.flights);
    TracedMore(start, s.log, m);
    assert Flying(start, s'.log, |s.log|, Claimed(device, now));
  }

  /** A moment that is no grant, and what it leaves in flight. */
  lemma MomentKeeps(start: Answers, s: State, m: Moment, flights: map<nat, Flight>)
    requires Kept(start, s) && !m.Granted? && AllFlying(start, s.log + [m], flights)
    requires m.Concluded? ==>
      && m.claim < |s.log| && s.log[m.claim] == Granted(m.device, m.at) && Traced(start, s.log + [m], |s.log|)
    requires |Tabled(s.refused, m)| <= MAX_REFUSED_SIGNERS
    ensures Kept(start, State(if m.Installed? then MapOf(m.list) else s.held, s.stamp, Tabled(s.refused, m), flights, s.log + [m]))
  {
    LogMore(start, s.log, m);
    GrantsSame(s.log, m, s.stamp);
    RootedMore(s.log, m);
    TracedMore(start, s.log, m);
  }

  lemma PlainKeeps(start: Answers, s: State, m: Moment, flights: map<nat, Flight>)
    requires Kept(start, s) && !m.Granted? && !m.Concluded?
    requires AllFlying(start, s.log + [m], flights)
    ensures Kept(start, s.(held := if m.Installed? then MapOf(m.list) else s.held, flights := flights, log := s.log + [m]))
  {
    MomentKeeps(start, s, m, flights);
  }

  lemma SettlingReady(start: Answers, log: seq<Moment>, flights: map<nat, Flight>, c: nat)
    requires AllFlying(start, log, flights) && c in flights && flights[c].Arrived? && |Table(log)| <= MAX_REFUSED_SIGNERS
    ensures var m := Conclusion(c, flights[c], Table(log));
      && AllFlying(start, log + [m], flights - {c}) && Traced(start, log + [m], |log|)
      && m.claim < |log| && log[m.claim] == Granted(m.device, m.at) && |Tabled(Table(log), m)| <= MAX_REFUSED_SIGNERS
  {
    var m := Conclusion(c, flights[c], Table(log));
    assert Flying(start, log, c, flights[c]);
    FlyingMore(start, log, m, flights - {c});
    ConclusionTraced(start, log, c, flights[c]);
    TabledSmall(Table(log), m);
  }

  lemma SettlingIs(s: State, c: nat)
    requires c in s.flights && s.flights[c].Arrived?
    ensures var m := Conclusion(c, s.flights[c], s.refused);
      After(s, Settling(c)) == State(s.held, s.stamp, Tabled(s.refused, m), s.flights - {c}, s.log + [m])
  {
  }

  lemma SettlingKeeps(start: Answers, s: State, c: nat)
    requires Kept(start, s) && c in s.flights && s.flights[c].Arrived?
    ensures Kept(start, After(s, Settling(c)))
  {
    var m := Conclusion(c, s.flights[c], s.refused);
    SettlingIs(s, c);
    SettlingReady(start, s.log, s.flights, c);
    MomentKeeps(start, s, m, s.flights - {c});
  }

  lemma ConclusionTraced(start: Answers, log: seq<Moment>, c: nat, f: Flight)
    requires f.Arrived? && Flying(start, log, c, f)
    ensures Traced(start, log + [Conclusion(c, f, Table(log))], |log|)
  {
    LogMore(start, log, Conclusion(c, f, Table(log)));
  }

  lemma TabledSmall(refused: map<DeviceId, nat>, m: Moment)
    requires |refused| <= MAX_REFUSED_SIGNERS
    requires m.Concluded? && m.recorded ==> m.changed || |refused| < MAX_REFUSED_SIGNERS
    ensures |Tabled(refused, m)| <= MAX_REFUSED_SIGNERS
  {
    if m.Concluded? && m.recorded {
      OneMoreRefusal(if m.changed then map[] else refused, m.device, m.at);
    } else if m.Concluded? && !m.changed {
      assert Tabled(refused, m) == refused;
    }
  }

  lemma QuietKeeps(start: Answers, s: State)
    requires Kept(start, s)
    ensures Kept(start, s.(log := s.log + [Quiet]))
  {
    FlyingMore(start, s.log, Quiet, s.flights);
    PlainKeeps(start, s, Quiet, s.flights);
  }

  lemma NoteKeeps(start: Answers, s: State, c: nat)
    requires Kept(start, s) && c in s.flights && s.flights[c].Claimed?
    ensures Kept(start, After(s, Note(c)))
  {
    var f := s.flights[c];
    var noted := Noted(f.device, f.at, |s.log|, s.held);
    FlightReplaced(start, s.log, Seen(c), s.flights, c, noted);
    PlainKeeps(start, s, Seen(c), s.flights[c := noted]);
  }

  lemma ArrivalKeeps(start: Answers, s: State, c: nat, list: seq<Entry>)
    requires Kept(start, s) && c in s.flights && s.flights[c].Noted?
    ensures var f, m := s.flights[c], Installed(list);
      Kept(start, s.(held := MapOf(list), log := s.log + [m],
                     flights := s.flights[c := Arrived(f.device, f.at, f.noted, f.before, |s.log|, list, s.held)]))
  {
    var f, m := s.flights[c], Installed(list);
    var arrived := Arrived(f.device, f.at, f.noted, f.before, |s.log|, list, s.held);
    FlightReplaced(start, s.log, m, s.flights, c, arrived);
    PlainKeeps(start, s, m, s.flights[c := arrived]);
  }

  /** The next thing a flight leaves is what the log has at its end. */
  lemma FlightReplaced(start: Answers, log: seq<Moment>, m: Moment, flights: map<nat, Flight>, c: nat, f: Flight)
    requires AllFlying(start, log, flights) && c in flights
    requires f.device == flights[c].device && f.at == flights[c].at
    requires f.Noted? ==> m == Seen(c) && f.noted == |log| && f.before == HeldAfter(start, log)
    requires f.Arrived? ==>
      && flights[c].Noted? && f.noted == flights[c].noted && f.before == flights[c].before
      && m == Installed(f.list) && f.arrived == |log| && f.over == HeldAfter(start, log)
    ensures AllFlying(start, log + [m], flights[c := f])
  {
    FlyingMore(start, log, m, flights);
    LogMore(start, log, m);
    assert Flying(start, log, c, flights[c]);
    assert Flying(start, log + [m], c, f);
  }

  lemma InstallKeeps(start: Answers, s: State, list: seq<Entry>)
    requires Kept(start, s)
    ensures Kept(start, s.(held := MapOf(list), log := s.log + [Installed(list)]))
  {
    FlyingMore(start, s.log, Installed(list), s.flights);
    PlainKeeps(start, s, Installed(list), s.flights);
  }

  lemma LostKeeps(start: Answers, s: State, c: nat)
    requires Kept(start, s)
    ensures Kept(start, s.(flights := s.flights - {c}, log := s.log + [Quiet]))
  {
    FlyingMore(start, s.log, Quiet, s.flights - {c});
    PlainKeeps(start, s, Quiet, s.flights - {c});
  }

  lemma StepKeeps(start: Answers, s: State, step: Step)
    requires Kept(start, s)
    ensures Kept(start, After(s, step))
  {
    if After(s, step) == s.(log := s.log + [Quiet]) {
      QuietKeeps(start, s);
    } else {
      match step
      case Claim(device, now) => ClaimKeeps(start, s, device, now);
      case Note(c) => NoteKeeps(start, s, c);
      case Arrival(c, read) =>
        if read == None {
          LostKeeps(start, s, c);
        } else {
          ArrivalKeeps(start, s, c, Authorized(read.value));
        }
      case Settling(c) => SettlingKeeps(start, s, c);
      case Explicit(read) => InstallKeeps(start, s, Authorized(read.value));
    }
  }

  lemma FreshKept(s: State)
    requires Fresh(s)
    ensures Kept(s.held, s)
  {
  }

  lemma AfterLength(s: State, step: Step)
    ensures |After(s, step).log| == |s.log| + 1
  {
  }

  lemma {:induction false} EndLength(s: State, steps: seq<Step>)
    ensures |End(s, steps).log| == |s.log| + |steps|
  {
    if steps != [] {
      EndLength(s, steps[..|steps| - 1]);
      AfterLength(End(s, steps[..|steps| - 1]), steps[|steps| - 1]);
    }
  }

  /** Everything the moments of a run say is so, whatever the interleaving. */
  lemma {:induction false} RunKeeps(s: State, steps: seq<Step>)
    requires Fresh(s)
    ensures Kept(s.held, End(s, steps))
  {
    if steps == [] {
      FreshKept(s);
    } else {
      var before, last := End(s, steps[..|steps| - 1]), steps[|steps| - 1];
      RunKeeps(s, steps[..|steps| - 1]);
      StepKeeps(s.held, before, last);
      assert End(s, steps) == After(before, last);
    }
  }

  lemma EndSmall(s: State, steps: seq<Step>)
    requires Fresh(s)
    ensures |End(s, steps).refused| <= MAX_REFUSED_SIGNERS && |End(s, steps).log| == |steps|
  {
    RunKeeps(s, steps);
    EndLength(s, steps);
  }

  /** Over every run: reads are spaced; the table stands for every refusal not wiped at every moment,
      if and only if refusals come in claim order; then all are respected; and a clear without cause
      is exactly a stale one. */
  lemma OverlapLaws(s: State, steps: seq<Step>)
    requires Fresh(s)
    ensures var log := End(s, steps).log;
      && Spaced(log) && End(s, steps).refused == Table(log) && |End(s, steps).refused| <= MAX_REFUSED_SIGNERS
      && (InClaimOrder(log) <==> forall n :: 0 <= n <= |log| ==> Stands(log[..n]))
      && (InClaimOrder(log) ==> Respected(log))
      && (InClaimOrder(log) && (forall k :: 0 <= k < |log| ==> !StaleClear(log[k])) ==> RespectedForCause(log))
      && AllTraced(s.held, log)
  {
    var log := End(s, steps).log;
    RunKeeps(s, steps);
    ClaimOrderIsTimeOrder(log);
    StandsIffInOrder(log);
    if InClaimOrder(log) {
      OrderRespects(log);
      if forall k :: 0 <= k < |log| ==> !StaleClear(log[k]) {
        RespectsForCause(log);
      }
    }
  }

  // ---- the program takes these steps --------------------------------------------------

  /** Steps of any number of calls in any order: the fields end up as the machine has them. */
  method Run(trust: WorkspaceDeviceTrust, steps: seq<Step>)
    requires trust.lastRefreshAt == None && trust.refused == map[]
    modifies trust
    ensures Shows(trust, End(State(old(trust.Installed()), None, map[], map[], []), steps))
    ensures forall w, d :: w != trust.workspace ==> trust.Resolve(w, d) == old(trust.Resolve(w, d))
  {
    ghost var start := State(trust.Installed(), None, map[], map[], []);
    ghost var s := start;
    var flights: map<nat, Flight> := map[];
    assert s == End(start, steps[..0]);
    for n := 0 to |steps|
      invariant s == End(start, steps[..n]) && Shows(trust, s) && flights == s.flights
      invariant forall w, d :: w != trust.workspace ==> trust.Resolve(w, d) == old(trust.Resolve(w, d))
    {
      EndStep(start, steps, n);
      flights := Perform(trust, steps[n], n, flights, s);
      s := After(s, steps[n]);
    }
    assert steps[..|steps|] == steps;
  }

  lemma EndStep(start: State, steps: seq<Step>, n: nat)
    requires Fresh(start) && n < |steps|
    ensures var s := End(start, steps[..n]);
      |s.refused| <= MAX_REFUSED_SIGNERS && |s.log| == n && End(start, steps[..n + 1]) == After(s, steps[n])
  {
    var front := steps[..n];
    EndSmall(start, front);
    assert steps[..n + 1] == front + [steps[n]];
    assert End(start, front + [steps[n]]) == After(End(start, front), steps[n]) by {
      EndMore(start, front, steps[n]);
    }
  }

  /** The fields are the machine's. */
  ghost predicate Shows(trust: WorkspaceDeviceTrust, s: State)
    reads trust
  {
    trust.Installed() == s.held && trust.lastRefreshAt == s.stamp && trust.refused == s.refused
  }

  method Perform(trust: WorkspaceDeviceTrust, step: Step, n: nat, flights: map<nat, Flight>, ghost s: State)
    returns (flights': map<nat, Flight>)
    requires Shows(trust, s) && flights == s.flights && n == |s.log| && |s.refused| <= MAX_REFUSED_SIGNERS
    modifies trust
    ensures Shows(trust, After(s, step)) && flights' == After(s, step).flights
    ensures forall w, d :: w != trust.workspace ==> trust.Resolve(w, d) == old(trust.Resolve(w, d))
  {
    match step
    case Claim(device, now) => flights' := PerformClaim(trust, device, now, n, flights, s);
    case Note(c) =>
      flights' := flights;
      if c in flights && flights[c].Claimed? {
        flights' := flights[c := Noted(flights[c].device, flights[c].at, n, trust.Installed())];
      }
    case Arrival(c, read) => flights' := PerformArrival(trust, c, read, n, flights, s);
    case Settling(c) => flights' := PerformSettling(trust, c, flights, s);
    case Explicit(read) =>
      flights' := flights;
      var _ := Installs(trust, read);
  }

  method PerformClaim(trust: WorkspaceDeviceTrust, device: DeviceId, now: nat, n: nat, flights: map<nat, Flight>, ghost s: State)
    returns (flights': map<nat, Flight>)
    requires Shows(trust, s) && flights == s.flights && n == |s.log|
    modifies trust`lastRefreshAt
    ensures Shows(trust, After(s, Claim(device, now))) && flights' == After(s, Claim(device, now)).flights
  {
    flights' := flights;
    var refusal := trust.ClaimRefresh(device, now);
    if refusal == None {
      flights' := flights[n := Claimed(device, now)];
    }
  }

  method PerformArrival(trust: WorkspaceDeviceTrust, c: nat, read: Option<seq<DeviceRecord>>, n: nat,
                        flights: map<nat, Flight>, ghost s: State)
    returns (flights': map<nat, Flight>)
    requires Shows(trust, s) && flights == s.flights && n == |s.log|
    modifies trust`verifiers
    ensures Shows(trust, After(s, Arrival(c, read))) && flights' == After(s, Arrival(c, read)).flights
    ensures forall w, d :: w != trust.workspace ==> trust.Resolve(w, d) == old(trust.Resolve(w, d))
  {
    flights' := flights;
    if c in flights && flights[c].Noted? {
      var f, over := flights[c], trust.Installed();
      var list := Installs(trust, read);
      flights' := if list == None then flights - {c}
                  else flights[c := Arrived(f.device, f.at, f.noted, f.before, n, list.value, over)];
    }
  }

  method PerformSettling(trust: WorkspaceDeviceTrust, c: nat, flights: map<nat, Flight>, ghost s: State)
    returns (flights': map<nat, Flight>)
    requires Shows(trust, s) && flights == s.flights && |s.refused| <= MAX_REFUSED_SIGNERS
    modifies trust`refused
    ensures Shows(trust, After(s, Settling(c))) && flights' == After(s, Settling(c)).flights
  {
    flights' := flights;
    if c in flights && flights[c].Arrived? {
      var f := flights[c];
      var _, _, _ := trust.Settle(f.device, f.before, f.list, f.at);
      LastOfListed(f.list, f.device);
      flights' := flights - {c};
    }
  }

  /** A read that comes back, installed. */
  method Installs(trust: WorkspaceDeviceTrust, read: Option<seq<DeviceRecord>>) returns (list: Option<seq<Entry>>)
    modifies trust`verifiers
    ensures list == if read == None then None else Some(Authorized(read.value))
    ensures trust.Installed() == if read == None then old(trust.Installed()) else MapOf(Authorized(read.value))
    ensures forall w, d :: w != trust.workspace ==> trust.Resolve(w, d) == old(trust.Resolve(w, d))
  {
    list := trust.ReadAndInstall(read);
    if list.Some? {
      MapOfLooks(list.value);
      SameLooks(trust.Installed(), MapOf(list.value));
    }
  }

  // ---- witnesses ------------------------------------------------------------------------

  lemma EndMore(s: State, steps: seq<Step>, step: Step)
    ensures End(s, steps + [step]) == After(End(s, steps), step)
  {
    assert (steps + [step])[..|steps|] == steps;
  }

  const NOTHING: State := State(map[], None, map[], map[], [])

  /** Two calls, the second a cooldown after the first, that each note an empty workspace; then a list
      comes back to the second, which settles, and then one to the first, which settles. */
  function TwoCalls(first: DeviceId, second: DeviceId, early: seq<DeviceRecord>, late: seq<DeviceRecord>): seq<Step> {
    [Claim(first, 0), Note(0), Claim(second, COOLDOWN), Note(2)] +
    [Arrival(2, Some(early)), Settling(2), Arrival(0, Some(late)), Settling(0)]
  }

  /** The state with both in flight. */
  function InFlight(first: DeviceId, second: DeviceId): State {
    State(map[], Some(COOLDOWN), map[],
          map[0 := Noted(first, 0, 1, map[]), 2 := Noted(second, COOLDOWN, 3, map[])],
          [Granted(first, 0), Seen(0), Granted(second, COOLDOWN), Seen(2)])
  }

  function OneInFlight(first: DeviceId): State {
    State(map[], Some(0), map[], map[0 := Noted(first, 0, 1, map[])], [Granted(first, 0), Seen(0)])
  }

  lemma FirstClaims(first: DeviceId)
    ensures After(After(NOTHING, Claim(first, 0)), Note(0)) == OneInFlight(first)
  {
    var s := After(NOTHING, Claim(first, 0));
    assert s == State(map[], Some(0), map[], map[0 := Claimed(first, 0)], [Granted(first, 0)]);
  }

  lemma SecondClaims(first: DeviceId, second: DeviceId)
    ensures After(After(OneInFlight(first), Claim(second, COOLDOWN)), Note(2)) == InFlight(first, second)
  {
    var s := After(OneInFlight(first), Claim(second, COOLDOWN));
    assert s.log == [Granted(first, 0), Seen(0), Granted(second, COOLDOWN)];
    assert s.flights == map[0 := Noted(first, 0, 1, map[]), 2 := Claimed(second, COOLDOWN)];
  }

  lemma BothClaim(first: DeviceId, second: DeviceId)
    ensures End(NOTHING, [Claim(first, 0), Note(0), Claim(second, COOLDOWN), Note(2)]) == InFlight(first, second)
  {
    var a, b, c, d := Claim(first, 0), Note(0), Claim(second, COOLDOWN), Note(2);
    var none: seq<Step> := [];
    assert End(NOTHING, none) == NOTHING;
    EndMore(NOTHING, none, a);
    EndMore(NOTHING, none + [a], b);
    FirstClaims(first);
    EndMore(NOTHING, none + [a] + [b], c);
    EndMore(NOTHING, none + [a] + [b] + [c], d);
    SecondClaims(first, second);
    assert none + [a] + [b] + [c] + [d] == [a, b, c, d];
  }

  /** The conclusion of the second call, which comes first, and of the first. */
  function SecondEnds(second: DeviceId, list: seq<Entry>): Moment {
    Concluded(2, second, COOLDOWN, 3, map[], 4, list, map[], true, Changed(list, map[]))
  }

  function FirstEnds(first: DeviceId, list: seq<Entry>, over: Answers): Moment {
    Concluded(0, first, 0, 1, map[], 6, list, over, true, Changed(list, map[]))
  }

  /** The state when the second has settled, and when both have. */
  function OneSettled(first: DeviceId, second: DeviceId, list: seq<Entry>): State {
    State(MapOf(list), Some(COOLDOWN), Tabled(map[], SecondEnds(second, list)), map[0 := Noted(first, 0, 1, map[])],
          [Granted(first, 0), Seen(0), Granted(second, COOLDOWN), Seen(2), Installed(list), SecondEnds(second, list)])
  }

  function BothSettled(first: DeviceId, second: DeviceId, list: seq<Entry>, late: seq<Entry>): State {
    State(MapOf(late), Some(COOLDOWN), Tabled(Tabled(map[], SecondEnds(second, list)), FirstEnds(first, late, MapOf(list))), map[],
          [Granted(first, 0), Seen(0), Granted(second, COOLDOWN), Seen(2), Installed(list), SecondEnds(second, list),
           Installed(late), FirstEnds(first, late, MapOf(list))])
  }

  /** The state when the list has come back to the second. */
  function Answered(first: DeviceId, second: DeviceId, list: seq<Entry>): State {
    State(MapOf(list), Some(COOLDOWN), map[],
          map[0 := Noted(first, 0, 1, map[]), 2 := Arrived(second, COOLDOWN, 3, map[], 4, list, map[])],
          [Granted(first, 0), Seen(0), Granted(second, COOLDOWN), Seen(2), Installed(list)])
  }

  lemma SecondAnswered(first: DeviceId, second: DeviceId, read: seq<DeviceRecord>)
    ensures After(InFlight(first, second), Arrival(2, Some(read))) == Answered(first, second, Authorized(read))
  {
    ArrivalIs(InFlight(first, second), 2, read);
    var list, s, end := Authorized(read), InFlight(first, second), Answered(first, second, Authorized(read));
    assert s.flights[2 := Arrived(second, COOLDOWN, 3, map[], 4, list, map[])] == end.flights;
    assert s.log + [Installed(list)] == end.log;
  }

  lemma ArrivalIs(s: State, c: nat, read: seq<DeviceRecord>)
    requires c in s.flights && s.flights[c].Noted?
    ensures var f, list := s.flights[c], Authorized(read);
      After(s, Arrival(c, Some(read))) ==
        State(MapOf(list), s.stamp, s.refused,
              s.flights[c := Arrived(f.device, f.at, f.noted, f.before, |s.log|, list, s.held)], s.log + [Installed(list)])
  {
  }

  lemma SecondSettles(first: DeviceId, second: DeviceId, list: seq<Entry>)
    requires !Lists(list, second)
    ensures After(Answered(first, second, list), Settling(2)) == OneSettled(first, second, list)
  {
    var s, end := Answered(first, second, list), OneSettled(first, second, list);
    SettlingIs(s, 2);
    assert Conclusion(2, s.flights[2], map[]) == SecondEnds(second, list);
    assert s.flights - {2} == end.flights && s.log + [SecondEnds(second, list)] == end.log;
  }

  /** The state when one has come back to the first as well. */
  function AnsweredTwice(first: DeviceId, second: DeviceId, list: seq<Entry>, late: seq<Entry>): State {
    State(MapOf(late), Some(COOLDOWN), Tabled(map[], SecondEnds(second, list)),
          map[0 := Arrived(first, 0, 1, map[], 6, late, MapOf(list))],
          [Granted(first, 0), Seen(0), Granted(second, COOLDOWN), Seen(2), Installed(list), SecondEnds(second, list),
           Installed(late)])
  }

  lemma FirstAnswered(first: DeviceId, second: DeviceId, list: seq<Entry>, read: seq<DeviceRecord>)
    ensures After(OneSettled(first, second, list), Arrival(0, Some(read))) == AnsweredTwice(first, second, list, Authorized(read))
  {
    var late := Authorized(read);
    var s, end := OneSettled(first, second, list), AnsweredTwice(first, second, list, late);
    ArrivalIs(s, 0, read);
    assert s.flights[0 := Arrived(first, 0, 1, map[], 6, late, MapOf(list))] == end.flights;
    assert s.log + [Installed(late)] == end.log;
  }

  lemma FirstSettles(first: DeviceId, second: DeviceId, list: seq<Entry>, late: seq<Entry>)
    requires !Lists(late, first)
    ensures After(AnsweredTwice(first, second, list, late), Settling(0)) == BothSettled(first, second, list, late)
  {
    var s, end := AnsweredTwice(first, second, list, late), BothSettled(first, second, list, late);
    var m := FirstEnds(first, late, MapOf(list));
    SettlingIs(s, 0);
    SmallTable(SecondEnds(second, list));
    assert Conclusion(0, s.flights[0], s.refused) == m;
    assert s.flights - {0} == end.flights && s.log + [m] == end.log;
  }

  lemma BothSettle(first: DeviceId, second: DeviceId, early: seq<DeviceRecord>, late: seq<DeviceRecord>)
    requires !Lists(Authorized(late), first) && !Lists(Authorized(early), second)
    ensures End(NOTHING, TwoCalls(first, second, early, late)) == BothSettled(first, second, Authorized(early), Authorized(late))
  {
    var claims: seq<Step> := [Claim(first, 0), Note(0), Claim(second, COOLDOWN), Note(2)];
    var e, f, g, h := Arrival(2, Some(early)), Settling(2), Arrival(0, Some(late)), Settling(0);
    BothClaim(first, second);
    EndMore(NOTHING, claims, e);
    EndMore(NOTHING, claims + [e], f);
    SecondAnswered(first, second, early);
    SecondSettles(first, second, Authorized(early));
    EndMore(NOTHING, claims + [e] + [f], g);
    EndMore(NOTHING, claims + [e] + [f] + [g], h);
    FirstAnswered(first, second, Authorized(early), late);
    FirstSettles(first, second, Authorized(early), Authorized(late));
    assert claims + [e] + [f] + [g] + [h] == TwoCalls(first, second, early, late);
  }

  lemma SmallTable(m: Moment)
    ensures |Tabled(map[], m)| < MAX_REFUSED_SIGNERS
  {
    if m.Concluded? && m.recorded {
      OneMoreRefusal(map[], m.device, m.at);
      assert Tabled(map[], m) == map[][m.device := m.at];
    } else {
      assert Tabled(map[], m) == map[];
    }
  }

  /** And the log once the second device is asked about again. */
  function ThenAsked(first: DeviceId, second: DeviceId, list: seq<Entry>, late: seq<Entry>, next: Moment): seq<Moment> {
    BothSettled(first, second, list, late).log + [next]
  }

  lemma AsksThen(first: DeviceId, second: DeviceId, early: seq<DeviceRecord>, late: seq<DeviceRecord>, now: nat)
    requires !Lists(Authorized(late), first) && !Lists(Authorized(early), second)
    ensures var list, after := Authorized(early), Authorized(late);
      End(NOTHING, TwoCalls(first, second, early, late) + [Claim(second, now)]).log ==
        ThenAsked(first, second, list, after,
                  if MayRead(Some(COOLDOWN), BothSettled(first, second, list, after).refused, second, now)
                  then Granted(second, now) else Quiet)
  {
    BothSettle(first, second, early, late);
    EndMore(NOTHING, TwoCalls(first, second, early, late), Claim(second, now));
  }

  /** What order is needed for: two calls about one device that settle in the other order leave the
      earlier time in the table, and a read is granted at 600 seconds, 570 after a refusal. */
  lemma OverlapRewindsRefusal(device: DeviceId)
    ensures var log := End(NOTHING, TwoCalls(device, device, [], []) + [Claim(device, REFUSED_RETRY)]).log;
      !InClaimOrder(log) && !Respected(log)
  {
    assert Authorized([]) == [];
    NothingChanges();
    assert BothSettled(device, device, [], []).refused == map[device := 0];
    AsksThen(device, device, [], [], REFUSED_RETRY);
    RewoundLog(device);
  }

  lemma RewoundLog(device: DeviceId)
    ensures var log := ThenAsked(device, device, [], [], Granted(device, REFUSED_RETRY)); !InClaimOrder(log) && !Respected(log)
  {
    var log := ThenAsked(device, device, [], [], Granted(device, REFUSED_RETRY));
    NothingChanges();
    assert log[5] == SecondEnds(device, []) && log[6] == Installed([]) && log[7] == FirstEnds(device, [], MapOf([]));
    assert log[8] == Granted(device, REFUSED_RETRY);
    assert !Wiped(log, 5, 8);
    assert Replaces(log, 5, 7);
  }

  lemma NothingChanges()
    ensures !Changed([], map[])
  {
    assert DeviceTrust.Table([]) == map[];
  }

  /** What fresh notes are needed for: the second call installs a list and is refused; the first
      installs the same list, moves no answer, and yet clears that refusal, since the list is not
      what it had noted. A read for the second device is granted 30 seconds after its refusal, in
      claim order and for no cause. */
  lemma StaleClearForgets(first: DeviceId, second: DeviceId, other: DeviceId, proof: Proof)
    requires first != second && other != first && other != second
    ensures var read := [DeviceRecord(other, Some(proof))];
      var log := End(NOTHING, TwoCalls(first, second, read, read) + [Claim(second, 2 * COOLDOWN)]).log;
      |log| == 9 && InClaimOrder(log) && StaleClear(log[7]) && !RespectedForCause(log)
  {
    var read, list := [DeviceRecord(other, Some(proof))], [Entry(other, proof)];
    OneDevice(other, proof);
    ClearedTable(first, second, list);
    AsksThen(first, second, read, read, 2 * COOLDOWN);
    StaleLog(first, second, list);
  }

  lemma ClearedTable(first: DeviceId, second: DeviceId, list: seq<Entry>)
    requires Changed(list, map[])
    ensures BothSettled(first, second, list, list).refused == map[first := 0]
  {
  }

  lemma StaleLog(first: DeviceId, second: DeviceId, list: seq<Entry>)
    requires first != second && Strict(list) && Changed(list, map[])
    ensures var log := ThenAsked(first, second, list, list, Granted(second, 2 * COOLDOWN));
      |log| == 9 && InClaimOrder(log) && StaleClear(log[7]) && !RespectedForCause(log)
  {
    var log := ThenAsked(first, second, list, list, Granted(second, 2 * COOLDOWN));
    assert log[5] == SecondEnds(second, list) && log[6] == Installed(list) && log[7] == FirstEnds(first, list, MapOf(list));
    assert log[8] == Granted(second, 2 * COOLDOWN);
    assert !WipedForCause(log, 5, 8);
    assert forall i :: 0 <= i < 9 && log[i].Concluded? ==> i == 5 || i == 7;
  }

  /** And the other way round: after the refusal the first call takes the list back, which moves an
      answer, and yet the refusal stays, since that is what it had noted. */
  lemma StaleKeepRefuses(first: DeviceId, second: DeviceId, other: DeviceId, proof: Proof)
    requires first != second && other != first && other != second
    ensures var log := End(NOTHING, TwoCalls(first, second, [DeviceRecord(other, Some(proof))], []) + [Claim(second, 2 * COOLDOWN)]).log;
      |log| == 9 && Refusal(log[5]) && log[5].device == second && StaleKeep(log[7]) && log[8] == Quiet
  {
    var read, list := [DeviceRecord(other, Some(proof))], [Entry(other, proof)];
    OneDevice(other, proof);
    assert Authorized([]) == [] && MapOf([]) == map[];
    NothingChanges();
    LeftTable(first, second, list);
    AsksThen(first, second, read, [], 2 * COOLDOWN);
    var log := ThenAsked(first, second, list, [], Quiet);
    assert log[5] == SecondEnds(second, list) && log[7] == FirstEnds(first, [], MapOf(list)) && log[8] == Quiet;
  }

  lemma LeftTable(first: DeviceId, second: DeviceId, list: seq<Entry>)
    requires first != second
    ensures var refused := BothSettled(first, second, list, []).refused;
      second in refused && refused[second] == COOLDOWN
  {
    NothingChanges();
  }

  lemma OneDevice(other: DeviceId, proof: Proof)
    ensures Authorized([DeviceRecord(other, Some(proof))]) == [Entry(other, proof)]
    ensures MapOf([Entry(other, proof)]) == map[other := proof]
    ensures Strict([Entry(other, proof)]) && Changed([Entry(other, proof)], map[])
  {
    var records, list := [DeviceRecord(other, Some(proof))], [Entry(other, proof)];
    assert records[..0] == [] && list[..0] == [] && [] + list == list;
    ChangedIsOther(list, map[]);
    assert other in MapOf(list);
  }
}
