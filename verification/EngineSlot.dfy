/**
 The shared slot between a workspace host and its successive sync engines
 (`manifest_driver.rs`). Every method is one locked region of the source, so every
 interleaving of hosts, engines and waiters is a sequence of these calls.
 */
module EngineSlot {
  import opened Prelude

  type Generation = nat
  type BarrierId = nat

  /** Who may speak for a workspace. */
  datatype Author = Host | Engine(generation: Generation)

  /** A status report, as its publisher wrote it. */
  datatype Snapshot = StartingSnapshot | Reported(author: Author, text: nat)

  /** The report a publisher with this sink writes: its own. */
  function Report(sink: Option<Generation>, text: nat): Snapshot {
    Reported(if sink.Some? then Engine(sink.value) else Host, text)
  }

  /** The visible snapshot is the starting one, the host's while there is no endpoint, or one by
      exactly the registered generation. */
  predicate Current(snapshot: Snapshot, endpoint: Option<Generation>) {
    match snapshot
    case StartingSnapshot => true
    case Reported(Host, _) => endpoint == None
    case Reported(Engine(g), _) => endpoint == Some(g)
  }

  /** The report was published, or the take-over with it made, by one of the events. */
  ghost predicate Came(snapshot: Snapshot, events: seq<Event>) {
    exists i :: 0 <= i < |events| &&
      match events[i]
      case Publish(sink, text) => snapshot == Report(sink, text)
      case TakeOver(sink, text) => sink == None && snapshot == Report(None, text)
      case _ => false
  }

  datatype Receipt = Receipt(id: BarrierId, generation: Generation)

  datatype BarrierError = Unavailable | EngineStopped | ResourceExhausted | IdentityExhausted

  datatype BarrierResult = Waiting(id: BarrierId) | Refused(error: BarrierError)

  /** An event of the whole system, in any order. */
  datatype Event =
    | Allocate
    | Register(generation: Generation)
    | Publish(sink: Option<Generation>, text: nat)
    | TakeOver(sink: Option<Generation>, text: nat)
    | Unregister(generation: Generation)
    | RequestBarrier
    | Complete(sink: Option<Generation>, receipts: seq<Receipt>)
    | DrainBarriers(generation: Generation)
    | DropWaiter(id: BarrierId)

  const MAX_PUBLIC_BARRIERS: nat := 64

  /** `allocate_identity`: ids count up and the last 64-bit value is never handed out. */
  method AllocateIdentity(counter: nat) returns (id: Option<nat>, next: nat)
    requires counter <= U64_MAX
    ensures next <= U64_MAX
    ensures counter < U64_MAX ==> id == Some(counter) && next == counter + 1
    ensures counter == U64_MAX ==> id == None && next == counter
  {
    if counter == U64_MAX {
      return None, counter;
    }
    return Some(counter), counter + 1;
  }

  /** A barrier waiter: the generation it was admitted to and the receipts it was sent. */
  datatype Waiter = Waiter(generation: Generation, received: seq<Receipt>)

  /** The part of the slot whose history matters. */
  datatype View = View(
    endpoint: Option<Generation>,
    registered: set<Generation>,
    waiters: map<BarrierId, Waiter>,
    nextBarrierId: nat,
    nextGeneration: nat)

  /** Waiters belong to registered generations and got at most one receipt: their own. */
  ghost predicate Sound(v: View) {
    && 1 <= v.nextBarrierId <= U64_MAX && 1 <= v.nextGeneration <= U64_MAX
    && (v.endpoint.Some? ==> v.endpoint.value in v.registered)
    && (forall g :: g in v.registered ==> g < v.nextGeneration)
    && (forall id :: id in v.waiters ==>
          && id < v.nextBarrierId
          && v.waiters[id].generation in v.registered
          && (v.waiters[id].received == [] || v.waiters[id].received == [Receipt(id, v.waiters[id].generation)]))
  }

  /** What every step of every participant, and every run of them, keeps. */
  ghost predicate Later(a: View, b: View) {
    // Identities are never reused.
    && a.nextBarrierId <= b.nextBarrierId && a.nextGeneration <= b.nextGeneration
    && (forall id :: id in b.waiters && id !in a.waiters ==> a.nextBarrierId <= id)
    // An endpoint that is gone stays gone ...
    && a.registered <= b.registered
    && (forall g :: g in a.registered && a.endpoint != Some(g) ==> b.endpoint != Some(g))
    // ... its waiters receive nothing more, and neither does one that has its receipt.
    && (forall id :: id in a.waiters ==>
          && id in b.waiters && b.waiters[id].generation == a.waiters[id].generation
          && (a.endpoint != Some(a.waiters[id].generation) || a.waiters[id].received != [] ==>
                b.waiters[id] == a.waiters[id]))
  }

  lemma LaterTransitive(a: View, b: View, c: View)
    requires Sound(a) && Later(a, b) && Later(b, c)
    ensures Later(a, c)
  {
    forall id | id in a.waiters
      ensures
        && id in c.waiters && c.waiters[id].generation == a.waiters[id].generation
        && (a.endpoint != Some(a.waiters[id].generation) || a.waiters[id].received != [] ==>
              c.waiters[id] == a.waiters[id])
    {
      assert id in b.waiters;
    }
  }

  /** The waiters once each of `done` has been sent its own receipt. */
  ghost function Completed(waiters: map<BarrierId, Waiter>, done: set<BarrierId>): map<BarrierId, Waiter> {
    map id | id in waiters ::
      if id in done then Waiter(waiters[id].generation, [Receipt(id, waiters[id].generation)]) else waiters[id]
  }

  /** The barriers left once an endpoint and its pending map are gone. */
  function Dropped(pending: map<BarrierId, Generation>, gone: Option<Generation>): (left: map<BarrierId, Generation>)
    ensures forall id :: id in left <==> id in pending && gone != Some(pending[id])
    ensures forall id :: id in left ==> left[id] == pending[id]
  {
    map id | id in pending && gone != Some(pending[id]) :: pending[id]
  }

  // ---- what every event does ---------------------------------------------------

  /** The whole slot. */
  datatype State = State(
    snapshot: Snapshot,
    endpoint: Option<Generation>,
    nextBarrierId: nat,
    nextGeneration: nat,
    pending: map<BarrierId, Generation>,
    queued: map<BarrierId, Generation>,
    connected: set<Generation>,
    registered: set<Generation>,
    waiters: map<BarrierId, Waiter>)

  /** A barrier is admitted: an engine runs, ids remain and its registry has room. */
  ghost predicate Admits(s: State) {
    && s.endpoint.Some? && s.nextBarrierId < U64_MAX && s.endpoint.value in s.connected
    && |set id | id in s.queued && s.queued[id] == s.endpoint.value| < MAX_PUBLIC_BARRIERS
  }

  ghost function Answered(s: State, sink: Option<Generation>, receipts: seq<Receipt>): set<BarrierId> {
    set id | id in s.pending && sink == Some(s.pending[id]) && s.endpoint == sink && Receipt(id, s.pending[id]) in receipts
  }

  ghost function After(s: State, event: Event): State {
    match event
    case Allocate => if s.nextGeneration < U64_MAX then s.(nextGeneration := s.nextGeneration + 1) else s
    case Register(g) =>
      if g < s.nextGeneration && g !in s.registered then
        s.(endpoint := Some(g), snapshot := StartingSnapshot, registered := s.registered + {g},
           connected := s.connected + {g}, pending := Dropped(s.pending, s.endpoint))
      else s
    case Publish(sink, text) => if s.endpoint == sink then s.(snapshot := Report(sink, text)) else s
    case TakeOver(sink, text) =>
      if sink.Some? then s
      else
        var left := s.(endpoint := None, snapshot := Reported(Host, text), pending := Dropped(s.pending, s.endpoint));
        if s.endpoint == None then left
        else left.(connected := s.connected - {s.endpoint.value}, queued := Dropped(s.queued, s.endpoint))
    case Unregister(g) =>
      if s.endpoint != Some(g) then s
      else s.(endpoint := None, snapshot := StartingSnapshot, connected := s.connected - {g}, queued := Dropped(s.queued, Some(g)))
    case RequestBarrier =>
      var id := s.nextBarrierId;
      if s.endpoint == None || id >= U64_MAX then s
      else if !Admits(s) then s.(nextBarrierId := id + 1)
      else
        var g := s.endpoint.value;
        s.(nextBarrierId := id + 1, pending := s.pending[id := g], queued := s.queued[id := g],
           waiters := s.waiters[id := Waiter(g, [])])
    case Complete(sink, receipts) =>
      var done := Answered(s, sink, receipts);
      s.(pending := s.pending - done, waiters := Completed(s.waiters, done))
    case DrainBarriers(g) => s.(queued := Dropped(s.queued, Some(g)))
    case DropWaiter(id) =>
      s.(pending := s.pending - {id}, queued := if id in s.pending then s.queued - {id} else s.queued)
  }

  ghost function End(s: State, events: seq<Event>): State {
    if events == [] then s else After(End(s, events[..|events| - 1]), events[|events| - 1])
  }

  lemma EndMore(s: State, events: seq<Event>, event: Event)
    ensures End(s, events + [event]) == After(End(s, events), event)
  {
    assert (events + [event])[..|events|] == events;
  }

  /** An event that leaves generation `g` registered and does not report for it. */
  predicate Keeps(g: Generation, event: Event) {
    match event
    case Register(_) => false
    case Publish(sink, _) => sink != Some(g)
    case TakeOver(sink, _) => sink.Some?
    case Unregister(other) => other != g
    case _ => true
  }

  /** What the registered engine reported stays visible, whatever others publish, until it reports
      again or its endpoint goes. */
  lemma {:induction false} ReportStays(s: State, g: Generation, text: nat, events: seq<Event>)
    requires s.endpoint == Some(g) && (forall e :: e in events ==> Keeps(g, e))
    ensures var end := End(After(s, Publish(Some(g), text)), events);
      end.endpoint == Some(g) && end.snapshot == Reported(Engine(g), text)
  {
    if events != [] {
      assert events[|events| - 1] in events;
      ReportStays(s, g, text, events[..|events| - 1]);
    }
  }

  /** An event that leaves barrier `id` of generation `g` waiting. */
  predicate Awaits(g: Generation, id: BarrierId, event: Event) {
    match event
    case Register(_) => false
    case TakeOver(sink, _) => sink.Some?
    case Unregister(other) => other != g
    case Complete(sink, receipts) => sink != Some(g) || Receipt(id, g) !in receipts
    case DropWaiter(other) => other != id
    case _ => true
  }

  /** Barrier `id` of the registered generation `g` waits and has received nothing. */
  ghost predicate Awaited(s: State, g: Generation, id: BarrierId) {
    && s.endpoint == Some(g) && id in s.pending && s.pending[id] == g && id < s.nextBarrierId
    && id in s.waiters && s.waiters[id] == Waiter(g, [])
  }

  lemma {:induction false} StillAwaited(s: State, g: Generation, id: BarrierId, events: seq<Event>)
    requires Awaited(s, g, id) && (forall e :: e in events ==> Awaits(g, id, e))
    ensures Awaited(End(s, events), g, id)
  {
    if events != [] {
      assert events[|events| - 1] in events;
      StillAwaited(s, g, id, events[..|events| - 1]);
    }
  }

  /** A barrier that is admitted is answered: once the engine completes it, if until then its
      endpoint stayed and the waiter was not dropped, the waiter has its receipt. */
  lemma BarrierAnswered(s: State, events: seq<Event>, receipts: seq<Receipt>)
    requires Admits(s)
    requires var g, id := s.endpoint.value, s.nextBarrierId;
      (forall e :: e in events ==> Awaits(g, id, e)) && Receipt(id, g) in receipts
    ensures var g, id := s.endpoint.value, s.nextBarrierId;
      var end := End(After(s, RequestBarrier), events);
      var answered := After(end, Complete(Some(g), receipts));
      id in answered.waiters && answered.waiters[id] == Waiter(g, [Receipt(id, g)]) && id !in answered.pending
  {
    StillAwaited(After(s, RequestBarrier), s.endpoint.value, s.nextBarrierId, events);
  }

  class EngineShared {
    var snapshot: Snapshot
    var endpoint: Option<Generation>
    var nextBarrierId: nat
    var nextGeneration: nat
    /** The barriers awaiting completion, each in the map of its own endpoint. */
    var pending: map<BarrierId, Generation>
    /** Control registries: barriers not yet taken by the engine, and whether it still runs. */
    var queued: map<BarrierId, Generation>
    var connected: set<Generation>
    var registered: set<Generation>
    ghost var waiters: map<BarrierId, Waiter>

    ghost function V(): View
      reads this
    {
      View(endpoint, registered, waiters, nextBarrierId, nextGeneration)
    }

    ghost function S(): State
      reads this
    {
      State(snapshot, endpoint, nextBarrierId, nextGeneration, pending, queued, connected, registered, waiters)
    }

    ghost predicate Valid()
      reads this
    {
      && Current(snapshot, endpoint)
      && Sound(V())
      // A pending barrier has a waiter of that generation which has received nothing.
      && (forall id :: id in pending ==> id in waiters && waiters[id] == Waiter(pending[id], []))
    }

    constructor ()
      ensures Valid() && snapshot == StartingSnapshot && endpoint == None
      ensures S() == State(StartingSnapshot, None, 1, 1, map[], map[], {}, {}, map[])
    {
      snapshot, endpoint, nextBarrierId, nextGeneration := StartingSnapshot, None, 1, 1;
      pending, queued, connected, registered := map[], map[], {}, {};
      waiters := map[];
    }

    predicate Owns(sink: Option<Generation>)
      reads this
    {
      endpoint == sink
    }

    method Publish(sink: Option<Generation>, text: nat)
      requires Valid()
      modifies this`snapshot
      ensures S() == After(old(S()), Event.Publish(sink, text))
      ensures Valid()
      ensures snapshot ==
        if endpoint == sink then Reported(if sink.Some? then Engine(sink.value) else Host, text) else old(snapshot)
    {
      if !Owns(sink) {
        return;
      }
      snapshot := Report(sink, text);
    }

    method TakeOver(sink: Option<Generation>, text: nat)
      requires Valid()
      modifies this
      ensures S() == After(old(S()), Event.TakeOver(sink, text))
      ensures Valid() && Later(old(V()), V())
      ensures sink == None ==> endpoint == None && snapshot == Reported(Host, text)
      ensures sink == None ==> pending == Dropped(old(pending), old(endpoint))
      ensures sink == None ==> connected == if old(endpoint).Some? then old(connected) - {old(endpoint).value} else old(connected)
      ensures sink == None && old(endpoint).Some? ==> queued == Dropped(old(queued), old(endpoint))
      ensures sink.Some? ==> pending == old(pending) && connected == old(connected) && queued == old(queued)
      ensures sink.Some? ==> endpoint == old(endpoint) && snapshot == old(snapshot)
      ensures waiters == old(waiters)
    {
      if sink.Some? {
        return;
      }
      var previous := endpoint;
      endpoint, snapshot := None, Report(None, text);
      pending := Dropped(pending, previous);
      if previous.Some? {
        connected, queued := connected - {previous.value}, Dropped(queued, previous);
      }
    }

    method Allocate() returns (generation: Option<Generation>)
      requires Valid()
      modifies this`nextGeneration
      ensures S() == After(old(S()), Event.Allocate)
      ensures Valid() && Later(old(V()), V())
      ensures generation.None? <==> old(nextGeneration) == U64_MAX
      ensures generation.Some? ==> generation.value !in registered && old(nextGeneration) <= generation.value < nextGeneration
    {
      generation, nextGeneration := AllocateIdentity(nextGeneration);
    }

    /** `register_engine_endpoint`; each allocated generation registers at most once. */
    method Register(g: Generation)
      requires Valid() && g < nextGeneration && g !in registered
      modifies this
      ensures S() == After(old(S()), Event.Register(g))
      ensures Valid() && Later(old(V()), V())
      ensures endpoint == Some(g) && snapshot == StartingSnapshot
      ensures pending == Dropped(old(pending), old(endpoint)) && connected == old(connected) + {g}
      ensures registered == old(registered) + {g} && waiters == old(waiters)
    {
      var previous := endpoint;
      endpoint, snapshot := Some(g), StartingSnapshot;
      registered, connected := registered + {g}, connected + {g};
      pending := Dropped(pending, previous);
    }

    method Unregister(generation: Generation)
      requires Valid()
      modifies this
      ensures S() == After(old(S()), Event.Unregister(generation))
      ensures Valid() && Later(old(V()), V())
      ensures old(endpoint) == Some(generation) ==>
        && endpoint == None && snapshot == StartingSnapshot
        && connected == old(connected) - {generation} && queued == Dropped(old(queued), Some(generation))
      ensures old(endpoint) != Some(generation) ==>
        endpoint == old(endpoint) && snapshot == old(snapshot) && connected == old(connected) && queued == old(queued)
      ensures waiters == old(waiters) && pending == old(pending)
    {
      if endpoint != Some(generation) {
        return;
      }
      connected, queued := connected - {generation}, Dropped(queued, Some(generation));
      endpoint, snapshot := None, StartingSnapshot;
    }

    /** How many barriers of `g` wait in its control registry. */
    function QueueLength(g: Generation): nat
      reads this
    {
      |set id | id in queued && queued[id] == g|
    }

    method RequestBarrier() returns (r: BarrierResult)
      requires Valid()
      modifies this
      ensures S() == After(old(S()), Event.RequestBarrier)
      ensures Valid() && Later(old(V()), V())
      ensures r.Waiting? ==>
        && endpoint.Some? && r.id !in old(waiters) && waiters == old(waiters)[r.id := Waiter(endpoint.value, [])]
        && pending == old(pending)[r.id := endpoint.value]
      ensures r.Refused? ==> waiters == old(waiters) && pending == old(pending)
      ensures endpoint == old(endpoint) && snapshot == old(snapshot)
      ensures r == Refused(Unavailable) <==> endpoint == None
      ensures endpoint.Some? ==>
        if old(nextBarrierId) == U64_MAX then r == Refused(IdentityExhausted)
        else if endpoint.value !in connected then r == Refused(EngineStopped)
        else if |set id | id in old(queued) && old(queued)[id] == endpoint.value| >= MAX_PUBLIC_BARRIERS then
          r == Refused(ResourceExhausted)
        else r.Waiting? && queued == old(queued)[r.id := endpoint.value]
    {
      if endpoint == None {
        return Refused(Unavailable);
      }
      var g := endpoint.value;
      var id;
      id, nextBarrierId := AllocateIdentity(nextBarrierId);
      if id == None {
        return Refused(IdentityExhausted);
      }
      if g !in connected {
        return Refused(EngineStopped);
      }
      if QueueLength(g) >= MAX_PUBLIC_BARRIERS {
        return Refused(ResourceExhausted);
      }
      pending, queued := pending[id.value := g], queued[id.value := g];
      waiters := waiters[id.value := Waiter(g, [])];
      return Waiting(id.value);
    }

    /** `complete_barriers`, for whatever receipts an engine claims to have completed: the pending
        barriers it names are `done`, each of their waiters gets its own receipt, nobody else any. */
    method Complete(sink: Option<Generation>, receipts: seq<Receipt>) returns (ghost done: set<BarrierId>)
      requires Valid()
      modifies this`pending, this`waiters
      ensures Valid() && Later(old(V()), V())
      ensures forall id :: id in done <==>
        && sink.Some? && endpoint == sink && id in old(pending) && old(pending)[id] == sink.value
        && Receipt(id, sink.value) in receipts
      ensures pending == old(pending) - done && waiters == Completed(old(waiters), done)
    {
      done := {};
      assert Completed(waiters, done) == waiters;
      if sink == None || endpoint != sink {
        return;
      }
      var g := sink.value;
      for i := 0 to |receipts|
        invariant forall id :: id in done <==>
          id in old(pending) && old(pending)[id] == g && Receipt(id, g) in receipts[..i]
        invariant pending == old(pending) - done && waiters == Completed(old(waiters), done)
      {
        var receipt := receipts[i];
        assert receipts[..i + 1] == receipts[..i] + [receipt];
        if receipt.generation == g && receipt.id in pending && pending[receipt.id] == g {
          assert old(waiters)[receipt.id] == waiters[receipt.id] == Waiter(g, []);
          assert [] + [receipt] == [Receipt(receipt.id, g)];
          pending := pending - {receipt.id};
          waiters := waiters[receipt.id := Waiter(g, waiters[receipt.id].received + [receipt])];
          done := done + {receipt.id};
        }
      }
      assert receipts[..|receipts|] == receipts;
    }

    /** The engine takes the queued barriers of its registry. */
    method DrainBarriers(g: Generation)
      requires Valid()
      modifies this`queued
      ensures S() == After(old(S()), Event.DrainBarriers(g))
      ensures Valid() && queued == Dropped(old(queued), Some(g))
    {
      queued := Dropped(queued, Some(g));
    }

    /** Dropping a waiter withdraws its barrier. */
    method DropWaiter(id: BarrierId)
      requires Valid()
      modifies this`pending, this`queued
      ensures S() == After(old(S()), Event.DropWaiter(id))
      ensures Valid() && pending == old(pending) - {id}
      ensures queued == if id in old(pending) then old(queued) - {id} else old(queued)
    {
      if id in pending {
        queued := queued - {id};
      }
      pending := pending - {id};
    }

    /** Every interleaving of the events above. */
    method Run(events: seq<Event>)
      requires Valid()
      modifies this
      // Every event has its effect, and in this order.
      ensures S() == End(old(S()), events)
      ensures Valid() && Later(old(V()), V())
      // What is visible is what the one who may speak now has said, in this run or before it.
      ensures Current(snapshot, endpoint)
      ensures snapshot == StartingSnapshot || snapshot == old(snapshot) || Came(snapshot, events)
    {
      for i := 0 to |events|
        invariant Valid() && Later(old(V()), V()) && S() == End(old(S()), events[..i])
        invariant snapshot == StartingSnapshot || snapshot == old(snapshot) || Came(snapshot, events[..i])
      {
        ghost var before, shown := V(), snapshot;
        Dispatch(events[i]);
        LaterTransitive(old(V()), before, V());
        EndMore(old(S()), events[..i], events[i]);
        CameStep(events[..i], events[i], shown, snapshot);
        assert events[..i + 1] == events[..i] + [events[i]];
      }
      assert events[..|events|] == events;
    }

    method Dispatch(event: Event)
      requires Valid()
      modifies this
      ensures S() == After(old(S()), event)
      ensures Valid() && Later(old(V()), V())
      ensures snapshot == StartingSnapshot || snapshot == old(snapshot) || Came(snapshot, [event])
    {
      assert [event][0] == event;
      match event
      case Allocate => var _ := Allocate();
      case Register(g) =>
        if g < nextGeneration && g !in registered {
          Register(g);
        }
      case Publish(sink, text) => Publish(sink, text);
      case TakeOver(sink, text) => TakeOver(sink, text);
      case Unregister(g) => Unregister(g);
      case RequestBarrier => var _ := RequestBarrier();
      case Complete(sink, receipts) =>
        var done := Complete(sink, receipts);
        assert done == Answered(old(S()), sink, receipts);
      case DrainBarriers(g) => DrainBarriers(g);
      case DropWaiter(id) => DropWaiter(id);
    }
  }

  lemma CameStep(events: seq<Event>, event: Event, shown: Snapshot, snapshot: Snapshot)
    requires snapshot == StartingSnapshot || snapshot == shown || Came(snapshot, [event])
    ensures Came(shown, events) ==> Came(shown, events + [event])
    ensures Came(snapshot, [event]) ==> Came(snapshot, events + [event])
  {
    var all := events + [event];
    assert forall i :: 0 <= i < |events| ==> all[i] == events[i];
    assert all[|events|] == [event][0];
  }
}
