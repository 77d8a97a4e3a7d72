/** internal/bus/eventbus.go: publishers, a dispatcher and Stop callers over a buffered channel. */
module EventBus {
  // One dispatcher goroutine and any number of publishers and Stop callers.  The fields of `Bus`
  // below the blank line are history.

  datatype Event = Event(kind: string, level: string, step: string, target: string, message: string)
  type Handler = nat

  /** What a handler observes. */
  datatype Note = Handled(h: Handler, e: Event) | Closed(h: Handler)

  datatype Dispatcher =
    | Idle
    | Got(e: Event, draining: bool)                                  // received, handlers not yet copied
    | Delivering(e: Event, hs: seq<Handler>, k: nat, draining: bool) // hs[..k] have handled e
    | Draining
    | Exited

  /** A call of Stop, after it has closed stopCh (or found it closed). */
  datatype Stopper = AwaitDispatcher | ClosingHandlers(hs: seq<Handler>, k: nat) | StopReturned

  datatype Bus = Bus(
    capacity: nat,
    buffer: seq<Event>,
    handlers: seq<Handler>,
    stopped: bool,
    dispatcher: Dispatcher,
    stoppers: seq<Stopper>,

    accepted: seq<Event>,       // events whose Publish succeeded, in order
    registeredAt: seq<nat>,     // how many handlers there were when each was accepted
    dispatched: seq<Event>,     // events the dispatcher received
    snapshots: seq<seq<Handler>>, // the handlers copied for each dispatched event
    acceptedAtStop: nat,        // |accepted| when stopCh was closed
    log: seq<Note>
  )

  datatype Action =
    | Register(h: Handler)
    | Accept(e: Event)          // Publish: the send case of the select
    | HandOver(e: Event)        // Publish: the send meets a waiting receive
    | Drop(e: Event)            // Publish: the stopCh case
    | Receive
    | CopyHandlers
    | Deliver
    | EndDelivery
    | SeeStop
    | Exit
    | CallStop
    | CopyForClose(j: nat)
    | CloseNext(j: nat)
    | EndStop(j: nat)

  function Initial(capacity: nat): Bus {
    Bus(capacity, [], [], false, Idle, [], [], [], [], [], 0, [])
  }

  predicate Receiving(d: Dispatcher) { d.Idle? || d.Draining? }

  predicate Enabled(b: Bus, a: Action) {
    match a
    case Register(_) => true
    case Accept(_) => |b.buffer| < b.capacity
    case HandOver(_) => Receiving(b.dispatcher) && b.buffer == []
    case Drop(_) => b.stopped
    case Receive => Receiving(b.dispatcher) && b.buffer != []
    case CopyHandlers => b.dispatcher.Got?
    case Deliver => b.dispatcher.Delivering? && b.dispatcher.k < |b.dispatcher.hs|
    case EndDelivery => b.dispatcher.Delivering? && b.dispatcher.k == |b.dispatcher.hs|
    case SeeStop => b.dispatcher.Idle? && b.stopped
    case Exit => b.dispatcher.Draining? && b.buffer == []
    case CallStop => true
    case CopyForClose(j) => j < |b.stoppers| && b.stoppers[j].AwaitDispatcher? && b.dispatcher.Exited?
    case CloseNext(j) => j < |b.stoppers| && b.stoppers[j].ClosingHandlers? && b.stoppers[j].k < |b.stoppers[j].hs|
    case EndStop(j) => j < |b.stoppers| && b.stoppers[j].ClosingHandlers? && b.stoppers[j].k == |b.stoppers[j].hs|
  }

  function Apply(b: Bus, a: Action): Bus
    requires Enabled(b, a)
  {
    match a
    case Register(h) => b.(handlers := b.handlers + [h])
    case Accept(e) =>
      b.(buffer := b.buffer + [e], accepted := b.accepted + [e], registeredAt := b.registeredAt + [|b.handlers|])
    case HandOver(e) =>
      b.(accepted := b.accepted + [e], registeredAt := b.registeredAt + [|b.handlers|],
         dispatched := b.dispatched + [e], dispatcher := Got(e, b.dispatcher.Draining?))
    case Drop(_) => b
    case Receive =>
      b.(buffer := b.buffer[1..], dispatched := b.dispatched + [b.buffer[0]],
         dispatcher := Got(b.buffer[0], b.dispatcher.Draining?))
    case CopyHandlers =>
      b.(dispatcher := Delivering(b.dispatcher.e, b.handlers, 0, b.dispatcher.draining), snapshots := b.snapshots + [b.handlers])
    case Deliver =>
      b.(log := b.log + [Handled(b.dispatcher.hs[b.dispatcher.k], b.dispatcher.e)],
         dispatcher := b.dispatcher.(k := b.dispatcher.k + 1))
    case EndDelivery => b.(dispatcher := if b.dispatcher.draining then Draining else Idle)
    case SeeStop => b.(dispatcher := Draining)
    case Exit => b.(dispatcher := Exited)
    case CallStop =>
      b.(stopped := true, acceptedAtStop := if b.stopped then b.acceptedAtStop else |b.accepted|,
         stoppers := b.stoppers + [AwaitDispatcher])
    case CopyForClose(j) => b.(stoppers := b.stoppers[j := ClosingHandlers(b.handlers, 0)])
    case CloseNext(j) =>
      b.(log := b.log + [Closed(b.stoppers[j].hs[b.stoppers[j].k])],
         stoppers := b.stoppers[j := ClosingHandlers(b.stoppers[j].hs, b.stoppers[j].k + 1)])
    case EndStop(j) => b.(stoppers := b.stoppers[j := StopReturned])
  }

  ghost predicate Next(b: Bus, b': Bus) {
    exists a :: Enabled(b, a) && b' == Apply(b, a)
  }

  ghost predicate IsRun(run: seq<Bus>) {
    run != [] && run[0] == Initial(run[0].capacity) && forall t :: 0 <= t < |run| - 1 ==> Next(run[t], run[t + 1])
  }

  ghost predicate Reachable(b: Bus) {
    exists run :: IsRun(run) && run[|run| - 1] == b
  }

  // ---------------------------------------------------------------- what must have been delivered

  function NotesFor(e: Event, hs: seq<Handler>, k: nat): (notes: seq<Note>)
    requires k <= |hs|
    ensures |notes| == k && forall i :: 0 <= i < k ==> notes[i] == Handled(hs[i], e)
  {
    seq(k, i requires 0 <= i < k => Handled(hs[i], e))
  }

  /** The notes of the first `n` dispatched events, each handed to the whole of its snapshot. */
  ghost function Deliveries(events: seq<Event>, snapshots: seq<seq<Handler>>, n: nat): seq<Note>
    requires n <= |events| && n <= |snapshots|
  {
    if n == 0 then []
    else Deliveries(events, snapshots, n - 1) + NotesFor(events[n - 1], snapshots[n - 1], |snapshots[n - 1]|)
  }

  ghost predicate DispatcherInv(b: Bus) {
    match b.dispatcher
    case Got(e, dr) =>
      |b.dispatched| > 0 && b.dispatched[|b.dispatched| - 1] == e && |b.snapshots| == |b.dispatched| - 1 && (dr ==> b.stopped)
    case Delivering(e, hs, k, dr) =>
      && |b.dispatched| > 0 && b.dispatched[|b.dispatched| - 1] == e
      && |b.snapshots| == |b.dispatched| && b.snapshots[|b.snapshots| - 1] == hs && k <= |hs| && (dr ==> b.stopped)
    case Idle => |b.snapshots| == |b.dispatched|
    case _ => |b.snapshots| == |b.dispatched| && b.stopped
  }

  /** The snapshot of each event is the handler list at some moment after it was accepted. */
  ghost predicate SnapshotInv(b: Bus) {
    && |b.snapshots| <= |b.dispatched| <= |b.registeredAt|
    && forall j :: 0 <= j < |b.snapshots| ==> b.snapshots[j] <= b.handlers && |b.snapshots[j]| >= b.registeredAt[j]
  }

  ghost predicate Stoppers(b: Bus) {
    && (b.stoppers != [] <==> b.stopped)
    && forall j :: 0 <= j < |b.stoppers| && b.stoppers[j].ClosingHandlers? ==>
         b.dispatcher.Exited? && b.stoppers[j].k <= |b.stoppers[j].hs|
  }

  /** The notes the dispatcher has produced. */
  ghost function Produced(b: Bus): seq<Note>
    requires DispatcherInv(b)
  {
    match b.dispatcher
    case Delivering(e, hs, k, _) => Deliveries(b.dispatched, b.snapshots, |b.dispatched| - 1) + NotesFor(e, hs, k)
    case Got(_, _) => Deliveries(b.dispatched, b.snapshots, |b.dispatched| - 1)
    case _ => Deliveries(b.dispatched, b.snapshots, |b.dispatched|)
  }

  /** First everything the dispatcher produced, then only Close calls, and none before it exits. */
  ghost predicate LogInv(b: Bus)
    requires DispatcherInv(b)
  {
    && Produced(b) <= b.log
    && (forall i :: |Produced(b)| <= i < |b.log| ==> b.log[i].Closed?)
    && (!b.dispatcher.Exited? ==> b.log == Produced(b))
  }

  ghost predicate QueueInv(b: Bus) {
    && b.dispatched + b.buffer == b.accepted
    && |b.buffer| <= b.capacity
    && |b.registeredAt| == |b.accepted|
    && (forall j :: 0 <= j < |b.registeredAt| ==> b.registeredAt[j] <= |b.handlers|)
    && (b.stopped ==> b.acceptedAtStop <= |b.accepted|)
    && (b.dispatcher.Exited? ==> b.acceptedAtStop <= |b.dispatched|)
  }

  ghost predicate Inv(b: Bus) {
    QueueInv(b) && DispatcherInv(b) && SnapshotInv(b) && Stoppers(b) && LogInv(b)
  }

  lemma QueueStep(b: Bus, a: Action)
    requires QueueInv(b) && DispatcherInv(b) && Enabled(b, a)
    ensures QueueInv(Apply(b, a))
  {
    if a.Receive? { assert b.buffer == [b.buffer[0]] + b.buffer[1..]; }
  }

  lemma DispatcherKeeps(b: Bus, a: Action)
    requires DispatcherInv(b) && Enabled(b, a)
    ensures DispatcherInv(Apply(b, a))
  {
  }

  lemma SnapshotKeeps(b: Bus, a: Action)
    requires QueueInv(b) && DispatcherInv(b) && SnapshotInv(b) && Enabled(b, a)
    ensures SnapshotInv(Apply(b, a))
  {
    if a.CopyHandlers? { assert b.registeredAt[|b.snapshots|] <= |b.handlers|; }
  }

  lemma StopperStep(b: Bus, a: Action)
    requires Stoppers(b) && Enabled(b, a)
    ensures Stoppers(Apply(b, a))
  {
  }

  lemma DeliveriesPrefix(events: seq<Event>, snapshots: seq<seq<Handler>>, e: Event, hs: seq<seq<Handler>>, n: nat)
    requires n <= |events| && n <= |snapshots|
    ensures Deliveries(events + [e], snapshots, n) == Deliveries(events, snapshots, n)
    ensures Deliveries(events, snapshots + hs, n) == Deliveries(events, snapshots, n)
  {
  }

  lemma NotesMore(before: seq<Note>, e: Event, hs: seq<Handler>, k: nat)
    requires k < |hs|
    ensures before + NotesFor(e, hs, k + 1) == (before + NotesFor(e, hs, k)) + [Handled(hs[k], e)]
  {
  }

  lemma ProducedByDeliver(b: Bus)
    requires DispatcherInv(b) && Enabled(b, Deliver) && DispatcherInv(Apply(b, Deliver))
    ensures Produced(Apply(b, Deliver)) == Produced(b) + [Handled(b.dispatcher.hs[b.dispatcher.k], b.dispatcher.e)]
  {
    var d := b.dispatcher;
    NotesMore(Deliveries(b.dispatched, b.snapshots, |b.dispatched| - 1), d.e, d.hs, d.k);
  }

  lemma ProducedByReceive(b: Bus, a: Action)
    requires DispatcherInv(b) && Enabled(b, a) && DispatcherInv(Apply(b, a)) && (a.HandOver? || a.Receive?)
    ensures Produced(Apply(b, a)) == Produced(b)
  {
    DeliveriesPrefix(b.dispatched, b.snapshots, if a.HandOver? then a.e else b.buffer[0], [], |b.dispatched|);
  }

  lemma ProducedByCopy(b: Bus)
    requires DispatcherInv(b) && Enabled(b, CopyHandlers) && DispatcherInv(Apply(b, CopyHandlers))
    ensures Produced(Apply(b, CopyHandlers)) == Produced(b)
  {
    var before := Deliveries(b.dispatched, b.snapshots, |b.dispatched| - 1);
    DeliveriesPrefix(b.dispatched, b.snapshots, b.dispatcher.e, [b.handlers], |b.dispatched| - 1);
    assert before + NotesFor(b.dispatcher.e, b.handlers, 0) == before;
  }

  lemma ProducedByEnd(b: Bus)
    requires DispatcherInv(b) && Enabled(b, EndDelivery) && DispatcherInv(Apply(b, EndDelivery))
    ensures Produced(Apply(b, EndDelivery)) == Produced(b)
  {
  }

  /** Only Deliver produces a note. */
  lemma ProducedOtherwise(b: Bus, a: Action)
    requires DispatcherInv(b) && Enabled(b, a) && DispatcherInv(Apply(b, a)) && !a.Deliver?
    ensures Produced(Apply(b, a)) == Produced(b)
  {
    if a.HandOver? || a.Receive? {
      ProducedByReceive(b, a);
    } else if a.CopyHandlers? {
      ProducedByCopy(b);
    } else if a.EndDelivery? {
      ProducedByEnd(b);
    }
  }

  lemma LogStep(b: Bus, a: Action)
    requires DispatcherInv(b) && Stoppers(b) && LogInv(b) && Enabled(b, a) && DispatcherInv(Apply(b, a))
    ensures LogInv(Apply(b, a))
  {
    if a.Deliver? { ProducedByDeliver(b); } else { ProducedOtherwise(b, a); }
  }

  lemma InvStep(b: Bus, a: Action)
    requires Inv(b) && Enabled(b, a)
    ensures Inv(Apply(b, a))
  {
    QueueStep(b, a);
    DispatcherKeeps(b, a);
    SnapshotKeeps(b, a);
    StopperStep(b, a);
    LogStep(b, a);
  }

  lemma {:induction false} RunInv(run: seq<Bus>, t: nat)
    requires IsRun(run) && t < |run|
    ensures Inv(run[t])
  {
    if t > 0 {
      RunInv(run, t - 1);
      assert Next(run[t - 1], run[t - 1 + 1]);
      var a :| Enabled(run[t - 1], a) && run[t] == Apply(run[t - 1], a);
      InvStep(run[t - 1], a);
    }
  }

  lemma ReachableInv(b: Bus)
    requires Reachable(b)
    ensures Inv(b)
  {
    var run :| IsRun(run) && run[|run| - 1] == b;
    RunInv(run, |run| - 1);
  }

  // ---------------------------------------------------------------- the protocol

  /** Nothing is lost, duplicated or reordered: at every moment the events handed to the
      dispatcher followed by the buffer are the accepted events. */
  lemma NothingLost(b: Bus)
    requires Reachable(b)
    ensures b.dispatched + b.buffer == b.accepted && |b.buffer| <= b.capacity
  {
    ReachableInv(b);
  }

  /** No HandleEvent follows a Close: from the first Close on the log holds only Closes. */
  lemma NoHandleAfterClose(b: Bus, i: nat, j: nat)
    requires Reachable(b) && i < j < |b.log| && b.log[i].Closed?
    ensures b.log[j].Closed?
  {
    ReachableInv(b);
    ProducedHandled(b, i);
  }

  lemma DeliveriesHandled(events: seq<Event>, snapshots: seq<seq<Handler>>, n: nat)
    requires n <= |events| && n <= |snapshots|
    ensures forall i :: 0 <= i < |Deliveries(events, snapshots, n)| ==> Deliveries(events, snapshots, n)[i].Handled?
  {
  }

  lemma ProducedHandled(b: Bus, i: nat)
    requires Inv(b) && i < |b.log|
    ensures i < |Produced(b)| ==> b.log[i].Handled?
  {
    DeliveriesHandled(b.dispatched, b.snapshots, |b.snapshots|);
    if |b.dispatched| > 0 && |b.dispatched| - 1 <= |b.snapshots| {
      DeliveriesHandled(b.dispatched, b.snapshots, |b.dispatched| - 1);
    }
    assert Produced(b) == b.log[..|Produced(b)|];
  }

  ghost predicate WasHandled(b: Bus, h: Handler, j: nat)
    requires j < |b.accepted|
  {
    Handled(h, b.accepted[j]) in b.log
  }

  lemma {:induction false} DeliveredTo(events: seq<Event>, snapshots: seq<seq<Handler>>, n: nat, j: nat, h: Handler)
    requires j < n <= |events| && n <= |snapshots| && h in snapshots[j]
    ensures Handled(h, events[j]) in Deliveries(events, snapshots, n)
  {
    if j == n - 1 {
      var notes := NotesFor(events[j], snapshots[j], |snapshots[j]|);
      var i :| 0 <= i < |snapshots[j]| && snapshots[j][i] == h;
      assert notes[i] == Handled(h, events[j]);
    } else {
      DeliveredTo(events, snapshots, n - 1, j, h);
    }
  }

  /** Draining is complete: once the dispatcher has exited, every event accepted before Stop
      closed the channel has been handed to every handler registered when it was accepted. */
  lemma DrainedBeforeExit(b: Bus, j: nat, k: nat)
    requires Reachable(b) && b.dispatcher.Exited?
    requires j < b.acceptedAtStop
    ensures j < |b.accepted| == |b.registeredAt| && b.registeredAt[j] <= |b.handlers|
    ensures k < b.registeredAt[j] ==> WasHandled(b, b.handlers[k], j)
  {
    ReachableInv(b);
    assert b.accepted[j] == b.dispatched[j];
    if k < b.registeredAt[j] {
      assert b.snapshots[j] <= b.handlers && |b.snapshots[j]| >= b.registeredAt[j];
      assert b.snapshots[j][k] == b.handlers[k];
      DeliveredTo(b.dispatched, b.snapshots, |b.dispatched|, j, b.handlers[k]);
      assert Produced(b) == b.log[..|Produced(b)|];
      assert Handled(b.handlers[k], b.accepted[j]) in b.log[..|Produced(b)|];
    }
  }

  /** What only grows in a run, and what is recorded of it. */
  ghost predicate Grown(b: Bus, b': Bus) {
    && b.accepted <= b'.accepted && b.handlers <= b'.handlers && b.registeredAt <= b'.registeredAt
    && (b.stopped ==> b'.stopped) && (!b.stopped && b'.stopped ==> |b.accepted| <= b'.acceptedAtStop)
    && forall j :: |b.registeredAt| <= j < |b'.registeredAt| ==> b'.registeredAt[j] >= |b.handlers|
  }

  lemma GrownByOne(b: Bus, b': Bus, a: Action)
    requires QueueInv(b') && Grown(b, b') && Enabled(b', a)
    ensures Grown(b, Apply(b', a))
  {
  }

  lemma GrownByNext(b: Bus, b': Bus, b'': Bus)
    requires QueueInv(b') && Grown(b, b') && Next(b', b'')
    ensures Grown(b, b'')
  {
    var a :| Enabled(b', a) && b'' == Apply(b', a);
    GrownByOne(b, b', a);
  }

  lemma RunAt(run: seq<Bus>, u: nat)
    requires IsRun(run) && 0 < u < |run|
    ensures QueueInv(run[u - 1]) && Next(run[u - 1], run[u])
  {
    RunInv(run, u - 1);
    assert Next(run[u - 1], run[u - 1 + 1]);
  }

  lemma RunGrowsNext(run: seq<Bus>, t: nat, u: nat)
    requires IsRun(run) && t < u < |run| && Grown(run[t], run[u - 1])
    ensures Grown(run[t], run[u])
  {
    RunAt(run, u);
    GrownByNext(run[t], run[u - 1], run[u]);
  }

  lemma GrownSame(b: Bus)
    ensures Grown(b, b)
  {
  }

  lemma {:induction false} RunGrows(run: seq<Bus>, t: nat, u: nat)
    requires IsRun(run) && t <= u < |run|
    ensures Grown(run[t], run[u])
    decreases u - t
  {
    if t < u {
      RunGrows(run, t, u - 1);
      RunGrowsNext(run, t, u);
    } else {
      GrownSame(run[t]);
    }
  }

  /** Said of a whole run: an event accepted when the handler had been registered (moment `s`) and before
      the bus was stopped (moment `t`) has been handed to it once the dispatcher has exited. */
  lemma DrainedInRun(run: seq<Bus>, s: nat, t: nat, u: nat, j: nat, k: nat)
    requires IsRun(run) && s <= t <= u < |run| && !run[t].stopped && run[u].dispatcher.Exited?
    requires |run[s].accepted| <= j < |run[t].accepted| && k < |run[s].handlers|
    ensures Handled(run[s].handlers[k], run[t].accepted[j]) in run[u].log
  {
    RunGrows(run, s, u);
    RunGrows(run, t, u);
    Prefix(run, u);
    Lengths(run, s);
    Lengths(run, u);
    DrainedBeforeExit(run[u], j, k);
  }

  lemma Prefix(run: seq<Bus>, u: nat)
    requires IsRun(run) && u < |run|
    ensures Reachable(run[u])
  {
    var part := run[..u + 1];
    forall t | 0 <= t < |part| - 1
      ensures Next(part[t], part[t + 1])
    {
      assert Next(run[t], run[t + 1]);
    }
    assert IsRun(part) && part[|part| - 1] == run[u];
  }

  lemma Lengths(run: seq<Bus>, t: nat)
    requires IsRun(run) && t < |run|
    ensures |run[t].registeredAt| == |run[t].accepted| && (run[t].dispatcher.Exited? ==> run[t].stopped)
  {
    RunInv(run, t);
  }

  /** A bus is stopped only by a Stop, and until then the dispatcher lives and no event is dropped. */
  lemma OnlyStopStops(b: Bus, e: Event)
    requires Reachable(b) && b.stoppers == []
    ensures !b.stopped && !b.dispatcher.Draining? && !b.dispatcher.Exited? && !Enabled(b, Drop(e))
  {
    ReachableInv(b);
  }

  /** A Stop closes the handlers there are when it finds the dispatcher gone, one by one, and once. */
  lemma StopperAdvances(b: Bus, a: Action, j: nat)
    requires Reachable(b) && Enabled(b, a) && j < |b.stoppers|
    ensures j < |Apply(b, a).stoppers|
    ensures Apply(b, a).stoppers[j] == b.stoppers[j] ||
      match b.stoppers[j]
      case AwaitDispatcher => b.dispatcher.Exited? && Apply(b, a).stoppers[j] == ClosingHandlers(b.handlers, 0)
      case ClosingHandlers(hs, k) =>
        if k < |hs| then Apply(b, a).stoppers[j] == ClosingHandlers(hs, k + 1) && Apply(b, a).log == b.log + [Closed(hs[k])]
        else Apply(b, a).stoppers[j] == StopReturned
      case StopReturned => false
  {
    ReachableInv(b);
  }

  /** The log is exact: up to the first Close it is the dispatched events in order, each
      handed once to each handler of its snapshot in registration order. */
  lemma LogIsExact(b: Bus)
    requires Reachable(b) && (b.dispatcher.Idle? || b.dispatcher.Draining? || b.dispatcher.Exited?)
    ensures |b.snapshots| == |b.dispatched|
    ensures Deliveries(b.dispatched, b.snapshots, |b.dispatched|) <= b.log
    ensures forall i :: |Deliveries(b.dispatched, b.snapshots, |b.dispatched|)| <= i < |b.log| ==> b.log[i].Closed?
  {
    ReachableInv(b);
  }

  predicate DispatcherAction(a: Action) {
    a.Receive? || a.CopyHandlers? || a.Deliver? || a.EndDelivery? || a.SeeStop? || a.Exit?
  }

  function DispatcherMove(b: Bus): Action {
    match b.dispatcher
    case Got(_, _) => CopyHandlers
    case Delivering(_, hs, k, _) => if k < |hs| then Deliver else EndDelivery
    case Idle => if b.buffer != [] then Receive else SeeStop
    case _ => if b.buffer != [] then Receive else Exit
  }

  lemma DispatcherCanMove(b: Bus)
    requires DispatcherInv(b) && !b.dispatcher.Exited? && (b.dispatcher.Idle? ==> b.buffer != [] || b.stopped)
    ensures Enabled(b, DispatcherMove(b)) && DispatcherAction(DispatcherMove(b))
  {
  }

  /** Publish never blocks for good.  After Stop it can always return; before, it is held up
      only by a full buffer, or an unbuffered bus whose dispatcher is busy, and then the
      dispatcher can move. */
  lemma PublishNotBlockedForever(b: Bus, e: Event)
    requires Reachable(b)
    ensures b.stopped ==> Enabled(b, Drop(e))
    ensures Enabled(b, Accept(e)) || Enabled(b, HandOver(e)) || Enabled(b, Drop(e)) || Enabled(b, DispatcherMove(b))
  {
    ReachableInv(b);
    if !b.stopped && !(b.dispatcher.Idle? && b.buffer == []) {
      DispatcherCanMove(b);
    }
  }

  /** Stop is never stuck: once stopCh is closed the dispatcher can move until it has exited,
      and after that every pending Stop can. */
  lemma StopNotStuck(b: Bus, j: nat)
    requires Reachable(b) && j < |b.stoppers| && !b.stoppers[j].StopReturned?
    ensures !b.dispatcher.Exited? ==> Enabled(b, DispatcherMove(b)) && DispatcherAction(DispatcherMove(b))
    ensures b.dispatcher.Exited? ==> Enabled(b, CopyForClose(j)) || Enabled(b, CloseNext(j)) || Enabled(b, EndStop(j))
  {
    ReachableInv(b);
  }

  function Pace(d: Dispatcher, handlers: nat): nat {
    match d
    case Idle => 2
    case Got(_, _) => 4 + handlers
    case Delivering(_, hs, k, _) => 3 + if k <= |hs| then |hs| - k else 0
    case Draining => 1
    case Exited => 0
  }

  /** What the dispatcher still has to do if nothing more is published. */
  function Work(b: Bus): nat {
    |b.buffer| * (4 + |b.handlers|) + Pace(b.dispatcher, |b.handlers|)
  }

  lemma OneLess(n: nat, m: nat)
    requires n > 0
    ensures (n - 1) * m + m == n * m
  {
  }

  lemma ReceiveProgresses(b: Bus)
    requires Enabled(b, Receive)
    ensures Work(Apply(b, Receive)) < Work(b)
  {
    var b' := Apply(b, Receive);
    assert |b'.buffer| == |b.buffer| - 1 && b'.handlers == b.handlers;
    assert Pace(b'.dispatcher, |b.handlers|) == 4 + |b.handlers| && Pace(b.dispatcher, |b.handlers|) >= 1;
    OneLess(|b.buffer|, 4 + |b.handlers|);
  }

  /** Draining ends: every dispatcher action uses up work that only publishing and
      registering can add. */
  lemma DispatcherProgresses(b: Bus, a: Action)
    requires Reachable(b) && Enabled(b, a) && DispatcherAction(a)
    ensures Work(Apply(b, a)) < Work(b)
  {
    ReachableInv(b);
    if a.Receive? {
      ReceiveProgresses(b);
    } else {
      PaceDrops(b, a);
      LessWork(b, Apply(b, a));
    }
  }

  lemma LessWork(b: Bus, b': Bus)
    requires b'.buffer == b.buffer && b'.handlers == b.handlers
    requires Pace(b'.dispatcher, |b.handlers|) < Pace(b.dispatcher, |b.handlers|)
    ensures Work(b') < Work(b)
  {
  }

  lemma PaceDrops(b: Bus, a: Action)
    requires DispatcherInv(b) && Enabled(b, a) && DispatcherAction(a) && !a.Receive?
    ensures Apply(b, a).buffer == b.buffer && Apply(b, a).handlers == b.handlers
    ensures Pace(Apply(b, a).dispatcher, |b.handlers|) < Pace(b.dispatcher, |b.handlers|)
  {
  }

  // ---------------------------------------------------------------- the object

  lemma ReachableNext(b: Bus, a: Action)
    requires Reachable(b) && Enabled(b, a)
    ensures Reachable(Apply(b, a))
  {
    var run :| IsRun(run) && run[|run| - 1] == b;
    var longer := run + [Apply(b, a)];
    forall t | 0 <= t < |longer| - 1
      ensures Next(longer[t], longer[t + 1])
    {
      if t < |run| - 1 { assert Next(run[t], run[t + 1]); }
    }
    assert IsRun(longer);
  }

  function ClosesOf(hs: seq<Handler>, k: nat): (notes: seq<Note>)
    requires k <= |hs|
    ensures |notes| == k && forall i :: 0 <= i < k ==> notes[i] == Closed(hs[i])
  {
    seq(k, i requires 0 <= i < k => Closed(hs[i]))
  }

  /** The bus as its callers see it; what the dispatcher does meanwhile is up to the scheduler. */
  class EventBus {
    var bus: Bus

    ghost predicate Valid()
      reads this
    {
      Reachable(bus)
    }

    constructor (capacity: nat)
      ensures Valid() && bus == Initial(capacity)
    {
      bus := Initial(capacity);
      assert IsRun([Initial(capacity)]);
    }

    method Step(a: Action)
      requires Valid() && Enabled(bus, a)
      modifies this
      ensures Valid() && bus == Apply(old(bus), a)
    {
      ReachableNext(bus, a);
      bus := Apply(bus, a);
    }

    method Register(h: Handler)
      requires Valid()
      modifies this
      ensures Valid() && bus == old(bus).(handlers := old(bus).handlers + [h])
    {
      Step(Action.Register(h));
    }

    /** One move of the dispatcher; a select with two ready cases may take either. */
    method DispatcherStep()
      requires Valid() && !bus.dispatcher.Exited? && (bus.dispatcher.Idle? ==> bus.buffer != [] || bus.stopped)
      modifies this
      ensures Valid() && Work(bus) < Work(old(bus))
      ensures bus.accepted == old(bus).accepted && bus.handlers == old(bus).handlers && bus.capacity == old(bus).capacity
      ensures bus.stopped == old(bus).stopped && bus.stoppers == old(bus).stoppers && old(bus).log <= bus.log
      ensures bus.dispatcher.Exited? ==> bus.buffer == []
    {
      ReachableInv(bus);
      var stopFirst: bool := *;
      var a := if stopFirst && Enabled(bus, SeeStop) then SeeStop else DispatcherMove(bus);
      DispatcherProgresses(bus, a);
      Step(a);
    }

    /** Waits while the buffer is full; gives up only when the bus has been stopped. */
    method Publish(e: Event) returns (sent: bool)
      requires Valid()
      modifies this
      ensures Valid() && bus.stopped == old(bus).stopped && bus.handlers == old(bus).handlers
      ensures bus.accepted == if sent then old(bus).accepted + [e] else old(bus).accepted
      ensures !sent ==> bus.stopped
    {
      while !Enabled(bus, Accept(e)) && !Enabled(bus, HandOver(e)) && !bus.stopped
        invariant Valid() && bus.accepted == old(bus).accepted && bus.handlers == old(bus).handlers
        invariant bus.stopped == old(bus).stopped
        decreases Work(bus)
      {
        ReachableInv(bus);
        DispatcherStep();
      }
      var giveUp: bool := *;
      if bus.stopped && (giveUp || (!Enabled(bus, Accept(e)) && !Enabled(bus, HandOver(e)))) {
        return false;
      }
      if Enabled(bus, Accept(e)) { Step(Accept(e)); } else { Step(HandOver(e)); }
      return true;
    }

    /** Ends the dispatcher after it has drained the buffer, then closes every handler once. */
    method Stop()
      requires Valid()
      modifies this
      ensures Valid() && bus.stopped && bus.dispatcher.Exited?
      ensures bus.accepted == old(bus).accepted && bus.handlers == old(bus).handlers
      ensures !old(bus).dispatcher.Exited? ==> bus.dispatched == bus.accepted
      ensures |bus.log| >= |old(bus).log| + |bus.handlers| && old(bus).log <= bus.log
      ensures bus.log[|bus.log| - |bus.handlers|..] == ClosesOf(bus.handlers, |bus.handlers|)
    {
      Step(CallStop);
      var j := |bus.stoppers| - 1;
      while !bus.dispatcher.Exited?
        invariant Valid() && bus.stopped && |bus.stoppers| == j + 1 && bus.stoppers[j].AwaitDispatcher?
        invariant bus.accepted == old(bus).accepted && bus.handlers == old(bus).handlers && old(bus).log <= bus.log
        invariant bus.dispatcher.Exited? && !old(bus).dispatcher.Exited? ==> bus.buffer == []
        decreases Work(bus)
      {
        DispatcherStep();
      }
      NothingLost(bus);
      CloseHandlers(j);
    }

    /** Lines 102-108 for the j-th pending Stop. */
    method CloseHandlers(j: nat)
      requires Valid() && bus.dispatcher.Exited? && j < |bus.stoppers| && bus.stoppers[j].AwaitDispatcher?
      modifies this
      ensures Valid() && bus.log == old(bus).log + ClosesOf(old(bus).handlers, |old(bus).handlers|)
      ensures bus == old(bus).(log := bus.log, stoppers := bus.stoppers)
    {
      var start := bus;
      var hs := bus.handlers;
      Step(CopyForClose(j));
      assert start.log + ClosesOf(hs, 0) == start.log;
      assert bus == Closing(start, j, hs, 0);
      for k := 0 to |hs|
        invariant Valid() && bus == Closing(start, j, hs, k)
      {
        ClosingMore(start, j, hs, k);
        Step(CloseNext(j));
      }
      Step(EndStop(j));
    }
  }

  /** The bus while the j-th Stop has closed the first `k` handlers. */
  function Closing(start: Bus, j: nat, hs: seq<Handler>, k: nat): Bus
    requires j < |start.stoppers| && k <= |hs|
  {
    start.(log := start.log + ClosesOf(hs, k), stoppers := start.stoppers[j := ClosingHandlers(hs, k)])
  }

  lemma ClosingMore(start: Bus, j: nat, hs: seq<Handler>, k: nat)
    requires j < |start.stoppers| && k < |hs|
    ensures Enabled(Closing(start, j, hs, k), CloseNext(j))
    ensures Apply(Closing(start, j, hs, k), CloseNext(j)) == Closing(start, j, hs, k + 1)
  {
    ClosesMore(start.log, hs, k);
    assert start.stoppers[j := ClosingHandlers(hs, k)][j := ClosingHandlers(hs, k + 1)] == start.stoppers[j := ClosingHandlers(hs, k + 1)];
  }

  lemma ClosesMore(log: seq<Note>, hs: seq<Handler>, k: nat)
    requires k < |hs|
    ensures log + ClosesOf(hs, k + 1) == (log + ClosesOf(hs, k)) + [Closed(hs[k])]
  {
  }
}
