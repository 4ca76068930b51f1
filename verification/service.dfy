/**
 * The dispatch service: listener registration on named channels, the cache
 * of opened queues, and the worker loop that sweeps the queues round-robin,
 * claims one message per queue and hands it to the listeners.
 *
 * The loop runs under one clock reading `env.now`. Handles are minted by
 * `env.mint(call, i)` and store failures are injected per adapter call by
 * `env.fault(call)`, where `call` numbers the adapter calls of one run.
 */
module Service {
  import opened Wrappers
  import opened Tables
  import opened DbTable
  import opened MessageEvent
  import opened ReceiveFacts

  // ---------------------------------------------------------------------
  // Channels and listeners
  // ---------------------------------------------------------------------

  /** What a handler does with a message: returns true, returns anything else, or throws. */
  datatype Reaction = Ack | Other | Throws

  type Handler = QueueMessage -> Reaction

  /** A handler registered through addListener, wrapped in the acknowledge logic. */
  datatype Listener = Wrapped(handler: Handler)

  /** Listeners by channel name, in registration order. */
  type Channels = map<string, seq<Listener>>

  /** The channel every message is offered on unless a queue's own listener consumed it. */
  const GLOBAL_CHANNEL: string := "message"

  /** The channel of one queue's messages. */
  function QueueChannel(queue: string): string {
    GLOBAL_CHANNEL + "." + queue
  }

  /** Queue channels are never the global channel, and different queues have different channels. */
  lemma ChannelsApart(q1: string, q2: string)
    ensures QueueChannel(q1) != GLOBAL_CHANNEL
    ensures QueueChannel(q1) == QueueChannel(q2) ==> q1 == q2
  {
    assert |QueueChannel(q1)| == |GLOBAL_CHANNEL| + 1 + |q1|;
    if QueueChannel(q1) == QueueChannel(q2) {
      assert q1 == QueueChannel(q1)[|GLOBAL_CHANNEL| + 1..];
      assert q2 == QueueChannel(q2)[|GLOBAL_CHANNEL| + 1..];
    }
  }

  function ListenersOf(ch: Channels, name: string): seq<Listener> {
    if name in ch then ch[name] else []
  }

  /**
   * The first argument of addListener: a string is always a queue name, and
   * anything else is taken as the handler itself.
   */
  datatype Subject = QueueName(name: string) | Callable(handler: Handler)

  datatype ListenerError = InvalidCallback

  /** The channel a subject subscribes to. */
  function SubjectChannel(s: Subject): string {
    match s
    case QueueName(q) => QueueChannel(q)
    case Callable(_) => GLOBAL_CHANNEL
  }

  /**
   * Registers a wrapped handler at the end of the subject's channel. A queue
   * name without a handler is rejected; a callable subject is its own
   * handler, and a second argument is then ignored.
   */
  function AddListener(ch: Channels, subject: Subject, listener: Option<Handler>): (r: Result<Channels, ListenerError>)
    ensures r.Failure? <==> subject.QueueName? && listener.None?
    ensures r.Success? ==>
      var h := if subject.Callable? then subject.handler else listener.value;
      && ListenersOf(r.value, SubjectChannel(subject)) == ListenersOf(ch, SubjectChannel(subject)) + [Wrapped(h)]
      && forall c :: c != SubjectChannel(subject) ==> ListenersOf(r.value, c) == ListenersOf(ch, c)
  {
    match subject
    case QueueName(q) =>
      if listener.None? then Failure(InvalidCallback)
      else Success(ch[QueueChannel(q) := ListenersOf(ch, QueueChannel(q)) + [Wrapped(listener.value)]])
    case Callable(h) =>
      Success(ch[GLOBAL_CHANNEL := ListenersOf(ch, GLOBAL_CHANNEL) + [Wrapped(h)]])
  }

  /** Handlers on one channel run in the order they were added. */
  lemma AddListenerOrder(ch: Channels, q: string, h1: Handler, h2: Handler)
    ensures var r1 := AddListener(ch, QueueName(q), Some(h1));
      && r1.Success?
      && var r2 := AddListener(r1.value, QueueName(q), Some(h2));
      && r2.Success?
      && ListenersOf(r2.value, QueueChannel(q)) == ListenersOf(ch, QueueChannel(q)) + [Wrapped(h1), Wrapped(h2)]
  {
  }

  // ---------------------------------------------------------------------
  // The service and its environment
  // ---------------------------------------------------------------------

  /** An opened queue: a named binding over the adapter. */
  datatype QueueHandle = QueueHandle(name: string)

  datatype Service = Service(adapter: Adapter, handles: map<string, QueueHandle>, channels: Channels)

  /**
   * What the service cannot see: the clock reading of the run, the handle
   * minted for the `i`-th claim of adapter call `call`, and which store
   * statement of adapter call `call` throws.
   */
  datatype Env = Env(now: int, mint: (nat, nat) -> Token, fault: nat -> Option<nat>)

  /** Every cached handle is bound to the name it is cached under. */
  predicate HandlesNamed(svc: Service) {
    forall n :: n in svc.handles ==> svc.handles[n] == QueueHandle(n)
  }

  /** The lease, in milliseconds, of the claims the worker loop makes. */
  function ProcessLease(): int {
    LeaseMillis(None)
  }

  /** How many messages the worker loop could still claim at `env.now`. */
  function Backlog(svc: Service, env: Env): nat {
    EligibleCount(svc.adapter.store.messages, ProcessLease(), env.now)
  }

  // ---------------------------------------------------------------------
  // openQueue
  // ---------------------------------------------------------------------

  datatype Opened = Opened(result: Result<QueueHandle, QueueError>, svc: Service, calls: nat)

  /**
   * Returns the cached handle; on first use creates the queue (an existing
   * queue is fine, a store failure propagates) and caches a handle.
   */
  function OpenQueue(svc: Service, name: string, env: Env, calls: nat): (r: Opened)
    ensures name in svc.handles ==> r == Opened(Success(svc.handles[name]), svc, calls)
    ensures name !in svc.handles ==> r.calls == calls + 1
    ensures name !in svc.handles && env.fault(calls).None? ==> r.result.Success?
    ensures r.result.Failure? ==> r.svc == svc
    ensures name !in svc.handles && r.result.Success? ==>
      && r.result.value == QueueHandle(name)
      && r.svc.handles == svc.handles[name := QueueHandle(name)]
      && QueueExists(r.svc.adapter.store, name)
    ensures HandlesNamed(svc) ==> HandlesNamed(r.svc)
    ensures r.svc.channels == svc.channels
    ensures r.svc.adapter.store.messages == svc.adapter.store.messages
    ensures KeepsQueues(svc.adapter.store.queues, r.svc.adapter.store.queues)
  {
    if name in svc.handles then Opened(Success(svc.handles[name]), svc, calls)
    else
      var c := Create(svc.adapter, name, None, env.fault(calls));
      CreateKeepsQueues(svc.adapter, name, None, env.fault(calls));
      if c.result.Failure? then Opened(Failure(c.result.error), svc, calls + 1)
      else
        var h := QueueHandle(name);
        Opened(Success(h), svc.(adapter := c.adapter, handles := svc.handles[name := h]), calls + 1)
  }

  /** A second open of the same name is answered from the cache: same handle, no adapter call. */
  lemma OpenQueueTwice(svc: Service, name: string, env: Env, calls: nat, later: nat)
    requires OpenQueue(svc, name, env, calls).result.Success?
    ensures var first := OpenQueue(svc, name, env, calls);
      OpenQueue(first.svc, name, env, later) == Opened(first.result, first.svc, later)
  {
  }

  // ---------------------------------------------------------------------
  // Triggering listeners
  // ---------------------------------------------------------------------

  /** A message the wrapped handlers can acknowledge: present and still bound to its queue. */
  predicate Deliverable(e: Event) {
    e.message.Some? && e.message.value.queue.Some?
  }

  /** The state after running some listeners, and how many ran. */
  datatype Fired = Fired(svc: Service, event: Event, calls: nat, invoked: nat)

  /** Nothing but the message rows changed. */
  ghost predicate SameSetup(before: Service, after: Service) {
    && after.channels == before.channels
    && after.handles == before.handles
    && after.adapter.names == before.adapter.names
    && after.adapter.queueIds == before.adapter.queueIds
    && after.adapter.store.queues == before.adapter.store.queues
    && after.adapter.store.nextQueueId == before.adapter.store.nextQueueId
    && after.adapter.store.nextMessageId == before.adapter.store.nextMessageId
  }

  /**
   * What an acknowledgement of `m` left behind: when the delete threw, the
   * error was swallowed and nothing changed; otherwise the row is gone and
   * the message no longer refers to its queue.
   */
  ghost predicate AckOutcome(svc: Service, m: QueueMessage, fault: Option<nat>, after: Service, e: Event) {
    if Fails(fault, 0) then after == svc && e.message == Some(m)
    else
      && e.message == Some(m.(queue := None))
      && forall x :: x in after.adapter.store.messages ==> x.id != m.row.id
  }

  /**
   * One wrapped handler: run it on the message; when it answers true, stop
   * propagation and delete the message. A handler exception, and an
   * exception from the delete, are swallowed.
   */
  function Invoke(svc: Service, l: Listener, e: Event, env: Env, calls: nat): (r: Fired)
    requires Deliverable(e)
    ensures r.invoked == 1
    ensures SameSetup(svc, r.svc)
    ensures r.event.name == e.name
    ensures l.handler(e.message.value) != Ack ==> r.svc == svc && r.event == e && r.calls == calls
    ensures l.handler(e.message.value) == Ack ==>
      && r.calls == calls + 1
      && r.event.stopped
      && AckOutcome(svc, e.message.value, env.fault(calls), r.svc, r.event)
    ensures Backlog(r.svc, env) <= Backlog(svc, env)
    ensures Valid(svc.adapter.store) && CacheSound(svc.adapter) ==> Valid(r.svc.adapter.store) && CacheSound(r.svc.adapter)
  {
    var m := e.message.value;
    if l.handler(m) != Ack then Fired(svc, e, calls, 1)
    else
      var stopped := e.(stopped := true);
      var d := DeleteMessage(svc.adapter, m.row, env.fault(calls));
      assert Valid(svc.adapter.store) && CacheSound(svc.adapter) ==> Valid(d.adapter.store) && CacheSound(d.adapter) by {
        if Valid(svc.adapter.store) && CacheSound(svc.adapter) {
          DeletePreservesValid(svc.adapter, m.row, env.fault(calls));
        }
      }
      if d.result.Failure? then Fired(svc, stopped, calls + 1, 1)
      else
        DeleteEligibleCount(svc.adapter.store.messages, m.row.id, ProcessLease(), env.now);
        Fired(svc.(adapter := d.adapter), SetMessage(stopped, m.(queue := None)), calls + 1, 1)
  }

  /**
   * Runs the listeners in order, each after the one before, and stops after
   * the first that leaves propagation stopped. Only an acknowledgement makes
   * an adapter call, and it ends the run.
   */
  function Fire(svc: Service, ls: seq<Listener>, e: Event, env: Env, calls: nat): (r: Fired)
    requires Deliverable(e)
    ensures r.invoked <= |ls|
    ensures SameSetup(svc, r.svc)
    ensures r.event.name == e.name
    ensures Backlog(r.svc, env) <= Backlog(svc, env)
    ensures Valid(svc.adapter.store) && CacheSound(svc.adapter) ==> Valid(r.svc.adapter.store) && CacheSound(r.svc.adapter)
    // no acknowledgement: nothing changed
    ensures r.calls == calls ==> r.svc == svc && r.event.message == e.message && r.event.stopped == e.stopped
    // an acknowledgement: it came from the last listener that ran
    ensures r.calls != calls ==>
      && r.calls == calls + 1
      && r.event.stopped
      && 0 < r.invoked && ls[r.invoked - 1].handler(e.message.value) == Ack
      && AckOutcome(svc, e.message.value, env.fault(calls), r.svc, r.event)
    // a live event: every listener runs until the first acknowledgement
    ensures !e.stopped ==> forall i :: 0 <= i < r.invoked - 1 ==> ls[i].handler(e.message.value) != Ack
    ensures !e.stopped ==> (r.calls == calls <==> forall i :: 0 <= i < |ls| ==> ls[i].handler(e.message.value) != Ack)
    ensures !e.stopped && r.calls == calls ==> r.invoked == |ls|
    // an event already stopped: the first listener still runs, and is the last
    ensures e.stopped ==> r.invoked == (if |ls| == 0 then 0 else 1)
    decreases |ls|
  {
    if |ls| == 0 then Fired(svc, e, calls, 0)
    else
      var first := Invoke(svc, ls[0], e, env, calls);
      if first.event.stopped then first
      else
        var rest := Fire(first.svc, ls[1..], first.event, env, first.calls);
        assert forall i :: 1 <= i < |ls| ==> ls[i] == ls[1..][i - 1];
        rest.(invoked := rest.invoked + 1)
  }

  /** Triggers a channel: names the event after it and runs its listeners. */
  function Trigger(svc: Service, channel: string, e: Event, env: Env, calls: nat): Fired
    requires Deliverable(e)
  {
    Fire(svc, ListenersOf(svc.channels, channel), e.(name := channel), env, calls)
  }

  // ---------------------------------------------------------------------
  // process
  // ---------------------------------------------------------------------

  /** The handles minted for the claims of adapter call `calls`. */
  function MintFor(env: Env, calls: nat): nat -> Token {
    (i: nat) => env.mint(calls, i)
  }

  /** The loop's receive: one message, the default lease, at the run's clock reading. */
  function ReceiveOne(svc: Service, name: string, env: Env, calls: nat): Outcome<seq<MessageRow>> {
    Receive(svc.adapter, Some(1), None, name, env.now, MintFor(env, calls), NoInterference, env.fault(calls))
  }

  /**
   * One queue's turn in a sweep: it came up empty, or a message was
   * received and offered, with `globalFired` telling whether it also went
   * to the global channel.
   */
  datatype Visit = Idle(queue: string) | Delivered(queue: string, message: MessageRow, globalFired: bool)

  datatype Stepped = Stepped(result: Result<Visit, QueueError>, svc: Service, calls: nat)

  /**
   * Offers a received message: to the queue's channel, and then to the
   * global channel unless a queue listener deleted it.
   */
  function Offer(svc: Service, name: string, row: MessageRow, env: Env, calls: nat): (r: Stepped)
    ensures r.result.Success? && r.result.value.Delivered?
    ensures r.result.value.queue == name && r.result.value.message == row
    ensures r.calls >= calls
    ensures SameSetup(svc, r.svc)
    ensures Backlog(r.svc, env) <= Backlog(svc, env)
    ensures Valid(svc.adapter.store) && CacheSound(svc.adapter) ==> Valid(r.svc.adapter.store) && CacheSound(r.svc.adapter)
    // kept from the global channel only when a queue listener acknowledged and deleted it
    ensures !r.result.value.globalFired ==>
      && (exists l :: l in ListenersOf(svc.channels, QueueChannel(name)) && l.handler(QueueMessage(row, Some(name))) == Ack)
      && forall x :: x in r.svc.adapter.store.messages ==> x.id != row.id
    ensures (forall l :: l in ListenersOf(svc.channels, QueueChannel(name)) ==> l.handler(QueueMessage(row, Some(name))) != Ack) ==>
      r.result.value.globalFired
    // and always kept from it when a queue listener acknowledged and the delete went through
    ensures (exists l :: l in ListenersOf(svc.channels, QueueChannel(name)) && l.handler(QueueMessage(row, Some(name))) == Ack) ==>
      !Fails(env.fault(calls), 0) ==> !r.result.value.globalFired
    ensures !r.result.value.globalFired ==> !Fails(env.fault(calls), 0)
  {
    var e := SetMessage(NewEvent(), QueueMessage(row, Some(name)));
    var t1 := Trigger(svc, QueueChannel(name), e, env, calls);
    if t1.event.message.value.queue.Some? then
      var t2 := Trigger(t1.svc, GLOBAL_CHANNEL, t1.event, env, t1.calls);
      Stepped(Success(Delivered(name, row, true)), t2.svc, t2.calls)
    else
      var ls := ListenersOf(svc.channels, QueueChannel(name));
      assert ls[t1.invoked - 1] in ls;
      Stepped(Success(Delivered(name, row, false)), t1.svc, t1.calls)
  }

  /** Receives at most one message from `name` and offers it. */
  function Deliver(svc: Service, name: string, env: Env, calls: nat): (r: Stepped)
    ensures r.calls > calls
    ensures r.svc.channels == svc.channels && r.svc.handles == svc.handles
    ensures r.result.Failure? ==> r.svc == svc
    ensures r.result.Success? ==> r.result.value.queue == name
    ensures KeepsQueues(svc.adapter.store.queues, r.svc.adapter.store.queues)
    ensures Backlog(r.svc, env) + (if r.result.Success? && r.result.value.Delivered? then 1 else 0) <= Backlog(svc, env)
    ensures Valid(svc.adapter.store) && CacheSound(svc.adapter) ==> Valid(r.svc.adapter.store) && CacheSound(r.svc.adapter)
  {
    var rcv := ReceiveOne(svc, name, env, calls);
    if rcv.result.Failure? then Stepped(Failure(rcv.result.error), svc, calls + 1)
    else
      LoopReceiveFacts(svc, name, env, calls);
      var s1 := svc.(adapter := rcv.adapter);
      if |rcv.result.value| == 0 then Stepped(Success(Idle(name)), s1, calls + 1)
      else Offer(s1, name, rcv.result.value[0], env, calls + 1)
  }

  /** What the loop's receive does to the service: fewer claimable rows, queues kept, integrity kept. */
  lemma LoopReceiveFacts(svc: Service, name: string, env: Env, calls: nat)
    requires ReceiveOne(svc, name, env, calls).result.Success?
    ensures var rcv := ReceiveOne(svc, name, env, calls);
      && |rcv.result.value| <= 1
      && EligibleCount(rcv.adapter.store.messages, ProcessLease(), env.now) + |rcv.result.value| <= Backlog(svc, env)
      && KeepsQueues(svc.adapter.store.queues, rcv.adapter.store.queues)
      && (Valid(svc.adapter.store) && CacheSound(svc.adapter) ==> Valid(rcv.adapter.store) && CacheSound(rcv.adapter))
  {
    ReceiveDropsEligible(svc.adapter, Some(1), None, name, env.now, MintFor(env, calls), env.fault(calls));
    ReceiveSuccessShape(svc.adapter, Some(1), None, name, env.now, MintFor(env, calls), NoInterference, env.fault(calls));
    WatermarkKeepsQueues(svc.adapter.store.queues, TargetId(svc.adapter, name), env.now);
    if Valid(svc.adapter.store) && CacheSound(svc.adapter) {
      ReceivePreservesValid(svc.adapter, Some(1), None, name, env.now, MintFor(env, calls), env.fault(calls));
    }
  }

  /** A delivered message was claimable in its queue at the run's clock reading, and was claimed for this worker. */
  lemma DeliverClaimable(svc: Service, name: string, env: Env, calls: nat)
    requires var r := Deliver(svc, name, env, calls); r.result.Success? && r.result.value.Delivered?
    ensures QueueIndex(svc.adapter.store.queues, name).Some?
    ensures var row := Deliver(svc, name, env, calls).result.value.message;
      && row.handle.Some?
      && exists c :: c in svc.adapter.store.messages && c.queueId == IdOf(svc.adapter.store.queues, name)
           && Eligible(c, ProcessLease(), env.now) && row == WithHandle(c, row.handle.value)
  {
    var rcv := ReceiveOne(svc, name, env, calls);
    ReceiveReturnsClaimable(svc.adapter, Some(1), None, name, env.now, MintFor(env, calls), NoInterference, env.fault(calls));
    assert rcv.result.value[0] in rcv.result.value;
  }

  /** A queue that came up empty had nothing claimable, and its turn changed no message row. */
  lemma DeliverIdleDrained(svc: Service, name: string, env: Env, calls: nat)
    requires UniqueMessageIds(svc.adapter.store.messages)
    requires var r := Deliver(svc, name, env, calls); r.result.Success? && r.result.value.Idle?
    ensures var r := Deliver(svc, name, env, calls);
      && r.svc.adapter.store.messages == svc.adapter.store.messages
      && Drained(r.svc.adapter.store, name, env.now)
  {
    var rcv := ReceiveOne(svc, name, env, calls);
    ReceiveEmptyDrained(svc.adapter, Some(1), None, name, env.now, MintFor(env, calls), env.fault(calls));
    LoopReceiveFacts(svc, name, env, calls);
  }

  /** No message of queue `name` can be claimed by the worker loop at `now`. */
  ghost predicate Drained(s: Store, name: string, now: int) {
    && QueueIndex(s.queues, name).Some?
    && forall m :: m in s.messages && m.queueId == IdOf(s.queues, name) ==> !Eligible(m, ProcessLease(), now)
  }

  // ---------------------------------------------------------------------
  // Sweeps
  // ---------------------------------------------------------------------

  function Max(a: int, b: int): int {
    if a >= b then a else b
  }

  /** The number of queue turns that received a message. */
  function DeliveredCount(visits: seq<Visit>): (n: nat)
    ensures n <= |visits|
    ensures n == 0 <==> forall i :: 0 <= i < |visits| ==> visits[i].Idle?
  {
    if |visits| == 0 then 0
    else (if visits[0].Delivered? then 1 else 0) + DeliveredCount(visits[1..])
  }

  /** The visits take the queues in list order, each at most once. */
  predicate InListOrder(visits: seq<Visit>, queues: seq<string>) {
    |visits| <= |queues| && forall i :: 0 <= i < |visits| ==> visits[i].queue == queues[i]
  }

  /** Counting and ordering facts about a visit put in front of others. */
  lemma VisitCons(v: Visit, rest: seq<Visit>, queues: seq<string>)
    requires |queues| > 0 && v.queue == queues[0] && InListOrder(rest, queues[1..])
    ensures DeliveredCount([v] + rest) == (if v.Delivered? then 1 else 0) + DeliveredCount(rest)
    ensures InListOrder([v] + rest, queues)
    ensures |rest| > 0 ==> ([v] + rest)[|rest|] == rest[|rest| - 1]
  {
    assert ([v] + rest)[1..] == rest;
  }

  /** Turns add up: what holds from `a` to `b` and from `b` to `c` holds from `a` to `c`. */
  lemma KeepsQueuesTrans(a: seq<QueueRow>, b: seq<QueueRow>, c: seq<QueueRow>)
    requires KeepsQueues(a, b) && KeepsQueues(b, c)
    ensures KeepsQueues(a, c)
  {
  }

  /** One queue's turn: open it, then receive from it and offer what came. */
  function Turn(svc: Service, name: string, env: Env, calls: nat): (r: Stepped)
    ensures r.result.Success? ==> r.result.value.queue == name
    ensures r.svc.channels == svc.channels
    ensures KeepsQueues(svc.adapter.store.queues, r.svc.adapter.store.queues)
    ensures Backlog(r.svc, env) + (if r.result.Success? && r.result.value.Delivered? then 1 else 0) <= Backlog(svc, env)
    ensures Valid(svc.adapter.store) && CacheSound(svc.adapter) ==> Valid(r.svc.adapter.store) && CacheSound(r.svc.adapter)
  {
    var o := OpenQueue(svc, name, env, calls);
    assert Valid(svc.adapter.store) && CacheSound(svc.adapter) ==> Valid(o.svc.adapter.store) && CacheSound(o.svc.adapter) by {
      if Valid(svc.adapter.store) && CacheSound(svc.adapter) && name !in svc.handles {
        CreatePreservesValid(svc.adapter, name, None, env.fault(calls));
      }
    }
    if o.result.Failure? then Stepped(Failure(o.result.error), o.svc, o.calls)
    else
      var d := Deliver(o.svc, name, env, o.calls);
      KeepsQueuesTrans(svc.adapter.store.queues, o.svc.adapter.store.queues, d.svc.adapter.store.queues);
      d
  }

  datatype SweepResult = SweepResult(result: Result<nat, QueueError>, svc: Service, calls: nat, visits: seq<Visit>)

  /**
   * One pass over the queue list, starting with `received` messages counted:
   * each queue gets its turn; after a message the pass ends as soon as the
   * count reaches `maxMessages`. A store failure ends the pass and the run.
   */
  function Sweep(svc: Service, queues: seq<string>, maxMessages: int, env: Env, calls: nat, received: nat): (r: SweepResult)
    ensures InListOrder(r.visits, queues)
    ensures r.svc.channels == svc.channels
    ensures KeepsQueues(svc.adapter.store.queues, r.svc.adapter.store.queues)
    ensures Backlog(r.svc, env) + DeliveredCount(r.visits) <= Backlog(svc, env)
    ensures r.result.Success? ==> r.result.value == received + DeliveredCount(r.visits)
    ensures received + DeliveredCount(r.visits) <= Max(maxMessages, received + 1)
    decreases |queues|
  {
    if |queues| == 0 then SweepResult(Success(received), svc, calls, [])
    else
      var t := Turn(svc, queues[0], env, calls);
      if t.result.Failure? then SweepResult(Failure(t.result.error), t.svc, t.calls, [])
      else
        var v := t.result.value;
        if v.Delivered? && received + 1 >= maxMessages then
          assert DeliveredCount([v]) == 1 by { assert [v][1..] == []; }
          SweepResult(Success(received + 1), t.svc, t.calls, [v])
        else
          var rest := Sweep(t.svc, queues[1..], maxMessages, env, t.calls, if v.Delivered? then received + 1 else received);
          VisitCons(v, rest.visits, queues);
          KeepsQueuesTrans(svc.adapter.store.queues, t.svc.adapter.store.queues, rest.svc.adapter.store.queues);
          rest.(visits := [v] + rest.visits)
  }

  /** One step of a sweep: the first queue's turn, then either a stop or the rest of the list. */
  lemma SweepStep(svc: Service, queues: seq<string>, maxMessages: int, env: Env, calls: nat, received: nat)
    requires |queues| > 0
    ensures var t := Turn(svc, queues[0], env, calls);
      var r := Sweep(svc, queues, maxMessages, env, calls, received);
      if t.result.Failure? then r == SweepResult(Failure(t.result.error), t.svc, t.calls, [])
      else if t.result.value.Delivered? && received + 1 >= maxMessages then
        r == SweepResult(Success(received + 1), t.svc, t.calls, [t.result.value])
      else
        var rest := Sweep(t.svc, queues[1..], maxMessages, env, t.calls,
                          if t.result.value.Delivered? then received + 1 else received);
        r == rest.(visits := [t.result.value] + rest.visits)
  {
  }

  /** A successful sweep that stopped before the end of its list of `len` queues stopped on the message that reached the limit. */
  predicate CutShortAtLimit(r: SweepResult, len: nat, maxMessages: int) {
    r.result.Success? && |r.visits| < len ==>
      && r.result.value >= maxMessages
      && |r.visits| > 0 && r.visits[|r.visits| - 1].Delivered?
  }

  /** A sweep is cut short only by reaching the limit, right after a message. */
  lemma {:induction false} SweepCutShort(svc: Service, queues: seq<string>, maxMessages: int, env: Env, calls: nat, received: nat)
    ensures CutShortAtLimit(Sweep(svc, queues, maxMessages, env, calls, received), |queues|, maxMessages)
    decreases |queues|
  {
    if |queues| > 0 {
      SweepStep(svc, queues, maxMessages, env, calls, received);
      var t := Turn(svc, queues[0], env, calls);
      if t.result.Success? {
        var v := t.result.value;
        if !(v.Delivered? && received + 1 >= maxMessages) {
          var n := if v.Delivered? then received + 1 else received;
          var rest := Sweep(t.svc, queues[1..], maxMessages, env, t.calls, n);
          SweepCutShort(t.svc, queues[1..], maxMessages, env, t.calls, n);
          CutShortCons(Sweep(svc, queues, maxMessages, env, calls, received), rest, v, |queues|, maxMessages);
        }
      }
    }
  }

  /** A sweep cut short after its first turn was cut short in its rest, and ends as the rest ends. */
  lemma CutShortCons(r: SweepResult, rest: SweepResult, v: Visit, len: nat, maxMessages: int)
    requires len > 0
    requires r == rest.(visits := [v] + rest.visits)
    requires CutShortAtLimit(rest, len - 1, maxMessages)
    ensures CutShortAtLimit(r, len, maxMessages)
  {
    assert |rest.visits| > 0 ==> r.visits[|r.visits| - 1] == rest.visits[|rest.visits| - 1];
  }

  /**
   * No visit but the last is a delivery that brings the count, starting
   * from `received`, to the limit: the sweep ends on the message that
   * reaches it.
   */
  predicate StopsAtLimit(visits: seq<Visit>, received: nat, maxMessages: int) {
    forall i :: 0 <= i < |visits| - 1 && visits[i].Delivered? ==> received + DeliveredCount(visits[..i + 1]) < maxMessages
  }

  /** A sweep takes no turn after the message that reaches the limit. */
  lemma {:induction false} SweepStopsAtLimit(svc: Service, queues: seq<string>, maxMessages: int, env: Env, calls: nat, received: nat)
    ensures StopsAtLimit(Sweep(svc, queues, maxMessages, env, calls, received).visits, received, maxMessages)
    decreases |queues|
  {
    if |queues| > 0 {
      SweepStep(svc, queues, maxMessages, env, calls, received);
      var t := Turn(svc, queues[0], env, calls);
      if t.result.Success? {
        var v := t.result.value;
        if !(v.Delivered? && received + 1 >= maxMessages) {
          var n := if v.Delivered? then received + 1 else received;
          SweepStopsAtLimit(t.svc, queues[1..], maxMessages, env, t.calls, n);
          StopsCons(v, Sweep(t.svc, queues[1..], maxMessages, env, t.calls, n).visits, received, n, maxMessages);
        }
      }
    }
  }

  /** A turn that did not reach the limit, put in front of visits that stop at it. */
  lemma StopsCons(v: Visit, rest: seq<Visit>, received: nat, n: nat, maxMessages: int)
    requires n == received + (if v.Delivered? then 1 else 0)
    requires v.Delivered? ==> n < maxMessages
    requires StopsAtLimit(rest, n, maxMessages)
    ensures StopsAtLimit([v] + rest, received, maxMessages)
  {
    var vs := [v] + rest;
    forall i | 0 <= i < |vs| - 1 && vs[i].Delivered?
      ensures received + DeliveredCount(vs[..i + 1]) < maxMessages
    {
      if i == 0 {
        assert vs[..1] == [v];
        assert [v][1..] == [];
      } else {
        assert vs[..i + 1] == [v] + rest[..i];
        assert ([v] + rest[..i])[1..] == rest[..i];
        assert vs[i] == rest[i - 1];
      }
    }
  }

  /** A sweep keeps the store's keys unique and the adapter's cache sound. */
  lemma {:induction false} SweepPreservesValid(svc: Service, queues: seq<string>, maxMessages: int, env: Env, calls: nat, received: nat)
    requires Valid(svc.adapter.store) && CacheSound(svc.adapter)
    ensures var r := Sweep(svc, queues, maxMessages, env, calls, received);
      Valid(r.svc.adapter.store) && CacheSound(r.svc.adapter)
    decreases |queues|
  {
    if |queues| > 0 {
      var t := Turn(svc, queues[0], env, calls);
      if t.result.Success? && !(t.result.value.Delivered? && received + 1 >= maxMessages) {
        var n := if t.result.value.Delivered? then received + 1 else received;
        SweepPreservesValid(t.svc, queues[1..], maxMessages, env, t.calls, n);
      }
    }
  }

  /** The messages received over a run, sweep by sweep. */
  function Total(sweeps: seq<seq<Visit>>): nat {
    if |sweeps| == 0 then 0 else DeliveredCount(sweeps[0]) + Total(sweeps[1..])
  }

  /** A run of the worker loop: how it ended, the service after it, and every sweep's visits. */
  datatype Run = Run(result: Result<(), QueueError>, svc: Service, calls: nat, sweeps: seq<seq<Visit>>)

  /** Facts about a sweep put in front of later ones. */
  lemma SweepsCons(first: seq<Visit>, rest: seq<seq<Visit>>)
    ensures Total([first] + rest) == DeliveredCount(first) + Total(rest)
    ensures forall i :: 1 <= i < |rest| + 1 ==> ([first] + rest)[i] == rest[i - 1]
  {
    assert ([first] + rest)[1..] == rest;
  }

  /** A sweep that received something, put in front of a run, keeps the run's per-sweep facts. */
  lemma RunCons(first: seq<Visit>, rest: seq<seq<Visit>>, queues: seq<string>, maxMessages: int)
    requires |rest| > 0
    requires InListOrder(first, queues) && 0 < DeliveredCount(first) <= Max(maxMessages, 1)
    requires forall i :: 0 <= i < |rest| ==> InListOrder(rest[i], queues)
    requires forall i :: 0 <= i < |rest| - 1 ==> DeliveredCount(rest[i]) > 0
    requires forall i :: 0 <= i < |rest| ==> DeliveredCount(rest[i]) <= Max(maxMessages, 1)
    ensures var r := [first] + rest;
      && r[|r| - 1] == rest[|rest| - 1]
      && (forall i :: 0 <= i < |r| ==> InListOrder(r[i], queues))
      && (forall i :: 0 <= i < |r| - 1 ==> DeliveredCount(r[i]) > 0)
      && (forall i :: 0 <= i < |r| ==> DeliveredCount(r[i]) <= Max(maxMessages, 1))
  {
    var r := [first] + rest;
    assert forall i :: 1 <= i < |r| ==> r[i] == rest[i - 1];
  }

  /**
   * Sweeps the same queue list again and again, until a sweep receives
   * nothing. The counter starts from zero in every sweep, so `maxMessages`
   * only shortens each sweep. Each repeat claims at least one more message
   * under the fixed clock, which bounds the number of sweeps.
   */
  function Sweeps(svc: Service, queues: seq<string>, maxMessages: int, env: Env, calls: nat): (r: Run)
    ensures 1 <= |r.sweeps| <= Backlog(svc, env) + 1
    ensures forall i :: 0 <= i < |r.sweeps| ==> InListOrder(r.sweeps[i], queues)
    // another sweep follows exactly those that received something
    ensures forall i :: 0 <= i < |r.sweeps| - 1 ==> DeliveredCount(r.sweeps[i]) > 0
    ensures r.result.Success? ==> DeliveredCount(r.sweeps[|r.sweeps| - 1]) == 0
    // no sweep receives more than the limit, or one message if the limit is below one
    ensures forall i :: 0 <= i < |r.sweeps| ==> DeliveredCount(r.sweeps[i]) <= Max(maxMessages, 1)
    ensures Backlog(r.svc, env) + Total(r.sweeps) <= Backlog(svc, env)
    ensures r.svc.channels == svc.channels
    ensures KeepsQueues(svc.adapter.store.queues, r.svc.adapter.store.queues)
    decreases Backlog(svc, env)
  {
    var s := Sweep(svc, queues, maxMessages, env, calls, 0);
    if s.result.Failure? || s.result.value == 0 then
      SweepsCons(s.visits, []);
      Run(if s.result.Failure? then Failure(s.result.error) else Success(()), s.svc, s.calls, [s.visits])
    else
      assert Backlog(s.svc, env) < Backlog(svc, env);
      var rest := Sweeps(s.svc, queues, maxMessages, env, s.calls);
      SweepsCons(s.visits, rest.sweeps);
      RunCons(s.visits, rest.sweeps, queues, maxMessages);
      KeepsQueuesTrans(svc.adapter.store.queues, s.svc.adapter.store.queues, rest.svc.adapter.store.queues);
      Run(rest.result, rest.svc, rest.calls, [s.visits] + rest.sweeps)
  }

  /** The last sweep gave every queue of the list its turn and found each of them empty. */
  predicate EndsIdle(sweeps: seq<seq<Visit>>, queues: seq<string>) {
    && |sweeps| > 0
    && |sweeps[|sweeps| - 1]| == |queues|
    && forall i :: 0 <= i < |queues| ==> sweeps[|sweeps| - 1][i] == Idle(queues[i])
  }

  /** One step of the sweep loop: a sweep, then either the end of the run or the rest of it. */
  lemma SweepsStep(svc: Service, queues: seq<string>, maxMessages: int, env: Env, calls: nat)
    ensures var s := Sweep(svc, queues, maxMessages, env, calls, 0);
      var r := Sweeps(svc, queues, maxMessages, env, calls);
      if s.result.Failure? || s.result.value == 0 then
        r.sweeps == [s.visits] && r.result.Success? == s.result.Success?
      else
        var rest := Sweeps(s.svc, queues, maxMessages, env, s.calls);
        r.sweeps == [s.visits] + rest.sweeps && r.result == rest.result
  {
  }

  /** A full sweep that received nothing, as the last sweep of a run. */
  lemma IdleSweepEndsIdle(visits: seq<Visit>, queues: seq<string>)
    requires InListOrder(visits, queues) && |visits| == |queues| && DeliveredCount(visits) == 0
    ensures EndsIdle([visits], queues)
  {
  }

  /** Sweeps put in front of a run keep its last sweep. */
  lemma EndsIdleCons(first: seq<Visit>, rest: seq<seq<Visit>>, queues: seq<string>)
    requires EndsIdle(rest, queues)
    ensures EndsIdle([first] + rest, queues)
  {
    assert ([first] + rest)[|rest|] == rest[|rest| - 1];
  }

  /** A run that ends normally ends with a sweep that found every queue empty. */
  lemma {:induction false} SweepsEndFull(svc: Service, queues: seq<string>, maxMessages: int, env: Env, calls: nat)
    requires Sweeps(svc, queues, maxMessages, env, calls).result.Success?
    ensures EndsIdle(Sweeps(svc, queues, maxMessages, env, calls).sweeps, queues)
    decreases Backlog(svc, env)
  {
    var s := Sweep(svc, queues, maxMessages, env, calls, 0);
    SweepsStep(svc, queues, maxMessages, env, calls);
    if s.result.Failure? || s.result.value == 0 {
      assert s.result.Success? && DeliveredCount(s.visits) == 0;
      if |s.visits| < |queues| {
        SweepCutShort(svc, queues, maxMessages, env, calls, 0);
        assert false;
      }
      IdleSweepEndsIdle(s.visits, queues);
    } else {
      assert Backlog(s.svc, env) < Backlog(svc, env);
      SweepsEndFull(s.svc, queues, maxMessages, env, s.calls);
      EndsIdleCons(s.visits, Sweeps(s.svc, queues, maxMessages, env, s.calls).sweeps, queues);
    }
  }

  /**
   * process(maxMessages): lists the queues once (adapter call 0), then runs
   * the sweeps over that list.
   */
  function Process(svc: Service, maxMessages: int, env: Env): (r: Run)
    // a failed listing ends the call, with the adapter's name-to-id cache emptied
    ensures Fails(env.fault(0), 0) ==> r == Run(Failure(StoreFailure), svc.(adapter := svc.adapter.(queueIds := map[])), 1, [])
    ensures !Fails(env.fault(0), 0) ==> 1 <= |r.sweeps| <= Backlog(svc, env) + 1
    // every sweep takes the listed queues in order, each at most once
    ensures forall i :: 0 <= i < |r.sweeps| ==> InListOrder(r.sweeps[i], GetQueues(svc.adapter, None).result.value)
    ensures forall i :: 0 <= i < |r.sweeps| ==> DeliveredCount(r.sweeps[i]) <= Max(maxMessages, 1)
    ensures forall i :: 0 <= i < |r.sweeps| - 1 ==> DeliveredCount(r.sweeps[i]) > 0
    ensures Backlog(r.svc, env) + Total(r.sweeps) <= Backlog(svc, env)
    ensures r.svc.channels == svc.channels
  {
    var g := GetQueues(svc.adapter, env.fault(0));
    if g.result.Failure? then Run(Failure(g.result.error), svc.(adapter := g.adapter), 1, [])
    else
      Sweeps(svc.(adapter := g.adapter), g.result.value, maxMessages, env, 1)
  }

  /** Once the listing succeeds, process is the sweep loop over the listed names. */
  lemma ProcessRunsSweeps(svc: Service, maxMessages: int, env: Env)
    requires !Fails(env.fault(0), 0)
    ensures var g := GetQueues(svc.adapter, None);
      Process(svc, maxMessages, env) == Sweeps(svc.(adapter := g.adapter), g.result.value, maxMessages, env, 1)
  {
    assert GetQueues(svc.adapter, env.fault(0)) == GetQueues(svc.adapter, None);
  }

  /** A normal return follows a sweep that found every listed queue empty. */
  lemma ProcessEndsIdle(svc: Service, maxMessages: int, env: Env)
    requires Process(svc, maxMessages, env).result.Success?
    ensures EndsIdle(Process(svc, maxMessages, env).sweeps, GetQueues(svc.adapter, None).result.value)
  {
    var g := GetQueues(svc.adapter, None);
    ProcessRunsSweeps(svc, maxMessages, env);
    SweepsEndFull(svc.(adapter := g.adapter), g.result.value, maxMessages, env, 1);
  }

  // ---------------------------------------------------------------------
  // Draining
  // ---------------------------------------------------------------------

  /** Being drained survives changes that keep the message rows and the queues' ids. */
  lemma DrainedKept(s1: Store, s2: Store, name: string, now: int)
    requires Drained(s1, name, now)
    requires s2.messages == s1.messages && KeepsQueues(s1.queues, s2.queues)
    ensures Drained(s2, name, now)
  {
  }

  /** A turn that found its queue empty left it drained and changed no message row. */
  lemma TurnIdleDrains(svc: Service, name: string, env: Env, calls: nat)
    requires UniqueMessageIds(svc.adapter.store.messages)
    requires var t := Turn(svc, name, env, calls); t.result.Success? && t.result.value.Idle?
    ensures var t := Turn(svc, name, env, calls);
      t.svc.adapter.store.messages == svc.adapter.store.messages && Drained(t.svc.adapter.store, name, env.now)
  {
    var o := OpenQueue(svc, name, env, calls);
    DeliverIdleDrained(o.svc, name, env, o.calls);
  }

  /**
   * A sweep that took every queue and received nothing changed no message
   * row and leaves every queue of the list drained.
   */
  lemma {:induction false} IdleSweepDrains(svc: Service, queues: seq<string>, maxMessages: int, env: Env, calls: nat, received: nat)
    requires UniqueMessageIds(svc.adapter.store.messages)
    requires var r := Sweep(svc, queues, maxMessages, env, calls, received);
      r.result.Success? && |r.visits| == |queues| && DeliveredCount(r.visits) == 0
    ensures var r := Sweep(svc, queues, maxMessages, env, calls, received);
      && r.svc.adapter.store.messages == svc.adapter.store.messages
      && forall i :: 0 <= i < |queues| ==> Drained(r.svc.adapter.store, queues[i], env.now)
    decreases |queues|
  {
    if |queues| > 0 {
      var r := Sweep(svc, queues, maxMessages, env, calls, received);
      SweepStep(svc, queues, maxMessages, env, calls, received);
      var t := Turn(svc, queues[0], env, calls);
      var v := t.result.value;
      assert r.visits[0] == v;
      assert v.Idle?;
      TurnIdleDrains(svc, queues[0], env, calls);
      var rest := Sweep(t.svc, queues[1..], maxMessages, env, t.calls, received);
      VisitCons(v, rest.visits, queues);
      assert rest.result.Success? && |rest.visits| == |queues[1..]| && DeliveredCount(rest.visits) == 0;
      IdleSweepDrains(t.svc, queues[1..], maxMessages, env, t.calls, received);
      DrainedKept(t.svc.adapter.store, rest.svc.adapter.store, queues[0], env.now);
      DrainedCons(rest.svc.adapter.store, queues, env.now);
    }
  }

  /** A store that drained the first queue of a list and each of the others drained them all. */
  lemma DrainedCons(st: Store, queues: seq<string>, now: int)
    requires |queues| > 0 && Drained(st, queues[0], now)
    requires forall i :: 0 <= i < |queues[1..]| ==> Drained(st, queues[1..][i], now)
    ensures forall i :: 0 <= i < |queues| ==> Drained(st, queues[i], now)
  {
    forall i | 0 < i < |queues| ensures Drained(st, queues[i], now) {
      assert queues[i] == queues[1..][i - 1];
    }
  }

  /** A run that ends normally leaves every queue of its list drained. */
  lemma {:induction false} SweepsDrain(svc: Service, queues: seq<string>, maxMessages: int, env: Env, calls: nat)
    requires Valid(svc.adapter.store) && CacheSound(svc.adapter)
    requires Sweeps(svc, queues, maxMessages, env, calls).result.Success?
    ensures var r := Sweeps(svc, queues, maxMessages, env, calls);
      forall i :: 0 <= i < |queues| ==> Drained(r.svc.adapter.store, queues[i], env.now)
    decreases Backlog(svc, env)
  {
    var r := Sweeps(svc, queues, maxMessages, env, calls);
    var s := Sweep(svc, queues, maxMessages, env, calls, 0);
    assert s.result.Success?;
    if s.result.value == 0 {
      assert r.svc == s.svc;
      if |s.visits| < |queues| {
        SweepCutShort(svc, queues, maxMessages, env, calls, 0);
        assert false;
      }
      IdleSweepDrains(svc, queues, maxMessages, env, calls, 0);
    } else {
      SweepPreservesValid(svc, queues, maxMessages, env, calls, 0);
      SweepsDrain(s.svc, queues, maxMessages, env, s.calls);
    }
  }

  /**
   * When process returns normally, no queue that existed when it started
   * holds a message it could still claim: the loop drains the store up to
   * what the listeners left alone and what is still leased.
   */
  lemma ProcessDrains(svc: Service, maxMessages: int, env: Env, name: string)
    requires Valid(svc.adapter.store) && CacheSound(svc.adapter)
    requires Process(svc, maxMessages, env).result.Success?
    requires QueueExists(svc.adapter.store, name)
    ensures Drained(Process(svc, maxMessages, env).svc.adapter.store, name, env.now)
  {
    var g := GetQueues(svc.adapter, env.fault(0));
    assert g == GetQueues(svc.adapter, None);
    GetQueuesCacheSound(svc.adapter);
    GetQueuesListsAll(svc.adapter, name);
    SweepsDrain(svc.(adapter := g.adapter), g.result.value, maxMessages, env, 1);
  }
}
