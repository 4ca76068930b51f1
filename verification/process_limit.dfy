/**
 * The message limit of process(maxMessages), taken over the whole call.
 *
 * The worker loop in Service resets its counter at the start of every
 * sweep, so the limit only shortens each sweep; the documented meaning of
 * the parameter is the maximum number of messages one call processes.
 * This module holds the capped loop that keeps that promise, and a
 * concrete run showing that the loop as written does not.
 */
module ProcessLimit {
  import opened Wrappers
  import opened Ranking
  import opened Tables
  import opened DbTable
  import opened Service

  /**
   * Sweeps with one counter carried across sweeps: the loop ends after a
   * sweep that received nothing, after a failure, or once the count has
   * reached `maxMessages`.
   */
  function CappedSweeps(svc: Service, queues: seq<string>, maxMessages: int, env: Env, calls: nat, received: nat): (r: Run)
    ensures 1 <= |r.sweeps|
    ensures forall i :: 0 <= i < |r.sweeps| ==> InListOrder(r.sweeps[i], queues)
    // the limit holds for the run as a whole
    ensures received + Total(r.sweeps) <= Max(maxMessages, received + 1)
    ensures Backlog(r.svc, env) + Total(r.sweeps) <= Backlog(svc, env)
    ensures r.svc.channels == svc.channels
    decreases Backlog(svc, env)
  {
    var s := Sweep(svc, queues, maxMessages, env, calls, received);
    if s.result.Failure? || s.result.value == received || s.result.value >= maxMessages then
      SweepsCons(s.visits, []);
      Run(if s.result.Failure? then Failure(s.result.error) else Success(()), s.svc, s.calls, [s.visits])
    else
      assert Backlog(s.svc, env) < Backlog(svc, env);
      var rest := CappedSweeps(s.svc, queues, maxMessages, env, s.calls, s.result.value);
      SweepsCons(s.visits, rest.sweeps);
      Run(rest.result, rest.svc, rest.calls, [s.visits] + rest.sweeps)
  }

  /** Why a capped run stopped: the count reached the limit, or the last sweep received nothing. */
  predicate StoppedRightly(sweeps: seq<seq<Visit>>, received: nat, maxMessages: int) {
    |sweeps| > 0 && (received + Total(sweeps) >= maxMessages || DeliveredCount(sweeps[|sweeps| - 1]) == 0)
  }

  /** One step of the capped loop: a sweep, then either the end of the run or the rest of it. */
  lemma CappedStep(svc: Service, queues: seq<string>, maxMessages: int, env: Env, calls: nat, received: nat)
    ensures var s := Sweep(svc, queues, maxMessages, env, calls, received);
      var r := CappedSweeps(svc, queues, maxMessages, env, calls, received);
      if s.result.Failure? || s.result.value == received || s.result.value >= maxMessages then
        r.sweeps == [s.visits] && r.result.Success? == s.result.Success?
      else
        var rest := CappedSweeps(s.svc, queues, maxMessages, env, s.calls, s.result.value);
        r.sweeps == [s.visits] + rest.sweeps && r.result == rest.result
  {
  }

  /** A sweep put in front of a run that stopped rightly, counted from where that sweep left off. */
  lemma StoppedRightlyCons(first: seq<Visit>, rest: seq<seq<Visit>>, received: nat, maxMessages: int)
    requires StoppedRightly(rest, received + DeliveredCount(first), maxMessages)
    ensures StoppedRightly([first] + rest, received, maxMessages)
  {
    SweepsCons(first, rest);
    assert ([first] + rest)[|rest|] == rest[|rest| - 1];
  }

  /** A capped run that ends normally stops only at the limit or after a sweep that received nothing. */
  lemma {:induction false} CappedSweepsStop(svc: Service, queues: seq<string>, maxMessages: int, env: Env, calls: nat, received: nat)
    requires CappedSweeps(svc, queues, maxMessages, env, calls, received).result.Success?
    ensures StoppedRightly(CappedSweeps(svc, queues, maxMessages, env, calls, received).sweeps, received, maxMessages)
    decreases Backlog(svc, env)
  {
    var s := Sweep(svc, queues, maxMessages, env, calls, received);
    CappedStep(svc, queues, maxMessages, env, calls, received);
    if s.result.Failure? || s.result.value == received || s.result.value >= maxMessages {
      assert s.result.Success?;
      SweepsCons(s.visits, []);
    } else {
      assert Backlog(s.svc, env) < Backlog(svc, env);
      CappedSweepsStop(s.svc, queues, maxMessages, env, s.calls, s.result.value);
      StoppedRightlyCons(s.visits, CappedSweeps(s.svc, queues, maxMessages, env, s.calls, s.result.value).sweeps, received, maxMessages);
    }
  }

  /** process(maxMessages) with the limit counted over the whole call. */
  function ProcessCapped(svc: Service, maxMessages: int, env: Env): (r: Run)
    // a failed listing ends the call, with the adapter's name-to-id cache emptied
    ensures Fails(env.fault(0), 0) ==> r == Run(Failure(StoreFailure), svc.(adapter := svc.adapter.(queueIds := map[])), 1, [])
    ensures forall i :: 0 <= i < |r.sweeps| ==> InListOrder(r.sweeps[i], GetQueues(svc.adapter, None).result.value)
    // at most maxMessages messages in one call, or one if the limit is below one
    ensures Total(r.sweeps) <= Max(maxMessages, 1)
    ensures Backlog(r.svc, env) + Total(r.sweeps) <= Backlog(svc, env)
    ensures r.svc.channels == svc.channels
  {
    var g := GetQueues(svc.adapter, env.fault(0));
    if g.result.Failure? then Run(Failure(g.result.error), svc.(adapter := g.adapter), 1, [])
    else
      CappedSweeps(svc.(adapter := g.adapter), g.result.value, maxMessages, env, 1, 0)
  }

  /** Once the listing succeeds, the capped process is the capped loop over the listed names, from a count of zero. */
  lemma ProcessCappedRunsSweeps(svc: Service, maxMessages: int, env: Env)
    requires !Fails(env.fault(0), 0)
    ensures var g := GetQueues(svc.adapter, None);
      ProcessCapped(svc, maxMessages, env) == CappedSweeps(svc.(adapter := g.adapter), g.result.value, maxMessages, env, 1, 0)
  {
    assert GetQueues(svc.adapter, env.fault(0)) == GetQueues(svc.adapter, None);
  }

  /** A capped call that returns normally either reached its limit or ended with a sweep that received nothing. */
  lemma ProcessCappedStops(svc: Service, maxMessages: int, env: Env)
    requires ProcessCapped(svc, maxMessages, env).result.Success?
    ensures StoppedRightly(ProcessCapped(svc, maxMessages, env).sweeps, 0, maxMessages)
  {
    var g := GetQueues(svc.adapter, None);
    ProcessCappedRunsSweeps(svc, maxMessages, env);
    CappedSweepsStop(svc.(adapter := g.adapter), g.result.value, maxMessages, env, 1, 0);
  }

  // ---------------------------------------------------------------------
  // A run of the loop as written: one queue "q" holding two messages,
  // no listeners, the clock at 100 seconds, a limit of one message.
  // The loop receives the first message in one sweep, the second in the
  // next, and stops after a third sweep that finds the queue empty.
  // ---------------------------------------------------------------------

  const QROW := QueueRow(0, "q", 30, 0)
  const FIRST := MessageRow(0, 0, "a", 0, 0, None, 0)
  const SECOND := MessageRow(1, 0, "b", 0, 0, None, 0)
  const NOW := 100000

  /** The service before process(1): queue "q" with two unclaimed messages. */
  function Example(): Service {
    Service(Adapter(MakeTableNames(None), Store([QROW], [FIRST, SECOND], 1, 2), map[]), map[], map[])
  }

  /** Every receive mints handle "h"; no store statement fails. */
  function ExampleEnv(): Env {
    Env(NOW, (c: nat, i: nat) => "h", (c: nat) => None)
  }

  lemma ListsOneQueue()
    ensures GetQueues(Example().adapter, None).result.value == ["q"]
  {
    var a := Example().adapter;
    assert ByWatermark(a.store) == [QROW];
  }

  lemma QueueFound() ensures QueueIndex([QROW], "q") == Some(0) {}
  lemma BothSelectable() ensures Selectable([FIRST, SECOND], 0, 30000, NOW) == [FIRST, SECOND] {
    assert Selectable([SECOND], 0, 30000, NOW) == [SECOND] by {
      assert [SECOND][1..] == [];
    }
    assert [FIRST, SECOND][1..] == [SECOND];
  }
  lemma FirstRanksTop() ensures MinIndex([FIRST, SECOND], MessageRank) == 0 {
    assert [FIRST, SECOND][1..] == [SECOND];
  }
  lemma RemoveFirst() ensures RemoveAt([FIRST, SECOND], 0) == [SECOND] {}
  lemma TopOneIsFirst() ensures TopN([FIRST, SECOND], 1, MessageRank) == [FIRST] {
    FirstRanksTop(); RemoveFirst();
  }

  const FIRST_CLAIMED := Claim(FIRST, "h", NOW)
  const SECOND_CLAIMED := Claim(SECOND, "h", NOW)
  const QROW_SEEN := QROW.(received := NOW)

  lemma UpdateFirstRow() ensures ConditionalUpdate([FIRST, SECOND], 0, "h", 30000, NOW) == CasResult([FIRST_CLAIMED, SECOND], 1) {
    assert [FIRST, SECOND][1..] == [SECOND];
    assert ConditionalUpdate([SECOND], 0, "h", 30000, NOW) == CasResult([SECOND], 0) by {
      assert [SECOND][1..] == [];
    }
  }
  lemma ClaimFirst(c: nat) ensures ClaimAll([FIRST, SECOND], [FIRST], 0, MintFor(ExampleEnv(), c), NoInterference, 30000, NOW)
                          == Claims([WithHandle(FIRST, "h")], [FIRST_CLAIMED, SECOND]) {
    UpdateFirstRow();
    assert [FIRST][1..] == [];
  }
  lemma WatermarkFirst() ensures Watermark([QROW], 0, NOW) == [QROW_SEEN] {}

  lemma ReceiveFirst(names: TableNames, cache: map<string, nat>, c: nat)
    ensures Receive(Adapter(names, Store([QROW], [FIRST, SECOND], 1, 2), cache), Some(1), None, "q", NOW, MintFor(ExampleEnv(), c), NoInterference, None)
         == Outcome(Success([WithHandle(FIRST, "h")]), Adapter(names, Store([QROW_SEEN], [FIRST_CLAIMED, SECOND], 1, 2), cache))
  {
    var a := Adapter(names, Store([QROW], [FIRST, SECOND], 1, 2), cache);
    assert EffectiveMax(Some(1)) == 1;
    assert LeaseMillis(None) == 30000;
    QueueFound(); BothSelectable(); TopOneIsFirst();
    assert Select(a.store.messages, 0, 1, 30000, NOW) == [FIRST];
    ClaimFirst(c); WatermarkFirst();
  }

  const HANDLE := QueueHandle("q")

  lemma TurnFirst(n: TableNames, k: map<string, nat>, c: nat)
    ensures Turn(Service(Adapter(n, Store([QROW], [FIRST, SECOND], 1, 2), k), map[], map[]), "q", ExampleEnv(), c)
         == Stepped(Success(Delivered("q", WithHandle(FIRST, "h"), true)),
                    Service(Adapter(n, Store([QROW_SEEN], [FIRST_CLAIMED, SECOND], 1, 2), k), map["q" := HANDLE], map[]), c + 2)
  {
    var svc := Service(Adapter(n, Store([QROW], [FIRST, SECOND], 1, 2), k), map[], map[]);
    QueueFound();
    assert Create(svc.adapter, "q", None, None) == Outcome(Success(false), svc.adapter);
    var o := OpenQueue(svc, "q", ExampleEnv(), c);
    assert o == Opened(Success(HANDLE), svc.(handles := map["q" := HANDLE]), c + 1);
    ReceiveFirst(n, k, c + 1);
    var s1 := Service(Adapter(n, Store([QROW_SEEN], [FIRST_CLAIMED, SECOND], 1, 2), k), map["q" := HANDLE], map[]);
    assert Deliver(o.svc, "q", ExampleEnv(), c + 1) == Offer(s1, "q", WithHandle(FIRST, "h"), ExampleEnv(), c + 2);
  }

  lemma SecondSelectable() ensures Selectable([FIRST_CLAIMED, SECOND], 0, 30000, NOW) == [SECOND] {
    assert Selectable([SECOND], 0, 30000, NOW) == [SECOND] by {
      assert [SECOND][1..] == [];
    }
    assert [FIRST_CLAIMED, SECOND][1..] == [SECOND];
  }
  lemma TopOneIsSecond() ensures TopN([SECOND], 1, MessageRank) == [SECOND] {
    assert RemoveAt([SECOND], 0) == [];
  }
  lemma NoneSelectable() ensures Selectable([FIRST_CLAIMED, SECOND_CLAIMED], 0, 30000, NOW) == [] {
    assert Selectable([SECOND_CLAIMED], 0, 30000, NOW) == [] by {
      assert [SECOND_CLAIMED][1..] == [];
    }
    assert [FIRST_CLAIMED, SECOND_CLAIMED][1..] == [SECOND_CLAIMED];
  }
  lemma UpdateSecondRow() ensures ConditionalUpdate([FIRST_CLAIMED, SECOND], 1, "h", 30000, NOW) == CasResult([FIRST_CLAIMED, SECOND_CLAIMED], 1) {
    assert [FIRST_CLAIMED, SECOND][1..] == [SECOND];
    assert ConditionalUpdate([SECOND], 1, "h", 30000, NOW) == CasResult([SECOND_CLAIMED], 1) by {
      assert [SECOND][1..] == [];
    }
  }
  lemma ClaimSecond(c: nat) ensures ClaimAll([FIRST_CLAIMED, SECOND], [SECOND], 0, MintFor(ExampleEnv(), c), NoInterference, 30000, NOW)
                          == Claims([WithHandle(SECOND, "h")], [FIRST_CLAIMED, SECOND_CLAIMED]) {
    UpdateSecondRow();
    assert [SECOND][1..] == [];
  }
  lemma WatermarkAgain() ensures Watermark([QROW_SEEN], 0, NOW) == [QROW_SEEN] {}

  lemma ReceiveSecond(names: TableNames, cache: map<string, nat>, c: nat)
    ensures Receive(Adapter(names, Store([QROW_SEEN], [FIRST_CLAIMED, SECOND], 1, 2), cache), Some(1), None, "q", NOW, MintFor(ExampleEnv(), c), NoInterference, None)
         == Outcome(Success([WithHandle(SECOND, "h")]), Adapter(names, Store([QROW_SEEN], [FIRST_CLAIMED, SECOND_CLAIMED], 1, 2), cache))
  {
    var a := Adapter(names, Store([QROW_SEEN], [FIRST_CLAIMED, SECOND], 1, 2), cache);
    assert EffectiveMax(Some(1)) == 1;
    assert LeaseMillis(None) == 30000;
    assert QueueIndex([QROW_SEEN], "q") == Some(0);
    SecondSelectable(); TopOneIsSecond();
    assert Select(a.store.messages, 0, 1, 30000, NOW) == [SECOND];
    ClaimSecond(c); WatermarkAgain();
  }

  lemma ReceiveNone(names: TableNames, cache: map<string, nat>, c: nat)
    ensures Receive(Adapter(names, Store([QROW_SEEN], [FIRST_CLAIMED, SECOND_CLAIMED], 1, 2), cache), Some(1), None, "q", NOW, MintFor(ExampleEnv(), c), NoInterference, None)
         == Outcome(Success([]), Adapter(names, Store([QROW_SEEN], [FIRST_CLAIMED, SECOND_CLAIMED], 1, 2), cache))
  {
    var a := Adapter(names, Store([QROW_SEEN], [FIRST_CLAIMED, SECOND_CLAIMED], 1, 2), cache);
    assert EffectiveMax(Some(1)) == 1;
    assert LeaseMillis(None) == 30000;
    assert QueueIndex([QROW_SEEN], "q") == Some(0);
    NoneSelectable();
    assert Select(a.store.messages, 0, 1, 30000, NOW) == [];
    WatermarkAgain();
  }

  lemma TurnSecond(n: TableNames, k: map<string, nat>, c: nat)
    ensures Turn(Service(Adapter(n, Store([QROW_SEEN], [FIRST_CLAIMED, SECOND], 1, 2), k), map["q" := HANDLE], map[]), "q", ExampleEnv(), c)
         == Stepped(Success(Delivered("q", WithHandle(SECOND, "h"), true)),
                    Service(Adapter(n, Store([QROW_SEEN], [FIRST_CLAIMED, SECOND_CLAIMED], 1, 2), k), map["q" := HANDLE], map[]), c + 1)
  {
    ReceiveSecond(n, k, c);
    var s1 := Service(Adapter(n, Store([QROW_SEEN], [FIRST_CLAIMED, SECOND_CLAIMED], 1, 2), k), map["q" := HANDLE], map[]);
    assert Deliver(Service(Adapter(n, Store([QROW_SEEN], [FIRST_CLAIMED, SECOND], 1, 2), k), map["q" := HANDLE], map[]), "q", ExampleEnv(), c)
        == Offer(s1, "q", WithHandle(SECOND, "h"), ExampleEnv(), c + 1);
  }

  lemma TurnIdle(n: TableNames, k: map<string, nat>, c: nat)
    ensures Turn(Service(Adapter(n, Store([QROW_SEEN], [FIRST_CLAIMED, SECOND_CLAIMED], 1, 2), k), map["q" := HANDLE], map[]), "q", ExampleEnv(), c)
         == Stepped(Success(Idle("q")), Service(Adapter(n, Store([QROW_SEEN], [FIRST_CLAIMED, SECOND_CLAIMED], 1, 2), k), map["q" := HANDLE], map[]), c + 1)
  {
    ReceiveNone(n, k, c);
  }

  /** The example service at a later point of the run. */
  function ExampleAt(n: TableNames, k: map<string, nat>, qs: seq<QueueRow>, ms: seq<MessageRow>, h: map<string, QueueHandle>): Service {
    Service(Adapter(n, Store(qs, ms, 1, 2), k), h, map[])
  }

  lemma SweepFirst(n: TableNames, k: map<string, nat>, c: nat)
    ensures Sweep(ExampleAt(n, k, [QROW], [FIRST, SECOND], map[]), ["q"], 1, ExampleEnv(), c, 0)
         == SweepResult(Success(1), ExampleAt(n, k, [QROW_SEEN], [FIRST_CLAIMED, SECOND], map["q" := HANDLE]), c + 2, [Delivered("q", WithHandle(FIRST, "h"), true)])
  {
    TurnFirst(n, k, c);
  }

  lemma SweepSecond(n: TableNames, k: map<string, nat>, c: nat)
    ensures Sweep(ExampleAt(n, k, [QROW_SEEN], [FIRST_CLAIMED, SECOND], map["q" := HANDLE]), ["q"], 1, ExampleEnv(), c, 0)
         == SweepResult(Success(1), ExampleAt(n, k, [QROW_SEEN], [FIRST_CLAIMED, SECOND_CLAIMED], map["q" := HANDLE]), c + 1, [Delivered("q", WithHandle(SECOND, "h"), true)])
  {
    TurnSecond(n, k, c);
  }

  lemma SweepIdle(n: TableNames, k: map<string, nat>, c: nat)
    ensures Sweep(ExampleAt(n, k, [QROW_SEEN], [FIRST_CLAIMED, SECOND_CLAIMED], map["q" := HANDLE]), ["q"], 1, ExampleEnv(), c, 0)
         == SweepResult(Success(0), ExampleAt(n, k, [QROW_SEEN], [FIRST_CLAIMED, SECOND_CLAIMED], map["q" := HANDLE]), c + 1, [Idle("q")])
  {
    TurnIdle(n, k, c);
    assert ["q"][1..] == [];
  }

  lemma SweepsFromIdle(n: TableNames, k: map<string, nat>, c: nat)
    ensures Sweeps(ExampleAt(n, k, [QROW_SEEN], [FIRST_CLAIMED, SECOND_CLAIMED], map["q" := HANDLE]), ["q"], 1, ExampleEnv(), c)
         == Run(Success(()), ExampleAt(n, k, [QROW_SEEN], [FIRST_CLAIMED, SECOND_CLAIMED], map["q" := HANDLE]), c + 1, [[Idle("q")]])
  {
    SweepIdle(n, k, c);
  }

  lemma SweepsFromSecond(n: TableNames, k: map<string, nat>, c: nat)
    ensures Sweeps(ExampleAt(n, k, [QROW_SEEN], [FIRST_CLAIMED, SECOND], map["q" := HANDLE]), ["q"], 1, ExampleEnv(), c)
         == Run(Success(()), ExampleAt(n, k, [QROW_SEEN], [FIRST_CLAIMED, SECOND_CLAIMED], map["q" := HANDLE]), c + 2,
                [[Delivered("q", WithHandle(SECOND, "h"), true)], [Idle("q")]])
  {
    var svc := ExampleAt(n, k, [QROW_SEEN], [FIRST_CLAIMED, SECOND], map["q" := HANDLE]);
    var s := Sweep(svc, ["q"], 1, ExampleEnv(), c, 0);
    SweepSecond(n, k, c);
    assert s.result == Success(1);
    var rest := Sweeps(s.svc, ["q"], 1, ExampleEnv(), s.calls);
    SweepsFromIdle(n, k, c + 1);
    assert rest == Run(Success(()), ExampleAt(n, k, [QROW_SEEN], [FIRST_CLAIMED, SECOND_CLAIMED], map["q" := HANDLE]), c + 2, [[Idle("q")]]);
    SweepsUnfold(svc, ["q"], 1, ExampleEnv(), c);
  }

  lemma SweepsAfterFirst(n: TableNames, k: map<string, nat>, c: nat)
    ensures var rest := Sweeps(ExampleAt(n, k, [QROW_SEEN], [FIRST_CLAIMED, SECOND], map["q" := HANDLE]), ["q"], 1, ExampleEnv(), c + 2);
      Sweeps(ExampleAt(n, k, [QROW], [FIRST, SECOND], map[]), ["q"], 1, ExampleEnv(), c)
        == Run(rest.result, rest.svc, rest.calls, [[Delivered("q", WithHandle(FIRST, "h"), true)]] + rest.sweeps)
  {
    SweepFirst(n, k, c);
    SweepsUnfold(ExampleAt(n, k, [QROW], [FIRST, SECOND], map[]), ["q"], 1, ExampleEnv(), c);
  }

  lemma SweepsFromFirst(n: TableNames, k: map<string, nat>, c: nat)
    ensures Sweeps(ExampleAt(n, k, [QROW], [FIRST, SECOND], map[]), ["q"], 1, ExampleEnv(), c)
         == Run(Success(()), ExampleAt(n, k, [QROW_SEEN], [FIRST_CLAIMED, SECOND_CLAIMED], map["q" := HANDLE]), c + 4,
                [[Delivered("q", WithHandle(FIRST, "h"), true)], [Delivered("q", WithHandle(SECOND, "h"), true)], [Idle("q")]])
  {
    SweepsAfterFirst(n, k, c);
    SweepsFromSecond(n, k, c + 2);
    RunChain(Sweeps(ExampleAt(n, k, [QROW], [FIRST, SECOND], map[]), ["q"], 1, ExampleEnv(), c),
             Sweeps(ExampleAt(n, k, [QROW_SEEN], [FIRST_CLAIMED, SECOND], map["q" := HANDLE]), ["q"], 1, ExampleEnv(), c + 2),
             [Delivered("q", WithHandle(FIRST, "h"), true)], [Delivered("q", WithHandle(SECOND, "h"), true)], [Idle("q")]);
  }

  /** A run made of one sweep followed by a two-sweep run is a three-sweep run. */
  lemma RunChain(a: Run, b: Run, first: seq<Visit>, second: seq<Visit>, third: seq<Visit>)
    requires b.sweeps == [second, third]
    requires a == Run(b.result, b.svc, b.calls, [first] + b.sweeps)
    ensures a == Run(b.result, b.svc, b.calls, [first, second, third])
  {
    assert [first] + [second, third] == [first, second, third];
  }

  /** One step of the sweep loop, after a sweep that received something. */
  lemma SweepsUnfold(svc: Service, queues: seq<string>, maxMessages: int, env: Env, calls: nat)
    requires var s := Sweep(svc, queues, maxMessages, env, calls, 0); s.result.Success? && s.result.value != 0
    ensures var s := Sweep(svc, queues, maxMessages, env, calls, 0);
      var rest := Sweeps(s.svc, queues, maxMessages, env, s.calls);
      Sweeps(svc, queues, maxMessages, env, calls) == Run(rest.result, rest.svc, rest.calls, [s.visits] + rest.sweeps)
  {
  }

  function ExampleSweeps(): seq<seq<Visit>> {
    [[Delivered("q", WithHandle(FIRST, "h"), true)], [Delivered("q", WithHandle(SECOND, "h"), true)], [Idle("q")]]
  }

  lemma ExampleRun()
    ensures Process(Example(), 1, ExampleEnv()).sweeps == ExampleSweeps()
  {
    ListsOneQueue();
    var g := GetQueues(Example().adapter, None);
    assert g.result.Success? && g.adapter.store == Example().adapter.store;
    assert Example().(adapter := g.adapter) == ExampleAt(g.adapter.names, g.adapter.queueIds, [QROW], [FIRST, SECOND], map[]);
    SweepsFromFirst(g.adapter.names, g.adapter.queueIds, 1);
  }

  lemma ExampleTotal()
    ensures Total(ExampleSweeps()) == 2
  {
    var sw := ExampleSweeps();
    assert sw[1..] == sw[1..];
    assert sw[1..][1..][1..] == [];
    assert DeliveredCount([Idle("q")]) == 0;
    assert DeliveredCount([Delivered("q", WithHandle(SECOND, "h"), true)]) == 1 by {
      assert [Delivered("q", WithHandle(SECOND, "h"), true)][1..] == [];
    }
    assert DeliveredCount([Delivered("q", WithHandle(FIRST, "h"), true)]) == 1 by {
      assert [Delivered("q", WithHandle(FIRST, "h"), true)][1..] == [];
    }
  }

  /** With the limit set to one, the loop as written receives two messages in one call. */
  lemma ProcessOneReceivesTwo()
    ensures Total(Process(Example(), 1, ExampleEnv()).sweeps) == 2
  {
    ExampleRun();
    ExampleTotal();
  }

  /** On the same input the capped loop stops after one message. */
  lemma CappedOneReceivesOne()
    ensures Total(ProcessCapped(Example(), 1, ExampleEnv()).sweeps) <= 1 < Total(Process(Example(), 1, ExampleEnv()).sweeps)
  {
    ProcessOneReceivesTwo();
  }
}
