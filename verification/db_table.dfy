/**
 * The table-backed storage adapter: table naming, idempotent queue creation,
 * the fairness-ordered queue listing and the transactional claim ("receive").
 *
 * Store failures are injected: every adapter call takes `fault`, the index of
 * the store statement that throws (None: none does). A failing call leaves
 * the adapter exactly as it was, which is what the transaction rollback and
 * the absence of partial writes amount to, except getQueues, whose failure
 * has already emptied the name-to-id cache.
 */
module DbTable {
  import opened Wrappers
  import opened Ranking
  import opened Tables

  /** Defaults inherited from the Zend_Queue adapter base class (seconds). */
  const CREATE_TIMEOUT_DEFAULT: int := 30
  const RECEIVE_TIMEOUT_DEFAULT: int := 30

  /** Watermark of a queue row that has never been received from (the column default). */
  const RECEIVED_INITIAL: int := 0

  datatype TableNames = TableNames(queueTable: string, messageTable: string)

  /** The two table names, both carrying the configured prefix (none when unset). */
  function MakeTableNames(tablePrefix: Option<string>): (t: TableNames)
    ensures var p := tablePrefix.GetOr("");
      && |t.queueTable| == |p| + 6 && t.queueTable[..|p|] == p
      && |t.messageTable| == |p| + 14 && t.messageTable[..|p|] == p
    ensures t.queueTable != t.messageTable
  {
    var p := tablePrefix.GetOr("");
    TableNames(p + "queues", p + "queue_messages")
  }

  /** Different prefixes never share a queue table. */
  lemma TableNamesInjective(p1: Option<string>, p2: Option<string>)
    requires MakeTableNames(p1).queueTable == MakeTableNames(p2).queueTable
    ensures p1.GetOr("") == p2.GetOr("")
  {
    var a, b := p1.GetOr(""), p2.GetOr("");
    assert MakeTableNames(p1).queueTable[..|a|] == a;
    assert MakeTableNames(p2).queueTable[..|b|] == b;
  }

  datatype QueueError = InvalidMaxMessages | InvalidTimeout | NoSuchQueue(name: string) | StoreFailure

  /** The adapter: its table names, the store it works on, and its name-to-id cache. */
  datatype Adapter = Adapter(names: TableNames, store: Store, queueIds: map<string, nat>)

  /** What an adapter call returns, paired with the adapter afterwards. */
  datatype Outcome<T> = Outcome(result: Result<T, QueueError>, adapter: Adapter)

  /** Statement number `step` of the call throws. */
  predicate Fails(fault: Option<nat>, step: nat) {
    fault == Some(step)
  }

  /** Every cached id is the id of a queue row with that name. */
  predicate CacheSound(a: Adapter) {
    forall n :: n in a.queueIds ==> exists q :: q in a.store.queues && q.name == n && q.id == a.queueIds[n]
  }

  predicate QueueExists(s: Store, name: string) {
    exists q :: q in s.queues && q.name == name
  }

  // ---------------------------------------------------------------------
  // create
  // ---------------------------------------------------------------------

  /** The lease stored for a new queue: the given one, or the default. */
  function CreateLease(timeout: Option<int>): int {
    timeout.GetOr(CREATE_TIMEOUT_DEFAULT)
  }

  /**
   * Creates queue `name` unless it exists. Statement 0 is the existence
   * check, statement 1 the insert.
   */
  function Create(a: Adapter, name: string, timeout: Option<int>, fault: Option<nat>): (r: Outcome<bool>)
    ensures r.result.Failure? ==> r.adapter == a && r.result.error == StoreFailure
    ensures QueueExists(a.store, name) && !Fails(fault, 0) ==> r == Outcome(Success(false), a)
    ensures !QueueExists(a.store, name) && fault.None? ==> r.result == Success(true)
    ensures r.result == Success(true) ==>
      && !QueueExists(a.store, name)
      && var qs := r.adapter.store.queues;
      && |qs| == |a.store.queues| + 1
      && qs[..|a.store.queues|] == a.store.queues
      && qs[|a.store.queues|].name == name
      && qs[|a.store.queues|].lease == CreateLease(timeout)
      && r.adapter.store.messages == a.store.messages
      && r.adapter.queueIds == a.queueIds[name := qs[|a.store.queues|].id]
      && r.adapter.names == a.names
  {
    if Fails(fault, 0) then Outcome(Failure(StoreFailure), a)
    else if QueueIndex(a.store.queues, name).Some? then Outcome(Success(false), a)
    else if Fails(fault, 1) then Outcome(Failure(StoreFailure), a)
    else
      var row := QueueRow(a.store.nextQueueId, name, CreateLease(timeout), RECEIVED_INITIAL);
      var s := a.store.(queues := a.store.queues + [row], nextQueueId := a.store.nextQueueId + 1);
      Outcome(Success(true), a.(store := s, queueIds := a.queueIds[name := row.id]))
  }

  /** The number of queue rows called `name`. */
  function NameCount(queues: seq<QueueRow>, name: string): nat {
    if |queues| == 0 then 0
    else (if queues[0].name == name then 1 else 0) + NameCount(queues[1..], name)
  }

  lemma {:induction false} NameCountZero(queues: seq<QueueRow>, name: string)
    requires forall q :: q in queues ==> q.name != name
    ensures NameCount(queues, name) == 0
  {
    if |queues| > 0 {
      assert queues[0] in queues;
      NameCountZero(queues[1..], name);
    }
  }

  lemma {:induction false} NameCountAppend(queues: seq<QueueRow>, row: QueueRow, name: string)
    ensures NameCount(queues + [row], name) == NameCount(queues, name) + (if row.name == name then 1 else 0)
  {
    if |queues| > 0 {
      assert (queues + [row])[1..] == queues[1..] + [row];
      NameCountAppend(queues[1..], row, name);
    }
  }

  /**
   * Creating a queue twice: the first call creates exactly one row named
   * `name` and answers true, the second answers false and changes nothing.
   */
  lemma CreateTwice(a: Adapter, name: string, t1: Option<int>, t2: Option<int>)
    requires !QueueExists(a.store, name)
    ensures var first := Create(a, name, t1, None);
      && first.result == Success(true)
      && NameCount(first.adapter.store.queues, name) == 1
      && Create(first.adapter, name, t2, None) == Outcome(Success(false), first.adapter)
  {
    var first := Create(a, name, t1, None);
    var qs := first.adapter.store.queues;
    NameCountZero(a.store.queues, name);
    assert qs == a.store.queues + [qs[|a.store.queues|]];
    NameCountAppend(a.store.queues, qs[|a.store.queues|], name);
    assert qs[|a.store.queues|] in qs;
  }

  /** Creation keeps the store's keys unique and the cache sound. */
  lemma CreatePreservesValid(a: Adapter, name: string, timeout: Option<int>, fault: Option<nat>)
    requires Valid(a.store) && CacheSound(a)
    ensures Valid(Create(a, name, timeout, fault).adapter.store)
    ensures CacheSound(Create(a, name, timeout, fault).adapter)
  {
    var r := Create(a, name, timeout, fault);
    if r.result == Success(true) {
      var qs := r.adapter.store.queues;
      var row := qs[|a.store.queues|];
      assert qs == a.store.queues + [row];
      assert row.id == a.store.nextQueueId;
      forall n | n in r.adapter.queueIds
        ensures exists q :: q in qs && q.name == n && q.id == r.adapter.queueIds[n]
      {
        if n == name {
          assert row in qs;
        } else {
          var q :| q in a.store.queues && q.name == n && q.id == a.queueIds[n];
          assert q in qs;
        }
      }
    }
  }

  /** Creation never moves or renumbers an existing queue. */
  lemma CreateKeepsQueues(a: Adapter, name: string, timeout: Option<int>, fault: Option<nat>)
    ensures KeepsQueues(a.store.queues, Create(a, name, timeout, fault).adapter.store.queues)
  {
    var r := Create(a, name, timeout, fault);
    if r.result == Success(true) {
      var qs := r.adapter.store.queues;
      assert qs == a.store.queues + [qs[|a.store.queues|]];
      forall n | QueueIndex(a.store.queues, n).Some?
        ensures QueueIndex(qs, n) == QueueIndex(a.store.queues, n)
      {
        QueueIndexAppend(a.store.queues, qs[|a.store.queues|], n);
      }
    }
  }

  // ---------------------------------------------------------------------
  // getQueues
  // ---------------------------------------------------------------------

  /** The rows of `rows` whose name is met for the first time (and is not in `seen`). */
  function FirstByName(rows: seq<QueueRow>, seen: set<string>): (r: seq<QueueRow>)
    ensures forall i :: 0 <= i < |r| ==> r[i] in rows && r[i].name !in seen
    ensures forall i, j :: 0 <= i < j < |r| ==> r[i].name != r[j].name
    decreases |rows|
  {
    if |rows| == 0 then []
    else if rows[0].name in seen then FirstByName(rows[1..], seen)
    else [rows[0]] + FirstByName(rows[1..], seen + {rows[0].name})
  }

  /** No name is lost: every row whose name is not in `seen` is represented. */
  lemma {:induction false} FirstByNameCovers(rows: seq<QueueRow>, seen: set<string>, q: QueueRow)
    requires q in rows && q.name !in seen
    ensures exists i :: 0 <= i < |FirstByName(rows, seen)| && FirstByName(rows, seen)[i].name == q.name
    decreases |rows|
  {
    var r := FirstByName(rows, seen);
    if rows[0].name in seen {
      FirstByNameCovers(rows[1..], seen, q);
    } else if q.name == rows[0].name {
      assert r[0].name == q.name;
    } else {
      var rest := FirstByName(rows[1..], seen + {rows[0].name});
      assert q in rows[1..];
      FirstByNameCovers(rows[1..], seen + {rows[0].name}, q);
      var i :| 0 <= i < |rest| && rest[i].name == q.name;
      assert r[i + 1] == rest[i];
    }
  }

  /** Every kept row ranks no earlier than a bound that all rows respect. */
  lemma {:induction false} FirstByNameRanksAfter(rows: seq<QueueRow>, seen: set<string>, b: Rank)
    requires forall i :: 0 <= i < |rows| ==> RankLe(b, QueueRank(rows[i]))
    ensures var r := FirstByName(rows, seen); forall i :: 0 <= i < |r| ==> RankLe(b, QueueRank(r[i]))
    decreases |rows|
  {
    if |rows| > 0 {
      assert forall i :: 0 <= i < |rows[1..]| ==> rows[1..][i] == rows[i + 1];
      if rows[0].name in seen {
        FirstByNameRanksAfter(rows[1..], seen, b);
      } else {
        var rest := FirstByName(rows[1..], seen + {rows[0].name});
        FirstByNameRanksAfter(rows[1..], seen + {rows[0].name}, b);
        assert forall i :: 1 <= i < |rest| + 1 ==> ([rows[0]] + rest)[i] == rest[i - 1];
      }
    }
  }

  /** Dropping repeated names keeps the watermark order. */
  lemma {:induction false} FirstByNameSorted(rows: seq<QueueRow>, seen: set<string>)
    requires SortedBy(rows, QueueRank)
    ensures SortedBy(FirstByName(rows, seen), QueueRank)
    decreases |rows|
  {
    if |rows| > 0 {
      SortedTail(rows, QueueRank);
      if rows[0].name in seen {
        FirstByNameSorted(rows[1..], seen);
      } else {
        var rest := FirstByName(rows[1..], seen + {rows[0].name});
        FirstByNameSorted(rows[1..], seen + {rows[0].name});
        FirstByNameRanksAfter(rows[1..], seen + {rows[0].name}, QueueRank(rows[0]));
        PrependSorted(rows[0], rest, QueueRank);
      }
    }
  }

  function NamesOf(rows: seq<QueueRow>): (r: seq<string>)
    ensures |r| == |rows| && forall i :: 0 <= i < |rows| ==> r[i] == rows[i].name
  {
    seq(|rows|, i requires 0 <= i < |rows| => rows[i].name)
  }

  /** The name-to-id cache filled row by row, later rows overwriting earlier ones. */
  function CacheOf(rows: seq<QueueRow>): (c: map<string, nat>)
    ensures forall n :: n in c ==> exists q :: q in rows && q.name == n && q.id == c[n]
    ensures forall q :: q in rows ==> q.name in c
  {
    if |rows| == 0 then map[]
    else
      var init := rows[..|rows| - 1];
      var last := rows[|rows| - 1];
      assert forall q :: q in init ==> q in rows;
      assert forall q :: q in rows ==> q in init || q == last;
      CacheOf(init)[last.name := last.id]
  }

  /** All queue rows ordered by ascending watermark (ties in table order). */
  function ByWatermark(s: Store): seq<QueueRow> {
    TopN(s.queues, |s.queues|, QueueRank)
  }

  /**
   * Lists the queue names, least recently received first, each name once,
   * and refills the name-to-id cache. The cache is emptied before the
   * select (statement 0) runs, so a failed listing leaves it empty.
   */
  function GetQueues(a: Adapter, fault: Option<nat>): (r: Outcome<seq<string>>)
    ensures r.result.Failure? <==> Fails(fault, 0)
    ensures r.result.Failure? ==> r.adapter == a.(queueIds := map[])
    ensures r.result.Success? ==>
      && r.adapter.store == a.store && r.adapter.names == a.names
      && (forall i, j :: 0 <= i < j < |r.result.value| ==> r.result.value[i] != r.result.value[j])
  {
    if Fails(fault, 0) then Outcome(Failure(StoreFailure), a.(queueIds := map[]))
    else
      var sorted := ByWatermark(a.store);
      Outcome(Success(NamesOf(FirstByName(sorted, {}))), a.(queueIds := CacheOf(sorted)))
  }

  /** The watermark order is a permutation of the queue table. */
  lemma ByWatermarkSame(s: Store, q: QueueRow)
    ensures q in ByWatermark(s) <==> q in s.queues
  {
    var sorted := ByWatermark(s);
    assert multiset(sorted) == multiset(s.queues);
    assert q in sorted <==> q in multiset(sorted);
  }

  /** The listing names exactly the existing queues. */
  lemma GetQueuesListsAll(a: Adapter, n: string)
    ensures n in GetQueues(a, None).result.value <==> QueueExists(a.store, n)
  {
    var sorted := ByWatermark(a.store);
    var listed := FirstByName(sorted, {});
    var names := GetQueues(a, None).result.value;
    assert names == NamesOf(listed);
    if n in names {
      var i :| 0 <= i < |names| && names[i] == n;
      assert listed[i] in sorted;
      ByWatermarkSame(a.store, listed[i]);
    }
    if QueueExists(a.store, n) {
      var q :| q in a.store.queues && q.name == n;
      ByWatermarkSame(a.store, q);
      FirstByNameCovers(sorted, {}, q);
      var i :| 0 <= i < |listed| && listed[i].name == n;
      assert names[i] == n;
    }
  }

  /** The watermark of the queue called `name`. */
  function ReceivedOf(queues: seq<QueueRow>, name: string): int
    requires QueueIndex(queues, name).Some?
  {
    queues[QueueIndex(queues, name).value].received
  }

  /** With unique names, a row's own name finds that row. */
  lemma QueueIndexOfRow(queues: seq<QueueRow>, q: QueueRow)
    requires UniqueQueueNames(queues) && q in queues
    ensures QueueIndex(queues, q.name).Some? && queues[QueueIndex(queues, q.name).value] == q
  {
    var k :| 0 <= k < |queues| && queues[k] == q;
    var i := QueueIndex(queues, q.name).value;
    assert queues[i].name == queues[k].name;
  }

  /** Each name is a queue, and the queues' watermarks never decrease along `names`. */
  predicate InWatermarkOrder(queues: seq<QueueRow>, names: seq<string>) {
    && (forall i :: 0 <= i < |names| ==> QueueIndex(queues, names[i]).Some?)
    && forall i, j :: 0 <= i < j < |names| ==>
         QueueIndex(queues, names[i]).Some? && QueueIndex(queues, names[j]).Some? &&
         ReceivedOf(queues, names[i]) <= ReceivedOf(queues, names[j])
  }

  /**
   * Fairness order: every listed queue was received from no later than the
   * queues listed after it.
   */
  lemma GetQueuesOrdered(a: Adapter)
    requires UniqueQueueNames(a.store.queues)
    ensures InWatermarkOrder(a.store.queues, GetQueues(a, None).result.value)
  {
    var names := GetQueues(a, None).result.value;
    forall i | 0 <= i < |names|
      ensures QueueIndex(a.store.queues, names[i]).Some?
    {
      GetQueuesListsAll(a, names[i]);
    }
    forall i, j | 0 <= i < j < |names|
      ensures && QueueIndex(a.store.queues, names[i]).Some?
              && QueueIndex(a.store.queues, names[j]).Some?
              && ReceivedOf(a.store.queues, names[i]) <= ReceivedOf(a.store.queues, names[j])
    {
      ListedPairOrdered(a, i, j);
    }
  }

  lemma ListedPairOrdered(a: Adapter, i: nat, j: nat)
    requires UniqueQueueNames(a.store.queues)
    requires i < j < |GetQueues(a, None).result.value|
    ensures var names := GetQueues(a, None).result.value;
      && QueueIndex(a.store.queues, names[i]).Some?
      && QueueIndex(a.store.queues, names[j]).Some?
      && ReceivedOf(a.store.queues, names[i]) <= ReceivedOf(a.store.queues, names[j])
  {
    var sorted := ByWatermark(a.store);
    var listed := FirstByName(sorted, {});
    FirstByNameSorted(sorted, {});
    ByWatermarkSame(a.store, listed[i]);
    ByWatermarkSame(a.store, listed[j]);
    QueueIndexOfRow(a.store.queues, listed[i]);
    QueueIndexOfRow(a.store.queues, listed[j]);
    assert RankLe(QueueRank(listed[i]), QueueRank(listed[j]));
  }

  /** Refilling the cache from the table keeps it sound. */
  lemma GetQueuesCacheSound(a: Adapter)
    ensures CacheSound(GetQueues(a, None).adapter)
  {
    var b := GetQueues(a, None).adapter;
    forall n | n in b.queueIds
      ensures exists q :: q in b.store.queues && q.name == n && q.id == b.queueIds[n]
    {
      var q :| q in ByWatermark(a.store) && q.name == n && q.id == b.queueIds[n];
      ByWatermarkSame(a.store, q);
    }
  }

  // ---------------------------------------------------------------------
  // receive
  // ---------------------------------------------------------------------

  /** The limit receive uses: the given number, or one when none is given. */
  function EffectiveMax(maxMessages: Option<int>): int {
    maxMessages.GetOr(1)
  }

  /** The lease receive uses, in milliseconds: the given seconds, or the default. */
  function LeaseMillis(timeout: Option<int>): int {
    timeout.GetOr(RECEIVE_TIMEOUT_DEFAULT) * 1000
  }

  /** The WHERE clause of the select: rows of queue `qid` that may be claimed at `now`. */
  function Selectable(table: seq<MessageRow>, qid: nat, leaseMs: int, now: int): (r: seq<MessageRow>)
    ensures forall m :: m in r <==> m in table && m.queueId == qid && Eligible(m, leaseMs, now)
    ensures multiset(r) <= multiset(table)
  {
    if |table| == 0 then []
    else
      var rest := Selectable(table[1..], qid, leaseMs, now);
      assert forall m :: m in table <==> m == table[0] || m in table[1..];
      assert table == [table[0]] + table[1..];
      if table[0].queueId == qid && Eligible(table[0], leaseMs, now) then [table[0]] + rest else rest
  }

  /** SELECT * ... WHERE (queue, eligible) ORDER BY priority DESC, created ASC LIMIT n. */
  function Select(table: seq<MessageRow>, qid: nat, n: nat, leaseMs: int, now: int): seq<MessageRow> {
    TopN(Selectable(table, qid, leaseMs, now), n, MessageRank)
  }

  /**
   * The select returns at most `n` rows, all of queue `qid` and claimable at
   * `now`, highest priority first and oldest first within a priority; a
   * claimable row of the queue is left out only when `n` rows that rank at
   * least as high were taken.
   */
  lemma SelectSpec(table: seq<MessageRow>, qid: nat, n: nat, leaseMs: int, now: int)
    ensures var r := Select(table, qid, n, leaseMs, now);
      && |r| <= n
      && SortedBy(r, MessageRank)
      && (forall m :: m in r ==> m in table && m.queueId == qid && Eligible(m, leaseMs, now))
      && (forall x, y :: x in r && y in table && y.queueId == qid && Eligible(y, leaseMs, now) && y !in r ==>
            |r| == n && RankLe(MessageRank(x), MessageRank(y)))
  {
    var e := Selectable(table, qid, leaseMs, now);
    var r := Select(table, qid, n, leaseMs, now);
    forall m | m in r ensures m in e {
      TopNDrawsFrom(e, n, MessageRank, m);
    }
    forall x, y | x in r && y in table && y.queueId == qid && Eligible(y, leaseMs, now) && y !in r
      ensures |r| == n && RankLe(MessageRank(x), MessageRank(y))
    {
      TopNIsTop(e, n, MessageRank, x, y);
      if |r| < n {
        TopNShortTakesAll(e, n, MessageRank, y);
      }
    }
  }

  /** The effect of other workers: the table the k-th conditional update runs against. */
  type Interference = (nat, seq<MessageRow>) -> seq<MessageRow>

  /** No other worker writes between the select and the updates. */
  function NoInterference(k: nat, t: seq<MessageRow>): seq<MessageRow> {
    t
  }

  datatype Claims = Claims(kept: seq<MessageRow>, table: seq<MessageRow>)

  /**
   * The claim loop: candidate `k + i` gets handle `mint(k + i)` and is kept
   * only when its conditional update, run against the table as other workers
   * left it, affected at least one row.
   */
  function ClaimAll(table: seq<MessageRow>, cands: seq<MessageRow>, k: nat, mint: nat -> Token,
                    interfere: Interference, leaseMs: int, now: int): (r: Claims)
    ensures |r.kept| <= |cands|
    decreases |cands|
  {
    if |cands| == 0 then Claims([], table)
    else
      var seen := interfere(k, table);
      var cas := ConditionalUpdate(seen, cands[0].id, mint(k), leaseMs, now);
      var rest := ClaimAll(cas.table, cands[1..], k + 1, mint, interfere, leaseMs, now);
      if cas.count > 0 then Claims([WithHandle(cands[0], mint(k))] + rest.kept, rest.table)
      else rest
  }

  /** One turn of the claim loop: the first candidate is kept exactly when its update matched. */
  lemma ClaimAllStep(table: seq<MessageRow>, cands: seq<MessageRow>, k: nat, mint: nat -> Token,
                     interfere: Interference, leaseMs: int, now: int)
    requires |cands| > 0
    ensures var cas := ConditionalUpdate(interfere(k, table), cands[0].id, mint(k), leaseMs, now);
      var rest := ClaimAll(cas.table, cands[1..], k + 1, mint, interfere, leaseMs, now);
      ClaimAll(table, cands, k, mint, interfere, leaseMs, now).kept
        == if cas.count > 0 then [WithHandle(cands[0], mint(k))] + rest.kept else rest.kept
  {
  }

  /** The candidates as handed back: candidate `j` with handle `mint(k + j)`. */
  function Handed(cands: seq<MessageRow>, k: nat, mint: nat -> Token): (r: seq<MessageRow>)
    ensures |r| == |cands|
  {
    seq(|cands|, j requires 0 <= j < |cands| => WithHandle(cands[j], mint(k + j)))
  }

  /** The handed-back list of a loop is its first candidate's followed by the rest's. */
  lemma HandedCons(cands: seq<MessageRow>, k: nat, mint: nat -> Token)
    requires |cands| > 0
    ensures Handed(cands, k, mint) == [WithHandle(cands[0], mint(k))] + Handed(cands[1..], k + 1, mint)
  {
    var a := Handed(cands, k, mint);
    var b := [WithHandle(cands[0], mint(k))] + Handed(cands[1..], k + 1, mint);
    forall j | 0 <= j < |a| ensures a[j] == b[j] {
      if j > 0 {
        assert cands[1..][j - 1] == cands[j];
        assert k + 1 + (j - 1) == k + j;
      }
    }
  }

  /** Every kept message is a candidate carrying the handle minted for its position. */
  lemma {:induction false} ClaimAllKeepsCandidates(table: seq<MessageRow>, cands: seq<MessageRow>, k: nat, mint: nat -> Token,
                                                   interfere: Interference, leaseMs: int, now: int)
    ensures var kept := ClaimAll(table, cands, k, mint, interfere, leaseMs, now).kept;
      forall j :: 0 <= j < |kept| ==> kept[j] in Handed(cands, k, mint)
    decreases |cands|
  {
    if |cands| > 0 {
      var cas := ConditionalUpdate(interfere(k, table), cands[0].id, mint(k), leaseMs, now);
      var rest := ClaimAll(cas.table, cands[1..], k + 1, mint, interfere, leaseMs, now).kept;
      ClaimAllKeepsCandidates(cas.table, cands[1..], k + 1, mint, interfere, leaseMs, now);
      ClaimAllStep(table, cands, k, mint, interfere, leaseMs, now);
      HandedCons(cands, k, mint);
      KeptInHanded(rest, Handed(cands[1..], k + 1, mint), WithHandle(cands[0], mint(k)), cas.count > 0);
    }
  }

  /** Rows drawn from a list stay drawn from it with one more row in front, kept or not. */
  lemma KeptInHanded(rest: seq<MessageRow>, pool: seq<MessageRow>, h: MessageRow, won: bool)
    requires forall j :: 0 <= j < |rest| ==> rest[j] in pool
    ensures var kept := if won then [h] + rest else rest;
      forall j :: 0 <= j < |kept| ==> kept[j] in [h] + pool
  {
    assert forall j :: 1 <= j < |rest| + 1 ==> ([h] + rest)[j] == rest[j - 1];
  }

  /** UPDATE queues SET received = CASE WHEN now > received THEN now ELSE received END WHERE queue_id = qid. */
  function Watermark(queues: seq<QueueRow>, qid: nat, now: int): (r: seq<QueueRow>)
    ensures |r| == |queues|
    ensures forall i :: 0 <= i < |queues| ==> r[i].(received := queues[i].received) == queues[i]
    ensures forall i :: 0 <= i < |queues| ==> r[i].received >= queues[i].received
    ensures forall i :: 0 <= i < |queues| && queues[i].id == qid ==> r[i].received >= now
    ensures forall i :: 0 <= i < |queues| && queues[i].id != qid ==> r[i] == queues[i]
  {
    seq(|queues|, i requires 0 <= i < |queues| =>
      if queues[i].id == qid && now > queues[i].received then queues[i].(received := now) else queues[i])
  }

  /** The watermark update changes no queue's name or id. */
  lemma WatermarkKeepsQueues(queues: seq<QueueRow>, qid: nat, now: int)
    ensures KeepsQueues(queues, Watermark(queues, qid, now))
  {
    var w := Watermark(queues, qid, now);
    forall n | QueueIndex(queues, n).Some?
      ensures QueueIndex(w, n) == QueueIndex(queues, n)
    {
      forall i | 0 <= i < |queues| ensures queues[i].name == w[i].name {
        assert w[i].(received := queues[i].received) == queues[i];
      }
      QueueIndexSameNames(queues, w, n);
    }
    forall n | QueueIndex(queues, n).Some?
      ensures IdOf(w, n) == IdOf(queues, n)
    {
      var i := QueueIndex(queues, n).value;
      assert w[i].(received := queues[i].received) == queues[i];
    }
  }

  /** How many store statements a receive with `c` candidates issues: begin, lookup, select, c updates, watermark, commit. */
  function StatementCount(c: nat): nat {
    5 + c
  }

  /**
   * Claims up to `maxMessages` (default 1) messages of `queue` with a lease
   * of `timeout` seconds (default RECEIVE_TIMEOUT_DEFAULT) at time `now`,
   * in one transaction: select, claim each candidate by conditional update,
   * advance the queue's watermark, commit.
   */
  function Receive(a: Adapter, maxMessages: Option<int>, timeout: Option<int>, queue: string, now: int,
                   mint: nat -> Token, interfere: Interference, fault: Option<nat>): (r: Outcome<seq<MessageRow>>)
    ensures r.result.Failure? ==> r.adapter == a
    ensures EffectiveMax(maxMessages) <= 0 ==> r.result == Failure(InvalidMaxMessages)
    ensures EffectiveMax(maxMessages) > 0 && LeaseMillis(timeout) <= 0 ==> r.result == Failure(InvalidTimeout)
    ensures EffectiveMax(maxMessages) > 0 && LeaseMillis(timeout) > 0 && fault.Some? && fault.value < 3 ==> r.result.Failure?
    ensures EffectiveMax(maxMessages) > 0 && LeaseMillis(timeout) > 0 && fault.None? ==>
      (r.result.Success? <==> QueueExists(a.store, queue))
    ensures r.result.Success? ==>
      && |r.result.value| <= EffectiveMax(maxMessages)
      && r.adapter.names == a.names && r.adapter.queueIds == a.queueIds
      && r.adapter.store.nextQueueId == a.store.nextQueueId
      && r.adapter.store.nextMessageId == a.store.nextMessageId
  {
    var n := EffectiveMax(maxMessages);
    if n <= 0 then Outcome(Failure(InvalidMaxMessages), a)
    else
      var leaseMs := LeaseMillis(timeout);
      if leaseMs <= 0 then Outcome(Failure(InvalidTimeout), a)
      else if Fails(fault, 0) || Fails(fault, 1) then Outcome(Failure(StoreFailure), a)
      else match QueueIndex(a.store.queues, queue)
        case None => Outcome(Failure(NoSuchQueue(queue)), a)
        case Some(qi) =>
          var qid := a.store.queues[qi].id;
          var cands := Select(a.store.messages, qid, n as nat, leaseMs, now);
          if fault.Some? && fault.value < StatementCount(|cands|) then Outcome(Failure(StoreFailure), a)
          else
            var claims := ClaimAll(a.store.messages, cands, 0, mint, interfere, leaseMs, now);
            var s := a.store.(messages := claims.table, queues := Watermark(a.store.queues, qid, now));
            Outcome(Success(claims.kept), a.(store := s))
  }

  // ---------------------------------------------------------------------
  // deleteMessage
  // ---------------------------------------------------------------------

  /**
   * Removes the message's row (statement 0 is the delete) and answers
   * whether a row went; a message already gone is not an error.
   */
  function DeleteMessage(a: Adapter, m: MessageRow, fault: Option<nat>): (r: Outcome<bool>)
    ensures r.result.Failure? <==> Fails(fault, 0)
    ensures r.result.Failure? ==> r.adapter == a
    ensures r.result.Success? ==>
      && r.adapter.names == a.names && r.adapter.queueIds == a.queueIds
      && r.adapter.store.queues == a.store.queues
      && r.adapter.store.nextQueueId == a.store.nextQueueId
      && r.adapter.store.nextMessageId == a.store.nextMessageId
      && (forall x :: x in r.adapter.store.messages <==> x in a.store.messages && x.id != m.id)
      && (r.result.value <==> exists x :: x in a.store.messages && x.id == m.id)
  {
    if Fails(fault, 0) then Outcome(Failure(StoreFailure), a)
    else
      var t := DeleteById(a.store.messages, m.id);
      DeleteShrinks(a.store.messages, m.id);
      Outcome(Success(|t| < |a.store.messages|), a.(store := a.store.(messages := t)))
  }

  /** The delete removes a row exactly when one has the id. */
  lemma {:induction false} DeleteShrinks(table: seq<MessageRow>, id: nat)
    ensures |DeleteById(table, id)| < |table| <==> exists x :: x in table && x.id == id
  {
    if |table| > 0 {
      DeleteShrinks(table[1..], id);
      assert forall x :: x in table <==> x == table[0] || x in table[1..];
    }
  }

  /** Deleting keeps the store's keys unique and the cache sound. */
  lemma DeletePreservesValid(a: Adapter, m: MessageRow, fault: Option<nat>)
    requires Valid(a.store) && CacheSound(a)
    ensures Valid(DeleteMessage(a, m, fault).adapter.store) && CacheSound(DeleteMessage(a, m, fault).adapter)
  {
    DeleteKeepsUnique(a.store.messages, m.id);
  }

  lemma {:induction false} DeleteKeepsUnique(table: seq<MessageRow>, id: nat)
    requires UniqueMessageIds(table)
    ensures UniqueMessageIds(DeleteById(table, id))
  {
    if |table| > 0 {
      var tail := table[1..];
      assert forall i :: 0 <= i < |tail| ==> tail[i] == table[i + 1];
      DeleteKeepsUnique(tail, id);
      if table[0].id != id {
        DeleteAvoids(tail, id, table[0].id);
        PrependUniqueId(table[0], DeleteById(tail, id));
      }
    }
  }

  /** Deleting rows brings in no id that was absent. */
  lemma {:induction false} DeleteAvoids(table: seq<MessageRow>, id: nat, x: nat)
    requires forall i :: 0 <= i < |table| ==> table[i].id != x
    ensures var r := DeleteById(table, id); forall i :: 0 <= i < |r| ==> r[i].id != x
  {
    if |table| > 0 {
      var tail := table[1..];
      assert forall i :: 0 <= i < |tail| ==> tail[i] == table[i + 1];
      DeleteAvoids(tail, id, x);
      var rest := DeleteById(tail, id);
      assert forall i :: 1 <= i < |rest| + 1 ==> ([table[0]] + rest)[i] == rest[i - 1];
    }
  }

  /** A row whose id is new to a table of unique ids can go in front of it. */
  lemma PrependUniqueId(h: MessageRow, rest: seq<MessageRow>)
    requires UniqueMessageIds(rest)
    requires forall i :: 0 <= i < |rest| ==> rest[i].id != h.id
    ensures UniqueMessageIds([h] + rest)
  {
    var r := [h] + rest;
    forall i, j | 0 <= i < j < |r| ensures r[i].id != r[j].id {
      assert r[j] == rest[j - 1];
      if i > 0 {
        assert r[i] == rest[i - 1];
      }
    }
  }
}
