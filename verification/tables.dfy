/**
 * The two persisted tables of the queue store, as plain data: `queues`
 * (id, unique name, default lease, `received` watermark) and `queue_messages`
 * (id, owning queue, body, priority, created, nullable claim handle, claim
 * start in milliseconds). Also the eligibility predicate and the conditional
 * ("compare-and-set") update that claims a row.
 */
module Tables {
  import opened Wrappers
  import opened Ranking

  /** An opaque claim handle; the absent handle is `None`. */
  type Token = string

  datatype QueueRow = QueueRow(id: nat, name: string, lease: int, received: int)

  datatype MessageRow = MessageRow(
    id: nat,
    queueId: nat,
    body: string,
    priority: int,
    created: int,
    handle: Option<Token>,
    timeout: int)

  /** The store: both tables plus the next auto-increment key of each. */
  datatype Store = Store(
    queues: seq<QueueRow>,
    messages: seq<MessageRow>,
    nextQueueId: nat,
    nextMessageId: nat)

  /**
   * A row may be claimed at `now` when it has never been claimed, or when its
   * claim started more than `leaseMs` milliseconds ago (strictly).
   */
  predicate Eligible(m: MessageRow, leaseMs: int, now: int) {
    m.handle.None? || m.timeout + leaseMs < now
  }

  /** Sort key for "priority DESC, created ASC". */
  function MessageRank(m: MessageRow): Rank {
    Rank(-m.priority, m.created)
  }

  /** Sort key for "received ASC". */
  function QueueRank(q: QueueRow): Rank {
    Rank(q.received, 0)
  }

  /** The row after a claim: fresh handle, claim started at `now`. */
  function Claim(m: MessageRow, tok: Token, now: int): MessageRow {
    m.(handle := Some(tok), timeout := now)
  }

  /** The row as handed back by a receive: the new handle on the data as selected. */
  function WithHandle(m: MessageRow, tok: Token): MessageRow {
    m.(handle := Some(tok))
  }

  /** The WHERE clause of the conditional update: the right id and still eligible. */
  predicate Matches(m: MessageRow, id: nat, leaseMs: int, now: int) {
    m.id == id && Eligible(m, leaseMs, now)
  }

  /** Whether some row with this id is still eligible. */
  predicate AnyMatch(table: seq<MessageRow>, id: nat, leaseMs: int, now: int) {
    exists i :: 0 <= i < |table| && Matches(table[i], id, leaseMs, now)
  }

  datatype CasResult = CasResult(table: seq<MessageRow>, count: nat)

  /**
   * UPDATE queue_messages SET handle = tok, timeout = now
   * WHERE message_id = id AND (handle IS NULL OR timeout + leaseMs < now),
   * with the number of affected rows.
   */
  function ConditionalUpdate(table: seq<MessageRow>, id: nat, tok: Token, leaseMs: int, now: int): (r: CasResult)
    ensures |r.table| == |table|
    ensures r.count > 0 <==> AnyMatch(table, id, leaseMs, now)
    ensures r.count <= |table|
  {
    if |table| == 0 then CasResult([], 0)
    else
      var rest := ConditionalUpdate(table[1..], id, tok, leaseMs, now);
      assert forall i :: 1 <= i < |table| ==> table[i] == table[1..][i - 1];
      if Matches(table[0], id, leaseMs, now) then
        CasResult([Claim(table[0], tok, now)] + rest.table, rest.count + 1)
      else
        assert AnyMatch(table, id, leaseMs, now) ==> AnyMatch(table[1..], id, leaseMs, now);
        CasResult([table[0]] + rest.table, rest.count)
  }

  /** Exactly the rows with the id that are still eligible get the new handle and claim time. */
  lemma {:induction false} ConditionalUpdateRows(table: seq<MessageRow>, id: nat, tok: Token, leaseMs: int, now: int)
    ensures var r := ConditionalUpdate(table, id, tok, leaseMs, now);
      forall i :: 0 <= i < |table| ==>
        r.table[i] == (if Matches(table[i], id, leaseMs, now) then Claim(table[i], tok, now) else table[i])
    decreases |table|
  {
    if |table| > 0 {
      var r := ConditionalUpdate(table, id, tok, leaseMs, now);
      var rest := ConditionalUpdate(table[1..], id, tok, leaseMs, now);
      ConditionalUpdateRows(table[1..], id, tok, leaseMs, now);
      assert forall i :: 1 <= i < |table| ==> table[i] == table[1..][i - 1] && r.table[i] == rest.table[i - 1];
    }
  }

  /** Number of rows that may be claimed at `now`. */
  function EligibleCount(table: seq<MessageRow>, leaseMs: int, now: int): nat {
    if |table| == 0 then 0
    else (if Eligible(table[0], leaseMs, now) then 1 else 0) + EligibleCount(table[1..], leaseMs, now)
  }

  /** DELETE FROM queue_messages WHERE message_id = id. */
  function DeleteById(table: seq<MessageRow>, id: nat): (r: seq<MessageRow>)
    ensures forall m :: m in r <==> m in table && m.id != id
    ensures |r| <= |table|
  {
    if |table| == 0 then []
    else if table[0].id == id then DeleteById(table[1..], id)
    else [table[0]] + DeleteById(table[1..], id)
  }

  predicate UniqueMessageIds(table: seq<MessageRow>) {
    forall i, j :: 0 <= i < j < |table| ==> table[i].id != table[j].id
  }

  predicate UniqueQueueNames(queues: seq<QueueRow>) {
    forall i, j :: 0 <= i < j < |queues| ==> queues[i].name != queues[j].name
  }

  predicate UniqueQueueIds(queues: seq<QueueRow>) {
    forall i, j :: 0 <= i < j < |queues| ==> queues[i].id != queues[j].id
  }

  /** The integrity the schema's keys guarantee: unique names and keys, counters ahead of every key. */
  predicate Valid(s: Store) {
    && UniqueQueueNames(s.queues)
    && UniqueQueueIds(s.queues)
    && UniqueMessageIds(s.messages)
    && (forall q :: q in s.queues ==> q.id < s.nextQueueId)
    && (forall m :: m in s.messages ==> m.id < s.nextMessageId)
  }

  /** Position of the queue row with this name, if any. */
  function QueueIndex(queues: seq<QueueRow>, name: string): (r: Option<nat>)
    ensures r.Some? ==> r.value < |queues| && queues[r.value].name == name
    ensures r.None? <==> forall q :: q in queues ==> q.name != name
  {
    if |queues| == 0 then None
    else if queues[0].name == name then Some(0)
    else
      match QueueIndex(queues[1..], name)
      case None => None
      case Some(k) => Some(k + 1)
  }

  /** The id of the queue row that `name` finds. */
  function IdOf(queues: seq<QueueRow>, name: string): nat
    requires QueueIndex(queues, name).Some?
  {
    queues[QueueIndex(queues, name).value].id
  }

  /** Every name that finds a queue in `before` still finds one in `after`, with the same id. */
  ghost predicate KeepsQueues(before: seq<QueueRow>, after: seq<QueueRow>) {
    forall n :: QueueIndex(before, n).Some? ==> QueueIndex(after, n).Some? && IdOf(after, n) == IdOf(before, n)
  }

  /** Rows that keep their names position by position are found at the same positions. */
  lemma {:induction false} QueueIndexSameNames(a: seq<QueueRow>, b: seq<QueueRow>, name: string)
    requires |a| == |b| && forall i :: 0 <= i < |a| ==> a[i].name == b[i].name
    ensures QueueIndex(a, name) == QueueIndex(b, name)
  {
    if |a| > 0 {
      QueueIndexSameNames(a[1..], b[1..], name);
    }
  }

  /** Appending a row never changes where an existing name is found. */
  lemma {:induction false} QueueIndexAppend(a: seq<QueueRow>, row: QueueRow, name: string)
    requires QueueIndex(a, name).Some?
    ensures QueueIndex(a + [row], name) == QueueIndex(a, name)
  {
    if a[0].name != name {
      assert (a + [row])[1..] == a[1..] + [row];
      QueueIndexAppend(a[1..], row, name);
    }
  }

  // ---------------------------------------------------------------------
  // Properties of claims
  // ---------------------------------------------------------------------

  /**
   * A row claimed at `t` may be claimed again at `now` exactly when more than
   * `leaseMs` milliseconds have passed since `t`.
   */
  lemma ClaimedEligibleIff(m: MessageRow, tok: Token, t: int, leaseMs: int, now: int)
    ensures Eligible(Claim(m, tok, t), leaseMs, now) <==> now > t + leaseMs
  {
  }

  /**
   * The loser of a race: when no row with the id is still eligible, the
   * conditional update affects nothing and reports zero rows.
   */
  lemma CasLoserChangesNothing(table: seq<MessageRow>, id: nat, tok: Token, leaseMs: int, now: int)
    requires !AnyMatch(table, id, leaseMs, now)
    ensures ConditionalUpdate(table, id, tok, leaseMs, now).count == 0
    ensures ConditionalUpdate(table, id, tok, leaseMs, now).table == table
  {
    var r := ConditionalUpdate(table, id, tok, leaseMs, now);
    ConditionalUpdateRows(table, id, tok, leaseMs, now);
    assert forall i :: 0 <= i < |table| ==> r.table[i] == table[i];
  }

  /**
   * Two conditional updates of the same row at the same `now` cannot both
   * win: after one succeeds, the other (with any non-negative lease) affects
   * no row.
   */
  lemma CasExclusive(table: seq<MessageRow>, id: nat, tokA: Token, leaseA: int, tokB: Token, leaseB: int, now: int)
    requires UniqueMessageIds(table)
    requires leaseB >= 0
    requires ConditionalUpdate(table, id, tokA, leaseA, now).count > 0
    ensures ConditionalUpdate(ConditionalUpdate(table, id, tokA, leaseA, now).table, id, tokB, leaseB, now).count == 0
  {
    var a := ConditionalUpdate(table, id, tokA, leaseA, now);
    ConditionalUpdateRows(table, id, tokA, leaseA, now);
    var k :| 0 <= k < |table| && Matches(table[k], id, leaseA, now);
    forall i | 0 <= i < |a.table|
      ensures !Matches(a.table[i], id, leaseB, now)
    {
      if i == k {
        assert a.table[i] == Claim(table[k], tokA, now);
      } else {
        assert table[i].id != id;
      }
    }
  }

  /**
   * With a non-negative lease, a conditional update turns exactly `count`
   * claimable rows into unclaimable ones and touches nothing else.
   */
  lemma {:induction false} CasEligibleCount(table: seq<MessageRow>, id: nat, tok: Token, leaseMs: int, now: int)
    requires leaseMs >= 0
    ensures EligibleCount(ConditionalUpdate(table, id, tok, leaseMs, now).table, leaseMs, now)
            + ConditionalUpdate(table, id, tok, leaseMs, now).count
            == EligibleCount(table, leaseMs, now)
  {
    if |table| > 0 {
      var r := ConditionalUpdate(table, id, tok, leaseMs, now);
      var rest := ConditionalUpdate(table[1..], id, tok, leaseMs, now);
      CasEligibleCount(table[1..], id, tok, leaseMs, now);
      assert r.table[1..] == rest.table;
    }
  }

  /** Deleting rows never makes more rows claimable. */
  lemma {:induction false} DeleteEligibleCount(table: seq<MessageRow>, id: nat, leaseMs: int, now: int)
    ensures EligibleCount(DeleteById(table, id), leaseMs, now) <= EligibleCount(table, leaseMs, now)
  {
    if |table| > 0 {
      DeleteEligibleCount(table[1..], id, leaseMs, now);
      if table[0].id != id {
        assert ([table[0]] + DeleteById(table[1..], id))[1..] == DeleteById(table[1..], id);
      }
    }
  }
}
