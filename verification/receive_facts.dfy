/**
 * Properties of the claim protocol (DbTable.Receive): what a receive returns,
 * what it writes, and why two claims of one row at the same instant cannot
 * both succeed.
 */
module ReceiveFacts {
  import opened Wrappers
  import opened Ranking
  import opened Tables
  import opened DbTable

  /** The first candidate position holding this id. */
  function CandidateIndex(cands: seq<MessageRow>, id: nat): (r: Option<nat>)
    ensures r.Some? ==> r.value < |cands| && cands[r.value].id == id
    ensures r.None? ==> forall j :: 0 <= j < |cands| ==> cands[j].id != id
  {
    if |cands| == 0 then None
    else if cands[0].id == id then Some(0)
    else
      match CandidateIndex(cands[1..], id)
      case None => None
      case Some(j) => Some(j + 1)
  }

  /** What an uninterrupted claim loop does to one row: claim it if it is a candidate. */
  function ClaimedRow(row: MessageRow, cands: seq<MessageRow>, k: nat, mint: nat -> Token, now: int): MessageRow {
    match CandidateIndex(cands, row.id)
    case None => row
    case Some(j) => Claim(row, mint(k + j), now)
  }

  // ---------------------------------------------------------------------
  // The claim loop
  // ---------------------------------------------------------------------

  /** Every kept row ranks no earlier than a bound that all candidates respect. */
  lemma {:induction false} ClaimAllRanksAfter(table: seq<MessageRow>, cands: seq<MessageRow>, k: nat, mint: nat -> Token,
                                              interfere: Interference, leaseMs: int, now: int, b: Rank)
    requires forall i :: 0 <= i < |cands| ==> RankLe(b, MessageRank(cands[i]))
    ensures var kept := ClaimAll(table, cands, k, mint, interfere, leaseMs, now).kept;
      forall j :: 0 <= j < |kept| ==> RankLe(b, MessageRank(kept[j]))
    decreases |cands|
  {
    if |cands| > 0 {
      var cas := ConditionalUpdate(interfere(k, table), cands[0].id, mint(k), leaseMs, now);
      assert forall i :: 0 <= i < |cands[1..]| ==> cands[1..][i] == cands[i + 1];
      ClaimAllRanksAfter(cas.table, cands[1..], k + 1, mint, interfere, leaseMs, now, b);
      ClaimAllStep(table, cands, k, mint, interfere, leaseMs, now);
      if cas.count > 0 {
        PrependRanksAfter(WithHandle(cands[0], mint(k)), ClaimAll(cas.table, cands[1..], k + 1, mint, interfere, leaseMs, now).kept, b);
      }
    }
  }

  /** A row ranking no earlier than a bound, put in front of rows that do too. */
  lemma PrependRanksAfter(h: MessageRow, rest: seq<MessageRow>, b: Rank)
    requires RankLe(b, MessageRank(h))
    requires forall j :: 0 <= j < |rest| ==> RankLe(b, MessageRank(rest[j]))
    ensures forall j :: 0 <= j < |rest| + 1 ==> RankLe(b, MessageRank(([h] + rest)[j]))
  {
    assert forall j :: 1 <= j < |rest| + 1 ==> ([h] + rest)[j] == rest[j - 1];
  }

  /** The kept rows stay in candidate order. */
  lemma {:induction false} ClaimAllSorted(table: seq<MessageRow>, cands: seq<MessageRow>, k: nat, mint: nat -> Token,
                                          interfere: Interference, leaseMs: int, now: int)
    requires SortedBy(cands, MessageRank)
    ensures SortedBy(ClaimAll(table, cands, k, mint, interfere, leaseMs, now).kept, MessageRank)
    decreases |cands|
  {
    if |cands| > 0 {
      var cas := ConditionalUpdate(interfere(k, table), cands[0].id, mint(k), leaseMs, now);
      var rest := ClaimAll(cas.table, cands[1..], k + 1, mint, interfere, leaseMs, now);
      SortedTail(cands, MessageRank);
      ClaimAllSorted(cas.table, cands[1..], k + 1, mint, interfere, leaseMs, now);
      ClaimAllStep(table, cands, k, mint, interfere, leaseMs, now);
      if cas.count > 0 {
        var head := WithHandle(cands[0], mint(k));
        assert MessageRank(head) == MessageRank(cands[0]);
        ClaimAllRanksAfter(cas.table, cands[1..], k + 1, mint, interfere, leaseMs, now, MessageRank(head));
        PrependSorted(head, rest.kept, MessageRank);
      }
    }
  }

  /**
   * The loop counters whose conditional update affected a row, in the order
   * the loop ran them: counter `k + i` stands for candidate `i`.
   */
  function Winners(table: seq<MessageRow>, cands: seq<MessageRow>, k: nat, mint: nat -> Token,
                   interfere: Interference, leaseMs: int, now: int): (w: seq<nat>)
    ensures |w| <= |cands|
    ensures forall j :: 0 <= j < |w| ==> k <= w[j] < k + |cands|
    ensures forall i, j :: 0 <= i < j < |w| ==> w[i] < w[j]
    decreases |cands|
  {
    if |cands| == 0 then []
    else
      var cas := ConditionalUpdate(interfere(k, table), cands[0].id, mint(k), leaseMs, now);
      var rest := Winners(cas.table, cands[1..], k + 1, mint, interfere, leaseMs, now);
      if cas.count > 0 then
        assert forall j :: 1 <= j < |rest| + 1 ==> ([k] + rest)[j] == rest[j - 1];
        [k] + rest
      else rest
  }

  /** The table the claim loop's `i`-th conditional update starts from, before other workers act on it. */
  function TableBefore(table: seq<MessageRow>, cands: seq<MessageRow>, k: nat, mint: nat -> Token,
                       interfere: Interference, leaseMs: int, now: int, i: nat): seq<MessageRow>
    requires i <= |cands|
    decreases i
  {
    if i == 0 then table
    else
      var cas := ConditionalUpdate(interfere(k, table), cands[0].id, mint(k), leaseMs, now);
      TableBefore(cas.table, cands[1..], k + 1, mint, interfere, leaseMs, now, i - 1)
  }

  /** Kept row `j` is the candidate of turn `w[j]` (counting from `k`), with that turn's handle. */
  predicate KeptAt(kept: seq<MessageRow>, w: seq<nat>, cands: seq<MessageRow>, k: nat, mint: nat -> Token) {
    && |kept| == |w|
    && forall j :: 0 <= j < |kept| ==> k <= w[j] < k + |cands| && kept[j] == WithHandle(cands[w[j] - k], mint(w[j]))
  }

  /**
   * The kept rows are the winning candidates, in candidate order, each with
   * the handle minted for its turn: a subsequence of the select's rows, so
   * ties in rank keep the select's order and no row is kept twice.
   */
  lemma {:induction false} ClaimAllKeepsWinners(table: seq<MessageRow>, cands: seq<MessageRow>, k: nat, mint: nat -> Token,
                                                interfere: Interference, leaseMs: int, now: int)
    ensures KeptAt(ClaimAll(table, cands, k, mint, interfere, leaseMs, now).kept,
                   Winners(table, cands, k, mint, interfere, leaseMs, now), cands, k, mint)
    decreases |cands|
  {
    if |cands| > 0 {
      var cas := ConditionalUpdate(interfere(k, table), cands[0].id, mint(k), leaseMs, now);
      ClaimAllKeepsWinners(cas.table, cands[1..], k + 1, mint, interfere, leaseMs, now);
      ClaimAllStep(table, cands, k, mint, interfere, leaseMs, now);
      WinnersStep(table, cands, k, mint, interfere, leaseMs, now);
      KeptWinnersCons(ClaimAll(table, cands, k, mint, interfere, leaseMs, now).kept, Winners(table, cands, k, mint, interfere, leaseMs, now),
                      ClaimAll(cas.table, cands[1..], k + 1, mint, interfere, leaseMs, now).kept,
                      Winners(cas.table, cands[1..], k + 1, mint, interfere, leaseMs, now), cands, k, mint, cas.count > 0);
    }
  }

  /** One turn of the loop as seen by the winners: the first counter wins exactly when its update matched. */
  lemma WinnersStep(table: seq<MessageRow>, cands: seq<MessageRow>, k: nat, mint: nat -> Token,
                    interfere: Interference, leaseMs: int, now: int)
    requires |cands| > 0
    ensures var cas := ConditionalUpdate(interfere(k, table), cands[0].id, mint(k), leaseMs, now);
      var rest := Winners(cas.table, cands[1..], k + 1, mint, interfere, leaseMs, now);
      Winners(table, cands, k, mint, interfere, leaseMs, now) == if cas.count > 0 then [k] + rest else rest
  {
  }

  /** The first candidate, kept or not, in front of the rest's winners. */
  lemma KeptWinnersCons(kept: seq<MessageRow>, ws: seq<nat>, rest: seq<MessageRow>, w: seq<nat>,
                        cands: seq<MessageRow>, k: nat, mint: nat -> Token, won: bool)
    requires |cands| > 0
    requires KeptAt(rest, w, cands[1..], k + 1, mint)
    requires kept == if won then [WithHandle(cands[0], mint(k))] + rest else rest
    requires ws == if won then [k] + w else w
    ensures KeptAt(kept, ws, cands, k, mint)
  {
    ShiftKept(rest, w, cands, k, mint);
    if won {
      forall j | 1 <= j < |kept|
        ensures k <= ws[j] < k + |cands| && kept[j] == WithHandle(cands[ws[j] - k], mint(ws[j]))
      {
        assert kept[j] == rest[j - 1] && ws[j] == w[j - 1];
      }
    }
  }

  /** The rest's turns, counted from the loop's first turn instead of its second. */
  lemma ShiftKept(rest: seq<MessageRow>, w: seq<nat>, cands: seq<MessageRow>, k: nat, mint: nat -> Token)
    requires |cands| > 0 && KeptAt(rest, w, cands[1..], k + 1, mint)
    ensures KeptAt(rest, w, cands, k, mint)
  {
    forall j | 0 <= j < |rest| ensures cands[1..][w[j] - (k + 1)] == cands[w[j] - k] { }
  }

  /**
   * A candidate is among the winners exactly when its conditional update,
   * run against the table other workers left, found its row still claimable.
   */
  lemma {:induction false} WinnersAreMatches(table: seq<MessageRow>, cands: seq<MessageRow>, k: nat, mint: nat -> Token,
                                             interfere: Interference, leaseMs: int, now: int)
    ensures forall i :: 0 <= i < |cands| ==>
      (k + i in Winners(table, cands, k, mint, interfere, leaseMs, now) <==>
         AnyMatch(interfere(k + i, TableBefore(table, cands, k, mint, interfere, leaseMs, now, i)), cands[i].id, leaseMs, now))
    decreases |cands|
  {
    if |cands| > 0 {
      var cas := ConditionalUpdate(interfere(k, table), cands[0].id, mint(k), leaseMs, now);
      var w := Winners(table, cands, k, mint, interfere, leaseMs, now);
      var rest := Winners(cas.table, cands[1..], k + 1, mint, interfere, leaseMs, now);
      WinnersAreMatches(cas.table, cands[1..], k + 1, mint, interfere, leaseMs, now);
      assert w == if cas.count > 0 then [k] + rest else rest;
      forall i | 0 <= i < |cands|
        ensures k + i in w <==>
          AnyMatch(interfere(k + i, TableBefore(table, cands, k, mint, interfere, leaseMs, now, i)), cands[i].id, leaseMs, now)
      {
        if i == 0 {
          assert k !in rest;
        } else {
          assert TableBefore(table, cands, k, mint, interfere, leaseMs, now, i)
              == TableBefore(cas.table, cands[1..], k + 1, mint, interfere, leaseMs, now, i - 1);
          assert cands[1..][i - 1] == cands[i];
          assert k + 1 + (i - 1) == k + i;
        }
      }
    }
  }

  /**
   * Without interference a claim loop only rewrites handles and claim
   * times: the table keeps its length and every other column of every row.
   */
  lemma {:induction false} ClaimAllOnlyClaims(table: seq<MessageRow>, cands: seq<MessageRow>, k: nat, mint: nat -> Token,
                                              leaseMs: int, now: int)
    ensures var t := ClaimAll(table, cands, k, mint, NoInterference, leaseMs, now).table;
      && |t| == |table|
      && forall i :: 0 <= i < |table| ==> t[i].(handle := table[i].handle, timeout := table[i].timeout) == table[i]
    decreases |cands|
  {
    if |cands| > 0 {
      var cas := ConditionalUpdate(table, cands[0].id, mint(k), leaseMs, now);
      ConditionalUpdateRows(table, cands[0].id, mint(k), leaseMs, now);
      ClaimAllOnlyClaims(cas.table, cands[1..], k + 1, mint, leaseMs, now);
    }
  }

  /**
   * Each kept row cost the table at least one claimable row, so without
   * interference the number of claimable rows drops by at least the number
   * of rows claimed.
   */
  lemma {:induction false} ClaimAllEligibleCount(table: seq<MessageRow>, cands: seq<MessageRow>, k: nat, mint: nat -> Token,
                                                 leaseMs: int, now: int)
    requires leaseMs >= 0
    ensures var r := ClaimAll(table, cands, k, mint, NoInterference, leaseMs, now);
      EligibleCount(r.table, leaseMs, now) + |r.kept| <= EligibleCount(table, leaseMs, now)
    decreases |cands|
  {
    if |cands| > 0 {
      var cas := ConditionalUpdate(table, cands[0].id, mint(k), leaseMs, now);
      CasEligibleCount(table, cands[0].id, mint(k), leaseMs, now);
      ClaimAllEligibleCount(cas.table, cands[1..], k + 1, mint, leaseMs, now);
    }
  }

  /**
   * The race: a candidate whose row no table seen by the updates offers as
   * claimable (and which interference never makes claimable again) is not
   * returned; the loser of the race drops it without an error.
   */
  lemma {:induction false} ClaimAllRaceLoser(table: seq<MessageRow>, cands: seq<MessageRow>, k: nat, mint: nat -> Token,
                                             interfere: Interference, leaseMs: int, now: int, x: nat)
    requires leaseMs >= 0
    requires forall j: nat, t: seq<MessageRow> {:trigger AnyMatch(interfere(j, t), x, leaseMs, now)} :: !AnyMatch(t, x, leaseMs, now) ==> !AnyMatch(interfere(j, t), x, leaseMs, now)
    requires !AnyMatch(interfere(k, table), x, leaseMs, now)
    ensures forall m :: m in ClaimAll(table, cands, k, mint, interfere, leaseMs, now).kept ==> m.id != x
    decreases |cands|
  {
    if |cands| > 0 {
      RaceLoserStep(table, cands, k, mint, interfere, leaseMs, now, x);
      var cas := ConditionalUpdate(interfere(k, table), cands[0].id, mint(k), leaseMs, now);
      ClaimAllRaceLoser(cas.table, cands[1..], k + 1, mint, interfere, leaseMs, now, x);
    }
  }

  /** One turn of the race: the next table still offers `x` nowhere, and the turn itself keeps `x` out. */
  lemma RaceLoserStep(table: seq<MessageRow>, cands: seq<MessageRow>, k: nat, mint: nat -> Token,
                      interfere: Interference, leaseMs: int, now: int, x: nat)
    requires |cands| > 0 && leaseMs >= 0
    requires forall j: nat, t: seq<MessageRow> {:trigger AnyMatch(interfere(j, t), x, leaseMs, now)} :: !AnyMatch(t, x, leaseMs, now) ==> !AnyMatch(interfere(j, t), x, leaseMs, now)
    requires !AnyMatch(interfere(k, table), x, leaseMs, now)
    ensures var cas := ConditionalUpdate(interfere(k, table), cands[0].id, mint(k), leaseMs, now);
      && !AnyMatch(interfere(k + 1, cas.table), x, leaseMs, now)
      && ((forall m :: m in ClaimAll(cas.table, cands[1..], k + 1, mint, interfere, leaseMs, now).kept ==> m.id != x) ==>
          (forall m :: m in ClaimAll(table, cands, k, mint, interfere, leaseMs, now).kept ==> m.id != x))
  {
    var cas := ConditionalUpdate(interfere(k, table), cands[0].id, mint(k), leaseMs, now);
    CasLoses(interfere(k, table), cands[0].id, mint(k), leaseMs, now, x);
    ClaimAllStep(table, cands, k, mint, interfere, leaseMs, now);
    var rest := ClaimAll(cas.table, cands[1..], k + 1, mint, interfere, leaseMs, now).kept;
    if cas.count > 0 && forall m :: m in rest ==> m.id != x {
      PrependAvoidsId(WithHandle(cands[0], mint(k)), rest, x);
    }
  }

  /** Putting a row with another id in front keeps an id out of a sequence. */
  lemma PrependAvoidsId(h: MessageRow, rest: seq<MessageRow>, x: nat)
    requires h.id != x
    requires forall m :: m in rest ==> m.id != x
    ensures forall m :: m in [h] + rest ==> m.id != x
  {
  }

  /** An update on a table that offers `x` nowhere leaves `x` unoffered, and it only succeeds for another id. */
  lemma CasLoses(seen: seq<MessageRow>, id: nat, tok: Token, leaseMs: int, now: int, x: nat)
    requires leaseMs >= 0
    requires !AnyMatch(seen, x, leaseMs, now)
    ensures var cas := ConditionalUpdate(seen, id, tok, leaseMs, now);
      !AnyMatch(cas.table, x, leaseMs, now) && (cas.count > 0 ==> id != x)
  {
    CasKeepsUnmatched(seen, id, tok, leaseMs, now, x);
    if id == x {
      CasLoserChangesNothing(seen, x, tok, leaseMs, now);
    }
  }

  /** A conditional update claims rows, and a claimed row matches nothing at the same `now`. */
  lemma CasKeepsUnmatched(seen: seq<MessageRow>, id: nat, tok: Token, leaseMs: int, now: int, x: nat)
    requires leaseMs >= 0
    requires !AnyMatch(seen, x, leaseMs, now)
    ensures !AnyMatch(ConditionalUpdate(seen, id, tok, leaseMs, now).table, x, leaseMs, now)
  {
    var cas := ConditionalUpdate(seen, id, tok, leaseMs, now);
    ConditionalUpdateRows(seen, id, tok, leaseMs, now);
    forall i | 0 <= i < |cas.table|
      ensures !Matches(cas.table[i], x, leaseMs, now)
    {
      if Matches(seen[i], id, leaseMs, now) {
        assert cas.table[i] == Claim(seen[i], tok, now);
      } else {
        assert cas.table[i] == seen[i];
      }
    }
  }

  /**
   * Without interference, on a table with unique ids, every candidate that
   * is a claimable row of the table is claimed: the loop returns all of them
   * with their new handles, and the table ends with exactly the candidate
   * rows claimed and every other row as it was.
   */
  lemma ClaimAllUninterfered(table: seq<MessageRow>, cands: seq<MessageRow>, k: nat, mint: nat -> Token,
                             leaseMs: int, now: int)
    requires leaseMs >= 0
    requires UniqueMessageIds(table) && UniqueMessageIds(cands)
    requires forall c :: c in cands ==> c in table && Eligible(c, leaseMs, now)
    ensures var r := ClaimAll(table, cands, k, mint, NoInterference, leaseMs, now);
      && r.kept == Handed(cands, k, mint)
      && |r.table| == |table|
      && forall i :: 0 <= i < |table| ==> r.table[i] == ClaimedRow(table[i], cands, k, mint, now)
  {
    ClaimAllKeepsAll(table, cands, k, mint, leaseMs, now);
    ClaimAllRows(table, cands, k, mint, leaseMs, now);
  }

  lemma {:induction false} ClaimAllKeepsAll(table: seq<MessageRow>, cands: seq<MessageRow>, k: nat, mint: nat -> Token,
                                            leaseMs: int, now: int)
    requires UniqueMessageIds(table) && UniqueMessageIds(cands)
    requires forall c :: c in cands ==> c in table && Eligible(c, leaseMs, now)
    ensures ClaimAll(table, cands, k, mint, NoInterference, leaseMs, now).kept == Handed(cands, k, mint)
    decreases |cands|
  {
    if |cands| > 0 {
      var cas := ConditionalUpdate(table, cands[0].id, mint(k), leaseMs, now);
      FirstClaimWins(table, cands, mint(k), leaseMs, now);
      ClaimAllKeepsAll(cas.table, cands[1..], k + 1, mint, leaseMs, now);
      var rest := ClaimAll(cas.table, cands[1..], k + 1, mint, NoInterference, leaseMs, now);
      assert ClaimAll(table, cands, k, mint, NoInterference, leaseMs, now).kept
          == [WithHandle(cands[0], mint(k))] + rest.kept;
      HandedCons(cands, k, mint);
    }
  }

  lemma {:induction false} ClaimAllRows(table: seq<MessageRow>, cands: seq<MessageRow>, k: nat, mint: nat -> Token,
                                        leaseMs: int, now: int)
    requires UniqueMessageIds(table) && UniqueMessageIds(cands)
    requires forall c :: c in cands ==> c in table && Eligible(c, leaseMs, now)
    ensures var t := ClaimAll(table, cands, k, mint, NoInterference, leaseMs, now).table;
      && |t| == |table|
      && forall i :: 0 <= i < |table| ==> t[i] == ClaimedRow(table[i], cands, k, mint, now)
    decreases |cands|
  {
    if |cands| > 0 {
      var cas := ConditionalUpdate(table, cands[0].id, mint(k), leaseMs, now);
      FirstClaimWins(table, cands, mint(k), leaseMs, now);
      ClaimAllRows(cas.table, cands[1..], k + 1, mint, leaseMs, now);
      var t := ClaimAll(table, cands, k, mint, NoInterference, leaseMs, now).table;
      assert t == ClaimAll(cas.table, cands[1..], k + 1, mint, NoInterference, leaseMs, now).table;
      forall i | 0 <= i < |table|
        ensures t[i] == ClaimedRow(table[i], cands, k, mint, now)
      {
        ClaimedRowStep(table[i], cas.table[i], cands, k, mint, now);
      }
    }
  }

  /**
   * The first conditional update of an uninterrupted loop claims the first
   * candidate's row and nothing else, leaving the other candidates claimable.
   */
  lemma FirstClaimWins(table: seq<MessageRow>, cands: seq<MessageRow>, tok: Token, leaseMs: int, now: int)
    requires |cands| > 0
    requires UniqueMessageIds(table) && UniqueMessageIds(cands)
    requires forall c :: c in cands ==> c in table && Eligible(c, leaseMs, now)
    ensures var cas := ConditionalUpdate(table, cands[0].id, tok, leaseMs, now);
      && cas.count > 0
      && UniqueMessageIds(cas.table)
      && (forall i :: 0 <= i < |table| ==>
            cas.table[i] == (if table[i].id == cands[0].id then Claim(table[i], tok, now) else table[i]))
      && UniqueMessageIds(cands[1..])
      && forall d :: d in cands[1..] ==> d in cas.table && Eligible(d, leaseMs, now)
  {
    var c := cands[0];
    assert c in cands;
    var p :| 0 <= p < |table| && table[p] == c;
    CasClaimsOnlyThatRow(table, c.id, tok, leaseMs, now, p);
    CasKeepsUniqueIds(table, c.id, tok, leaseMs, now);
    TailStaysClaimable(table, cands, tok, leaseMs, now);
  }

  /** On a table with unique ids, an update of a claimable id claims that row and only it. */
  lemma CasClaimsOnlyThatRow(table: seq<MessageRow>, id: nat, tok: Token, leaseMs: int, now: int, p: nat)
    requires UniqueMessageIds(table)
    requires p < |table| && Matches(table[p], id, leaseMs, now)
    ensures var cas := ConditionalUpdate(table, id, tok, leaseMs, now);
      && cas.count > 0
      && forall i :: 0 <= i < |table| ==>
           cas.table[i] == (if table[i].id == id then Claim(table[i], tok, now) else table[i])
  {
    var cas := ConditionalUpdate(table, id, tok, leaseMs, now);
    ConditionalUpdateRows(table, id, tok, leaseMs, now);
    forall i | 0 <= i < |table|
      ensures cas.table[i] == (if table[i].id == id then Claim(table[i], tok, now) else table[i])
    {
      if table[i].id == id {
        assert i == p;
      }
    }
  }

  /** A conditional update changes no row's id. */
  lemma CasKeepsUniqueIds(table: seq<MessageRow>, id: nat, tok: Token, leaseMs: int, now: int)
    requires UniqueMessageIds(table)
    ensures UniqueMessageIds(ConditionalUpdate(table, id, tok, leaseMs, now).table)
  {
    var cas := ConditionalUpdate(table, id, tok, leaseMs, now);
    ConditionalUpdateRows(table, id, tok, leaseMs, now);
    forall i, j | 0 <= i < j < |cas.table| ensures cas.table[i].id != cas.table[j].id {
      assert cas.table[i].id == table[i].id && cas.table[j].id == table[j].id;
    }
  }

  /** Claiming the first candidate leaves every later candidate in the table and claimable. */
  lemma TailStaysClaimable(table: seq<MessageRow>, cands: seq<MessageRow>, tok: Token, leaseMs: int, now: int)
    requires |cands| > 0
    requires UniqueMessageIds(cands)
    requires forall c :: c in cands ==> c in table && Eligible(c, leaseMs, now)
    ensures var cas := ConditionalUpdate(table, cands[0].id, tok, leaseMs, now);
      && UniqueMessageIds(cands[1..])
      && forall d :: d in cands[1..] ==> d in cas.table && Eligible(d, leaseMs, now)
  {
    var cas := ConditionalUpdate(table, cands[0].id, tok, leaseMs, now);
    ConditionalUpdateRows(table, cands[0].id, tok, leaseMs, now);
    var tail := cands[1..];
    forall d | d in tail
      ensures d in cas.table && Eligible(d, leaseMs, now)
    {
      var jd :| 0 <= jd < |tail| && tail[jd] == d;
      assert cands[jd + 1] == d && d.id != cands[0].id;
      assert d in cands;
      var q :| 0 <= q < |table| && table[q] == d;
      assert cas.table[q] == d;
    }
  }

  /** How one row's fate under the whole loop follows from its fate under the rest of the loop. */
  lemma ClaimedRowStep(row: MessageRow, after: MessageRow, cands: seq<MessageRow>, k: nat, mint: nat -> Token, now: int)
    requires |cands| > 0 && UniqueMessageIds(cands)
    requires after == (if row.id == cands[0].id then Claim(row, mint(k), now) else row)
    ensures ClaimedRow(after, cands[1..], k + 1, mint, now) == ClaimedRow(row, cands, k, mint, now)
  {
    var tail := cands[1..];
    if row.id == cands[0].id {
      assert CandidateIndex(cands, row.id) == Some(0);
      forall j | 0 <= j < |tail| ensures tail[j].id != row.id {
        assert tail[j] == cands[j + 1];
      }
      assert CandidateIndex(tail, after.id).None?;
    } else {
      match CandidateIndex(tail, row.id)
      case None =>
      case Some(j) =>
        assert CandidateIndex(cands, row.id) == Some(j + 1);
    }
  }

  // ---------------------------------------------------------------------
  // Rows of a unique-id table
  // ---------------------------------------------------------------------

  /** Rows of a table with unique ids occur once each. */
  lemma {:induction false} UniqueIdsOccurOnce(table: seq<MessageRow>, m: MessageRow)
    requires UniqueMessageIds(table)
    ensures multiset(table)[m] <= 1
  {
    if |table| > 0 {
      assert table == [table[0]] + table[1..];
      assert UniqueMessageIds(table[1..]);
      UniqueIdsOccurOnce(table[1..], m);
      if m == table[0] {
        assert m !in table[1..] by {
          forall j | 0 <= j < |table[1..]| ensures table[1..][j] != m {
            assert table[1..][j] == table[j + 1];
          }
        }
      }
    }
  }

  /** A sequence in which nothing occurs twice has no repeated positions. */
  lemma NoRepeats<T>(s: seq<T>, i: nat, j: nat)
    requires forall x :: multiset(s)[x] <= 1
    requires i < j < |s|
    ensures s[i] != s[j]
  {
    assert s == s[..j] + [s[j]] + s[j + 1..];
    assert s[i] in s[..j];
    assert multiset(s)[s[j]] == multiset(s[..j])[s[j]] + 1 + multiset(s[j + 1..])[s[j]];
    assert s[j] !in multiset(s[..j]);
  }

  /** A selection from a table with unique ids has unique ids. */
  lemma SelectUniqueIds(table: seq<MessageRow>, qid: nat, n: nat, leaseMs: int, now: int)
    requires UniqueMessageIds(table)
    ensures UniqueMessageIds(Select(table, qid, n, leaseMs, now))
  {
    var e := Selectable(table, qid, leaseMs, now);
    var r := Select(table, qid, n, leaseMs, now);
    forall x ensures multiset(r)[x] <= 1 {
      UniqueIdsOccurOnce(table, x);
    }
    SelectSpec(table, qid, n, leaseMs, now);
    DistinctRowsKeepIds(table, r);
  }

  /** Distinct rows drawn from a table with unique ids have unique ids. */
  lemma DistinctRowsKeepIds(table: seq<MessageRow>, r: seq<MessageRow>)
    requires UniqueMessageIds(table)
    requires forall m :: m in r ==> m in table
    requires forall x :: multiset(r)[x] <= 1
    ensures UniqueMessageIds(r)
  {
    forall i, j | 0 <= i < j < |r|
      ensures r[i].id != r[j].id
    {
      NoRepeats(r, i, j);
      assert r[i] in r && r[j] in r;
      var p :| 0 <= p < |table| && table[p] == r[i];
      var q :| 0 <= q < |table| && table[q] == r[j];
      assert p != q;
    }
  }

  // ---------------------------------------------------------------------
  // receive as a whole
  // ---------------------------------------------------------------------

  /** The id of the queue a successful receive worked on. */
  function TargetId(a: Adapter, queue: string): nat
    requires QueueIndex(a.store.queues, queue).Some?
  {
    a.store.queues[QueueIndex(a.store.queues, queue).value].id
  }

  /** The rows a receive selects. */
  function Candidates(a: Adapter, maxMessages: Option<int>, timeout: Option<int>, queue: string, now: int): seq<MessageRow>
    requires QueueIndex(a.store.queues, queue).Some? && EffectiveMax(maxMessages) > 0
  {
    Select(a.store.messages, TargetId(a, queue), EffectiveMax(maxMessages) as nat, LeaseMillis(timeout), now)
  }

  /** A successful receive is the select, the claim loop over its rows, and the watermark update. */
  lemma ReceiveSuccessShape(a: Adapter, maxMessages: Option<int>, timeout: Option<int>, queue: string, now: int,
                            mint: nat -> Token, interfere: Interference, fault: Option<nat>)
    requires Receive(a, maxMessages, timeout, queue, now, mint, interfere, fault).result.Success?
    ensures EffectiveMax(maxMessages) > 0 && LeaseMillis(timeout) > 0
    ensures QueueIndex(a.store.queues, queue).Some?
    ensures var claims := ClaimAll(a.store.messages, Candidates(a, maxMessages, timeout, queue, now), 0, mint, interfere,
                                   LeaseMillis(timeout), now);
      Receive(a, maxMessages, timeout, queue, now, mint, interfere, fault)
        == Outcome(Success(claims.kept),
                   a.(store := a.store.(messages := claims.table,
                                        queues := Watermark(a.store.queues, TargetId(a, queue), now))))
  {
  }

  /**
   * What a receive hands back: at most `maxMessages` messages, each with a
   * handle, each the data of a row of the requested queue that was
   * claimable when selected, highest priority first and oldest first.
   */
  lemma ReceiveReturnsClaimable(a: Adapter, maxMessages: Option<int>, timeout: Option<int>, queue: string, now: int,
                                mint: nat -> Token, interfere: Interference, fault: Option<nat>)
    requires Receive(a, maxMessages, timeout, queue, now, mint, interfere, fault).result.Success?
    ensures QueueIndex(a.store.queues, queue).Some?
    ensures var msgs := Receive(a, maxMessages, timeout, queue, now, mint, interfere, fault).result.value;
      && |msgs| <= EffectiveMax(maxMessages)
      && SortedBy(msgs, MessageRank)
      && forall m :: m in msgs ==>
           && m.handle.Some?
           && exists c :: c in a.store.messages && c.queueId == TargetId(a, queue)
                && Eligible(c, LeaseMillis(timeout), now) && m == WithHandle(c, m.handle.value)
  {
    ReceiveSuccessShape(a, maxMessages, timeout, queue, now, mint, interfere, fault);
    var cands := Candidates(a, maxMessages, timeout, queue, now);
    var leaseMs := LeaseMillis(timeout);
    var claims := ClaimAll(a.store.messages, cands, 0, mint, interfere, leaseMs, now);
    ClaimAllKeepsCandidates(a.store.messages, cands, 0, mint, interfere, leaseMs, now);
    SelectSpec(a.store.messages, TargetId(a, queue), EffectiveMax(maxMessages) as nat, leaseMs, now);
    ClaimAllSorted(a.store.messages, cands, 0, mint, interfere, leaseMs, now);
    KeptClaimable(a.store.messages, cands, claims.kept, TargetId(a, queue), leaseMs, now, mint);
  }

  /**
   * Exactly what a receive hands back: the selected rows whose conditional
   * update found them still claimable in the table as other workers left
   * it, in select order, each with the handle minted for its turn.
   */
  lemma ReceiveKeepsSelectOrder(a: Adapter, maxMessages: Option<int>, timeout: Option<int>, queue: string, now: int,
                                mint: nat -> Token, interfere: Interference, fault: Option<nat>)
    requires Receive(a, maxMessages, timeout, queue, now, mint, interfere, fault).result.Success?
    ensures QueueIndex(a.store.queues, queue).Some? && EffectiveMax(maxMessages) > 0
    ensures var msgs := Receive(a, maxMessages, timeout, queue, now, mint, interfere, fault).result.value;
      var cands := Candidates(a, maxMessages, timeout, queue, now);
      var w := Winners(a.store.messages, cands, 0, mint, interfere, LeaseMillis(timeout), now);
      && |msgs| == |w|
      && (forall j :: 0 <= j < |msgs| ==> msgs[j] == WithHandle(cands[w[j]], mint(w[j])))
      && forall i :: 0 <= i < |cands| ==>
           (i in w <==>
            AnyMatch(interfere(i, TableBefore(a.store.messages, cands, 0, mint, interfere, LeaseMillis(timeout), now, i)),
                     cands[i].id, LeaseMillis(timeout), now))
  {
    ReceiveSuccessShape(a, maxMessages, timeout, queue, now, mint, interfere, fault);
    var cands := Candidates(a, maxMessages, timeout, queue, now);
    var kept := ClaimAll(a.store.messages, cands, 0, mint, interfere, LeaseMillis(timeout), now).kept;
    assert Receive(a, maxMessages, timeout, queue, now, mint, interfere, fault).result.value == kept;
    ClaimAllExactly(a.store.messages, cands, mint, interfere, LeaseMillis(timeout), now);
  }

  /** The claim loop from its first turn: the kept rows are the winners, and the winners are the matches. */
  lemma ClaimAllExactly(table: seq<MessageRow>, cands: seq<MessageRow>, mint: nat -> Token,
                        interfere: Interference, leaseMs: int, now: int)
    ensures var kept := ClaimAll(table, cands, 0, mint, interfere, leaseMs, now).kept;
      var w := Winners(table, cands, 0, mint, interfere, leaseMs, now);
      && |kept| == |w|
      && (forall j :: 0 <= j < |kept| ==> kept[j] == WithHandle(cands[w[j]], mint(w[j])))
      && forall i :: 0 <= i < |cands| ==>
           (i in w <==> AnyMatch(interfere(i, TableBefore(table, cands, 0, mint, interfere, leaseMs, now, i)), cands[i].id, leaseMs, now))
  {
    var kept := ClaimAll(table, cands, 0, mint, interfere, leaseMs, now).kept;
    var w := Winners(table, cands, 0, mint, interfere, leaseMs, now);
    ClaimAllKeepsWinners(table, cands, 0, mint, interfere, leaseMs, now);
    WinnersAreMatches(table, cands, 0, mint, interfere, leaseMs, now);
    FromFirstTurn(kept, w, cands, mint, (i: nat) requires i <= |cands| => TableBefore(table, cands, 0, mint, interfere, leaseMs, now, i),
                  interfere, leaseMs, now);
  }

  /** Facts about a loop started at counter 0, restated with the counter as the candidate index. */
  lemma FromFirstTurn(kept: seq<MessageRow>, w: seq<nat>, cands: seq<MessageRow>, mint: nat -> Token,
                      before: nat --> seq<MessageRow>, interfere: Interference, leaseMs: int, now: int)
    requires forall i :: 0 <= i <= |cands| ==> before.requires(i)
    requires KeptAt(kept, w, cands, 0, mint)
    requires forall i :: 0 <= i < |cands| ==> (0 + i in w <==> AnyMatch(interfere(0 + i, before(i)), cands[i].id, leaseMs, now))
    ensures forall j :: 0 <= j < |kept| ==> kept[j] == WithHandle(cands[w[j]], mint(w[j]))
    ensures forall i :: 0 <= i < |cands| ==> (i in w <==> AnyMatch(interfere(i, before(i)), cands[i].id, leaseMs, now))
  {
  }

  /** Rows handed back from claimable candidates of a queue carry a handle and the data of such a row. */
  lemma KeptClaimable(table: seq<MessageRow>, cands: seq<MessageRow>, kept: seq<MessageRow>, qid: nat,
                      leaseMs: int, now: int, mint: nat -> Token)
    requires forall j :: 0 <= j < |kept| ==> kept[j] in Handed(cands, 0, mint)
    requires forall m :: m in cands ==> m in table && m.queueId == qid && Eligible(m, leaseMs, now)
    ensures forall m :: m in kept ==>
      && m.handle.Some?
      && exists c :: c in table && c.queueId == qid && Eligible(c, leaseMs, now) && m == WithHandle(c, m.handle.value)
  {
    forall m | m in kept
      ensures && m.handle.Some?
              && exists c :: c in table && c.queueId == qid && Eligible(c, leaseMs, now) && m == WithHandle(c, m.handle.value)
    {
      var j :| 0 <= j < |kept| && kept[j] == m;
      var i :| 0 <= i < |cands| && Handed(cands, 0, mint)[i] == m;
      assert cands[i] in cands;
    }
  }

  /**
   * After a successful receive the queue's watermark is the larger of its
   * old value and `now` (also when nothing was claimed); no watermark ever
   * goes down, and other queues keep theirs.
   */
  lemma ReceiveAdvancesWatermark(a: Adapter, maxMessages: Option<int>, timeout: Option<int>, queue: string, now: int,
                                 mint: nat -> Token, interfere: Interference, fault: Option<nat>)
    requires UniqueQueueIds(a.store.queues)
    requires Receive(a, maxMessages, timeout, queue, now, mint, interfere, fault).result.Success?
    ensures QueueIndex(a.store.queues, queue).Some?
    ensures var qi := QueueIndex(a.store.queues, queue).value;
      var before := a.store.queues;
      var after := Receive(a, maxMessages, timeout, queue, now, mint, interfere, fault).adapter.store.queues;
      && |after| == |before|
      && after[qi] == before[qi].(received := if now > before[qi].received then now else before[qi].received)
      && (forall i :: 0 <= i < |before| && i != qi ==> after[i] == before[i])
      && (forall i :: 0 <= i < |before| ==> after[i].received >= before[i].received)
  {
    ReceiveSuccessShape(a, maxMessages, timeout, queue, now, mint, interfere, fault);
    var qi := QueueIndex(a.store.queues, queue).value;
    forall i | 0 <= i < |a.store.queues| && i != qi
      ensures a.store.queues[i].id != a.store.queues[qi].id
    {
      if i < qi {} else {}
    }
  }

  /**
   * Without interference on a table with unique ids, a receive claims every
   * row it selects: it returns exactly the selected rows with their new
   * handles, and the table ends with just those rows claimed at `now`.
   */
  lemma ReceiveClaimsSelected(a: Adapter, maxMessages: Option<int>, timeout: Option<int>, queue: string, now: int,
                              mint: nat -> Token, fault: Option<nat>)
    requires UniqueMessageIds(a.store.messages)
    requires Receive(a, maxMessages, timeout, queue, now, mint, NoInterference, fault).result.Success?
    ensures QueueIndex(a.store.queues, queue).Some? && EffectiveMax(maxMessages) > 0
    ensures var r := Receive(a, maxMessages, timeout, queue, now, mint, NoInterference, fault);
      var cands := Candidates(a, maxMessages, timeout, queue, now);
      && r.result.value == Handed(cands, 0, mint)
      && |r.adapter.store.messages| == |a.store.messages|
      && forall i :: 0 <= i < |a.store.messages| ==>
           r.adapter.store.messages[i] == ClaimedRow(a.store.messages[i], cands, 0, mint, now)
  {
    ReceiveSuccessShape(a, maxMessages, timeout, queue, now, mint, NoInterference, fault);
    var cands := Candidates(a, maxMessages, timeout, queue, now);
    var leaseMs := LeaseMillis(timeout);
    SelectSpec(a.store.messages, TargetId(a, queue), EffectiveMax(maxMessages) as nat, leaseMs, now);
    SelectUniqueIds(a.store.messages, TargetId(a, queue), EffectiveMax(maxMessages) as nat, leaseMs, now);
    ClaimAllUninterfered(a.store.messages, cands, 0, mint, leaseMs, now);
  }

  /**
   * An uninterrupted receive that hands back nothing found nothing claimable
   * in the queue, and leaves every message row as it was.
   */
  lemma ReceiveEmptyDrained(a: Adapter, maxMessages: Option<int>, timeout: Option<int>, queue: string, now: int,
                            mint: nat -> Token, fault: Option<nat>)
    requires UniqueMessageIds(a.store.messages)
    requires var r := Receive(a, maxMessages, timeout, queue, now, mint, NoInterference, fault);
      r.result.Success? && |r.result.value| == 0
    ensures QueueIndex(a.store.queues, queue).Some?
    ensures Receive(a, maxMessages, timeout, queue, now, mint, NoInterference, fault).adapter.store.messages
            == a.store.messages
    ensures forall m :: m in a.store.messages && m.queueId == TargetId(a, queue) ==> !Eligible(m, LeaseMillis(timeout), now)
  {
    ReceiveClaimsSelected(a, maxMessages, timeout, queue, now, mint, fault);
    var cands := Candidates(a, maxMessages, timeout, queue, now);
    assert |cands| == 0;
    SelectSpec(a.store.messages, TargetId(a, queue), EffectiveMax(maxMessages) as nat, LeaseMillis(timeout), now);
  }

  /**
   * After an uninterrupted receive at `now`, no row of a returned message
   * can be claimed at `now` under any non-negative lease.
   */
  lemma ReceiveLeavesClaimed(a: Adapter, maxMessages: Option<int>, timeout: Option<int>, queue: string, now: int,
                             mint: nat -> Token, fault: Option<nat>, m: MessageRow, leaseMs: int)
    requires UniqueMessageIds(a.store.messages)
    requires leaseMs >= 0
    requires Receive(a, maxMessages, timeout, queue, now, mint, NoInterference, fault).result.Success?
    requires m in Receive(a, maxMessages, timeout, queue, now, mint, NoInterference, fault).result.value
    ensures !AnyMatch(Receive(a, maxMessages, timeout, queue, now, mint, NoInterference, fault).adapter.store.messages,
                      m.id, leaseMs, now)
  {
    var r := Receive(a, maxMessages, timeout, queue, now, mint, NoInterference, fault);
    ReceiveClaimsSelected(a, maxMessages, timeout, queue, now, mint, fault);
    var cands := Candidates(a, maxMessages, timeout, queue, now);
    HandedRowsBlock(a.store.messages, r.adapter.store.messages, r.result.value, cands, mint, now, m, leaseMs);
  }

  /** A table in which the candidates were claimed at `now` offers none of the handed-back rows at `now`. */
  lemma HandedRowsBlock(table: seq<MessageRow>, t: seq<MessageRow>, handed: seq<MessageRow>, cands: seq<MessageRow>,
                        mint: nat -> Token, now: int, m: MessageRow, leaseMs: int)
    requires leaseMs >= 0
    requires handed == Handed(cands, 0, mint) && m in handed
    requires |t| == |table| && forall i :: 0 <= i < |table| ==> t[i] == ClaimedRow(table[i], cands, 0, mint, now)
    ensures !AnyMatch(t, m.id, leaseMs, now)
  {
    var j :| 0 <= j < |handed| && handed[j] == m;
    assert m.id == cands[j].id;
    ClaimedRowsBlock(table, t, cands, mint, now, m.id, leaseMs);
  }

  /** A table in which the candidates were claimed at `now` offers none of them at `now`. */
  lemma ClaimedRowsBlock(table: seq<MessageRow>, t: seq<MessageRow>, cands: seq<MessageRow>, mint: nat -> Token,
                         now: int, x: nat, leaseMs: int)
    requires leaseMs >= 0
    requires CandidateIndex(cands, x).Some?
    requires |t| == |table| && forall i :: 0 <= i < |table| ==> t[i] == ClaimedRow(table[i], cands, 0, mint, now)
    ensures !AnyMatch(t, x, leaseMs, now)
  {
    forall i | 0 <= i < |t|
      ensures !Matches(t[i], x, leaseMs, now)
    {
      if table[i].id == x {
        var jj := CandidateIndex(cands, x).value;
        assert t[i] == Claim(table[i], mint(jj), now);
      }
    }
  }

  /**
   * Two receives in a row at the same `now`, with no one in between, never
   * return the same message.
   */
  lemma SecondReceiveMissesClaimed(a: Adapter, now: int,
                                   maxA: Option<int>, timeoutA: Option<int>, queueA: string, mintA: nat -> Token, faultA: Option<nat>,
                                   maxB: Option<int>, timeoutB: Option<int>, queueB: string, mintB: nat -> Token, faultB: Option<nat>)
    requires UniqueMessageIds(a.store.messages)
    requires Receive(a, maxA, timeoutA, queueA, now, mintA, NoInterference, faultA).result.Success?
    requires var a' := Receive(a, maxA, timeoutA, queueA, now, mintA, NoInterference, faultA).adapter;
      Receive(a', maxB, timeoutB, queueB, now, mintB, NoInterference, faultB).result.Success?
    ensures var ra := Receive(a, maxA, timeoutA, queueA, now, mintA, NoInterference, faultA);
      var rb := Receive(ra.adapter, maxB, timeoutB, queueB, now, mintB, NoInterference, faultB);
      forall m, m' :: m in ra.result.value && m' in rb.result.value ==> m.id != m'.id
  {
    var ra := Receive(a, maxA, timeoutA, queueA, now, mintA, NoInterference, faultA);
    var rb := Receive(ra.adapter, maxB, timeoutB, queueB, now, mintB, NoInterference, faultB);
    var leaseB := LeaseMillis(timeoutB);
    ReceiveSuccessShape(ra.adapter, maxB, timeoutB, queueB, now, mintB, NoInterference, faultB);
    ReceiveReturnsClaimable(ra.adapter, maxB, timeoutB, queueB, now, mintB, NoInterference, faultB);
    forall m, m' | m in ra.result.value && m' in rb.result.value
      ensures m.id != m'.id
    {
      ReceiveLeavesClaimed(a, maxA, timeoutA, queueA, now, mintA, faultA, m, leaseB);
      var c :| c in ra.adapter.store.messages && c.queueId == TargetId(ra.adapter, queueB)
                && Eligible(c, leaseB, now) && m' == WithHandle(c, m'.handle.value);
      var i :| 0 <= i < |ra.adapter.store.messages| && ra.adapter.store.messages[i] == c;
      assert !Matches(c, m.id, leaseB, now);
    }
  }

  /** Another worker's commit lands just before the first conditional update. */
  function AfterCommit(committed: seq<MessageRow>): Interference {
    (j: nat, t: seq<MessageRow>) => if j == 0 then committed else t
  }

  /**
   * The race the conditional update exists for: worker B selects from the
   * same state as worker A, A commits its claims at the same `now` before
   * B's first update, and B still returns none of A's messages.
   */
  lemma RacingReceiveMissesClaimed(a: Adapter, now: int,
                                   maxA: Option<int>, timeoutA: Option<int>, queueA: string, mintA: nat -> Token, faultA: Option<nat>,
                                   maxB: Option<int>, timeoutB: Option<int>, queueB: string, mintB: nat -> Token, faultB: Option<nat>)
    requires UniqueMessageIds(a.store.messages)
    requires Receive(a, maxA, timeoutA, queueA, now, mintA, NoInterference, faultA).result.Success?
    requires var ta := Receive(a, maxA, timeoutA, queueA, now, mintA, NoInterference, faultA).adapter.store.messages;
      Receive(a, maxB, timeoutB, queueB, now, mintB, AfterCommit(ta), faultB).result.Success?
    ensures var ra := Receive(a, maxA, timeoutA, queueA, now, mintA, NoInterference, faultA);
      var rb := Receive(a, maxB, timeoutB, queueB, now, mintB, AfterCommit(ra.adapter.store.messages), faultB);
      forall m, m' :: m in ra.result.value && m' in rb.result.value ==> m.id != m'.id
  {
    var ra := Receive(a, maxA, timeoutA, queueA, now, mintA, NoInterference, faultA);
    var ta := ra.adapter.store.messages;
    var interfere := AfterCommit(ta);
    var rb := Receive(a, maxB, timeoutB, queueB, now, mintB, interfere, faultB);
    var leaseB := LeaseMillis(timeoutB);
    ReceiveSuccessShape(a, maxB, timeoutB, queueB, now, mintB, interfere, faultB);
    var candsB := Candidates(a, maxB, timeoutB, queueB, now);
    forall m | m in ra.result.value
      ensures forall m' :: m' in rb.result.value ==> m.id != m'.id
    {
      ReceiveLeavesClaimed(a, maxA, timeoutA, queueA, now, mintA, faultA, m, leaseB);
      forall j: nat, t: seq<MessageRow> | !AnyMatch(t, m.id, leaseB, now)
        ensures !AnyMatch(interfere(j, t), m.id, leaseB, now)
      {
      }
      ClaimAllRaceLoser(a.store.messages, candsB, 0, mintB, interfere, leaseB, now, m.id);
    }
  }

  /**
   * Without interference a receive lowers the number of claimable rows
   * (under its own lease, at its own `now`) by at least the number of
   * messages it returns.
   */
  lemma ReceiveDropsEligible(a: Adapter, maxMessages: Option<int>, timeout: Option<int>, queue: string, now: int,
                             mint: nat -> Token, fault: Option<nat>)
    requires Receive(a, maxMessages, timeout, queue, now, mint, NoInterference, fault).result.Success?
    ensures var r := Receive(a, maxMessages, timeout, queue, now, mint, NoInterference, fault);
      EligibleCount(r.adapter.store.messages, LeaseMillis(timeout), now) + |r.result.value|
        <= EligibleCount(a.store.messages, LeaseMillis(timeout), now)
  {
    ReceiveSuccessShape(a, maxMessages, timeout, queue, now, mint, NoInterference, fault);
    ClaimAllEligibleCount(a.store.messages, Candidates(a, maxMessages, timeout, queue, now), 0, mint, LeaseMillis(timeout), now);
  }

  /** An uninterrupted receive keeps the store's keys unique and the cache sound. */
  lemma ReceivePreservesValid(a: Adapter, maxMessages: Option<int>, timeout: Option<int>, queue: string, now: int,
                              mint: nat -> Token, fault: Option<nat>)
    requires Valid(a.store) && CacheSound(a)
    ensures var r := Receive(a, maxMessages, timeout, queue, now, mint, NoInterference, fault);
      Valid(r.adapter.store) && CacheSound(r.adapter)
  {
    var r := Receive(a, maxMessages, timeout, queue, now, mint, NoInterference, fault);
    if r.result.Success? {
      ReceiveSuccessShape(a, maxMessages, timeout, queue, now, mint, NoInterference, fault);
      ClaimAllOnlyClaims(a.store.messages, Candidates(a, maxMessages, timeout, queue, now), 0, mint, LeaseMillis(timeout), now);
      SameIdsValid(a.store.messages, r.adapter.store.messages, a.store.nextMessageId);
      SameKeysValid(a, r.adapter);
    }
  }

  /** Rewriting only handles and claim times keeps message ids unique and below the counter. */
  lemma SameIdsValid(before: seq<MessageRow>, after: seq<MessageRow>, next: nat)
    requires UniqueMessageIds(before) && forall m :: m in before ==> m.id < next
    requires |after| == |before|
    requires forall i :: 0 <= i < |before| ==> after[i].(handle := before[i].handle, timeout := before[i].timeout) == before[i]
    ensures UniqueMessageIds(after) && forall m :: m in after ==> m.id < next
  {
    assert forall i :: 0 <= i < |after| ==> after[i].id == before[i].id;
    forall m | m in after ensures m.id < next {
      var i :| 0 <= i < |after| && after[i] == m;
      assert before[i] in before;
    }
  }

  /** Rewriting only watermarks keeps queue names and ids, so validity and the cache carry over. */
  lemma SameKeysValid(a: Adapter, b: Adapter)
    requires Valid(a.store) && CacheSound(a)
    requires b.queueIds == a.queueIds && b.store.nextQueueId == a.store.nextQueueId
    requires b.store.nextMessageId == a.store.nextMessageId
    requires UniqueMessageIds(b.store.messages) && forall m :: m in b.store.messages ==> m.id < b.store.nextMessageId
    requires |b.store.queues| == |a.store.queues|
    requires forall i :: 0 <= i < |a.store.queues| ==> b.store.queues[i].(received := a.store.queues[i].received) == a.store.queues[i]
    ensures Valid(b.store) && CacheSound(b)
  {
    SameKeysQueues(a.store.queues, b.store.queues, a.store.nextQueueId);
    SameKeysCache(a, b);
  }

  /** Queue rows rewritten only in their watermark keep unique names and ids under the same bound. */
  lemma SameKeysQueues(aq: seq<QueueRow>, bq: seq<QueueRow>, next: nat)
    requires UniqueQueueNames(aq) && UniqueQueueIds(aq) && forall q :: q in aq ==> q.id < next
    requires |bq| == |aq| && forall i :: 0 <= i < |aq| ==> bq[i].(received := aq[i].received) == aq[i]
    ensures UniqueQueueNames(bq) && UniqueQueueIds(bq) && forall q :: q in bq ==> q.id < next
  {
    assert forall i :: 0 <= i < |bq| ==> bq[i].id == aq[i].id && bq[i].name == aq[i].name;
    forall q | q in bq ensures q.id < next {
      var i :| 0 <= i < |bq| && bq[i] == q;
      assert aq[i] in aq;
    }
  }

  /** A cache that was sound stays sound when the queue rows keep their names and ids. */
  lemma SameKeysCache(a: Adapter, b: Adapter)
    requires CacheSound(a) && b.queueIds == a.queueIds
    requires |b.store.queues| == |a.store.queues|
    requires forall i :: 0 <= i < |a.store.queues| ==> b.store.queues[i].(received := a.store.queues[i].received) == a.store.queues[i]
    ensures CacheSound(b)
  {
    forall n | n in b.queueIds
      ensures exists q :: q in b.store.queues && q.name == n && q.id == b.queueIds[n]
    {
      var q :| q in a.store.queues && q.name == n && q.id == a.queueIds[n];
      var i :| 0 <= i < |a.store.queues| && a.store.queues[i] == q;
      assert b.store.queues[i].name == n && b.store.queues[i].id == q.id;
      assert b.store.queues[i] in b.store.queues;
    }
  }

  /**
   * A store failure at any statement the transaction reaches (begin, lookup,
   * select, an update, the watermark update or the commit) fails the call
   * and leaves everything as it was.
   */
  lemma ReceiveFaultAnywhere(a: Adapter, maxMessages: Option<int>, timeout: Option<int>, queue: string, now: int,
                             mint: nat -> Token, interfere: Interference, k: nat)
    requires EffectiveMax(maxMessages) > 0 && LeaseMillis(timeout) > 0
    requires QueueIndex(a.store.queues, queue).Some?
    requires k < StatementCount(|Candidates(a, maxMessages, timeout, queue, now)|)
    ensures Receive(a, maxMessages, timeout, queue, now, mint, interfere, Some(k)) == Outcome(Failure(StoreFailure), a)
  {
  }
}
