/**
 * The atendimento_queue table as a sequence of rows in insertion order, the
 * row transitions the queue engine applies, the (priority, created_at)
 * ordering, the `_position` count and the facts about them that the engine's
 * operations rely on.
 */
module QueueTable {
  import opened Wrappers
  import opened Models

  /** The retry cap: the literal 3 in mark_error's CASE expression. */
  const MaxRetries: nat := 3

  predicate Waiting(r: QueueRow) {
    r.status == Aguardando
  }

  /** (p, c) comes strictly before (p', c') in the order of (priority ASC, created_at ASC). */
  predicate KeyLess(p: int, c: int, p': int, c': int) {
    p < p' || (p == p' && c < c')
  }

  predicate Precedes(a: QueueRow, b: QueueRow) {
    KeyLess(a.priority, a.createdAt, b.priority, b.createdAt)
  }

  function Min(a: int, b: int): int {
    if a <= b then a else b
  }

  /**
   * What the store guarantees about the table as a whole: ids come from a
   * sequence and creation times from a clock that advances on every insert,
   * so both grow strictly along the insertion order. In particular no two
   * rows share an id or a (priority, created_at) key.
   */
  ghost predicate ValidTable(t: seq<QueueRow>) {
    forall i, j :: 0 <= i < j < |t| ==> t[i].id < t[j].id && t[i].createdAt < t[j].createdAt
  }

  /**
   * What holds of every row the engine has written, given the current
   * reading of the clock.
   */
  ghost predicate RowInvariant(r: QueueRow, clock: nat) {
    && r.createdAt < clock
    && (r.status == Processando ==> r.startedAt.Some?)
    && (r.status == Concluido ==> r.completedAt.Some?)
    && (r.status == Erro ==> r.retryCount >= MaxRetries)
    && (r.retryCount > 0 <==> r.lastError.Some?)
    && (r.lastError.Some? ==> r.lastError.value != "")
    && (r.result.Some? ==> r.completedAt.Some?)
    && (r.startedAt.Some? ==> r.createdAt <= r.startedAt.value < clock)
    && (r.completedAt.Some? ==> r.createdAt <= r.completedAt.value < clock)
  }

  /** The invariant of the engine's state: the table, the id sequence and the clock. */
  ghost predicate TableInvariant(t: seq<QueueRow>, nextId: nat, clock: nat) {
    && ValidTable(t)
    && 1 <= nextId
    && forall i :: 0 <= i < |t| ==> t[i].id < nextId && RowInvariant(t[i], clock)
  }

  // ----- row transitions -----

  /**
   * INSERT (phone, message, priority): every other column takes the value
   * the table declares for it (AGUARDANDO, retry_count 0, created_at now).
   */
  function NewRow(id: nat, phone: string, message: string, priority: int, now: nat): (r: QueueRow)
    ensures r.id == id && r.phone == phone && r.message == message && r.priority == priority
    ensures Waiting(r) && r.retryCount == 0 && r.createdAt == now
    ensures r.lastError.None? && r.result.None? && r.startedAt.None? && r.completedAt.None?
    ensures RowInvariant(r, now + 1)
  {
    QueueRow(id, phone, message, priority, Aguardando, 0, None, None, now, None, None)
  }

  /** get_next: SET status = 'PROCESSANDO', started_at = NOW(). */
  function StartRow(r: QueueRow, now: nat): (r': QueueRow)
    ensures r'.status == Processando && r'.startedAt == Some(now)
    ensures r'.(status := r.status, startedAt := r.startedAt) == r
  {
    r.(status := Processando, startedAt := Some(now))
  }

  /** mark_completed: SET status = 'CONCLUIDO', completed_at = NOW(), result = :result. */
  function CompleteRow(r: QueueRow, result: Json, now: nat): (r': QueueRow)
    ensures r'.status == Concluido && r'.completedAt == Some(now) && r'.result == Some(result)
    ensures r'.(status := r.status, completedAt := r.completedAt, result := r.result) == r
  {
    r.(status := Concluido, completedAt := Some(now), result := Some(result))
  }

  /** Python's `error or "unknown"`: a missing or empty error text becomes "unknown". */
  function ErrorText(error: Option<string>): (e: string)
    ensures e != ""
    ensures error.Some? && error.value != "" ==> e == error.value
    ensures error.None? || error.value == "" ==> e == "unknown"
  {
    if error.Some? && error.value != "" then error.value else "unknown"
  }

  /** mark_error: the CASE reads the retry count before the increment. */
  function FailRow(r: QueueRow, error: Option<string>): (r': QueueRow)
    ensures r'.retryCount == r.retryCount + 1
    ensures r'.status == Erro <==> r.retryCount + 1 >= MaxRetries
    ensures r'.status != Erro ==> Waiting(r')
    ensures r'.lastError == Some(ErrorText(error))
    ensures r'.(status := r.status, retryCount := r.retryCount, lastError := r.lastError) == r
  {
    r.(status := if r.retryCount + 1 >= MaxRetries then Erro else Aguardando,
       lastError := Some(ErrorText(error)),
       retryCount := r.retryCount + 1)
  }

  /**
   * A row already in ERRO stays in ERRO when it fails again: the invariant
   * puts its retry count at the cap, so the CASE cannot send it back.
   */
  lemma ErroRowStaysErro(r: QueueRow, clock: nat, error: Option<string>)
    requires RowInvariant(r, clock) && r.status == Erro
    ensures FailRow(r, error).status == Erro
  {
  }

  /**
   * Only get_next makes a row PROCESSANDO, and only a waiting one:
   * mark_completed and mark_error never produce PROCESSANDO.
   */
  lemma ProcessandoOnlyFromWaiting(t0: seq<QueueRow>, t1: seq<QueueRow>, now: nat, r: QueueRow, result: Json, error: Option<string>)
    requires ClaimStep(t0, t1, now)
    ensures forall i :: 0 <= i < |t0| && t1[i].status == Processando && t0[i].status != Processando ==> Waiting(t0[i])
    ensures CompleteRow(r, result, now).status != Processando
    ensures FailRow(r, error).status != Processando
  {
  }

  /** The clock only moves forward: the invariant survives a tick. */
  lemma TickKeepsInvariant(t: seq<QueueRow>, nextId: nat, clock: nat)
    requires TableInvariant(t, nextId, clock)
    ensures TableInvariant(t, nextId, clock + 1)
  {
  }

  /** Claiming a waiting row at the last clock reading keeps the invariant. */
  lemma StartKeepsInvariant(t: seq<QueueRow>, nextId: nat, now: nat, j: nat)
    requires TableInvariant(t, nextId, now + 1) && j < |t| && Waiting(t[j])
    ensures TableInvariant(t[j := StartRow(t[j], now)], nextId, now + 1)
  {
    assert RowInvariant(StartRow(t[j], now), now + 1);
  }

  /** Completing a row at the clock reading before the tick keeps the invariant. */
  lemma CompleteKeepsInvariant(t: seq<QueueRow>, nextId: nat, now: nat, j: nat, result: Json)
    requires TableInvariant(t, nextId, now) && j < |t|
    ensures TableInvariant(t[j := CompleteRow(t[j], result, now)], nextId, now + 1)
  {
    assert RowInvariant(CompleteRow(t[j], result, now), now + 1);
  }

  /** Recording a failure keeps the invariant. */
  lemma FailKeepsInvariant(t: seq<QueueRow>, nextId: nat, clock: nat, j: nat, error: Option<string>)
    requires TableInvariant(t, nextId, clock) && j < |t|
    ensures TableInvariant(t[j := FailRow(t[j], error)], nextId, clock)
  {
    assert RowInvariant(FailRow(t[j], error), clock);
  }

  /** `k` failures in a row. */
  function FailTimes(r: QueueRow, error: Option<string>, k: nat): QueueRow {
    if k == 0 then r else FailRow(FailTimes(r, error, k - 1), error)
  }

  /**
   * The bounded-retry policy: after k >= 1 consecutive failures the retry
   * count has grown by exactly k, and the row is ERRO iff that count has
   * reached the cap, AGUARDANDO otherwise; the ordering key and identity of
   * the row never change. From retry count 0, three failures give ERRO
   * with retry count 3.
   */
  lemma {:induction false} RetriesExhaust(r: QueueRow, error: Option<string>, k: nat)
    requires k >= 1
    ensures FailTimes(r, error, k).retryCount == r.retryCount + k
    ensures FailTimes(r, error, k).status == (if r.retryCount + k >= MaxRetries then Erro else Aguardando)
    ensures FailTimes(r, error, k).lastError == Some(ErrorText(error))
    ensures FailTimes(r, error, k).(status := r.status, retryCount := r.retryCount, lastError := r.lastError) == r
  {
    if k > 1 {
      RetriesExhaust(r, error, k - 1);
    }
  }

  // ----- counting over the table -----

  /** The number of AGUARDANDO rows. */
  function CountWaiting(t: seq<QueueRow>): nat {
    if t == [] then 0
    else CountWaiting(t[..|t| - 1]) + (if Waiting(t[|t| - 1]) then 1 else 0)
  }

  /** The number of AGUARDANDO rows whose key is strictly below (p, c): `_position`'s COUNT(*). */
  function Rank(t: seq<QueueRow>, p: int, c: int): nat {
    if t == [] then 0
    else
      var last := t[|t| - 1];
      Rank(t[..|t| - 1], p, c) + (if Waiting(last) && KeyLess(last.priority, last.createdAt, p, c) then 1 else 0)
  }

  /** The index of the first row with this id (the `target` CTE of `_position`). */
  function FindIndex(t: seq<QueueRow>, id: nat): (k: Option<nat>)
    ensures k.None? <==> forall i :: 0 <= i < |t| ==> t[i].id != id
    ensures k.Some? ==> k.value < |t| && t[k.value].id == id && forall j :: 0 <= j < k.value ==> t[j].id != id
  {
    if t == [] then None
    else if t[0].id == id then Some(0)
    else match FindIndex(t[1..], id)
      case None => None
      case Some(k) => Some(k + 1)
  }

  /**
   * `_position(id)`: the number of waiting rows that come before the row
   * with this id. An unknown id gives an empty target and a count of 0.
   */
  function PositionOf(t: seq<QueueRow>, id: nat): nat {
    match FindIndex(t, id)
    case None => 0
    case Some(k) => Rank(t, t[k].priority, t[k].createdAt)
  }

  /**
   * `_position` answers the number of waiting rows whose key is below the
   * target's, never more than the waiting rows, and 0 for an unknown id.
   */
  lemma PositionIsCount(t: seq<QueueRow>, id: nat)
    ensures FindIndex(t, id).None? ==> PositionOf(t, id) == 0
    ensures PositionOf(t, id) <= CountWaiting(t)
    ensures FindIndex(t, id).Some? ==>
              var target := t[FindIndex(t, id).value];
              PositionOf(t, id) == |WaitingBelow(t, target.priority, target.createdAt)|
  {
    match FindIndex(t, id)
    case None =>
    case Some(k) =>
      RankAtMostCount(t, t[k].priority, t[k].createdAt);
      RankIsCardinality(t, t[k].priority, t[k].createdAt);
  }

  /** The indices of the waiting rows. */
  ghost function WaitingIndices(t: seq<QueueRow>): set<nat> {
    set i: nat | i < |t| && Waiting(t[i])
  }

  /** The indices of the waiting rows whose key is strictly below (p, c). */
  ghost function WaitingBelow(t: seq<QueueRow>, p: int, c: int): set<nat> {
    set i: nat | i < |t| && Waiting(t[i]) && KeyLess(t[i].priority, t[i].createdAt, p, c)
  }

  /** `COUNT(*) WHERE status = 'AGUARDANDO'`: the count is the number of waiting rows. */
  lemma {:induction false} CountWaitingIsCardinality(t: seq<QueueRow>)
    ensures CountWaiting(t) == |WaitingIndices(t)|
  {
    if t != [] {
      var n := |t| - 1;
      CountWaitingIsCardinality(t[..n]);
      var before := WaitingIndices(t[..n]);
      assert n !in before;
      if Waiting(t[n]) {
        assert WaitingIndices(t) == before + {n};
      } else {
        assert WaitingIndices(t) == before;
      }
    }
  }

  /** The COUNT(*) of `_position`: the number of waiting rows with a smaller key. */
  lemma {:induction false} RankIsCardinality(t: seq<QueueRow>, p: int, c: int)
    ensures Rank(t, p, c) == |WaitingBelow(t, p, c)|
  {
    if t != [] {
      var n := |t| - 1;
      RankIsCardinality(t[..n], p, c);
      var before := WaitingBelow(t[..n], p, c);
      assert n !in before;
      if Waiting(t[n]) && KeyLess(t[n].priority, t[n].createdAt, p, c) {
        assert WaitingBelow(t, p, c) == before + {n};
      } else {
        assert WaitingBelow(t, p, c) == before;
      }
    }
  }

  lemma FindIndexUnique(t: seq<QueueRow>, k: nat)
    requires ValidTable(t) && k < |t|
    ensures FindIndex(t, t[k].id) == Some(k)
  {
  }

  /** Counting with a larger key never gives less. */
  lemma {:induction false} RankMonotone(t: seq<QueueRow>, p: int, c: int, p': int, c': int)
    requires p < p' || (p == p' && c <= c')
    ensures Rank(t, p, c) <= Rank(t, p', c')
  {
    if t != [] {
      RankMonotone(t[..|t| - 1], p, c, p', c');
    }
  }

  /** Counting waiting rows below a key never exceeds the number of waiting rows. */
  lemma {:induction false} RankAtMostCount(t: seq<QueueRow>, p: int, c: int)
    ensures Rank(t, p, c) <= CountWaiting(t)
  {
    if t != [] {
      RankAtMostCount(t[..|t| - 1], p, c);
    }
  }

  /** A waiting row below (p, c) is counted for (p, c) but not for itself. */
  lemma {:induction false} RankStrict(t: seq<QueueRow>, k: nat, p: int, c: int)
    requires k < |t| && Waiting(t[k]) && KeyLess(t[k].priority, t[k].createdAt, p, c)
    ensures Rank(t, t[k].priority, t[k].createdAt) < Rank(t, p, c)
  {
    var n := |t| - 1;
    if k == n {
      RankMonotone(t[..n], t[k].priority, t[k].createdAt, p, c);
    } else {
      assert t[..n][k] == t[k];
      RankStrict(t[..n], k, p, c);
    }
  }

  /** A waiting row never counts itself, so its rank is below the number of waiting rows. */
  lemma {:induction false} RankBelowCount(t: seq<QueueRow>, k: nat)
    requires k < |t| && Waiting(t[k])
    ensures Rank(t, t[k].priority, t[k].createdAt) < CountWaiting(t)
  {
    var n := |t| - 1;
    if k == n {
      RankAtMostCount(t[..n], t[k].priority, t[k].createdAt);
    } else {
      assert t[..n][k] == t[k];
      RankBelowCount(t[..n], k);
    }
  }

  /** No waiting row below (p, c): nothing is counted. */
  lemma {:induction false} RankZero(t: seq<QueueRow>, p: int, c: int)
    requires forall i :: 0 <= i < |t| && Waiting(t[i]) ==> !KeyLess(t[i].priority, t[i].createdAt, p, c)
    ensures Rank(t, p, c) == 0
  {
    if t != [] {
      RankZero(t[..|t| - 1], p, c);
    }
  }

  /** No waiting row at all: the count is 0. */
  lemma {:induction false} NoWaitingCountsZero(t: seq<QueueRow>)
    requires forall i :: 0 <= i < |t| ==> !Waiting(t[i])
    ensures CountWaiting(t) == 0
  {
    if t != [] {
      NoWaitingCountsZero(t[..|t| - 1]);
    }
  }

  /** An inserted row adds to the waiting count exactly when it waits. */
  lemma CountWaitingAppend(t: seq<QueueRow>, r: QueueRow)
    ensures CountWaiting(t + [r]) == CountWaiting(t) + (if Waiting(r) then 1 else 0)
  {
    assert (t + [r])[..|t|] == t;
  }

  /** Replacing one row changes the waiting count by that row's contribution only. */
  lemma {:induction false} CountWaitingUpdate(t: seq<QueueRow>, j: nat, r: QueueRow)
    requires j < |t|
    ensures CountWaiting(t[j := r]) + (if Waiting(t[j]) then 1 else 0)
            == CountWaiting(t) + (if Waiting(r) then 1 else 0)
  {
    var n := |t| - 1;
    if j < n {
      assert t[j := r][..n] == t[..n][j := r];
      CountWaitingUpdate(t[..n], j, r);
    } else {
      assert t[j := r][..n] == t[..n];
    }
  }

  /**
   * Position is strictly monotone in the ordering key: a waiting row that
   * comes before another row has a strictly smaller position, whatever the
   * creation order of the two.
   */
  lemma PositionOrder(t: seq<QueueRow>, i: nat, j: nat)
    requires ValidTable(t) && i < |t| && j < |t|
    requires Waiting(t[i]) && Precedes(t[i], t[j])
    ensures PositionOf(t, t[i].id) < PositionOf(t, t[j].id)
  {
    FindIndexUnique(t, i);
    FindIndexUnique(t, j);
    RankStrict(t, i, t[j].priority, t[j].createdAt);
  }

  /**
   * A waiting row's position is below the number of waiting rows; so a row
   * enqueued into a queue with no other waiting row has position 0.
   */
  lemma PositionBelowWaitingCount(t: seq<QueueRow>, k: nat)
    requires ValidTable(t) && k < |t| && Waiting(t[k])
    ensures PositionOf(t, t[k].id) < CountWaiting(t)
  {
    FindIndexUnique(t, k);
    RankBelowCount(t, k);
  }

  /** Rank only looks at which rows wait and at their keys. */
  lemma {:induction false} RankSameWaitingKeys(t: seq<QueueRow>, t': seq<QueueRow>, p: int, c: int)
    requires |t| == |t'|
    requires forall i :: 0 <= i < |t| ==> Waiting(t[i]) == Waiting(t'[i])
    requires forall i :: 0 <= i < |t| && Waiting(t[i]) ==>
               t[i].priority == t'[i].priority && t[i].createdAt == t'[i].createdAt
    ensures Rank(t, p, c) == Rank(t', p, c)
  {
    if t != [] {
      var n := |t| - 1;
      RankSameWaitingKeys(t[..n], t'[..n], p, c);
    }
  }

  /**
   * A waiting row that is claimed and then fails
   * below the retry cap is back at the position it had before the claim,
   * as long as no other row changed meanwhile.
   */
  lemma RequeueRestoresPosition(t: seq<QueueRow>, k: nat, now: nat, error: Option<string>)
    requires ValidTable(t) && k < |t| && Waiting(t[k])
    requires t[k].retryCount + 1 < MaxRetries
    ensures var t' := t[k := FailRow(StartRow(t[k], now), error)];
            Waiting(t'[k]) && PositionOf(t', t[k].id) == PositionOf(t, t[k].id)
  {
    var t' := t[k := FailRow(StartRow(t[k], now), error)];
    assert ValidTable(t');
    FindIndexUnique(t, k);
    FindIndexUnique(t', k);
    RankSameWaitingKeys(t, t', t[k].priority, t[k].createdAt);
  }

  // ----- claiming -----

  /** The id, phone, message and priority that get_next's RETURNING hands back. */
  datatype ClaimedItem = ClaimedItem(id: nat, phone: string, message: string, priority: int)

  function ItemOf(r: QueueRow): ClaimedItem {
    ClaimedItem(r.id, r.phone, r.message, r.priority)
  }

  /** t1 is t0 with some waiting rows claimed at time `now`; every other row is unchanged. */
  ghost predicate ClaimStep(t0: seq<QueueRow>, t1: seq<QueueRow>, now: nat) {
    |t0| == |t1| &&
    forall i :: 0 <= i < |t0| ==> t1[i] == t0[i] || (Waiting(t0[i]) && t1[i] == StartRow(t0[i], now))
  }

  /** t1 keeps t0's keys and waits only where t0 did. */
  ghost predicate Shrinks(t0: seq<QueueRow>, t1: seq<QueueRow>) {
    |t0| == |t1| &&
    forall i :: 0 <= i < |t0| ==>
      t1[i].id == t0[i].id && t1[i].priority == t0[i].priority &&
      t1[i].createdAt == t0[i].createdAt && (Waiting(t1[i]) ==> Waiting(t0[i]))
  }

  lemma ClaimStepShrinks(t0: seq<QueueRow>, t1: seq<QueueRow>, now: nat)
    requires ClaimStep(t0, t1, now)
    ensures Shrinks(t0, t1)
  {
  }

  /** Row i was waiting in t0 and no longer is in t1. */
  predicate ClaimedAt(t0: seq<QueueRow>, t1: seq<QueueRow>, i: int) {
    0 <= i < |t0| && i < |t1| && Waiting(t0[i]) && !Waiting(t1[i])
  }

  /** No row still waiting in t1 comes before a row claimed between t0 and t1. */
  ghost predicate ClaimedInOrder(t0: seq<QueueRow>, t1: seq<QueueRow>) {
    forall i, j :: 0 <= j < |t1| && ClaimedAt(t0, t1, i) && Waiting(t1[j]) ==> !Precedes(t1[j], t1[i])
  }

  function CountClaimed(t0: seq<QueueRow>, t1: seq<QueueRow>): nat
    requires |t0| == |t1|
  {
    if t0 == [] then 0
    else
      var n := |t0| - 1;
      CountClaimed(t0[..n], t1[..n]) + (if ClaimedAt(t0, t1, n) then 1 else 0)
  }

  function CountClaimedBefore(t0: seq<QueueRow>, t1: seq<QueueRow>, p: int, c: int): nat
    requires |t0| == |t1|
  {
    if t0 == [] then 0
    else
      var n := |t0| - 1;
      CountClaimedBefore(t0[..n], t1[..n], p, c) +
        (if ClaimedAt(t0, t1, n) && KeyLess(t0[n].priority, t0[n].createdAt, p, c) then 1 else 0)
  }

  /** `x` is what RETURNING answers for some row claimed between t0 and t1. */
  ghost predicate IsClaimedItem(t0: seq<QueueRow>, t1: seq<QueueRow>, x: ClaimedItem) {
    exists i :: ClaimedAt(t0, t1, i) && x == ItemOf(t1[i])
  }

  /** Every answered item is the item of a claimed row, and no id is answered twice. */
  ghost predicate AnswersClaimedRows(t0: seq<QueueRow>, t1: seq<QueueRow>, items: seq<ClaimedItem>) {
    && (forall m :: 0 <= m < |items| ==> IsClaimedItem(t0, t1, items[m]))
    && (forall m, m' :: 0 <= m < m' < |items| ==> items[m].id != items[m'].id)
  }

  /**
   * No double claim: a row answered by one get_next is no longer waiting,
   * so the next get_next cannot answer it again.
   */
  lemma NoRowClaimedTwice(t0: seq<QueueRow>, t1: seq<QueueRow>, t2: seq<QueueRow>, now: nat,
                          first: seq<ClaimedItem>, second: seq<ClaimedItem>)
    requires ValidTable(t1) && ClaimStep(t1, t2, now)
    requires AnswersClaimedRows(t0, t1, first) && AnswersClaimedRows(t1, t2, second)
    ensures forall m, m' :: 0 <= m < |first| && 0 <= m' < |second| ==> first[m].id != second[m'].id
  {
    forall m, m' | 0 <= m < |first| && 0 <= m' < |second|
      ensures first[m].id != second[m'].id
    {
      assert IsClaimedItem(t0, t1, first[m]);
      var i :| ClaimedAt(t0, t1, i) && first[m] == ItemOf(t1[i]);
      assert IsClaimedItem(t1, t2, second[m']);
      var i' :| ClaimedAt(t1, t2, i') && second[m'] == ItemOf(t2[i']);
      assert t2[i'].id == t1[i'].id;
      assert i != i';
    }
  }

  /** A row that was waiting has been claimed iff its position before the claim was below n. */
  ghost predicate ClaimedIffPositionBelow(t0: seq<QueueRow>, t1: seq<QueueRow>, n: int) {
    forall k :: 0 <= k < |t0| && Waiting(t0[k]) ==> (ClaimedAt(t0, t1, k) <==> PositionOf(t0, t0[k].id) < n)
  }

  /** What get_next's loop keeps: the rows claimed so far, in `idx`, answered as `items`. */
  ghost predicate ClaimProgress(t0: seq<QueueRow>, t: seq<QueueRow>, items: seq<ClaimedItem>, idx: seq<nat>, now: nat) {
    && ClaimStep(t0, t, now)
    && ClaimedInOrder(t0, t)
    && |idx| == |items|
    && CountWaiting(t0) == CountWaiting(t) + |items|
    && (forall m :: 0 <= m < |idx| ==> ClaimedAt(t0, t, idx[m]) && items[m] == ItemOf(t[idx[m]]))
    && (forall m, m' :: 0 <= m < m' < |idx| ==> idx[m] != idx[m'])
  }

  /** Claiming the first waiting row keeps the loop's invariant. */
  lemma ClaimProgressStep(t0: seq<QueueRow>, t: seq<QueueRow>, items: seq<ClaimedItem>, idx: seq<nat>, now: nat, j: nat)
    requires ClaimProgress(t0, t, items, idx, now)
    requires j < |t| && Waiting(t[j])
    requires forall i :: 0 <= i < |t| && Waiting(t[i]) ==> !Precedes(t[i], t[j])
    ensures var t' := t[j := StartRow(t[j], now)];
            ClaimProgress(t0, t', items + [ItemOf(t'[j])], idx + [j], now)
  {
    var t' := t[j := StartRow(t[j], now)];
    CountWaitingUpdate(t, j, StartRow(t[j], now));
    assert ClaimedInOrder(t0, t') by {
      forall i, k | 0 <= k < |t'| && ClaimedAt(t0, t', i) && Waiting(t'[k])
        ensures !Precedes(t'[k], t'[i])
      {
        assert Waiting(t[k]) && k != j;
        if i != j {
          assert ClaimedAt(t0, t, i);
        }
      }
    }
    var items', idx' := items + [ItemOf(t'[j])], idx + [j];
    forall m | 0 <= m < |idx'|
      ensures ClaimedAt(t0, t', idx'[m]) && items'[m] == ItemOf(t'[idx'[m]])
    {
      if m < |idx| {
        assert ClaimedAt(t0, t, idx[m]);
        assert idx[m] != j;
      }
    }
  }

  /**
   * When get_next's loop stops (the batch is full or nothing waits any
   * more), the claimed rows are exactly min(n, waiting) rows, the answer
   * lists each of them once, and they are the rows whose position was below n.
   */
  lemma ClaimFinish(t0: seq<QueueRow>, t1: seq<QueueRow>, items: seq<ClaimedItem>, idx: seq<nat>, now: nat, n: int)
    requires ValidTable(t0) && ClaimProgress(t0, t1, items, idx, now)
    requires 0 <= n && |items| <= n && (|items| == n || CountWaiting(t1) == 0)
    ensures |items| == CountClaimed(t0, t1) == Min(n, CountWaiting(t0))
    ensures CountWaiting(t1) == CountWaiting(t0) - |items|
    ensures AnswersClaimedRows(t0, t1, items)
    ensures ClaimedIffPositionBelow(t0, t1, n)
  {
    ClaimStepShrinks(t0, t1, now);
    WaitingSplit(t0, t1);
    ClaimIsPositionCut(t0, t1, n);
    forall m | 0 <= m < |items|
      ensures IsClaimedItem(t0, t1, items[m])
    {
      assert ClaimedAt(t0, t1, idx[m]) && items[m] == ItemOf(t1[idx[m]]);
    }
    forall m, m' | 0 <= m < m' < |items|
      ensures items[m].id != items[m'].id
    {
      assert items[m].id == t0[idx[m]].id && items[m'].id == t0[idx[m']].id;
    }
  }

  lemma {:induction false} WaitingSplit(t0: seq<QueueRow>, t1: seq<QueueRow>)
    requires Shrinks(t0, t1)
    ensures CountWaiting(t0) == CountWaiting(t1) + CountClaimed(t0, t1)
  {
    if t0 != [] {
      var n := |t0| - 1;
      WaitingSplit(t0[..n], t1[..n]);
    }
  }

  lemma {:induction false} RankSplit(t0: seq<QueueRow>, t1: seq<QueueRow>, p: int, c: int)
    requires Shrinks(t0, t1)
    ensures Rank(t0, p, c) == Rank(t1, p, c) + CountClaimedBefore(t0, t1, p, c)
  {
    if t0 != [] {
      var n := |t0| - 1;
      RankSplit(t0[..n], t1[..n], p, c);
    }
  }

  lemma {:induction false} ClaimedBeforeAll(t0: seq<QueueRow>, t1: seq<QueueRow>, p: int, c: int)
    requires |t0| == |t1|
    requires forall i :: ClaimedAt(t0, t1, i) ==> KeyLess(t0[i].priority, t0[i].createdAt, p, c)
    ensures CountClaimedBefore(t0, t1, p, c) == CountClaimed(t0, t1)
  {
    if t0 != [] {
      var n := |t0| - 1;
      assert forall i :: ClaimedAt(t0[..n], t1[..n], i) ==> ClaimedAt(t0, t1, i);
      ClaimedBeforeAll(t0[..n], t1[..n], p, c);
    }
  }

  lemma {:induction false} ClaimedBeforeAtMost(t0: seq<QueueRow>, t1: seq<QueueRow>, p: int, c: int)
    requires |t0| == |t1|
    ensures CountClaimedBefore(t0, t1, p, c) <= CountClaimed(t0, t1)
  {
    if t0 != [] {
      var n := |t0| - 1;
      ClaimedBeforeAtMost(t0[..n], t1[..n], p, c);
    }
  }

  lemma {:induction false} ClaimedBeforeMissing(t0: seq<QueueRow>, t1: seq<QueueRow>, k: nat, p: int, c: int)
    requires |t0| == |t1| && ClaimedAt(t0, t1, k)
    requires !KeyLess(t0[k].priority, t0[k].createdAt, p, c)
    ensures CountClaimedBefore(t0, t1, p, c) < CountClaimed(t0, t1)
  {
    var n := |t0| - 1;
    if k == n {
      ClaimedBeforeAtMost(t0[..n], t1[..n], p, c);
    } else {
      assert ClaimedAt(t0[..n], t1[..n], k);
      ClaimedBeforeMissing(t0[..n], t1[..n], k, p, c);
    }
  }

  /**
   * The link between `_position` and get_next: when get_next(n) has claimed
   * min(n, waiting) rows and no row left waiting comes before a claimed one,
   * a row that was waiting has been claimed iff its position before the
   * claim was below n.
   */
  lemma ClaimIsPositionCut(t0: seq<QueueRow>, t1: seq<QueueRow>, n: int)
    requires ValidTable(t0) && Shrinks(t0, t1) && ClaimedInOrder(t0, t1)
    requires CountClaimed(t0, t1) == Min(n, CountWaiting(t0))
    ensures ClaimedIffPositionBelow(t0, t1, n)
  {
    forall k | 0 <= k < |t0| && Waiting(t0[k])
      ensures ClaimedAt(t0, t1, k) <==> PositionOf(t0, t0[k].id) < n
    {
      FindIndexUnique(t0, k);
      WaitingSplit(t0, t1);
      if ClaimedAt(t0, t1, k) {
        ClaimedRowIsBelowCut(t0, t1, n, k);
      } else {
        UnclaimedRowIsAtCut(t0, t1, n, k);
      }
    }
  }

  /** A claimed row had fewer than n waiting rows before it. */
  lemma ClaimedRowIsBelowCut(t0: seq<QueueRow>, t1: seq<QueueRow>, n: int, k: nat)
    requires Shrinks(t0, t1) && ClaimedInOrder(t0, t1)
    requires CountClaimed(t0, t1) == Min(n, CountWaiting(t0))
    requires k < |t0| && ClaimedAt(t0, t1, k)
    ensures Rank(t0, t0[k].priority, t0[k].createdAt) < n
  {
    var p, c := t0[k].priority, t0[k].createdAt;
    RankSplit(t0, t1, p, c);
    RankZero(t1, p, c);
    ClaimedBeforeMissing(t0, t1, k, p, c);
  }

  /** A waiting row left unclaimed had at least n waiting rows before it. */
  lemma UnclaimedRowIsAtCut(t0: seq<QueueRow>, t1: seq<QueueRow>, n: int, k: nat)
    requires ValidTable(t0) && Shrinks(t0, t1) && ClaimedInOrder(t0, t1)
    requires CountWaiting(t0) == CountWaiting(t1) + CountClaimed(t0, t1)
    requires CountClaimed(t0, t1) == Min(n, CountWaiting(t0))
    requires k < |t0| && Waiting(t0[k]) && !ClaimedAt(t0, t1, k)
    ensures n <= Rank(t0, t0[k].priority, t0[k].createdAt)
  {
    var p, c := t0[k].priority, t0[k].createdAt;
    assert Waiting(t1[k]);
    forall i | ClaimedAt(t0, t1, i)
      ensures KeyLess(t0[i].priority, t0[i].createdAt, p, c)
    {
      assert !Precedes(t1[k], t1[i]);
      assert i != k && t0[i].createdAt != c;
    }
    RankSplit(t0, t1, p, c);
    ClaimedBeforeAll(t0, t1, p, c);
    RankBelowCount(t1, k);
  }
}
