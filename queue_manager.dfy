/**
 * The attendance work queue engine (QueueManager). The store's table is the
 * field `rows` (insertion order); `nextId` is the id sequence and `clock`
 * an abstract monotone reading of NOW(). Every operation is one atomic
 * step: the row locking of `FOR UPDATE SKIP LOCKED` and the commits are
 * not modelled, so two claims are two sequential steps.
 */
module Queue {
  import opened Wrappers
  import opened Models
  import opened QueueTable

  /** Some waiting row belongs to this phone. */
  ghost predicate HasWaitingFor(t: seq<QueueRow>, phone: string) {
    exists i :: 0 <= i < |t| && Waiting(t[i]) && t[i].phone == phone
  }

  /** `id` is the id of the waiting row for `phone` with the earliest created_at. */
  ghost predicate EarliestWaitingFor(t: seq<QueueRow>, phone: string, id: nat) {
    exists i :: 0 <= i < |t| && Waiting(t[i]) && t[i].phone == phone && t[i].id == id &&
      forall j :: 0 <= j < |t| && Waiting(t[j]) && t[j].phone == phone ==> t[i].createdAt <= t[j].createdAt
  }

  class QueueManager {
    var rows: seq<QueueRow>
    var nextId: nat
    var clock: nat

    ghost predicate Valid()
      reads this
    {
      TableInvariant(rows, nextId, clock)
    }

    /** An empty table; the id sequence starts at 1. */
    constructor ()
      ensures Valid() && rows == [] && nextId == 1
    {
      rows := [];
      nextId := 1;
      clock := 0;
    }

    /** The first row with this id, the way the primary-key lookup finds it. */
    method IndexOf(queueId: nat) returns (k: Option<nat>)
      ensures k == FindIndex(rows, queueId)
    {
      var i := 0;
      while i < |rows|
        invariant 0 <= i <= |rows|
        invariant forall j :: 0 <= j < i ==> rows[j].id != queueId
      {
        if rows[i].id == queueId {
          return Some(i);
        }
        i := i + 1;
      }
      return None;
    }

    /** `_position`: how many waiting rows come before the row with this id (0 for an unknown id). */
    method Position(queueId: nat) returns (pos: nat)
      ensures pos == PositionOf(rows, queueId)
    {
      var k := IndexOf(queueId);
      if k.None? {
        return 0;
      }
      var p, c := rows[k.value].priority, rows[k.value].createdAt;
      pos := 0;
      var i := 0;
      while i < |rows|
        invariant 0 <= i <= |rows|
        invariant pos == Rank(rows[..i], p, c)
      {
        assert rows[..i + 1][..i] == rows[..i];
        if Waiting(rows[i]) && KeyLess(rows[i].priority, rows[i].createdAt, p, c) {
          pos := pos + 1;
        }
        i := i + 1;
      }
      assert rows[..|rows|] == rows;
    }

    /** The de-duplication query: the first waiting row of this phone in insertion order. */
    method FindWaiting(phone: string) returns (k: Option<nat>)
      ensures k.None? ==> forall i :: 0 <= i < |rows| ==> !(Waiting(rows[i]) && rows[i].phone == phone)
      ensures k.Some? ==>
                && k.value < |rows| && Waiting(rows[k.value]) && rows[k.value].phone == phone
                && forall i :: 0 <= i < k.value ==> !(Waiting(rows[i]) && rows[i].phone == phone)
    {
      var i := 0;
      while i < |rows|
        invariant 0 <= i <= |rows|
        invariant forall j :: 0 <= j < i ==> !(Waiting(rows[j]) && rows[j].phone == phone)
      {
        if Waiting(rows[i]) && rows[i].phone == phone {
          return Some(i);
        }
        i := i + 1;
      }
      return None;
    }

    /**
     * add_to_queue: when the phone already has a waiting row, nothing is
     * inserted and the earliest such row (by created_at) is answered;
     * otherwise one row with the given phone, message and priority and the
     * column defaults is inserted under a fresh id. Either way the answer
     * carries that row's position.
     */
    method AddToQueue(phone: string, message: string, priority: int := DefaultPriority)
      returns (queueId: nat, position: nat)
      requires Valid()
      modifies this
      ensures Valid()
      ensures HasWaitingFor(old(rows), phone) ==>
                && rows == old(rows) && nextId == old(nextId) && clock == old(clock)
                && EarliestWaitingFor(rows, phone, queueId)
      ensures !HasWaitingFor(old(rows), phone) ==>
                && rows == old(rows) + [NewRow(old(nextId), phone, message, priority, old(clock))]
                && queueId == old(nextId) && nextId == old(nextId) + 1 && clock == old(clock) + 1
      ensures position == PositionOf(rows, queueId)
    {
      var dup := FindWaiting(phone);
      if dup.Some? {
        queueId := rows[dup.value].id;
        assert forall j :: 0 <= j < |rows| && Waiting(rows[j]) && rows[j].phone == phone ==>
                 rows[dup.value].createdAt <= rows[j].createdAt;
        position := Position(queueId);
        return;
      }
      queueId := nextId;
      rows := rows + [NewRow(nextId, phone, message, priority, clock)];
      nextId := nextId + 1;
      clock := clock + 1;
      position := Position(queueId);
    }

    /** The waiting row that comes first in (priority, created_at) order, if any. */
    method MinWaitingIndex() returns (k: Option<nat>)
      ensures k.None? ==> forall i :: 0 <= i < |rows| ==> !Waiting(rows[i])
      ensures k.Some? ==>
                && k.value < |rows| && Waiting(rows[k.value])
                && forall i :: 0 <= i < |rows| && Waiting(rows[i]) ==> !Precedes(rows[i], rows[k.value])
    {
      k := None;
      var i := 0;
      while i < |rows|
        invariant 0 <= i <= |rows|
        invariant k.None? ==> forall j :: 0 <= j < i ==> !Waiting(rows[j])
        invariant k.Some? ==>
                    && k.value < i && Waiting(rows[k.value])
                    && forall j :: 0 <= j < i && Waiting(rows[j]) ==> !Precedes(rows[j], rows[k.value])
      {
        if Waiting(rows[i]) && (k.None? || Precedes(rows[i], rows[k.value])) {
          k := Some(i);
        }
        i := i + 1;
      }
    }

    /**
     * get_next: claims up to batchSize waiting rows, smallest
     * (priority, created_at) first, moving each to PROCESSANDO with
     * started_at = now. A negative batch size is refused by the store
     * (LIMIT must not be negative) and changes nothing. The answer is the
     * set of claimed rows; its order is not promised.
     */
    method GetNext(batchSize: int := 5) returns (claimed: Option<seq<ClaimedItem>>)
      requires Valid()
      modifies this
      ensures Valid() && nextId == old(nextId)
      ensures batchSize < 0 ==> claimed.None? && rows == old(rows) && clock == old(clock)
      ensures batchSize >= 0 ==> claimed.Some? && clock == old(clock) + 1
      // every row is unchanged, or was waiting and is now PROCESSANDO from now on
      ensures ClaimStep(old(rows), rows, old(clock))
      // no row still waiting comes before a claimed row
      ensures ClaimedInOrder(old(rows), rows)
      // exactly min(batchSize, waiting) rows are claimed, and they are the rows answered
      ensures claimed.Some? ==>
                && |claimed.value| == CountClaimed(old(rows), rows) == Min(batchSize, CountWaiting(old(rows)))
                && CountWaiting(rows) == CountWaiting(old(rows)) - |claimed.value|
                && AnswersClaimedRows(old(rows), rows, claimed.value)
      // a waiting row is claimed iff its position was below the batch size
      ensures ClaimedIffPositionBelow(old(rows), rows, batchSize)
    {
      if batchSize < 0 {
        return None;
      }
      var now := clock;
      TickKeepsInvariant(rows, nextId, clock);
      clock := clock + 1;
      var items, idx := ClaimInOrder(batchSize, now);
      ClaimFinish(old(rows), rows, items, idx, now, batchSize);
      claimed := Some(items);
    }

    /**
     * The claiming loop of get_next: takes the first waiting row in
     * (priority, created_at) order, n times or until none is left.
     */
    method ClaimInOrder(n: nat, now: nat) returns (items: seq<ClaimedItem>, ghost idx: seq<nat>)
      requires Valid() && clock == now + 1
      modifies this
      ensures Valid() && nextId == old(nextId) && clock == old(clock)
      ensures ClaimProgress(old(rows), rows, items, idx, now)
      ensures |items| <= n && (|items| == n || CountWaiting(rows) == 0)
    {
      items, idx := [], [];
      while |items| < n
        invariant Valid() && nextId == old(nextId) && clock == now + 1
        invariant ClaimProgress(old(rows), rows, items, idx, now) && |items| <= n
        decreases n - |items|
      {
        var k := MinWaitingIndex();
        if k.None? {
          NoWaitingCountsZero(rows);
          break;
        }
        var j := k.value;
        ClaimProgressStep(old(rows), rows, items, idx, now, j);
        StartKeepsInvariant(rows, nextId, now, j);
        rows := rows[j := StartRow(rows[j], now)];
        items := items + [ItemOf(rows[j])];
        idx := idx + [j];
      }
    }

    /**
     * mark_completed: the row with this id becomes CONCLUIDO with
     * completed_at = now and the given result, whatever its status was; an
     * unknown id changes no row.
     */
    method MarkCompleted(queueId: nat, result: Json)
      requires Valid()
      modifies this
      ensures Valid() && nextId == old(nextId) && clock == old(clock) + 1
      ensures |rows| == |old(rows)|
      ensures forall i :: 0 <= i < |rows| ==>
                rows[i] == if old(rows)[i].id == queueId then CompleteRow(old(rows)[i], result, old(clock)) else old(rows)[i]
    {
      var k := IndexOf(queueId);
      if k.Some? {
        rows := rows[k.value := CompleteRow(rows[k.value], result, clock)];
      }
      clock := clock + 1;
    }

    /**
     * mark_error: the row with this id counts one more failure, records the
     * error text ("unknown" when missing or empty) and goes back to
     * AGUARDANDO, or to ERRO once the retry cap is reached; its priority and
     * created_at are untouched. The prior status is not checked; an unknown
     * id changes no row.
     */
    method MarkError(queueId: nat, error: Option<string>)
      requires Valid()
      modifies this
      ensures Valid() && nextId == old(nextId) && clock == old(clock)
      ensures |rows| == |old(rows)|
      ensures forall i :: 0 <= i < |rows| ==>
                rows[i] == if old(rows)[i].id == queueId then FailRow(old(rows)[i], error) else old(rows)[i]
    {
      var k := IndexOf(queueId);
      if k.Some? {
        rows := rows[k.value := FailRow(rows[k.value], error)];
      }
    }
  }

}
