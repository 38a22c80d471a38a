/**
 * Client runs of the queue engine, each starting from an empty table.
 * Their postconditions follow from the operations' contracts alone, the
 * way a caller of the service sees them.
 */
module QueueScenarios {
  import opened Wrappers
  import opened Models
  import opened QueueTable
  import opened Queue

  /** Enqueueing the same phone twice while the first row still waits answers the same id and inserts one row. */
  method DedupSamePhone() returns (first: nat, second: nat, rowCount: nat)
    ensures first == second && rowCount == 1
  {
    var q := new QueueManager();
    var pos;
    first, pos := q.AddToQueue("+5511999", "quero cota\U{00E7}\U{00E3}o");
    second, pos := q.AddToQueue("+5511999", "outra mensagem");
    rowCount := |q.rows|;
  }

  /** Enqueueing into an empty queue answers position 0. */
  method EmptyQueuePosition() returns (position: nat)
    ensures position == 0
  {
    var q := new QueueManager();
    var id;
    id, position := q.AddToQueue("+5511999", "quero cota\U{00E7}\U{00E3}o");
    assert q.rows == [q.rows[0]] && id == q.rows[0].id;
    CountWaitingAppend([], q.rows[0]);
    PositionBelowWaitingCount(q.rows, 0);
  }

  /** With equal priorities the row created first comes first. */
  method PositionTieBreak() returns (posA: nat, posB: nat)
    ensures posA < posB
  {
    var q := new QueueManager();
    var a, b;
    a, posA := q.AddToQueue("A", "m", 1);
    ghost var r0 := q.rows[0];
    assert q.rows == [r0] && a == r0.id;
    assert !HasWaitingFor(q.rows, "B");
    b, posB := q.AddToQueue("B", "m", 1);
    assert q.rows[0] == r0 && b == q.rows[1].id;
    posA := q.Position(a);
    PositionOrder(q.rows, 0, 1);
  }

  /** A lower priority value comes first, even when created later. */
  method PositionPriorityWins() returns (posC: nat, posD: nat)
    ensures posC < posD
  {
    var q := new QueueManager();
    var c, d;
    d, posD := q.AddToQueue("D", "m", 9);
    ghost var r0 := q.rows[0];
    assert q.rows == [r0] && d == r0.id;
    assert !HasWaitingFor(q.rows, "C");
    c, posC := q.AddToQueue("C", "m", 1);
    assert q.rows[0] == r0 && c == q.rows[1].id;
    posD := q.Position(d);
    PositionOrder(q.rows, 1, 0);
  }

  /** Three failures from a fresh row end in ERRO with retry count 3. */
  method RetryExhaustion() returns (status: QueueStatus, retries: nat)
    ensures status == Erro && retries == 3
  {
    var q := new QueueManager();
    var id, pos := q.AddToQueue("+5511999", "batida");
    q.MarkError(id, Some("timeout"));
    q.MarkError(id, None);
    q.MarkError(id, Some(""));
    status, retries := q.rows[0].status, q.rows[0].retryCount;
  }

  /** Two failures and then a completion end in CONCLUIDO with retry count 2. */
  method FailTwiceThenComplete() returns (status: QueueStatus, retries: nat, lastError: Option<string>)
    ensures status == Concluido && retries == 2 && lastError == Some("unknown")
  {
    var q := new QueueManager();
    var id, pos := q.AddToQueue("+5511999", "batida");
    q.MarkError(id, Some("timeout"));
    q.MarkError(id, None);
    q.MarkCompleted(id, JObject(map[]));
    status, retries, lastError := q.rows[0].status, q.rows[0].retryCount, q.rows[0].lastError;
  }

  /** A fresh queue with three messages from three phones, all waiting. */
  method ThreeWaiting() returns (q: QueueManager)
    ensures fresh(q) && q.Valid() && CountWaiting(q.rows) == 3
  {
    q := new QueueManager();
    var id, pos := q.AddToQueue("1", "m");
    ghost var r0 := q.rows[0];
    assert q.rows == [r0] && Waiting(r0) && r0.phone == "1";
    assert !HasWaitingFor(q.rows, "2");
    id, pos := q.AddToQueue("2", "m");
    ghost var r1 := q.rows[1];
    assert q.rows == [r0, r1] && Waiting(r1) && r1.phone == "2";
    assert !HasWaitingFor(q.rows, "3");
    id, pos := q.AddToQueue("3", "m");
    ghost var r2 := q.rows[2];
    assert q.rows == [r0, r1, r2] && Waiting(r2);
    CountWaitingAppend([], r0);
    CountWaitingAppend([r0], r1);
    CountWaitingAppend([r0, r1], r2);
  }

  /**
   * Three waiting rows and two claims of five: the first claim takes all
   * three, the second finds nothing left to claim.
   */
  method TwoClaims() returns (first: nat, second: nat)
    ensures first == 3 && second == 0
  {
    var q := ThreeWaiting();
    var c1 := q.GetNext(5);
    assert |c1.value| == 3 && CountWaiting(q.rows) == 0;
    var c2 := q.GetNext(5);
    first, second := |c1.value|, |c2.value|;
  }

  /**
   * A failed row goes back to AGUARDANDO without looking for a newer
   * waiting row of the same phone, so one phone can end up with two
   * waiting rows: claim the first, enqueue again, then fail the first.
   */
  method TwoWaitingRowsForOnePhone() returns (waitingForPhone: nat)
    ensures waitingForPhone == 2
  {
    var q := new QueueManager();
    var first, pos := q.AddToQueue("+5511999", "batida");
    CountWaitingAppend([], q.rows[0]);
    PositionBelowWaitingCount(q.rows, 0);
    ghost var before := q.rows;
    var claimed := q.GetNext(1);
    assert !Waiting(q.rows[0]) by {
      assert ClaimedAt(before, q.rows, 0);
    }
    assert !HasWaitingFor(q.rows, "+5511999");
    var second;
    second, pos := q.AddToQueue("+5511999", "outra batida");
    q.MarkError(first, None);
    var waiting := set i | 0 <= i < |q.rows| && Waiting(q.rows[i]) && q.rows[i].phone == "+5511999";
    assert waiting == {0, 1};
    waitingForPhone := |waiting|;
  }
}
