/**
 * The standalone queue helpers of logic/queue-logic.js: `rankQueue`, which
 * orders queue items by priority (lower is more urgent) and then by
 * creation time, and `estimateWait`, which turns a queue position into a
 * waiting time in whole minutes.
 */
module QueueLogic {
  import opened Wrappers
  import opened Numerals

  /** A queue item as the helper sees it: its sort key and the rest of its fields. */
  datatype Ticket<T> = Ticket(priority: int, createdAt: int, fields: T)

  /** `a` may come before `b`: lower priority, or the same priority and not created later. */
  predicate KeyLeq<T>(a: Ticket<T>, b: Ticket<T>) {
    a.priority < b.priority || (a.priority == b.priority && a.createdAt <= b.createdAt)
  }

  /** Ascending by priority, ties ascending by creation time. */
  predicate Sorted<T>(s: seq<Ticket<T>>) {
    forall i, j :: 0 <= i < j < |s| ==> KeyLeq(s[i], s[j])
  }

  /**
   * Puts `x` into a sorted sequence after every item whose key is not
   * greater, which is where a stable sort leaves it.
   */
  function Insert<T(==)>(s: seq<Ticket<T>>, x: Ticket<T>): (r: seq<Ticket<T>>)
    ensures multiset(r) == multiset(s) + multiset{x}
  {
    if s == [] then [x]
    else if !KeyLeq(s[0], x) then [x] + s
    else
      assert s == [s[0]] + s[1..];
      [s[0]] + Insert(s[1..], x)
  }

  /** Inserting into a sorted sequence keeps it sorted. */
  lemma {:induction false} InsertSorted<T>(s: seq<Ticket<T>>, x: Ticket<T>)
    requires Sorted(s)
    ensures Sorted(Insert(s, x))
  {
    if s != [] && KeyLeq(s[0], x) {
      var rest := Insert(s[1..], x);
      InsertSorted(s[1..], x);
      assert s == [s[0]] + s[1..];
      forall k | 0 <= k < |rest|
        ensures KeyLeq(s[0], rest[k])
      {
        assert rest[k] in multiset(rest);
        if rest[k] != x {
          assert rest[k] in multiset(s[1..]);
          var m :| 0 <= m < |s[1..]| && s[1..][m] == rest[k];
          assert s[m + 1] == rest[k];
        }
      }
      assert Insert(s, x) == [s[0]] + rest;
    }
  }

  /**
   * rankQueue: a sorted copy of the items. The input is a value, so it is
   * left as it was, as the copy made before sorting guarantees.
   */
  method RankQueue<T(==)>(items: seq<Ticket<T>>) returns (ranked: seq<Ticket<T>>)
    ensures Sorted(ranked)
    ensures multiset(ranked) == multiset(items)
    ensures |ranked| == |items|
  {
    ranked := [];
    var i := 0;
    while i < |items|
      invariant 0 <= i <= |items|
      invariant Sorted(ranked) && multiset(ranked) == multiset(items[..i])
    {
      assert items[..i + 1] == items[..i] + [items[i]];
      InsertSorted(ranked, items[i]);
      ranked := Insert(ranked, items[i]);
      i := i + 1;
    }
    assert items[..|items|] == items;
    assert |multiset(ranked)| == |multiset(items)|;
  }

  /**
   * `Math.ceil((position * avgSeconds) / 60)`: the number of whole minutes
   * that covers position * avgSeconds seconds.
   */
  function Minutes(position: int, avgSeconds: int): (m: int)
    ensures 60 * (m - 1) < position * avgSeconds <= 60 * m
  {
    -((-(position * avgSeconds)) / 60)
  }

  /** estimateWait: the minute count followed by " minutos". */
  function EstimateWait(position: int, avgSeconds: int := 60): (text: string)
    ensures |text| > 8 && text[|text| - 8..] == " minutos"
    ensures ParseInt(text[..|text| - 8]) == Some(Minutes(position, avgSeconds))
    ensures text[..|text| - 8] == IntToString(Minutes(position, avgSeconds))
  {
    var digits := IntToString(Minutes(position, avgSeconds));
    IntToStringRoundTrip(Minutes(position, avgSeconds));
    var text := digits + " minutos";
    assert text[..|text| - 8] == digits;
    text
  }

  /** With the default of 60 seconds per item the estimate is the position in minutes. */
  lemma DefaultMinutesArePosition(position: int)
    ensures Minutes(position, 60) == position
  {
    var m := Minutes(position, 60);
    assert 60 * (m - 1) < 60 * position <= 60 * m;
  }

  /** For a non-negative average, a later position never gets a shorter estimate. */
  lemma MinutesMonotone(p1: int, p2: int, avgSeconds: int)
    requires p1 <= p2 && avgSeconds >= 0
    ensures Minutes(p1, avgSeconds) <= Minutes(p2, avgSeconds)
  {
    var m1, m2 := Minutes(p1, avgSeconds), Minutes(p2, avgSeconds);
    assert p1 * avgSeconds <= p2 * avgSeconds by {
      assert (p2 - p1) * avgSeconds >= 0;
    }
    assert 60 * (m1 - 1) < 60 * m2;
  }
}
