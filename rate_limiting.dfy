/**
 * The dispatch rule the I/O loop applies to each of its two queues, and what
 * repeated iterations of that rule do to a queue and its chunk budget.
 */
module RateLimiting {
  import opened Optional

  function Abs(x: int): nat { if x < 0 then -x else x }

  /** Integer division as C# does it: the quotient is rounded toward zero. */
  function TruncDiv(a: int, b: int): int
    requires b != 0
  {
    if (a < 0) == (b < 0) then Abs(a) / Abs(b) else -(Abs(a) / Abs(b))
  }

  /**
   * What one dispatch adds to its budget: the source writes
   * `-count / ChunkLength`, where the minus binds first and the division truncates.
   */
  function DispatchDelta(count: int, chunkLength: int): int
    requires chunkLength > 0
  {
    TruncDiv(-count, chunkLength)
  }

  /** A queue may hand out its front request when it has one and the limit is off (0) or budget remains. */
  predicate MayDispatch(queued: nat, maxRate: int, budget: int) {
    queued > 0 && (maxRate == 0 || budget > 0)
  }

  /** One queue after one iteration's dequeue: the request taken (if any), the rest, the budget. */
  datatype Taken<T> = Taken(item: Option<T>, queue: seq<T>, budget: int)

  /** One iteration's dequeue from one queue, given the rate limit read for that iteration. */
  function Take<T>(queue: seq<T>, budget: int, maxRate: int, size: T -> int, chunkLength: int): (r: Taken<T>)
    requires chunkLength > 0
    ensures r.item.Some? <==> MayDispatch(|queue|, maxRate, budget)
    ensures r.item.Some? ==> [r.item.value] + r.queue == queue && r.budget == budget + DispatchDelta(size(r.item.value), chunkLength)
    ensures r.item.None? ==> r.queue == queue && r.budget == budget
  {
    if MayDispatch(|queue|, maxRate, budget) then
      Taken(Some(queue[0]), queue[1..], budget + DispatchDelta(size(queue[0]), chunkLength))
    else
      Taken(None, queue, budget)
  }

  /** Everything dispatched from one queue over several iterations, and the queue and budget left. */
  datatype Trace<T> = Trace(dispatched: seq<T>, queue: seq<T>, budget: int)

  /**
   * Iterations of the loop with no enqueue and no replenishment in between;
   * `rates[k]` is the limit configured during iteration k.
   */
  function Run<T>(queue: seq<T>, budget: int, rates: seq<int>, size: T -> int, chunkLength: int): Trace<T>
    requires chunkLength > 0
    decreases |rates|
  {
    if rates == [] then Trace([], queue, budget)
    else
      var t := Take(queue, budget, rates[0], size, chunkLength);
      var rest := Run(t.queue, t.budget, rates[1..], size, chunkLength);
      Trace((if t.item.Some? then [t.item.value] else []) + rest.dispatched, rest.queue, rest.budget)
  }

  /** Total budget change caused by dispatching `items`. */
  function SumDelta<T>(items: seq<T>, size: T -> int, chunkLength: int): int
    requires chunkLength > 0
  {
    if items == [] then 0 else DispatchDelta(size(items[0]), chunkLength) + SumDelta(items[1..], size, chunkLength)
  }

  lemma {:induction false} SumDeltaAppend<T>(a: seq<T>, b: seq<T>, size: T -> int, chunkLength: int)
    requires chunkLength > 0
    ensures SumDelta(a + b, size, chunkLength) == SumDelta(a, size, chunkLength) + SumDelta(b, size, chunkLength)
  {
    if a != [] {
      assert (a + b)[1..] == a[1..] + b;
      SumDeltaAppend(a[1..], b, size, chunkLength);
    } else {
      assert a + b == b;
    }
  }

  /** A request of non-negative size costs its number of whole chunks; a request under one chunk costs nothing. */
  lemma DispatchDeltaIsWholeChunks(count: int, chunkLength: int)
    requires count >= 0 && chunkLength > 0
    ensures DispatchDelta(count, chunkLength) == -(count / chunkLength)
    ensures count < chunkLength ==> DispatchDelta(count, chunkLength) == 0
    ensures count >= chunkLength ==> DispatchDelta(count, chunkLength) < 0
  {
    var q := count / chunkLength;
    assert count == q * chunkLength + count % chunkLength && 0 <= count % chunkLength < chunkLength;
    assert 0 <= q;
    assert count < chunkLength ==> q == 0;
    assert count >= chunkLength ==> q > 0;
  }

  /** FIFO: what has been dispatched, followed by what is left, is the original queue. */
  lemma {:induction false} RunKeepsOrder<T>(queue: seq<T>, budget: int, rates: seq<int>, size: T -> int, chunkLength: int)
    requires chunkLength > 0
    ensures var r := Run(queue, budget, rates, size, chunkLength); r.dispatched + r.queue == queue
    decreases |rates|
  {
    if rates != [] {
      var t := Take(queue, budget, rates[0], size, chunkLength);
      RunKeepsOrder(t.queue, t.budget, rates[1..], size, chunkLength);
      var rest := Run(t.queue, t.budget, rates[1..], size, chunkLength);
      if t.item.Some? {
        assert [t.item.value] + rest.dispatched + rest.queue == [t.item.value] + (rest.dispatched + rest.queue);
      }
    }
  }

  /** An iteration dispatches at most one request, so the queue shrinks by at most the number of iterations. */
  lemma {:induction false} RunDispatchesAtMostOnePerIteration<T>(queue: seq<T>, budget: int, rates: seq<int>, size: T -> int, chunkLength: int)
    requires chunkLength > 0
    ensures |Run(queue, budget, rates, size, chunkLength).dispatched| <= |rates|
    decreases |rates|
  {
    if rates != [] {
      var t := Take(queue, budget, rates[0], size, chunkLength);
      RunDispatchesAtMostOnePerIteration(t.queue, t.budget, rates[1..], size, chunkLength);
    }
  }

  /** The final budget is the initial one plus the cost of exactly the dispatched requests. */
  lemma {:induction false} RunBudget<T>(queue: seq<T>, budget: int, rates: seq<int>, size: T -> int, chunkLength: int)
    requires chunkLength > 0
    ensures var r := Run(queue, budget, rates, size, chunkLength);
      r.budget == budget + SumDelta(r.dispatched, size, chunkLength)
    decreases |rates|
  {
    if rates != [] {
      var t := Take(queue, budget, rates[0], size, chunkLength);
      RunBudget(t.queue, t.budget, rates[1..], size, chunkLength);
      var rest := Run(t.queue, t.budget, rates[1..], size, chunkLength);
      if t.item.Some? {
        SumDeltaAppend([t.item.value], rest.dispatched, size, chunkLength);
        assert SumDelta([t.item.value], size, chunkLength) == DispatchDelta(size(t.item.value), chunkLength);
      } else {
        assert [] + rest.dispatched == rest.dispatched;
      }
    }
  }

  /**
   * With the limit on throughout, every request but the last one dispatched
   * was paid for by budget that was there at the start: only one request may
   * overshoot.
   */
  lemma {:induction false} RunOvershootsByAtMostOne<T>(queue: seq<T>, budget: int, rates: seq<int>, size: T -> int, chunkLength: int)
    requires chunkLength > 0
    requires forall k :: 0 <= k < |rates| ==> rates[k] != 0
    ensures var d := Run(queue, budget, rates, size, chunkLength).dispatched;
      d != [] ==> budget + SumDelta(d[..|d| - 1], size, chunkLength) > 0
    decreases |rates|
  {
    if rates != [] {
      var t := Take(queue, budget, rates[0], size, chunkLength);
      RunOvershootsByAtMostOne(t.queue, t.budget, rates[1..], size, chunkLength);
      var rest := Run(t.queue, t.budget, rates[1..], size, chunkLength).dispatched;
      var d := Run(queue, budget, rates, size, chunkLength).dispatched;
      if t.item.Some? {
        assert budget > 0;
        if rest != [] {
          assert d[..|d| - 1] == [t.item.value] + rest[..|rest| - 1];
          SumDeltaAppend([t.item.value], rest[..|rest| - 1], size, chunkLength);
          assert SumDelta([t.item.value], size, chunkLength) == DispatchDelta(size(t.item.value), chunkLength);
        } else {
          assert d[..|d| - 1] == [];
        }
      } else {
        assert d == rest;
      }
    }
  }

  /** With the limit on and no budget left, a queue is stuck until the budget is replenished. */
  lemma {:induction false} RunStallsWithoutBudget<T>(queue: seq<T>, budget: int, rates: seq<int>, size: T -> int, chunkLength: int)
    requires chunkLength > 0 && budget <= 0
    requires forall k :: 0 <= k < |rates| ==> rates[k] != 0
    ensures Run(queue, budget, rates, size, chunkLength) == Trace([], queue, budget)
    decreases |rates|
  {
    if rates != [] {
      RunStallsWithoutBudget(queue, budget, rates[1..], size, chunkLength);
    }
  }

  /** With the limit off, each iteration takes the next request in order until the queue is empty. */
  lemma {:induction false} RunUnlimitedDrains<T>(queue: seq<T>, budget: int, rates: seq<int>, size: T -> int, chunkLength: int)
    requires chunkLength > 0
    requires forall k :: 0 <= k < |rates| ==> rates[k] == 0
    ensures var n := if |rates| < |queue| then |rates| else |queue|;
      Run(queue, budget, rates, size, chunkLength).dispatched == queue[..n]
    decreases |rates|
  {
    if rates != [] {
      var t := Take(queue, budget, rates[0], size, chunkLength);
      RunUnlimitedDrains(t.queue, t.budget, rates[1..], size, chunkLength);
      if queue != [] {
        var m := if |rates| - 1 < |queue| - 1 then |rates| - 1 else |queue| - 1;
        assert queue[..m + 1] == [queue[0]] + queue[1..][..m];
      }
    }
  }
}
