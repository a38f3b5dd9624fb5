/**
 * The pipelined `Target` of the non-blocking example.  Each forward call
 * queues the object the payload's data pointer carries, before it checks the
 * payload, and answers with an error status or with `Accepted`.  A clocked
 * method counts rising edges and, on every tenth, drops the oldest queued
 * object.
 */
module PipelinedTarget {
  import opened Tlm

  /** The largest value of the C++ `int` counter. */
  const INT_MAX: nat := 0x7FFF_FFFF

  /** The target's state as a value: the edge counter and the queue. */
  datatype TargetState<T> = TargetState(count: nat, queue: seq<T>)

  /** What a forward call answers: the return value and the payload as it leaves. */
  datatype FwResult = FwResult(sync: SyncEnum, trans: Payload)

  /** The payload is outside what the target supports: more than one word, or a narrower streaming width. */
  predicate IsBurst(trans: Payload)
  {
    trans.length > 4 || trans.streamingWidth < trans.length
  }

  /** The attribute checks of the forward call, in the source's order: byte enables first, then bursts. */
  function Respond(trans: Payload): FwResult
  {
    if trans.byteEnable then
      FwResult(Completed, trans.(status := ByteEnableErrorResponse))
    else if IsBurst(trans) then
      FwResult(Completed, trans.(status := BurstErrorResponse))
    else
      FwResult(Accepted, trans)
  }

  /**
   * The outcome of the checks: the call is accepted, with the payload
   * untouched, exactly when it has no byte enables and is no burst; otherwise
   * it completes at once with the status of the first check that failed.
   */
  lemma RespondCases(trans: Payload)
    ensures var r := Respond(trans);
      && r.sync != Updated
      && (r.sync == Accepted <==> !trans.byteEnable && trans.length <= 4 && trans.length <= trans.streamingWidth)
      && (r.sync == Accepted ==> r.trans == trans)
      && (r.sync == Completed ==>
            r.trans == trans.(status := if trans.byteEnable then ByteEnableErrorResponse else BurstErrorResponse))
  {
  }

  /** One rising clock edge: count it, and on every tenth drop the front of a non-empty queue. */
  function Tick<T>(s: TargetState<T>): TargetState<T>
  {
    var count := s.count + 1;
    TargetState(count, if count % 10 == 0 && s.queue != [] then s.queue[1..] else s.queue)
  }

  /** `n` rising edges. */
  function Run<T>(s: TargetState<T>, n: nat): TargetState<T>
    decreases n
  {
    if n == 0 then s else Run(Tick(s), n - 1)
  }

  /** How many multiples of ten lie in (count, count + n]: the edges among the next `n` that pop. */
  function PoppingEdges(count: nat, n: nat): nat
  {
    MultiplesBelowMonotone(count, count + n);
    (count + n) / 10 - count / 10
  }

  lemma {:induction false} MultiplesBelowMonotone(a: nat, b: nat)
    requires a <= b
    ensures a / 10 <= b / 10
  {
    assert 10 * (a / 10) <= a <= b < 10 * (b / 10) + 10;
  }

  lemma {:induction false} OneEdge(count: nat)
    ensures PoppingEdges(count, 1) == if (count + 1) % 10 == 0 then 1 else 0
  {
    var q, r := count / 10, count % 10;
    assert count == 10 * q + r && 0 <= r < 10;
    if r == 9 {
      assert count + 1 == 10 * (q + 1);
    } else {
      assert count + 1 == 10 * q + (r + 1) && r + 1 < 10;
    }
  }

  /**
   * After `n` edges the counter has advanced by `n` and the queue has lost
   * its oldest entries, one per popping edge, never more than it held: the
   * objects leave in the order they arrived.
   */
  lemma {:induction false} RunDropsOldest<T>(s: TargetState<T>, n: nat)
    ensures var k := if PoppingEdges(s.count, n) <= |s.queue| then PoppingEdges(s.count, n) else |s.queue|;
      Run(s, n) == TargetState(s.count + n, s.queue[k..])
    decreases n
  {
    if n == 0 {
      assert s.queue[0..] == s.queue;
    } else {
      var s1 := Tick(s);
      RunDropsOldest(s1, n - 1);
      OneEdge(s.count);
      assert PoppingEdges(s.count, n) == PoppingEdges(s.count, 1) + PoppingEdges(s.count + 1, n - 1);
      if (s.count + 1) % 10 == 0 && s.queue != [] {
        var p := PoppingEdges(s.count + 1, n - 1);
        var k1 := if p <= |s1.queue| then p else |s1.queue|;
        assert s1.queue[k1..] == s.queue[k1 + 1..];
      }
    }
  }

  /** Ten edges always pop exactly one object from a non-empty queue. */
  lemma TenEdgesPopOne<T>(s: TargetState<T>)
    requires s.queue != []
    ensures Run(s, 10) == TargetState(s.count + 10, s.queue[1..])
  {
    RunDropsOldest(s, 10);
    assert (s.count + 10) / 10 == s.count / 10 + 1;
  }

  class Target<T> {
    /** `m_count`, the number of rising edges seen. */
    var count: nat
    /** `vec`, the queued objects, oldest first. */
    var queue: seq<T>

    ghost function State(): TargetState<T>
      reads this
    {
      TargetState(count, queue)
    }

    constructor ()
      ensures State() == TargetState(0, [])
    {
      count := 0;
      queue := [];
    }

    /**
     * `nb_transport_fw`: `item` is the object behind the payload's data
     * pointer.  It is queued whatever the checks then decide.
     */
    method NbTransportFw(item: T, trans: Payload) returns (sync: SyncEnum, trans': Payload)
      modifies this
      ensures queue == old(queue) + [item] && count == old(count)
      ensures FwResult(sync, trans') == Respond(trans)
    {
      queue := queue + [item];
      trans' := trans;
      if trans.byteEnable {
        trans' := trans'.(status := ByteEnableErrorResponse);
        return Completed, trans';
      }
      if trans.length > 4 || trans.streamingWidth < trans.length {
        trans' := trans'.(status := BurstErrorResponse);
        return Completed, trans';
      }
      sync := Accepted;
    }

    /** `main_run`, on each rising clock edge. */
    method MainRun()
      requires count < INT_MAX
      modifies this
      ensures State() == Tick(old(State()))
    {
      count := count + 1;
      if count % 10 == 0 {
        if queue != [] {
          queue := queue[1..];
        }
      }
    }
  }
}
