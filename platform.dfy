/**
 * The `Top` of the snooping example: the snooping initiator on target socket
 * 0, the table initiator on socket 1, and two memories behind the
 * interconnect (addresses [0x000, 0x0FF] in the first, [0x100, 0x1FF] in the
 * second).  Each thread is modelled by one pass of its loop body; the
 * invalidations a call causes are delivered, in order, to the two
 * initiators' handlers before the call returns.
 */
module Platform {
  import opened Tlm
  import opened MemoryTarget
  import opened Routing
  import opened TableClient
  import opened CachingClient

  /** The target-socket index of each initiator, in binding order. */
  const SNOOPER_SOCKET: nat := 0
  const TABLE_SOCKET: nat := 1

  /** The snooper's flag after the handler has seen, in order, the deliveries addressed to its socket. */
  function SnooperAfter(valid: bool, ds: seq<Delivery>): bool
    decreases |ds|
  {
    if ds == [] then valid
    else
      var hit := ds[0].socket == SNOOPER_SOCKET && Stale(ds[0].range.lo, ds[0].range.hi);
      SnooperAfter(valid && !hit, ds[1..])
  }

  /** The flag survives a sequence of deliveries exactly when none of those to the snooper meets its region. */
  lemma {:induction false} SnooperAfterClearsOnStale(valid: bool, ds: seq<Delivery>)
    ensures SnooperAfter(valid, ds) <==>
      valid && forall i :: 0 <= i < |ds| && ds[i].socket == SNOOPER_SOCKET ==> !Stale(ds[i].range.lo, ds[i].range.hi)
    decreases |ds|
  {
    if ds != [] {
      var hit := ds[0].socket == SNOOPER_SOCKET && Stale(ds[0].range.lo, ds[0].range.hi);
      SnooperAfterClearsOnStale(valid && !hit, ds[1..]);
      assert forall i :: 0 <= i < |ds[1..]| ==> ds[1..][i] == ds[i + 1];
    }
  }

  /** One invalidation handled by the table initiator, with the source's handler or the corrected one. */
  function Pruned(table: seq<Dmi>, r: Range, corrected: bool): (t: seq<Dmi>)
    ensures multiset(t) <= multiset(table)
  {
    if corrected then
      PruneShrinks(table, r.lo, r.hi);
      Prune(table, r.lo, r.hi)
    else
      PruneAsWrittenShrinks(table, r.lo, r.hi);
      PruneAsWritten(table, r.lo, r.hi)
  }

  /** The table after the handler has seen, in order, the deliveries addressed to its socket. */
  function TableAfter(table: seq<Dmi>, ds: seq<Delivery>, corrected: bool): seq<Dmi>
    decreases |ds|
  {
    if ds == [] then table
    else
      var next := if ds[0].socket == TABLE_SOCKET then Pruned(table, ds[0].range, corrected) else table;
      TableAfter(next, ds[1..], corrected)
  }

  lemma {:induction false} TableAfterShrinks(table: seq<Dmi>, ds: seq<Delivery>, corrected: bool)
    ensures multiset(TableAfter(table, ds, corrected)) <= multiset(table)
    decreases |ds|
  {
    if ds != [] {
      var next := if ds[0].socket == TABLE_SOCKET then Pruned(table, ds[0].range, corrected) else table;
      TableAfterShrinks(next, ds[1..], corrected);
    }
  }

  /**
   * With the corrected handler, after any sequence of deliveries no entry
   * left in the table overlaps any range delivered to the table initiator.
   */
  lemma {:induction false} TableAfterCorrectedIsClean(table: seq<Dmi>, ds: seq<Delivery>, i: nat, e: Dmi)
    requires i < |ds| && ds[i].socket == TABLE_SOCKET
    requires e in TableAfter(table, ds, true)
    ensures !Hit(e, ds[i].range.lo, ds[i].range.hi)
    decreases |ds|
  {
    var next := if ds[0].socket == TABLE_SOCKET then Pruned(table, ds[0].range, true) else table;
    if i == 0 {
      TableAfterShrinks(next, ds[1..], true);
      assert e in multiset(TableAfter(next, ds[1..], true));
      assert e in next;
      PruneIsComplete(table, ds[0].range.lo, ds[0].range.hi);
    } else {
      TableAfterCorrectedIsClean(next, ds[1..], i - 1, e);
    }
  }

  /** The same goes for the source's handler only if it is never handed two overlapping entries in a row. */
  lemma PrunedAsWrittenMissesRun(a: Dmi, b: Dmi, r: Range)
    requires Hit(a, r.lo, r.hi) && Hit(b, r.lo, r.hi)
    ensures var ds := [Delivery(TABLE_SOCKET, r)];
      b in TableAfter([a, b], ds, false) && Hit(b, r.lo, r.hi)
  {
    PruneAsWrittenSkipsSuccessor(a, b, [], r.lo, r.hi);
    assert [a, b] + [] == [a, b];
    var ds := [Delivery(TABLE_SOCKET, r)];
    assert ds[1..] == [];
  }

  /** One target invalidation, as the two initiators see it. */
  lemma BroadcastToBoth(id: TargetId, r: Range)
    ensures var g := GlobalRange(id, r.lo, r.hi);
      Broadcasts(2, id, [r]) == [Delivery(SNOOPER_SOCKET, g), Delivery(TABLE_SOCKET, g)]
  {
    assert [r][1..] == [];
  }

  lemma DeliverBoth(valid: bool, table: seq<Dmi>, g: Range, corrected: bool)
    ensures var ds := [Delivery(SNOOPER_SOCKET, g), Delivery(TABLE_SOCKET, g)];
      && SnooperAfter(valid, ds) == (valid && !Stale(g.lo, g.hi))
      && TableAfter(table, ds, corrected) == Pruned(table, g, corrected)
  {
    var ds := [Delivery(SNOOPER_SOCKET, g), Delivery(TABLE_SOCKET, g)];
    var v := valid && !Stale(g.lo, g.hi);
    assert ds[1..] == [Delivery(TABLE_SOCKET, g)];
    assert ds[1..][1..] == [];
    assert SnooperAfter(valid, ds) == SnooperAfter(v, ds[1..]);
    assert SnooperAfter(v, ds[1..]) == SnooperAfter(v, ds[1..][1..]);
    assert TableAfter(table, ds, corrected) == TableAfter(table, ds[1..], corrected);
    assert TableAfter(table, ds[1..], corrected) == TableAfter(Pruned(table, g, corrected), ds[1..][1..], corrected);
  }

  /** The payload the table initiator sends on a miss: one word, no byte enables, an incomplete response. */
  function RegularRequest(cmd: Command, addr: u64, data: int): (r: Payload)
    ensures BufferHolds(r) && !SnoopRequested(r)
    ensures r.command == cmd && r.address == addr && r.data == [data]
    ensures r.length == 4 && r.streamingWidth == 4 && !r.byteEnable && !r.dmiAllowed
    ensures r.status == IncompleteResponse
  {
    Payload(cmd, addr, [data], 4, 4, false, false, IncompleteResponse, None)
  }

  /** What a miss does at the memory it reaches: the transport, then the DMI request that follows it. */
  datatype MissOutcome = MissOutcome(transport: TransportResult, reply: DmiReply, deliveries: seq<Delivery>)

  function Miss(s: MemoryState, block: array<int>, addr: u64, cmd: Command, data: int, time: nat): MissOutcome
    requires WellSized(s)
  {
    var d := DecodeAddress(addr);
    var r := Transport(s, RegularRequest(cmd, d.masked, data), time);
    var g := Grant(r.state, block, ForwardDmiRequest(r.trans.(address := addr)), DefaultDmi);
    MissOutcome(r, BackwardDmiReply(d.target, g.reply), Broadcasts(2, d.target, r.invalidated))
  }

  /**
   * Every address the table initiator generates is served: the transport
   * succeeds and allows DMI, and the grant that follows is the whole window
   * of that memory, refused only for a write while a snoop is armed there.
   */
  lemma {:induction false} MissIsServed(s: MemoryState, block: array<int>, addr: u64, cmd: Command, data: int, time: nat)
    requires WellSized(s) && block.Length == SIZE && addr % 4 == 0 && addr < 0x200 && cmd != IgnoreCommand
    ensures var o := Miss(s, block, addr, cmd, data, time);
      var t := DecodeAddress(addr).target;
      && o.transport.trans.status == OkResponse && o.transport.trans.dmiAllowed
      && o.transport.delay == time + LATENCY
      && WellSized(o.transport.state)
      && o.reply == Reply(!(o.transport.state.writeSnoop && cmd == WriteCommand),
                          Dmi(WordPtr(block, 0), 0x100 * t, 0x100 * t + 0xFF,
                              if cmd == WriteCommand && !o.transport.state.writeSnoop then ReadWriteAccess
                              else if cmd == WriteCommand then NoAccess else ReadAccess,
                              LATENCY, LATENCY))
      && Usable(o.reply.dmi)
      && (o.reply.granted ==> Matches(o.reply.dmi, addr, cmd))
  {
    var d := DecodeAddress(addr);
    var req := RegularRequest(cmd, d.masked, data);
    assert AddressOk(d.masked) by {
      assert d.masked == addr - 0x100 * d.target;
    }
    TransportSucceeds(s, req, time);
    var r := Transport(s, req, time);
    var back := r.trans.(address := addr);
    assert !SnoopRequested(back);
    RegularGrantCoversAddress(r.state, block, back, DefaultDmi);
    RegularGrant(r.state, block, ForwardDmiRequest(back), DefaultDmi);
    ForwardDmiRequestMasks(back);
  }

  lemma ShrinkKeepsMembers(a: seq<Dmi>, b: seq<Dmi>)
    requires multiset(a) <= multiset(b)
    ensures forall e :: e in a ==> e in b
  {
    forall e | e in a
      ensures e in b
    {
      assert e in multiset(a);
    }
  }

  class Top {
    const memory1: Memory
    const memory2: Memory
    const bus: Interconnect
    const snooper: SnoopingInitiator
    const initiator: Initiator
    /** Which handler the table initiator runs: the corrected one, or the source's. */
    const correctedPrune: bool

    /** The grant points into one of the two memories. */
    ghost predicate Backed(e: Dmi)
      reads this
    {
      e.ptr.WordPtr? && (e.ptr.block == memory1.mem || e.ptr.block == memory2.mem)
    }

    ghost predicate Valid()
      reads this, bus, memory1, memory2, snooper, initiator
    {
      && bus.targets == [memory1, memory2] && bus.initiators == 2 && bus.Elaborated()
      && snooper.cache.Length == CACHE_WORDS
      && snooper.cache != memory1.mem && snooper.cache != memory2.mem
      && initiator.Valid()
      && (forall e :: e in initiator.dmiTable ==> Backed(e))
    }

    /** The memories' initial contents are parameters (the source fills them with `rand() % 256`). */
    constructor (contents1: seq<int>, contents2: seq<int>, correctedPrune: bool)
      requires |contents1| == SIZE && |contents2| == SIZE
      ensures Valid() && this.correctedPrune == correctedPrune
      ensures fresh(memory1) && fresh(memory1.mem) && fresh(memory2) && fresh(memory2.mem)
      ensures fresh(snooper) && fresh(snooper.cache) && fresh(initiator)
      ensures memory1.State() == MemoryState(contents1, false, 0, 0)
      ensures memory2.State() == MemoryState(contents2, false, 0, 0)
      ensures !snooper.dmiValid && initiator.dmiTable == [] && initiator.localTime == 0
    {
      snooper := new SnoopingInitiator();
      initiator := new Initiator();
      var m1 := new Memory(contents1);
      var m2 := new Memory(contents2);
      memory1, memory2 := m1, m2;
      bus := new Interconnect([m1, m2], 2);
      this.correctedPrune := correctedPrune;
    }

    /** The invalidations of one call, handed to each initiator's handler in order. */
    method Deliver(ds: seq<Delivery>)
      requires Valid()
      modifies snooper, initiator
      ensures Valid()
      ensures snooper.dmiValid == SnooperAfter(old(snooper.dmiValid), ds)
      ensures initiator.dmiTable == TableAfter(old(initiator.dmiTable), ds, correctedPrune)
      ensures initiator.data == old(initiator.data) && initiator.localTime == old(initiator.localTime)
    {
      var k := 0;
      while k < |ds|
        invariant 0 <= k <= |ds|
        invariant Valid()
        invariant SnooperAfter(snooper.dmiValid, ds[k..]) == SnooperAfter(old(snooper.dmiValid), ds)
        invariant TableAfter(initiator.dmiTable, ds[k..], correctedPrune)
                  == TableAfter(old(initiator.dmiTable), ds, correctedPrune)
        invariant initiator.data == old(initiator.data) && initiator.localTime == old(initiator.localTime)
      {
        var d := ds[k];
        assert ds[k..][1..] == ds[k + 1..];
        if d.socket == SNOOPER_SOCKET {
          snooper.InvalidateDirectMemPtr(d.range.lo, d.range.hi);
        } else if d.socket == TABLE_SOCKET {
          ghost var before := initiator.dmiTable;
          if correctedPrune {
            initiator.InvalidateDirectMemPtrCorrected(d.range.lo, d.range.hi);
          } else {
            initiator.InvalidateDirectMemPtr(d.range.lo, d.range.hi);
          }
          assert initiator.dmiTable == Pruned(before, d.range, correctedPrune);
          ShrinkKeepsMembers(initiator.dmiTable, before);
        }
        k := k + 1;
      }
    }

    /**
     * One pass of the snooping initiator's thread up to its execute loop: a
     * read of 0x100 with a snoop to 0x17F, the invalidations the setup
     * broadcasts, then the cache fill from the grant.
     */
    method SnooperRequest() returns (fatal: bool)
      requires Valid()
      modifies snooper, snooper.cache, initiator, memory1, memory2
      ensures Valid()
      ensures !fatal && snooper.dmiValid
      ensures snooper.cache[..REGION_WORDS] == memory2.mem[..REGION_WORDS]
      ensures memory2.State() == old(memory2.State()).(writeSnoop := true, snoopStart := 0, snoopEnd := 0x7F)
      ensures memory1.State() == old(memory1.State())
      ensures initiator.dmiTable == Pruned(old(initiator.dmiTable), Range(START, END), correctedPrune)
      ensures initiator.data == old(initiator.data) && initiator.localTime == old(initiator.localTime)
    {
      var request := SnoopRequest(DefaultPayload);
      assert DecodeAddress(request.address) == Decoded(1, 0);
      assert DecodeAddress(END) == Decoded(1, 0x7F);
      SnoopGrantRoundTrip(memory2.State(), memory2.mem, request, DefaultDmi);
      ghost var g := Grant(memory2.State(), memory2.mem, ForwardDmiRequest(request), DefaultDmi);
      assert g.invalidated == [g.invalidated[0]];
      var _, reply, ds := bus.GetDirectMemPtr(request, DefaultDmi);
      BroadcastToBoth(1, g.invalidated[0]);
      DeliverBoth(snooper.dmiValid, initiator.dmiTable, Range(START, END), correctedPrune);
      Deliver(ds);
      fatal := snooper.FillCache(reply.granted, reply.dmi);
    }

    /** A hit: the access goes straight to the memory the entry points into. */
    method TableHit(index: nat, addr: u64, cmd: Command)
      requires Valid() && index < |initiator.dmiTable| && Matches(initiator.dmiTable[index], addr, cmd)
      modifies initiator, memory1.mem, memory2.mem
      ensures Valid() && initiator.dmiTable == old(initiator.dmiTable)
      ensures Usable(initiator.dmiTable[index])
      ensures var e := initiator.dmiTable[index];
        var w := WordIndex(e, addr);
        var other := if e.ptr.block == memory1.mem then memory2.mem else memory1.mem;
        && w < e.ptr.block.Length
        && initiator.localTime == old(initiator.localTime) + HitLatency(e, cmd)
        && other[..] == old(other[..])
        && (cmd == WriteCommand ==>
              initiator.data == old(initiator.data) &&
              e.ptr.block[..] == old(e.ptr.block[..])[w := initiator.data])
        && (cmd == ReadCommand ==>
              initiator.data == e.ptr.block[w] && e.ptr.block[..] == old(e.ptr.block[..]))
    {
      assert Backed(initiator.dmiTable[index]) && Usable(initiator.dmiTable[index]);
      initiator.DirectAccess(index, addr, cmd);
    }

    /** The transport half of a miss: the regular access and the invalidations it causes. */
    method MissTransport(addr: u64, cmd: Command) returns (trans': Payload)
      requires Valid() && addr < 0x200
      modifies initiator, snooper, memory1, memory2, memory1.mem, memory2.mem
      ensures Valid()
      ensures var t := DecodeAddress(addr).target;
        var m := if t == 0 then memory1 else memory2;
        var other := if t == 0 then memory2 else memory1;
        var r := Transport(old(m.State()), RegularRequest(cmd, DecodeAddress(addr).masked, old(initiator.data)),
                           old(initiator.localTime));
        var ds := Broadcasts(2, t, r.invalidated);
        && m.State() == r.state
        && other.State() == old(other.State())
        && trans' == r.trans
        && snooper.dmiValid == SnooperAfter(old(snooper.dmiValid), ds)
        && initiator.dmiTable == TableAfter(old(initiator.dmiTable), ds, correctedPrune)
        && initiator.data == r.trans.data[0]
        && initiator.localTime == r.delay
    {
      var trans := RegularRequest(cmd, addr, initiator.data);
      var delay', ds;
      trans', delay', ds := bus.BTransport(trans, initiator.localTime);
      Deliver(ds);
      initiator.localTime := delay';
      initiator.data := trans'.data[0];
    }

    /** The grant half of a miss: the DMI request made with the returned payload, and the append. */
    method MissGrant(addr: u64, trans: Payload)
      requires Valid() && addr < 0x200 && !SnoopRequested(trans)
      modifies initiator, memory1, memory2
      ensures Valid()
      ensures var t := DecodeAddress(addr).target;
        var m := if t == 0 then memory1 else memory2;
        var reply := BackwardDmiReply(t, Grant(old(m.State()), m.mem, ForwardDmiRequest(trans.(address := addr)), DefaultDmi).reply);
        && memory1.State() == old(memory1.State()) && memory2.State() == old(memory2.State())
        && initiator.dmiTable == old(initiator.dmiTable) + (if reply.Reply? && reply.granted then [reply.dmi] else [])
        && initiator.data == old(initiator.data) && initiator.localTime == old(initiator.localTime)
    {
      var request := trans.(address := addr);
      var t := DecodeAddress(addr).target;
      var m := if t == 0 then memory1 else memory2;
      RegularGrantCoversAddress(m.State(), m.mem, request, DefaultDmi);
      ForwardDmiRequestMasks(request);
      RegularGrant(m.State(), m.mem, ForwardDmiRequest(request), DefaultDmi);
      var _, reply, ds := bus.GetDirectMemPtr(request, DefaultDmi);
      // a regular grant invalidates nothing, so there is nothing to deliver
      assert ds == [];
      assert reply.Reply? && Backed(reply.dmi) && Usable(reply.dmi);
      initiator.RecordGrant(reply.granted, reply.dmi);
    }

    /**
     * A miss: the regular transport, its invalidations, then a DMI request
     * with the same payload whose grant, if any, is appended.
     */
    method TableMiss(addr: u64, cmd: Command) returns (error: bool)
      requires Valid() && addr % 4 == 0 && addr < 0x200 && cmd != IgnoreCommand
      modifies initiator, snooper, memory1, memory2, memory1.mem, memory2.mem
      ensures Valid() && !error
      ensures var t := DecodeAddress(addr).target;
        var m := if t == 0 then memory1 else memory2;
        var other := if t == 0 then memory2 else memory1;
        var o := Miss(old(m.State()), m.mem, addr, cmd, old(initiator.data), old(initiator.localTime));
        && m.State() == o.transport.state
        && other.State() == old(other.State())
        && snooper.dmiValid == SnooperAfter(old(snooper.dmiValid), o.deliveries)
        && initiator.dmiTable == TableAfter(old(initiator.dmiTable), o.deliveries, correctedPrune)
                                 + (if o.reply.Reply? && o.reply.granted then [o.reply.dmi] else [])
        && initiator.data == o.transport.trans.data[0]
        && initiator.localTime == o.transport.delay
    {
      ghost var t := DecodeAddress(addr).target;
      ghost var m := if t == 0 then memory1 else memory2;
      MissIsServed(m.State(), m.mem, addr, cmd, initiator.data, initiator.localTime);
      var trans' := MissTransport(addr, cmd);
      error := trans'.status != OkResponse;
      if trans'.dmiAllowed {
        MissGrant(addr, trans');
      }
    }

    /** One pass of the table initiator's loop body, for an address and command its traffic can produce. */
    method InitiatorAccess(addr: u64, cmd: Command) returns (viaDmi: bool, error: bool)
      requires Valid() && addr % 4 == 0 && addr < 0x200 && cmd != IgnoreCommand
      modifies initiator, snooper, memory1, memory2, memory1.mem, memory2.mem
      ensures Valid() && !error
      ensures viaDmi <==> FirstMatch(old(initiator.dmiTable), addr, cmd).Some?
      ensures var data := if cmd == WriteCommand then addr as int else old(initiator.data);
        viaDmi ==>
          var k := FirstMatch(old(initiator.dmiTable), addr, cmd).value;
          && initiator.dmiTable == old(initiator.dmiTable)
          && snooper.dmiValid == old(snooper.dmiValid)
          && memory1.State().(words := []) == old(memory1.State()).(words := [])
          && memory2.State().(words := []) == old(memory2.State()).(words := [])
          && Usable(initiator.dmiTable[k])
          && var e := initiator.dmiTable[k];
          var w := WordIndex(e, addr);
          var other := if e.ptr.block == memory1.mem then memory2.mem else memory1.mem;
          && w < e.ptr.block.Length
          && initiator.localTime == old(initiator.localTime) + HitLatency(e, cmd)
          && other[..] == old(other[..])
          && (cmd == WriteCommand ==>
                initiator.data == data && e.ptr.block[..] == old(e.ptr.block[..])[w := data])
          && (cmd == ReadCommand ==>
                initiator.data == e.ptr.block[w] && e.ptr.block[..] == old(e.ptr.block[..]))
      ensures var data := if cmd == WriteCommand then addr as int else old(initiator.data);
        !viaDmi ==>
          var t := DecodeAddress(addr).target;
          var m := if t == 0 then memory1 else memory2;
          var other := if t == 0 then memory2 else memory1;
          var o := Miss(old(m.State()), m.mem, addr, cmd, data, old(initiator.localTime));
          && m.State() == o.transport.state
          && other.State() == old(other.State())
          && snooper.dmiValid == SnooperAfter(old(snooper.dmiValid), o.deliveries)
          && initiator.dmiTable == TableAfter(old(initiator.dmiTable), o.deliveries, correctedPrune)
                                   + (if o.reply.Reply? && o.reply.granted then [o.reply.dmi] else [])
          && initiator.data == o.transport.trans.data[0]
          && initiator.localTime == o.transport.delay
    {
      if cmd == WriteCommand {
        initiator.data := addr as int;
      }
      var index;
      viaDmi, index := initiator.Lookup(addr, cmd);
      if viaDmi {
        TableHit(index, addr, cmd);
        error := false;
      } else {
        error := TableMiss(addr, cmd);
      }
    }
  }
}
