/**
 * The `Interconnect` of the snooping example: it routes every forward call to
 * one of exactly two memories, chosen by bit 8 of the address, rewrites the
 * address (and a snoop extension's end address) into that memory's local
 * space, rebuilds global addresses on the way back, and broadcasts every
 * invalidation a memory issues to all initiator sockets.
 */
module Routing {
  import opened Tlm
  import opened MemoryTarget

  /** The index of a downstream target socket. */
  type TargetId = t: nat | t < 2

  /** The result of `decode_address`: the target and the address in its local space. */
  datatype Decoded = Decoded(target: TargetId, masked: u64)

  /**
   * `decode_address`: bit 8 selects the target, the low eight bits are kept,
   * every bit above bit 8 is dropped.
   */
  function DecodeAddress(address: u64): (d: Decoded)
    ensures d.masked < 0x100
    ensures address < 0x200 ==> address == d.masked + 0x100 * d.target
    ensures address % 0x200 == d.masked + 0x100 * d.target
  {
    Decoded((address / 0x100) % 2, address % 0x100)
  }

  /**
   * `reconstruct_address`: `address | (target << 8)`, written bit by bit: the
   * low eight bits and every bit above bit 8 are kept, and bit 8 is set when
   * the target is 1.
   */
  function ReconstructAddress(address: u64, target: TargetId): (r: u64)
    ensures r % 0x100 == address % 0x100
    ensures (r / 0x100) % 2 == if target == 1 then 1 else (address / 0x100) % 2
    ensures r / 0x200 == address / 0x200
  {
    var q, b, m := address / 0x200, (address / 0x100) % 2, address % 0x100;
    assert address == 0x200 * q + 0x100 * b + m;
    if target == 1 && b == 0 then
      assert address + 0x100 == 0x200 * q + 0x100 * 1 + m;
      address + 0x100
    else
      address
  }

  /** The address map inverts exactly on the 512 bytes it covers. */
  lemma DecodeThenReconstruct(address: u64)
    requires address < 0x200
    ensures var d := DecodeAddress(address);
      ReconstructAddress(d.masked, d.target) == address
  {
  }

  /** Above the map, decoding loses the high bits: only `address % 0x200` comes back. */
  lemma DecodeThenReconstructHigh(address: u64)
    ensures var d := DecodeAddress(address);
      ReconstructAddress(d.masked, d.target) == address % 0x200
  {
  }

  /** Every (local address, target) pair is the decoding of exactly one global address. */
  lemma ReconstructThenDecode(local: u64, target: TargetId)
    requires local < 0x100
    ensures ReconstructAddress(local, target) < 0x200
    ensures DecodeAddress(ReconstructAddress(local, target)) == Decoded(target, local)
  {
  }

  /** One invalidation as delivered to initiator socket `socket`. */
  datatype Delivery = Delivery(socket: nat, range: Range)

  /** The global image of a range issued by target `id`. */
  function GlobalRange(id: TargetId, startRange: u64, endRange: u64): Range
  {
    Range(ReconstructAddress(startRange, id), ReconstructAddress(endRange, id))
  }

  /** `invalidate_direct_mem_ptr` from target `id`, as seen by `n` initiator sockets. */
  function Broadcast(n: nat, id: TargetId, r: Range): seq<Delivery>
  {
    seq(n, i requires 0 <= i < n => Delivery(i, GlobalRange(id, r.lo, r.hi)))
  }

  /** All the broadcasts for the invalidations a target issued during one call, in order. */
  function Broadcasts(n: nat, id: TargetId, ranges: seq<Range>): seq<Delivery>
  {
    if ranges == [] then [] else Broadcast(n, id, ranges[0]) + Broadcasts(n, id, ranges[1..])
  }

  /**
   * The forward half of `get_direct_mem_ptr`: the address is masked and, when
   * the payload carries a valid snoop extension, so is its end address (whose
   * target bit is ignored).
   */
  function ForwardDmiRequest(trans: Payload): Payload
  {
    var fw := trans.(address := DecodeAddress(trans.address).masked);
    if SnoopRequested(trans) then
      fw.(snoop := Some(trans.snoop.value.(endAddress := DecodeAddress(trans.snoop.value.endAddress).masked)))
    else
      fw
  }

  /** The return half: start and end of the descriptor are rebuilt with the request's target, granted or not. */
  function BackwardDmiReply(target: TargetId, reply: DmiReply): DmiReply
  {
    match reply
    case Reply(granted, d) =>
      Reply(granted, d.(startAddress := ReconstructAddress(d.startAddress, target),
                        endAddress := ReconstructAddress(d.endAddress, target)))
    case ProtocolError => ProtocolError
  }

  lemma ForwardDmiRequestMasks(trans: Payload)
    ensures var fw := ForwardDmiRequest(trans);
      && fw.address == trans.address % 0x100
      && fw.address < 0x100
      && (SnoopRequested(trans) ==>
            fw.snoop == Some(SnoopExtension(trans.snoop.value.endAddress % 0x100, true)))
      && (!SnoopRequested(trans) ==> fw.snoop == trans.snoop)
      && fw == trans.(address := fw.address, snoop := fw.snoop)
      && (SnoopRequested(fw) <==> SnoopRequested(trans))
  {
  }

  /**
   * A regular DMI request for an address of the map, served by a memory:
   * the grant comes back as the whole 256-byte window of the target that bit
   * 8 selects, so it contains the requested address.
   */
  lemma {:induction false} RegularGrantCoversAddress(s: MemoryState, block: array<int>, trans: Payload, dmi: Dmi)
    requires !SnoopRequested(trans) && trans.address < 0x200
    ensures var t := DecodeAddress(trans.address).target;
      var reply := BackwardDmiReply(t, Grant(s, block, ForwardDmiRequest(trans), dmi).reply);
      && reply.Reply?
      && reply.dmi.startAddress == 0x100 * t
      && reply.dmi.endAddress == 0x100 * t + 0xFF
      && reply.dmi.startAddress <= trans.address <= reply.dmi.endAddress
      && reply.dmi.ptr == WordPtr(block, 0)
      && (reply.granted <==> !(s.writeSnoop && trans.command == WriteCommand))
  {
    var t := DecodeAddress(trans.address).target;
    ForwardDmiRequestMasks(trans);
    RegularGrant(s, block, ForwardDmiRequest(trans), dmi);
    ReconstructThenDecode(0, t);
    ReconstructThenDecode(0xFF, t);
  }

  /**
   * A snoop request whose two ends lie in the same target: the memory sees
   * the local range, and the grant and the invalidation both come back as
   * the original global range.
   */
  lemma {:induction false} SnoopGrantRoundTrip(s: MemoryState, block: array<int>, trans: Payload, dmi: Dmi)
    requires SnoopRequested(trans) && trans.command == ReadCommand
    requires trans.address < 0x200 && trans.snoop.value.endAddress < 0x200
    requires DecodeAddress(trans.address).target == DecodeAddress(trans.snoop.value.endAddress).target
    requires trans.address % 4 == 0
    ensures var t := DecodeAddress(trans.address).target;
      var g := Grant(s, block, ForwardDmiRequest(trans), dmi);
      var reply := BackwardDmiReply(t, g.reply);
      && reply.Reply? && reply.granted && reply.dmi.access == ReadAccess
      && reply.dmi.ptr == WordPtr(block, DecodeAddress(trans.address).masked / 4)
      && g.state == s.(writeSnoop := true, snoopStart := DecodeAddress(trans.address).masked,
                       snoopEnd := DecodeAddress(trans.snoop.value.endAddress).masked)
      && reply.dmi.startAddress == trans.address
      && reply.dmi.endAddress == trans.snoop.value.endAddress
      && |g.invalidated| == 1
      && GlobalRange(t, g.invalidated[0].lo, g.invalidated[0].hi)
         == Range(trans.address, trans.snoop.value.endAddress)
  {
    var fw := ForwardDmiRequest(trans);
    ForwardDmiRequestMasks(trans);
    DecodeThenReconstruct(trans.address);
    DecodeThenReconstruct(trans.snoop.value.endAddress);
    assert fw.address % 4 == 0;
    SnoopSetupAligned(s, block, fw, dmi);
  }

  class Interconnect {
    /** The memories bound to the initiator socket, in binding order. */
    var targets: seq<Memory>
    /** How many initiators are bound to the target socket. */
    const initiators: nat
    /** `m_id_map`: the target-socket index each payload (by identity) arrived on. */
    var idMap: map<nat, nat>

    /** The two memories are bound, distinct, and well formed. */
    ghost predicate Elaborated()
      reads this, targets
    {
      && |targets| == 2
      && targets[0] != targets[1]
      && targets[0].mem != targets[1].mem
      && targets[0].Valid() && targets[1].Valid()
    }

    constructor (targets: seq<Memory>, initiators: nat)
      ensures this.targets == targets && this.initiators == initiators && idMap == map[]
    {
      this.targets := targets;
      this.initiators := initiators;
      idMap := map[];
    }

    /** `end_of_elaboration`: anything but exactly two targets is reported as an error. */
    method EndOfElaboration() returns (ok: bool)
      ensures ok <==> |targets| == 2
    {
      ok := |targets| == 2;
    }

    /** `invalidate_direct_mem_ptr` from target `id`: the global range, to every initiator socket in index order. */
    method InvalidateDirectMemPtr(id: TargetId, startRange: u64, endRange: u64) returns (deliveries: seq<Delivery>)
      ensures |deliveries| == initiators
      ensures forall i :: 0 <= i < initiators ==>
                deliveries[i].socket == i &&
                deliveries[i].range == Range(ReconstructAddress(startRange, id), ReconstructAddress(endRange, id))
      ensures deliveries == Broadcast(initiators, id, Range(startRange, endRange))
    {
      var bwStart := ReconstructAddress(startRange, id);
      var bwEnd := ReconstructAddress(endRange, id);
      deliveries := [];
      var i := 0;
      while i < initiators
        invariant 0 <= i <= initiators
        invariant |deliveries| == i
        invariant forall j :: 0 <= j < i ==> deliveries[j] == Delivery(j, Range(bwStart, bwEnd))
      {
        deliveries := deliveries + [Delivery(i, Range(bwStart, bwEnd))];
        i := i + 1;
      }
      ghost var all := Broadcast(initiators, id, Range(startRange, endRange));
      forall j | 0 <= j < initiators
        ensures all[j] == deliveries[j]
      {
        assert all[j] == Delivery(j, GlobalRange(id, startRange, endRange));
      }
    }

    /** Broadcasts every range of `ranges`, in order. */
    method InvalidateAll(id: TargetId, ranges: seq<Range>) returns (deliveries: seq<Delivery>)
      ensures deliveries == Broadcasts(initiators, id, ranges)
    {
      deliveries := [];
      var k := |ranges|;
      while k > 0
        invariant 0 <= k <= |ranges|
        invariant deliveries == Broadcasts(initiators, id, ranges[k..])
      {
        k := k - 1;
        var d := InvalidateDirectMemPtr(id, ranges[k].lo, ranges[k].hi);
        assert ranges[k..][1..] == ranges[k + 1..];
        deliveries := d + deliveries;
      }
    }

    method BTransport(trans: Payload, delay: nat) returns (trans': Payload, delay': nat, deliveries: seq<Delivery>)
      requires Elaborated() && BufferHolds(trans)
      modifies targets[0], targets[0].mem, targets[1], targets[1].mem
      ensures Elaborated()
      ensures var t := DecodeAddress(trans.address).target;
        var r := Transport(old(targets[t].State()), trans.(address := DecodeAddress(trans.address).masked), delay);
        && targets[t].State() == r.state
        && targets[1 - t].State() == old(targets[1 - t].State())
        && trans' == r.trans && delay' == r.delay
        && deliveries == Broadcasts(initiators, t, r.invalidated)
    {
      var d := DecodeAddress(trans.address);
      var local := trans.(address := d.masked);
      var target := targets[d.target];
      var ranges;
      trans', delay', ranges := target.BTransport(local, delay);
      deliveries := InvalidateAll(d.target, ranges);
    }

    method GetDirectMemPtr(trans: Payload, dmi: Dmi) returns (trans': Payload, reply: DmiReply, deliveries: seq<Delivery>)
      requires Elaborated()
      modifies targets[0], targets[1]
      ensures Elaborated()
      ensures var t := DecodeAddress(trans.address).target;
        var g := Grant(old(targets[t].State()), targets[t].mem, ForwardDmiRequest(trans), dmi);
        && targets[t].State() == g.state
        && targets[1 - t].State() == old(targets[1 - t].State())
        && trans' == ForwardDmiRequest(trans)
        && reply == BackwardDmiReply(t, g.reply)
        && deliveries == Broadcasts(initiators, t, g.invalidated)
    {
      var d := DecodeAddress(trans.address);
      trans' := trans.(address := d.masked);
      if trans'.snoop.Some? && trans'.snoop.value.valid {
        var e := DecodeAddress(trans'.snoop.value.endAddress);
        trans' := trans'.(snoop := Some(trans'.snoop.value.(endAddress := e.masked)));
      }
      var target := targets[d.target];
      var status, ranges := target.GetDirectMemPtr(trans', dmi);
      deliveries := InvalidateAll(d.target, ranges);
      match status
      case Reply(granted, dd) =>
        reply := Reply(granted, dd.(startAddress := ReconstructAddress(dd.startAddress, d.target),
                                    endAddress := ReconstructAddress(dd.endAddress, d.target)));
      case ProtocolError =>
        reply := ProtocolError;
    }

    method TransportDbg(trans: Payload) returns (trans': Payload, transferred: nat)
      requires Elaborated() && BufferHolds(trans)
      modifies targets[0].mem, targets[1].mem
      ensures Elaborated()
      ensures var t := DecodeAddress(trans.address).target;
        var r := Debug(old(targets[t].State()), trans.(address := DecodeAddress(trans.address).masked));
        && targets[t].State() == r.state
        && targets[1 - t].State() == old(targets[1 - t].State())
        && trans' == r.trans && transferred == r.transferred
    {
      var d := DecodeAddress(trans.address);
      var target := targets[d.target];
      trans', transferred := target.TransportDbg(trans.(address := d.masked));
    }

    /**
     * `nb_transport_fw`: records the socket the payload `key` arrived on and
     * masks its address; returns the target it is passed on to.
     */
    method NbTransportFw(id: nat, key: nat, trans: Payload) returns (target: TargetId, trans': Payload)
      modifies this
      ensures targets == old(targets)
      ensures idMap == old(idMap)[key := id]
      ensures target == DecodeAddress(trans.address).target
      ensures trans' == trans.(address := DecodeAddress(trans.address).masked)
    {
      idMap := idMap[key := id];
      var d := DecodeAddress(trans.address);
      target, trans' := d.target, trans.(address := d.masked);
    }

    /**
     * `nb_transport_bw`: the socket to send the response back on.  A payload
     * that was never recorded is entered with index 0 and goes to socket 0.
     */
    method NbTransportBw(key: nat) returns (socket: nat)
      modifies this
      ensures targets == old(targets)
      ensures key in old(idMap) ==> socket == old(idMap)[key] && idMap == old(idMap)
      ensures key !in old(idMap) ==> socket == 0 && idMap == old(idMap)[key := 0]
    {
      if key !in idMap {
        idMap := idMap[key := 0];
      }
      socket := idMap[key];
    }

    /** The point of the id map: a response to a forwarded payload goes back on the socket the payload came in on. */
    method ForwardThenBackward(id: nat, key: nat, trans: Payload) returns (socket: nat)
      modifies this
      ensures socket == id && idMap == old(idMap)[key := id]
    {
      var _, _ := NbTransportFw(id, key, trans);
      socket := NbTransportBw(key);
    }
  }
}
