/**
 * The `Memory` target of the snooping example: 64 words of backing store, the
 * blocking transport, DMI grants with an optional standing write snoop, and
 * the debug transport.
 *
 * The behaviour is stated twice: as pure functions of a `MemoryState` value
 * (what the lemmas reason about) and as the `Memory` class, whose methods
 * update the array and the snoop fields in place and promise to do exactly
 * what the functions say.  Invalidations the memory issues on its socket are
 * returned as a sequence of local address ranges.
 */
module MemoryTarget {
  import opened Tlm

  /** Words of backing store (256 bytes). */
  const SIZE: nat := 64
  /** The per-access latency, in nanoseconds. */
  const LATENCY: nat := 50

  /** The observable state of one memory. */
  datatype MemoryState = MemoryState(
    words: seq<int>,
    writeSnoop: bool,
    snoopStart: u64,
    snoopEnd: u64)

  predicate WellSized(s: MemoryState)
  {
    |s.words| == SIZE
  }

  /** The address names a word of the store and is word-aligned. */
  predicate AddressOk(address: u64)
  {
    address / 4 < SIZE && address % 4 == 0
  }

  /** A write of `length` bytes at `address` touches the snooped range while a snoop is armed. */
  predicate SnoopHit(s: MemoryState, address: u64, length: u32)
  {
    s.writeSnoop && address + length > s.snoopStart && address <= s.snoopEnd
  }

  // ---------------------------------------------------------------------------
  // b_transport

  datatype TransportResult = TransportResult(
    state: MemoryState,
    trans: Payload,
    delay: nat,
    invalidated: seq<Range>)

  function Transport(s: MemoryState, trans: Payload, delay: nat): TransportResult
    requires WellSized(s) && BufferHolds(trans)
  {
    if !AddressOk(trans.address) then
      TransportResult(s, trans.(status := AddressErrorResponse), delay, [])
    else if trans.byteEnable then
      TransportResult(s, trans.(status := ByteEnableErrorResponse), delay, [])
    else if trans.length != 4 || trans.streamingWidth != 4 then
      TransportResult(s, trans.(status := BurstErrorResponse), delay, [])
    else
      var w := trans.address / 4;
      var done := trans.(dmiAllowed := true, status := OkResponse);
      match trans.command
      case ReadCommand =>
        TransportResult(s, done.(data := trans.data[0 := s.words[w]]), delay + LATENCY, [])
      case WriteCommand =>
        var written := s.(words := s.words[w := trans.data[0]]);
        if SnoopHit(s, trans.address, trans.length) then
          TransportResult(written.(writeSnoop := false), done, delay + LATENCY,
                          [Range(s.snoopStart, s.snoopEnd)])
        else
          TransportResult(written, done, delay + LATENCY, [])
      case IgnoreCommand =>
        TransportResult(s, done, delay + LATENCY, [])
  }

  /** The three checks, in order; on any error only the response status changes. */
  lemma TransportErrors(s: MemoryState, trans: Payload, delay: nat)
    requires WellSized(s) && BufferHolds(trans)
    ensures var r := Transport(s, trans, delay);
      && (r.trans.status == AddressErrorResponse <==> !AddressOk(trans.address))
      && (r.trans.status == ByteEnableErrorResponse <==> AddressOk(trans.address) && trans.byteEnable)
      && (r.trans.status == BurstErrorResponse <==>
            AddressOk(trans.address) && !trans.byteEnable &&
            (trans.length != 4 || trans.streamingWidth != 4))
      && (r.trans.status != OkResponse ==>
            r.state == s && r.delay == delay && r.invalidated == [] &&
            r.trans == trans.(status := r.trans.status))
  {
  }

  /**
   * A successful access: a write sets exactly the addressed word, a read
   * returns it in the first word of the buffer and leaves the store alone;
   * the delay grows by the latency and the response allows DMI.
   */
  lemma TransportSucceeds(s: MemoryState, trans: Payload, delay: nat)
    requires WellSized(s) && BufferHolds(trans)
    requires AddressOk(trans.address) && !trans.byteEnable
    requires trans.length == 4 && trans.streamingWidth == 4
    ensures var r := Transport(s, trans, delay);
      && r.trans.status == OkResponse && r.trans.dmiAllowed
      && r.delay == delay + LATENCY
      && WellSized(r.state)
      && (trans.command == WriteCommand ==>
            r.state.words == s.words[trans.address / 4 := trans.data[0]] &&
            r.trans.data == trans.data)
      && (trans.command == ReadCommand ==>
            r.state == s && r.trans.data == trans.data[0 := s.words[trans.address / 4]])
      && (trans.command == IgnoreCommand ==> r.state == s && r.trans.data == trans.data)
      && r.trans == trans.(dmiAllowed := true, status := OkResponse, data := r.trans.data)
  {
  }

  /**
   * The snoop fires on a successful write that hits the watched range: then
   * exactly one invalidation, of the whole watched range, and the snoop is
   * cleared.  Otherwise there is no invalidation and the snoop is left as it
   * was; reads never touch it.
   */
  lemma TransportSnoop(s: MemoryState, trans: Payload, delay: nat)
    requires WellSized(s) && BufferHolds(trans)
    ensures var r := Transport(s, trans, delay);
      && |r.invalidated| <= 1
      && (r.trans.status == OkResponse && trans.command == WriteCommand &&
          SnoopHit(s, trans.address, trans.length)
          <==> r.invalidated == [Range(s.snoopStart, s.snoopEnd)])
      && (r.invalidated != [] ==> !r.state.writeSnoop)
      && (r.invalidated == [] ==> r.state.writeSnoop == s.writeSnoop)
      && r.state.snoopStart == s.snoopStart && r.state.snoopEnd == s.snoopEnd
      && (trans.command != WriteCommand ==> r.state == s)
  {
  }

  /**
   * The memory's snoop test is the interval test of the initiators applied
   * to the four written bytes [address, address + 3].
   */
  lemma SnoopHitIsOverlap(s: MemoryState, address: u64)
    requires address / 4 < SIZE
    ensures SnoopHit(s, address, 4) <==>
            s.writeSnoop && Overlaps(address, address + 3, s.snoopStart, s.snoopEnd)
  {
  }

  // ---------------------------------------------------------------------------
  // get_direct_mem_ptr

  /** What `get_direct_mem_ptr` returns; `ProtocolError` is the reported error of a write snoop request. */
  datatype DmiReply = Reply(granted: bool, dmi: Dmi) | ProtocolError

  datatype GrantResult = GrantResult(state: MemoryState, reply: DmiReply, invalidated: seq<Range>)

  /**
   * `block` is the memory's own array; `dmi` is the descriptor the caller
   * passes in, of which the target overwrites the fields it sets.
   */
  function Grant(s: MemoryState, block: array<int>, trans: Payload, dmi: Dmi): GrantResult
  {
    if SnoopRequested(trans) then
      if trans.command == ReadCommand then
        var start := trans.address;
        var end := trans.snoop.value.endAddress;
        var retargeted := s.(snoopStart := start, snoopEnd := end);
        var d := dmi.(ptr := WordPtr(block, start / 4), startAddress := start, endAddress := end,
                      readLatency := LATENCY, writeLatency := LATENCY, access := ReadAccess);
        if start % 4 != 0 then
          GrantResult(retargeted, Reply(false, d), [])
        else
          GrantResult(retargeted.(writeSnoop := true), Reply(true, d), [Range(start, end)])
      else
        GrantResult(s, ProtocolError, [])
    else
      var d := dmi.(ptr := WordPtr(block, 0), startAddress := 0, endAddress := SIZE * 4 - 1,
                    readLatency := LATENCY, writeLatency := LATENCY);
      if s.writeSnoop && trans.command == WriteCommand then
        GrantResult(s, Reply(false, d), [])
      else if trans.command == WriteCommand then
        GrantResult(s, Reply(true, d.(access := ReadWriteAccess)), [])
      else
        GrantResult(s, Reply(true, d.(access := ReadAccess)), [])
  }

  /**
   * Snoop setup from an aligned address: a read-only grant over exactly
   * [address, endAddress], the snoop armed over that range, and one
   * invalidation of it.
   */
  lemma SnoopSetupAligned(s: MemoryState, block: array<int>, trans: Payload, dmi: Dmi)
    requires SnoopRequested(trans) && trans.command == ReadCommand
    requires trans.address % 4 == 0
    ensures var r := Grant(s, block, trans, dmi);
      var end := trans.snoop.value.endAddress;
      && r.reply.Reply? && r.reply.granted
      && r.reply.dmi == Dmi(WordPtr(block, trans.address / 4), trans.address, end,
                            ReadAccess, LATENCY, LATENCY)
      && r.state == MemoryState(s.words, true, trans.address, end)
      && r.invalidated == [Range(trans.address, end)]
  {
  }

  /**
   * Snoop setup from a misaligned address: refused, with no invalidation and
   * the armed flag untouched, but the watched range is already overwritten.
   */
  lemma SnoopSetupMisaligned(s: MemoryState, block: array<int>, trans: Payload, dmi: Dmi)
    requires SnoopRequested(trans) && trans.command == ReadCommand
    requires trans.address % 4 != 0
    ensures var r := Grant(s, block, trans, dmi);
      && r.reply.Reply? && !r.reply.granted
      && r.invalidated == []
      && r.state == s.(snoopStart := trans.address, snoopEnd := trans.snoop.value.endAddress)
  {
  }

  /** A snoop may only be requested with a read; any other command is a protocol error that changes nothing. */
  lemma SnoopSetupNeedsRead(s: MemoryState, block: array<int>, trans: Payload, dmi: Dmi)
    requires SnoopRequested(trans)
    ensures var r := Grant(s, block, trans, dmi);
      r.reply.ProtocolError? <==> trans.command != ReadCommand
    ensures var r := Grant(s, block, trans, dmi);
      r.reply.ProtocolError? ==> r.state == s && r.invalidated == []
  {
  }

  /**
   * A regular DMI request: always the whole store [0, 255] at the fixed
   * latency; a write is refused while a snoop is armed and granted
   * read-write otherwise; a read is granted read-only, snoop or not; the
   * memory's state never changes.
   */
  lemma RegularGrant(s: MemoryState, block: array<int>, trans: Payload, dmi: Dmi)
    requires !SnoopRequested(trans)
    ensures var r := Grant(s, block, trans, dmi);
      && r.state == s && r.invalidated == []
      && r.reply.Reply?
      && r.reply.dmi.ptr == WordPtr(block, 0)
      && r.reply.dmi.startAddress == 0 && r.reply.dmi.endAddress == 4 * SIZE - 1
      && r.reply.dmi.readLatency == LATENCY && r.reply.dmi.writeLatency == LATENCY
      && (r.reply.granted <==> !(s.writeSnoop && trans.command == WriteCommand))
      && (r.reply.granted && trans.command == WriteCommand ==> r.reply.dmi.access == ReadWriteAccess)
      && (trans.command != WriteCommand ==> r.reply.dmi.access == ReadAccess)
      && (!r.reply.granted ==> r.reply.dmi.access == dmi.access)
  {
  }

  /**
   * The snoop protocol over several calls: after an aligned snoop setup over
   * [lo, hi], the first write into that range issues exactly one
   * invalidation of [lo, hi], and a second write anywhere issues none.
   */
  lemma {:induction false} SnoopFiresOnce(
    s: MemoryState, block: array<int>, setup: Payload, dmi: Dmi,
    first: Payload, second: Payload, delay: nat)
    requires WellSized(s)
    requires SnoopRequested(setup) && setup.command == ReadCommand && setup.address % 4 == 0
    requires BufferHolds(first) && BufferHolds(second)
    requires first.command == WriteCommand && second.command == WriteCommand
    requires AddressOk(first.address) && !first.byteEnable
    requires first.length == 4 && first.streamingWidth == 4
    requires first.address + 4 > setup.address && first.address <= setup.snoop.value.endAddress
    ensures var g := Grant(s, block, setup, dmi);
      var t1 := Transport(g.state, first, delay);
      var t2 := Transport(t1.state, second, t1.delay);
      && g.invalidated == [Range(setup.address, setup.snoop.value.endAddress)]
      && t1.invalidated == [Range(setup.address, setup.snoop.value.endAddress)]
      && t2.invalidated == []
  {
    var g := Grant(s, block, setup, dmi);
    SnoopSetupAligned(s, block, setup, dmi);
    assert g.state.writeSnoop && WellSized(g.state);
    assert SnoopHit(g.state, first.address, first.length);
    var t1 := Transport(g.state, first, delay);
    TransportSnoop(g.state, first, delay);
    TransportSucceeds(g.state, first, delay);
    assert !t1.state.writeSnoop && WellSized(t1.state);
    TransportSnoop(t1.state, second, t1.delay);
  }

  /**
   * No permanent lockout for writers: once a write has fired the snoop, a
   * regular write grant is granted read-write again.  That reads and aligned
   * snoop setups are never refused is `RegularGrant` and `SnoopSetupAligned`.
   */
  lemma {:induction false} NoPermanentLockout(
    s: MemoryState, block: array<int>, write: Payload, delay: nat, req: Payload, dmi: Dmi)
    requires WellSized(s) && BufferHolds(write)
    requires !SnoopRequested(req) && req.command == WriteCommand
    requires Transport(s, write, delay).invalidated != []
    ensures Grant(Transport(s, write, delay).state, block, req, dmi).reply
            == Reply(true, Dmi(WordPtr(block, 0), 0, 4 * SIZE - 1, ReadWriteAccess, LATENCY, LATENCY))
  {
    TransportSnoop(s, write, delay);
    RegularGrant(Transport(s, write, delay).state, block, req, dmi);
  }

  // ---------------------------------------------------------------------------
  // Finding: the watched range is overwritten before the alignment check.

  /**
   * Concretely: a snoop armed over [0x00, 0x7F]; a misaligned setup at 0x41
   * is refused, yet it moves the armed snoop to [0x41, 0x60]; a write to
   * word 0, inside the range the caching initiator still holds, then
   * invalidates nothing.
   */
  lemma MisalignedSetupRetargetsSnoop(words: seq<int>, block: array<int>, dmi: Dmi, delay: nat)
    requires |words| == SIZE
    ensures var s := MemoryState(words, true, 0x00, 0x7F);
      var bad := Payload(ReadCommand, 0x41, [], 0, 0, false, false, IncompleteResponse,
                         Some(SnoopExtension(0x60, true)));
      var g := Grant(s, block, bad, dmi);
      var w := Payload(WriteCommand, 0x00, [7], 4, 4, false, false, IncompleteResponse, None);
      && g.reply == Reply(false, g.reply.dmi)
      && g.state.writeSnoop && g.state.snoopStart == 0x41
      && SnoopHit(s, 0x00, 4)
      && Transport(g.state, w, delay).invalidated == []
  {
  }

  /** The intended order: refuse a misaligned setup before touching any state. */
  function GrantChecked(s: MemoryState, block: array<int>, trans: Payload, dmi: Dmi): GrantResult
  {
    if SnoopRequested(trans) && trans.command == ReadCommand && trans.address % 4 != 0 then
      GrantResult(s, Grant(s, block, trans, dmi).reply, [])
    else
      Grant(s, block, trans, dmi)
  }

  /**
   * With the check first, a refused setup leaves the memory exactly as it
   * was, so an armed snoop keeps firing on writes to the range it watches;
   * every other request is served as before.
   */
  lemma {:induction false} CheckedSetupKeepsSnoop(
    s: MemoryState, block: array<int>, trans: Payload, dmi: Dmi, w: Payload, delay: nat)
    requires WellSized(s) && BufferHolds(w)
    ensures var g := GrantChecked(s, block, trans, dmi);
      && WellSized(g.state)
      && (g.reply.Reply? && !g.reply.granted ==> g.state == s && g.invalidated == [])
      && (g.reply.Reply? && !g.reply.granted ==>
            Transport(g.state, w, delay).invalidated == Transport(s, w, delay).invalidated)
      && (!(SnoopRequested(trans) && trans.command == ReadCommand && trans.address % 4 != 0) ==>
            g == Grant(s, block, trans, dmi))
  {
    var g := GrantChecked(s, block, trans, dmi);
    if SnoopRequested(trans) {
      if trans.command == ReadCommand {
        if trans.address % 4 != 0 {
          SnoopSetupMisaligned(s, block, trans, dmi);
        } else {
          SnoopSetupAligned(s, block, trans, dmi);
        }
      } else {
        SnoopSetupNeedsRead(s, block, trans, dmi);
      }
    } else {
      RegularGrant(s, block, trans, dmi);
    }
  }

  // ---------------------------------------------------------------------------
  // transport_dbg

  datatype DebugResult = DebugResult(state: MemoryState, trans: Payload, transferred: nat)

  /** The number of bytes the debug transport moves. */
  function DebugLength(address: u64, length: u32): nat
  {
    if address % 4 != 0 || length % 4 != 0 || address >= SIZE * 4 then 0
    else if address + length > SIZE * 4 then SIZE * 4 - address
    else length
  }

  function Debug(s: MemoryState, trans: Payload): DebugResult
    requires WellSized(s) && BufferHolds(trans)
  {
    var len := DebugLength(trans.address, trans.length);
    if len == 0 then DebugResult(s, trans, 0)
    else
      var w, n := trans.address / 4, len / 4;
      match trans.command
      case ReadCommand =>
        DebugResult(s, trans.(data := s.words[w..w + n] + trans.data[n..]), len)
      case WriteCommand =>
        DebugResult(s.(words := s.words[..w] + trans.data[..n] + s.words[w + n..]), trans, len)
      case IgnoreCommand =>
        DebugResult(s, trans, len)
  }

  /**
   * The debug transport is a clamped bypass: misaligned or out-of-range
   * requests move nothing; otherwise the transfer is cut at the end of the
   * store; only the words transferred change; the snoop is never touched.
   */
  lemma DebugIsClampedCopy(s: MemoryState, trans: Payload)
    requires WellSized(s) && BufferHolds(trans)
    ensures var r := Debug(s, trans);
      && r.transferred % 4 == 0
      && (trans.address % 4 != 0 || trans.length % 4 != 0 || trans.address >= 4 * SIZE ==>
            r.transferred == 0)
      && (trans.address % 4 == 0 && trans.length % 4 == 0 && trans.address < 4 * SIZE ==>
            r.transferred == if trans.length <= 4 * SIZE - trans.address
                             then trans.length else 4 * SIZE - trans.address)
      && WellSized(r.state)
      && r.state.writeSnoop == s.writeSnoop
      && r.state.snoopStart == s.snoopStart && r.state.snoopEnd == s.snoopEnd
      && |r.trans.data| == |trans.data|
      && (forall k :: 0 <= k < SIZE && !(trans.address <= 4 * k < trans.address + r.transferred) ==>
            r.state.words[k] == s.words[k])
      && (forall k :: 0 <= k < |trans.data| && 4 * k >= r.transferred ==>
            r.trans.data[k] == trans.data[k])
      && (trans.command == ReadCommand ==>
            r.state == s &&
            forall k :: 0 <= k < r.transferred / 4 ==> r.trans.data[k] == s.words[trans.address / 4 + k])
      && (trans.command == WriteCommand ==>
            r.trans == trans &&
            forall k :: 0 <= k < r.transferred / 4 ==> r.state.words[trans.address / 4 + k] == trans.data[k])
  {
  }

  /** A copy of `n` words of `src` into `before` at `w`, stated pointwise, is the splice `Debug` describes. */
  lemma Splice(after: seq<int>, before: seq<int>, src: seq<int>, w: nat, n: nat)
    requires |after| == |before| && w + n <= |before| && n <= |src|
    requires forall k :: 0 <= k < |before| ==> after[k] == if w <= k < w + n then src[k - w] else before[k]
    ensures after == before[..w] + src[..n] + before[w + n..]
  {
  }

  // ---------------------------------------------------------------------------
  // The memory as an object.

  class Memory {
    /** `mem`, embedded in the object. */
    const mem: array<int>
    var writeSnoop: bool
    var snoopStart: u64
    var snoopEnd: u64

    ghost predicate Valid()
      reads this
    {
      mem.Length == SIZE
    }

    ghost function State(): (s: MemoryState)
      reads this, mem
      requires Valid()
      ensures WellSized(s)
    {
      MemoryState(mem[..], writeSnoop, snoopStart, snoopEnd)
    }

    /** The initial contents are a parameter (the source fills them with `rand() % 256`). */
    constructor (contents: seq<int>)
      requires |contents| == SIZE
      ensures Valid() && fresh(mem)
      ensures State() == MemoryState(contents, false, 0, 0)
    {
      mem := new int[SIZE](i => if 0 <= i < |contents| then contents[i] else 0);
      writeSnoop := false;
      // The source leaves the range uninitialised; it is only read while writeSnoop is set.
      snoopStart, snoopEnd := 0, 0;
    }

    method BTransport(trans: Payload, delay: nat) returns (trans': Payload, delay': nat, invalidated: seq<Range>)
      requires Valid() && BufferHolds(trans)
      modifies this, mem
      ensures Valid()
      ensures TransportResult(State(), trans', delay', invalidated) == Transport(old(State()), trans, delay)
    {
      trans', delay', invalidated := trans, delay, [];
      if trans.address / 4 >= SIZE || trans.address % 4 != 0 {
        trans' := trans.(status := AddressErrorResponse);
        return;
      }
      if trans.byteEnable {
        trans' := trans.(status := ByteEnableErrorResponse);
        return;
      }
      if trans.length != 4 || trans.streamingWidth != 4 {
        trans' := trans.(status := BurstErrorResponse);
        return;
      }
      var w := trans.address / 4;
      if trans.command == ReadCommand {
        trans' := trans'.(data := trans.data[0 := mem[w]]);
      } else if trans.command == WriteCommand {
        mem[w] := trans.data[0];
        if writeSnoop && trans.address + trans.length > snoopStart && trans.address <= snoopEnd {
          invalidated := [Range(snoopStart, snoopEnd)];
          writeSnoop := false;
        }
      }
      delay' := delay + LATENCY;
      trans' := trans'.(dmiAllowed := true, status := OkResponse);
    }

    method GetDirectMemPtr(trans: Payload, dmi: Dmi) returns (reply: DmiReply, invalidated: seq<Range>)
      requires Valid()
      modifies this
      ensures Valid() && mem[..] == old(mem[..])
      ensures GrantResult(State(), reply, invalidated) == Grant(old(State()), mem, trans, dmi)
    {
      invalidated := [];
      if trans.snoop.Some? && trans.snoop.value.valid {
        if trans.command == ReadCommand {
          snoopStart := trans.address;
          snoopEnd := trans.snoop.value.endAddress;
          var d := dmi.(ptr := WordPtr(mem, snoopStart / 4), startAddress := snoopStart,
                        endAddress := snoopEnd, readLatency := LATENCY, writeLatency := LATENCY,
                        access := ReadAccess);
          if snoopStart % 4 != 0 {
            return Reply(false, d), [];
          }
          writeSnoop := true;
          invalidated := [Range(snoopStart, snoopEnd)];
          reply := Reply(true, d);
        } else {
          reply := ProtocolError;
        }
      } else {
        var d := dmi.(ptr := WordPtr(mem, 0), startAddress := 0, endAddress := SIZE * 4 - 1,
                      readLatency := LATENCY, writeLatency := LATENCY);
        if writeSnoop && trans.command == WriteCommand {
          return Reply(false, d), [];
        }
        if trans.command == WriteCommand {
          d := d.(access := ReadWriteAccess);
        } else {
          d := d.(access := ReadAccess);
        }
        reply := Reply(true, d);
      }
    }

    method TransportDbg(trans: Payload) returns (trans': Payload, transferred: nat)
      requires Valid() && BufferHolds(trans)
      modifies mem
      ensures Valid()
      ensures DebugResult(State(), trans', transferred) == Debug(old(State()), trans)
    {
      trans' := trans;
      if trans.address % 4 != 0 || trans.length % 4 != 0 {
        return trans, 0;
      }
      if trans.address >= SIZE * 4 {
        return trans, 0;
      }
      var len: nat := trans.length;
      if trans.address + len > SIZE * 4 {
        len := SIZE * 4 - trans.address;
      }
      var w, n := trans.address / 4, len / 4;
      if trans.command == ReadCommand {
        trans' := trans.(data := mem[w..w + n] + trans.data[n..]);
      } else if trans.command == WriteCommand {
        var i := 0;
        while i < n
          invariant 0 <= i <= n
          invariant forall k :: 0 <= k < SIZE ==>
                      mem[k] == if w <= k < w + i then trans.data[k - w] else old(mem[k])
        {
          mem[w + i] := trans.data[i];
          i := i + 1;
        }
        Splice(mem[..], old(mem[..]), trans.data, w, n);
      }
      transferred := len;
    }
  }
}
