/**
 * Whole-platform runs, each built from a fresh `Top` and proved from the
 * contracts of the calls alone.
 */
module Scenarios {
  import opened Tlm
  import opened MemoryTarget
  import opened Routing
  import opened TableClient
  import opened CachingClient
  import opened Platform

  /** The second memory's local range [0x00, 0x7F] is the global region [0x100, 0x17F]. */
  lemma RegionIsSecondMemory()
    ensures GlobalRange(1, 0, 0x7F) == Range(START, END)
  {
    ReconstructThenDecode(0, 1);
    ReconstructThenDecode(0x7F, 1);
  }

  /**
   * The snooper fills its cache; the table initiator writes 0x140, which
   * misses its empty table, goes through the memory and fires the snoop, so
   * the snooper's flag drops; the snooper then asks again and its refreshed
   * cache holds the written word.
   */
  method WriteInvalidatesThenRefresh(contents1: seq<int>, contents2: seq<int>) returns (invalidated: bool, refreshed: bool)
    requires |contents1| == SIZE && |contents2| == SIZE
    ensures invalidated && refreshed
  {
    var top := new Top(contents1, contents2, false);
    var fatal := top.SnooperRequest();
    assert top.initiator.dmiTable == [];
    ghost var s2 := top.memory2.State();
    assert s2.writeSnoop && s2.snoopStart == 0 && s2.snoopEnd == 0x7F;

    assert DecodeAddress(0x140) == Decoded(1, 0x40);
    ghost var req := RegularRequest(WriteCommand, 0x40, 0x140);
    TransportSucceeds(s2, req, top.initiator.localTime);
    assert SnoopHit(s2, 0x40, 4);
    TransportSnoop(s2, req, top.initiator.localTime);
    RegionIsSecondMemory();
    BroadcastToBoth(1, Range(0, 0x7F));
    DeliverBoth(true, [], Range(START, END), false);
    var viaDmi, error := top.InitiatorAccess(0x140, WriteCommand);
    assert !viaDmi;
    assert top.memory2.mem[16] == 0x140;
    invalidated := !top.snooper.dmiValid;

    fatal := top.SnooperRequest();
    assert top.snooper.cache[16] == top.snooper.cache[..REGION_WORDS][16];
    refreshed := top.snooper.dmiValid && top.snooper.cache[16] == 0x140;
  }

  /**
   * The consequence of the skipped entry.  The table initiator reads 0x104
   * (a read-only grant of [0x100, 0x1FF] is appended) and writes it (the
   * read-only entry does not serve a write, so a read-write grant of the same
   * window is appended after it).  The snooper's setup invalidates
   * [0x100, 0x17F]: the handler erases the read-only entry and steps over the
   * read-write one.  A write to 0x140 then goes straight into the memory
   * through that stale entry, no snoop fires, and the snooper keeps running
   * from a cache that no longer matches the memory.
   */
  method SkippedEntryLeavesStaleCache(contents1: seq<int>, contents2: seq<int>) returns (stale: bool)
    requires |contents1| == SIZE && |contents2| == SIZE && contents2[16] != 0x140
    ensures stale
  {
    var top := new Top(contents1, contents2, false);
    var ro, rw := MissThenWrite(top);
    assert top.initiator.dmiTable == [ro, rw];
    assert top.memory2.mem[16] == contents2[16];

    var fatal := top.SnooperRequest();
    PruneAsWrittenSkipsSuccessor(ro, rw, [], START, END);
    assert [ro, rw] + [] == [ro, rw];
    assert top.initiator.dmiTable == [rw];
    assert top.snooper.cache[16] == top.snooper.cache[..REGION_WORDS][16];
    assert top.snooper.cache[16] == contents2[16];

    assert Matches(rw, 0x140, WriteCommand);
    var viaDmi, error := top.InitiatorAccess(0x140, WriteCommand);
    assert viaDmi;
    assert WordIndex(rw, 0x140) == 16;
    assert top.memory2.mem[16] == 0x140;
    stale := top.snooper.dmiValid && top.snooper.cache[16] != top.memory2.mem[16];
  }

  /** The same run with the corrected handler: both entries go, the write misses, and the snoop fires. */
  method CorrectedHandlerKeepsCacheCoherent(contents1: seq<int>, contents2: seq<int>) returns (invalidated: bool)
    requires |contents1| == SIZE && |contents2| == SIZE
    ensures invalidated
  {
    var top := new Top(contents1, contents2, true);
    var ro, rw := MissThenWrite(top);
    assert top.initiator.dmiTable == [ro, rw];

    var fatal := top.SnooperRequest();
    PruneIsComplete([ro, rw], START, END);
    assert top.initiator.dmiTable == [] by {
      assert Hit(ro, START, END) && Hit(rw, START, END);
      assert [ro, rw][1..] == [rw];
    }
    ghost var s2 := top.memory2.State();
    assert s2.writeSnoop && s2.snoopStart == 0 && s2.snoopEnd == 0x7F;

    assert DecodeAddress(0x140) == Decoded(1, 0x40);
    ghost var req := RegularRequest(WriteCommand, 0x40, 0x140);
    TransportSucceeds(s2, req, top.initiator.localTime);
    assert SnoopHit(s2, 0x40, 4);
    TransportSnoop(s2, req, top.initiator.localTime);
    RegionIsSecondMemory();
    BroadcastToBoth(1, Range(0, 0x7F));
    DeliverBoth(true, [], Range(START, END), true);
    var viaDmi, error := top.InitiatorAccess(0x140, WriteCommand);
    assert !viaDmi;
    invalidated := !top.snooper.dmiValid;
  }

  /**
   * The table initiator's first two accesses in both runs above: a read and
   * then a write of 0x104, each a miss, leaving a read-only and then a
   * read-write grant of [0x100, 0x1FF] in the table.
   */
  method MissThenWrite(top: Top) returns (ro: Dmi, rw: Dmi)
    requires top.Valid() && top.initiator.dmiTable == [] && !top.memory2.writeSnoop
    modifies top.initiator, top.snooper, top.memory1, top.memory2, top.memory1.mem, top.memory2.mem
    ensures top.Valid()
    ensures ro == Dmi(WordPtr(top.memory2.mem, 0), 0x100, 0x1FF, ReadAccess, LATENCY, LATENCY)
    ensures rw == Dmi(WordPtr(top.memory2.mem, 0), 0x100, 0x1FF, ReadWriteAccess, LATENCY, LATENCY)
    ensures Hit(ro, START, END) && Hit(rw, START, END)
    ensures top.initiator.dmiTable == [ro, rw]
    ensures top.memory2.State() == old(top.memory2.State()).(words := old(top.memory2.mem[..])[1 := 0x104])
    ensures top.snooper.dmiValid == old(top.snooper.dmiValid)
  {
    ro := ReadMiss(top);
    rw := WriteMissAfterRead(top, ro);
    assert top.initiator.dmiTable == [ro] + [rw];
  }

  /** A read of 0x104 with an empty table: a miss that appends a read-only grant of the second memory. */
  method ReadMiss(top: Top) returns (ro: Dmi)
    requires top.Valid() && top.initiator.dmiTable == [] && !top.memory2.writeSnoop
    modifies top.initiator, top.snooper, top.memory1, top.memory2, top.memory1.mem, top.memory2.mem
    ensures top.Valid()
    ensures ro == Dmi(WordPtr(top.memory2.mem, 0), 0x100, 0x1FF, ReadAccess, LATENCY, LATENCY)
    ensures top.initiator.dmiTable == [ro]
    ensures top.memory2.State() == old(top.memory2.State())
    ensures top.snooper.dmiValid == old(top.snooper.dmiValid)
  {
    assert DecodeAddress(0x104) == Decoded(1, 4);
    ghost var s2 := top.memory2.State();
    MissIsServed(s2, top.memory2.mem, 0x104, ReadCommand, top.initiator.data, top.initiator.localTime);
    TransportSnoop(s2, RegularRequest(ReadCommand, 4, top.initiator.data), top.initiator.localTime);
    var viaDmi, error := top.InitiatorAccess(0x104, ReadCommand);
    ro := Dmi(WordPtr(top.memory2.mem, 0), 0x100, 0x1FF, ReadAccess, LATENCY, LATENCY);
  }

  /** A write of 0x104 that the read-only entry does not serve: a miss that appends a read-write grant. */
  method WriteMissAfterRead(top: Top, ro: Dmi) returns (rw: Dmi)
    requires top.Valid() && !top.memory2.writeSnoop
    requires ro == Dmi(WordPtr(top.memory2.mem, 0), 0x100, 0x1FF, ReadAccess, LATENCY, LATENCY)
    requires top.initiator.dmiTable == [ro]
    modifies top.initiator, top.snooper, top.memory1, top.memory2, top.memory1.mem, top.memory2.mem
    ensures top.Valid()
    ensures rw == Dmi(WordPtr(top.memory2.mem, 0), 0x100, 0x1FF, ReadWriteAccess, LATENCY, LATENCY)
    ensures top.initiator.dmiTable == [ro, rw]
    ensures top.memory2.State() == old(top.memory2.State()).(words := old(top.memory2.mem[..])[1 := 0x104])
    ensures top.snooper.dmiValid == old(top.snooper.dmiValid)
  {
    assert DecodeAddress(0x104) == Decoded(1, 4);
    ghost var s2 := top.memory2.State();
    assert !Matches(ro, 0x104, WriteCommand);
    MissIsServed(s2, top.memory2.mem, 0x104, WriteCommand, 0x104, top.initiator.localTime);
    TransportSnoop(s2, RegularRequest(WriteCommand, 4, 0x104), top.initiator.localTime);
    TransportSucceeds(s2, RegularRequest(WriteCommand, 4, 0x104), top.initiator.localTime);
    var viaDmi, error := top.InitiatorAccess(0x104, WriteCommand);
    rw := Dmi(WordPtr(top.memory2.mem, 0), 0x100, 0x1FF, ReadWriteAccess, LATENCY, LATENCY);
    assert top.initiator.dmiTable == [ro] + [rw];
  }
}
