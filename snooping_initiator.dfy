/**
 * The `Snooping_initiator`: it asks for read-only DMI access to the fixed
 * region [0x100, 0x17F] with a write snoop attached, copies that region into a
 * local cache, and keeps executing from the cache for as long as `dmiValid`
 * stays set.  Any invalidation that meets the region clears the flag.
 */
module CachingClient {
  import opened Tlm

  /** The cached region. */
  const START: u64 := 0x100
  const END: u64 := 0x17F

  /** The region's length in words: 128 bytes. */
  const REGION_WORDS: nat := 32

  /** `m_cache` holds 256 bytes, as 64 words. */
  const CACHE_WORDS: nat := 64

  /** Whether an invalidation of [startRange, endRange] makes the cached copy stale. */
  predicate Stale(startRange: u64, endRange: u64)
  {
    Overlaps(startRange, endRange, START, END)
  }

  predicate Within(a: u64, lo: u64, hi: u64)
  {
    lo <= a <= hi
  }

  /** The stale test in plain interval terms: some address lies both in the invalidated range and in the region. */
  lemma StaleMeansSharedAddress(startRange: u64, endRange: u64)
    requires startRange <= endRange
    ensures Stale(startRange, endRange) <==>
            exists a: u64 :: Within(a, startRange, endRange) && Within(a, START, END)
  {
    if Stale(startRange, endRange) {
      var a: u64 := if startRange <= START then START else startRange;
      assert Within(a, startRange, endRange) && Within(a, START, END);
    }
  }

  /**
   * The request the thread builds: a read of the region's first address whose
   * sticky snoop extension (attached the first time, reused afterwards) is set
   * valid with the region's last address.
   */
  function SnoopRequest(trans: Payload): (r: Payload)
    ensures r.command == ReadCommand && r.address == START
    ensures SnoopRequested(r) && r.snoop.value.endAddress == END
    ensures r.(command := trans.command, address := trans.address, snoop := trans.snoop) == trans
  {
    trans.(command := ReadCommand, address := START, snoop := Some(SnoopExtension(END, true)))
  }

  /**
   * After the request the extension stays attached to the pooled payload but
   * is disarmed, so a later user of the payload does not ask for a snoop.
   */
  function ReleaseSnoop(trans: Payload): (r: Payload)
    requires trans.snoop.Some?
    ensures r.snoop.Some? && !SnoopRequested(r)
    ensures r.snoop.value.endAddress == trans.snoop.value.endAddress
  {
    trans.(snoop := Some(trans.snoop.value.(valid := false)))
  }

  /** A request carrying a disarmed extension asks for no snoop, just as one with no extension. */
  lemma ReleasedRequestIsPlain(trans: Payload, cmd: Command, addr: u64)
    requires trans.snoop.Some?
    ensures !SnoopRequested(ReleaseSnoop(SnoopRequest(trans)).(command := cmd, address := addr))
  {
  }

  /** A grant the cache fill can copy the whole region from. */
  predicate CoversRegion(dmi: Dmi)
  {
    dmi.ptr.WordPtr? && dmi.ptr.word + REGION_WORDS <= dmi.ptr.block.Length
  }

  class SnoopingInitiator {
    /** Whether the cached copy may still be executed from. */
    var dmiValid: bool
    /** `m_cache`. */
    const cache: array<int>

    constructor ()
      ensures !dmiValid && fresh(cache) && cache.Length == CACHE_WORDS
    {
      dmiValid := false;
      cache := new int[CACHE_WORDS];
    }

    /** The backward invalidation handler: a call that meets the region clears the flag, any other leaves it. */
    method InvalidateDirectMemPtr(startRange: u64, endRange: u64)
      modifies this
      ensures dmiValid == (old(dmiValid) && !Stale(startRange, endRange))
    {
      if startRange <= END && endRange >= START {
        dmiValid := false;
      }
    }

    /**
     * The step after the grant returns: the flag takes the grant's outcome;
     * a refusal is fatal; otherwise the region's 32 words are copied from the
     * granted pointer into the front of the cache.
     */
    method FillCache(granted: bool, dmi: Dmi) returns (fatal: bool)
      requires cache.Length == CACHE_WORDS
      requires granted ==> CoversRegion(dmi) && dmi.ptr.block != cache
      modifies this, cache
      ensures dmiValid == granted && fatal == !granted
      ensures granted ==>
        && cache[..REGION_WORDS] == dmi.ptr.block[dmi.ptr.word .. dmi.ptr.word + REGION_WORDS]
        && cache[REGION_WORDS..] == old(cache[REGION_WORDS..])
      ensures !granted ==> cache[..] == old(cache[..])
    {
      dmiValid := granted;
      if !granted {
        return true;
      }
      var src := dmi.ptr.block;
      var base := dmi.ptr.word;
      var i := 0;
      while i < REGION_WORDS
        invariant 0 <= i <= REGION_WORDS
        invariant forall k :: 0 <= k < i ==> cache[k] == src[base + k]
        invariant forall k :: REGION_WORDS <= k < CACHE_WORDS ==> cache[k] == old(cache[k])
        invariant dmiValid == granted
      {
        cache[i] := src[base + i];
        i := i + 1;
      }
      fatal := false;
    }
  }
}
