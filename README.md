# DMI bus snooping over a two-target interconnect, in Dafny

This project models the core of a SystemC/TLM-2.0 example platform for bus snooping:

- **Memory**: a 64-word memory target with three interfaces:
  - a blocking transport;
  - direct-memory-interface (DMI) grants, which can carry a standing write snoop;
  - a debug transport.
- **Interconnect**: routes by address bit 8 to exactly two memories and broadcasts every DMI invalidation to all initiators.
- **Table initiator**: keeps a table of the DMI grants it received, serves accesses from that table, and prunes it on invalidation.
- **Snooping initiator**: caches the region [0x100, 0x17F] under a write snoop and drops its cache as soon as an invalidation meets that region.
- **Pipelined target** of a separate non-blocking example:
  - queues the object carried by each forward call before it checks the payload;
  - drops the oldest queued object on every tenth clock edge.

Each component is a class whose methods update their fields in place:

| class | fields it updates |
|---|---|
| `MemoryTarget.Memory` | the word array, the snoop flag and the snoop range |
| `TableClient.Initiator` | the DMI table, the data word and the local time |
| `CachingClient.SnoopingInitiator` | the valid flag and the cache array |
| `Routing.Interconnect` | the id map |
| `PipelinedTarget.Target` | the counter and the queue |

Every such method is tied by its postcondition to a pure function of the old state:

| function | what it models |
|---|---|
| `Transport` | the blocking transport |
| `Grant` | a DMI request |
| `Debug` | the debug transport |
| `FirstMatch` | the table lookup |
| `PruneAsWritten` / `Prune` | the invalidation handler, as written and as intended |
| `Tick` | one clock edge |
| `Respond` | the forward-call checks |
| `SnooperAfter` / `TableAfter` | a sequence of delivered invalidations |

Separate lemmas prove the properties. These are:

- the interconnect's address map round trip;
- the snoop protocol over several calls: the snoop fires once, and nothing is locked out for good;
- the error order of every check;
- first match, in insertion order;
- the clamped debug copy;
- pruning that keeps exactly the disjoint entries, in their original order;
- first-in-first-out draining of the target's queue.

`Platform.Top` wires the five objects exactly as the source's `Top` binds them:

- snooping initiator on target socket 0;
- table initiator on target socket 1;
- first memory for [0x000, 0x0FF];
- second memory for [0x100, 0x1FF].

`Scenarios` runs whole-platform sequences on a fresh `Top`. Each is proved from the method contracts alone.

Files:
- `tlm.dfy`: payload, snoop extension, DMI descriptor.
- `memory.dfy`: the memory target.
- `interconnect.dfy`: the interconnect.
- `initiator.dfy`: the table initiator.
- `snooping_initiator.dfy`: the snooping initiator.
- `target.dfy`: the pipelined target.
- `platform.dfy`: the wiring.
- `scenarios.dfy`: the whole-platform runs.

Notes on the code's behaviour:

- **Snoop setup order** (snooping.cpp:557-569). The watched range is overwritten first. Then comes the alignment check. Only after it is the snoop armed and the invalidation sent. See Findings.
- **Address decoding** (snooping.cpp:459). `decode_address` keeps only the low eight bits, so the address bits above bit 8 do not pass through.
- **Backward routing with no recorded origin** (snooping.cpp:441). `std::map::operator[]` enters index 0 for the payload and routes it to socket 0.
- **Snoop ranges that span both targets** (snooping.cpp:414-415). These are not rejected: the end address is masked and its target bit ignored.

## Model

| member | source | states |
|---|---|---|
| MemoryTarget.Transport | locking_and_snooping/snooping_sticky/snooping.cpp:498-544 | Model of `b_transport` on a state value. The checks come in source order: address, byte enable, length/width. Then a read or write of one word, the snoop test on a write, LATENCY added and DMI allowed. |
| MemoryTarget.TransportErrors | locking_and_snooping/snooping_sticky/snooping.cpp:507-518 | The address check comes first, then the byte-enable check, then the length/width check, each as an if-and-only-if. On any error only the response status changes: no state, no delay, no invalidation. |
| MemoryTarget.TransportSucceeds | locking_and_snooping/snooping_sticky/snooping.cpp:520-543 | A valid access adds LATENCY, sets DMI-allowed and OK, and changes nothing else in the payload. A write replaces exactly the addressed word; a read returns it in the buffer and leaves the store unchanged. |
| MemoryTarget.TransportSnoop | locking_and_snooping/snooping_sticky/snooping.cpp:529-537 | At most one invalidation. There is one exactly when a successful write hits the armed range, and it is the whole watched range. The snoop is cleared then and kept otherwise. Reads and ignores change nothing. |
| MemoryTarget.SnoopHit | locking_and_snooping/snooping_sticky/snooping.cpp:531-532 | The write-snoop test: a snoop is armed and the written bytes [address, address + length) meet [start, end]. |
| MemoryTarget.SnoopHitIsOverlap | locking_and_snooping/snooping_sticky/snooping.cpp:531-532 | The memory's write-snoop test is the interval-overlap test applied to the four written bytes. |
| MemoryTarget.Grant | locking_and_snooping/snooping_sticky/snooping.cpp:547-599 | Model of `get_direct_mem_ptr`. A valid snoop extension on a read overwrites the range, then checks alignment, then arms the snoop and invalidates it; with any other command it is a protocol error. A regular request gives the whole store, refused for a write under a snoop. |
| MemoryTarget.SnoopSetupAligned | locking_and_snooping/snooping_sticky/snooping.cpp:553-576 | An aligned snoop read yields a granted, read-only descriptor over exactly [address, end]. The snoop is armed over that range, and that range is invalidated once. |
| MemoryTarget.SnoopSetupMisaligned | locking_and_snooping/snooping_sticky/snooping.cpp:556-569 | A misaligned snoop setup is refused with no invalidation and the armed flag unchanged. The watched range has nevertheless been overwritten. |
| MemoryTarget.SnoopSetupNeedsRead | locking_and_snooping/snooping_sticky/snooping.cpp:553-579 | A snoop request is a protocol error exactly when its command is not a read, and such an error changes nothing. |
| MemoryTarget.RegularGrant | locking_and_snooping/snooping_sticky/snooping.cpp:580-598 | A regular grant is the whole store [0, 255] at LATENCY. It is refused exactly for a write while a snoop is armed; a granted write is read-write and any other command is read-only. State never changes. |
| MemoryTarget.SnoopFiresOnce | locking_and_snooping/snooping_sticky/snooping.cpp:529-576 | After an aligned setup over [lo, hi], the first write into it invalidates exactly [lo, hi], and a second write invalidates nothing. |
| MemoryTarget.NoPermanentLockout | locking_and_snooping/snooping_sticky/snooping.cpp:529-596 | Once a write has fired the snoop, a regular write grant is again granted read-write over the whole store. |
| MemoryTarget.MisalignedSetupRetargetsSnoop | locking_and_snooping/snooping_sticky/snooping.cpp:556-569 | Counterexample: a refused setup at 0x41 moves an armed snoop from [0x00, 0x7F] to [0x41, 0x60]. A later write to word 0, which the armed snoop as set up covers, then invalidates nothing. |
| MemoryTarget.GrantChecked | locking_and_snooping/snooping_sticky/snooping.cpp:553-576 | Corrected grant: a misaligned snoop setup is refused before any state is touched; everything else is as in Grant. |
| MemoryTarget.CheckedSetupKeepsSnoop | locking_and_snooping/snooping_sticky/snooping.cpp:553-576 | With the alignment check first (GrantChecked), a refused setup leaves the memory unchanged. Every later write's invalidations are as before, and every other request is served exactly as by Grant. |
| MemoryTarget.DebugLength | locking_and_snooping/snooping_sticky/snooping.cpp:609-616 | The debug transfer length: 0 when misaligned or out of range, cut at the end of the store otherwise. |
| MemoryTarget.Debug | locking_and_snooping/snooping_sticky/snooping.cpp:602-627 | Model of `transport_dbg`: alignment and bounds give 0; otherwise the length is clamped and the words are copied without any snoop effect. |
| MemoryTarget.DebugIsClampedCopy | locking_and_snooping/snooping_sticky/snooping.cpp:602-627 | A misaligned or out-of-range debug request transfers 0. Otherwise the length is clamped to the end of the store. Only the transferred words change on a write, only the transferred buffer words on a read, and the snoop is never touched. |
| MemoryTarget.Memory.constructor | locking_and_snooping/snooping_sticky/snooping.cpp:483-495 | 64 words holding the given contents, with no snoop armed. |
| MemoryTarget.Memory.BTransport | locking_and_snooping/snooping_sticky/snooping.cpp:498-544 | The new state, the payload, the delay and the invalidations are exactly those of Transport on the old state. |
| MemoryTarget.Memory.GetDirectMemPtr | locking_and_snooping/snooping_sticky/snooping.cpp:547-599 | The new state, the reply and the invalidations are exactly those of Grant on the old state. The words are unchanged. |
| MemoryTarget.Memory.TransportDbg | locking_and_snooping/snooping_sticky/snooping.cpp:602-627 | The new state, the payload and the count are exactly those of Debug; the write path is a word loop. |
| Routing.DecodeAddress | locking_and_snooping/snooping_sticky/snooping.cpp:456-461 | The masked address is below 0x100. Masked address plus 0x100 times the target gives back the address modulo 0x200, and the address itself when it is below 0x200. |
| Routing.ReconstructAddress | locking_and_snooping/snooping_sticky/snooping.cpp:463-466 | The low eight bits and the bits above bit 8 are kept. Bit 8 is set for target 1 and kept for target 0, as `address \| (target << 8)`. |
| Routing.DecodeThenReconstruct | locking_and_snooping/snooping_sticky/snooping.cpp:456-466 | Decoding and then reconstructing returns every address of the 512-byte map. |
| Routing.DecodeThenReconstructHigh | locking_and_snooping/snooping_sticky/snooping.cpp:456-466 | For any address, decoding and then reconstructing returns the address modulo 0x200: the high bits are lost. |
| Routing.ReconstructThenDecode | locking_and_snooping/snooping_sticky/snooping.cpp:456-466 | Every pair of a local address below 0x100 and a target is the decoding of exactly one address of the map. |
| Routing.ForwardDmiRequest | locking_and_snooping/snooping_sticky/snooping.cpp:406-416 | The request as the memory sees it: the address masked and, for a valid snoop extension, the end address masked. |
| Routing.BackwardDmiReply | locking_and_snooping/snooping_sticky/snooping.cpp:420-423 | The reply as the initiator sees it: start and end are rebuilt with the target, whether granted or not. |
| Routing.ForwardDmiRequestMasks | locking_and_snooping/snooping_sticky/snooping.cpp:406-416 | A forwarded DMI request carries the masked address. Only a valid snoop extension has its end address masked, and nothing else changes. |
| Routing.RegularGrantCoversAddress | locking_and_snooping/snooping_sticky/snooping.cpp:403-424 | A routed regular grant comes back as the selected target's whole 256-byte window, which contains the requested address. It is refused only for a write under an armed snoop. |
| Routing.SnoopGrantRoundTrip | locking_and_snooping/snooping_sticky/snooping.cpp:403-424 | A snoop request within one target arms that memory over the local range. It comes back granted and read-only over the original global range, and its one invalidation rebuilds to that same global range. |
| Routing.Interconnect.constructor | locking_and_snooping/snooping_sticky/snooping.cpp:361-371 | The bound targets and initiator count, with an empty id map. |
| Routing.Interconnect.EndOfElaboration | locking_and_snooping/snooping_sticky/snooping.cpp:373-377 | Elaboration succeeds exactly when two targets are bound. |
| Routing.Broadcast | locking_and_snooping/snooping_sticky/snooping.cpp:448-453 | One invalidation from target id: one delivery per initiator socket in index order, with the rebuilt range. |
| Routing.Interconnect.InvalidateDirectMemPtr | locking_and_snooping/snooping_sticky/snooping.cpp:444-454 | One delivery per initiator socket, in index order, each carrying the reconstructed global range. |
| Routing.Broadcasts | locking_and_snooping/snooping_sticky/snooping.cpp:444-454 | All broadcasts for the invalidations one call issued, concatenated in order. |
| Routing.Interconnect.InvalidateAll | locking_and_snooping/snooping_sticky/snooping.cpp:444-454 | The broadcasts of all ranges a call produced, concatenated in order. |
| Routing.Interconnect.BTransport | locking_and_snooping/snooping_sticky/snooping.cpp:381-388 | The selected memory performs Transport on the masked address, the other memory is unchanged, and its invalidations are broadcast. |
| Routing.Interconnect.GetDirectMemPtr | locking_and_snooping/snooping_sticky/snooping.cpp:403-424 | The selected memory performs Grant on the forwarded request, and the reply is rebuilt with that target. The other memory is unchanged, and the invalidations are broadcast. |
| Routing.Interconnect.TransportDbg | locking_and_snooping/snooping_sticky/snooping.cpp:426-433 | The selected memory performs Debug on the masked address; the other memory is unchanged. |
| Routing.Interconnect.NbTransportFw | locking_and_snooping/snooping_sticky/snooping.cpp:391-401 | The payload's origin socket is recorded in the id map, and the payload goes to the decoded target with the masked address. |
| Routing.Interconnect.ForwardThenBackward | locking_and_snooping/snooping_sticky/snooping.cpp:394-441 | A response to a forwarded payload is routed back on the socket that payload arrived on. |
| Routing.Interconnect.NbTransportBw | locking_and_snooping/snooping_sticky/snooping.cpp:438-442 | A recorded payload returns on its origin socket. An unrecorded one is entered with 0 and returns on socket 0. |
| TableClient.Matches | locking_and_snooping/snooping_sticky/snooping.cpp:262-274 | The lookup test: the entry's range contains the address and it allows the command, write for a write and read for a read. |
| TableClient.FirstMatch | locking_and_snooping/snooping_sticky/snooping.cpp:257-275 | The result is the least index whose entry contains the address and allows the command. It is None exactly when no entry matches. |
| TableClient.WordIndexInBounds | locking_and_snooping/snooping_sticky/snooping.cpp:277-282 | In a usable grant, every address of the range falls on a word inside the granted array. |
| TableClient.Hit | locking_and_snooping/snooping_sticky/snooping.cpp:342 | The handler's relevance test: the entry's range meets [startRange, endRange]. |
| TableClient.PruneAsWritten | locking_and_snooping/snooping_sticky/snooping.cpp:338-345 | Model of the erase loop as written: an overlapping entry is erased and the entry that slides into its place is passed over. |
| TableClient.Prune | locking_and_snooping/snooping_sticky/snooping.cpp:338-345 | The intended handler: every overlapping entry is removed and the rest are kept in order. |
| TableClient.PruneKeepsOrder | locking_and_snooping/snooping_sticky/snooping.cpp:338-345 | The intended prune's result is a subsequence of the table: the surviving entries keep their relative order. |
| TableClient.PruneCounts | locking_and_snooping/snooping_sticky/snooping.cpp:338-345 | The intended prune keeps every copy of a non-overlapping entry and no copy of an overlapping one. |
| TableClient.PruneKeepsOnlyDisjoint | locking_and_snooping/snooping_sticky/snooping.cpp:338-345 | Everything the intended prune keeps comes from the table and does not overlap the invalidated range. |
| TableClient.PruneKeepsAllDisjoint | locking_and_snooping/snooping_sticky/snooping.cpp:338-345 | Every entry that does not overlap survives the intended prune. |
| TableClient.PruneShrinks | locking_and_snooping/snooping_sticky/snooping.cpp:338-345 | The intended prune's result is a sub-multiset of the table. |
| TableClient.PruneIsComplete | locking_and_snooping/snooping_sticky/snooping.cpp:338-345 | After the intended prune no entry overlaps the range, and a table with no overlapping entry is unchanged. |
| TableClient.PruneAsWrittenShrinks | locking_and_snooping/snooping_sticky/snooping.cpp:338-345 | The source's loop yields a sub-multiset of the table: it invents and duplicates nothing. |
| TableClient.PruneAsWrittenKeepsDisjoint | locking_and_snooping/snooping_sticky/snooping.cpp:338-345 | Filtering the source loop's result once more gives exactly the intended prune: it differs only by overlapping entries. |
| TableClient.PruneAsWrittenRemovesOnlyOverlapping | locking_and_snooping/snooping_sticky/snooping.cpp:338-345 | Every non-overlapping entry keeps its multiplicity under the source's loop. |
| TableClient.PruneAsWrittenKeepsOrder | locking_and_snooping/snooping_sticky/snooping.cpp:338-345 | The source loop's result is a subsequence of the table: the surviving entries keep their relative order. |
| TableClient.PruneAsWrittenSkipsSuccessor | locking_and_snooping/snooping_sticky/snooping.cpp:338-345 | Counterexample: with two overlapping entries in a row, the second survives at the head of the result while still overlapping. |
| TableClient.PruneAsWrittenCorrectWithoutRuns | locking_and_snooping/snooping_sticky/snooping.cpp:338-345 | When no overlapping entry follows another, the source's loop equals the intended prune. |
| TableClient.Initiator.constructor | locking_and_snooping/snooping_sticky/snooping.cpp:225-235 | An empty DMI table and a local time of zero. |
| TableClient.Initiator.Lookup | locking_and_snooping/snooping_sticky/snooping.cpp:257-275 | The scan loop returns a hit at the first matching index, and no hit when nothing matches. This agrees with FirstMatch. |
| TableClient.Initiator.DirectAccess | locking_and_snooping/snooping_sticky/snooping.cpp:277-284 | A hit writes `data` into the word at offset addr minus start, or reads that word into `data`. Nothing else in the array changes, and the local time advances by the latency for that direction. |
| TableClient.Initiator.RecordGrant | locking_and_snooping/snooping_sticky/snooping.cpp:319-326 | A granted descriptor is appended without deduplication; a refusal leaves the table unchanged. |
| TableClient.Initiator.InvalidateDirectMemPtr | locking_and_snooping/snooping_sticky/snooping.cpp:335-346 | The erase loop that always advances its index leaves exactly PruneAsWritten of the old table. |
| TableClient.Initiator.InvalidateDirectMemPtrCorrected | locking_and_snooping/snooping_sticky/snooping.cpp:335-346 | The loop that advances only past kept entries leaves exactly Prune of the old table. |
| CachingClient.Stale | locking_and_snooping/snooping_sticky/snooping.cpp:188 | The snooper's invalidation test: the range meets [0x100, 0x17F]. |
| CachingClient.StaleMeansSharedAddress | locking_and_snooping/snooping_sticky/snooping.cpp:185-193 | The invalidation test holds exactly when some address lies both in the invalidated range and in [0x100, 0x17F]. |
| CachingClient.SnoopRequest | locking_and_snooping/snooping_sticky/snooping.cpp:138-151 | The request is a read of 0x100 with a valid snoop extension ending at 0x17F. Every other field of the pooled payload is kept as it was. |
| CachingClient.ReleaseSnoop | locking_and_snooping/snooping_sticky/snooping.cpp:164 | The sticky extension stays attached but is disarmed. |
| CachingClient.ReleasedRequestIsPlain | locking_and_snooping/snooping_sticky/snooping.cpp:141-164 | A payload whose sticky extension was disarmed is no snoop request, whatever it is reused for. |
| CachingClient.SnoopingInitiator.constructor | locking_and_snooping/snooping_sticky/snooping.cpp:111-126 | The flag starts cleared, with a fresh 256-byte (64-word) cache. |
| CachingClient.SnoopingInitiator.InvalidateDirectMemPtr | locking_and_snooping/snooping_sticky/snooping.cpp:185-193 | The flag is cleared exactly when the range meets [0x100, 0x17F], and kept otherwise. |
| CachingClient.SnoopingInitiator.FillCache | locking_and_snooping/snooping_sticky/snooping.cpp:156-162 | The flag takes the grant's outcome, and a refusal is fatal. A grant copies the 32 region words into the front of the cache and leaves the rest of it unchanged. |
| PipelinedTarget.Respond | My-TLM-SP/target.h:56-65 | The attribute checks of `nb_transport_fw`: byte enables first, then bursts, otherwise accepted. |
| PipelinedTarget.RespondCases | My-TLM-SP/target.h:56-65 | The call is accepted with the payload unchanged exactly when it has no byte enables, length at most 4 and width at least length. Otherwise it completes with the status of the first failing check. |
| PipelinedTarget.Tick | My-TLM-SP/target.h:68-77 | One `main_run` on a state value: increment, and on a multiple of 10 pop the front of a non-empty queue. |
| PipelinedTarget.OneEdge | My-TLM-SP/target.h:68-77 | A single edge pops exactly when the new count is a multiple of 10. |
| PipelinedTarget.RunDropsOldest | My-TLM-SP/target.h:68-79 | After n edges the counter has advanced by n. The queue has lost the oldest min(number of popping edges, length) entries, in arrival order. |
| PipelinedTarget.TenEdgesPopOne | My-TLM-SP/target.h:68-79 | Ten edges remove exactly the front of a non-empty queue. |
| PipelinedTarget.Target.constructor | My-TLM-SP/target.h:22-24 | The count is zero and the queue is empty. |
| PipelinedTarget.Target.NbTransportFw | My-TLM-SP/target.h:37-66 | The carried object is appended to the queue whatever the checks decide, and the answer is Respond of the payload. |
| PipelinedTarget.Target.MainRun | My-TLM-SP/target.h:68-79 | The new state is one Tick of the old: increment, and on a multiple of 10 pop the front of a non-empty queue. |
| Platform.SnooperAfter | locking_and_snooping/snooping_sticky/snooping.cpp:185-193 | The snooper's flag after its handler has seen, in order, the deliveries addressed to socket 0. |
| Platform.TableAfter | locking_and_snooping/snooping_sticky/snooping.cpp:335-346 | The table after its handler has seen, in order, the deliveries addressed to socket 1. |
| Platform.SnooperAfterClearsOnStale | locking_and_snooping/snooping_sticky/snooping.cpp:185-193 | After a sequence of deliveries the snooper's flag is set exactly when it was set and no delivery to its socket met the region. |
| Platform.Pruned | locking_and_snooping/snooping_sticky/snooping.cpp:335-346 | Either handler leaves a sub-multiset of the table. |
| Platform.TableAfterShrinks | locking_and_snooping/snooping_sticky/snooping.cpp:444-454 | Any sequence of deliveries leaves a sub-multiset of the table. |
| Platform.TableAfterCorrectedIsClean | locking_and_snooping/snooping_sticky/snooping.cpp:335-346 | With the corrected handler, no entry left in the table overlaps any range delivered to the table initiator. |
| Platform.PrunedAsWrittenMissesRun | locking_and_snooping/snooping_sticky/snooping.cpp:338-345 | With the source's handler, the second of two overlapping entries survives one delivery. |
| Platform.BroadcastToBoth | locking_and_snooping/snooping_sticky/snooping.cpp:451-453 | One target invalidation reaches socket 0 and then socket 1, with the same global range. |
| Platform.DeliverBoth | locking_and_snooping/snooping_sticky/snooping.cpp:444-454 | Delivered to both initiators, an invalidation clears the snooper's flag exactly when it is stale, and prunes the table once. |
| Platform.RegularRequest | locking_and_snooping/snooping_sticky/snooping.cpp:294-304 | A miss sends the given command, address and data word: length and width 4, no byte enable, DMI not allowed, an incomplete response and no snoop. |
| Platform.Miss | locking_and_snooping/snooping_sticky/snooping.cpp:294-326 | A miss at the memory it reaches: the transport, the DMI request with the returned payload and the original address, and the broadcast of the transport's invalidations. |
| Platform.MissIsServed | locking_and_snooping/snooping_sticky/snooping.cpp:294-326 | For every aligned address of the map, the regular transport succeeds with DMI allowed. The grant is the target's whole window, refused only for a write under a snoop. A grant is usable and matches the access. |
| Platform.Top.constructor | locking_and_snooping/snooping_sticky/snooping.cpp:643-660 | The five objects in binding order: memories with the given contents, an empty table, a cleared snooper flag. |
| Platform.Top.Deliver | locking_and_snooping/snooping_sticky/snooping.cpp:444-454 | Each delivery goes to the handler of its socket: the snooper's flag becomes SnooperAfter and the table TableAfter. |
| Platform.Top.SnooperRequest | locking_and_snooping/snooping_sticky/snooping.cpp:134-165 | The snoop setup arms the second memory over local [0, 0x7F] and prunes the table by [0x100, 0x17F]. The flag is set, and the cache holds the second memory's first 32 words. |
| Platform.Top.TableHit | locking_and_snooping/snooping_sticky/snooping.cpp:277-284 | A table hit writes or reads exactly one word of the memory the entry points into and leaves the other memory untouched. |
| Platform.Top.MissTransport | locking_and_snooping/snooping_sticky/snooping.cpp:294-317 | The routed transport performs Transport on the selected memory; its invalidations reach both handlers, and the data and time are updated. |
| Platform.Top.MissGrant | locking_and_snooping/snooping_sticky/snooping.cpp:319-326 | The follow-up DMI request changes no memory, and appends the rebuilt grant when it is granted. |
| Platform.Top.TableMiss | locking_and_snooping/snooping_sticky/snooping.cpp:290-328 | A miss is exactly the Miss outcome: the transport, its deliveries, then the appended grant, with no error. |
| Platform.Top.InitiatorAccess | locking_and_snooping/snooping_sticky/snooping.cpp:249-328 | One loop body: a write first stores the address in `data`. The access uses DMI exactly when FirstMatch finds an entry, and after a hit only the addressed word changes. Otherwise it is the Miss outcome. |
| Scenarios.RegionIsSecondMemory | locking_and_snooping/snooping_sticky/snooping.cpp:656-659 | The second memory's local range [0, 0x7F] is the global region [0x100, 0x17F]. |
| Scenarios.WriteInvalidatesThenRefresh | locking_and_snooping/snooping_sticky/snooping.cpp:36-46 | A regular write into the snooped region invalidates the snooper's cache, and its next request refreshes the cache with the written word. |
| Scenarios.SkippedEntryLeavesStaleCache | locking_and_snooping/snooping_sticky/snooping.cpp:338-345 | With the source's handler: a read miss, a write miss and a snoop setup leave a read-write entry for the region in the table. A write through it leaves the snooper running on a stale cache. |
| Scenarios.CorrectedHandlerKeepsCacheCoherent | locking_and_snooping/snooping_sticky/snooping.cpp:338-345 | With the corrected handler, the same run misses the table, and the snoop clears the snooper's flag. |
| Scenarios.MissThenWrite | locking_and_snooping/snooping_sticky/snooping.cpp:290-328 | A read and then a write of 0x104 from an empty table leave a read-only and then a read-write grant of [0x100, 0x1FF]. |
| Scenarios.ReadMiss | locking_and_snooping/snooping_sticky/snooping.cpp:290-328 | A read of 0x104 from an empty table appends a read-only grant of the second memory and changes no memory. |
| Scenarios.WriteMissAfterRead | locking_and_snooping/snooping_sticky/snooping.cpp:290-328 | The read-only entry does not serve a write of 0x104. The write sets word 1 of the second memory and appends a read-write grant. |

## Left out

- SystemC plumbing is not modelled: the kernel, sockets, `SC_THREAD`/`SC_METHOD` scheduling and the clock. Calls are made directly, and invalidations are delivered before the call returns.
- The `gp_mm` pool and `acquire`/`release` reference counting are not modelled. A pooled payload appears as a value (`DefaultPayload`, or the payload of the previous call).
- The quantum keeper is reduced to a local-time counter. Sync points and global time are not modelled.
- `rand()` is not modelled: memory contents are constructor parameters, and addresses and commands are method parameters.
- Logging to `snooping.log` and `std::cout` is not modelled.
- The snooping initiator's execute loop, `translate_cache` and the `wait()` after 100 instructions are left out. The model stops after the cache fill, and the flag is what the loop tests.
- The table initiator's 64-iteration thread loop is left out. `Platform.Top.InitiatorAccess` models one iteration; `rand() % 128` and the quantum-keeper sync are left to the caller.
- Platform.Top.InitiatorAccess: requires a word-aligned address below 0x200 and a read or write. Those are the only values `(rand() % 128) << 2` and `rand() % 2` produce.
- `SC_REPORT_ERROR` and `SC_REPORT_FATAL` are modelled as results rather than exceptions:
  - a snoop request by a write gives `ProtocolError`;
  - a response error gives the `error` out-parameter;
  - a refused snoop grant gives `fatal`;
  - a wrong target count gives `EndOfElaboration` returning false.
- Data buffers and the backing store are modelled as words of unbounded `int`, not bytes. No arithmetic is done on the words, so the source's `int` width is not observable. Every regular transfer is one aligned word, and the debug transport moves only whole words. Byte-level `memcpy` into a misaligned or partial word is not modelled.
- `FillCache` copies the 128 bytes of the region as 32 words.
- The simple sockets' conversion between non-blocking and blocking calls is not modelled. `Routing.Interconnect.NbTransportFw` and `Routing.Interconnect.NbTransportBw` cover only the routing and the id map. Payload identity is a `nat` key.
- The unused socket `id` parameter of the interconnect's blocking, DMI and debug calls is left out.
- PipelinedTarget.Target.NbTransportFw: the `reinterpret_cast` of the data pointer, the `delete` of the carrier and the `shared_ptr` reference counts are not modelled. The queued object is a type parameter passed in directly.
- PipelinedTarget.Target.MainRun: requires `count < INT_MAX`. `m_count` is a C++ `int`, so overflow on the next edge is undefined behaviour. Wrap-around is not modelled.
- The snoop range's bounds are not checked by the source, and the model does not check them either. Grants are dereferenced in two places. The table initiator's hits require `Usable` (`TableClient.Initiator.DirectAccess`). The snooping initiator's cache fill requires `CoversRegion` (`CachingClient.SnoopingInitiator.FillCache`).
- Platform.Top.SnooperRequest: always builds its request from `DefaultPayload`, a payload with no extension attached. A reused pooled payload whose extension has been disarmed asks for no snoop either; see `CachingClient.ReleasedRequestIsPlain`.

## Findings

| source | as written | input that shows it | evidently intended | confidence | as-written member | corrected member |
|---|---|---|---|---|---|---|
| locking_and_snooping/snooping_sticky/snooping.cpp:556-569 | `snoop_start_address`/`snoop_end_address` are overwritten before the alignment check; a refused setup still moves an armed snoop | snoop armed over [0x00, 0x7F]; snoop setup read at 0x41 ending 0x60 is refused; a write to 0x00 then invalidates nothing | check alignment before touching any state, so a refused setup leaves the armed snoop as it was | not executed | MemoryTarget.MisalignedSetupRetargetsSnoop | MemoryTarget.CheckedSetupKeepsSnoop |
| locking_and_snooping/snooping_sticky/snooping.cpp:338-345 | after `erase(begin() + i)` the loop still increments `i`, so the entry that slid into position i is never tested | table [read-only 0x100-0x1FF, read-write 0x100-0x1FF], invalidation [0x100, 0x17F]: the read-write entry survives, and a later write through it bypasses the snoop | advance only past an entry that is kept, so every overlapping entry is removed | not executed | TableClient.PruneAsWrittenSkipsSuccessor | TableClient.Initiator.InvalidateDirectMemPtrCorrected |
