/**
 * The TLM-2.0 vocabulary the snooping example is written against: the generic
 * payload, the snoop extension it carries, and the DMI descriptor (section 11.2
 * of IEEE 1666-2011) that a target fills in when it grants direct memory access.
 */
module Tlm {

  /** `sc_dt::uint64` and `unsigned int`. */
  type u64 = x: nat | x < 0x1_0000_0000_0000_0000
  type u32 = x: nat | x < 0x1_0000_0000

  const MAX_U64: u64 := 0xFFFF_FFFF_FFFF_FFFF

  datatype Option<T> = None | Some(value: T)

  /** `tlm_command`. */
  datatype Command = ReadCommand | WriteCommand | IgnoreCommand

  /** `tlm_response_status`. */
  datatype ResponseStatus =
    | OkResponse
    | IncompleteResponse
    | GenericErrorResponse
    | AddressErrorResponse
    | CommandErrorResponse
    | BurstErrorResponse
    | ByteEnableErrorResponse

  /** `tlm_sync_enum`, the return value of the non-blocking transport calls. */
  datatype SyncEnum = Accepted | Updated | Completed

  /**
   * The `snoop_extension`: attached to a DMI read request, it asks the target
   * to watch writes from the request's address up to `endAddress`.
   */
  datatype SnoopExtension = SnoopExtension(endAddress: u64, valid: bool)

  /**
   * A generic payload. `data` is the initiator's data buffer, in 32-bit words;
   * `byteEnable` says whether a byte-enable pointer is set; `snoop` is the
   * extension slot (`None` while no extension has ever been attached).
   */
  datatype Payload = Payload(
    command: Command,
    address: u64,
    data: seq<int>,
    length: u32,
    streamingWidth: u32,
    byteEnable: bool,
    dmiAllowed: bool,
    status: ResponseStatus,
    snoop: Option<SnoopExtension>)

  /** A payload as the memory manager hands it out: an ignore command, no buffer, an incomplete response, no extension. */
  const DefaultPayload: Payload := Payload(IgnoreCommand, 0, [], 0, 0, false, false, IncompleteResponse, None)

  /** The data pointer addresses a buffer of at least `length` bytes. */
  predicate BufferHolds(p: Payload)
  {
    p.length <= 4 * |p.data|
  }

  /** The request carries a snoop extension whose `valid` flag is set. */
  predicate SnoopRequested(p: Payload)
  {
    p.snoop.Some? && p.snoop.value.valid
  }

  /** `tlm_dmi::dmi_access_e`. */
  datatype DmiAccess = NoAccess | ReadAccess | WriteAccess | ReadWriteAccess

  predicate IsReadAllowed(a: DmiAccess)
  {
    a == ReadAccess || a == ReadWriteAccess
  }

  predicate IsWriteAllowed(a: DmiAccess)
  {
    a == WriteAccess || a == ReadWriteAccess
  }

  /**
   * The DMI pointer: null, or the address of word `word` of a target's
   * backing array. Pointer arithmetic past the array is not checked when the
   * pointer is formed, only when it is dereferenced.
   */
  datatype DmiPtr = NullPtr | WordPtr(block: array<int>, word: nat)

  /** `tlm_dmi`; latencies are simulated times in nanoseconds. */
  datatype Dmi = Dmi(
    ptr: DmiPtr,
    startAddress: u64,
    endAddress: u64,
    access: DmiAccess,
    readLatency: nat,
    writeLatency: nat)

  /** A freshly constructed `tlm_dmi`: no access, the whole address space. */
  const DefaultDmi: Dmi := Dmi(NullPtr, 0, MAX_U64, NoAccess, 0, 0)

  /** An inclusive address range, as passed to `invalidate_direct_mem_ptr`. */
  datatype Range = Range(lo: u64, hi: u64)

  /**
   * The interval test every initiator applies to an invalidation: the range
   * [startRange, endRange] meets the range [lo, hi].
   */
  predicate Overlaps(startRange: u64, endRange: u64, lo: u64, hi: u64)
  {
    startRange <= hi && endRange >= lo
  }
}
