/**
 * The fixed records of the protocol, laid out as both ends declare them:
 * ctypes LittleEndianStructure on the host, plain C structs on the device,
 * with the compiler's natural alignment (each field at a multiple of its
 * own size, the whole record padded to a multiple of its widest field).
 */
module Layout {
  import opened Wire
  import opened Types

  // ---------------------------------------------------------------------------
  // Opcodes: the first byte of every command.

  const OpExit: u8 := 0
  const OpAllocate: u8 := 1
  const OpFree: u8 := 2
  const OpRead: u8 := 3
  const OpWrite: u8 := 4
  const OpGetService: u8 := 5
  const OpCloseService: u8 := 6
  const OpConvertServiceToDomain: u8 := 7
  const OpDispatchToService: u8 := 8

  /** The allocation kinds of the Allocate command. */
  const KindMalloc: u8 := 0
  const KindCalloc: u8 := 1
  const KindMemalign: u8 := 2

  /** The module number of the device's own error Results. */
  const NxipcModule: nat := 396

  /** Sizes of the scalar images. */
  const ResultSize: nat := 4
  const PointerSize: nat := 8
  const HandleSize: nat := 4

  // ---------------------------------------------------------------------------
  // Result word

  function EncodeResult(r: Result): (b: Bytes)
    ensures |b| == ResultSize
  {
    LE(r.value, 4)
  }

  function DecodeResult(b: Bytes): Result
    requires |b| == ResultSize
  {
    assert Pow256(4) == 0x1_0000_0000;
    Result(FromLE(b))
  }

  lemma ResultRoundTrip(r: Result)
    ensures DecodeResult(EncodeResult(r)) == r
  {
    assert Pow256(4) == 0x1_0000_0000;
    FieldRoundTrip(r.value, 4);
  }

  /** The image of the success word is four zero bytes. */
  lemma SuccessImage()
    ensures EncodeResult(Result(0)) == [0, 0, 0, 0]
  {
  }

  // ---------------------------------------------------------------------------
  // Allocate's record: `{u8 type; u64 size}`, size at offset 8.

  datatype Allocation = Allocation(kind: u8, size: u64)

  const AllocationSize: nat := 16

  function EncodeAllocation(a: Allocation): (b: Bytes)
    ensures |b| == AllocationSize
  {
    LE(a.kind, 1) + Zeros(7) + LE(a.size, 8)
  }

  function DecodeAllocation(b: Bytes): Allocation
    requires |b| == AllocationSize
  {
    assert Pow256(1) == 0x100;
    assert Pow256(8) == 0x1_0000_0000_0000_0000;
    Allocation(FromLE(b[0..1]), FromLE(b[8..16]))
  }

  lemma AllocationRoundTrip(a: Allocation)
    ensures DecodeAllocation(EncodeAllocation(a)) == a
  {
    var b := EncodeAllocation(a);
    assert b[0..1] == LE(a.kind, 1);
    assert b[8..16] == LE(a.size, 8);
    assert Pow256(1) == 0x100;
    assert Pow256(8) == 0x1_0000_0000_0000_0000;
    FieldRoundTrip(a.kind, 1);
    FieldRoundTrip(a.size, 8);
  }

  // ---------------------------------------------------------------------------
  // Read's and Write's record: `{void *ptr; u64 size}`.

  datatype MemInfo = MemInfo(ptr: u64, size: u64)

  const MemInfoSize: nat := 16

  function EncodeMemInfo(m: MemInfo): (b: Bytes)
    ensures |b| == MemInfoSize
  {
    LE(m.ptr, 8) + LE(m.size, 8)
  }

  function DecodeMemInfo(b: Bytes): MemInfo
    requires |b| == MemInfoSize
  {
    assert Pow256(8) == 0x1_0000_0000_0000_0000;
    MemInfo(FromLE(b[0..8]), FromLE(b[8..16]))
  }

  lemma MemInfoRoundTrip(m: MemInfo)
    ensures DecodeMemInfo(EncodeMemInfo(m)) == m
  {
    var b := EncodeMemInfo(m);
    assert b[0..8] == LE(m.ptr, 8);
    assert b[8..16] == LE(m.size, 8);
    assert Pow256(8) == 0x1_0000_0000_0000_0000;
    FieldRoundTrip(m.ptr, 8);
    FieldRoundTrip(m.size, 8);
  }

  // ---------------------------------------------------------------------------
  // DispatchToService's header.

  /**
   * The dispatch header: the service record at 0, request_id at 16,
   * in_size at 20, out_size at 24, target_session at 28, context at 32,
   * num_buffers at 36, in_send_pid at 37, in_num_objects at 38,
   * in_num_handles at 39, out_num_objects at 40, out_num_handles at 44,
   * then three bytes of padding to 48.
   */
  datatype Header = Header(
    service: ServiceStruct,
    requestId: u32,
    inSize: u32,
    outSize: u32,
    targetSession: u32,
    context: u32,
    numBuffers: u8,
    inSendPid: bool,
    inNumObjects: u8,
    inNumHandles: u8,
    outNumObjects: u32,
    outNumHandles: u8)

  const HeaderSize: nat := 48

  function EncodeHeader(h: Header): (b: Bytes)
    ensures |b| == HeaderSize
  {
    EncodeService(h.service)
      + LE(h.requestId, 4) + LE(h.inSize, 4) + LE(h.outSize, 4)
      + LE(h.targetSession, 4) + LE(h.context, 4)
      + LE(h.numBuffers, 1) + BoolByte(h.inSendPid) + LE(h.inNumObjects, 1) + LE(h.inNumHandles, 1)
      + LE(h.outNumObjects, 4) + LE(h.outNumHandles, 1) + Zeros(3)
  }

  /** A C `bool` read from a byte: any nonzero byte is true. */
  function ByteBool(b: Byte): bool
  {
    b != 0
  }

  function DecodeHeader(b: Bytes): Header
    requires |b| == HeaderSize
  {
    Widths();
    Header(
      DecodeService(b[0..16]),
      FromLE(b[16..20]), FromLE(b[20..24]), FromLE(b[24..28]),
      FromLE(b[28..32]), FromLE(b[32..36]),
      FromLE(b[36..37]), ByteBool(b[37]), FromLE(b[38..39]), FromLE(b[39..40]),
      FromLE(b[40..44]), FromLE(b[44..45]))
  }

  lemma Widths()
    ensures Pow256(1) == 0x100 && Pow256(2) == 0x1_0000 && Pow256(4) == 0x1_0000_0000
    ensures Pow256(8) == 0x1_0000_0000_0000_0000
  {
  }

  /** The device reads back exactly the header the host encoded. */
  lemma HeaderRoundTrip(h: Header)
    ensures DecodeHeader(EncodeHeader(h)) == h
  {
    var b := EncodeHeader(h);
    HeaderSlices(h);
    Widths();
    ServiceRoundTrip(h.service);
    FieldRoundTrip(h.requestId, 4);
    FieldRoundTrip(h.inSize, 4);
    FieldRoundTrip(h.outSize, 4);
    FieldRoundTrip(h.targetSession, 4);
    FieldRoundTrip(h.context, 4);
    FieldRoundTrip(h.numBuffers, 1);
    FieldRoundTrip(h.inNumObjects, 1);
    FieldRoundTrip(h.inNumHandles, 1);
    FieldRoundTrip(h.outNumObjects, 4);
    FieldRoundTrip(h.outNumHandles, 1);
  }

  lemma HeaderSlices(h: Header)
    ensures var b := EncodeHeader(h);
      && b[0..16] == EncodeService(h.service)
      && b[16..20] == LE(h.requestId, 4) && b[20..24] == LE(h.inSize, 4)
      && b[24..28] == LE(h.outSize, 4) && b[28..32] == LE(h.targetSession, 4)
      && b[32..36] == LE(h.context, 4) && b[36..37] == LE(h.numBuffers, 1)
      && b[37] == BoolByte(h.inSendPid)[0] && b[38..39] == LE(h.inNumObjects, 1)
      && b[39..40] == LE(h.inNumHandles, 1) && b[40..44] == LE(h.outNumObjects, 4)
      && b[44..45] == LE(h.outNumHandles, 1)
  {
  }

  // ---------------------------------------------------------------------------
  // A buffer descriptor: `{u64 size; u32 attr; bool is_pointer}`.

  datatype BufferDesc = BufferDesc(size: u64, attr: u32, isPointer: bool)

  const BufferDescSize: nat := 16

  function EncodeBufferDesc(d: BufferDesc): (b: Bytes)
    ensures |b| == BufferDescSize
  {
    LE(d.size, 8) + LE(d.attr, 4) + BoolByte(d.isPointer) + Zeros(3)
  }

  function DecodeBufferDesc(b: Bytes): BufferDesc
    requires |b| == BufferDescSize
  {
    Widths();
    BufferDesc(FromLE(b[0..8]), FromLE(b[8..12]), ByteBool(b[12]))
  }

  lemma BufferDescRoundTrip(d: BufferDesc)
    ensures DecodeBufferDesc(EncodeBufferDesc(d)) == d
  {
    var b := EncodeBufferDesc(d);
    assert b[0..8] == LE(d.size, 8);
    assert b[8..12] == LE(d.attr, 4);
    assert b[12] == BoolByte(d.isPointer)[0];
    Widths();
    FieldRoundTrip(d.size, 8);
    FieldRoundTrip(d.attr, 4);
  }

  // ---------------------------------------------------------------------------
  // Truncation into a field.

  /** What a ctypes field of w bytes keeps of a Python int: its value modulo 256^w. */
  function Wrap(x: int, w: nat): (r: nat)
    ensures r < Pow256(w)
  {
    x % Pow256(w)
  }

  /** Encoding an int directly gives the image of its truncation. */
  lemma WrapImage(x: int, w: nat)
    ensures LE(x, w) == LE(Wrap(x, w), w)
  {
    FromLEOfLE(x, w);
    LEOfFromLE(LE(x, w));
    FieldRoundTrip(Wrap(x, w), w);
    LEOfFromLE(LE(Wrap(x, w), w));
  }
}
