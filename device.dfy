/**
 * The device side of the link: the homebrew server's command loop. It reads
 * a one-byte command, then that command's records, calls into the system,
 * and writes a Result word followed, on success, by the command's output.
 * Both directions move in transfers of at most MAX_READ_WRITE (0xe00) bytes.
 *
 * The system's answers (the allocator, the service manager, the service a
 * request is dispatched to) are an oracle, Os, that the model does not look
 * inside. The bytes the host sends are an unbounded stream the server
 * consumes from a cursor; what it sends back is the log of its transfers.
 */
module Device {
  import opened Wire
  import opened Types
  import opened Layout

  // ---------------------------------------------------------------------------
  // The system behind the server

  /** What `serviceDispatchImpl` leaves behind: its Result, the output data, the object records and the new buffer contents. */
  datatype Answer = Answer(rc: u32, outData: Bytes, objects: Bytes, buffers: seq<Bytes>)

  /**
   * The libc and libnx calls the server makes, as functions of their
   * arguments. `allocate` is malloc, calloc or memalign, given the number of
   * allocations made before it (so that each call may answer differently),
   * the kind, the size and the alignment; it answers 0 for NULL. `initial`
   * is the content of memory nobody has written.
   */
  datatype Os = Os(
    allocate: (nat, u8, nat, nat) -> nat,
    initial: nat -> Byte,
    isRegistered: Bytes -> (u32, bool),
    getService: Bytes -> (u32, Bytes),
    convert: Bytes -> (u32, Bytes),
    dispatch: (Header, Bytes, seq<Bytes>, seq<nat>) -> Answer)

  /**
   * The server's state as a value: the stream cursor, every transfer it
   * wrote, the size of every transfer it read, the memory written so far,
   * every address freed, the number of allocations and every service
   * record closed.
   */
  datatype Dev = Dev(
    pos: nat,
    sent: seq<Bytes>,
    readSizes: seq<nat>,
    mem: map<nat, Byte>,
    frees: seq<nat>,
    allocs: nat,
    closes: seq<Bytes>)

  // ---------------------------------------------------------------------------
  // Transfers and memory

  /** The n bytes of the stream from cursor pos. */
  function Take(stream: nat -> Byte, pos: nat, n: nat): (r: Bytes)
    ensures |r| == n
    ensures forall i :: 0 <= i < n ==> r[i] == stream(pos + i)
  {
    seq(n, i requires 0 <= i < n => stream(pos + i))
  }

  /** `usb_read` of n bytes: the next n bytes of the stream, read in pieces of at most MAX_READ_WRITE. */
  function Recv(d: Dev, stream: nat -> Byte, n: nat): (r: (Dev, Bytes))
  {
    (d.(pos := d.pos + n, readSizes := d.readSizes + ChunkSizes(n, MaxReadWrite)), Take(stream, d.pos, n))
  }

  /** `usb_write` of data. */
  function Emit(d: Dev, data: Bytes): Dev
  {
    d.(sent := d.sent + Chunks(data, MaxReadWrite))
  }

  /** Consecutive `usb_write` calls, one per byte string. */
  function EmitEach(d: Dev, ws: seq<Bytes>): Dev
  {
    d.(sent := d.sent + Transfers(ws, MaxReadWrite))
  }

  /** The image of a Result the server makes for its own errors: module 396 and description k. */
  function Status(k: nat): Bytes
  {
    EncodeResult(MakeResult(NxipcModule, k))
  }

  /** The image of the Result 0. */
  function Success(): Bytes
  {
    EncodeResult(Result(0))
  }

  function Peek(mem: map<nat, Byte>, initial: nat -> Byte, a: nat): Byte
  {
    if a in mem then mem[a] else initial(a)
  }

  /** The n bytes of memory at p. */
  function Load(mem: map<nat, Byte>, initial: nat -> Byte, p: nat, n: nat): (r: Bytes)
    ensures |r| == n
    ensures forall i :: 0 <= i < n ==> r[i] == Peek(mem, initial, p + i)
  {
    seq<Byte>(n, i requires 0 <= i < n => Peek(mem, initial, p + i))
  }

  /** Memory after data is copied to p, byte by byte. */
  function Store(mem: map<nat, Byte>, p: nat, data: Bytes): map<nat, Byte>
    decreases |data|
  {
    if data == [] then mem
    else Store(mem, p, data[..|data| - 1])[p + |data| - 1 := data[|data| - 1]]
  }

  /** A byte of memory after a copy: from the data inside it, as before outside it. */
  lemma {:induction false} StorePeek(mem: map<nat, Byte>, initial: nat -> Byte, p: nat, data: Bytes, a: nat)
    ensures Peek(Store(mem, p, data), initial, a) == if p <= a < p + |data| then data[a - p] else Peek(mem, initial, a)
    decreases |data|
  {
    if data != [] {
      StorePeek(mem, initial, p, data[..|data| - 1], a);
    }
  }

  /** Bytes stored at p are read back from p, and memory outside them is untouched. */
  lemma StoreLoad(mem: map<nat, Byte>, initial: nat -> Byte, p: nat, data: Bytes, q: nat, n: nat)
    ensures Load(Store(mem, p, data), initial, p, |data|) == data
    ensures q + n <= p || p + |data| <= q ==> Load(Store(mem, p, data), initial, q, n) == Load(mem, initial, q, n)
  {
    forall i | 0 <= i < |data|
      ensures Load(Store(mem, p, data), initial, p, |data|)[i] == data[i]
    {
      StorePeek(mem, initial, p, data, p + i);
    }
    forall i | 0 <= i < n
      ensures q + n <= p || p + |data| <= q ==> Load(Store(mem, p, data), initial, q, n)[i] == Load(mem, initial, q, n)[i]
    {
      StorePeek(mem, initial, p, data, q + i);
    }
  }

  /** A buffer of n bytes as the service leaves it: what it wrote, cut or padded to n. */
  function Fit(b: Bytes, n: nat): (r: Bytes)
    ensures |r| == n
    ensures |b| >= n ==> r == b[..n]
    ensures |b| < n ==> r[..|b|] == b
  {
    if |b| >= n then b[..n] else b + Zeros(n - |b|)
  }

  // ---------------------------------------------------------------------------
  // The commands

  /** `Allocate()`: the `{type, size}` record, an alignment only for memalign, then the allocation's outcome. */
  function AllocateSpec(d: Dev, stream: nat -> Byte, os: Os): Dev
  {
    var (d1, rec) := Recv(d, stream, AllocationSize);
    var a := DecodeAllocation(rec);
    if a.kind == KindMalloc || a.kind == KindCalloc then Allocated(d1, os, a, 0)
    else if a.kind == KindMemalign then
      var (d2, align) := Recv(d1, stream, PointerSize);
      Allocated(d2, os, a, FromLE(align))
    else Emit(d1, Status(3))
  }

  /** A NULL allocation gives the error (396, 4); otherwise Result 0 and the 8-byte pointer, calloc's memory zeroed. */
  function Allocated(d: Dev, os: Os, a: Allocation, align: nat): Dev
  {
    var ptr := os.allocate(d.allocs, a.kind, a.size, align);
    var d1 := d.(allocs := d.allocs + 1);
    if ptr == 0 then Emit(d1, Status(4))
    else
      var d2 := if a.kind == KindCalloc then d1.(mem := Store(d1.mem, ptr, Zeros(a.size))) else d1;
      Emit(Emit(d2, Success()), LE(ptr, PointerSize))
  }

  /** `Free()`: the pointer is freed and Result 0 follows. */
  function FreeSpec(d: Dev, stream: nat -> Byte): Dev
  {
    var (d1, p) := Recv(d, stream, PointerSize);
    Emit(d1.(frees := d1.frees + [FromLE(p)]), Success())
  }

  /** `Read()`: Result 0, then the memory the `{ptr, size}` record names. */
  function ReadSpec(d: Dev, stream: nat -> Byte, os: Os): Dev
  {
    var (d1, rec) := Recv(d, stream, MemInfoSize);
    var info := DecodeMemInfo(rec);
    Emit(Emit(d1, Success()), Load(d1.mem, os.initial, info.ptr, info.size))
  }

  /** `Write()`: the payload goes straight into the memory the `{ptr, size}` record names; then Result 0. */
  function WriteSpec(d: Dev, stream: nat -> Byte): Dev
  {
    var (d1, rec) := Recv(d, stream, MemInfoSize);
    var info := DecodeMemInfo(rec);
    var (d2, data) := Recv(d1, stream, info.size);
    Emit(d2.(mem := Store(d2.mem, info.ptr, data)), Success())
  }

  /**
   * `GetService()`: a failing registration query gives its Result, an
   * unregistered name the error (396, 1); otherwise the service manager's
   * Result, and the session record only after a zero one.
   */
  function GetServiceSpec(d: Dev, stream: nat -> Byte, os: Os): Dev
  {
    var (d1, name) := Recv(d, stream, NameSize);
    var (rc, registered) := os.isRegistered(name);
    if rc != 0 then Emit(d1, EncodeResult(Result(rc)))
    else if !registered then Emit(d1, Status(1))
    else
      var (rc2, record) := os.getService(name);
      var d2 := Emit(d1, EncodeResult(Result(rc2)));
      if rc2 == 0 then Emit(d2, Fit(record, ServiceSize)) else d2
  }

  /** `CloseService()`: the record is closed and Result 0 follows. */
  function CloseServiceSpec(d: Dev, stream: nat -> Byte): Dev
  {
    var (d1, s) := Recv(d, stream, ServiceSize);
    Emit(d1.(closes := d1.closes + [s]), Success())
  }

  /** `ConverServiceToDomain()`: the conversion's Result, and the converted record only after a zero one. */
  function ConvertSpec(d: Dev, stream: nat -> Byte, os: Os): Dev
  {
    var (d1, s) := Recv(d, stream, ServiceSize);
    var (rc, converted) := os.convert(s);
    var d2 := Emit(d1, EncodeResult(Result(rc)));
    if rc == 0 then Emit(d2, Fit(converted, ServiceSize)) else d2
  }

  // ---------------------------------------------------------------------------
  // DispatchToService

  /** A buffer as the server holds it: its descriptor and the address of its bytes. */
  datatype Slot = Slot(desc: BufferDesc, ptr: nat)

  /**
   * One buffer of a dispatch: its descriptor, then for a pointer buffer the
   * 8-byte pointer; any other buffer is allocated, and its bytes are read
   * into it only when its attribute has the In bit.
   */
  function RecvBuffer(d: Dev, stream: nat -> Byte, os: Os): (Dev, Slot)
  {
    var (d1, raw) := Recv(d, stream, BufferDescSize);
    var desc := DecodeBufferDesc(raw);
    if desc.isPointer then
      var (d2, p) := Recv(d1, stream, PointerSize);
      (d2, Slot(desc, FromLE(p)))
    else
      var ptr := os.allocate(d1.allocs, KindMalloc, desc.size, 0);
      var d2 := d1.(allocs := d1.allocs + 1);
      if IsIn(desc.attr) then
        var (d3, data) := Recv(d2, stream, desc.size);
        (d3.(mem := Store(d3.mem, ptr, data)), Slot(desc, ptr))
      else (d2, Slot(desc, ptr))
  }

  /** The first n buffers of a dispatch, in order. */
  function RecvBuffers(d: Dev, stream: nat -> Byte, os: Os, n: nat): (r: (Dev, seq<Slot>))
    ensures |r.1| == n
  {
    if n == 0 then (d, [])
    else
      var (d1, slots) := RecvBuffers(d, stream, os, n - 1);
      var (d2, s) := RecvBuffer(d1, stream, os);
      (d2, slots + [s])
  }

  /** The first n input handles, four bytes each. */
  function RecvHandles(d: Dev, stream: nat -> Byte, n: nat): (r: (Dev, seq<nat>))
    ensures |r.1| == n
  {
    if n == 0 then (d, [])
    else
      var (d1, hs) := RecvHandles(d, stream, n - 1);
      var (d2, raw) := Recv(d1, stream, HandleSize);
      (d2, hs + [FromLE(raw)])
  }

  /** What each buffer holds when the service is called. */
  function Contents(mem: map<nat, Byte>, initial: nat -> Byte, slots: seq<Slot>): (r: seq<Bytes>)
    ensures |r| == |slots|
    ensures forall i :: 0 <= i < |slots| ==> r[i] == Load(mem, initial, slots[i].ptr, slots[i].desc.size)
  {
    seq(|slots|, i requires 0 <= i < |slots| => Load(mem, initial, slots[i].ptr, slots[i].desc.size))
  }

  /** Memory after the service has filled its buffers: buffer i gets contents[i], fitted to its size. */
  function StoreAll(mem: map<nat, Byte>, slots: seq<Slot>, contents: seq<Bytes>): map<nat, Byte>
  {
    if slots == [] then mem
    else
      var n := |slots| - 1;
      var m := StoreAll(mem, slots[..n], contents);
      if n < |contents| then Store(m, slots[n].ptr, Fit(contents[n], slots[n].desc.size)) else m
  }

  /** The bytes of every buffer whose attribute has the Out bit, in index order. */
  function OutImages(slots: seq<Slot>, mem: map<nat, Byte>, initial: nat -> Byte): seq<Bytes>
  {
    if slots == [] then []
    else
      var s := slots[|slots| - 1];
      OutImages(slots[..|slots| - 1], mem, initial)
        + (if IsOut(s.desc.attr) then [Load(mem, initial, s.ptr, s.desc.size)] else [])
  }

  /** The addresses the server allocated itself (the non-pointer buffers), in index order. */
  function Owned(slots: seq<Slot>): seq<nat>
  {
    if slots == [] then []
    else
      var s := slots[|slots| - 1];
      Owned(slots[..|slots| - 1]) + (if s.desc.isPointer then [] else [s.ptr])
  }

  /** What a successful dispatch writes after its Result: the output data, the object records when there are any, the Out buffers. */
  function Replies(hd: Header, ans: Answer, slots: seq<Slot>, mem: map<nat, Byte>, initial: nat -> Byte): seq<Bytes>
  {
    [Fit(ans.outData, hd.outSize)]
      + (if hd.outNumObjects > 0 then [Fit(ans.objects, ServiceSize * hd.outNumObjects)] else [])
      + OutImages(slots, mem, initial)
  }

  /** The request part of `DispatchToService()`: header, input data, buffers, handles. */
  function RecvRequest(d: Dev, stream: nat -> Byte, os: Os): (Dev, Header, Bytes, seq<Slot>, seq<nat>)
  {
    var (d1, raw) := Recv(d, stream, HeaderSize);
    var hd := DecodeHeader(raw);
    var (d2, inData) := Recv(d1, stream, hd.inSize);
    var (d3, slots) := RecvBuffers(d2, stream, os, hd.numBuffers);
    var (d4, handles) := RecvHandles(d3, stream, hd.inNumHandles);
    (d4, hd, inData, slots, handles)
  }

  /**
   * The reply part: the service's Result; after a zero one, the output;
   * then, on either path, every buffer the server allocated is freed.
   */
  function Respond(d: Dev, hd: Header, slots: seq<Slot>, ans: Answer, initial: nat -> Byte): Dev
  {
    var d1 := Emit(d.(mem := StoreAll(d.mem, slots, ans.buffers)), EncodeResult(Result(ans.rc)));
    var d2 := if ans.rc == 0 then EmitEach(d1, Replies(hd, ans, slots, d1.mem, initial)) else d1;
    d2.(frees := d2.frees + Owned(slots))
  }

  function DispatchSpec(d: Dev, stream: nat -> Byte, os: Os): Dev
  {
    var (d1, hd, inData, slots, handles) := RecvRequest(d, stream, os);
    Respond(d1, hd, slots, os.dispatch(hd, inData, Contents(d1.mem, os.initial, slots), handles), os.initial)
  }

  // ---------------------------------------------------------------------------
  // The command loop

  /** One turn of the loop after the command byte: the new state, and whether the loop ends (Exit). */
  function CommandSpec(d: Dev, stream: nat -> Byte, os: Os, op: nat): (Dev, bool)
  {
    if op == OpExit as nat then (Emit(d, Success()), true)
    else if op == OpAllocate as nat then (AllocateSpec(d, stream, os), false)
    else if op == OpFree as nat then (FreeSpec(d, stream), false)
    else if op == OpRead as nat then (ReadSpec(d, stream, os), false)
    else if op == OpWrite as nat then (WriteSpec(d, stream), false)
    else if op == OpGetService as nat then (GetServiceSpec(d, stream, os), false)
    else if op == OpCloseService as nat then (CloseServiceSpec(d, stream), false)
    else if op == OpConvertServiceToDomain as nat then (ConvertSpec(d, stream, os), false)
    else if op == OpDispatchToService as nat then (DispatchSpec(d, stream, os), false)
    else (Emit(d, Status(2)), false)
  }

  /**
   * `main`'s loop when `appletMainLoop` lets it run at most steps more
   * turns: each turn reads a command byte and runs the command; the loop
   * ends early, reporting true, after an Exit.
   */
  function ServeSpec(d: Dev, stream: nat -> Byte, os: Os, steps: nat): (Dev, bool)
    decreases steps
  {
    if steps == 0 then (d, false)
    else
      var (d1, stop) := TurnSpec(d, stream, os);
      if stop then (d1, true) else ServeSpec(d1, stream, os, steps - 1)
  }

  /** Running `steps` more turns from d ends in goal. */
  ghost predicate Leads(d: Dev, stream: nat -> Byte, os: Os, steps: nat, goal: (Dev, bool))
  {
    ServeSpec(d, stream, os, steps) == goal
  }

  /** One turn of the loop: the command byte, then the command. */
  function TurnSpec(d: Dev, stream: nat -> Byte, os: Os): (Dev, bool)
  {
    var (d1, op) := Recv(d, stream, 1);
    CommandSpec(d1, stream, os, op[0])
  }

  /** ServeSpec after one turn that left the state d1 and reported stop. */
  lemma ServeTurn(d: Dev, stream: nat -> Byte, os: Os, k: nat, d1: Dev, stop: bool)
    requires k > 0 && (d1, stop) == TurnSpec(d, stream, os)
    ensures ServeSpec(d, stream, os, k) == if stop then (d1, true) else ServeSpec(d1, stream, os, k - 1)
  {
  }

  /** A run of k turns that ends in goal: its first turn either ends it there or leaves the other k - 1. */
  lemma ServeLeads(d: Dev, stream: nat -> Byte, os: Os, k: nat, next: nat, d1: Dev, stop: bool, goal: (Dev, bool))
    requires k > 0 && next == k - 1 && (d1, stop) == TurnSpec(d, stream, os) && Leads(d, stream, os, k, goal)
    ensures stop ==> goal == (d1, true)
    ensures !stop ==> Leads(d1, stream, os, next, goal)
  {
    ServeTurn(d, stream, os, k, d1, stop);
    if !stop {
      LeadsAt(d1, stream, os, k - 1, next, goal);
    }
  }

  lemma LeadsAt(d: Dev, stream: nat -> Byte, os: Os, a: nat, b: nat, goal: (Dev, bool))
    requires a == b && Leads(d, stream, os, a, goal)
    ensures Leads(d, stream, os, b, goal)
  {
  }

  // ---------------------------------------------------------------------------
  // The server

  class Server {
    /** Every byte the host will send, in order. */
    const stream: nat -> Byte
    const os: Os
    var pos: nat
    var sent: seq<Bytes>
    var readSizes: seq<nat>
    var mem: map<nat, Byte>
    var frees: seq<nat>
    var allocs: nat
    var closes: seq<Bytes>

    function State(): Dev
      reads this
    {
      Dev(pos, sent, readSizes, mem, frees, allocs, closes)
    }

    /** A server that has read and written nothing. */
    constructor (stream: nat -> Byte, os: Os)
      ensures this.stream == stream && this.os == os
      ensures State() == Dev(0, [], [], map[], [], 0, [])
    {
      this.stream := stream;
      this.os := os;
      pos := 0;
      sent := [];
      readSizes := [];
      mem := map[];
      frees := [];
      allocs := 0;
      closes := [];
    }

    /** `usbCommsRead`: one IN transfer of n bytes. */
    method CommsRead(n: nat) returns (data: Bytes)
      modifies this
      ensures (State(), data) == (old(State()).(pos := old(pos) + n, readSizes := old(readSizes) + [n]), Take(stream, old(pos), n))
    {
      data := Take(stream, pos, n);
      pos := pos + n;
      readSizes := readSizes + [n];
    }

    /** `usbCommsWrite`: one OUT transfer. */
    method CommsWrite(data: Bytes)
      modifies this
      ensures State() == old(State()).(sent := old(sent) + [data])
    {
      sent := sent + [data];
    }

    /** `usb_read(buf, size)`: pieces of min(size - offset, MAX_READ_WRITE) bytes at offsets 0, 0xe00, 0x1c00, ... */
    method UsbRead(size: nat) returns (buf: Bytes)
      modifies this
      ensures (State(), buf) == Recv(old(State()), stream, size)
    {
      buf := [];
      var t := 0;
      while t < size
        invariant 0 <= t <= size
        invariant buf == Take(stream, old(pos), t)
        invariant readSizes + ChunkSizes(size - t, MaxReadWrite) == old(readSizes) + ChunkSizes(size, MaxReadWrite)
        invariant State() == old(State()).(pos := old(pos) + t, readSizes := readSizes)
        decreases size - t
      {
        var toRead;
        if size - t > MaxReadWrite {
          toRead := MaxReadWrite;
        } else {
          toRead := size - t;
        }
        ChunkSizesStep(size, MaxReadWrite, t);
        AppendAssoc(readSizes, [toRead], ChunkSizes(size - t - toRead, MaxReadWrite));
        var piece := CommsRead(toRead);
        assert Take(stream, old(pos), t) + piece == Take(stream, old(pos), t + toRead);
        buf := buf + piece;
        t := t + toRead;
      }
      assert readSizes == old(readSizes) + ChunkSizes(size, MaxReadWrite);
    }

    /** `usb_write(buf, size)`: pieces of min(size - offset, MAX_READ_WRITE) bytes, front to back. */
    method UsbWrite(data: Bytes)
      modifies this
      ensures State() == Emit(old(State()), data)
    {
      var size := |data|;
      var t := 0;
      while t < size
        invariant 0 <= t <= size
        invariant sent + Chunks(data[t..], MaxReadWrite) == old(sent) + Chunks(data, MaxReadWrite)
        invariant State() == old(State()).(sent := sent)
        decreases size - t
      {
        var toWrite;
        if size - t > MaxReadWrite {
          toWrite := MaxReadWrite;
        } else {
          toWrite := size - t;
        }
        ChunksStep(data, MaxReadWrite, t);
        AppendAssoc(sent, [data[t..t + toWrite]], Chunks(data[t + toWrite..], MaxReadWrite));
        CommsWrite(data[t..t + toWrite]);
        t := t + toWrite;
      }
      assert data[t..] == [];
    }

    /** `write_result(rc)`. */
    method WriteResult(rc: Result)
      modifies this
      ensures State() == Emit(old(State()), EncodeResult(rc))
    {
      UsbWrite(EncodeResult(rc));
    }

    method Allocate()
      modifies this
      ensures State() == AllocateSpec(old(State()), stream, os)
    {
      var rec := UsbRead(AllocationSize);
      var a := DecodeAllocation(rec);
      var align := 0;
      if a.kind == KindMalloc || a.kind == KindCalloc {
      } else if a.kind == KindMemalign {
        var raw := UsbRead(PointerSize);
        align := FromLE(raw);
      } else {
        WriteResult(MakeResult(NxipcModule, 3));
        return;
      }
      AllocateWith(a, align);
    }

    /** The allocation itself, once its arguments are read. */
    method AllocateWith(a: Allocation, align: nat)
      modifies this
      ensures State() == Allocated(old(State()), os, a, align)
    {
      var ptr := os.allocate(allocs, a.kind, a.size, align);
      allocs := allocs + 1;
      if ptr == 0 {
        WriteResult(MakeResult(NxipcModule, 4));
        return;
      }
      if a.kind == KindCalloc {
        mem := Store(mem, ptr, Zeros(a.size));
      }
      WriteResult(Result(0));
      UsbWrite(LE(ptr, PointerSize));
    }

    method Free()
      modifies this
      ensures State() == FreeSpec(old(State()), stream)
    {
      var raw := UsbRead(PointerSize);
      frees := frees + [FromLE(raw)];
      WriteResult(Result(0));
    }

    method Read()
      modifies this
      ensures State() == ReadSpec(old(State()), stream, os)
    {
      var rec := UsbRead(MemInfoSize);
      var info := DecodeMemInfo(rec);
      WriteResult(Result(0));
      UsbWrite(Load(mem, os.initial, info.ptr, info.size));
    }

    method Write()
      modifies this
      ensures State() == WriteSpec(old(State()), stream)
    {
      var rec := UsbRead(MemInfoSize);
      var info := DecodeMemInfo(rec);
      var data := UsbRead(info.size);
      mem := Store(mem, info.ptr, data);
      WriteResult(Result(0));
    }

    method GetService()
      modifies this
      ensures State() == GetServiceSpec(old(State()), stream, os)
    {
      var name := UsbRead(NameSize);
      var (rc, registered) := os.isRegistered(name);
      if rc != 0 {
        WriteResult(Result(rc));
        return;
      }
      if !registered {
        WriteResult(MakeResult(NxipcModule, 1));
        return;
      }
      var (rc2, record) := os.getService(name);
      WriteResult(Result(rc2));
      if rc2 == 0 {
        UsbWrite(Fit(record, ServiceSize));
      }
    }

    method CloseService()
      modifies this
      ensures State() == CloseServiceSpec(old(State()), stream)
    {
      var s := UsbRead(ServiceSize);
      closes := closes + [s];
      WriteResult(Result(0));
    }

    method ConvertServiceToDomain()
      modifies this
      ensures State() == ConvertSpec(old(State()), stream, os)
    {
      var s := UsbRead(ServiceSize);
      var (rc, converted) := os.convert(s);
      WriteResult(Result(rc));
      if rc == 0 {
        UsbWrite(Fit(converted, ServiceSize));
      }
    }

    method ReceiveBuffer() returns (s: Slot)
      modifies this
      ensures (State(), s) == RecvBuffer(old(State()), stream, os)
    {
      var raw := UsbRead(BufferDescSize);
      var desc := DecodeBufferDesc(raw);
      if desc.isPointer {
        var p := UsbRead(PointerSize);
        s := Slot(desc, FromLE(p));
      } else {
        var ptr := os.allocate(allocs, KindMalloc, desc.size, 0);
        allocs := allocs + 1;
        if IsIn(desc.attr) {
          var data := UsbRead(desc.size);
          mem := Store(mem, ptr, data);
        }
        s := Slot(desc, ptr);
      }
    }

    /** The descriptor loop: buffers[i] is filled in place for i = 0 .. n - 1. */
    method ReceiveBuffers(n: nat) returns (buffers: array<Slot>)
      modifies this
      ensures fresh(buffers) && buffers.Length == n
      ensures (State(), buffers[..]) == RecvBuffers(old(State()), stream, os, n)
    {
      buffers := new Slot[n](_ => Slot(BufferDesc(0, 0, false), 0));
      for i := 0 to n
        invariant State() == RecvBuffers(old(State()), stream, os, i).0
        invariant buffers[..i] == RecvBuffers(old(State()), stream, os, i).1
      {
        var s := ReceiveBuffer();
        buffers[i] := s;
        assert buffers[..i + 1] == buffers[..i] + [s];
      }
      assert buffers[..n] == buffers[..];
    }

    method ReceiveHandles(n: nat) returns (handles: array<nat>)
      modifies this
      ensures fresh(handles) && handles.Length == n
      ensures (State(), handles[..]) == RecvHandles(old(State()), stream, n)
    {
      handles := new nat[n](_ => 0);
      for i := 0 to n
        invariant (State(), handles[..i]) == RecvHandles(old(State()), stream, i)
      {
        var raw := UsbRead(HandleSize);
        handles[i] := FromLE(raw);
        assert handles[..i + 1] == handles[..i] + [FromLE(raw)];
      }
      assert handles[..n] == handles[..];
    }

    /** The readback loop: every buffer whose attribute has the Out bit, in index order. */
    method WriteBack(buffers: array<Slot>)
      modifies this
      ensures State() == EmitEach(old(State()), OutImages(buffers[..], mem, os.initial))
    {
      for i := 0 to buffers.Length
        invariant State() == EmitEach(old(State()), OutImages(buffers[..i], mem, os.initial))
      {
        assert buffers[..i + 1][..i] == buffers[..i];
        ghost var before := OutImages(buffers[..i], mem, os.initial);
        if IsOut(buffers[i].desc.attr) {
          var image := Load(mem, os.initial, buffers[i].ptr, buffers[i].desc.size);
          assert OutImages(buffers[..i + 1], mem, os.initial) == before + [image];
          TransfersAppend(old(sent), before, [image], MaxReadWrite);
          TransfersOfTwo(image, image, MaxReadWrite);
          UsbWrite(image);
        } else {
          assert OutImages(buffers[..i + 1], mem, os.initial) == before + [];
          assert before + [] == before;
        }
      }
      assert buffers[..buffers.Length] == buffers[..];
    }

    /** The cleanup loop: every buffer that is not a pointer buffer is freed once. */
    method FreeBuffers(buffers: array<Slot>)
      modifies this
      ensures State() == old(State()).(frees := old(frees) + Owned(buffers[..]))
    {
      for i := 0 to buffers.Length
        invariant State() == old(State()).(frees := old(frees) + Owned(buffers[..i]))
      {
        assert buffers[..i + 1][..i] == buffers[..i];
        if buffers[i].desc.isPointer {
          continue;
        }
        frees := frees + [buffers[i].ptr];
      }
      assert buffers[..buffers.Length] == buffers[..];
    }

    method DispatchToService()
      modifies this
      ensures State() == DispatchSpec(old(State()), stream, os)
    {
      var raw := UsbRead(HeaderSize);
      var hd := DecodeHeader(raw);
      var inData := UsbRead(hd.inSize);
      var buffers := ReceiveBuffers(hd.numBuffers);
      var handles := ReceiveHandles(hd.inNumHandles);
      var ans := os.dispatch(hd, inData, Contents(mem, os.initial, buffers[..]), handles[..]);
      mem := StoreAll(mem, buffers[..], ans.buffers);
      WriteResult(Result(ans.rc));
      if ans.rc == 0 {
        Reply(hd, ans, buffers);
      }
      FreeBuffers(buffers);
    }

    /** The success path: the output data, the object records when there are any, the Out buffers. */
    method Reply(hd: Header, ans: Answer, buffers: array<Slot>)
      modifies this
      ensures State() == EmitEach(old(State()), Replies(hd, ans, buffers[..], mem, os.initial))
    {
      var out := Fit(ans.outData, hd.outSize);
      UsbWrite(out);
      if hd.outNumObjects > 0 {
        var objects := Fit(ans.objects, ServiceSize * hd.outNumObjects);
        UsbWrite(objects);
        TransfersOfTwo(out, objects, MaxReadWrite);
        AppendAssoc(old(sent), Chunks(out, MaxReadWrite), Chunks(objects, MaxReadWrite));
        WriteBack(buffers);
        TransfersAppend(old(sent), [out, objects], OutImages(buffers[..], mem, os.initial), MaxReadWrite);
        assert Replies(hd, ans, buffers[..], mem, os.initial) == [out, objects] + OutImages(buffers[..], mem, os.initial);
      } else {
        TransfersOfTwo(out, out, MaxReadWrite);
        WriteBack(buffers);
        TransfersAppend(old(sent), [out], OutImages(buffers[..], mem, os.initial), MaxReadWrite);
        assert Replies(hd, ans, buffers[..], mem, os.initial) == [out] + OutImages(buffers[..], mem, os.initial);
      }
    }

    /** One turn of `main`'s switch, after the command byte. */
    method RunCommand(op: nat) returns (shouldBreak: bool)
      modifies this
      ensures (State(), shouldBreak) == CommandSpec(old(State()), stream, os, op)
    {
      shouldBreak := false;
      if op == OpExit as nat {
        WriteResult(Result(0));
        shouldBreak := true;
      } else if op == OpAllocate as nat {
        Allocate();
      } else if op == OpFree as nat {
        Free();
      } else if op == OpRead as nat {
        Read();
      } else if op == OpWrite as nat {
        Write();
      } else if op == OpGetService as nat {
        GetService();
      } else if op == OpCloseService as nat {
        CloseService();
      } else if op == OpConvertServiceToDomain as nat {
        ConvertServiceToDomain();
      } else if op == OpDispatchToService as nat {
        DispatchToService();
      } else {
        WriteResult(MakeResult(NxipcModule, 2));
      }
    }

    /** One turn of `main`'s loop. */
    method Turn() returns (shouldBreak: bool)
      modifies this
      ensures (State(), shouldBreak) == TurnSpec(old(State()), stream, os)
    {
      var op := UsbRead(1);
      shouldBreak := RunCommand(op[0]);
    }

    /** `main`'s loop, for as many turns as `appletMainLoop` allows. */
    method Serve(steps: nat) returns (exited: bool)
      modifies this
      ensures (State(), exited) == ServeSpec(old(State()), stream, os, steps)
    {
      ghost var goal := ServeSpec(State(), stream, os, steps);
      var left := steps;
      while left > 0
        invariant Leads(State(), stream, os, left, goal)
        decreases left
      {
        var shouldBreak, next := TurnOf(left, goal);
        if shouldBreak {
          return true;
        }
        left := next;
      }
      exited := false;
    }

    /** One turn with `left` turns to go: it either ends the run or leaves `next`, one fewer, turns of it. */
    method TurnOf(left: nat, ghost goal: (Dev, bool)) returns (shouldBreak: bool, next: nat)
      requires left > 0 && Leads(State(), stream, os, left, goal)
      modifies this
      ensures next == left - 1
      ensures shouldBreak ==> goal == (State(), true)
      ensures !shouldBreak ==> Leads(State(), stream, os, next, goal)
    {
      ghost var d := State();
      next := left - 1;
      shouldBreak := Turn();
      ServeLeads(d, stream, os, left, next, State(), shouldBreak, goal);
    }
  }

  // ---------------------------------------------------------------------------
  // What the server promises

  /** Every byte the server has written, in order, whatever the transfer sizes. */
  function Output(d: Dev): Bytes
  {
    Flatten(d.sent)
  }

  /** A `usb_write` adds exactly its bytes to the output. */
  lemma EmitOutput(d: Dev, data: Bytes)
    ensures Output(Emit(d, data)) == Output(d) + data
  {
    FlattenAppend(d.sent, Chunks(data, MaxReadWrite));
    ChunksFlatten(data, MaxReadWrite);
  }

  /** Consecutive writes add their bytes, in order. */
  lemma EmitEachOutput(d: Dev, ws: seq<Bytes>)
    ensures Output(EmitEach(d, ws)) == Output(d) + Flatten(ws)
  {
    FlattenAppend(d.sent, Transfers(ws, MaxReadWrite));
    TransfersFlatten(ws, MaxReadWrite);
  }

  /** The server's own errors carry module 396 (nxipc) and their description, and are never success; its success word is 0. */
  lemma StatusFields(k: nat)
    requires k < 8192
    ensures var r := DecodeResult(Status(k)); r.Module() == NxipcModule && r.Description() == k && !r.IsSuccess()
    ensures DecodeResult(Success()).IsSuccess()
  {
    ResultRoundTrip(MakeResult(NxipcModule, k));
    MakeResultFields(NxipcModule, k);
    ResultRoundTrip(Result(0));
  }

  /**
   * An allocation, once its arguments are read: exactly one call to the
   * allocator with the record's kind and size; (396, 4) for NULL, or Result 0
   * and the pointer. calloc's memory then reads back as zeros, and nothing
   * else touches memory.
   */
  lemma AllocatedOutcome(d: Dev, os: Os, a: Allocation, align: nat)
    ensures var after := Allocated(d, os, a, align);
      var ptr := os.allocate(d.allocs, a.kind, a.size, align);
      && after.pos == d.pos && after.allocs == d.allocs + 1
      && after.frees == d.frees && after.closes == d.closes
      && Output(after) == Output(d) + (if ptr == 0 then Status(4) else Success() + LE(ptr, PointerSize))
      && (ptr != 0 && a.kind == KindCalloc ==> Load(after.mem, os.initial, ptr, a.size) == Zeros(a.size))
      && (a.kind != KindCalloc || ptr == 0 ==> after.mem == d.mem)
  {
    var ptr := os.allocate(d.allocs, a.kind, a.size, align);
    var d1 := d.(allocs := d.allocs + 1);
    if ptr == 0 {
      EmitOutput(d1, Status(4));
    } else {
      var d2 := if a.kind == KindCalloc then d1.(mem := Store(d1.mem, ptr, Zeros(a.size))) else d1;
      EmitOutput(d2, Success());
      EmitOutput(Emit(d2, Success()), LE(ptr, PointerSize));
      AppendAssoc(Output(d), Success(), LE(ptr, PointerSize));
      StoreLoad(d1.mem, os.initial, ptr, Zeros(a.size), 0, 0);
    }
  }

  /**
   * `Allocate()` reads the 16-byte record, and 8 more bytes, the alignment,
   * only for memalign; malloc and calloc are allocated with alignment 0. An
   * unknown kind allocates nothing and answers (396, 3).
   */
  lemma AllocateOutcomes(d: Dev, stream: nat -> Byte, os: Os)
    ensures var a := DecodeAllocation(Take(stream, d.pos, AllocationSize));
      var after := AllocateSpec(d, stream, os);
      var d1 := Recv(d, stream, AllocationSize).0;
      && (a.kind == KindMalloc || a.kind == KindCalloc ==> after == Allocated(d1, os, a, 0))
      && (a.kind == KindMemalign ==>
            after == Allocated(Recv(d1, stream, PointerSize).0, os, a, FromLE(Take(stream, d.pos + AllocationSize, PointerSize))))
      && (a.kind != KindMalloc && a.kind != KindCalloc && a.kind != KindMemalign ==>
            && after.pos == d.pos + AllocationSize && after.allocs == d.allocs && after.mem == d.mem
            && Output(after) == Output(d) + Status(3))
  {
    var (d1, rec) := Recv(d, stream, AllocationSize);
    var a := DecodeAllocation(rec);
    if a.kind == KindMemalign {
      var (d2, raw) := Recv(d1, stream, PointerSize);
      assert raw == Take(stream, d.pos + AllocationSize, PointerSize);
    } else if a.kind != KindMalloc && a.kind != KindCalloc {
      assert AllocateSpec(d, stream, os) == Emit(d1, Status(3));
      EmitOutput(d1, Status(3));
    }
  }

  /**
   * `GetService()` reads the 8-byte name. A failing registration query is
   * answered with its own Result, an unregistered name with (396, 1);
   * otherwise the service manager's Result follows, and the 16-byte session
   * record only after a zero one.
   */
  lemma GetServiceOutcomes(d: Dev, stream: nat -> Byte, os: Os)
    ensures var name := Take(stream, d.pos, NameSize);
      var after := GetServiceSpec(d, stream, os);
      var (rc, registered) := os.isRegistered(name);
      var (rc2, record) := os.getService(name);
      && after.pos == d.pos + NameSize
      && after.mem == d.mem && after.allocs == d.allocs && after.frees == d.frees
      && (rc != 0 ==> Output(after) == Output(d) + EncodeResult(Result(rc)))
      && (rc == 0 && !registered ==> Output(after) == Output(d) + Status(1))
      && (rc == 0 && registered ==> Output(after) == Output(d) + EncodeResult(Result(rc2)) + (if rc2 == 0 then Fit(record, ServiceSize) else []))
  {
    var (d1, name) := Recv(d, stream, NameSize);
    var (rc, registered) := os.isRegistered(name);
    var (rc2, record) := os.getService(name);
    if rc != 0 {
      EmitOutput(d1, EncodeResult(Result(rc)));
    } else if !registered {
      EmitOutput(d1, Status(1));
    } else {
      var d2 := Emit(d1, EncodeResult(Result(rc2)));
      EmitOutput(d1, EncodeResult(Result(rc2)));
      if rc2 == 0 {
        EmitOutput(d2, Fit(record, ServiceSize));
      } else {
        assert Output(d2) + [] == Output(d2);
      }
    }
  }

  /** The addresses the server frees after a dispatch are exactly those of the buffers it allocated itself. */
  lemma {:induction false} OwnedMembers(slots: seq<Slot>, a: nat)
    ensures a in Owned(slots) <==> exists i :: 0 <= i < |slots| && !slots[i].desc.isPointer && slots[i].ptr == a
    decreases |slots|
  {
    if slots != [] {
      var n := |slots| - 1;
      var init := slots[..n];
      OwnedMembers(init, a);
      assert forall i :: 0 <= i < n ==> init[i] == slots[i];
      if a in Owned(slots) && a !in Owned(init) {
        assert !slots[n].desc.isPointer && slots[n].ptr == a;
      }
    }
  }

  /** Receiving buffers writes nothing, frees nothing and closes nothing. */
  lemma {:induction false} RecvBuffersQuiet(d: Dev, stream: nat -> Byte, os: Os, n: nat)
    ensures var after := RecvBuffers(d, stream, os, n).0;
      after.sent == d.sent && after.frees == d.frees && after.closes == d.closes
  {
    if n > 0 {
      RecvBuffersQuiet(d, stream, os, n - 1);
      RecvBufferQuiet(RecvBuffers(d, stream, os, n - 1).0, stream, os);
    }
  }

  /** One buffer of RecvBuffersQuiet. */
  lemma RecvBufferQuiet(d: Dev, stream: nat -> Byte, os: Os)
    ensures var after := RecvBuffer(d, stream, os).0;
      after.sent == d.sent && after.frees == d.frees && after.closes == d.closes
  {
  }

  /** Receiving handles reads four bytes each and changes nothing else. */
  lemma {:induction false} RecvHandlesQuiet(d: Dev, stream: nat -> Byte, n: nat)
    ensures var after := RecvHandles(d, stream, n).0;
      after.pos == d.pos + HandleSize * n && after == d.(pos := after.pos, readSizes := after.readSizes)
  {
    if n > 0 {
      RecvHandlesQuiet(d, stream, n - 1);
    }
  }

  /**
   * `DispatchToService()` answers with the service's Result, then, only
   * after a zero one, the output data, the object records and the Out
   * buffers; on both paths it then frees every buffer it allocated itself.
   */
  lemma DispatchOutcome(d: Dev, stream: nat -> Byte, os: Os)
    ensures var (d1, hd, inData, slots, handles) := RecvRequest(d, stream, os);
      var ans := os.dispatch(hd, inData, Contents(d1.mem, os.initial, slots), handles);
      var after := DispatchSpec(d, stream, os);
      && after.frees == d.frees + Owned(slots)
      && after.mem == StoreAll(d1.mem, slots, ans.buffers)
      && Output(after) == Output(d) + EncodeResult(Result(ans.rc))
           + (if ans.rc == 0 then Flatten(Replies(hd, ans, slots, after.mem, os.initial)) else [])
  {
    var (d1, raw) := Recv(d, stream, HeaderSize);
    var hd := DecodeHeader(raw);
    var (d2, inData) := Recv(d1, stream, hd.inSize);
    RecvBuffersQuiet(d2, stream, os, hd.numBuffers);
    var (d3, slots) := RecvBuffers(d2, stream, os, hd.numBuffers);
    RecvHandlesQuiet(d3, stream, hd.inNumHandles);
    var (d4, handles) := RecvHandles(d3, stream, hd.inNumHandles);
    var ans := os.dispatch(hd, inData, Contents(d4.mem, os.initial, slots), handles);
    var e1 := Emit(d4.(mem := StoreAll(d4.mem, slots, ans.buffers)), EncodeResult(Result(ans.rc)));
    EmitOutput(d4.(mem := StoreAll(d4.mem, slots, ans.buffers)), EncodeResult(Result(ans.rc)));
    if ans.rc == 0 {
      EmitEachOutput(e1, Replies(hd, ans, slots, e1.mem, os.initial));
    } else {
      assert Output(e1) + [] == Output(e1);
    }
  }

  /** A command byte 0 (Exit) is answered with Result 0 and ends the loop. */
  lemma ServeExit(d: Dev, stream: nat -> Byte, os: Os, steps: nat)
    requires steps > 0 && stream(d.pos) == OpExit
    ensures var (after, exited) := ServeSpec(d, stream, os, steps);
      exited && after.pos == d.pos + 1 && Output(after) == Output(d) + Success()
  {
    var (d1, op) := Recv(d, stream, 1);
    assert op[0] == OpExit;
    EmitOutput(d1, Success());
  }

  /** An unknown command byte is answered with (396, 2), and the loop goes on with the next byte. */
  lemma ServeUnknown(d: Dev, stream: nat -> Byte, os: Os, steps: nat)
    requires steps > 0 && stream(d.pos) > OpDispatchToService
    ensures var d1 := Recv(d, stream, 1).0;
      && Output(Emit(d1, Status(2))) == Output(d) + Status(2)
      && ServeSpec(d, stream, os, steps) == ServeSpec(Emit(d1, Status(2)), stream, os, steps - 1)
  {
    UnknownTurn(d, stream, os);
    EmitOutput(Recv(d, stream, 1).0, Status(2));
  }

  /** The turn for a command byte past the last known command only answers status 2. */
  lemma UnknownTurn(d: Dev, stream: nat -> Byte, os: Os)
    requires stream(d.pos) > OpDispatchToService
    ensures TurnSpec(d, stream, os) == (Emit(Recv(d, stream, 1).0, Status(2)), false)
  {
    var (d1, op) := Recv(d, stream, 1);
    assert op[0] == stream(d.pos);
    CommandUnknown(d1, stream, os, op[0] as nat);
  }

  /** CommandSpec's last branch: every other command byte. */
  lemma CommandUnknown(d: Dev, stream: nat -> Byte, os: Os, op: nat)
    requires op > OpDispatchToService as nat
    ensures CommandSpec(d, stream, os, op) == (Emit(d, Status(2)), false)
  {
    assert op != OpExit as nat && op != OpAllocate as nat && op != OpFree as nat;
    assert op != OpRead as nat && op != OpWrite as nat && op != OpGetService as nat;
    assert op != OpCloseService as nat && op != OpConvertServiceToDomain as nat && op != OpDispatchToService as nat;
  }

  /**
   * `Write()` stores the payload at the record's address and answers Result
   * 0; a `Read()` of the same record afterwards answers Result 0 and that
   * payload. Memory the record does not cover is unchanged.
   */
  lemma WriteThenRead(d: Dev, stream: nat -> Byte, os: Os, q: nat, n: nat)
    ensures var info := DecodeMemInfo(Take(stream, d.pos, MemInfoSize));
      var data := Take(stream, d.pos + MemInfoSize, info.size);
      var w := WriteSpec(d, stream);
      && w.pos == d.pos + MemInfoSize + info.size
      && Output(w) == Output(d) + Success()
      && Load(w.mem, os.initial, info.ptr, info.size) == data
      && (q + n <= info.ptr || info.ptr + info.size <= q ==> Load(w.mem, os.initial, q, n) == Load(d.mem, os.initial, q, n))
      && (Take(stream, w.pos, MemInfoSize) == Take(stream, d.pos, MemInfoSize) ==>
            Output(ReadSpec(w, stream, os)) == Output(w) + Success() + data)
  {
    var (d1, rec) := Recv(d, stream, MemInfoSize);
    var info := DecodeMemInfo(rec);
    var (d2, data) := Recv(d1, stream, info.size);
    var w := d2.(mem := Store(d2.mem, info.ptr, data));
    EmitOutput(w, Success());
    StoreLoad(d2.mem, os.initial, info.ptr, data, q, n);
    var w1 := Emit(w, Success());
    var (r1, rec2) := Recv(w1, stream, MemInfoSize);
    EmitOutput(r1, Success());
    EmitOutput(Emit(r1, Success()), Load(r1.mem, os.initial, info.ptr, info.size));
  }
}
