/**
 * The host's commands (`Command` and its subclasses): each sends a one-byte
 * opcode and its fixed records through the handler, then reads the 4-byte
 * Result and, only when that is zero, the command's output.
 *
 * Every command is a method on the handler's logs.  What it sends is given
 * as the list of `write` calls it makes (a Sending), and what it reads as
 * an Effect computed from the bytes waiting from the device.
 */
module Commands {
  import opened Wire
  import opened Types
  import opened Layout
  import opened Usb

  /** The `write` calls a command makes, in order, and the exception that stopped it, if any. */
  datatype Sending = Sending(writes: seq<Bytes>, error: Option<Error>)

  /** A size argument: an int, or a ctypes type standing for its `sizeof`. */
  datatype SizeOrType = Size(n: int) | TypeOf(size: nat)

  function SizeOf(x: SizeOrType): int
  {
    match x
    case Size(n) => n
    case TypeOf(k) => k
  }

  /** What `h.read(size_or_type)` is asked for. */
  function ReadArgsOf(x: SizeOrType): seq<ReadArg>
  {
    match x
    case Size(n) => [Count(n)]
    case TypeOf(k) => [Shape(k)]
  }

  /** `h.read(cls.Output)`: None, or the output type. */
  function OutputArgs(output: Option<nat>): seq<ReadArg>
  {
    match output
    case None => [Absent]
    case Some(k) => [Shape(k)]
  }

  function OptBytes(b: Option<Bytes>): Bytes
  {
    match b
    case None => []
    case Some(x) => x
  }

  /** Writing one optional argument sends its bytes, or nothing for None. */
  lemma JoinOne(b: Option<Bytes>)
    ensures Join([b]) == OptBytes(b)
  {
    assert Join([b]) == OptBytes(b) + Join([]);
  }

  // ---------------------------------------------------------------------------
  // Reading replies

  /** Reading k > 0 bytes of one fixed-size value. */
  function FixedEffect(k: nat, m: Bytes, max: nat): (e: Effect<Bytes>)
    requires max > 0
    ensures e.outcome.Ok? <==> k <= |m|
    ensures e.outcome.Ok? ==> e.outcome.value + e.rest == m && |e.outcome.value| == k
  {
    if |m| < k then Effect(Fail(Timeout), [], Requests(k, |m|, max))
    else Effect(Ok(m[..k]), m[k..], ChunkSizes(k, max))
  }

  /**
   * Reading the Result word: a timeout, a ResultException carrying a nonzero
   * word, or success with the zero word.
   */
  function StatusEffect(m: Bytes, max: nat): Effect<Result>
    requires max > 0
  {
    var f := FixedEffect(ResultSize, m, max);
    if f.outcome.Fail? then Effect(Fail(f.outcome.error), f.rest, f.requests)
    else
      var w := DecodeResult(f.outcome.value);
      Effect(if w.value == 0 then Ok(w) else Fail(Failure(w)), f.rest, f.requests)
  }

  /** `first` followed by `next`, which was computed on the bytes first left; a failure stops the sequence. */
  function Then<A, B>(first: Effect<A>, next: Effect<B>): Effect<B>
  {
    if first.outcome.Fail? then Effect(Fail(first.outcome.error), first.rest, first.requests)
    else Effect(next.outcome, next.rest, first.requests + next.requests)
  }

  /** The reply side of `Command.execute`: the Result, then (only on success) the output. */
  function RunReply(m: Bytes, output: Option<nat>, max: nat): Effect<ReadValue>
    requires max > 0
  {
    var s := StatusEffect(m, max);
    Then(s, ReadEffect(OutputArgs(output), s.rest, max))
  }

  /** The Result, then (only on success) one fixed-size record. */
  function RecordReply(m: Bytes, k: nat, max: nat): (e: Effect<Bytes>)
    requires max > 0
    ensures e.outcome.Ok? ==> |e.outcome.value| == k
  {
    var s := StatusEffect(m, max);
    Then(s, FixedEffect(k, s.rest, max))
  }

  /**
   * A nonzero Result ends the reply: the failure carries that word and
   * nothing past the word is read.  A zero Result lets the output be read
   * from the bytes right after it.
   */
  lemma StatusStops(m: Bytes, output: Option<nat>, max: nat)
    requires max > 0 && |m| >= ResultSize
    ensures var w := DecodeResult(m[..ResultSize]);
      && (w.value != 0 ==> RunReply(m, output, max) == Effect(Fail(Failure(w)), m[ResultSize..], ChunkSizes(ResultSize, max)))
      && (w.value == 0 ==>
            var o := ReadEffect(OutputArgs(output), m[ResultSize..], max);
            RunReply(m, output, max) == Effect(o.outcome, o.rest, ChunkSizes(ResultSize, max) + o.requests))
      && (w.value == 0 && output.None? ==>
            RunReply(m, output, max) == Effect(Ok(NoValue), m[ResultSize..], ChunkSizes(ResultSize, max)))
  {
    assert ShapeTotal([Absent]) == 0 + ShapeTotal([]);
    assert ReadSize([Absent]) == Ok(0);
  }

  method ReadFixed(h: UsbCommandHandler, k: nat) returns (r: Outcome<Bytes>)
    requires h.Valid() && k > 0
    modifies h
    ensures var e := FixedEffect(k, old(h.inbox), h.maxRw);
      r == e.outcome && h.inbox == e.rest && h.requests == old(h.requests) + e.requests
    ensures h.sent == old(h.sent) && h.closed == old(h.closed)
  {
    assert ShapeTotal([Shape(k)]) == k + ShapeTotal([]);
    assert ReadSize([Shape(k)]) == Ok(k);
    var v := h.Read([Shape(k)]);
    if v.Fail? {
      return Fail(v.error);
    }
    ghost var d := old(h.inbox)[..k];
    assert Slices([Shape(k)], d) == [d[..k]] + Slices([], d[k..]);
    assert d[..k] == d;
    return Ok(v.value.image);
  }

  /** `result = h.read(Result); if result.value != 0: raise ResultException(result)`. */
  method CheckStatus(h: UsbCommandHandler) returns (r: Outcome<Result>)
    requires h.Valid()
    modifies h
    ensures var e := StatusEffect(old(h.inbox), h.maxRw);
      r == e.outcome && h.inbox == e.rest && h.requests == old(h.requests) + e.requests
    ensures h.sent == old(h.sent) && h.closed == old(h.closed)
  {
    var word := ReadFixed(h, ResultSize);
    if word.Fail? {
      return Fail(word.error);
    }
    var w := DecodeResult(word.value);
    if w.value != 0 {
      return Fail(Failure(w));
    }
    return Ok(w);
  }

  /** The tail every command shares: the Result, then, only when it is zero, `h.read` of the output. */
  method StatusThenRead(h: UsbCommandHandler, args: seq<ReadArg>) returns (r: Outcome<ReadValue>)
    requires h.Valid()
    modifies h
    ensures var s := StatusEffect(old(h.inbox), h.maxRw);
      var e := Then(s, ReadEffect(args, s.rest, h.maxRw));
      r == e.outcome && h.inbox == e.rest && h.requests == old(h.requests) + e.requests
    ensures h.sent == old(h.sent) && h.closed == old(h.closed)
  {
    var status := CheckStatus(h);
    if status.Fail? {
      return Fail(status.error);
    }
    r := h.Read(args);
  }

  /** The Result and, only when it is zero, a record of k bytes. */
  method ReadRecord(h: UsbCommandHandler, k: nat) returns (r: Outcome<Bytes>)
    requires h.Valid() && k > 0
    modifies h
    ensures var e := RecordReply(old(h.inbox), k, h.maxRw);
      r == e.outcome && h.inbox == e.rest && h.requests == old(h.requests) + e.requests
    ensures h.sent == old(h.sent) && h.closed == old(h.closed)
  {
    var status := CheckStatus(h);
    if status.Fail? {
      return Fail(status.error);
    }
    r := ReadFixed(h, k);
  }

  // ---------------------------------------------------------------------------
  // Command.execute

  /**
   * The generic command: the opcode byte, then the input record (nothing
   * when the command has none), then the Result, then the output.
   */
  method Run(h: UsbCommandHandler, id: u8, input: Option<Bytes>, output: Option<nat>) returns (r: Outcome<ReadValue>)
    requires h.Valid()
    modifies h
    ensures h.sent == old(h.sent) + Chunks([id], h.maxRw) + Chunks(OptBytes(input), h.maxRw)
    ensures var e := RunReply(old(h.inbox), output, h.maxRw);
      r == e.outcome && h.inbox == e.rest && h.requests == old(h.requests) + e.requests
    ensures h.closed == old(h.closed)
  {
    h.Send([id]);
    h.Write([input]);
    JoinOne(input);
    r := StatusThenRead(h, OutputArgs(output));
  }

  /** `Exit`: the generic command with opcode 0; the handler is marked closed only once the device has answered 0. */
  method Exit(h: UsbCommandHandler) returns (r: Outcome<ReadValue>)
    requires h.Valid()
    modifies h
    ensures h.sent == old(h.sent) + Chunks([OpExit], h.maxRw)
    ensures var e := RunReply(old(h.inbox), None, h.maxRw);
      r == e.outcome && h.inbox == e.rest && h.requests == old(h.requests) + e.requests
    ensures h.closed == (old(h.closed) || r.Ok?)
  {
    r := Run(h, OpExit, None, None);
    if r.Ok? {
      h.closed := true;
    }
  }

  // ---------------------------------------------------------------------------
  // Allocate

  /** The allocator names Allocate accepts and their codes; any other name is a KeyError. */
  function AllocCode(alloc: string): Option<u8>
  {
    if alloc == "malloc" then Some(KindMalloc)
    else if alloc == "calloc" then Some(KindCalloc)
    else if alloc == "memalign" then Some(KindMemalign)
    else None
  }

  /**
   * What Allocate sends: the opcode, then (the name looked up only now, so
   * a bad name fails after the opcode went out) the rest of the request.
   */
  function AllocateSending(alloc: string, size: SizeOrType, align: Option<int>): Sending
  {
    var t := AfterOpcode(AllocCode(alloc), size, align);
    Sending([[OpAllocate]] + t.writes, t.error)
  }

  /** The part of Allocate's request after the opcode: a KeyError for an unknown name, else the record. */
  function AfterOpcode(code: Option<u8>, size: SizeOrType, align: Option<int>): Sending
  {
    match code
    case None => Sending([], Some(KeyError))
    case Some(kind) => RecordSending(kind, size, align)
  }

  /**
   * The `{type, size}` record, the size truncated to 64 bits, then for
   * memalign the 8-byte alignment, which must not be None.
   */
  function RecordSending(kind: u8, size: SizeOrType, align: Option<int>): Sending
  {
    var rec := EncodeAllocation(Allocation(kind, Wrap(SizeOf(size), 8)));
    if kind != KindMemalign then Sending([rec], None)
    else if align.None? then Sending([rec], Some(TypeError))
    else Sending([rec, LE(align.value, 8)], None)
  }

  /** The bytes of Allocate's request, in the cases it is sent in full. */
  lemma AllocateRequest(alloc: string, size: SizeOrType, align: Option<int>)
    ensures var s := AllocateSending(alloc, size, align);
      && |s.writes| >= 1 && s.writes[0] == [OpAllocate]
      && (s.error == Some(KeyError) <==> AllocCode(alloc).None?)
      && (s.error == Some(TypeError) <==> alloc == "memalign" && align.None?)
      && (s.error.None? ==>
            Flatten(s.writes) == [OpAllocate] + EncodeAllocation(Allocation(AllocCode(alloc).value, Wrap(SizeOf(size), 8)))
              + (if alloc == "memalign" then LE(align.value, 8) else []))
  {
    var s := AllocateSending(alloc, size, align);
    if s.error.None? {
      var rec := EncodeAllocation(Allocation(AllocCode(alloc).value, Wrap(SizeOf(size), 8)));
      if alloc == "memalign" {
        var a := LE(align.value, 8);
        assert s.writes == [[OpAllocate], rec, a];
        assert Flatten([a]) == a + Flatten([]);
        assert Flatten([rec, a]) == rec + Flatten([a]);
        assert Flatten(s.writes) == [OpAllocate] + Flatten([rec, a]);
      } else {
        assert s.writes == [[OpAllocate], rec];
        assert Flatten([rec]) == rec + Flatten([]);
        assert Flatten(s.writes) == [OpAllocate] + Flatten([rec]);
      }
    }
  }

  /** The sending half of Allocate. */
  method SendAllocate(h: UsbCommandHandler, alloc: string, size: SizeOrType, align: Option<int>) returns (err: Option<Error>)
    requires h.Valid()
    modifies h
    ensures var s := AllocateSending(alloc, size, align);
      h.sent == old(h.sent) + Transfers(s.writes, h.maxRw) && err == s.error
    ensures h.inbox == old(h.inbox) && h.requests == old(h.requests) && h.closed == old(h.closed)
  {
    ghost var s0 := h.sent;
    h.SendEach([[OpAllocate]]);
    ghost var s1 := h.sent;
    var code := AllocCode(alloc);
    ghost var t := AfterOpcode(code, size, align);
    err := SendRest(h, code, size, align);
    TransfersConcat([[OpAllocate]], t.writes, h.maxRw);
    AppendAssoc(s0, Transfers([[OpAllocate]], h.maxRw), Transfers(t.writes, h.maxRw));
  }

  /** What follows the opcode: nothing for an unknown name, else the record. */
  method SendRest(h: UsbCommandHandler, code: Option<u8>, size: SizeOrType, align: Option<int>) returns (err: Option<Error>)
    requires h.Valid()
    modifies h
    ensures var t := AfterOpcode(code, size, align);
      h.sent == old(h.sent) + Transfers(t.writes, h.maxRw) && err == t.error
    ensures h.inbox == old(h.inbox) && h.requests == old(h.requests) && h.closed == old(h.closed)
  {
    if code.None? {
      return Some(KeyError);
    }
    var kind := code.value;
    var rec := EncodeAllocation(Allocation(kind, Wrap(SizeOf(size), 8)));
    if kind == KindMemalign && align.Some? {
      h.SendEach([rec, LE(align.value, 8)]);
    } else {
      h.SendEach([rec]);
    }
    if kind == KindMemalign && align.None? {
      return Some(TypeError);
    }
    return None;
  }

  lemma MemalignCode(alloc: string)
    ensures AllocCode(alloc) == Some(KindMemalign) <==> alloc == "memalign"
  {
  }

  /**
   * `Allocate`: its request as AllocateSending says, then the Result and, on
   * success, the 8-byte pointer.
   */
  method Allocate(h: UsbCommandHandler, alloc: string, size: SizeOrType, align: Option<int>) returns (r: Outcome<nat>)
    requires h.Valid()
    modifies h
    ensures var s := AllocateSending(alloc, size, align);
      && h.sent == old(h.sent) + Transfers(s.writes, h.maxRw)
      && (s.error.Some? ==> r == Fail(s.error.value) && h.inbox == old(h.inbox) && h.requests == old(h.requests))
      && (s.error.None? ==>
            var e := RecordReply(old(h.inbox), PointerSize, h.maxRw);
            && h.inbox == e.rest && h.requests == old(h.requests) + e.requests
            && (r.Ok? <==> e.outcome.Ok?)
            && (r.Ok? ==> r.value == FromLE(e.outcome.value))
            && (r.Fail? ==> r.error == e.outcome.error))
    ensures h.closed == old(h.closed)
  {
    var err := SendAllocate(h, alloc, size, align);
    if err.Some? {
      return Fail(err.value);
    }
    var ptr := ReadRecord(h, PointerSize);
    if ptr.Fail? {
      return Fail(ptr.error);
    }
    return Ok(FromLE(ptr.value));
  }

  // ---------------------------------------------------------------------------
  // Free, Read, Write

  /** `Free`: the generic command with a `c_void_p` input built from the pointer. */
  method Free(h: UsbCommandHandler, ptr: int) returns (r: Outcome<ReadValue>)
    requires h.Valid()
    modifies h
    ensures h.sent == old(h.sent) + Chunks([OpFree], h.maxRw) + Chunks(LE(ptr, PointerSize), h.maxRw)
    ensures var e := RunReply(old(h.inbox), None, h.maxRw);
      r == e.outcome && h.inbox == e.rest && h.requests == old(h.requests) + e.requests
    ensures h.closed == old(h.closed)
  {
    r := Run(h, OpFree, Some(LE(ptr, PointerSize)), None);
  }

  /** The `{ptr, size}` record of Read and Write, each field truncated to 64 bits. */
  function InfoImage(ptr: int, size: int): Bytes
  {
    EncodeMemInfo(MemInfo(Wrap(ptr, 8), Wrap(size, 8)))
  }

  /**
   * `Read`: `{ptr, size}` out, then the Result, then exactly the bytes asked
   * for (an int) or one value of the type.
   */
  method Read(h: UsbCommandHandler, ptr: int, size: SizeOrType) returns (r: Outcome<ReadValue>)
    requires h.Valid()
    modifies h
    ensures h.sent == old(h.sent) + Chunks([OpRead], h.maxRw) + Chunks(InfoImage(ptr, SizeOf(size)), h.maxRw)
    ensures var s := StatusEffect(old(h.inbox), h.maxRw);
      var e := Then(s, ReadEffect(ReadArgsOf(size), s.rest, h.maxRw));
      r == e.outcome && h.inbox == e.rest && h.requests == old(h.requests) + e.requests
    ensures h.closed == old(h.closed)
  {
    var info := InfoImage(ptr, SizeOf(size));
    h.Send([OpRead]);
    h.Send(info);
    r := StatusThenRead(h, ReadArgsOf(size));
  }

  /** A Read answered with success returns exactly the bytes that followed the Result. */
  lemma ReadReturnsPayload(n: nat, payload: Bytes, rest: Bytes, max: nat)
    requires max > 0 && |payload| == n > 0
    ensures var m := EncodeResult(Result(0)) + payload + rest;
      var s := StatusEffect(m, max);
      Then(s, ReadEffect([Count(n)], s.rest, max)).outcome == Ok(Raw(payload))
  {
    var m := EncodeResult(Result(0)) + payload + rest;
    assert m[..ResultSize] == EncodeResult(Result(0));
    ResultRoundTrip(Result(0));
    assert m[ResultSize..] == payload + rest;
    assert (payload + rest)[..n] == payload;
  }

  /**
   * `Write`: `{ptr, size}` out with the length of the payload, then the
   * payload itself (the bytes of a bytes object or of a ctypes value), then
   * the Result and nothing more.
   */
  method Write(h: UsbCommandHandler, ptr: int, payload: Bytes) returns (r: Outcome<Result>)
    requires h.Valid()
    modifies h
    ensures h.sent == old(h.sent) + Chunks([OpWrite], h.maxRw) + Chunks(InfoImage(ptr, |payload|), h.maxRw) + Chunks(payload, h.maxRw)
    ensures var e := StatusEffect(old(h.inbox), h.maxRw);
      r == e.outcome && h.inbox == e.rest && h.requests == old(h.requests) + e.requests
    ensures h.closed == old(h.closed)
  {
    var info := InfoImage(ptr, |payload|);
    h.Send([OpWrite]);
    h.Send(info);
    h.Send(payload);
    r := CheckStatus(h);
  }

  // ---------------------------------------------------------------------------
  // Service commands

  /**
   * `GetService`: the name is packed into an `SmServiceName` before anything
   * is sent (a name over eight bytes raises ValueError and sends nothing);
   * on success one service record is read back.
   */
  method GetService(h: UsbCommandHandler, name: Bytes) returns (r: Outcome<ServiceStruct>)
    requires h.Valid()
    modifies h
    ensures EncodeName(name).None? ==> r == Fail(ValueError) && unchanged(h)
    ensures EncodeName(name).Some? ==>
      && h.sent == old(h.sent) + Chunks([OpGetService], h.maxRw) + Chunks(EncodeName(name).value, h.maxRw)
      && var e := RecordReply(old(h.inbox), ServiceSize, h.maxRw);
      && h.inbox == e.rest && h.requests == old(h.requests) + e.requests
      && (r.Ok? <==> e.outcome.Ok?)
      && (r.Ok? ==> r.value == DecodeService(e.outcome.value))
      && (r.Fail? ==> r.error == e.outcome.error)
    ensures h.closed == old(h.closed)
  {
    var input := EncodeName(name);
    if input.None? {
      return Fail(ValueError);
    }
    var v := Run(h, OpGetService, input, Some(ServiceSize));
    ghost var s := StatusEffect(old(h.inbox), h.maxRw);
    if v.Fail? {
      return Fail(v.error);
    }
    ghost var d := s.rest[..ServiceSize];
    assert Slices([Shape(ServiceSize)], d) == [d[..ServiceSize]] + Slices([], d[ServiceSize..]);
    assert d[..ServiceSize] == d;
    return Ok(DecodeService(v.value.image));
  }

  /** `CloseService`: the record is already an input instance and goes out as it is; nothing is read after the Result. */
  method CloseService(h: UsbCommandHandler, s: ServiceStruct) returns (r: Outcome<ReadValue>)
    requires h.Valid()
    modifies h
    ensures h.sent == old(h.sent) + Chunks([OpCloseService], h.maxRw) + Chunks(EncodeService(s), h.maxRw)
    ensures var e := RunReply(old(h.inbox), None, h.maxRw);
      r == e.outcome && h.inbox == e.rest && h.requests == old(h.requests) + e.requests
    ensures h.closed == old(h.closed)
  {
    r := Run(h, OpCloseService, Some(EncodeService(s)), None);
  }

  /** `ConvertServiceToDomain`: the record goes out as it is, and on success the converted record comes back. */
  method ConvertServiceToDomain(h: UsbCommandHandler, s: ServiceStruct) returns (r: Outcome<ServiceStruct>)
    requires h.Valid()
    modifies h
    ensures h.sent == old(h.sent) + Chunks([OpConvertServiceToDomain], h.maxRw) + Chunks(EncodeService(s), h.maxRw)
    ensures var e := RecordReply(old(h.inbox), ServiceSize, h.maxRw);
      && h.inbox == e.rest && h.requests == old(h.requests) + e.requests
      && (r.Ok? <==> e.outcome.Ok?)
      && (r.Ok? ==> r.value == DecodeService(e.outcome.value))
      && (r.Fail? ==> r.error == e.outcome.error)
    ensures h.closed == old(h.closed)
  {
    var v := Run(h, OpConvertServiceToDomain, Some(EncodeService(s)), Some(ServiceSize));
    ghost var st := StatusEffect(old(h.inbox), h.maxRw);
    if v.Fail? {
      return Fail(v.error);
    }
    ghost var d := st.rest[..ServiceSize];
    assert Slices([Shape(ServiceSize)], d) == [d[..ServiceSize]] + Slices([], d[ServiceSize..]);
    assert d[..ServiceSize] == d;
    return Ok(DecodeService(v.value.image));
  }

  /** A record answered with success decodes to the record the device sent. */
  lemma RecordReplyDecodes(s: ServiceStruct, rest: Bytes, max: nat)
    requires max > 0
    ensures var e := RecordReply(EncodeResult(Result(0)) + EncodeService(s) + rest, ServiceSize, max);
      e.outcome.Ok? && DecodeService(e.outcome.value) == s && e.rest == rest
  {
    var m := EncodeResult(Result(0)) + EncodeService(s) + rest;
    assert m[..ResultSize] == EncodeResult(Result(0));
    ResultRoundTrip(Result(0));
    assert m[ResultSize..] == EncodeService(s) + rest;
    assert (EncodeService(s) + rest)[..ServiceSize] == EncodeService(s);
    assert (EncodeService(s) + rest)[ServiceSize..] == rest;
    ServiceRoundTrip(s);
  }

  /** A failure word ends the reply with that word, whatever follows it. */
  lemma FailureStopsReply(w: Result, rest: Bytes, k: nat, max: nat)
    requires max > 0 && w.value != 0
    ensures RecordReply(EncodeResult(w) + rest, k, max) == Effect(Fail(Failure(w)), rest, ChunkSizes(ResultSize, max))
  {
    var m := EncodeResult(w) + rest;
    assert m[..ResultSize] == EncodeResult(w);
    assert m[ResultSize..] == rest;
    ResultRoundTrip(w);
  }
}
