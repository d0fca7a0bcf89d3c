/**
 * The host's `DispatchToService` command: the opcode, the 48-byte header,
 * the input data, then for every buffer its descriptor and (for a pointer,
 * or when the In bit is set) its payload, then the handles.  The reply is
 * the Result and, only when it is zero, the output value, the returned
 * service records and the Out buffers, in that order.
 */
module Dispatch {
  import opened Wire
  import opened Types
  import opened Layout
  import opened Usb
  import opened Commands
  import Util

  /**
   * A Python object given as a buffer or a handle: an int, a ctypes type
   * (by its size), bytes or a bytearray, a ctypes value (by its image), a
   * `c_void_p` (by its address), None, or any other object, which neither
   * `sizeof` nor `bytes` accepts.
   */
  datatype Arg =
    | IntArg(n: int)
    | TypeArg(size: nat)
    | BytesArg(b: Bytes)
    | ValueArg(image: Bytes)
    | PointerArg(addr: int)
    | NoneArg
    | OtherArg

  /** An entry of `buffers`: `(first, attr)`, or `((first, size), attr)` with the size given explicitly. */
  datatype BufferEntry =
    | Entry(first: Arg, attr: AttrOperand)
    | SizedEntry(first: Arg, size: int, attr: AttrOperand)

  /** The arguments of `execute`; of `in_objects` only the number is used. */
  datatype Request = Request(
    service: ServiceStruct,
    requestId: int,
    inData: Option<Bytes>,
    outType: Option<nat>,
    targetSession: int,
    context: int,
    buffers: seq<BufferEntry>,
    inSendPid: bool,
    inObjects: nat,
    inHandles: seq<Arg>,
    outNumObjects: int,
    outNumHandles: int)

  /** The dictionary `execute` returns: its "out", "objects" and "buffers" keys. */
  datatype DispatchOut = DispatchOut(out: ReadValue, objects: seq<ServiceStruct>, buffers: seq<ReadValue>)

  // ---------------------------------------------------------------------------
  // The request

  /** An attribute as an int: a member is replaced by its value. */
  function AttrValue(a: AttrOperand): nat
  {
    match a
    case Member(m) => m.Value()
    case Bits(n) => n
  }

  /** How the buffer loop settles an entry: the size for its descriptor, its attribute, and the object it stands for. */
  datatype Resolved = Resolved(size: int, attr: nat, first: Arg)

  /**
   * An explicit size is taken as given, attribute untouched.  Otherwise an
   * int or a type is an output of that size and gets the Out bit, and bytes,
   * a ctypes value or a pointer are an input of their own size and get the
   * In bit; anything else has no size (TypeError).
   */
  function Resolve(e: BufferEntry): Outcome<Resolved>
  {
    match e
    case SizedEntry(first, size, attr) => Ok(Resolved(size, AttrValue(attr), first))
    case Entry(first, attr) =>
      var asOut := Util.Or(AttrValue(attr), SfBufferAttr.Out.Value());
      var asIn := Util.Or(AttrValue(attr), SfBufferAttr.In.Value());
      match first
      case IntArg(n) => Ok(Resolved(n, asOut, first))
      case TypeArg(k) => Ok(Resolved(k, asOut, first))
      case BytesArg(b) => Ok(Resolved(|b|, asIn, first))
      case ValueArg(image) => Ok(Resolved(|image|, asIn, first))
      case PointerArg(_) => Ok(Resolved(PointerSize, asIn, first))
      case NoneArg => Fail(TypeError)
      case OtherArg => Fail(TypeError)
  }

  /** The attribute the buffer loop records for an entry (an entry that cannot be sized records none; 0 stands in). */
  function AttrOf(e: BufferEntry): nat
  {
    match Resolve(e)
    case Ok(r) => r.attr
    case Fail(_) => 0
  }

  /** `buffer_attrs`: the recorded attributes, in entry order. */
  function AttrsOf(bs: seq<BufferEntry>): (attrs: seq<nat>)
    ensures |attrs| == |bs|
  {
    if bs == [] then [] else AttrsOf(bs[..|bs| - 1]) + [AttrOf(bs[|bs| - 1])]
  }

  /** The i-th recorded attribute is the i-th entry's. */
  lemma {:induction false} AttrsOfIndex(bs: seq<BufferEntry>, i: nat)
    requires i < |bs|
    ensures AttrsOf(bs)[i] == AttrOf(bs[i])
    decreases |bs|
  {
    if i < |bs| - 1 {
      AttrsOfIndex(bs[..|bs| - 1], i);
    }
  }

  /**
   * `bytes(x)` as `write` takes it: an int n gives n zero bytes (a negative
   * one raises ValueError), None gives nothing, a type or any other object
   * raises TypeError.
   */
  function ArgBytes(x: Arg): Outcome<Bytes>
  {
    match x
    case IntArg(n) => if n < 0 then Fail(ValueError) else Ok(Zeros(n))
    case TypeArg(_) => Fail(TypeError)
    case BytesArg(b) => Ok(b)
    case ValueArg(image) => Ok(image)
    case PointerArg(addr) => Ok(LE(addr, PointerSize))
    case NoneArg => Ok([])
    case OtherArg => Fail(TypeError)
  }

  /** The descriptor record, each field truncated to its width; only a `c_void_p` is a pointer. */
  function Descriptor(r: Resolved): BufferDesc
  {
    Widths();
    BufferDesc(Wrap(r.size, 8), Wrap(r.attr, 4), r.first.PointerArg?)
  }

  /** A pointer is followed by its address, any other buffer by its contents when the In bit is set. */
  predicate SendsPayload(r: Resolved)
  {
    r.first.PointerArg? || IsIn(r.attr)
  }

  /** The `write` calls for one buffer entry. */
  function BufferSending(e: BufferEntry): Sending
  {
    match Resolve(e)
    case Fail(err) => Sending([], Some(err))
    case Ok(r) =>
      var desc := EncodeBufferDesc(Descriptor(r));
      if !SendsPayload(r) then Sending([desc], None)
      else match ArgBytes(r.first)
        case Fail(err) => Sending([desc], Some(err))
        case Ok(p) => Sending([desc, p], None)
  }

  /** The `write` call for one handle. */
  function HandleSending(x: Arg): Sending
  {
    match ArgBytes(x)
    case Fail(err) => Sending([], Some(err))
    case Ok(b) => Sending([b], None)
  }

  /** a, then b unless a raised. */
  function Followed(a: Sending, b: Sending): Sending
  {
    if a.error.Some? then a else Sending(a.writes + b.writes, b.error)
  }

  /** The steps of a loop, in order, stopping at the first that raises. */
  function FollowAll(ss: seq<Sending>): Sending
  {
    if ss == [] then Sending([], None) else Followed(FollowAll(ss[..|ss| - 1]), ss[|ss| - 1])
  }

  function BufferSendings(bs: seq<BufferEntry>): (ss: seq<Sending>)
    ensures |ss| == |bs| && forall i :: 0 <= i < |bs| ==> ss[i] == BufferSending(bs[i])
  {
    seq(|bs|, i requires 0 <= i < |bs| => BufferSending(bs[i]))
  }

  function HandleSendings(hs: seq<Arg>): (ss: seq<Sending>)
    ensures |ss| == |hs| && forall i :: 0 <= i < |hs| ==> ss[i] == HandleSending(hs[i])
  {
    seq(|hs|, i requires 0 <= i < |hs| => HandleSending(hs[i]))
  }

  function OutSize(outType: Option<nat>): nat
  {
    match outType
    case None => 0
    case Some(k) => k
  }

  /** The header as the host fills it: the sizes and counts of the request, each truncated to its field. */
  function HostHeader(req: Request): Header
  {
    Widths();
    Header(
      req.service, Wrap(req.requestId, 4), Wrap(|OptBytes(req.inData)|, 4), Wrap(OutSize(req.outType), 4),
      Wrap(req.targetSession, 4), Wrap(req.context, 4), Wrap(|req.buffers|, 1), req.inSendPid,
      Wrap(req.inObjects, 1), Wrap(|req.inHandles|, 1), Wrap(req.outNumObjects, 4), Wrap(req.outNumHandles, 1))
  }

  /** The opcode, the header and the input data: three `write` calls that cannot raise. */
  function HeadWrites(req: Request): seq<Bytes>
  {
    [[OpDispatchToService], EncodeHeader(HostHeader(req)), OptBytes(req.inData)]
  }

  /** Everything `execute` writes, and the exception that stopped it, if any. */
  function DispatchSending(req: Request): Sending
  {
    Followed(
      Followed(Sending(HeadWrites(req), None), FollowAll(BufferSendings(req.buffers))),
      FollowAll(HandleSendings(req.inHandles)))
  }

  // ---------------------------------------------------------------------------
  // Properties of the request

  lemma FollowAllStep(ss: seq<Sending>, i: nat)
    requires i < |ss|
    ensures FollowAll(ss[..i + 1]) == Followed(FollowAll(ss[..i]), ss[i])
  {
    assert ss[..i + 1][..i] == ss[..i];
  }

  /** Once a prefix of the steps has raised, the rest of the steps change nothing. */
  lemma {:induction false} FollowAllPrefix(ss: seq<Sending>, i: nat)
    requires i <= |ss| && FollowAll(ss[..i]).error.Some?
    ensures FollowAll(ss) == FollowAll(ss[..i])
    decreases |ss| - i
  {
    if i < |ss| {
      FollowAllStep(ss, i);
      FollowAllPrefix(ss, i + 1);
    } else {
      assert ss[..i] == ss;
    }
  }

  /**
   * The loop raises exactly when some step raises, and then with the
   * exception of the first step that does; otherwise its writes are those of
   * every step, back to back.
   */
  lemma {:induction false} FollowAllError(ss: seq<Sending>)
    ensures FollowAll(ss).error.None? <==> forall i :: 0 <= i < |ss| ==> ss[i].error.None?
    ensures FollowAll(ss).error.Some? ==>
      exists k :: 0 <= k < |ss| && FollowAll(ss).error == ss[k].error
        && forall j :: 0 <= j < k ==> ss[j].error.None?
  {
    if ss != [] {
      var n := |ss| - 1;
      var init := ss[..n];
      FollowAllError(init);
      assert forall i :: 0 <= i < n ==> init[i] == ss[i];
      if FollowAll(init).error.Some? {
        var k :| 0 <= k < |init| && FollowAll(init).error == init[k].error
          && forall j :: 0 <= j < k ==> init[j].error.None?;
        assert ss[k].error.Some?;
      }
    }
  }

  /**
   * The request raises exactly when some buffer cannot be sized or its
   * payload cannot be turned into bytes, or some handle cannot.
   */
  lemma DispatchRaises(req: Request)
    ensures DispatchSending(req).error.None? <==>
      (forall i :: 0 <= i < |req.buffers| ==> BufferSending(req.buffers[i]).error.None?)
      && (forall j :: 0 <= j < |req.inHandles| ==> ArgBytes(req.inHandles[j]).Ok?)
  {
    var bs := BufferSendings(req.buffers);
    var hs := HandleSendings(req.inHandles);
    FollowAllOk(bs);
    FollowAllOk(hs);
    assert DispatchSending(req).error.None? <==> FollowAll(bs).error.None? && FollowAll(hs).error.None?;
    forall j | 0 <= j < |hs|
      ensures hs[j].error.None? <==> ArgBytes(req.inHandles[j]).Ok?
    {
    }
  }

  /** The first half of FollowAllError: the loop raises nothing exactly when no step raises. */
  lemma FollowAllOk(ss: seq<Sending>)
    ensures FollowAll(ss).error.None? <==> forall i :: 0 <= i < |ss| ==> ss[i].error.None?
  {
    FollowAllError(ss);
  }

  /**
   * Sizing an entry: an explicit size keeps the attribute; an int or a type
   * gains the Out bit, bytes, a value or a pointer the In bit; every bit the
   * caller set is kept; only None and other objects cannot be sized.
   */
  lemma ResolveBits(e: BufferEntry, i: nat)
    ensures Resolve(e).Fail? <==> e.Entry? && (e.first.NoneArg? || e.first.OtherArg?)
    ensures Resolve(e).Ok? ==> Resolve(e).value.first == e.first
    ensures Resolve(e).Ok? && Util.TestBit(AttrValue(e.attr), i) ==> Util.TestBit(Resolve(e).value.attr, i)
    ensures e.SizedEntry? ==> Resolve(e).value.attr == AttrValue(e.attr) && Resolve(e).value.size == e.size
    ensures e.Entry? && (e.first.IntArg? || e.first.TypeArg?) ==> IsOut(Resolve(e).value.attr)
    ensures e.Entry? && (e.first.BytesArg? || e.first.ValueArg? || e.first.PointerArg?) ==> IsIn(Resolve(e).value.attr)
  {
    var a := AttrValue(e.attr);
    Util.OrBit(a, SfBufferAttr.Out.Value(), i);
    Util.OrBit(a, SfBufferAttr.In.Value(), i);
    Util.OrBit(a, SfBufferAttr.Out.Value(), SfBufferAttr.Out.Index());
    Util.OrBit(a, SfBufferAttr.In.Value(), SfBufferAttr.In.Index());
    Util.Pow2Bit(SfBufferAttr.Out.Index(), SfBufferAttr.Out.Index());
    Util.Pow2Bit(SfBufferAttr.In.Index(), SfBufferAttr.In.Index());
  }

  /**
   * Without an explicit size the payload that follows a descriptor has
   * exactly the size the descriptor announces.
   */
  lemma PayloadMatchesDescriptor(e: BufferEntry)
    requires e.Entry? && Resolve(e).Ok? && ArgBytes(e.first).Ok?
    ensures |ArgBytes(e.first).value| == Resolve(e).value.size
  {
  }

  // ---------------------------------------------------------------------------
  // The reply

  /** What `h.read(first)` is given when a buffer is read back. */
  function ReadArgOf(first: Arg): seq<ReadArg>
  {
    match first
    case IntArg(n) => [Count(n)]
    case TypeArg(k) => [Shape(k)]
    case ValueArg(image) => [Instance(|image|)]
    case PointerArg(_) => [Instance(PointerSize)]
    case NoneArg => [Absent]
    case BytesArg(_) => [Unsized]
    case OtherArg => [Unsized]
  }

  /** The read-back loop reads an entry only when it has no explicit size and its attribute has the Out bit. */
  function BufferReadArgs(e: BufferEntry): Option<seq<ReadArg>>
  {
    if e.SizedEntry? || !IsOut(AttrOf(e)) then None else Some(ReadArgOf(e.first))
  }

  /** A list read so far, then one more value read from the bytes it left. */
  function Append<T>(p: Effect<seq<T>>, e: Effect<T>): Effect<seq<T>>
  {
    if p.outcome.Fail? then p
    else if e.outcome.Fail? then Effect(Fail(e.outcome.error), e.rest, p.requests + e.requests)
    else Effect(Ok(p.outcome.value + [e.outcome.value]), e.rest, p.requests + e.requests)
  }

  /** The read-back loop over the buffers, against the bytes m waiting. */
  function BuffersReply(bs: seq<BufferEntry>, m: Bytes, max: nat): Effect<seq<ReadValue>>
    requires max > 0
  {
    if bs == [] then Effect(Ok([]), m, [])
    else
      var p := BuffersReply(bs[..|bs| - 1], m, max);
      match BufferReadArgs(bs[|bs| - 1])
      case None => p
      case Some(args) => Append(p, ReadEffect(args, p.rest, max))
  }

  /** The returned service records: none without a read when the count is not positive, else one array of n records. */
  function ObjectsEffect(n: int, m: Bytes, max: nat): Effect<seq<ServiceStruct>>
    requires max > 0
  {
    if n <= 0 then Effect(Ok([]), m, [])
    else
      var f := FixedEffect(ServiceSize * n, m, max);
      if f.outcome.Fail? then Effect(Fail(f.outcome.error), f.rest, f.requests)
      else Effect(Ok(DecodeServices(f.outcome.value, n)), f.rest, f.requests)
  }

  /** The whole reply: the Result, then the output value, the records and the buffers, each only after the last succeeded. */
  function DispatchReply(req: Request, m: Bytes, max: nat): Effect<DispatchOut>
    requires max > 0
  {
    var s := StatusEffect(m, max);
    var o := ReadEffect(OutputArgs(req.outType), s.rest, max);
    var ob := ObjectsEffect(req.outNumObjects, o.rest, max);
    var b := BuffersReply(req.buffers, ob.rest, max);
    if s.outcome.Fail? then Effect(Fail(s.outcome.error), s.rest, s.requests)
    else if o.outcome.Fail? then Effect(Fail(o.outcome.error), o.rest, s.requests + o.requests)
    else if ob.outcome.Fail? then Effect(Fail(ob.outcome.error), ob.rest, s.requests + o.requests + ob.requests)
    else if b.outcome.Fail? then Effect(Fail(b.outcome.error), b.rest, s.requests + o.requests + ob.requests + b.requests)
    else Effect(
      Ok(DispatchOut(o.outcome.value, ob.outcome.value, b.outcome.value)),
      b.rest, s.requests + o.requests + ob.requests + b.requests)
  }

  // ---------------------------------------------------------------------------
  // Properties of the reply

  lemma BuffersReplyStep(bs: seq<BufferEntry>, i: nat, m: Bytes, max: nat)
    requires max > 0 && i < |bs|
    ensures var p := BuffersReply(bs[..i], m, max);
      BuffersReply(bs[..i + 1], m, max) ==
        match BufferReadArgs(bs[i])
        case None => p
        case Some(args) => Append(p, ReadEffect(args, p.rest, max))
  {
    assert bs[..i + 1][..i] == bs[..i];
  }

  /** Once the read-back has failed, the later entries read nothing more. */
  lemma {:induction false} BuffersReplyPrefix(bs: seq<BufferEntry>, i: nat, m: Bytes, max: nat)
    requires max > 0 && i <= |bs| && BuffersReply(bs[..i], m, max).outcome.Fail?
    ensures BuffersReply(bs, m, max) == BuffersReply(bs[..i], m, max)
    decreases |bs| - i
  {
    if i < |bs| {
      BuffersReplyStep(bs, i, m, max);
      BuffersReplyPrefix(bs, i + 1, m, max);
    } else {
      assert bs[..i] == bs;
    }
  }

  /** The number of entries the read-back loop reads. */
  function ReadCount(bs: seq<BufferEntry>): nat
  {
    if bs == [] then 0
    else ReadCount(bs[..|bs| - 1]) + (if BufferReadArgs(bs[|bs| - 1]).Some? then 1 else 0)
  }

  /**
   * An entry whose read-back raises: `h.read(first)` on a ctypes value or a
   * `c_void_p` of nonzero size receives its bytes and then cannot decode
   * into an instance (AttributeError), or times out first.
   */
  predicate ReadBackRaises(e: BufferEntry)
  {
    && BufferReadArgs(e).Some?
    && ((e.first.ValueArg? && |e.first.image| > 0) || e.first.PointerArg?)
  }

  /**
   * A successful read-back returns one value per entry without an explicit
   * size whose attribute has the Out bit, and nothing for any other entry;
   * it succeeds only when no such entry is a ctypes value or a pointer of
   * nonzero size.
   */
  lemma {:induction false} BuffersReplyCount(bs: seq<BufferEntry>, m: Bytes, max: nat)
    requires max > 0
    ensures BuffersReply(bs, m, max).outcome.Ok? ==> |BuffersReply(bs, m, max).outcome.value| == ReadCount(bs)
    ensures BuffersReply(bs, m, max).outcome.Ok? ==> forall i :: 0 <= i < |bs| ==> !ReadBackRaises(bs[i])
  {
    if bs != [] {
      var n := |bs| - 1;
      BuffersReplyCount(bs[..n], m, max);
      assert forall i :: 0 <= i < n ==> bs[..n][i] == bs[i];
      if ReadBackRaises(bs[n]) {
        var args := ReadArgOf(bs[n].first);
        assert args == [Instance(args[0].size)] && args[0].size > 0;
        ReadSizeInstance(args[0].size);
      }
    }
  }

  /** A lone instance reads its own size, and is an instance. */
  lemma ReadSizeInstance(k: nat)
    ensures ReadSize([Instance(k)]) == Ok(k) && HasInstance([Instance(k)])
  {
    var args := [Instance(k)];
    assert args[0].Instance?;
    assert !exists i :: 0 <= i < |args| && (args[i].Count? || args[i].Unsized?);
    assert ShapeTotal(args) == k;
  }

  /** `buffers=((c_uint32(5), SfBufferAttr.Out),)`: four bytes are received, then the decoding raises. */
  lemma ValueReadBackRaises(m: Bytes, max: nat)
    requires max > 0 && |m| >= 4
    ensures BuffersReply([Entry(ValueArg([5, 0, 0, 0]), Member(SfBufferAttr.Out))], m, max)
      == Effect(Fail(AttributeError), m[4..], ChunkSizes(4, max))
  {
    var e := Entry(ValueArg([5, 0, 0, 0]), Member(SfBufferAttr.Out));
    Util.OrBit(SfBufferAttr.Out.Value(), SfBufferAttr.In.Value(), SfBufferAttr.Out.Index());
    Util.Pow2Bit(SfBufferAttr.Out.Index(), SfBufferAttr.Out.Index());
    assert IsOut(AttrOf(e));
    assert [e][..0] == [];
    assert HasInstance([Instance(4)]) by { assert [Instance(4)][0].Instance?; }
  }

  /** With no buffer read back, a successful reply leaves exactly what the records left. */
  lemma {:induction false} NothingReadBack(bs: seq<BufferEntry>, m: Bytes, max: nat)
    requires max > 0 && forall i :: 0 <= i < |bs| ==> BufferReadArgs(bs[i]).None?
    ensures BuffersReply(bs, m, max) == Effect(Ok([]), m, [])
  {
    if bs != [] {
      NothingReadBack(bs[..|bs| - 1], m, max);
    }
  }

  /** The records come back as the device laid them out, and nothing after them is touched. */
  lemma ObjectsRoundTrip(ss: seq<ServiceStruct>, rest: Bytes, max: nat)
    requires max > 0 && |ss| > 0
    ensures ObjectsEffect(|ss|, EncodeServices(ss) + rest, max)
      == Effect(Ok(ss), rest, ChunkSizes(ServiceSize * |ss|, max))
  {
    var m := EncodeServices(ss) + rest;
    assert m[..ServiceSize * |ss|] == EncodeServices(ss);
    assert m[ServiceSize * |ss|..] == rest;
    ServicesRoundTrip(ss);
  }

  // ---------------------------------------------------------------------------
  // The command

  /** `cls.Buffer(real_size, attr, is_pointer)` and, for a pointer or an In buffer, `first` itself. */
  method SendBuffer(h: UsbCommandHandler, e: BufferEntry) returns (attr: nat, err: Option<Error>)
    requires h.Valid()
    modifies h
    ensures h.sent == old(h.sent) + Transfers(BufferSending(e).writes, h.maxRw)
    ensures err == BufferSending(e).error
    ensures err.None? ==> attr == AttrOf(e)
    ensures h.inbox == old(h.inbox) && h.requests == old(h.requests) && h.closed == old(h.closed)
  {
    var size: int, first: Arg;
    match e {
      case SizedEntry(f, n, a) =>
        size, attr, first := n, AttrValue(a), f;
      case Entry(f, a) =>
        attr, first := AttrValue(a), f;
        match f {
          case IntArg(n) =>
            size, attr := n, Util.Or(attr, SfBufferAttr.Out.Value());
          case TypeArg(k) =>
            size, attr := k, Util.Or(attr, SfBufferAttr.Out.Value());
          case BytesArg(b) =>
            size, attr := |b|, Util.Or(attr, SfBufferAttr.In.Value());
          case ValueArg(image) =>
            size, attr := |image|, Util.Or(attr, SfBufferAttr.In.Value());
          case PointerArg(_) =>
            size, attr := PointerSize, Util.Or(attr, SfBufferAttr.In.Value());
          case NoneArg =>
            return attr, Some(TypeError);
          case OtherArg =>
            return attr, Some(TypeError);
        }
    }
    var r := Resolved(size, attr, first);
    assert Resolve(e) == Ok(r);
    var desc := EncodeBufferDesc(Descriptor(r));
    if first.PointerArg? || IsIn(attr) {
      var payload := ArgBytes(first);
      if payload.Fail? {
        h.SendEach([desc]);
        return attr, Some(payload.error);
      }
      h.SendEach([desc, payload.value]);
    } else {
      h.SendEach([desc]);
    }
    return attr, None;
  }

  /** The buffer loop: each entry in turn, stopping at the first that raises; it collects the attributes for the read-back. */
  method SendBuffers(h: UsbCommandHandler, bs: seq<BufferEntry>) returns (attrs: seq<nat>, err: Option<Error>)
    requires h.Valid()
    modifies h
    ensures var s := FollowAll(BufferSendings(bs));
      h.sent == old(h.sent) + Transfers(s.writes, h.maxRw) && err == s.error
    ensures err.None? ==> attrs == AttrsOf(bs)
    ensures h.inbox == old(h.inbox) && h.requests == old(h.requests) && h.closed == old(h.closed)
  {
    ghost var ss := BufferSendings(bs);
    attrs := [];
    for i := 0 to |bs|
      invariant FollowAll(ss[..i]).error.None?
      invariant h.sent == old(h.sent) + Transfers(FollowAll(ss[..i]).writes, h.maxRw)
      invariant attrs == AttrsOf(bs[..i])
      invariant h.inbox == old(h.inbox) && h.requests == old(h.requests) && h.closed == old(h.closed)
    {
      ghost var prev := FollowAll(ss[..i]);
      var attr, e := SendBuffer(h, bs[i]);
      FollowAllStep(ss, i);
      assert FollowAll(ss[..i + 1]) == Sending(prev.writes + ss[i].writes, e);
      TransfersAppend(old(h.sent), prev.writes, ss[i].writes, h.maxRw);
      if e.Some? {
        FollowAllPrefix(ss, i + 1);
        return attrs, e;
      }
      assert bs[..i + 1][..i] == bs[..i];
      attrs := attrs + [attr];
    }
    assert ss[..|bs|] == ss;
    assert bs[..|bs|] == bs;
    err := None;
  }

  /** `for handle in in_handles: h.write(handle)`. */
  method SendHandles(h: UsbCommandHandler, hs: seq<Arg>) returns (err: Option<Error>)
    requires h.Valid()
    modifies h
    ensures var s := FollowAll(HandleSendings(hs));
      h.sent == old(h.sent) + Transfers(s.writes, h.maxRw) && err == s.error
    ensures h.inbox == old(h.inbox) && h.requests == old(h.requests) && h.closed == old(h.closed)
  {
    ghost var ss := HandleSendings(hs);
    for i := 0 to |hs|
      invariant FollowAll(ss[..i]).error.None?
      invariant h.sent == old(h.sent) + Transfers(FollowAll(ss[..i]).writes, h.maxRw)
      invariant h.inbox == old(h.inbox) && h.requests == old(h.requests) && h.closed == old(h.closed)
    {
      ghost var prev := FollowAll(ss[..i]);
      FollowAllStep(ss, i);
      var b := ArgBytes(hs[i]);
      if b.Fail? {
        assert FollowAll(ss[..i + 1]) == Sending(prev.writes + [], Some(b.error));
        assert prev.writes + [] == prev.writes;
        FollowAllPrefix(ss, i + 1);
        return Some(b.error);
      }
      assert ss[i] == Sending([b.value], None);
      h.SendEach([b.value]);
      TransfersAppend(old(h.sent), prev.writes, [b.value], h.maxRw);
    }
    assert ss[..|hs|] == ss;
    err := None;
  }

  /** The sending half: opcode, header, input data, buffers, handles. */
  method SendDispatch(h: UsbCommandHandler, req: Request) returns (attrs: seq<nat>, err: Option<Error>)
    requires h.Valid()
    modifies h
    ensures var s := DispatchSending(req);
      h.sent == old(h.sent) + Transfers(s.writes, h.maxRw) && err == s.error
    ensures err.None? ==> attrs == AttrsOf(req.buffers)
    ensures h.inbox == old(h.inbox) && h.requests == old(h.requests) && h.closed == old(h.closed)
  {
    var header := HostHeader(req);
    h.SendEach([[OpDispatchToService], EncodeHeader(header), OptBytes(req.inData)]);
    ghost var b := FollowAll(BufferSendings(req.buffers));
    attrs, err := SendBuffers(h, req.buffers);
    TransfersAppend(old(h.sent), HeadWrites(req), b.writes, h.maxRw);
    if err.Some? {
      return;
    }
    ghost var hs := FollowAll(HandleSendings(req.inHandles));
    err := SendHandles(h, req.inHandles);
    TransfersAppend(old(h.sent), HeadWrites(req) + b.writes, hs.writes, h.maxRw);
  }

  /** `list(h.read(ServiceStruct * out_num_objects))`, made only when the count is positive. */
  method ReadObjects(h: UsbCommandHandler, n: int) returns (r: Outcome<seq<ServiceStruct>>)
    requires h.Valid()
    modifies h
    ensures var e := ObjectsEffect(n, old(h.inbox), h.maxRw);
      r == e.outcome && h.inbox == e.rest && h.requests == old(h.requests) + e.requests
    ensures h.sent == old(h.sent) && h.closed == old(h.closed)
  {
    if n <= 0 {
      return Ok([]);
    }
    var image := ReadFixed(h, ServiceSize * n);
    if image.Fail? {
      return Fail(image.error);
    }
    return Ok(DecodeServices(image.value, n));
  }

  /** The read-back loop: `h.read(first)` for every entry without an explicit size whose attribute has the Out bit. */
  method ReadBuffers(h: UsbCommandHandler, bs: seq<BufferEntry>, attrs: seq<nat>) returns (r: Outcome<seq<ReadValue>>)
    requires h.Valid()
    requires attrs == AttrsOf(bs)
    modifies h
    ensures var e := BuffersReply(bs, old(h.inbox), h.maxRw);
      r == e.outcome && h.inbox == e.rest && h.requests == old(h.requests) + e.requests
    ensures h.sent == old(h.sent) && h.closed == old(h.closed)
  {
    var values: seq<ReadValue> := [];
    for i := 0 to |bs|
      invariant var p := BuffersReply(bs[..i], old(h.inbox), h.maxRw);
        p.outcome == Ok(values) && h.inbox == p.rest && h.requests == old(h.requests) + p.requests
      invariant h.sent == old(h.sent) && h.closed == old(h.closed)
    {
      BuffersReplyStep(bs, i, old(h.inbox), h.maxRw);
      AttrsOfIndex(bs, i);
      if bs[i].SizedEntry? {
        continue;
      }
      if IsOut(attrs[i]) {
        ghost var p := BuffersReply(bs[..i], old(h.inbox), h.maxRw);
        var v := h.Read(ReadArgOf(bs[i].first));
        ghost var e := ReadEffect(ReadArgOf(bs[i].first), p.rest, h.maxRw);
        AppendAssoc(old(h.requests), p.requests, e.requests);
        if v.Fail? {
          BuffersReplyPrefix(bs, i + 1, old(h.inbox), h.maxRw);
          return Fail(v.error);
        }
        values := values + [v.value];
      }
    }
    assert bs[..|bs|] == bs;
    return Ok(values);
  }

  /** The reply half: the Result, the output value, the records, the buffers. */
  method ReadDispatch(h: UsbCommandHandler, req: Request, attrs: seq<nat>) returns (r: Outcome<DispatchOut>)
    requires h.Valid()
    requires attrs == AttrsOf(req.buffers)
    modifies h
    ensures var e := DispatchReply(req, old(h.inbox), h.maxRw);
      r == e.outcome && h.inbox == e.rest && h.requests == old(h.requests) + e.requests
    ensures h.sent == old(h.sent) && h.closed == old(h.closed)
  {
    ghost var r0 := h.requests;
    ghost var s := StatusEffect(h.inbox, h.maxRw);
    var status := CheckStatus(h);
    if status.Fail? {
      return Fail(status.error);
    }
    ghost var o := ReadEffect(OutputArgs(req.outType), h.inbox, h.maxRw);
    var out := h.Read(OutputArgs(req.outType));
    AppendAssoc(r0, s.requests, o.requests);
    if out.Fail? {
      return Fail(out.error);
    }
    ghost var ob := ObjectsEffect(req.outNumObjects, h.inbox, h.maxRw);
    var objects := ReadObjects(h, req.outNumObjects);
    AppendAssoc(r0, s.requests + o.requests, ob.requests);
    if objects.Fail? {
      return Fail(objects.error);
    }
    ghost var b := BuffersReply(req.buffers, h.inbox, h.maxRw);
    var buffers := ReadBuffers(h, req.buffers, attrs);
    AppendAssoc(r0, s.requests + o.requests + ob.requests, b.requests);
    if buffers.Fail? {
      return Fail(buffers.error);
    }
    return Ok(DispatchOut(out.value, objects.value, buffers.value));
  }

  /**
   * `DispatchToService.execute`: the request as DispatchSending says; if
   * building it raised, that exception and nothing read; otherwise the reply
   * as DispatchReply says.
   */
  method DispatchToService(h: UsbCommandHandler, req: Request) returns (r: Outcome<DispatchOut>)
    requires h.Valid()
    modifies h
    ensures var s := DispatchSending(req);
      && h.sent == old(h.sent) + Transfers(s.writes, h.maxRw)
      && (s.error.Some? ==> r == Fail(s.error.value) && h.inbox == old(h.inbox) && h.requests == old(h.requests))
      && (s.error.None? ==>
            var e := DispatchReply(req, old(h.inbox), h.maxRw);
            r == e.outcome && h.inbox == e.rest && h.requests == old(h.requests) + e.requests)
    ensures h.closed == old(h.closed)
  {
    var attrs, err := SendDispatch(h, req);
    if err.Some? {
      return Fail(err.value);
    }
    r := ReadDispatch(h, req, attrs);
  }
}
