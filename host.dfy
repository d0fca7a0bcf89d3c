/**
 * `UsbCommandHandler.execute`: a command runs only while the handler is
 * open; once Exit has succeeded every later command is skipped and gives
 * None, with nothing sent and nothing read.
 *
 * A command is given as a value, and what running it does to the link is
 * stated once for all commands: the `write` calls of CommandSending, then
 * (unless building the request raised) the reply of CommandReply.
 */
module Host {
  import opened Wire
  import opened Types
  import opened Layout
  import opened Usb
  import Commands
  import Dispatch

  /** A command class with the arguments `execute` is called with. */
  datatype Command =
    | Exit
    | Allocate(alloc: string, size: Commands.SizeOrType, align: Option<int>)
    | Free(ptr: int)
    | Read(ptr: int, size: Commands.SizeOrType)
    | Write(ptr: int, payload: Bytes)
    | GetService(name: Bytes)
    | CloseService(service: ServiceStruct)
    | ConvertServiceToDomain(service: ServiceStruct)
    | DispatchToService(request: Dispatch.Request)

  /**
   * What a command returns: a `read` value (None for Exit, Free and Write),
   * an allocated address, a service record, or the dispatch dictionary.
   */
  datatype Reply =
    | Value(v: ReadValue)
    | Pointer(address: nat)
    | Record(service: ServiceStruct)
    | Dispatched(out: Dispatch.DispatchOut)

  /** The `write` calls of each command, in order, and the exception that stops it before the reply, if any. */
  function CommandSending(cmd: Command): Sending
  {
    match cmd
    case Exit => Commands.Sending([[OpExit], []], None)
    case Allocate(alloc, size, align) => Commands.AllocateSending(alloc, size, align)
    case Free(ptr) => Commands.Sending([[OpFree], LE(ptr, PointerSize)], None)
    case Read(ptr, size) => Commands.Sending([[OpRead], Commands.InfoImage(ptr, Commands.SizeOf(size))], None)
    case Write(ptr, payload) => Commands.Sending([[OpWrite], Commands.InfoImage(ptr, |payload|), payload], None)
    case GetService(name) =>
      (match EncodeName(name)
       case None => Commands.Sending([], Some(ValueError))
       case Some(n) => Commands.Sending([[OpGetService], n], None))
    case CloseService(s) => Commands.Sending([[OpCloseService], EncodeService(s)], None)
    case ConvertServiceToDomain(s) => Commands.Sending([[OpConvertServiceToDomain], EncodeService(s)], None)
    case DispatchToService(req) => Dispatch.DispatchSending(req)
  }

  /** A dispatch command sends exactly what `DispatchToService` sends. */
  lemma DispatchSendingIs(req: Dispatch.Request)
    ensures CommandSending(DispatchToService(req)) == Dispatch.DispatchSending(req)
  {
  }

  type Sending = Commands.Sending

  function AsValue(e: Effect<ReadValue>): Effect<Reply>
  {
    Effect(if e.outcome.Ok? then Ok(Value(e.outcome.value)) else Fail(e.outcome.error), e.rest, e.requests)
  }

  /** A reply whose value the command drops: only success or the failure is left. */
  function AsNone<A>(e: Effect<A>): Effect<Reply>
  {
    Effect(if e.outcome.Ok? then Ok(Value(NoValue)) else Fail(e.outcome.error), e.rest, e.requests)
  }

  function AsPointer(e: Effect<Bytes>): Effect<Reply>
  {
    Effect(if e.outcome.Ok? then Ok(Pointer(FromLE(e.outcome.value))) else Fail(e.outcome.error), e.rest, e.requests)
  }

  function AsRecord(e: Effect<Bytes>): Effect<Reply>
    requires e.outcome.Ok? ==> |e.outcome.value| == ServiceSize
  {
    Effect(if e.outcome.Ok? then Ok(Record(DecodeService(e.outcome.value))) else Fail(e.outcome.error), e.rest, e.requests)
  }

  function AsDispatched(e: Effect<Dispatch.DispatchOut>): Effect<Reply>
  {
    Effect(if e.outcome.Ok? then Ok(Dispatched(e.outcome.value)) else Fail(e.outcome.error), e.rest, e.requests)
  }

  /** The reply each command reads, against the bytes m waiting from the device. */
  function CommandReply(cmd: Command, m: Bytes, max: nat): Effect<Reply>
    requires max > 0
  {
    match cmd
    case Exit => AsNone(Commands.RunReply(m, None, max))
    case Allocate(_, _, _) => AsPointer(Commands.RecordReply(m, PointerSize, max))
    case Free(_) => AsValue(Commands.RunReply(m, None, max))
    case Read(_, size) =>
      var s := Commands.StatusEffect(m, max);
      AsValue(Commands.Then(s, ReadEffect(Commands.ReadArgsOf(size), s.rest, max)))
    case Write(_, _) => AsNone(Commands.StatusEffect(m, max))
    case GetService(_) => AsRecord(Commands.RecordReply(m, ServiceSize, max))
    case CloseService(_) => AsValue(Commands.RunReply(m, None, max))
    case ConvertServiceToDomain(_) => AsRecord(Commands.RecordReply(m, ServiceSize, max))
    case DispatchToService(req) => AsDispatched(Dispatch.DispatchReply(req, m, max))
  }

  /**
   * `execute(cmd)` on a handler in state l: on a closed handler nothing at
   * all and None; on an open one the command's writes, then its reply
   * unless building the request raised, and the handler is closed
   * afterwards exactly when that was a successful Exit.
   */
  function Step(l: Link, cmd: Command, max: nat): (Link, Option<Outcome<Reply>>)
    requires max > 0
  {
    if l.closed then (l, None)
    else
      var s := CommandSending(cmd);
      var sent := l.sent + Transfers(s.writes, max);
      if s.error.Some? then (l.(sent := sent), Some(Fail(s.error.value)))
      else
        var e := CommandReply(cmd, l.inbox, max);
        (Link(cmd.Exit? && e.outcome.Ok?, sent, l.requests + e.requests, e.rest), Some(e.outcome))
  }

  /** Two `write` calls leave the transfers of each, in order. */
  lemma SentTwo(s0: seq<Bytes>, a: Bytes, b: Bytes, max: nat)
    requires max > 0
    ensures s0 + Chunks(a, max) + Chunks(b, max) == s0 + Transfers([a, b], max)
  {
    TransfersOfTwo(a, b, max);
    AppendAssoc(s0, Chunks(a, max), Chunks(b, max));
  }

  /** `execute(cmd, ...)`: the command, only while the handler is open. */
  method Execute(h: UsbCommandHandler, cmd: Command) returns (r: Option<Outcome<Reply>>)
    requires h.Valid()
    modifies h
    ensures Step(old(h.State()), cmd, h.maxRw) == (h.State(), r)
  {
    if h.closed {
      return None;
    }
    match cmd {
      case Exit => r := ExecuteExit(h);
      case Allocate(alloc, size, align) => r := ExecuteAllocate(h, alloc, size, align);
      case Free(ptr) => r := ExecuteFree(h, ptr);
      case Read(ptr, size) => r := ExecuteRead(h, ptr, size);
      case Write(ptr, payload) => r := ExecuteWrite(h, ptr, payload);
      case GetService(name) => r := ExecuteGetService(h, name);
      case CloseService(s) => r := ExecuteCloseService(h, s);
      case ConvertServiceToDomain(s) => r := ExecuteConvert(h, s);
      case DispatchToService(req) => r := ExecuteDispatch(h, req);
    }
  }

  method ExecuteAllocate(h: UsbCommandHandler, alloc: string, size: Commands.SizeOrType, align: Option<int>)
    returns (r: Option<Outcome<Reply>>)
    requires h.Valid() && !h.closed
    modifies h
    ensures Step(old(h.State()), Allocate(alloc, size, align), h.maxRw) == (h.State(), r)
  {
    var v := Commands.Allocate(h, alloc, size, align);
    assert CommandSending(Allocate(alloc, size, align)) == Commands.AllocateSending(alloc, size, align);
    assert CommandReply(Allocate(alloc, size, align), old(h.inbox), h.maxRw) == AsPointer(Commands.RecordReply(old(h.inbox), PointerSize, h.maxRw));
    r := Some(if v.Ok? then Ok(Pointer(v.value)) else Fail(v.error));
  }

  method ExecuteFree(h: UsbCommandHandler, ptr: int) returns (r: Option<Outcome<Reply>>)
    requires h.Valid() && !h.closed
    modifies h
    ensures Step(old(h.State()), Free(ptr), h.maxRw) == (h.State(), r)
  {
    var v := Commands.Free(h, ptr);
    SentTwo(old(h.sent), [OpFree], LE(ptr, PointerSize), h.maxRw);
    r := Some(if v.Ok? then Ok(Value(v.value)) else Fail(v.error));
  }

  method ExecuteRead(h: UsbCommandHandler, ptr: int, size: Commands.SizeOrType) returns (r: Option<Outcome<Reply>>)
    requires h.Valid() && !h.closed
    modifies h
    ensures Step(old(h.State()), Read(ptr, size), h.maxRw) == (h.State(), r)
  {
    var v := Commands.Read(h, ptr, size);
    SentTwo(old(h.sent), [OpRead], Commands.InfoImage(ptr, Commands.SizeOf(size)), h.maxRw);
    ghost var st := Commands.StatusEffect(old(h.inbox), h.maxRw);
    assert CommandSending(Read(ptr, size)) == Commands.Sending([[OpRead], Commands.InfoImage(ptr, Commands.SizeOf(size))], None);
    assert CommandReply(Read(ptr, size), old(h.inbox), h.maxRw)
      == AsValue(Commands.Then(st, ReadEffect(Commands.ReadArgsOf(size), st.rest, h.maxRw)));
    r := Some(if v.Ok? then Ok(Value(v.value)) else Fail(v.error));
  }

  method ExecuteCloseService(h: UsbCommandHandler, s: ServiceStruct) returns (r: Option<Outcome<Reply>>)
    requires h.Valid() && !h.closed
    modifies h
    ensures Step(old(h.State()), CloseService(s), h.maxRw) == (h.State(), r)
  {
    var v := Commands.CloseService(h, s);
    SentTwo(old(h.sent), [OpCloseService], EncodeService(s), h.maxRw);
    assert CommandReply(CloseService(s), old(h.inbox), h.maxRw) == AsValue(Commands.RunReply(old(h.inbox), None, h.maxRw));
    r := Some(if v.Ok? then Ok(Value(v.value)) else Fail(v.error));
  }

  method ExecuteConvert(h: UsbCommandHandler, s: ServiceStruct) returns (r: Option<Outcome<Reply>>)
    requires h.Valid() && !h.closed
    modifies h
    ensures Step(old(h.State()), ConvertServiceToDomain(s), h.maxRw) == (h.State(), r)
  {
    var v := Commands.ConvertServiceToDomain(h, s);
    SentTwo(old(h.sent), [OpConvertServiceToDomain], EncodeService(s), h.maxRw);
    r := Some(if v.Ok? then Ok(Record(v.value)) else Fail(v.error));
  }

  /** A dispatch step in terms of the dispatch command's own sending and reply. */
  lemma StepDispatch(l: Link, req: Dispatch.Request, max: nat)
    requires max > 0 && !l.closed
    ensures var s := Dispatch.DispatchSending(req);
      var sent := l.sent + Transfers(s.writes, max);
      var e := Dispatch.DispatchReply(req, l.inbox, max);
      Step(l, DispatchToService(req), max) ==
        if s.error.Some? then (l.(sent := sent), Some(Fail(s.error.value)))
        else (Link(false, sent, l.requests + e.requests, e.rest),
              Some(if e.outcome.Ok? then Ok(Dispatched(e.outcome.value)) else Fail(e.outcome.error)))
  {
    DispatchSendingIs(req);
    assert CommandReply(DispatchToService(req), l.inbox, max) == AsDispatched(Dispatch.DispatchReply(req, l.inbox, max));
  }

  method ExecuteDispatch(h: UsbCommandHandler, req: Dispatch.Request) returns (r: Option<Outcome<Reply>>)
    requires h.Valid() && !h.closed
    modifies h
    ensures Step(old(h.State()), DispatchToService(req), h.maxRw) == (h.State(), r)
  {
    StepDispatch(h.State(), req, h.maxRw);
    var v := Dispatch.DispatchToService(h, req);
    r := Some(if v.Ok? then Ok(Dispatched(v.value)) else Fail(v.error));
  }

  method ExecuteExit(h: UsbCommandHandler) returns (r: Option<Outcome<Reply>>)
    requires h.Valid() && !h.closed
    modifies h
    ensures Step(old(h.State()), Exit, h.maxRw) == (h.State(), r)
  {
    var v := Commands.Exit(h);
    TransfersOfTwo([OpExit], [], h.maxRw);
    assert Chunks([], h.maxRw) == [];
    assert Transfers([[OpExit], []], h.maxRw) == Chunks([OpExit], h.maxRw);
    assert CommandSending(Exit) == Commands.Sending([[OpExit], []], None);
    assert CommandReply(Exit, old(h.inbox), h.maxRw) == AsNone(Commands.RunReply(old(h.inbox), None, h.maxRw));
    r := Some(if v.Ok? then Ok(Value(NoValue)) else Fail(v.error));
  }

  method ExecuteWrite(h: UsbCommandHandler, ptr: int, payload: Bytes) returns (r: Option<Outcome<Reply>>)
    requires h.Valid() && !h.closed
    modifies h
    ensures Step(old(h.State()), Write(ptr, payload), h.maxRw) == (h.State(), r)
  {
    ghost var info := Commands.InfoImage(ptr, |payload|);
    var v := Commands.Write(h, ptr, payload);
    TransfersOfThree([OpWrite], info, payload, h.maxRw);
    AppendAssoc(old(h.sent), Chunks([OpWrite], h.maxRw), Chunks(info, h.maxRw));
    AppendAssoc(old(h.sent), Chunks([OpWrite], h.maxRw) + Chunks(info, h.maxRw), Chunks(payload, h.maxRw));
    r := Some(if v.Ok? then Ok(Value(NoValue)) else Fail(v.error));
  }

  method ExecuteGetService(h: UsbCommandHandler, name: Bytes) returns (r: Option<Outcome<Reply>>)
    requires h.Valid() && !h.closed
    modifies h
    ensures Step(old(h.State()), GetService(name), h.maxRw) == (h.State(), r)
  {
    var v := Commands.GetService(h, name);
    if EncodeName(name).Some? {
      SentTwo(old(h.sent), [OpGetService], EncodeName(name).value, h.maxRw);
    } else {
      assert Transfers([], h.maxRw) == [];
      assert old(h.sent) + [] == old(h.sent);
    }
    r := Some(if v.Ok? then Ok(Record(v.value)) else Fail(v.error));
  }

  // ---------------------------------------------------------------------------
  // What every step keeps

  /**
   * What reaches the device during a step is the command's `write`
   * arguments back to back, however they were cut into transfers.
   */
  lemma StepWire(l: Link, cmd: Command, max: nat)
    requires max > 0
    ensures Flatten(Step(l, cmd, max).0.sent) ==
      Flatten(l.sent) + (if l.closed then [] else Flatten(CommandSending(cmd).writes))
  {
    if !l.closed {
      FlattenAppend(l.sent, Transfers(CommandSending(cmd).writes, max));
      TransfersFlatten(CommandSending(cmd).writes, max);
    }
  }

  /**
   * A closed handler is left as it is and answers None; on an open one
   * every command answers, and only a successful Exit closes the handler.
   */
  lemma StepClosing(l: Link, cmd: Command, max: nat)
    requires max > 0
    ensures l.closed ==> Step(l, cmd, max) == (l, None)
    ensures !l.closed ==> Step(l, cmd, max).1.Some?
    ensures !l.closed ==> (Step(l, cmd, max).0.closed <==> cmd.Exit? && Step(l, cmd, max).1.value.Ok?)
  {
  }

  /** The kind of value each command answers with when it succeeds. */
  lemma StepReplyKind(l: Link, cmd: Command, max: nat)
    requires max > 0
    requires Step(l, cmd, max).1.Some? && Step(l, cmd, max).1.value.Ok?
    ensures var v := Step(l, cmd, max).1.value.value;
      match cmd
      case Allocate(_, _, _) => v.Pointer?
      case GetService(_) => v.Record?
      case ConvertServiceToDomain(_) => v.Record?
      case DispatchToService(_) => v.Dispatched?
      case _ => v.Value?
  {
  }
}
