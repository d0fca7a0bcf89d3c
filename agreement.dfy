/**
 * The two ends of the link together. The host's `execute` writes a
 * command's request; the server, reading the same bytes from its stream,
 * consumes exactly that request, no byte more or less, and answers; the
 * host, reading that answer, gets the outcome the server meant and leaves
 * exactly the bytes that follow it. So after every command the two ends
 * are still in step.
 */
module Agreement {
  import opened Wire
  import opened Types
  import opened Layout
  import opened Usb
  import Commands
  import Dispatch
  import Util
  import H = Host
  import D = Device

  // ---------------------------------------------------------------------------
  // The shared wire

  /** The bytes a command's `write` calls put on the wire. */
  function Request(cmd: H.Command): Bytes
  {
    Flatten(H.CommandSending(cmd).writes)
  }

  /** The server's stream holds w from cursor pos. */
  predicate Carries(stream: nat -> Byte, pos: nat, w: Bytes)
  {
    D.Take(stream, pos, |w|) == w
  }

  lemma CarriesSplit(stream: nat -> Byte, pos: nat, a: Bytes, b: Bytes)
    requires Carries(stream, pos, a + b)
    ensures Carries(stream, pos, a) && Carries(stream, pos + |a|, b)
  {
    var t := D.Take(stream, pos, |a + b|);
    forall i | 0 <= i < |a|
      ensures D.Take(stream, pos, |a|)[i] == a[i]
    {
      assert t[i] == (a + b)[i];
    }
    forall i | 0 <= i < |b|
      ensures D.Take(stream, pos + |a|, |b|)[i] == b[i]
    {
      assert t[|a| + i] == (a + b)[|a| + i];
    }
  }

  /** The second half of a split, at a cursor q given by the caller. */
  lemma CarriesAfter(stream: nat -> Byte, pos: nat, a: Bytes, b: Bytes, q: nat)
    requires Carries(stream, pos, a + b) && q == pos + |a|
    ensures Carries(stream, q, b)
  {
    CarriesSplit(stream, pos, a, b);
  }

  lemma FlattenTwo(a: Bytes, b: Bytes)
    ensures Flatten([a, b]) == a + b
  {
    assert Flatten([b]) == b + Flatten([]);
    assert Flatten([a, b]) == a + Flatten([b]);
  }

  lemma FlattenThree(a: Bytes, b: Bytes, c: Bytes)
    ensures Flatten([a, b, c]) == a + b + c
  {
    FlattenTwo(b, c);
    assert Flatten([a, b, c]) == a + Flatten([b, c]);
  }

  /** A request of an opcode and a body: the server's turn reads the opcode, then runs that command on the body. */
  lemma TurnOn(d: D.Dev, stream: nat -> Byte, os: D.Os, op: Byte, body: Bytes)
    requires Carries(stream, d.pos, [op] + body)
    ensures D.Recv(d, stream, 1).0.pos == d.pos + 1 && Carries(stream, D.Recv(d, stream, 1).0.pos, body)
    ensures D.TurnSpec(d, stream, os) == D.CommandSpec(D.Recv(d, stream, 1).0, stream, os, op)
  {
    CarriesSplit(stream, d.pos, [op], body);
    assert D.Recv(d, stream, 1).1[0] == op;
  }

  // ---------------------------------------------------------------------------
  // Reading the server's answers

  /** An open handler running a command whose request is built without error: the reply decides the outcome and what is left to read. */
  lemma StepOpen(l: Link, cmd: H.Command, max: nat)
    requires max > 0 && !l.closed && H.CommandSending(cmd).error.None?
    ensures var e := H.CommandReply(cmd, l.inbox, max);
      var (l1, r) := H.Step(l, cmd, max);
      r == Some(e.outcome) && l1.inbox == e.rest && l1.closed == (cmd.Exit? && e.outcome.Ok?)
  {
  }

  /** Result 0 with nothing after it: success, and the bytes after the word are left. */
  lemma SuccessRead(rest: Bytes, max: nat)
    requires max > 0
    ensures var s := Commands.StatusEffect(D.Success() + rest, max);
      s.outcome == Ok(Result(0)) && s.rest == rest
    ensures var e := Commands.RunReply(D.Success() + rest, None, max);
      e.outcome == Ok(NoValue) && e.rest == rest
  {
    var m := D.Success() + rest;
    assert m[..ResultSize] == D.Success();
    assert m[ResultSize..] == rest;
    ResultRoundTrip(Result(0));
    Commands.StatusStops(m, None, max);
  }

  /** A nonzero word: the failure carries it, and the bytes after the word are left. */
  lemma FailureRead(w: Result, rest: Bytes, k: nat, max: nat)
    requires max > 0 && w.value != 0
    ensures var s := Commands.StatusEffect(EncodeResult(w) + rest, max);
      s.outcome == Fail(Failure(w)) && s.rest == rest
    ensures var e := Commands.RunReply(EncodeResult(w) + rest, None, max);
      e.outcome == Fail(Failure(w)) && e.rest == rest
    ensures var e := Commands.RecordReply(EncodeResult(w) + rest, k, max);
      e.outcome == Fail(Failure(w)) && e.rest == rest
  {
    var m := EncodeResult(w) + rest;
    assert m[..ResultSize] == EncodeResult(w);
    assert m[ResultSize..] == rest;
    ResultRoundTrip(w);
    Commands.StatusStops(m, None, max);
  }

  /** Result 0 and a k-byte record: the record, and the bytes after it are left. */
  lemma RecordRead(x: Bytes, rest: Bytes, max: nat)
    requires max > 0 && |x| > 0
    ensures var e := Commands.RecordReply(D.Success() + x + rest, |x|, max);
      e.outcome == Ok(x) && e.rest == rest
  {
    AppendAssoc(D.Success(), x, rest);
    SuccessRead(x + rest, max);
    assert (x + rest)[..|x|] == x;
    assert (x + rest)[|x|..] == rest;
  }

  /** The server's own error words are failures to the host. */
  lemma StatusIsFailure(k: nat)
    requires k < 8192
    ensures D.Status(k) == EncodeResult(MakeResult(NxipcModule, k)) && MakeResult(NxipcModule, k).value != 0
  {
    D.StatusFields(k);
    ResultRoundTrip(MakeResult(NxipcModule, k));
  }

  // ---------------------------------------------------------------------------
  // The simple commands
  //
  // For each command: the bytes of its request; the server's turn on them
  // (it reads the opcode and runs that command); what the server does with
  // the rest; and what the host makes of the server's answer. The lemma
  // named ...Agrees puts the two ends together.

  /** Result 0 as the whole answer of a command without output: the host gets success and reads nothing more. */
  lemma SuccessAnswered(l: Link, cmd: H.Command, rest: Bytes, max: nat)
    requires max > 0 && !l.closed && H.CommandSending(cmd).error.None?
    requires cmd.Exit? || cmd.Free? || cmd.CloseService? || cmd.Write?
    ensures var s := H.Step(l.(inbox := D.Success() + rest), cmd, max);
      s.1 == Some(Ok(H.Value(NoValue))) && s.0.closed == cmd.Exit? && s.0.inbox == rest
  {
    SuccessRead(rest, max);
    StepOpen(l.(inbox := D.Success() + rest), cmd, max);
  }

  lemma ExitTurn(d: D.Dev, stream: nat -> Byte, os: D.Os)
    requires Carries(stream, d.pos, [OpExit])
    ensures var t := D.TurnSpec(d, stream, os);
      t.1 && t.0.pos == d.pos + 1 && D.Output(t.0) == D.Output(d) + D.Success()
  {
    assert [OpExit] + [] == [OpExit];
    TurnOn(d, stream, os, OpExit, []);
    D.EmitOutput(D.Recv(d, stream, 1).0, D.Success());
  }

  /** Exit: the server consumes the opcode, answers Result 0 and leaves its loop; the host reads the 0 and marks itself closed. */
  lemma ExitAgrees(l: Link, d: D.Dev, stream: nat -> Byte, os: D.Os, rest: Bytes, max: nat)
    requires max > 0 && !l.closed
    requires Carries(stream, d.pos, Request(H.Exit))
    ensures var t := D.TurnSpec(d, stream, os);
      && t.1 && t.0.pos == d.pos + |Request(H.Exit)|
      && D.Output(t.0) == D.Output(d) + D.Success()
    ensures var s := H.Step(l.(inbox := D.Success() + rest), H.Exit, max);
      s.1 == Some(Ok(H.Value(NoValue))) && s.0.closed && s.0.inbox == rest
  {
    FlattenTwo([OpExit], []);
    assert [OpExit] + [] == [OpExit];
    ExitTurn(d, stream, os);
    SuccessAnswered(l, H.Exit, rest, max);
  }

  lemma FreeRequest(ptr: int)
    ensures Request(H.Free(ptr)) == [OpFree] + LE(ptr, PointerSize)
  {
    FlattenTwo([OpFree], LE(ptr, PointerSize));
  }

  lemma FreeTurn(d: D.Dev, stream: nat -> Byte, os: D.Os, body: Bytes)
    requires Carries(stream, d.pos, [OpFree] + body)
    ensures D.Recv(d, stream, 1).0.pos == d.pos + 1 && Carries(stream, D.Recv(d, stream, 1).0.pos, body)
    ensures D.TurnSpec(d, stream, os) == (D.FreeSpec(D.Recv(d, stream, 1).0, stream), false)
  {
    var d0 := D.Recv(d, stream, 1).0;
    TurnOn(d, stream, os, OpFree, body);
    assert D.CommandSpec(d0, stream, os, OpFree) == (D.FreeSpec(d0, stream), false);
  }

  lemma FreeArgs(d: D.Dev, stream: nat -> Byte, ptr: int)
    requires Carries(stream, d.pos, LE(ptr, PointerSize))
    ensures var after := D.FreeSpec(d, stream);
      && after.pos == d.pos + PointerSize
      && after.frees == d.frees + [Wrap(ptr, PointerSize)]
      && D.Output(after) == D.Output(d) + D.Success()
  {
    FromLEOfLE(ptr, PointerSize);
    var r := D.Recv(d, stream, PointerSize);
    D.EmitOutput(r.0.(frees := r.0.frees + [FromLE(r.1)]), D.Success());
  }

  /** The server's side of Free: it frees the pointer it was sent, truncated to 64 bits, and answers Result 0. */
  lemma FreeServed(d: D.Dev, stream: nat -> Byte, os: D.Os, ptr: int)
    requires Carries(stream, d.pos, [OpFree] + LE(ptr, PointerSize))
    ensures var t := D.TurnSpec(d, stream, os);
      && !t.1 && t.0.pos == d.pos + 1 + PointerSize
      && t.0.frees == d.frees + [Wrap(ptr, PointerSize)]
      && D.Output(t.0) == D.Output(d) + D.Success()
  {
    FreeTurn(d, stream, os, LE(ptr, PointerSize));
    FreeArgs(D.Recv(d, stream, 1).0, stream, ptr);
  }

  /** Free: the server consumes exactly the host's request and frees the pointer it names; the host reads its Result 0 and nothing more. */
  lemma FreeAgrees(l: Link, d: D.Dev, stream: nat -> Byte, os: D.Os, ptr: int, rest: Bytes, max: nat)
    requires max > 0 && !l.closed
    requires Carries(stream, d.pos, Request(H.Free(ptr)))
    ensures var t := D.TurnSpec(d, stream, os);
      && !t.1 && t.0.pos == d.pos + |Request(H.Free(ptr))|
      && t.0.frees == d.frees + [Wrap(ptr, PointerSize)]
      && D.Output(t.0) == D.Output(d) + D.Success()
    ensures var s := H.Step(l.(inbox := D.Success() + rest), H.Free(ptr), max);
      s.1 == Some(Ok(H.Value(NoValue))) && !s.0.closed && s.0.inbox == rest
  {
    FreeRequest(ptr);
    FreeServed(d, stream, os, ptr);
    SuccessAnswered(l, H.Free(ptr), rest, max);
  }

  lemma CloseRequest(s: ServiceStruct)
    ensures Request(H.CloseService(s)) == [OpCloseService] + EncodeService(s)
  {
    FlattenTwo([OpCloseService], EncodeService(s));
  }

  lemma CloseTurn(d: D.Dev, stream: nat -> Byte, os: D.Os, body: Bytes)
    requires Carries(stream, d.pos, [OpCloseService] + body)
    ensures D.Recv(d, stream, 1).0.pos == d.pos + 1 && Carries(stream, D.Recv(d, stream, 1).0.pos, body)
    ensures D.TurnSpec(d, stream, os) == (D.CloseServiceSpec(D.Recv(d, stream, 1).0, stream), false)
  {
    var d0 := D.Recv(d, stream, 1).0;
    TurnOn(d, stream, os, OpCloseService, body);
    assert D.CommandSpec(d0, stream, os, OpCloseService) == (D.CloseServiceSpec(d0, stream), false);
  }

  lemma CloseArgs(d: D.Dev, stream: nat -> Byte, record: Bytes)
    requires |record| == ServiceSize && Carries(stream, d.pos, record)
    ensures var after := D.CloseServiceSpec(d, stream);
      && after.pos == d.pos + ServiceSize
      && after.closes == d.closes + [record]
      && D.Output(after) == D.Output(d) + D.Success()
  {
    var r := D.Recv(d, stream, ServiceSize);
    D.EmitOutput(r.0.(closes := r.0.closes + [r.1]), D.Success());
  }

  /** The server's side of CloseService: it closes exactly the record it was sent and answers Result 0. */
  lemma CloseServed(d: D.Dev, stream: nat -> Byte, os: D.Os, record: Bytes)
    requires |record| == ServiceSize && Carries(stream, d.pos, [OpCloseService] + record)
    ensures var t := D.TurnSpec(d, stream, os);
      && !t.1 && t.0.pos == d.pos + 1 + ServiceSize
      && t.0.closes == d.closes + [record]
      && D.Output(t.0) == D.Output(d) + D.Success()
  {
    CloseTurn(d, stream, os, record);
    CloseArgs(D.Recv(d, stream, 1).0, stream, record);
  }

  /** CloseService: the server closes exactly the record the host sent; the host reads its Result 0 and nothing more. */
  lemma CloseAgrees(l: Link, d: D.Dev, stream: nat -> Byte, os: D.Os, s: ServiceStruct, rest: Bytes, max: nat)
    requires max > 0 && !l.closed
    requires Carries(stream, d.pos, Request(H.CloseService(s)))
    ensures var t := D.TurnSpec(d, stream, os);
      && !t.1 && t.0.pos == d.pos + |Request(H.CloseService(s))|
      && t.0.closes == d.closes + [EncodeService(s)]
      && D.Output(t.0) == D.Output(d) + D.Success()
    ensures var st := H.Step(l.(inbox := D.Success() + rest), H.CloseService(s), max);
      st.1 == Some(Ok(H.Value(NoValue))) && !st.0.closed && st.0.inbox == rest
  {
    CloseRequest(s);
    CloseServed(d, stream, os, EncodeService(s));
    SuccessAnswered(l, H.CloseService(s), rest, max);
  }

  // ---------------------------------------------------------------------------
  // Allocate

  /** The server's answer to an allocation that returned ptr. */
  function AllocateReply(ptr: nat): Bytes
  {
    if ptr == 0 then D.Status(4) else D.Success() + LE(ptr, PointerSize)
  }

  /** The allocator names the host accepts, with the alignment memalign needs. */
  predicate AllocateArgs(alloc: string, align: Option<int>)
  {
    Commands.AllocCode(alloc).Some? && (alloc == "memalign" ==> align.Some?)
  }

  lemma AllocateBytes(alloc: string, size: Commands.SizeOrType, align: Option<int>)
    requires AllocateArgs(alloc, align)
    ensures H.CommandSending(H.Allocate(alloc, size, align)).error.None?
    ensures Request(H.Allocate(alloc, size, align))
      == [OpAllocate] + (EncodeAllocation(Allocation(Commands.AllocCode(alloc).value, Wrap(Commands.SizeOf(size), 8)))
           + (if alloc == "memalign" then LE(align.value, PointerSize) else []))
  {
    Commands.AllocateRequest(alloc, size, align);
    var rec := EncodeAllocation(Allocation(Commands.AllocCode(alloc).value, Wrap(Commands.SizeOf(size), 8)));
    AppendAssoc([OpAllocate], rec, if alloc == "memalign" then LE(align.value, PointerSize) else []);
  }

  lemma AllocateTurn(d: D.Dev, stream: nat -> Byte, os: D.Os, body: Bytes)
    requires Carries(stream, d.pos, [OpAllocate] + body)
    ensures D.Recv(d, stream, 1).0.pos == d.pos + 1 && Carries(stream, D.Recv(d, stream, 1).0.pos, body)
    ensures D.TurnSpec(d, stream, os) == (D.AllocateSpec(D.Recv(d, stream, 1).0, stream, os), false)
  {
    var d0 := D.Recv(d, stream, 1).0;
    TurnOn(d, stream, os, OpAllocate, body);
    assert D.CommandSpec(d0, stream, os, OpAllocate) == (D.AllocateSpec(d0, stream, os), false);
  }

  /**
   * After the opcode, Allocate reads the record and, for memalign only, the
   * alignment after it, and calls the allocator once with exactly the kind,
   * size and alignment they hold.
   */
  lemma AllocateArgsRead(d: D.Dev, stream: nat -> Byte, os: D.Os, a: Allocation, alignBytes: Bytes)
    requires a.kind == KindMalloc || a.kind == KindCalloc || a.kind == KindMemalign
    requires |alignBytes| == if a.kind == KindMemalign then PointerSize else 0
    requires Carries(stream, d.pos, EncodeAllocation(a) + alignBytes)
    ensures var after := D.AllocateSpec(d, stream, os);
      var ptr := os.allocate(d.allocs, a.kind, a.size, if a.kind == KindMemalign then FromLE(alignBytes) else 0);
      && after.pos == d.pos + AllocationSize + |alignBytes| && after.allocs == d.allocs + 1
      && D.Output(after) == D.Output(d) + AllocateReply(ptr)
  {
    CarriesSplit(stream, d.pos, EncodeAllocation(a), alignBytes);
    AllocationRoundTrip(a);
    var d1 := D.Recv(d, stream, AllocationSize).0;
    D.AllocateOutcomes(d, stream, os);
    if a.kind == KindMemalign {
      var d2 := D.Recv(d1, stream, PointerSize).0;
      assert D.AllocateSpec(d, stream, os) == D.Allocated(d2, os, a, FromLE(alignBytes));
      D.AllocatedOutcome(d2, os, a, FromLE(alignBytes));
    } else {
      assert D.AllocateSpec(d, stream, os) == D.Allocated(d1, os, a, 0);
      D.AllocatedOutcome(d1, os, a, 0);
    }
  }

  /** The host's side of Allocate: NULL comes back as the failure (396, 4), any other address as the pointer, truncated to 64 bits. */
  lemma AllocateAnswered(l: Link, alloc: string, size: Commands.SizeOrType, align: Option<int>, ptr: nat, rest: Bytes, max: nat)
    requires max > 0 && !l.closed && AllocateArgs(alloc, align)
    ensures var s := H.Step(l.(inbox := AllocateReply(ptr) + rest), H.Allocate(alloc, size, align), max);
      && s.0.inbox == rest
      && s.1 == Some(if ptr == 0 then Fail(Failure(MakeResult(NxipcModule, 4))) else Ok(H.Pointer(Wrap(ptr, PointerSize))))
  {
    AllocateBytes(alloc, size, align);
    StepOpen(l.(inbox := AllocateReply(ptr) + rest), H.Allocate(alloc, size, align), max);
    if ptr == 0 {
      StatusIsFailure(4);
      FailureRead(MakeResult(NxipcModule, 4), rest, PointerSize, max);
    } else {
      RecordRead(LE(ptr, PointerSize), rest, max);
      FromLEOfLE(ptr, PointerSize);
    }
  }

  /**
   * Allocate: the server consumes exactly the host's request and makes one
   * allocation of the kind the host named, with the size (and, for
   * memalign, the alignment) truncated to 64 bits; the host gets the
   * address, or the failure (396, 4) for NULL, and reads nothing more.
   */
  lemma AllocateAgrees(l: Link, d: D.Dev, stream: nat -> Byte, os: D.Os,
                       alloc: string, size: Commands.SizeOrType, align: Option<int>, rest: Bytes, max: nat)
    requires max > 0 && !l.closed && AllocateArgs(alloc, align)
    requires Carries(stream, d.pos, Request(H.Allocate(alloc, size, align)))
    ensures var t := D.TurnSpec(d, stream, os);
      var ptr := os.allocate(d.allocs, Commands.AllocCode(alloc).value, Wrap(Commands.SizeOf(size), 8),
                             if alloc == "memalign" then Wrap(align.value, PointerSize) else 0);
      && !t.1 && t.0.pos == d.pos + |Request(H.Allocate(alloc, size, align))| && t.0.allocs == d.allocs + 1
      && D.Output(t.0) == D.Output(d) + AllocateReply(ptr)
    ensures var ptr := os.allocate(d.allocs, Commands.AllocCode(alloc).value, Wrap(Commands.SizeOf(size), 8),
                                   if alloc == "memalign" then Wrap(align.value, PointerSize) else 0);
      var s := H.Step(l.(inbox := AllocateReply(ptr) + rest), H.Allocate(alloc, size, align), max);
      && s.0.inbox == rest
      && s.1 == Some(if ptr == 0 then Fail(Failure(MakeResult(NxipcModule, 4))) else Ok(H.Pointer(Wrap(ptr, PointerSize))))
  {
    AllocateBytes(alloc, size, align);
    var a := Allocation(Commands.AllocCode(alloc).value, Wrap(Commands.SizeOf(size), 8));
    var alignBytes := if alloc == "memalign" then LE(align.value, PointerSize) else [];
    AllocateTurn(d, stream, os, EncodeAllocation(a) + alignBytes);
    AllocateArgsRead(D.Recv(d, stream, 1).0, stream, os, a, alignBytes);
    if alloc == "memalign" {
      FromLEOfLE(align.value, PointerSize);
    }
    AllocateAnswered(l, alloc, size, align,
      os.allocate(d.allocs, a.kind, a.size, if alloc == "memalign" then Wrap(align.value, PointerSize) else 0), rest, max);
  }

  // ---------------------------------------------------------------------------
  // Read and Write

  /** A 64-bit field holds any value below 2^64 unchanged. */
  lemma WrapSmall(n: nat)
    requires n < Pow256(8)
    ensures Wrap(n, 8) == n
  {
    Widths();
  }

  lemma ReadBytes(ptr: int, n: nat)
    requires n < Pow256(8)
    ensures Request(H.Read(ptr, Commands.Size(n))) == [OpRead] + EncodeMemInfo(MemInfo(Wrap(ptr, 8), n))
  {
    WrapSmall(n);
    FlattenTwo([OpRead], Commands.InfoImage(ptr, n));
  }

  lemma ReadTurn(d: D.Dev, stream: nat -> Byte, os: D.Os, body: Bytes)
    requires Carries(stream, d.pos, [OpRead] + body)
    ensures D.Recv(d, stream, 1).0.pos == d.pos + 1 && Carries(stream, D.Recv(d, stream, 1).0.pos, body)
    ensures D.TurnSpec(d, stream, os) == (D.ReadSpec(D.Recv(d, stream, 1).0, stream, os), false)
  {
    var d0 := D.Recv(d, stream, 1).0;
    TurnOn(d, stream, os, OpRead, body);
    assert D.CommandSpec(d0, stream, os, OpRead) == (D.ReadSpec(d0, stream, os), false);
  }

  /** After the opcode, Read consumes the `{ptr, size}` record and answers Result 0 and the memory it names. */
  lemma ReadArgs(d: D.Dev, stream: nat -> Byte, os: D.Os, info: MemInfo)
    requires Carries(stream, d.pos, EncodeMemInfo(info))
    ensures var after := D.ReadSpec(d, stream, os);
      && after.pos == d.pos + MemInfoSize && after.mem == d.mem
      && D.Output(after) == D.Output(d) + (D.Success() + D.Load(d.mem, os.initial, info.ptr, info.size))
  {
    MemInfoRoundTrip(info);
    var d1 := D.Recv(d, stream, MemInfoSize).0;
    D.EmitOutput(d1, D.Success());
    D.EmitOutput(D.Emit(d1, D.Success()), D.Load(d1.mem, os.initial, info.ptr, info.size));
    AppendAssoc(D.Output(d), D.Success(), D.Load(d1.mem, os.initial, info.ptr, info.size));
  }

  /** The server's side of Read: the opcode and the record consumed, Result 0 and the bytes at the record's address written. */
  lemma ReadServed(d: D.Dev, stream: nat -> Byte, os: D.Os, info: MemInfo)
    requires Carries(stream, d.pos, [OpRead] + EncodeMemInfo(info))
    ensures var t := D.TurnSpec(d, stream, os);
      && !t.1 && t.0.pos == d.pos + 1 + MemInfoSize && t.0.mem == d.mem
      && D.Output(t.0) == D.Output(d) + (D.Success() + D.Load(d.mem, os.initial, info.ptr, info.size))
  {
    ReadTurn(d, stream, os, EncodeMemInfo(info));
    ReadArgs(D.Recv(d, stream, 1).0, stream, os, info);
  }

  /** The host's side of Read: after Result 0 exactly the n bytes it asked for, and nothing more. */
  lemma ReadAnswered(l: Link, ptr: int, payload: Bytes, rest: Bytes, max: nat)
    requires max > 0 && !l.closed && |payload| > 0
    ensures var s := H.Step(l.(inbox := (D.Success() + payload) + rest), H.Read(ptr, Commands.Size(|payload|)), max);
      s.0.inbox == rest && s.1 == Some(Ok(H.Value(Raw(payload))))
  {
    var cmd := H.Read(ptr, Commands.Size(|payload|));
    StepOpen(l.(inbox := (D.Success() + payload) + rest), cmd, max);
    AppendAssoc(D.Success(), payload, rest);
    SuccessRead(payload + rest, max);
    assert ReadSize([Count(|payload|)]) == Ok(|payload|);
    assert (payload + rest)[..|payload|] == payload;
    assert (payload + rest)[|payload|..] == rest;
  }

  /**
   * Read: the server consumes exactly the host's request and answers with
   * the n bytes at the address the host named (truncated to 64 bits); the
   * host returns exactly those bytes and reads nothing more.
   */
  lemma ReadAgrees(l: Link, d: D.Dev, stream: nat -> Byte, os: D.Os, ptr: int, n: nat, rest: Bytes, max: nat)
    requires max > 0 && !l.closed && 0 < n < Pow256(8)
    requires Carries(stream, d.pos, Request(H.Read(ptr, Commands.Size(n))))
    ensures var t := D.TurnSpec(d, stream, os);
      && !t.1 && t.0.pos == d.pos + |Request(H.Read(ptr, Commands.Size(n)))| && t.0.mem == d.mem
      && D.Output(t.0) == D.Output(d) + (D.Success() + D.Load(d.mem, os.initial, Wrap(ptr, 8), n))
    ensures var payload := D.Load(d.mem, os.initial, Wrap(ptr, 8), n);
      var s := H.Step(l.(inbox := (D.Success() + payload) + rest), H.Read(ptr, Commands.Size(n)), max);
      s.0.inbox == rest && s.1 == Some(Ok(H.Value(Raw(payload))))
  {
    ReadBytes(ptr, n);
    ReadServed(d, stream, os, MemInfo(Wrap(ptr, 8), n));
    ReadAnswered(l, ptr, D.Load(d.mem, os.initial, Wrap(ptr, 8), n), rest, max);
  }

  lemma WriteBytes(ptr: int, payload: Bytes)
    requires |payload| < Pow256(8)
    ensures Request(H.Write(ptr, payload)) == [OpWrite] + (EncodeMemInfo(MemInfo(Wrap(ptr, 8), |payload|)) + payload)
  {
    WrapSmall(|payload|);
    var info := Commands.InfoImage(ptr, |payload|);
    FlattenThree([OpWrite], info, payload);
    AppendAssoc([OpWrite], info, payload);
  }

  lemma WriteTurn(d: D.Dev, stream: nat -> Byte, os: D.Os, body: Bytes)
    requires Carries(stream, d.pos, [OpWrite] + body)
    ensures D.Recv(d, stream, 1).0.pos == d.pos + 1 && Carries(stream, D.Recv(d, stream, 1).0.pos, body)
    ensures D.TurnSpec(d, stream, os) == (D.WriteSpec(D.Recv(d, stream, 1).0, stream), false)
  {
    var d0 := D.Recv(d, stream, 1).0;
    TurnOn(d, stream, os, OpWrite, body);
    assert D.CommandSpec(d0, stream, os, OpWrite) == (D.WriteSpec(d0, stream), false);
  }

  /** After the opcode, Write consumes the record and exactly the payload it announces, stores the payload and answers Result 0. */
  lemma WriteArgs(d: D.Dev, stream: nat -> Byte, os: D.Os, info: MemInfo, payload: Bytes)
    requires |payload| == info.size && Carries(stream, d.pos, EncodeMemInfo(info) + payload)
    ensures var after := D.WriteSpec(d, stream);
      && after.pos == d.pos + MemInfoSize + |payload|
      && D.Output(after) == D.Output(d) + D.Success()
      && D.Load(after.mem, os.initial, info.ptr, info.size) == payload
  {
    CarriesSplit(stream, d.pos, EncodeMemInfo(info), payload);
    MemInfoRoundTrip(info);
    D.WriteThenRead(d, stream, os, 0, 0);
  }

  /** The server's side of Write: the opcode, the record and the payload consumed, the payload stored at the record's address, Result 0 written. */
  lemma WriteServed(d: D.Dev, stream: nat -> Byte, os: D.Os, info: MemInfo, payload: Bytes)
    requires |payload| == info.size && Carries(stream, d.pos, [OpWrite] + (EncodeMemInfo(info) + payload))
    ensures var t := D.TurnSpec(d, stream, os);
      && !t.1 && t.0.pos == d.pos + 1 + MemInfoSize + |payload|
      && D.Output(t.0) == D.Output(d) + D.Success()
      && D.Load(t.0.mem, os.initial, info.ptr, info.size) == payload
  {
    WriteTurn(d, stream, os, EncodeMemInfo(info) + payload);
    WriteArgs(D.Recv(d, stream, 1).0, stream, os, info, payload);
  }

  /**
   * Write: the server consumes exactly the host's request, the payload
   * included, and afterwards its memory at the address the host named
   * (truncated to 64 bits) holds the payload; the host reads Result 0 and
   * nothing more.
   */
  lemma WriteAgrees(l: Link, d: D.Dev, stream: nat -> Byte, os: D.Os, ptr: int, payload: Bytes, rest: Bytes, max: nat)
    requires max > 0 && !l.closed && |payload| < Pow256(8)
    requires Carries(stream, d.pos, Request(H.Write(ptr, payload)))
    ensures var t := D.TurnSpec(d, stream, os);
      && !t.1 && t.0.pos == d.pos + |Request(H.Write(ptr, payload))|
      && D.Load(t.0.mem, os.initial, Wrap(ptr, 8), |payload|) == payload
      && D.Output(t.0) == D.Output(d) + D.Success()
    ensures var s := H.Step(l.(inbox := D.Success() + rest), H.Write(ptr, payload), max);
      s.1 == Some(Ok(H.Value(NoValue))) && s.0.inbox == rest
  {
    WriteBytes(ptr, payload);
    WriteServed(d, stream, os, MemInfo(Wrap(ptr, 8), |payload|), payload);
    SuccessAnswered(l, H.Write(ptr, payload), rest, max);
  }

  // ---------------------------------------------------------------------------
  // GetService and ConvertServiceToDomain

  /** A failure word in answer to a command that expects a record: the failure, and nothing more read. */
  lemma RecordFailAnswered(l: Link, cmd: H.Command, w: Result, rest: Bytes, max: nat)
    requires max > 0 && !l.closed && H.CommandSending(cmd).error.None? && w.value != 0
    requires cmd.GetService? || cmd.ConvertServiceToDomain?
    ensures var s := H.Step(l.(inbox := EncodeResult(w) + rest), cmd, max);
      s.0.inbox == rest && s.1 == Some(Fail(Failure(w)))
  {
    StepOpen(l.(inbox := EncodeResult(w) + rest), cmd, max);
    FailureRead(w, rest, ServiceSize, max);
  }

  /** Result 0 and a 16-byte record in answer to such a command: the decoded record, and nothing more read. */
  lemma RecordOkAnswered(l: Link, cmd: H.Command, x: Bytes, rest: Bytes, max: nat)
    requires max > 0 && !l.closed && H.CommandSending(cmd).error.None? && |x| == ServiceSize
    requires cmd.GetService? || cmd.ConvertServiceToDomain?
    ensures var s := H.Step(l.(inbox := D.Success() + x + rest), cmd, max);
      s.0.inbox == rest && s.1 == Some(Ok(H.Record(DecodeService(x))))
  {
    StepOpen(l.(inbox := D.Success() + x + rest), cmd, max);
    RecordRead(x, rest, max);
  }

  /** The server's answer to GetService, given the registration query's answer q and the service manager's answer g. */
  function GetServiceReply(q: (u32, bool), g: (u32, Bytes)): Bytes
  {
    if q.0 != 0 then EncodeResult(Result(q.0))
    else if !q.1 then D.Status(1)
    else if g.0 != 0 then EncodeResult(Result(g.0))
    else D.Success() + D.Fit(g.1, ServiceSize)
  }

  /** What the host makes of that answer. */
  function GetServiceOutcome(q: (u32, bool), g: (u32, Bytes)): Outcome<H.Reply>
  {
    if q.0 != 0 then Fail(Failure(Result(q.0)))
    else if !q.1 then Fail(Failure(MakeResult(NxipcModule, 1)))
    else if g.0 != 0 then Fail(Failure(Result(g.0)))
    else Ok(H.Record(DecodeService(D.Fit(g.1, ServiceSize))))
  }

  lemma GetServiceBytes(name: Bytes)
    requires |NameValue(name)| <= NameSize
    ensures H.CommandSending(H.GetService(name)).error.None?
    ensures Request(H.GetService(name)) == [OpGetService] + EncodeName(name).value
  {
    FlattenTwo([OpGetService], EncodeName(name).value);
  }

  lemma GetServiceTurn(d: D.Dev, stream: nat -> Byte, os: D.Os, body: Bytes)
    requires Carries(stream, d.pos, [OpGetService] + body)
    ensures D.Recv(d, stream, 1).0.pos == d.pos + 1 && Carries(stream, D.Recv(d, stream, 1).0.pos, body)
    ensures D.TurnSpec(d, stream, os) == (D.GetServiceSpec(D.Recv(d, stream, 1).0, stream, os), false)
  {
    var d0 := D.Recv(d, stream, 1).0;
    TurnOn(d, stream, os, OpGetService, body);
    assert D.CommandSpec(d0, stream, os, OpGetService) == (D.GetServiceSpec(d0, stream, os), false);
  }

  lemma GetServiceArgs(d: D.Dev, stream: nat -> Byte, os: D.Os, nb: Bytes)
    requires |nb| == NameSize && Carries(stream, d.pos, nb)
    ensures var after := D.GetServiceSpec(d, stream, os);
      && after.pos == d.pos + NameSize
      && D.Output(after) == D.Output(d) + GetServiceReply(os.isRegistered(nb), os.getService(nb))
  {
    D.GetServiceOutcomes(d, stream, os);
    AppendAssoc(D.Output(d), D.Success(), D.Fit(os.getService(nb).1, ServiceSize));
    assert D.Output(d) + EncodeResult(Result(os.getService(nb).0)) + [] == D.Output(d) + EncodeResult(Result(os.getService(nb).0));
  }

  /**
   * The server's side of GetService: the opcode and the 8-byte name
   * consumed; the registration query and the service manager are asked
   * about exactly that name.
   */
  lemma GetServiceServed(d: D.Dev, stream: nat -> Byte, os: D.Os, nb: Bytes)
    requires |nb| == NameSize && Carries(stream, d.pos, [OpGetService] + nb)
    ensures var t := D.TurnSpec(d, stream, os);
      && !t.1 && t.0.pos == d.pos + 1 + NameSize
      && D.Output(t.0) == D.Output(d) + GetServiceReply(os.isRegistered(nb), os.getService(nb))
  {
    GetServiceTurn(d, stream, os, nb);
    GetServiceArgs(D.Recv(d, stream, 1).0, stream, os, nb);
  }

  /** The host's side of GetService: each answer of the server gives the matching failure or the record, and nothing more is read. */
  lemma GetServiceAnswered(l: Link, name: Bytes, q: (u32, bool), g: (u32, Bytes), rest: Bytes, max: nat)
    requires max > 0 && !l.closed && |NameValue(name)| <= NameSize
    ensures var s := H.Step(l.(inbox := GetServiceReply(q, g) + rest), H.GetService(name), max);
      s.0.inbox == rest && s.1 == Some(GetServiceOutcome(q, g))
  {
    GetServiceBytes(name);
    var cmd := H.GetService(name);
    if q.0 != 0 {
      RecordFailAnswered(l, cmd, Result(q.0), rest, max);
    } else if !q.1 {
      StatusIsFailure(1);
      RecordFailAnswered(l, cmd, MakeResult(NxipcModule, 1), rest, max);
    } else if g.0 != 0 {
      RecordFailAnswered(l, cmd, Result(g.0), rest, max);
    } else {
      RecordOkAnswered(l, cmd, D.Fit(g.1, ServiceSize), rest, max);
    }
  }

  /**
   * GetService: the server consumes exactly the host's request and asks
   * about the name the host packed. The host gets the registration
   * query's failure, the failure (396, 1) for an unregistered name, the
   * service manager's failure, or the record the server wrote, and reads
   * nothing more.
   */
  lemma GetServiceAgrees(l: Link, d: D.Dev, stream: nat -> Byte, os: D.Os, name: Bytes, rest: Bytes, max: nat)
    requires max > 0 && !l.closed && |NameValue(name)| <= NameSize
    requires Carries(stream, d.pos, Request(H.GetService(name)))
    ensures var t := D.TurnSpec(d, stream, os);
      var nb := EncodeName(name).value;
      && !t.1 && t.0.pos == d.pos + |Request(H.GetService(name))|
      && D.Output(t.0) == D.Output(d) + GetServiceReply(os.isRegistered(nb), os.getService(nb))
    ensures var nb := EncodeName(name).value;
      var s := H.Step(l.(inbox := GetServiceReply(os.isRegistered(nb), os.getService(nb)) + rest), H.GetService(name), max);
      s.0.inbox == rest && s.1 == Some(GetServiceOutcome(os.isRegistered(nb), os.getService(nb)))
  {
    var nb := EncodeName(name).value;
    GetServiceBytes(name);
    GetServiceServed(d, stream, os, nb);
    GetServiceAnswered(l, name, os.isRegistered(nb), os.getService(nb), rest, max);
  }

  /** The server's answer to ConvertServiceToDomain, given the conversion's answer c. */
  function ConvertReply(c: (u32, Bytes)): Bytes
  {
    if c.0 != 0 then EncodeResult(Result(c.0)) else D.Success() + D.Fit(c.1, ServiceSize)
  }

  function ConvertOutcome(c: (u32, Bytes)): Outcome<H.Reply>
  {
    if c.0 != 0 then Fail(Failure(Result(c.0))) else Ok(H.Record(DecodeService(D.Fit(c.1, ServiceSize))))
  }

  lemma ConvertTurn(d: D.Dev, stream: nat -> Byte, os: D.Os, body: Bytes)
    requires Carries(stream, d.pos, [OpConvertServiceToDomain] + body)
    ensures D.Recv(d, stream, 1).0.pos == d.pos + 1 && Carries(stream, D.Recv(d, stream, 1).0.pos, body)
    ensures D.TurnSpec(d, stream, os) == (D.ConvertSpec(D.Recv(d, stream, 1).0, stream, os), false)
  {
    var d0 := D.Recv(d, stream, 1).0;
    TurnOn(d, stream, os, OpConvertServiceToDomain, body);
    assert D.CommandSpec(d0, stream, os, OpConvertServiceToDomain) == (D.ConvertSpec(d0, stream, os), false);
  }

  /** After the opcode, ConvertServiceToDomain consumes the record and converts exactly it; the converted record follows only a zero Result. */
  lemma ConvertArgs(d: D.Dev, stream: nat -> Byte, os: D.Os, record: Bytes)
    requires |record| == ServiceSize && Carries(stream, d.pos, record)
    ensures var after := D.ConvertSpec(d, stream, os);
      && after.pos == d.pos + ServiceSize
      && D.Output(after) == D.Output(d) + ConvertReply(os.convert(record))
  {
    var d1 := D.Recv(d, stream, ServiceSize).0;
    var c := os.convert(record);
    D.EmitOutput(d1, EncodeResult(Result(c.0)));
    D.EmitOutput(D.Emit(d1, EncodeResult(Result(c.0))), D.Fit(c.1, ServiceSize));
    AppendAssoc(D.Output(d), D.Success(), D.Fit(c.1, ServiceSize));
  }

  lemma ConvertServed(d: D.Dev, stream: nat -> Byte, os: D.Os, record: Bytes)
    requires |record| == ServiceSize && Carries(stream, d.pos, [OpConvertServiceToDomain] + record)
    ensures var t := D.TurnSpec(d, stream, os);
      && !t.1 && t.0.pos == d.pos + 1 + ServiceSize
      && D.Output(t.0) == D.Output(d) + ConvertReply(os.convert(record))
  {
    ConvertTurn(d, stream, os, record);
    ConvertArgs(D.Recv(d, stream, 1).0, stream, os, record);
  }

  lemma ConvertAnswered(l: Link, srv: ServiceStruct, c: (u32, Bytes), rest: Bytes, max: nat)
    requires max > 0 && !l.closed
    ensures var s := H.Step(l.(inbox := ConvertReply(c) + rest), H.ConvertServiceToDomain(srv), max);
      s.0.inbox == rest && s.1 == Some(ConvertOutcome(c))
  {
    var cmd := H.ConvertServiceToDomain(srv);
    if c.0 != 0 {
      RecordFailAnswered(l, cmd, Result(c.0), rest, max);
    } else {
      RecordOkAnswered(l, cmd, D.Fit(c.1, ServiceSize), rest, max);
    }
  }

  /**
   * ConvertServiceToDomain: the server consumes exactly the host's request
   * and converts the record the host sent; the host gets the conversion's
   * failure or the converted record, and reads nothing more.
   */
  lemma ConvertAgrees(l: Link, d: D.Dev, stream: nat -> Byte, os: D.Os, srv: ServiceStruct, rest: Bytes, max: nat)
    requires max > 0 && !l.closed
    requires Carries(stream, d.pos, Request(H.ConvertServiceToDomain(srv)))
    ensures var t := D.TurnSpec(d, stream, os);
      && !t.1 && t.0.pos == d.pos + |Request(H.ConvertServiceToDomain(srv))|
      && D.Output(t.0) == D.Output(d) + ConvertReply(os.convert(EncodeService(srv)))
    ensures var s := H.Step(l.(inbox := ConvertReply(os.convert(EncodeService(srv))) + rest), H.ConvertServiceToDomain(srv), max);
      s.0.inbox == rest && s.1 == Some(ConvertOutcome(os.convert(EncodeService(srv))))
  {
    FlattenTwo([OpConvertServiceToDomain], EncodeService(srv));
    ConvertServed(d, stream, os, EncodeService(srv));
    ConvertAnswered(l, srv, os.convert(EncodeService(srv)), rest, max);
  }

  // ---------------------------------------------------------------------------
  // DispatchToService: the buffers

  /** Keeping the low 32 bits of an attribute keeps its In and Out bits. */
  lemma AttrWrapBits(x: nat)
    ensures IsIn(Wrap(x, 4)) == IsIn(x) && IsOut(Wrap(x, 4)) == IsOut(x)
  {
    Widths();
    var q := x / 4294967296;
    var r := x % 4294967296;
    assert Wrap(x, 4) == r;
    assert Util.Pow2(1) == 2 * Util.Pow2(0) == 2;
    assert IsIn(r) == (r % 2 == 1) && IsIn(x) == (x % 2 == 1);
    assert IsOut(r) == ((r / 2) % 2 == 1) && IsOut(x) == ((x / 2) % 2 == 1);
    HalfOfEven(2147483648 * q, r);
    HalfOfEven(1073741824 * q, r / 2);
  }

  /** Adding an even number changes neither the low bit nor, after halving, anything but the half. */
  lemma HalfOfEven(k: nat, b: nat)
    ensures (2 * k + b) % 2 == b % 2 && (2 * k + b) / 2 == k + b / 2
  {
  }

  /**
   * A buffer entry the server reads as the host meant it: it can be sized,
   * its payload can be turned into bytes, its size fits the 64-bit field,
   * and a payload sent after a non-pointer descriptor is exactly as long as
   * the size in that descriptor.
   */
  predicate Fits(e: Dispatch.BufferEntry)
  {
    && Dispatch.Resolve(e).Ok? && Dispatch.BufferSending(e).error.None?
    && 0 <= Dispatch.Resolve(e).value.size < Pow256(8)
    && (var r := Dispatch.Resolve(e).value;
        Dispatch.SendsPayload(r) && !r.first.PointerArg? ==>
          Dispatch.ArgBytes(r.first).Ok? && |Dispatch.ArgBytes(r.first).value| == r.size)
  }

  /**
   * Only an explicit size can disagree with the payload: an entry sized
   * from its own object always sends as many bytes as its descriptor
   * announces.
   */
  lemma EntryFits(e: Dispatch.BufferEntry)
    requires e.Entry? && Dispatch.BufferSending(e).error.None?
    requires Dispatch.Resolve(e).Ok? && 0 <= Dispatch.Resolve(e).value.size < Pow256(8)
    ensures Fits(e)
  {
  }

  /** An explicit size of 2 with a one-byte input payload: the host sends one byte, the server reads two. */
  lemma SizedMismatch()
    ensures var e := Dispatch.SizedEntry(Dispatch.BytesArg([0]), 2, Bits(1));
      && Dispatch.BufferSending(e).error.None?
      && IsIn(Dispatch.Resolve(e).value.attr)
      && |Dispatch.ArgBytes(e.first).value| != Dispatch.Resolve(e).value.size
      && !Fits(e)
  {
    assert Util.Pow2(0) == 1;
  }

  /** The bytes of one buffer entry on the wire. */
  function BufferBytes(e: Dispatch.BufferEntry): Bytes
  {
    Flatten(Dispatch.BufferSending(e).writes)
  }

  lemma BufferBytesShape(e: Dispatch.BufferEntry)
    requires Fits(e)
    ensures var r := Dispatch.Resolve(e).value;
      BufferBytes(e) == EncodeBufferDesc(Dispatch.Descriptor(r))
        + (if Dispatch.SendsPayload(r) then Dispatch.ArgBytes(r.first).value else [])
  {
    var r := Dispatch.Resolve(e).value;
    var desc := EncodeBufferDesc(Dispatch.Descriptor(r));
    if Dispatch.SendsPayload(r) {
      FlattenTwo(desc, Dispatch.ArgBytes(r.first).value);
    } else {
      assert Flatten([desc]) == desc + Flatten([]);
    }
  }

  /** The server's side of one buffer, given the descriptor and the payload that follow its cursor. */
  lemma RecvBufferOf(d: D.Dev, stream: nat -> Byte, os: D.Os, desc: BufferDesc, payload: Bytes)
    requires Carries(stream, d.pos, EncodeBufferDesc(desc) + payload)
    requires |payload| == if desc.isPointer then PointerSize else if IsIn(desc.attr) then desc.size else 0
    ensures var rb := D.RecvBuffer(d, stream, os);
      && rb.0.pos == d.pos + BufferDescSize + |payload|
      && rb.1.desc == desc
      && (desc.isPointer ==> rb.1.ptr == FromLE(payload))
      && (!desc.isPointer && IsIn(desc.attr) ==> D.Load(rb.0.mem, os.initial, rb.1.ptr, desc.size) == payload)
  {
    CarriesSplit(stream, d.pos, EncodeBufferDesc(desc), payload);
    BufferDescRoundTrip(desc);
    var r1 := D.Recv(d, stream, BufferDescSize);
    assert DecodeBufferDesc(r1.1) == desc;
    var d1 := r1.0;
    if desc.isPointer {
      var r2 := D.Recv(d1, stream, PointerSize);
      assert r2.1 == payload;
      assert D.RecvBuffer(d, stream, os) == (r2.0, D.Slot(desc, FromLE(payload)));
    } else {
      var ptr := os.allocate(d1.allocs, KindMalloc, desc.size, 0);
      var d2 := d1.(allocs := d1.allocs + 1);
      if IsIn(desc.attr) {
        var r3 := D.Recv(d2, stream, desc.size);
        assert r3.1 == payload;
        assert D.RecvBuffer(d, stream, os) == (r3.0.(mem := D.Store(r3.0.mem, ptr, payload)), D.Slot(desc, ptr));
        D.StoreLoad(r3.0.mem, os.initial, ptr, payload, 0, 0);
      } else {
        assert D.RecvBuffer(d, stream, os) == (d2, D.Slot(desc, ptr));
      }
    }
  }

  /**
   * One buffer: the server reads back the descriptor the host packed and
   * consumes exactly the entry's bytes; a pointer buffer gets the host's
   * address (truncated to 64 bits), and an input buffer the server
   * allocates holds the host's payload.
   */
  lemma BufferAgrees(e: Dispatch.BufferEntry, d: D.Dev, stream: nat -> Byte, os: D.Os)
    requires Fits(e) && Carries(stream, d.pos, BufferBytes(e))
    ensures var rb := D.RecvBuffer(d, stream, os);
      var r := Dispatch.Resolve(e).value;
      && rb.0.pos == d.pos + |BufferBytes(e)|
      && rb.1.desc == Dispatch.Descriptor(r)
      && (r.first.PointerArg? ==> rb.1.ptr == Wrap(r.first.addr, PointerSize))
      && (!r.first.PointerArg? && IsIn(r.attr) ==>
            D.Load(rb.0.mem, os.initial, rb.1.ptr, r.size) == Dispatch.ArgBytes(r.first).value)
  {
    var r := Dispatch.Resolve(e).value;
    var desc := Dispatch.Descriptor(r);
    var payload := if Dispatch.SendsPayload(r) then Dispatch.ArgBytes(r.first).value else [];
    BufferBytesShape(e);
    AttrWrapBits(r.attr);
    WrapSmall(r.size);
    assert desc.size == r.size && desc.isPointer == r.first.PointerArg? && IsIn(desc.attr) == IsIn(r.attr);
    if r.first.PointerArg? {
      FromLEOfLE(r.first.addr, PointerSize);
    }
    RecvBufferOf(d, stream, os, desc, payload);
  }

  /** The bytes of the buffer loop on the wire. */
  function BuffersBytes(bs: seq<Dispatch.BufferEntry>): Bytes
  {
    Flatten(Dispatch.FollowAll(Dispatch.BufferSendings(bs)).writes)
  }

  /** Without an exception, the loop's bytes are those of the earlier entries, then the last one's. */
  lemma BuffersBytesSnoc(bs: seq<Dispatch.BufferEntry>)
    requires bs != [] && forall i :: 0 <= i < |bs| ==> Fits(bs[i])
    ensures BuffersBytes(bs) == BuffersBytes(bs[..|bs| - 1]) + BufferBytes(bs[|bs| - 1])
  {
    var n := |bs| - 1;
    var ss := Dispatch.BufferSendings(bs);
    assert ss[..n] == Dispatch.BufferSendings(bs[..n]);
    Dispatch.FollowAllError(ss[..n]);
    var p := Dispatch.FollowAll(ss[..n]);
    assert Dispatch.FollowAll(ss).writes == p.writes + ss[n].writes;
    FlattenAppend(p.writes, ss[n].writes);
  }

  /** A buffer as it travels: its descriptor, then its payload. */
  datatype Item = Item(desc: BufferDesc, payload: Bytes)

  /** The payload the server expects after a descriptor: an address, the In data, or nothing. */
  predicate WellFormed(it: Item)
  {
    |it.payload| == if it.desc.isPointer then PointerSize else if IsIn(it.desc.attr) then it.desc.size else 0
  }

  function ItemsBytes(items: seq<Item>): Bytes
  {
    if items == [] then []
    else ItemsBytes(items[..|items| - 1]) + (EncodeBufferDesc(items[|items| - 1].desc) + items[|items| - 1].payload)
  }

  /** The server's slots hold the items' descriptors, and the address in every pointer item. */
  predicate SlotsCarry(items: seq<Item>, slots: seq<D.Slot>)
  {
    && |slots| == |items|
    && (forall i :: 0 <= i < |items| ==> slots[i].desc == items[i].desc)
    && (forall i :: 0 <= i < |items| && items[i].desc.isPointer ==> slots[i].ptr == FromLE(items[i].payload))
  }

  lemma SlotsCarrySnoc(items: seq<Item>, slots: seq<D.Slot>, s: D.Slot)
    requires items != [] && SlotsCarry(items[..|items| - 1], slots)
    requires s.desc == items[|items| - 1].desc
    requires s.desc.isPointer ==> s.ptr == FromLE(items[|items| - 1].payload)
    ensures SlotsCarry(items, slots + [s])
  {
    var n := |items| - 1;
    forall i | 0 <= i < n
      ensures items[..n][i] == items[i]
    {
    }
  }

  /** The server's buffer loop over well-formed items: it consumes exactly their bytes and keeps their descriptors and addresses. */
  lemma {:induction false} RecvItems(items: seq<Item>, d: D.Dev, stream: nat -> Byte, os: D.Os)
    requires forall i :: 0 <= i < |items| ==> WellFormed(items[i])
    requires Carries(stream, d.pos, ItemsBytes(items))
    ensures var rb := D.RecvBuffers(d, stream, os, |items|);
      rb.0.pos == d.pos + |ItemsBytes(items)| && SlotsCarry(items, rb.1)
    decreases |items|
  {
    if items != [] {
      var n := |items| - 1;
      var init := items[..n];
      var last := items[n];
      CarriesSplit(stream, d.pos, ItemsBytes(init), EncodeBufferDesc(last.desc) + last.payload);
      assert forall i :: 0 <= i < n ==> init[i] == items[i];
      RecvItems(init, d, stream, os);
      var rb := D.RecvBuffers(d, stream, os, n);
      CarriesAfter(stream, d.pos, ItemsBytes(init), EncodeBufferDesc(last.desc) + last.payload, rb.0.pos);
      RecvBufferOf(rb.0, stream, os, last.desc, last.payload);
      SlotsCarrySnoc(items, rb.1, D.RecvBuffer(rb.0, stream, os).1);
    }
  }

  /** Two server buffers whose byte ranges do not overlap. */
  predicate Apart(s: D.Slot, t: D.Slot)
  {
    s.ptr + s.desc.size <= t.ptr || t.ptr + t.desc.size <= s.ptr
  }

  /** The buffers the server allocates for one request do not overlap, as malloc promises for blocks alive together. */
  predicate Disjoint(slots: seq<D.Slot>)
  {
    forall i, j :: 0 <= i < j < |slots| && !slots[i].desc.isPointer && !slots[j].desc.isPointer ==>
      Apart(slots[i], slots[j])
  }

  /** Receiving one buffer changes memory only inside the In buffer it allocates. */
  lemma RecvBufferFrame(d: D.Dev, stream: nat -> Byte, os: D.Os, q: nat, n: nat)
    ensures var rb := D.RecvBuffer(d, stream, os);
      (rb.1.desc.isPointer || !IsIn(rb.1.desc.attr) || q + n <= rb.1.ptr || rb.1.ptr + rb.1.desc.size <= q) ==>
        D.Load(rb.0.mem, os.initial, q, n) == D.Load(d.mem, os.initial, q, n)
  {
    var (d1, raw) := D.Recv(d, stream, BufferDescSize);
    var desc := DecodeBufferDesc(raw);
    if !desc.isPointer && IsIn(desc.attr) {
      var ptr := os.allocate(d1.allocs, KindMalloc, desc.size, 0);
      var d2 := d1.(allocs := d1.allocs + 1);
      var (d3, data) := D.Recv(d2, stream, desc.size);
      assert D.RecvBuffer(d, stream, os) == (d3.(mem := D.Store(d3.mem, ptr, data)), D.Slot(desc, ptr));
      D.StoreLoad(d.mem, os.initial, ptr, data, q, n);
    }
  }

  /** Every In buffer among the slots holds its item's payload. */
  predicate HoldsPayloads(mem: map<nat, Byte>, initial: nat -> Byte, slots: seq<D.Slot>, items: seq<Item>)
  {
    && |slots| == |items|
    && forall i :: 0 <= i < |items| && !items[i].desc.isPointer && IsIn(items[i].desc.attr) ==>
         D.Load(mem, initial, slots[i].ptr, items[i].desc.size) == items[i].payload
  }

  /**
   * The server's buffer loop over well-formed items, when the buffers it
   * allocates do not overlap: after the loop every In buffer it allocated
   * still holds the payload the host sent for it.
   */
  lemma {:induction false} RecvContents(items: seq<Item>, d: D.Dev, stream: nat -> Byte, os: D.Os)
    requires forall i :: 0 <= i < |items| ==> WellFormed(items[i])
    requires Carries(stream, d.pos, ItemsBytes(items))
    requires Disjoint(D.RecvBuffers(d, stream, os, |items|).1)
    ensures var rb := D.RecvBuffers(d, stream, os, |items|);
      HoldsPayloads(rb.0.mem, os.initial, rb.1, items)
    decreases |items|
  {
    if items != [] {
      var init := items[..|items| - 1];
      SentPrefix(items, d, stream, os);
      RecvContents(init, d, stream, os);
      ContentsSnoc(items, d, stream, os);
    }
  }

  /** What RecvContents asks of the items holds of all but the last of them. */
  lemma SentPrefix(items: seq<Item>, d: D.Dev, stream: nat -> Byte, os: D.Os)
    requires items != []
    requires forall i :: 0 <= i < |items| ==> WellFormed(items[i])
    requires Carries(stream, d.pos, ItemsBytes(items))
    requires Disjoint(D.RecvBuffers(d, stream, os, |items|).1)
    ensures var init := items[..|items| - 1];
      && (forall i :: 0 <= i < |init| ==> WellFormed(init[i]))
      && Carries(stream, d.pos, ItemsBytes(init))
      && Disjoint(D.RecvBuffers(d, stream, os, |init|).1)
  {
    var rb := D.RecvBuffers(d, stream, os, |items| - 1);
    RecvBuffersSnoc(d, stream, os, |items|);
    DisjointPrefix(rb.1, D.RecvBuffer(rb.0, stream, os).1);
    LastItem(items, d, stream, os);
  }

  /** RecvContents for the last item, given it for the earlier ones. */
  lemma ContentsSnoc(items: seq<Item>, d: D.Dev, stream: nat -> Byte, os: D.Os)
    requires items != []
    requires forall i :: 0 <= i < |items| ==> WellFormed(items[i])
    requires Carries(stream, d.pos, ItemsBytes(items))
    requires Disjoint(D.RecvBuffers(d, stream, os, |items|).1)
    requires var rb := D.RecvBuffers(d, stream, os, |items| - 1);
      HoldsPayloads(rb.0.mem, os.initial, rb.1, items[..|items| - 1])
    ensures var rb := D.RecvBuffers(d, stream, os, |items|);
      HoldsPayloads(rb.0.mem, os.initial, rb.1, items)
  {
    var rb := D.RecvBuffers(d, stream, os, |items| - 1);
    RecvBuffersSnoc(d, stream, os, |items|);
    LastItem(items, d, stream, os);
    ContentsStep(rb.0, stream, os, rb.1, items);
  }

  /** Before the last item: the earlier items are well formed and carried, their slots hold their descriptors, and the last item follows. */
  lemma LastItem(items: seq<Item>, d: D.Dev, stream: nat -> Byte, os: D.Os)
    requires items != []
    requires forall i :: 0 <= i < |items| ==> WellFormed(items[i])
    requires Carries(stream, d.pos, ItemsBytes(items))
    ensures var n := |items| - 1;
      var rb := D.RecvBuffers(d, stream, os, n);
      && (forall i :: 0 <= i < n ==> WellFormed(items[..n][i]))
      && Carries(stream, d.pos, ItemsBytes(items[..n]))
      && SlotsCarry(items[..n], rb.1)
      && WellFormed(items[n])
      && Carries(stream, rb.0.pos, EncodeBufferDesc(items[n].desc) + items[n].payload)
  {
    var n := |items| - 1;
    var init := items[..n];
    var last := items[n];
    CarriesSplit(stream, d.pos, ItemsBytes(init), EncodeBufferDesc(last.desc) + last.payload);
    assert forall i :: 0 <= i < n ==> init[i] == items[i];
    RecvItems(init, d, stream, os);
    var rb := D.RecvBuffers(d, stream, os, n);
    CarriesAfter(stream, d.pos, ItemsBytes(init), EncodeBufferDesc(last.desc) + last.payload, rb.0.pos);
  }

  /** The loop over m > 0 buffers is the loop over m - 1, then one more. */
  lemma RecvBuffersSnoc(d: D.Dev, stream: nat -> Byte, os: D.Os, m: nat)
    requires m > 0
    ensures var rb := D.RecvBuffers(d, stream, os, m - 1);
      var s := D.RecvBuffer(rb.0, stream, os);
      D.RecvBuffers(d, stream, os, m) == (s.0, rb.1 + [s.1])
  {
  }

  lemma DisjointPrefix(slots: seq<D.Slot>, s: D.Slot)
    requires Disjoint(slots + [s])
    ensures Disjoint(slots)
  {
    assert forall i :: 0 <= i < |slots| ==> (slots + [s])[i] == slots[i];
  }

  /** One more buffer: the earlier payloads stay in place, and the new In buffer holds the new payload. */
  lemma ContentsStep(d: D.Dev, stream: nat -> Byte, os: D.Os, slots: seq<D.Slot>, items: seq<Item>)
    requires items != []
    requires SlotsCarry(items[..|items| - 1], slots) && HoldsPayloads(d.mem, os.initial, slots, items[..|items| - 1])
    requires WellFormed(items[|items| - 1])
    requires Carries(stream, d.pos, EncodeBufferDesc(items[|items| - 1].desc) + items[|items| - 1].payload)
    requires Disjoint(slots + [D.RecvBuffer(d, stream, os).1])
    ensures var s := D.RecvBuffer(d, stream, os);
      HoldsPayloads(s.0.mem, os.initial, slots + [s.1], items)
  {
    var last := items[|items| - 1];
    var s := D.RecvBuffer(d, stream, os);
    RecvBufferOf(d, stream, os, last.desc, last.payload);
    KeepPayloads(d, stream, os, slots, items[..|items| - 1]);
    HoldsSnoc(s.0.mem, os.initial, slots, s.1, items);
  }

  /** The payloads held for the earlier items, and the last one's in its slot, are all the payloads held. */
  lemma HoldsSnoc(mem: map<nat, Byte>, initial: nat -> Byte, slots: seq<D.Slot>, t: D.Slot, items: seq<Item>)
    requires items != [] && HoldsPayloads(mem, initial, slots, items[..|items| - 1])
    requires var last := items[|items| - 1];
      !last.desc.isPointer && IsIn(last.desc.attr) ==> D.Load(mem, initial, t.ptr, last.desc.size) == last.payload
    ensures HoldsPayloads(mem, initial, slots + [t], items)
  {
    var n := |items| - 1;
    var all := slots + [t];
    forall i | 0 <= i < |items| && !items[i].desc.isPointer && IsIn(items[i].desc.attr)
      ensures D.Load(mem, initial, all[i].ptr, items[i].desc.size) == items[i].payload
    {
      if i < n {
        assert items[i] == items[..n][i] && all[i] == slots[i];
      }
    }
  }

  /** Receiving one more buffer into a block apart from the earlier ones keeps the payloads they hold. */
  lemma KeepPayloads(d: D.Dev, stream: nat -> Byte, os: D.Os, slots: seq<D.Slot>, items: seq<Item>)
    requires |slots| == |items| && forall i :: 0 <= i < |items| ==> slots[i].desc == items[i].desc
    requires forall i :: 0 <= i < |items| && !items[i].desc.isPointer && IsIn(items[i].desc.attr) ==>
      D.Load(d.mem, os.initial, slots[i].ptr, items[i].desc.size) == items[i].payload
    requires Disjoint(slots + [D.RecvBuffer(d, stream, os).1])
    ensures forall i :: 0 <= i < |items| && !items[i].desc.isPointer && IsIn(items[i].desc.attr) ==>
      D.Load(D.RecvBuffer(d, stream, os).0.mem, os.initial, slots[i].ptr, items[i].desc.size) == items[i].payload
  {
    var s := D.RecvBuffer(d, stream, os).1;
    var all := slots + [s];
    forall i | 0 <= i < |items| && !items[i].desc.isPointer && IsIn(items[i].desc.attr)
      ensures D.Load(D.RecvBuffer(d, stream, os).0.mem, os.initial, slots[i].ptr, items[i].desc.size) == items[i].payload
    {
      assert all[i] == slots[i] && all[|items|] == s;
      assert !s.desc.isPointer ==> Apart(slots[i], s);
      RecvBufferFrame(d, stream, os, slots[i].ptr, items[i].desc.size);
    }
  }

  /** The item an entry the host can send travels as. */
  function ItemOf(e: Dispatch.BufferEntry): Item
  {
    match Dispatch.Resolve(e)
    case Fail(_) => Item(BufferDesc(0, 0, false), [])
    case Ok(r) =>
      var payload := match Dispatch.ArgBytes(r.first) case Ok(p) => p case Fail(_) => [];
      Item(Dispatch.Descriptor(r), if Dispatch.SendsPayload(r) then payload else [])
  }

  function ItemsOf(bs: seq<Dispatch.BufferEntry>): (items: seq<Item>)
    ensures |items| == |bs| && forall i :: 0 <= i < |bs| ==> items[i] == ItemOf(bs[i])
  {
    seq(|bs|, i requires 0 <= i < |bs| => ItemOf(bs[i]))
  }

  /** An entry that fits travels as a well-formed item: its descriptor, then its payload, a pointer's being its address. */
  lemma ItemOfFits(e: Dispatch.BufferEntry)
    requires Fits(e)
    ensures WellFormed(ItemOf(e))
    ensures BufferBytes(e) == EncodeBufferDesc(ItemOf(e).desc) + ItemOf(e).payload
    ensures ItemOf(e).desc == Dispatch.Descriptor(Dispatch.Resolve(e).value)
    ensures e.first.PointerArg? ==> FromLE(ItemOf(e).payload) == Wrap(e.first.addr, PointerSize)
  {
    var r := Dispatch.Resolve(e).value;
    BufferBytesShape(e);
    AttrWrapBits(r.attr);
    WrapSmall(r.size);
    Dispatch.ResolveBits(e, 0);
    if r.first.PointerArg? {
      FromLEOfLE(r.first.addr, PointerSize);
    }
  }

  lemma {:induction false} ItemsBytesOf(bs: seq<Dispatch.BufferEntry>)
    requires forall i :: 0 <= i < |bs| ==> Fits(bs[i])
    ensures ItemsBytes(ItemsOf(bs)) == BuffersBytes(bs)
    decreases |bs|
  {
    if bs != [] {
      var n := |bs| - 1;
      assert ItemsOf(bs)[..n] == ItemsOf(bs[..n]);
      assert forall i :: 0 <= i < n ==> bs[..n][i] == bs[i];
      ItemsBytesOf(bs[..n]);
      BuffersBytesSnoc(bs);
      ItemOfFits(bs[n]);
    }
  }

  /** The items of entries that fit are well formed and carry the host's descriptors and addresses. */
  lemma ItemsOfFit(bs: seq<Dispatch.BufferEntry>)
    requires forall i :: 0 <= i < |bs| ==> Fits(bs[i])
    ensures forall i :: 0 <= i < |bs| ==> WellFormed(ItemsOf(bs)[i])
    ensures forall i :: 0 <= i < |bs| ==> ItemsOf(bs)[i].desc == DescOf(bs[i])
    ensures forall i :: 0 <= i < |bs| && bs[i].first.PointerArg? ==>
      ItemsOf(bs)[i].desc.isPointer && FromLE(ItemsOf(bs)[i].payload) == Wrap(bs[i].first.addr, PointerSize)
  {
    forall i | 0 <= i < |bs|
      ensures WellFormed(ItemOf(bs[i])) && ItemOf(bs[i]).desc == DescOf(bs[i])
      ensures bs[i].first.PointerArg? ==>
        ItemOf(bs[i]).desc.isPointer && FromLE(ItemOf(bs[i]).payload) == Wrap(bs[i].first.addr, PointerSize)
    {
      ItemOfFits(bs[i]);
    }
  }

  /** The descriptor the host packs for an entry it can size. */
  function DescOf(e: Dispatch.BufferEntry): BufferDesc
  {
    match Dispatch.Resolve(e)
    case Ok(r) => Dispatch.Descriptor(r)
    case Fail(_) => BufferDesc(0, 0, false)
  }

  /**
   * The buffer loop: the server consumes exactly the bytes of the host's
   * buffer loop and reads back, in order, the descriptor the host packed
   * for every entry, and the address of every pointer entry.
   */
  lemma BuffersAgree(bs: seq<Dispatch.BufferEntry>, d: D.Dev, stream: nat -> Byte, os: D.Os)
    requires forall i :: 0 <= i < |bs| ==> Fits(bs[i])
    requires Carries(stream, d.pos, BuffersBytes(bs))
    ensures var rb := D.RecvBuffers(d, stream, os, |bs|);
      && rb.0.pos == d.pos + |BuffersBytes(bs)|
      && (forall i :: 0 <= i < |bs| ==> rb.1[i].desc == DescOf(bs[i]))
      && (forall i :: 0 <= i < |bs| && bs[i].first.PointerArg? ==> rb.1[i].ptr == Wrap(bs[i].first.addr, PointerSize))
  {
    var items := ItemsOf(bs);
    ItemsBytesOf(bs);
    ItemsOfFit(bs);
    RecvItems(items, d, stream, os);
  }

  /** An In entry that is not a pointer travels as an In item holding exactly the entry's bytes. */
  lemma PayloadOf(e: Dispatch.BufferEntry)
    requires Fits(e)
    ensures !e.first.PointerArg? && IsIn(Dispatch.AttrOf(e)) ==>
      && !ItemOf(e).desc.isPointer && IsIn(ItemOf(e).desc.attr)
      && Dispatch.ArgBytes(e.first) == Ok(ItemOf(e).payload)
  {
    var r := Dispatch.Resolve(e).value;
    AttrWrapBits(r.attr);
    Dispatch.ResolveBits(e, 0);
  }

  /**
   * The buffer loop, when the buffers the server allocates do not overlap:
   * every In buffer that is not a pointer holds exactly the bytes of the
   * host's entry.
   */
  lemma BuffersContents(bs: seq<Dispatch.BufferEntry>, d: D.Dev, stream: nat -> Byte, os: D.Os)
    requires forall i :: 0 <= i < |bs| ==> Fits(bs[i])
    requires Carries(stream, d.pos, BuffersBytes(bs))
    requires Disjoint(D.RecvBuffers(d, stream, os, |bs|).1)
    ensures var rb := D.RecvBuffers(d, stream, os, |bs|);
      forall i :: 0 <= i < |bs| && !bs[i].first.PointerArg? && IsIn(Dispatch.AttrOf(bs[i])) ==>
        Dispatch.ArgBytes(bs[i].first) == Ok(D.Contents(rb.0.mem, os.initial, rb.1)[i])
  {
    var items := ItemsOf(bs);
    var rb := D.RecvBuffers(d, stream, os, |bs|);
    ItemsBytesOf(bs);
    ItemsOfFit(bs);
    RecvItems(items, d, stream, os);
    RecvContents(items, d, stream, os);
    forall i | 0 <= i < |bs| && !bs[i].first.PointerArg? && IsIn(Dispatch.AttrOf(bs[i]))
      ensures Dispatch.ArgBytes(bs[i].first) == Ok(D.Contents(rb.0.mem, os.initial, rb.1)[i])
    {
      PayloadOf(bs[i]);
      assert rb.1[i].desc == items[i].desc;
    }
  }

  // ---------------------------------------------------------------------------
  // DispatchToService: the read-back

  /** The entries with an explicit size whose attribute has the Out bit. */
  function SizedOuts(bs: seq<Dispatch.BufferEntry>): nat
  {
    if bs == [] then 0
    else
      var e := bs[|bs| - 1];
      SizedOuts(bs[..|bs| - 1]) + (if e.SizedEntry? && IsOut(Dispatch.AttrOf(e)) then 1 else 0)
  }

  lemma {:induction false} SizedOutsZero(bs: seq<Dispatch.BufferEntry>)
    ensures SizedOuts(bs) == 0 <==> forall i :: 0 <= i < |bs| ==> !(bs[i].SizedEntry? && IsOut(Dispatch.AttrOf(bs[i])))
    decreases |bs|
  {
    if bs != [] {
      var n := |bs| - 1;
      SizedOutsZero(bs[..n]);
      assert forall i :: 0 <= i < n ==> bs[..n][i] == bs[i];
    }
  }

  /** The server writes back one buffer per descriptor with the Out bit: every one the host reads back, and every sized one besides. */
  lemma WriteBackCount(bs: seq<Dispatch.BufferEntry>, slots: seq<D.Slot>, mem: map<nat, Byte>, initial: nat -> Byte)
    requires |slots| == |bs|
    requires forall i :: 0 <= i < |bs| ==> Fits(bs[i]) && slots[i].desc == DescOf(bs[i])
    ensures |D.OutImages(slots, mem, initial)| == Dispatch.ReadCount(bs) + SizedOuts(bs)
    decreases |bs|
  {
    forall i | 0 <= i < |bs|
      ensures CountsAlike(bs[i], slots[i])
    {
      WriteBackOne(bs[i], slots[i]);
    }
    WriteBackSum(bs, slots, mem, initial);
  }

  /** An entry's slot is written back exactly when the host reads the entry back or it is sized with the Out bit. */
  predicate CountsAlike(e: Dispatch.BufferEntry, slot: D.Slot)
  {
    (if IsOut(slot.desc.attr) then 1 else 0) ==
      (if Dispatch.BufferReadArgs(e).Some? then 1 else 0) + (if e.SizedEntry? && IsOut(Dispatch.AttrOf(e)) then 1 else 0)
  }

  lemma {:induction false} WriteBackSum(bs: seq<Dispatch.BufferEntry>, slots: seq<D.Slot>, mem: map<nat, Byte>, initial: nat -> Byte)
    requires |slots| == |bs| && forall i :: 0 <= i < |bs| ==> CountsAlike(bs[i], slots[i])
    ensures |D.OutImages(slots, mem, initial)| == Dispatch.ReadCount(bs) + SizedOuts(bs)
    decreases |bs|
  {
    if bs != [] {
      var n := |bs| - 1;
      assert forall i :: 0 <= i < n ==> bs[..n][i] == bs[i] && slots[..n][i] == slots[i];
      WriteBackSum(bs[..n], slots[..n], mem, initial);
      assert CountsAlike(bs[n], slots[n]);
    }
  }

  /** One entry of WriteBackCount: its slot is written back exactly when the host reads it back or it is sized with the Out bit. */
  lemma WriteBackOne(e: Dispatch.BufferEntry, slot: D.Slot)
    requires Fits(e) && slot.desc == DescOf(e)
    ensures (if IsOut(slot.desc.attr) then 1 else 0) ==
      (if Dispatch.BufferReadArgs(e).Some? then 1 else 0) + (if e.SizedEntry? && IsOut(Dispatch.AttrOf(e)) then 1 else 0)
  {
    var r := Dispatch.Resolve(e).value;
    AttrWrapBits(r.attr);
    assert IsOut(slot.desc.attr) == IsOut(Dispatch.AttrOf(e));
  }

  /**
   * After a successful dispatch the server writes back every buffer whose
   * attribute has the Out bit, while the host reads back only those without
   * an explicit size. The two counts agree exactly when no entry with an
   * explicit size has the Out bit; otherwise the host leaves that many
   * buffers unread.
   */
  lemma ReadBackAgrees(bs: seq<Dispatch.BufferEntry>, d: D.Dev, stream: nat -> Byte, os: D.Os, mem: map<nat, Byte>)
    requires forall i :: 0 <= i < |bs| ==> Fits(bs[i])
    requires Carries(stream, d.pos, BuffersBytes(bs))
    ensures var slots := D.RecvBuffers(d, stream, os, |bs|).1;
      |D.OutImages(slots, mem, os.initial)| == Dispatch.ReadCount(bs) + SizedOuts(bs)
    ensures var slots := D.RecvBuffers(d, stream, os, |bs|).1;
      |D.OutImages(slots, mem, os.initial)| == Dispatch.ReadCount(bs) <==>
        forall i :: 0 <= i < |bs| ==> !(bs[i].SizedEntry? && IsOut(Dispatch.AttrOf(bs[i])))
  {
    BuffersAgree(bs, d, stream, os);
    WriteBackCount(bs, D.RecvBuffers(d, stream, os, |bs|).1, mem, os.initial);
    SizedOutsZero(bs);
  }

  // ---------------------------------------------------------------------------
  // DispatchToService: the handles and the whole request

  /** Four-byte words back to back. */
  function WordsBytes(ws: seq<Bytes>): Bytes
  {
    if ws == [] then [] else WordsBytes(ws[..|ws| - 1]) + ws[|ws| - 1]
  }

  /** The server's handle loop over four-byte words: it consumes exactly them and reads each as a little-endian value. */
  lemma {:induction false} RecvWords(ws: seq<Bytes>, d: D.Dev, stream: nat -> Byte)
    requires forall j :: 0 <= j < |ws| ==> |ws[j]| == HandleSize
    requires Carries(stream, d.pos, WordsBytes(ws))
    ensures var rh := D.RecvHandles(d, stream, |ws|);
      && rh.0.pos == d.pos + |WordsBytes(ws)|
      && forall j :: 0 <= j < |ws| ==> rh.1[j] == FromLE(ws[j])
    decreases |ws|
  {
    if ws != [] {
      var n := |ws| - 1;
      var init := ws[..n];
      CarriesSplit(stream, d.pos, WordsBytes(init), ws[n]);
      assert forall j :: 0 <= j < n ==> init[j] == ws[j];
      RecvWords(init, d, stream);
      var rh := D.RecvHandles(d, stream, n);
      CarriesAfter(stream, d.pos, WordsBytes(init), ws[n], rh.0.pos);
      assert D.Recv(rh.0, stream, HandleSize).1 == ws[n];
    }
  }

  /** The bytes of the handle loop on the wire. */
  function HandlesBytes(hs: seq<Dispatch.Arg>): Bytes
  {
    Flatten(Dispatch.FollowAll(Dispatch.HandleSendings(hs)).writes)
  }

  /** A handle the server reads as the host meant it: its bytes are one 32-bit word. */
  predicate HandleFits(x: Dispatch.Arg)
  {
    Dispatch.ArgBytes(x).Ok? && |Dispatch.ArgBytes(x).value| == HandleSize
  }

  function HandleWord(x: Dispatch.Arg): Bytes
    requires HandleFits(x)
  {
    Dispatch.ArgBytes(x).value
  }

  function HandleWords(hs: seq<Dispatch.Arg>): (ws: seq<Bytes>)
    requires forall j :: 0 <= j < |hs| ==> HandleFits(hs[j])
    ensures |ws| == |hs| && forall j :: 0 <= j < |hs| ==> ws[j] == HandleWord(hs[j])
  {
    seq(|hs|, j requires 0 <= j < |hs| => HandleWord(hs[j]))
  }

  lemma {:induction false} HandlesBytesWords(hs: seq<Dispatch.Arg>)
    requires forall j :: 0 <= j < |hs| ==> HandleFits(hs[j])
    ensures Dispatch.FollowAll(Dispatch.HandleSendings(hs)).error.None?
    ensures HandlesBytes(hs) == WordsBytes(HandleWords(hs))
    decreases |hs|
  {
    if hs != [] {
      var n := |hs| - 1;
      var ss := Dispatch.HandleSendings(hs);
      assert ss[..n] == Dispatch.HandleSendings(hs[..n]);
      assert HandleWords(hs)[..n] == HandleWords(hs[..n]);
      HandlesBytesWords(hs[..n]);
      var p := Dispatch.FollowAll(ss[..n]);
      assert Dispatch.FollowAll(ss).writes == p.writes + [Dispatch.ArgBytes(hs[n]).value];
      FlattenAppend(p.writes, [Dispatch.ArgBytes(hs[n]).value]);
      assert Flatten([Dispatch.ArgBytes(hs[n]).value]) == Dispatch.ArgBytes(hs[n]).value + Flatten([]);
    }
  }

  /**
   * The handle loop: the server consumes exactly the host's handle bytes
   * and reads back every handle the host supplied, in order.
   */
  lemma HandlesAgree(hs: seq<Dispatch.Arg>, d: D.Dev, stream: nat -> Byte)
    requires forall j :: 0 <= j < |hs| ==> HandleFits(hs[j])
    requires Carries(stream, d.pos, HandlesBytes(hs))
    ensures var rh := D.RecvHandles(d, stream, |hs|);
      && rh.0.pos == d.pos + |HandlesBytes(hs)|
      && forall j :: 0 <= j < |hs| ==> rh.1[j] == FromLE(HandleWord(hs[j]))
  {
    HandlesBytesWords(hs);
    RecvWords(HandleWords(hs), d, stream);
  }

  /**
   * A request the server reads as the host meant it: the input data, the
   * number of buffers and the number of handles fit their header fields,
   * every buffer entry fits and every handle is one 32-bit word.
   */
  predicate RequestFits(req: Dispatch.Request)
  {
    && |Commands.OptBytes(req.inData)| < Pow256(4) && |req.buffers| < Pow256(1) && |req.inHandles| < Pow256(1)
    && (forall i :: 0 <= i < |req.buffers| ==> Fits(req.buffers[i]))
    && (forall j :: 0 <= j < |req.inHandles| ==> HandleFits(req.inHandles[j]))
  }

  /** What follows the opcode: the header, the input data, the buffer loop, the handle loop. */
  function RequestBody(req: Dispatch.Request): Bytes
  {
    EncodeHeader(Dispatch.HostHeader(req))
      + (Commands.OptBytes(req.inData) + (BuffersBytes(req.buffers) + HandlesBytes(req.inHandles)))
  }

  /** The header the host packs for a request that fits carries its true sizes and counts. */
  lemma HostHeaderCounts(req: Dispatch.Request)
    requires RequestFits(req)
    ensures var hd := Dispatch.HostHeader(req);
      hd.inSize == |Commands.OptBytes(req.inData)| && hd.numBuffers == |req.buffers| && hd.inNumHandles == |req.inHandles|
  {
    Widths();
  }

  /** A request that fits raises nothing: its writes are the head, then the buffer loop's, then the handle loop's. */
  lemma DispatchWrites(req: Dispatch.Request)
    requires RequestFits(req)
    ensures Dispatch.DispatchSending(req) == Commands.Sending(Dispatch.HeadWrites(req)
      + Dispatch.FollowAll(Dispatch.BufferSendings(req.buffers)).writes
      + Dispatch.FollowAll(Dispatch.HandleSendings(req.inHandles)).writes, None)
  {
    Dispatch.FollowAllError(Dispatch.BufferSendings(req.buffers));
    HandlesBytesWords(req.inHandles);
  }

  lemma FlattenParts(head: seq<Bytes>, b: seq<Bytes>, k: seq<Bytes>)
    ensures Flatten(head + b + k) == Flatten(head) + (Flatten(b) + Flatten(k))
  {
    FlattenAppend(head + b, k);
    FlattenAppend(head, b);
  }

  lemma FlattenThreeRight(a: Bytes, b: Bytes, c: Bytes)
    ensures Flatten([a, b, c]) == a + (b + c)
  {
    FlattenThree(a, b, c);
  }

  lemma HeadBytes(req: Dispatch.Request)
    ensures Flatten(Dispatch.HeadWrites(req)) ==
      [OpDispatchToService] + (EncodeHeader(Dispatch.HostHeader(req)) + Commands.OptBytes(req.inData))
  {
    FlattenThreeRight([OpDispatchToService], EncodeHeader(Dispatch.HostHeader(req)), Commands.OptBytes(req.inData));
  }

  lemma Regroup(o: Bytes, a: Bytes, b: Bytes, c: Bytes)
    ensures o + (a + b) + c == o + (a + (b + c))
  {
  }

  /** A request that fits raises nothing and puts the opcode, then its body, on the wire. */
  lemma DispatchBytes(req: Dispatch.Request)
    requires RequestFits(req)
    ensures H.CommandSending(H.DispatchToService(req)).error.None?
    ensures Request(H.DispatchToService(req)) == [OpDispatchToService] + RequestBody(req)
  {
    DispatchSendingBytes(req);
    H.DispatchSendingIs(req);
  }

  /** DispatchBytes, stated on the dispatch command's own sending. */
  lemma DispatchSendingBytes(req: Dispatch.Request)
    requires RequestFits(req)
    ensures Dispatch.DispatchSending(req).error.None?
    ensures Flatten(Dispatch.DispatchSending(req).writes) == [OpDispatchToService] + RequestBody(req)
  {
    DispatchWrites(req);
    var head := Dispatch.HeadWrites(req);
    var bw := Dispatch.FollowAll(Dispatch.BufferSendings(req.buffers)).writes;
    var hw := Dispatch.FollowAll(Dispatch.HandleSendings(req.inHandles)).writes;
    FlattenParts(head, bw, hw);
    HeadBytes(req);
    Regroup([OpDispatchToService], EncodeHeader(Dispatch.HostHeader(req)), Commands.OptBytes(req.inData),
      Flatten(bw) + Flatten(hw));
  }

  /** The server reads the header the host packed, and after it the rest of the body. */
  lemma HeaderAgrees(req: Dispatch.Request, d: D.Dev, stream: nat -> Byte)
    requires Carries(stream, d.pos, RequestBody(req))
    ensures var r1 := D.Recv(d, stream, HeaderSize);
      && r1.0.pos == d.pos + HeaderSize
      && DecodeHeader(r1.1) == Dispatch.HostHeader(req)
      && Carries(stream, r1.0.pos,
        Commands.OptBytes(req.inData) + (BuffersBytes(req.buffers) + HandlesBytes(req.inHandles)))
  {
    var hb := EncodeHeader(Dispatch.HostHeader(req));
    CarriesSplit(stream, d.pos, hb, Commands.OptBytes(req.inData) + (BuffersBytes(req.buffers) + HandlesBytes(req.inHandles)));
    HeaderRoundTrip(Dispatch.HostHeader(req));
  }

  /** The server reads the input data, n bytes as the header says, and after it the two loops' bytes. */
  lemma InDataAgrees(d: D.Dev, stream: nat -> Byte, ib: Bytes, rest: Bytes, n: nat)
    requires Carries(stream, d.pos, ib + rest) && n == |ib|
    ensures var r2 := D.Recv(d, stream, n);
      r2.0.pos == d.pos + |ib| && r2.1 == ib && Carries(stream, r2.0.pos, rest)
  {
    CarriesSplit(stream, d.pos, ib, rest);
    CarriesAfter(stream, d.pos, ib, rest, D.Recv(d, stream, n).0.pos);
  }

  /** The buffer loop, then the handle loop. */
  lemma LoopsAgree(req: Dispatch.Request, d: D.Dev, stream: nat -> Byte, os: D.Os)
    requires RequestFits(req)
    requires Carries(stream, d.pos, BuffersBytes(req.buffers) + HandlesBytes(req.inHandles))
    ensures var r3 := D.RecvBuffers(d, stream, os, |req.buffers|);
      var r4 := D.RecvHandles(r3.0, stream, |req.inHandles|);
      && r4.0.pos == d.pos + |BuffersBytes(req.buffers)| + |HandlesBytes(req.inHandles)|
      && (forall i :: 0 <= i < |req.buffers| ==> r3.1[i].desc == DescOf(req.buffers[i]))
      && (forall i :: 0 <= i < |req.buffers| && req.buffers[i].first.PointerArg? ==>
            r3.1[i].ptr == Wrap(req.buffers[i].first.addr, PointerSize))
      && (forall j :: 0 <= j < |req.inHandles| ==> r4.1[j] == FromLE(HandleWord(req.inHandles[j])))
  {
    var bb := BuffersBytes(req.buffers);
    var kb := HandlesBytes(req.inHandles);
    CarriesSplit(stream, d.pos, bb, kb);
    BuffersAgree(req.buffers, d, stream, os);
    var r3 := D.RecvBuffers(d, stream, os, |req.buffers|);
    CarriesAfter(stream, d.pos, bb, kb, r3.0.pos);
    HandlesAgree(req.inHandles, r3.0, stream);
  }

  /**
   * The request half of DispatchToService: on a request that fits, the
   * server consumes exactly the bytes after the opcode and reads the header
   * the host packed, the host's input data, one slot per buffer entry with
   * the descriptor the host sent (and, for a pointer buffer, its address),
   * and every handle the host supplied.
   */
  lemma RequestAgrees(req: Dispatch.Request, d: D.Dev, stream: nat -> Byte, os: D.Os)
    requires RequestFits(req)
    requires Carries(stream, d.pos, RequestBody(req))
    ensures var t := D.RecvRequest(d, stream, os);
      && t.0.pos == d.pos + |RequestBody(req)|
      && t.1 == Dispatch.HostHeader(req)
      && t.2 == Commands.OptBytes(req.inData)
      && |t.3| == |req.buffers|
      && (forall i :: 0 <= i < |req.buffers| ==> t.3[i].desc == DescOf(req.buffers[i]))
      && (forall i :: 0 <= i < |req.buffers| && req.buffers[i].first.PointerArg? ==>
            t.3[i].ptr == Wrap(req.buffers[i].first.addr, PointerSize))
      && |t.4| == |req.inHandles|
      && (forall j :: 0 <= j < |req.inHandles| ==> t.4[j] == FromLE(HandleWord(req.inHandles[j])))
  {
    var ib := Commands.OptBytes(req.inData);
    HeaderAgrees(req, d, stream);
    HostHeaderCounts(req);
    var r1 := D.Recv(d, stream, HeaderSize);
    var hd := DecodeHeader(r1.1);
    InDataAgrees(r1.0, stream, ib, BuffersBytes(req.buffers) + HandlesBytes(req.inHandles), hd.inSize);
    var r2 := D.Recv(r1.0, stream, hd.inSize);
    LoopsAgree(req, r2.0, stream, os);
    var r3 := D.RecvBuffers(r2.0, stream, os, |req.buffers|);
    var r4 := D.RecvHandles(r3.0, stream, |req.inHandles|);
    assert D.RecvRequest(d, stream, os) == (r4.0, hd, r2.1, r3.1, r4.1);
  }

  /**
   * The payload half of RequestAgrees: when the buffers the server
   * allocates do not overlap, the service is handed, in every In buffer
   * that is not a pointer, exactly the bytes of the host's entry.
   */
  lemma RequestPayloads(req: Dispatch.Request, d: D.Dev, stream: nat -> Byte, os: D.Os)
    requires RequestFits(req)
    requires Carries(stream, d.pos, RequestBody(req))
    ensures var t := D.RecvRequest(d, stream, os);
      |t.3| == |req.buffers| && Disjoint(t.3) ==>
        forall i :: 0 <= i < |req.buffers| && !req.buffers[i].first.PointerArg? && IsIn(Dispatch.AttrOf(req.buffers[i])) ==>
          Dispatch.ArgBytes(req.buffers[i].first) == Ok(D.Contents(t.0.mem, os.initial, t.3)[i])
  {
    var ib := Commands.OptBytes(req.inData);
    var bb := BuffersBytes(req.buffers);
    var kb := HandlesBytes(req.inHandles);
    HeaderAgrees(req, d, stream);
    HostHeaderCounts(req);
    var r1 := D.Recv(d, stream, HeaderSize);
    var hd := DecodeHeader(r1.1);
    InDataAgrees(r1.0, stream, ib, bb + kb, hd.inSize);
    var r2 := D.Recv(r1.0, stream, hd.inSize);
    CarriesSplit(stream, r2.0.pos, bb, kb);
    var r3 := D.RecvBuffers(r2.0, stream, os, |req.buffers|);
    D.RecvHandlesQuiet(r3.0, stream, |req.inHandles|);
    var r4 := D.RecvHandles(r3.0, stream, |req.inHandles|);
    assert D.RecvRequest(d, stream, os) == (r4.0, hd, r2.1, r3.1, r4.1);
    if Disjoint(r3.1) {
      BuffersContents(req.buffers, r2.0, stream, os);
      assert r4.0.mem == r3.0.mem;
    }
  }

  lemma DispatchTurn(d: D.Dev, stream: nat -> Byte, os: D.Os, body: Bytes)
    requires Carries(stream, d.pos, [OpDispatchToService] + body)
    ensures D.Recv(d, stream, 1).0.pos == d.pos + 1 && Carries(stream, D.Recv(d, stream, 1).0.pos, body)
    ensures D.TurnSpec(d, stream, os) == (D.DispatchSpec(D.Recv(d, stream, 1).0, stream, os), false)
  {
    var d0 := D.Recv(d, stream, 1).0;
    TurnOn(d, stream, os, OpDispatchToService, body);
    assert D.CommandSpec(d0, stream, os, OpDispatchToService) == (D.DispatchSpec(d0, stream, os), false);
  }

  /**
   * DispatchToService end to end on the request side: a request that fits
   * is sent without an exception, the server's turn consumes exactly its
   * bytes, and the service is handed the header the host packed, the
   * host's input data and the host's handles; the server then answers from
   * what the service returns and does not stop.
   */
  lemma DispatchAgrees(req: Dispatch.Request, d: D.Dev, stream: nat -> Byte, os: D.Os)
    requires RequestFits(req)
    requires Carries(stream, d.pos, Request(H.DispatchToService(req)))
    ensures H.CommandSending(H.DispatchToService(req)).error.None?
    ensures var rr := D.RecvRequest(D.Recv(d, stream, 1).0, stream, os);
      && rr.0.pos == d.pos + |Request(H.DispatchToService(req))|
      && rr.1 == Dispatch.HostHeader(req)
      && rr.2 == Commands.OptBytes(req.inData)
      && |rr.3| == |req.buffers|
      && (forall i :: 0 <= i < |req.buffers| ==> rr.3[i].desc == DescOf(req.buffers[i]))
      && (Disjoint(rr.3) ==>
            forall i :: 0 <= i < |req.buffers| && !req.buffers[i].first.PointerArg? && IsIn(Dispatch.AttrOf(req.buffers[i])) ==>
              Dispatch.ArgBytes(req.buffers[i].first) == Ok(D.Contents(rr.0.mem, os.initial, rr.3)[i]))
      && |rr.4| == |req.inHandles|
      && (forall j :: 0 <= j < |req.inHandles| ==> rr.4[j] == FromLE(HandleWord(req.inHandles[j])))
      && D.TurnSpec(d, stream, os) == (D.Respond(rr.0, rr.1, rr.3,
           os.dispatch(rr.1, rr.2, D.Contents(rr.0.mem, os.initial, rr.3), rr.4), os.initial), false)
  {
    DispatchBytes(req);
    DispatchTurn(d, stream, os, RequestBody(req));
    RequestAgrees(req, D.Recv(d, stream, 1).0, stream, os);
    RequestPayloads(req, D.Recv(d, stream, 1).0, stream, os);
  }
}
