# nxipc: the USB wire protocol between the host library and the Switch server

nxipc lets a Python program on a PC call Nintendo Switch system services.

- **Host library** (`nxipc`). A `UsbCommandHandler` owns a bulk OUT and a bulk IN endpoint. Each command class (`Exit`, `Allocate`, `Free`, `Read`, `Write`, `GetService`, `CloseService`, `ConvertServiceToDomain`, `DispatchToService`) does three things:
  - writes a one-byte opcode and its fixed little-endian records;
  - reads a 4-byte `Result`;
  - only when that word is zero, reads the command's output.
- **Homebrew server on the console** (`switch/source/main.c`). It loops:
  - reads a command byte and that command's records;
  - calls libc or libnx;
  - answers with a Result and, on success, the output.
- **Service wrappers.** `Service` and `SubService` wrap a session record and send commands through the handler.

This project models both ends of the link and proves that they stay in step. The modules:

- `Util`: `align` and `bit`, with Python's `&`, `|` and `~` on unbounded integers.
- `Wire`: fixed-width little-endian fields and the chunking of a transfer into pieces of at most `max_rw` / `MAX_READ_WRITE` bytes.
- `Types`: the value types of `types.py`:
  - `Result`, with its fields, its equality and its printed form;
  - `ServiceStruct`;
  - `SfBufferAttr`;
  - `SmServiceName`;
  - `HosVersion`.
- `Layout`: the fixed records both ends exchange, with their byte images and round trips.
- `Usb`: `UsbCommandHandler` as a class.
  - Its endpoints are logs: every OUT transfer, the size of every IN request, and the bytes the device has sent that are not yet read.
  - `write` and `read` are methods proved against functions of those logs.
- `Commands`: `Command.execute` and every command class except dispatch, as methods on the handler.
- `Dispatch`: `DispatchToService.execute`:
  - the header, the buffer loop and the handle loop;
  - the exception a malformed argument raises part-way through;
  - the reply and its read-back loop.
- `Host`: `UsbCommandHandler.execute`, the `closed` flag, and the state step every command makes.
- `Services`: the `Service` and `SubService` classes and their open, close and dispatch life cycle.
- `Device`: the server as a class.
  - Its USB loops and its buffer, handle, write-back and cleanup loops are methods.
  - Each command handler is proved against a function of the server state.
  - The libc and libnx calls are an oracle (`Os`): answers as functions of their arguments.
- `Agreement`: the two ends together. For every command:
  - the server consumes exactly the bytes the host wrote;
  - it acts on the values the host meant (for the In buffers of a dispatch, provided the blocks the server allocates do not overlap);
  - the host, reading the server's answer, gets the outcome the server meant and leaves exactly the bytes that follow.

How the outside world is represented:

- USB transfers, timeouts and the clock are logs and a byte stream.
- The device's memory is a map from addresses to bytes.
- Everything the server asks of the operating system (allocation, the service manager, service dispatch) is a parameter.

## Model

| member | source | states |
|---|---|---|
| Util.And | nxipc/util.py:3-5 | Python's `&` on unbounded integers is non-negative when either side is, and at most a non-negative right side |
| Util.OrBit | nxipc/util.py:11 | bit i of `x \| y` is set exactly when it is set in x or in y |
| Util.Pow2Bit | nxipc/util.py:11 | `1 << k` has bit i set exactly when i == k |
| Util.OrLaws | nxipc/util.py:10-11 | `\|` is commutative, associative and idempotent |
| Util.ClearLowBits | nxipc/util.py:3-5 | masking with `~(2**k - 1)` gives x minus its remainder modulo 2**k, for negative x too |
| Util.LowBits | nxipc/util.py:3-5 | masking a non-negative value with `2**k - 1` keeps its remainder modulo 2**k |
| Util.AlignUp | nxipc/util.py:2-3 | `align(value, a)` for a power of two a is a multiple of a in [value, value + a) |
| Util.AlignDownAsWritten | nxipc/util.py:4-5 | `align(value, a, up=False)` is the largest multiple of a at most value - (a - 1) |
| Util.AlignDownDropsAligned | nxipc/util.py:5 | `align(0x1000, 0x1000, up=False)` is 0, not 0x1000 |
| Util.AlignDownIsFloor | nxipc/util.py:4-5 | the intended rounding down is a multiple of a in (value - a, value], and an aligned value is kept |
| Util.Bit | nxipc/util.py:7-13 | the loop of `bit(*args)` returns the value BitsOf specifies, stopping with the negative-shift ValueError at the first negative argument |
| Util.BitRaises | nxipc/util.py:7-13 | `bit` raises exactly when some argument is negative, and the error comes from the first negative one |
| Util.BitsOfBit | nxipc/util.py:7-13 | with non-negative arguments `bit` raises nothing, and bit i of its value is set exactly when i is among the arguments |
| Util.BitSetOnly | nxipc/util.py:7-13 | `bit()` is 0, and `bit` depends only on the set of its arguments |
| Wire.FromLEOfLE | nxipc/commands.py:41-45 | decoding a w-byte little-endian field gives the stored int modulo 256^w, as ctypes truncates |
| Wire.FieldRoundTrip | nxipc/commands.py:41-45 | a value that fits its field is read back unchanged |
| Wire.LEOfFromLE | switch/source/main.c:92-96 | re-encoding the value of a field's bytes gives the same bytes |
| Wire.ChunksFlatten | nxipc/__init__.py:33-36 | the pieces of a chunked transfer put back together are the data |
| Wire.ChunksShape | nxipc/__init__.py:33-36 | a transfer is cut into ceil(n / max) pieces, piece k having the k-th chunk size |
| Wire.ChunkSizesBounds | switch/source/main.c:59-70 | every chunk is between 1 and max bytes, all but the last are max, and they add up to n |
| Wire.ChunksStep | nxipc/__init__.py:34-36 | one turn of the loop takes min(remaining, max) bytes from the cursor |
| Wire.TransfersConcat | nxipc/commands.py:20-21 | the transfers of two runs of writes are the transfers of each, in order |
| Wire.TransfersFlatten | nxipc/commands.py:20-21 | what reaches the other end is the bytes of the writes back to back, whatever the chunking |
| Layout.ResultRoundTrip | switch/source/main.c:85-87 | the 4-byte Result image decodes to the same word |
| Layout.SuccessImage | switch/source/main.c:127 | the success word is four zero bytes |
| Layout.AllocationRoundTrip | nxipc/commands.py:41-45 | the `{type, size}` record is read by the server as the host packed it |
| Layout.MemInfoRoundTrip | nxipc/commands.py:79-83 | the `{ptr, size}` record is read by the server as the host packed it |
| Layout.HeaderRoundTrip | nxipc/commands.py:143-158 | the 48-byte dispatch header is read by the server as the host packed it |
| Layout.HeaderSlices | switch/source/main.c:228-242 | each header field sits at its C offset with its width |
| Layout.BufferDescRoundTrip | nxipc/commands.py:160-165 | the buffer descriptor is read by the server as the host packed it |
| Layout.WrapImage | nxipc/commands.py:181-183 | storing an int into a field stores the image of its truncation |
| Types.ResultFields | nxipc/types.py:6-17 | module is the low 9 bits and description the next 13; success has both zero |
| Types.MakeResultFields | switch/source/main.c:116 | MAKERESULT(module, description) decodes to its module and description, and is a failure for a nonzero module |
| Types.ResultEqRaw | nxipc/types.py:19-23 | `Result.__eq__` compares raw words: with a Result or an int alike, and `== 0` is success |
| Types.NumeralRoundTrip | nxipc/types.py:26 | the digits of n in a base read back to n |
| Types.PaddedNumeral | nxipc/types.py:26 | `{n:0w}` of a value below 10^w has w digits and reads back to n |
| Types.ResultStringFields | nxipc/types.py:25-26 | `str(Result)` is '2', three digits of module, '-', four of description, then the hex word in parentheses, each reading back |
| Types.ServiceShapes | nxipc/types.py:39-53 | override, domain and domain-subservice exclude one another, each is active, and an active session is none of them exactly when it has a handle but no object id |
| Types.ServiceRoundTrip | nxipc/types.py:31-37 | the 16-byte service record decodes to the same record |
| Types.ServicesRoundTrip | nxipc/commands.py:237 | `ServiceStruct * n` read off the bytes of n records gives those records |
| Types.AttrBits | nxipc/types.py:55-63 | each SfBufferAttr is one of bits 0 to 7, and no two members share a bit |
| Types.AttrOrBits | nxipc/types.py:65-69 | `SfBufferAttr.__or__` has exactly the bits of both sides |
| Types.EncodeName | nxipc/types.py:82-85 | as ctypes stores a `c_char * 8` field: a name is accepted exactly when at most 8 bytes precede its first NUL, and is then those bytes followed by zeros up to 8 |
| Types.NameStopsAtNul | nxipc/types.py:82-85 | `abcdefgh` plus a NUL is accepted as `abcdefgh`, and the bytes after a NUL are not sent |
| Types.NameRoundTrip | nxipc/types.py:82-85 | `.name` reads back the name up to its first NUL, and a name of at most 8 non-NUL bytes unchanged |
| Types.PackedValue | nxipc/types.py:99-101 | for byte-sized components `packed` is the base-256 number major.minor.micro |
| Types.VersionOrder | nxipc/types.py:103-125 | between versions, `<` is lexicographic order, `==` is equality, `>=` is not `<` and `<=` is not `>` |
| Types.TupleMicroQuirk | nxipc/types.py:103-119 | a tuple compares as (t[0], t[1], t[1]): 3.1.0 >= (3, 1, 0) is false |
| Types.IntendedTupleOrder | nxipc/types.py:103-125 | with micro from the tuple's third element, `>=` against (a, b, c) is `>=` against version a.b.c |
| Usb.ReadEffectConsumes | nxipc/__init__.py:38-62 | a read takes bytes only off the front, exactly its size on success; size 0 reads nothing; it times out exactly when fewer bytes are waiting; once the bytes are in, it raises AttributeError exactly when some argument is a ctypes instance rather than a type |
| Usb.RequestsWhenAvailable | nxipc/__init__.py:47-50 | with enough bytes waiting, the IN requests are the chunk sizes of the read |
| Usb.SizesTotal | nxipc/__init__.py:42 | the sizes of the non-None arguments add up to the read's size |
| Usb.SlicesOfPieces | nxipc/__init__.py:57-62 | a typed read decodes values laid end to end back into those values, in argument order |
| Usb.SliceAll | nxipc/__init__.py:57-62 | the decoding loop raises AttributeError when some argument is a ctypes instance (`from_buffer` is a class method); otherwise it returns one slice per non-None shape, as Slices specifies |
| Usb.UsbCommandHandler.constructor | nxipc/__init__.py:22-25 | a new handler is open and has exchanged nothing |
| Usb.UsbCommandHandler.Write | nxipc/__init__.py:27-36 | the joined bytes of the non-None arguments go out as their chunks, and nothing else changes |
| Usb.UsbCommandHandler.Send | nxipc/__init__.py:27-36 | one byte string goes out as its chunks |
| Usb.UsbCommandHandler.SendEach | nxipc/commands.py:185-188 | consecutive writes leave the transfers of each, in order |
| Usb.UsbCommandHandler.Receive | nxipc/__init__.py:47-52 | the read loop succeeds exactly when size bytes are waiting, returns the first size of them and makes the requests Requests gives |
| Usb.UsbCommandHandler.Read | nxipc/__init__.py:38-70 | `read(*args)` has the outcome, leftover bytes and requests of ReadEffect, including the AttributeError after the bytes of a ctypes instance are consumed |
| Commands.FixedEffect | nxipc/__init__.py:38-62 | reading k bytes succeeds exactly when k are waiting, and splits off exactly those |
| Commands.RecordReply | nxipc/commands.py:23-27 | a successful record reply has exactly the record's size |
| Commands.StatusStops | nxipc/commands.py:23-27 | a nonzero Result ends the reply with that word and reads nothing more; a zero one lets the output be read from the bytes after it |
| Commands.RecordReplyDecodes | nxipc/commands.py:23-27 | Result 0 then a record decodes to that record and leaves what follows |
| Commands.FailureStopsReply | nxipc/commands.py:24-25 | a failure word ends a record reply with that word, whatever follows |
| Commands.ReadFixed | nxipc/__init__.py:38-62 | reading one fixed-size value has the effect FixedEffect gives |
| Commands.CheckStatus | nxipc/commands.py:23-25 | reading the Result has the effect StatusEffect gives |
| Commands.StatusThenRead | nxipc/commands.py:23-27 | the Result is read; a nonzero one or a short read stops there, otherwise the output is read as ReadEffect says, and nothing is written |
| Commands.ReadRecord | nxipc/commands.py:23-27 | the Result then a record has the effect RecordReply gives |
| Commands.Run | nxipc/commands.py:11-27 | the opcode and the input record go out, then the reply is read as RunReply says |
| Commands.Exit | nxipc/commands.py:29-36 | opcode 0 goes out, and the handler is closed exactly when the reply succeeded |
| Commands.AllocateRequest | nxipc/commands.py:48-64 | the opcode always goes out; an unknown allocator raises KeyError and memalign without an alignment TypeError; otherwise the record with the size truncated to 64 bits, and for memalign the alignment |
| Commands.SendAllocate | nxipc/commands.py:54-64 | the sending half of Allocate sends AllocateSending's writes and raises its exception |
| Commands.SendRest | nxipc/commands.py:55-64 | after the opcode, nothing for an unknown name, else the record |
| Commands.MemalignCode | nxipc/commands.py:55-63 | the memalign code is chosen exactly for the name "memalign" |
| Commands.Allocate | nxipc/commands.py:38-70 | the request goes out; an exception stops it before any read; otherwise the reply gives the 8-byte pointer or the failure |
| Commands.Free | nxipc/commands.py:72-74 | the opcode and the 8-byte pointer go out, then a Result with no output |
| Commands.Read | nxipc/commands.py:76-99 | the `{ptr, size}` record goes out, then the Result and the bytes or value asked for |
| Commands.ReadReturnsPayload | nxipc/commands.py:95-99 | a successful Read returns exactly the bytes after the Result |
| Commands.Write | nxipc/commands.py:101-124 | the record with the payload's length goes out, then the payload, then only the Result is read |
| Commands.GetService | nxipc/commands.py:126-129 | a name with more than 8 bytes before its first NUL raises ValueError and sends nothing; otherwise the name as ctypes stores it goes out and the record comes back on success |
| Commands.CloseService | nxipc/commands.py:131-133 | the record goes out as it is, and only the Result is read |
| Commands.ConvertServiceToDomain | nxipc/commands.py:135-138 | the record goes out, and the converted record comes back on success |
| Dispatch.AttrsOfIndex | nxipc/commands.py:190-211 | the i-th recorded attribute is the i-th entry's |
| Dispatch.ResolveBits | nxipc/commands.py:191-213 | an explicit size keeps the attribute; an int or a type gains Out, bytes, a value or a pointer In; every caller's bit is kept; only None and unsized objects fail |
| Dispatch.PayloadMatchesDescriptor | nxipc/commands.py:204-220 | without an explicit size the payload is as long as the descriptor says |
| Dispatch.FollowAllPrefix | nxipc/commands.py:191-223 | once a loop step raised, later steps send nothing |
| Dispatch.FollowAllError | nxipc/commands.py:191-223 | a loop raises exactly when some step does, with the first such step's exception |
| Dispatch.DispatchRaises | nxipc/commands.py:185-223 | the request raises exactly when some buffer or some handle cannot be sent |
| Dispatch.BuffersReplyPrefix | nxipc/commands.py:239-246 | once a read-back fails, later entries read nothing |
| Dispatch.BuffersReplyCount | nxipc/commands.py:239-246 | a successful read-back returns one value per entry without an explicit size whose attribute has Out, and succeeds only when no such entry is a ctypes value or pointer of nonzero size (`h.read` of an instance raises) |
| Dispatch.ValueReadBackRaises | nxipc/commands.py:239-246 | `buffers=((c_uint32(5), SfBufferAttr.Out),)`: the read-back consumes four bytes and then raises AttributeError |
| Dispatch.NothingReadBack | nxipc/commands.py:239-246 | with no entry to read back, the loop reads nothing |
| Dispatch.ObjectsRoundTrip | nxipc/commands.py:236-237 | the returned records are those the device laid out, and the bytes after them are untouched |
| Dispatch.SendBuffer | nxipc/commands.py:191-220 | one entry sends its descriptor and payload, and records its attribute |
| Dispatch.SendBuffers | nxipc/commands.py:190-220 | the buffer loop sends every entry until one raises, and collects the attributes |
| Dispatch.SendHandles | nxipc/commands.py:222-223 | the handle loop sends every handle until one raises |
| Dispatch.SendDispatch | nxipc/commands.py:171-223 | the opcode, header, input data, buffers and handles go out as DispatchSending says |
| Dispatch.ReadObjects | nxipc/commands.py:236-237 | the records are read only for a positive count |
| Dispatch.ReadBuffers | nxipc/commands.py:239-246 | the read-back loop reads as BuffersReply says, a ctypes value or pointer entry raising AttributeError once its bytes are read |
| Dispatch.ReadDispatch | nxipc/commands.py:225-248 | the Result, output value, records and buffers are read in that order, each only after the last succeeded; an exception in the buffer read-back (AttributeError for an instance) ends it |
| Dispatch.DispatchToService | nxipc/commands.py:167-248 | the request goes out; an exception ends it before any read; otherwise the reply is read |
| Host.Execute | nxipc/__init__.py:72-74 | `execute` makes exactly the state step Step describes |
| Host.ExecuteAllocate | nxipc/commands.py:38-70 | Allocate on an open handler makes Step's state step |
| Host.ExecuteFree | nxipc/commands.py:72-74 | Free on an open handler makes Step's state step |
| Host.ExecuteRead | nxipc/commands.py:76-99 | Read on an open handler makes Step's state step |
| Host.ExecuteWrite | nxipc/commands.py:101-124 | Write on an open handler makes Step's state step |
| Host.ExecuteGetService | nxipc/commands.py:126-129 | GetService on an open handler makes Step's state step |
| Host.ExecuteCloseService | nxipc/commands.py:131-133 | CloseService on an open handler makes Step's state step |
| Host.ExecuteConvert | nxipc/commands.py:135-138 | ConvertServiceToDomain on an open handler makes Step's state step |
| Host.ExecuteDispatch | nxipc/commands.py:167-248 | DispatchToService on an open handler makes Step's state step |
| Host.ExecuteExit | nxipc/commands.py:29-36 | Exit on an open handler makes Step's state step |
| Host.StepWire | nxipc/__init__.py:72-74 | a step puts the command's write arguments on the wire back to back, and nothing on a closed handler |
| Host.StepClosing | nxipc/__init__.py:72-74 | a closed handler is unchanged and answers None; an open one always answers, and closes exactly on a successful Exit |
| Host.StepReplyKind | nxipc/__init__.py:72-74 | each command succeeds with its own kind of value |
| Host.StepDispatch | nxipc/commands.py:167-248 | a dispatch step sends what DispatchToService sends; on an exception the link only gains those writes, otherwise the reply is the dispatch reply |
| Services.OpenKeepsHandler | nxipc/services/__init__.py:14-19 | opening never closes the handler; on a closed handler it sends nothing and yields a service with no record; on an open one a success has a record and sent the name |
| Services.OpenedClosedFails | nxipc/services/__init__.py:14-44 | a service constructed on a closed handler has no record: `closed` and `close()` raise AttributeError, `dispatch` raises TypeError, and nothing is sent |
| Services.OpenLongName | nxipc/services/__init__.py:16 | a name with more than 8 bytes before its first NUL fails with ValueError and sends nothing |
| Services.CloseDeactivates | nxipc/services/__init__.py:29-35 | close clears the session exactly when CloseService did not raise, and touches no other field |
| Services.CloseTwice | nxipc/services/__init__.py:29-35 | a second close after a successful one does nothing |
| Services.CloseSends | nxipc/services/__init__.py:31-33 | closing an active session sends CloseService for exactly its record |
| Services.DispatchOwnRecord | nxipc/services/__init__.py:39-40 | dispatch always sends the service's own record |
| Services.DispatchClosed | nxipc/services/__init__.py:39-42 | dispatch on a closed handler sends nothing and fails |
| Services.Service.constructor | nxipc/services/__init__.py:20-23 | a service keeps the handler and the record it was given or obtained |
| Services.Service.Open | nxipc/services/__init__.py:14-19 | GetService, then for a domain ConvertServiceToDomain, as OpenSpec says; on a closed handler the service returns normally with no record; success gives a fresh service on the handler |
| Services.Service.Close | nxipc/services/__init__.py:25-37 | with no record `self.closed` raises AttributeError and nothing is sent; otherwise close follows CloseSpec |
| Services.Service.Dispatch | nxipc/services/__init__.py:39-44 | with no record dispatch raises TypeError and sends nothing; otherwise it follows DispatchSpec and wraps every returned record as a fresh service on the same handler |
| Services.Service.Wrap | nxipc/services/__init__.py:42 | one fresh service per record, in order |
| Services.Service.Allocate | nxipc/services/__init__.py:46-47 | forwards Allocate to the handler |
| Services.Service.Free | nxipc/services/__init__.py:49-50 | forwards Free and returns only its exception |
| Services.Service.Read | nxipc/services/__init__.py:52-53 | forwards Read to the handler |
| Services.Service.Write | nxipc/services/__init__.py:55-56 | forwards Write and returns only its exception |
| Services.SubService.constructor | nxipc/services/__init__.py:68-70 | with a Service parent: keeps the parent as the chain and the inner service; the chain is closed exactly when the parent is |
| Services.SubService.Nested | nxipc/services/__init__.py:68-70 | with a SubService parent (a file or directory of a file system): the chain is the parent's chain then its inner service, and asking it answers as the parent's own `closed` |
| Services.ChainOr | nxipc/services/__init__.py:72-74 | asking `closed` along a chain in two parts is the first part `or` the second, with Python's short circuit and exceptions |
| Services.SubService.Close | nxipc/services/__init__.py:72-79 | an exception from `closed` (the parent chain first) propagates; closes the inner service only while neither the parent, at any depth, nor the inner service is closed |
| Services.SubService.Dispatch | nxipc/services/__init__.py:85-86 | forwards dispatch to the inner service; a failure wraps no objects |
| Services.SubService.Allocate | nxipc/services/__init__.py:88-89 | forwards Allocate |
| Services.SubService.Free | nxipc/services/__init__.py:91-92 | forwards Free |
| Services.SubService.Read | nxipc/services/__init__.py:94-95 | forwards Read |
| Services.SubService.Write | nxipc/services/__init__.py:97-98 | as written, every call raises AttributeError |
| Services.SubService.WriteIntended | nxipc/services/__init__.py:97-98 | forwards Write to the inner service |
| Device.StorePeek | switch/source/main.c:168 | after a copy, a byte inside it comes from the data and a byte outside is unchanged |
| Device.StoreLoad | switch/source/main.c:168 | stored bytes read back, and memory outside them is untouched |
| Device.Fit | switch/source/main.c:299-311 | a buffer as the service leaves it has exactly its size, cut or padded |
| Device.Server.constructor | switch/source/main.c:332 | a new server has read and written nothing |
| Device.Server.CommsRead | switch/source/main.c:68 | one IN transfer takes the next n stream bytes |
| Device.Server.CommsWrite | switch/source/main.c:81 | one OUT transfer is logged |
| Device.Server.UsbRead | switch/source/main.c:59-70 | the read loop takes the next size bytes, in pieces of at most 0xe00 |
| Device.Server.UsbWrite | switch/source/main.c:72-83 | the write loop sends the data in pieces of at most 0xe00 |
| Device.Server.WriteResult | switch/source/main.c:85-87 | the 4-byte Result goes out |
| Device.Server.Allocate | switch/source/main.c:89-130 | Allocate follows AllocateSpec |
| Device.Server.AllocateWith | switch/source/main.c:98-129 | the allocation follows Allocated |
| Device.Server.Free | switch/source/main.c:132-141 | Free follows FreeSpec |
| Device.Server.Read | switch/source/main.c:143-157 | Read follows ReadSpec |
| Device.Server.Write | switch/source/main.c:159-171 | Write follows WriteSpec |
| Device.Server.GetService | switch/source/main.c:173-198 | GetService follows GetServiceSpec |
| Device.Server.CloseService | switch/source/main.c:200-209 | CloseService follows CloseServiceSpec |
| Device.Server.ConvertServiceToDomain | switch/source/main.c:211-223 | the conversion follows ConvertSpec |
| Device.Server.ReceiveBuffer | switch/source/main.c:272-292 | one buffer follows RecvBuffer |
| Device.Server.ReceiveBuffers | switch/source/main.c:271-293 | the descriptor loop fills a fresh array with RecvBuffers' slots |
| Device.Server.ReceiveHandles | switch/source/main.c:295-297 | the handle loop fills a fresh array with RecvHandles' values |
| Device.Server.WriteBack | switch/source/main.c:309-313 | every buffer with Out is written back, in index order |
| Device.Server.FreeBuffers | switch/source/main.c:316-322 | every non-pointer buffer is freed once, in index order |
| Device.Server.Reply | switch/source/main.c:302-314 | the output data, the object records when there are any, then the Out buffers |
| Device.Server.DispatchToService | switch/source/main.c:225-323 | dispatch follows DispatchSpec |
| Device.Server.RunCommand | switch/source/main.c:342-387 | one switch arm follows CommandSpec |
| Device.Server.Turn | switch/source/main.c:334-391 | one loop turn follows TurnSpec |
| Device.Server.Serve | switch/source/main.c:334-391 | the main loop follows ServeSpec |
| Device.Server.TurnOf | switch/source/main.c:334-391 | one turn either ends the loop in the state ServeSpec promised, or leaves a state from which the remaining turns still reach it |
| Device.EmitOutput | switch/source/main.c:72-83 | a usb_write adds exactly its bytes to the output |
| Device.EmitEachOutput | switch/source/main.c:72-83 | consecutive writes add their bytes in order |
| Device.StatusFields | switch/source/main.c:116-122 | the server's own errors carry module 396 and their description and are never success; its success word is 0 |
| Device.AllocatedOutcome | switch/source/main.c:98-129 | exactly one allocator call; (396, 4) for NULL, else Result 0 and the pointer; calloc memory reads as zeros |
| Device.AllocateOutcomes | switch/source/main.c:89-119 | the alignment is read only for memalign; an unknown kind allocates nothing and answers (396, 3) |
| Device.GetServiceOutcomes | switch/source/main.c:173-198 | a failed query gives its Result, an unregistered name (396, 1), else the manager's Result and the record only after 0 |
| Device.OwnedMembers | switch/source/main.c:316-322 | the freed addresses are exactly those of the non-pointer buffers |
| Device.RecvBuffersQuiet | switch/source/main.c:271-293 | receiving buffers writes, frees and closes nothing |
| Device.RecvHandlesQuiet | switch/source/main.c:295-297 | receiving handles reads 4 bytes each and changes nothing else |
| Device.DispatchOutcome | switch/source/main.c:299-322 | the service's Result, then only after 0 the output, records and Out buffers; every owned buffer is freed on both paths |
| Device.ServeLeads | switch/source/main.c:334-391 | a turn that says stop is the loop's final state; otherwise the remaining turns from the new state reach the same final state |
| Device.ServeExit | switch/source/main.c:343-348 | command 0 is answered with Result 0 and ends the loop |
| Device.ServeUnknown | switch/source/main.c:382-386 | an unknown command is answered with (396, 2), and the loop goes on |
| Device.CommandUnknown | switch/source/main.c:382-386 | every command byte past DispatchToService takes the default arm: status (396, 2) and the loop does not end |
| Device.WriteThenRead | switch/source/main.c:143-171 | Write stores the payload and answers 0; a Read of the same record answers 0 and the payload; other memory is untouched |
| Agreement.TurnOn | switch/source/main.c:336-342 | the server's turn reads the opcode and runs that command on the rest |
| Agreement.StepOpen | nxipc/__init__.py:72-74 | on an open handler the reply decides the outcome and what is left to read |
| Agreement.SuccessRead | nxipc/commands.py:23-27 | Result 0 is success, and the bytes after it are left |
| Agreement.FailureRead | nxipc/commands.py:23-25 | a nonzero word is the failure, and the bytes after it are left |
| Agreement.RecordRead | nxipc/commands.py:23-27 | Result 0 and a record give the record, and the bytes after it are left |
| Agreement.StatusIsFailure | switch/source/main.c:116-122 | the server's error words are failures to the host |
| Agreement.SuccessAnswered | nxipc/commands.py:23-27 | Result 0 as a whole answer is success, and nothing more is read |
| Agreement.ExitTurn | switch/source/main.c:343-348 | Exit consumes one byte, answers 0 and ends the loop |
| Agreement.ExitAgrees | nxipc/commands.py:29-36 | the server consumes Exit's request and stops; the host reads the 0 and is closed |
| Agreement.FreeRequest | nxipc/commands.py:72-74 | Free's request is the opcode and the 8-byte pointer |
| Agreement.FreeTurn | switch/source/main.c:354-356 | opcode 2 runs Free on the rest |
| Agreement.FreeArgs | switch/source/main.c:132-141 | Free consumes 8 bytes, frees the truncated pointer and answers 0 |
| Agreement.FreeServed | switch/source/main.c:132-141 | the server's side of Free, from the opcode on |
| Agreement.FreeAgrees | nxipc/commands.py:72-74 | the server consumes exactly Free's request and frees the host's pointer; the host reads 0 and nothing more |
| Agreement.CloseRequest | nxipc/commands.py:131-133 | CloseService's request is the opcode and the record |
| Agreement.CloseTurn | switch/source/main.c:370-372 | opcode 6 runs CloseService on the rest |
| Agreement.CloseArgs | switch/source/main.c:200-209 | CloseService closes exactly the 16 bytes it read and answers 0 |
| Agreement.CloseServed | switch/source/main.c:200-209 | the server's side of CloseService, from the opcode on |
| Agreement.CloseAgrees | nxipc/commands.py:131-133 | the server closes exactly the host's record; the host reads 0 and nothing more |
| Agreement.AllocateBytes | nxipc/commands.py:54-64 | an accepted allocator sends the opcode, the record and (memalign) the alignment, without an exception |
| Agreement.AllocateTurn | switch/source/main.c:350-352 | opcode 1 runs Allocate on the rest |
| Agreement.AllocateArgsRead | switch/source/main.c:96-129 | Allocate reads the record, and the alignment only for memalign, and calls the allocator once with them |
| Agreement.AllocateAnswered | nxipc/commands.py:66-70 | NULL reaches the host as the failure (396, 4), any other address as the pointer |
| Agreement.AllocateAgrees | nxipc/commands.py:38-70 | the server consumes exactly Allocate's request and makes the allocation the host named; the host gets its address or (396, 4) |
| Agreement.WrapSmall | nxipc/commands.py:41-45 | a value below 2^64 fits the 64-bit field unchanged |
| Agreement.ReadBytes | nxipc/commands.py:92-93 | Read's request is the opcode and the `{ptr, size}` record |
| Agreement.ReadTurn | switch/source/main.c:358-360 | opcode 3 runs Read on the rest |
| Agreement.ReadArgs | switch/source/main.c:143-157 | Read consumes the record and answers 0 and the memory it names |
| Agreement.ReadServed | switch/source/main.c:143-157 | the server's side of Read, from the opcode on |
| Agreement.ReadAnswered | nxipc/commands.py:95-99 | after Result 0 the host returns exactly the n bytes asked for |
| Agreement.ReadAgrees | nxipc/commands.py:85-99 | the server consumes exactly Read's request and sends the n bytes at the host's address; the host returns exactly those |
| Agreement.WriteBytes | nxipc/commands.py:117-120 | Write's request is the opcode, the record and the payload |
| Agreement.WriteTurn | switch/source/main.c:362-364 | opcode 4 runs Write on the rest |
| Agreement.WriteArgs | switch/source/main.c:159-171 | Write consumes the record and exactly the payload it announces, and stores it |
| Agreement.WriteServed | switch/source/main.c:159-171 | the server's side of Write, from the opcode on |
| Agreement.WriteAgrees | nxipc/commands.py:110-124 | the server consumes exactly Write's request and its memory then holds the payload; the host reads 0 and nothing more |
| Agreement.RecordFailAnswered | nxipc/commands.py:23-25 | a failure word in answer to a record command is that failure, and nothing more is read |
| Agreement.RecordOkAnswered | nxipc/commands.py:23-27 | Result 0 and a record give the decoded record, and nothing more is read |
| Agreement.GetServiceBytes | nxipc/commands.py:126-129 | GetService's request is the opcode and the name as ctypes stores it |
| Agreement.GetServiceTurn | switch/source/main.c:366-368 | opcode 5 runs GetService on the rest |
| Agreement.GetServiceArgs | switch/source/main.c:173-198 | GetService consumes 8 bytes and asks about exactly that name |
| Agreement.GetServiceServed | switch/source/main.c:173-198 | the server's side of GetService, from the opcode on |
| Agreement.GetServiceAnswered | nxipc/commands.py:126-129 | each server answer gives the matching failure or record, and nothing more is read |
| Agreement.GetServiceAgrees | nxipc/commands.py:126-129 | the server consumes exactly GetService's request and asks about the host's name; the host gets the matching outcome |
| Agreement.ConvertTurn | switch/source/main.c:374-376 | opcode 7 runs the conversion on the rest |
| Agreement.ConvertArgs | switch/source/main.c:211-223 | the conversion consumes and converts exactly the record it read |
| Agreement.ConvertServed | switch/source/main.c:211-223 | the server's side of ConvertServiceToDomain, from the opcode on |
| Agreement.ConvertAnswered | nxipc/commands.py:135-138 | each answer gives the failure or the converted record, and nothing more is read |
| Agreement.ConvertAgrees | nxipc/commands.py:135-138 | the server converts exactly the host's record; the host gets the failure or the converted record |
| Agreement.AttrWrapBits | switch/source/main.c:287 | truncating an attribute to 32 bits keeps its In and Out bits |
| Agreement.EntryFits | nxipc/commands.py:204-220 | an entry sized from its own object sends as many bytes as it announces |
| Agreement.SizedMismatch | nxipc/commands.py:198-200 | an explicit size of 2 with a one-byte input: the host sends one byte, the server reads two |
| Agreement.BufferBytesShape | nxipc/commands.py:215-220 | an entry's bytes are its descriptor and then its payload, when it has one |
| Agreement.RecvBufferOf | switch/source/main.c:272-290 | the server keeps the descriptor it read, a pointer's address, and an In buffer's payload in memory |
| Agreement.BufferAgrees | nxipc/commands.py:191-220 | the server reads back the host's descriptor, pointer address or In payload, and consumes exactly the entry's bytes |
| Agreement.RecvItems | switch/source/main.c:271-293 | the descriptor loop consumes exactly the items' bytes and keeps their descriptors and addresses |
| Agreement.ItemOfFits | nxipc/commands.py:213-220 | an entry that fits travels as a well-formed descriptor and payload |
| Agreement.BuffersAgree | nxipc/commands.py:191-220 | the server consumes exactly the buffer loop's bytes and reads every descriptor and pointer address in order |
| Agreement.WriteBackCount | switch/source/main.c:309-313 | the server writes back the buffers the host reads plus every sized Out entry |
| Agreement.WriteBackOne | switch/source/main.c:309-313 | one entry's slot is written back exactly when the host reads it back or it is a sized Out entry |
| Agreement.ReadBackAgrees | nxipc/commands.py:239-246 | the counts of buffers written back and read back agree exactly when no sized entry has Out |
| Agreement.RecvWords | switch/source/main.c:295-297 | the handle loop consumes 4-byte words and reads each as a little-endian value |
| Agreement.HandlesBytesWords | nxipc/commands.py:222-223 | 4-byte handles raise nothing and go out as their words back to back |
| Agreement.HandlesAgree | nxipc/commands.py:222-223 | the server consumes exactly the handle bytes and reads every host handle in order |
| Agreement.HostHeaderCounts | nxipc/commands.py:171-183 | the packed header carries the true input size, buffer count and handle count |
| Agreement.DispatchWrites | nxipc/commands.py:185-223 | a request that fits raises nothing and writes its head, buffers and handles |
| Agreement.DispatchBytes | nxipc/commands.py:185-223 | a request that fits puts the opcode and then its body on the wire |
| Agreement.HeaderAgrees | switch/source/main.c:243 | the server reads the host's header, and after it the rest of the body |
| Agreement.InDataAgrees | switch/source/main.c:245-246 | the server reads exactly the input data the header announces |
| Agreement.LoopsAgree | switch/source/main.c:271-297 | the buffer loop and then the handle loop read the host's descriptors, addresses and handles |
| Agreement.RequestAgrees | switch/source/main.c:243-297 | the server consumes exactly the request body and reads the host's header, input data, descriptors, addresses and handles |
| Agreement.DispatchTurn | switch/source/main.c:378-380 | opcode 8 runs dispatch on the rest |
| Agreement.RecvContents | switch/source/main.c:271-293 | when the buffers the server allocates do not overlap, after the descriptor loop every In buffer it allocated holds the payload the host sent for it |
| Agreement.ContentsStep | switch/source/main.c:271-293 | one more buffer keeps the earlier payloads and holds its own |
| Agreement.KeepPayloads | switch/source/main.c:271-293 | receiving a buffer into a block apart from the earlier ones leaves their contents unchanged |
| Agreement.RecvBufferFrame | switch/source/main.c:271-293 | receiving a buffer changes memory only inside the In buffer it allocates |
| Agreement.BuffersContents | nxipc/commands.py:191-220 | with non-overlapping allocations, every In buffer that is not a pointer holds exactly the bytes of the host's entry |
| Agreement.RequestPayloads | switch/source/main.c:243-297 | with non-overlapping allocations, the request the server reads has the host's payload in every In buffer |
| Agreement.DispatchAgrees | nxipc/commands.py:167-223 | a fitting request raises nothing; the server consumes it exactly, hands the service the host's header, input data, handles and, when its allocations do not overlap, the host's In payloads, and answers without stopping |

## Left out

- `Service.set_hos_version` and the `version` class attribute: they only call a service stub (`setsys`), which is not part of this model.
- `__del__`, `__enter__` and `__exit__` of `Service` and `SubService`: `__del__` and `__exit__` call `close()`, which is modelled, and `__enter__` returns the object itself. When the garbage collector runs `__del__` is not modelled.
- The service stubs under `nxipc/services/` other than `__init__.py`, and `test.py`: these are callers of the core, not part of it.
- pyusb device discovery, endpoint selection and transfer timeouts:
  - a timeout is modelled as an IN request made while nothing is waiting;
  - the actual time limit is not modelled.
- The server's DEBUG console, `usbCommsInitialize`/`usbCommsExit` and `appletMainLoop`:
  - the main loop runs for a number of turns given as a parameter;
  - I/O set-up and tear-down are not modelled.
- Device.Server.DispatchToService: `malloc` returning NULL for a dispatch buffer is not checked by the server. The model stores into the address the oracle returns.
- Device.Server.ReceiveBuffers: more than 8 buffers or handles would overflow libnx's fixed arrays in the C code. The model keeps every one, because undefined behaviour has no model.
- Device.Load: device memory is a map from unbounded addresses. 64-bit address wrap-around inside a buffer is not modelled.
- Dispatch.ArgBytes: a handle given as a Python int n sends n zero bytes (`bytes(n)`), as the source does. Agreement.HandlesAgree therefore covers only handles whose bytes are one 32-bit word (`HandleFits`).
- Agreement.DispatchAgrees: stated only for requests that fit (`RequestFits`):
  - the input data is below 2^32 bytes;
  - there are fewer than 256 buffers and 256 handles;
  - every payload is as long as its descriptor says.

  A sized entry whose payload differs from its size desynchronises the stream (Agreement.SizedMismatch). What happens after that is not modelled.
- Agreement.DispatchAgrees: the payload clause assumes that the buffers the server allocates for one request do not overlap (`Disjoint`). That is malloc's promise for blocks alive together, and the allocator oracle does not enforce it.
- Agreement.DispatchAgrees: the reply half of dispatch is not carried end to end. The model covers the server's answer (Device.DispatchOutcome) and the host's reading of a reply (Dispatch.ReadDispatch). The agreement between them covers only the number of buffers written back and read back (Agreement.ReadBackAgrees).
- Agreement.ReadAgrees: stated for a byte count (`Read(ptr, n)` with 0 < n < 2^64). Reading a ctypes type back is covered by Usb.UsbCommandHandler.Read, not carried end to end.
- Agreement.AllocateAgrees: stated for the accepted allocator names (`AllocateArgs`). The other names raise before the record is sent (Commands.AllocateRequest).
- Agreement.WriteAgrees: stated for payloads shorter than 2^64 bytes.
- ctypes `from_buffer` for arbitrary types: a decoded value is represented by its byte image. Only the records of the protocol (Result, ServiceStruct, the pointer) are decoded into fields.
- `Command.execute` receives either an Input instance or the arguments to build one. Both are modelled by the record's byte image built from its fields.
- Types.EncodeService: the record's two padding bytes are always sent as zeros. A record read from the device keeps the padding the server sent, which is uninitialised stack memory in `Service out` (switch/source/main.c:191-196). ctypes sends those bytes again in CloseService (nxipc/services/__init__.py:33) and in the dispatch header (nxipc/commands.py:181). The server ignores them, so no agreement lemma depends on them.
- Usb.UsbCommandHandler.constructor: requires maxRw > 0 (and so does `Valid()`). With `max_rw=0` the source's write loop (nxipc/__init__.py:34-36) never advances, and its read keeps issuing zero-size IN requests (lines 47-49). Neither loop ends, so that case is not modelled.
- Agreement.ReadBackAgrees: an entry with an explicit size and the Out bit is written back by the server (switch/source/main.c:309-313) but skipped by the host's read-back (nxipc/commands.py:242-243). The unread bytes stay in the stream for the next read. The lemma shows where the counts part ways. The source does not show which side is meant to change, so what the host reads after that is not modelled.
- The Python keyword-argument plumbing of `dispatch(*args, **kwargs)` is modelled by the Request datatype's named fields.

## Findings

| source | as written | input that shows it | evidently intended | confidence | as-written member | corrected member |
|---|---|---|---|---|---|---|
| nxipc/util.py:5 | `align(value, a, up=False)` subtracts a - 1 before clearing the low bits | `align(0x1000, 0x1000, up=False)` gives 0 | round down to the largest multiple of a at most value (0x1000 here) | not executed | Util.AlignDownDropsAligned | Util.AlignDownIsFloor |
| nxipc/types.py:105 | a tuple operand becomes `HosVersion(t[0], t[1], t[1])` (also lines 111 and 117) | `HosVersion(3, 1, 0) >= (3, 1, 0)` is false | micro from the tuple's third element | not executed | Types.TupleMicroQuirk | Types.IntendedTupleOrder |
| nxipc/services/__init__.py:98 | `SubService.write` calls `self.srv.wrtie` | any call to `SubService.write` raises AttributeError | forward to `self.srv.write` | not executed | Services.SubService.Write | Services.SubService.WriteIntended |
