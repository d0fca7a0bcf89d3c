/**
 * The host's end of the USB link (`UsbCommandHandler`): a bulk OUT endpoint
 * it writes chunks to, a bulk IN endpoint it reads chunks from, and the
 * `closed` flag that turns every later command into a no-op.
 *
 * The endpoints are modelled as logs: `sent` records every OUT transfer
 * in order, `requests` the size asked for by every IN transfer, and
 * `inbox` holds the bytes the device has sent that the host has not read
 * yet.  An IN transfer of k bytes returns min(k, |inbox|) bytes, and one
 * made while the inbox is empty times out.
 */
module Usb {
  import opened Wire
  import opened Types

  /**
   * Why a host operation stops early: a transfer timed out, the device
   * answered with a nonzero Result (ResultException), or building the
   * request raised a Python exception.
   */
  datatype Error = Timeout | Failure(result: Types.Result) | KeyError | TypeError | ValueError | AttributeError

  datatype Outcome<T> = Ok(value: T) | Fail(error: Error)

  /**
   * An argument of `read`: an int byte count, a ctypes type (given by its
   * size), a ctypes value (an instance: `sizeof` accepts it, but
   * `from_buffer` belongs to the type, so decoding into it raises
   * AttributeError), None, or an object ctypes cannot size (bytes).
   */
  datatype ReadArg = Count(n: int) | Shape(size: nat) | Instance(size: nat) | Absent | Unsized
  {
    /** The argument adds its `sizeof` to the total. */
    predicate Sized()
    {
      Shape? || Instance?
    }
  }

  /** Some argument is a ctypes value rather than a type. */
  predicate HasInstance(args: seq<ReadArg>)
  {
    exists i :: 0 <= i < |args| && args[i].Instance?
  }

  /**
   * What `read` returns: None, the raw bytes of a counted read, one decoded
   * value, or a list of them.  A decoded value is shown as its byte image.
   */
  datatype ReadValue = NoValue | Raw(bytes: Bytes) | One(image: Bytes) | Many(images: seq<Bytes>)

  /** `b"".join(bytes(x) for x in args if x is not None)`. */
  function Join(args: seq<Option<Bytes>>): (r: Bytes)
  {
    if args == [] then []
    else (match args[0] case Some(b) => b case None => []) + Join(args[1..])
  }

  /** The total a read asks for: the count itself, or the sum of the sizes of the non-None shapes. */
  function ReadSize(args: seq<ReadArg>): Outcome<int>
  {
    if |args| == 1 && args[0].Count? then Ok(args[0].n)
    else if exists i :: 0 <= i < |args| && (args[i].Count? || args[i].Unsized?) then Fail(TypeError)
    else Ok(ShapeTotal(args))
  }

  /** The sizes of the non-None shapes, in order. */
  function Sizes(args: seq<ReadArg>): seq<nat>
  {
    if args == [] then []
    else (if args[0].Sized() then [args[0].size] else []) + Sizes(args[1..])
  }

  function ShapeTotal(args: seq<ReadArg>): nat
  {
    if args == [] then 0
    else (if args[0].Sized() then args[0].size else 0) + ShapeTotal(args[1..])
  }

  /** The consecutive slices of data that the shapes take, in argument order, None skipped. */
  function Slices(args: seq<ReadArg>, data: Bytes): seq<Bytes>
    requires |data| == ShapeTotal(args)
  {
    if args == [] then []
    else if args[0].Sized() then [data[..args[0].size]] + Slices(args[1..], data[args[0].size..])
    else Slices(args[1..], data)
  }

  /** The value a successful typed read returns: one value unwrapped, several as a list. */
  function Wrapped(values: seq<Bytes>): ReadValue
  {
    if |values| == 1 then One(values[0])
    else if |values| == 0 then NoValue
    else Many(values)
  }

  /**
   * What a read-side step does, as a value: its outcome, the bytes still
   * waiting afterwards, and the IN requests it made.
   */
  datatype Effect<T> = Effect(outcome: Outcome<T>, rest: Bytes, requests: seq<nat>)

  /**
   * `read(*args)` against the bytes m waiting from the device: a single int
   * asks for that many raw bytes, otherwise the sizes of the non-None shapes
   * are added up (an int among several arguments, or an unsized object,
   * raises TypeError).  A total of 0 returns None and a negative count
   * returns empty bytes, both without a transfer.  Otherwise the total is
   * requested in pieces; with fewer bytes waiting the read times out.  The
   * bytes are then decoded in order, and a ctypes value among the arguments
   * raises AttributeError after they have all been received.
   */
  function ReadEffect(args: seq<ReadArg>, m: Bytes, max: nat): Effect<ReadValue>
    requires max > 0
  {
    match ReadSize(args)
    case Fail(e) => Effect(Fail(e), m, [])
    case Ok(size) =>
      if size == 0 then Effect(Ok(NoValue), m, [])
      else if size < 0 then Effect(Ok(Raw([])), m, [])
      else if |m| < size then Effect(Fail(Timeout), [], Requests(size, |m|, max))
      else if args[0].Count? then Effect(Ok(Raw(m[..size])), m[size..], ChunkSizes(size, max))
      else if HasInstance(args) then Effect(Fail(AttributeError), m[size..], ChunkSizes(size, max))
      else Effect(Ok(Wrapped(Slices(args, m[..size]))), m[size..], ChunkSizes(size, max))
  }

  /**
   * A read takes bytes off the front of what is waiting and nothing else;
   * with nothing asked it takes nothing. Once the bytes are in, it fails
   * exactly when a ctypes value is among the arguments, and then the bytes
   * are consumed all the same.
   */
  lemma ReadEffectConsumes(args: seq<ReadArg>, m: Bytes, max: nat)
    requires max > 0
    ensures var e := ReadEffect(args, m, max);
      && (e.outcome.Ok? ==> |e.rest| <= |m| && e.rest == m[|m| - |e.rest|..])
      && (e.outcome.Ok? && ReadSize(args).value > 0 ==> e.rest == m[ReadSize(args).value..])
      && (ReadSize(args) == Ok(0) ==> e == Effect(Ok(NoValue), m, []))
      && (e.outcome == Fail(Timeout) <==> ReadSize(args).Ok? && |m| < ReadSize(args).value)
      && (ReadSize(args).Ok? && 0 < ReadSize(args).value <= |m| ==>
            (e.outcome.Fail? <==> HasInstance(args)) && e.rest == m[ReadSize(args).value..])
  {
  }

  /**
   * The IN requests of a read of n more bytes when the device has m bytes
   * waiting: min(n, max) each time, until n bytes are in or a request finds
   * nothing waiting (the last request then times out).
   */
  function Requests(n: nat, m: nat, max: nat): seq<nat>
    requires max > 0
    decreases n
  {
    if n == 0 then []
    else if m == 0 then [Min(n, max)]
    else
      var got := Min(Min(n, max), m);
      [Min(n, max)] + Requests(n - got, m - got, max)
  }

  /** With enough bytes waiting, a read's requests are exactly the chunk sizes of the read. */
  lemma {:induction false} RequestsWhenAvailable(n: nat, m: nat, max: nat)
    requires max > 0 && n <= m
    ensures Requests(n, m, max) == ChunkSizes(n, max)
    decreases n
  {
    if n > 0 {
      RequestsWhenAvailable(n - Min(n, max), m - Min(n, max), max);
    }
  }

  /** The total of the sizes is the total of the shapes. */
  lemma {:induction false} SizesTotal(args: seq<ReadArg>)
    ensures Sum(Sizes(args)) == ShapeTotal(args)
  {
    if args != [] {
      SizesTotal(args[1..]);
      SumAppend(if args[0].Sized() then [args[0].size] else [], Sizes(args[1..]));
    }
  }

  lemma {:induction false} SumAppend(a: seq<nat>, b: seq<nat>)
    ensures Sum(a + b) == Sum(a) + Sum(b)
  {
    if a != [] {
      assert (a + b)[1..] == a[1..] + b;
      SumAppend(a[1..], b);
    } else {
      assert a + b == b;
    }
  }

  /**
   * A typed read decodes its pieces in argument order: if the bytes are
   * values of the shapes' sizes laid end to end, the slices are those values.
   */
  lemma {:induction false} SlicesOfPieces(args: seq<ReadArg>, pieces: seq<Bytes>)
    requires |pieces| == |Sizes(args)|
    requires forall k :: 0 <= k < |pieces| ==> |pieces[k]| == Sizes(args)[k]
    ensures |Flatten(pieces)| == ShapeTotal(args)
    ensures Slices(args, Flatten(pieces)) == pieces
  {
    if args != [] {
      if args[0].Sized() {
        var k := args[0].size;
        assert Sizes(args) == [k] + Sizes(args[1..]);
        var rest := pieces[1..];
        assert forall j :: 0 <= j < |rest| ==> |rest[j]| == Sizes(args[1..])[j] by {
          forall j | 0 <= j < |rest|
            ensures |rest[j]| == Sizes(args[1..])[j]
          {
            assert rest[j] == pieces[j + 1];
            assert Sizes(args)[j + 1] == Sizes(args[1..])[j];
          }
        }
        SlicesOfPieces(args[1..], rest);
        assert Flatten(pieces) == pieces[0] + Flatten(rest);
        assert Flatten(pieces)[..k] == pieces[0];
        assert Flatten(pieces)[k..] == Flatten(rest);
      } else {
        assert Sizes(args) == Sizes(args[1..]);
        SlicesOfPieces(args[1..], pieces);
      }
    }
  }

  /**
   * The decoding loop of a typed read: one slice per non-None type,
   * appended in argument order; the first ctypes value raises
   * AttributeError.
   */
  method SliceAll(args: seq<ReadArg>, data: Bytes) returns (r: Outcome<seq<Bytes>>)
    requires |data| == ShapeTotal(args)
    ensures r == if HasInstance(args) then Fail(AttributeError) else Ok(Slices(args, data))
  {
    var ret := [];
    var off := 0;
    for i := 0 to |args|
      invariant 0 <= off <= |data|
      invariant |data| - off == ShapeTotal(args[i..])
      invariant ret + Slices(args[i..], data[off..]) == Slices(args, data)
      invariant forall j :: 0 <= j < i ==> !args[j].Instance?
    {
      assert args[i..][1..] == args[i + 1..];
      match args[i]
      case Instance(_) =>
        assert HasInstance(args) by { assert args[i].Instance?; }
        return Fail(AttributeError);
      case Shape(k) =>
        ret := ret + [data[off..off + k]];
        assert data[off..][..k] == data[off..off + k];
        assert data[off..][k..] == data[off + k..];
        off := off + k;
      case _ =>
    }
    assert args[|args|..] == [];
    assert !HasInstance(args);
    assert ret == Slices(args, data);
    r := Ok(ret);
  }

  /** The handler's state as a value: the closed flag and the three logs. */
  datatype Link = Link(closed: bool, sent: seq<Bytes>, requests: seq<nat>, inbox: Bytes)

  class UsbCommandHandler {
    /** The largest transfer in either direction (`max_rw`). */
    const maxRw: nat
    var closed: bool
    /** Every OUT transfer so far, in order. */
    var sent: seq<Bytes>
    /** The size asked for by every IN transfer so far, in order. */
    var requests: seq<nat>
    /** Bytes the device has sent that have not been read yet. */
    var inbox: Bytes

    /** A zero `max_rw` would make a nonempty write loop forever, so the model asks for a positive one. */
    predicate Valid()
    {
      maxRw > 0
    }

    function State(): Link
      reads this
    {
      Link(closed, sent, requests, inbox)
    }

    /** Everything the host has put on the wire, as one byte string. */
    function Wire(): Bytes
      reads this
    {
      Flatten(sent)
    }

    /** A handler on an opened link: not closed, nothing exchanged yet. */
    constructor (maxRw: nat)
      requires maxRw > 0
      ensures Valid() && this.maxRw == maxRw
      ensures !closed && sent == [] && requests == [] && inbox == []
    {
      this.maxRw := maxRw;
      closed := false;
      sent := [];
      requests := [];
      inbox := [];
    }

    /** The device sends bytes towards the host. */
    method Deliver(b: Bytes)
      modifies this
      ensures inbox == old(inbox) + b
      ensures sent == old(sent) && requests == old(requests) && closed == old(closed)
    {
      inbox := inbox + b;
    }

    /**
     * `write(*args)`: the bytes of the non-None arguments, joined, go out in
     * chunks of min(remaining, max_rw) bytes, front to back; nothing goes
     * out when they are empty.
     */
    method Write(args: seq<Option<Bytes>>)
      requires Valid()
      modifies this
      ensures sent == old(sent) + Chunks(Join(args), maxRw)
      ensures requests == old(requests) && inbox == old(inbox) && closed == old(closed)
    {
      var data := Join(args);
      var size := |data|;
      if size == 0 {
        return;
      }
      var t := 0;
      while t < size
        invariant 0 <= t <= size
        invariant sent + Chunks(data[t..], maxRw) == old(sent) + Chunks(data, maxRw)
        invariant requests == old(requests) && inbox == old(inbox) && closed == old(closed)
        decreases size - t
      {
        var toWrite := Min(size - t, maxRw);
        ChunksStep(data, maxRw, t);
        sent := sent + [data[t..t + toWrite]];
        t := t + toWrite;
      }
      assert data[t..] == [];
    }

    /** `write(x)` for one byte string x. */
    method Send(x: Bytes)
      requires Valid()
      modifies this
      ensures sent == old(sent) + Chunks(x, maxRw)
      ensures requests == old(requests) && inbox == old(inbox) && closed == old(closed)
    {
      Write([Some(x)]);
      assert Join([Some(x)]) == x + Join([]);
      assert Join([Some(x)]) == x;
    }

    /** Consecutive `write` calls, one per byte string, in order. */
    method SendEach(ws: seq<Bytes>)
      requires Valid()
      modifies this
      ensures sent == old(sent) + Transfers(ws, maxRw)
      ensures requests == old(requests) && inbox == old(inbox) && closed == old(closed)
    {
      for i := 0 to |ws|
        invariant sent == old(sent) + Transfers(ws[..i], maxRw)
        invariant requests == old(requests) && inbox == old(inbox) && closed == old(closed)
      {
        Send(ws[i]);
        TransfersSnoc(ws[..i], ws[i], maxRw);
        assert ws[..i + 1] == ws[..i] + [ws[i]];
      }
      assert ws[..|ws|] == ws;
    }

    /**
     * The loop of `read`: requests of min(remaining, max_rw) bytes until
     * size bytes are in.  It succeeds exactly when the device has sent at
     * least size bytes, and then returns the first size of them.
     */
    method Receive(size: nat) returns (ok: bool, data: Bytes)
      requires Valid()
      modifies this
      ensures ok <==> size <= |old(inbox)|
      ensures ok ==> data == old(inbox)[..size] && inbox == old(inbox)[size..]
      ensures !ok ==> inbox == []
      ensures requests == old(requests) + Requests(size, |old(inbox)|, maxRw)
      ensures sent == old(sent) && closed == old(closed)
    {
      data := [];
      while |data| < size
        invariant |data| <= size
        invariant data + inbox == old(inbox)
        invariant requests + Requests(size - |data|, |inbox|, maxRw)
                  == old(requests) + Requests(size, |old(inbox)|, maxRw)
        invariant sent == old(sent) && closed == old(closed)
        decreases size - |data|
      {
        var toRead := Min(size - |data|, maxRw);
        requests := requests + [toRead];
        if inbox == [] {
          return false, data;
        }
        var got := Min(toRead, |inbox|);
        data := data + inbox[..got];
        inbox := inbox[got..];
        assert old(inbox) == data + inbox;
      }
      assert data == old(inbox)[..size];
      return true, data;
    }

    /**
     * `read(*args)`: a single int asks for that many raw bytes; otherwise
     * the non-None shapes are read back to back and decoded in order.  A
     * total of 0 returns None without a transfer; an int among several
     * arguments raises TypeError (`sizeof(int)`).
     */
    method Read(args: seq<ReadArg>) returns (r: Outcome<ReadValue>)
      requires Valid()
      modifies this
      ensures var e := ReadEffect(args, old(inbox), maxRw);
                r == e.outcome && inbox == e.rest && requests == old(requests) + e.requests
      ensures sent == old(sent) && closed == old(closed)
    {
      var total := ReadSize(args);
      if total.Fail? {
        return Fail(TypeError);
      }
      var size := total.value;
      if size == 0 {
        return Ok(NoValue);
      }
      if size < 0 {
        return Ok(Raw([]));
      }
      var ok, data := Receive(size);
      if ok {
        RequestsWhenAvailable(size, |old(inbox)|, maxRw);
      }
      if !ok {
        return Fail(Timeout);
      }
      if args[0].Count? {
        return Ok(Raw(data));
      }
      var ret := SliceAll(args, data);
      if ret.Fail? {
        return Fail(ret.error);
      }
      r := Ok(Wrapped(ret.value));
    }
  }
}
