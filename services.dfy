/**
 * `Service` and `SubService`: a service session held by the host, opened by
 * GetService (and ConvertServiceToDomain for a domain), closed at most once,
 * and used to send commands through the handler it was opened on.
 *
 * Each operation is stated as a function of the handler's state and the
 * session record (OpenSpec, CloseSpec, DispatchSpec) built from Host.Step,
 * and the methods of the classes are proved to follow them.
 */
module Services {
  import opened Wire
  import opened Types
  import opened Usb
  import opened Layout
  import Commands
  import Host
  import Dispatch

  // ---------------------------------------------------------------------------
  // Specifications

  /**
   * `Service(h)` without a base: GetService for the name, then, for a
   * domain class, ConvertServiceToDomain on the record it gave. An
   * exception from either call is the failure of the whole. On a closed
   * handler `execute` answers None (and so does the conversion of that
   * None), and the constructor returns normally with no record (None).
   */
  function OpenSpec(l: Link, name: Bytes, domain: bool, max: nat): (Link, Outcome<Option<ServiceStruct>>)
    requires max > 0
  {
    var (l1, r1) := Host.Step(l, Host.GetService(name), max);
    match r1
    case None => (l1, Ok(None))
    case Some(Fail(e)) => (l1, Fail(e))
    case Some(Ok(Record(b))) =>
      if !domain then (l1, Ok(Some(b)))
      else
        var (l2, r2) := Host.Step(l1, Host.ConvertServiceToDomain(b), max);
        (match r2
         case None => (l2, Ok(None))
         case Some(Ok(Record(d))) => (l2, Ok(Some(d)))
         case Some(Fail(e)) => (l2, Fail(e))
         // Convert answers with a record (Host.StepReplyKind)
         case Some(Ok(_)) => (l2, Fail(TypeError)))
    // GetService answers with a record (Host.StepReplyKind)
    case Some(Ok(_)) => (l1, Fail(TypeError))
  }

  /** The `closed` property: `not self.base.active`, an AttributeError when there is no record. */
  function ClosedOf(base: Option<ServiceStruct>): Outcome<bool>
  {
    match base
    case None => Fail(AttributeError)
    case Some(b) => Ok(!b.Active())
  }

  /**
   * `close()`: an inactive record is left alone; otherwise CloseService is
   * sent, and unless it raised the session is cleared to 0. The result is
   * the new link, the new record and the exception raised, if any.
   */
  function CloseSpec(l: Link, b: ServiceStruct, max: nat): (Link, ServiceStruct, Option<Error>)
    requires max > 0
  {
    if !b.Active() then (l, b, None)
    else
      var (l1, r) := Host.Step(l, Host.CloseService(b), max);
      if r.Some? && r.value.Fail? then (l1, b, Some(r.value.error))
      else (l1, b.(session := 0), None)
  }

  /** `close()` on the record a service holds: with no record, `self.closed` raises AttributeError first. */
  function CloseOn(l: Link, base: Option<ServiceStruct>, max: nat): (Link, Option<ServiceStruct>, Option<Error>)
    requires max > 0
  {
    match base
    case None => (l, None, Some(AttributeError))
    case Some(b) =>
      var (l1, b1, err) := CloseSpec(l, b, max);
      (l1, Some(b1), err)
  }

  /**
   * `dispatch(...)`: the request always goes to this service's own record.
   * On a closed handler `execute` gives None, and taking its objects fails
   * with TypeError.
   */
  function DispatchSpec(l: Link, b: ServiceStruct, req: Dispatch.Request, max: nat): (Link, Outcome<Dispatch.DispatchOut>)
    requires max > 0
  {
    var (l1, r) := Host.Step(l, Host.DispatchToService(req.(service := b)), max);
    match r
    case None => (l1, Fail(TypeError))
    case Some(Fail(e)) => (l1, Fail(e))
    case Some(Ok(Dispatched(out))) => (l1, Ok(out))
    // a dispatch answers with its dictionary (Host.StepReplyKind)
    case Some(Ok(_)) => (l1, Fail(TypeError))
  }

  /**
   * `dispatch(...)` on the record a service holds. With no record nothing
   * is sent: a closed handler answers None, whose objects cannot be taken,
   * and an open one could not pack None into the header's service field
   * (ctypes raises TypeError); both are TypeError.
   */
  function DispatchOn(l: Link, base: Option<ServiceStruct>, req: Dispatch.Request, max: nat): (Link, Outcome<Dispatch.DispatchOut>)
    requires max > 0
  {
    match base
    case None => (l, Fail(TypeError))
    case Some(b) => DispatchSpec(l, b, req, max)
  }

  /** The exception a command whose value is dropped (`free`, `write`) raised, if any. */
  function Raised(r: Option<Outcome<Host.Reply>>): Option<Error>
  {
    if r.Some? && r.value.Fail? then Some(r.value.error) else None
  }

  // ---------------------------------------------------------------------------
  // Properties

  /**
   * Opening never closes the handler. On a closed handler it sends nothing
   * and yields a service with no record; on an open one a success always
   * has a record and sent the request for the name.
   */
  lemma OpenKeepsHandler(l: Link, name: Bytes, domain: bool, max: nat)
    requires max > 0
    ensures OpenSpec(l, name, domain, max).0.closed == l.closed
    ensures l.closed ==> OpenSpec(l, name, domain, max) == (l, Ok(None))
    ensures !l.closed && OpenSpec(l, name, domain, max).1.Ok? ==>
      && OpenSpec(l, name, domain, max).1.value.Some?
      && EncodeName(name).Some? && |OpenSpec(l, name, domain, max).0.sent| > |l.sent|
  {
    Host.StepClosing(l, Host.GetService(name), max);
    if !l.closed {
      Host.StepClosing(l, Host.GetService(name), max);
      var (l1, r1) := Host.Step(l, Host.GetService(name), max);
      if r1.value.Ok? {
        Host.StepReplyKind(l, Host.GetService(name), max);
        var b := r1.value.value.service;
        assert Transfers([[OpGetService], EncodeName(name).value], max) != [] by {
          TransfersOfTwo([OpGetService], EncodeName(name).value, max);
        }
        if domain {
          Host.StepClosing(l1, Host.ConvertServiceToDomain(b), max);
        }
      }
    }
  }

  /**
   * A service constructed on a closed handler has no record: its first
   * `closed` or `close()` raises AttributeError, `dispatch` raises
   * TypeError, and none of them sends anything.
   */
  lemma OpenedClosedFails(l: Link, name: Bytes, domain: bool, req: Dispatch.Request, max: nat)
    requires max > 0 && l.closed
    ensures var (l1, r) := OpenSpec(l, name, domain, max);
      && r == Ok(None) && l1 == l
      && ClosedOf(r.value) == Fail(AttributeError)
      && CloseOn(l1, r.value, max) == (l, None, Some(AttributeError))
      && DispatchOn(l1, r.value, req, max) == (l, Fail(TypeError))
  {
    Host.StepClosing(l, Host.GetService(name), max);
  }

  /** A name with more than eight bytes before its first NUL is refused before anything is sent. */
  lemma OpenLongName(l: Link, name: Bytes, domain: bool, max: nat)
    requires max > 0 && !l.closed && |NameValue(name)| > NameSize
    ensures OpenSpec(l, name, domain, max) == (l, Fail(ValueError))
  {
    assert Transfers([], max) == [];
    assert l.(sent := l.sent + []) == l;
  }

  /**
   * Closing clears the session exactly when CloseService did not raise, and
   * touches no other field of the record; a failed close keeps the record
   * active so that a later close sends the request again.
   */
  lemma CloseDeactivates(l: Link, b: ServiceStruct, max: nat)
    requires max > 0
    ensures var (_, b2, err) := CloseSpec(l, b, max);
      && (err.None? ==> !b2.Active())
      && (err.Some? ==> b2 == b && b.Active())
      && b2.ownHandle == b.ownHandle && b2.objectId == b.objectId
      && b2.pointerBufferSize == b.pointerBufferSize
  {
  }

  /** Closing an inactive record, or closing a second time after a close that did not raise, does nothing. */
  lemma CloseTwice(l: Link, b: ServiceStruct, max: nat)
    requires max > 0
    ensures var (l2, b2, err) := CloseSpec(l, b, max);
      err.None? ==> CloseSpec(l2, b2, max) == (l2, b2, None)
  {
  }

  /** A close on an open handler with an active record sends the CloseService request for exactly that record. */
  lemma CloseSends(l: Link, b: ServiceStruct, max: nat)
    requires max > 0 && !l.closed && b.Active()
    ensures Flatten(CloseSpec(l, b, max).0.sent) == Flatten(l.sent) + [OpCloseService] + EncodeService(b)
    ensures !CloseSpec(l, b, max).0.closed
  {
    Host.StepWire(l, Host.CloseService(b), max);
    assert Flatten([[OpCloseService], EncodeService(b)]) == [OpCloseService] + EncodeService(b) by {
      assert [[OpCloseService], EncodeService(b)][1..] == [EncodeService(b)];
      assert [EncodeService(b)][1..] == [];
      assert Flatten([EncodeService(b)]) == EncodeService(b) + Flatten([]);
      assert EncodeService(b) + [] == EncodeService(b);
    }
    AppendAssoc(Flatten(l.sent), [OpCloseService], EncodeService(b));
  }

  /** What `dispatch` sends does not depend on the record named in the request, only on the service's own. */
  lemma DispatchOwnRecord(l: Link, b: ServiceStruct, req: Dispatch.Request, other: ServiceStruct, max: nat)
    requires max > 0
    ensures DispatchSpec(l, b, req, max) == DispatchSpec(l, b, req.(service := other), max)
  {
    assert req.(service := b) == req.(service := other).(service := b);
  }

  /** A dispatch through a closed handler sends nothing and fails. */
  lemma DispatchClosed(l: Link, b: ServiceStruct, req: Dispatch.Request, max: nat)
    requires max > 0 && l.closed
    ensures DispatchSpec(l, b, req, max) == (l, Fail(TypeError))
  {
    Host.StepClosing(l, Host.DispatchToService(req.(service := b)), max);
  }

  // ---------------------------------------------------------------------------
  // Service

  /** A session record (None when it was opened on a closed handler) and the handler it was opened on. */
  class Service {
    const h: UsbCommandHandler
    var base: Option<ServiceStruct>

    /** `closed`: the record is no longer active; AttributeError without a record. */
    function Closed(): Outcome<bool>
      reads this
    {
      ClosedOf(base)
    }

    /** The fields as `__init__` leaves them: the handler and the record (given, or obtained by Open). */
    constructor (h: UsbCommandHandler, base: Option<ServiceStruct>)
      ensures this.h == h && this.base == base
    {
      this.h := h;
      this.base := base;
    }

    /** `Service(h)`: open the class's service by name. */
    static method Open(h: UsbCommandHandler, name: Bytes, domain: bool) returns (r: Outcome<Service>)
      requires h.Valid()
      modifies h
      ensures var (l, b) := OpenSpec(old(h.State()), name, domain, h.maxRw);
        && h.State() == l
        && (r.Ok? <==> b.Ok?)
        && (r.Ok? ==> fresh(r.value) && r.value.h == h && r.value.base == b.value)
        && (r.Fail? ==> r.error == b.error)
    {
      ghost var l0 := h.State();
      var r1 := Host.Execute(h, Host.GetService(name));
      if r1.None? {
        // a closed handler: the conversion of None for a domain class is None as well
        var s := new Service(h, None);
        return Ok(s);
      }
      if r1.value.Fail? {
        return Fail(r1.value.error);
      }
      Host.StepReplyKind(l0, Host.GetService(name), h.maxRw);
      var b := r1.value.value.service;
      if domain {
        ghost var l1 := h.State();
        var r2 := Host.Execute(h, Host.ConvertServiceToDomain(b));
        Host.StepClosing(l0, Host.GetService(name), h.maxRw);
        Host.StepClosing(l1, Host.ConvertServiceToDomain(b), h.maxRw);
        if r2.value.Fail? {
          return Fail(r2.value.error);
        }
        Host.StepReplyKind(l1, Host.ConvertServiceToDomain(b), h.maxRw);
        b := r2.value.value.service;
      }
      var s := new Service(h, Some(b));
      r := Ok(s);
    }

    /** `close()`: `self.closed` first, then CloseService and clearing the session. */
    method Close() returns (err: Option<Error>)
      requires h.Valid()
      modifies this, h
      ensures (h.State(), base, err) == CloseOn(old(h.State()), old(base), h.maxRw)
    {
      var closed := Closed();
      if closed.Fail? {
        return Some(closed.error);
      }
      if !closed.value {
        var r := Host.Execute(h, Host.CloseService(base.value));
        if r.Some? && r.value.Fail? {
          return Some(r.value.error);
        }
        base := Some(base.value.(session := 0));
      }
      err := None;
    }

    /** `dispatch(...)`: the reply, with every returned object wrapped as a new Service on the same handler. */
    method Dispatch(req: Dispatch.Request) returns (r: Outcome<Dispatch.DispatchOut>, objects: seq<Service>)
      requires h.Valid()
      modifies h
      ensures (h.State(), r) == DispatchOn(old(h.State()), base, req, h.maxRw)
      ensures r.Ok? ==> |objects| == |r.value.objects|
      ensures r.Ok? ==> forall i :: 0 <= i < |objects| ==>
        fresh(objects[i]) && objects[i].h == h && objects[i].base == Some(r.value.objects[i])
      ensures r.Fail? ==> objects == []
    {
      if base.None? {
        return Fail(TypeError), [];
      }
      var base := base.value;
      ghost var l0 := h.State();
      var out := Host.Execute(h, Host.DispatchToService(req.(service := base)));
      objects := [];
      if out.None? {
        return Fail(TypeError), [];
      }
      if out.value.Fail? {
        return Fail(out.value.error), [];
      }
      Host.StepReplyKind(l0, Host.DispatchToService(req.(service := base)), h.maxRw);
      var d := out.value.value.out;
      objects := Wrap(h, d.objects);
      r := Ok(d);
    }

    /** `[Service(h, x) for x in objects]`. */
    static method Wrap(h: UsbCommandHandler, bs: seq<ServiceStruct>) returns (objects: seq<Service>)
      ensures |objects| == |bs|
      ensures forall i :: 0 <= i < |objects| ==> fresh(objects[i]) && objects[i].h == h && objects[i].base == Some(bs[i])
    {
      objects := [];
      var i := 0;
      while i < |bs|
        invariant 0 <= i <= |bs| && |objects| == i
        invariant forall j :: 0 <= j < i ==> fresh(objects[j]) && objects[j].h == h && objects[j].base == Some(bs[j])
      {
        var s := new Service(h, Some(bs[i]));
        objects := objects + [s];
        i := i + 1;
      }
    }

    method Allocate(alloc: string, size: Commands.SizeOrType, align: Option<int>) returns (r: Option<Outcome<Host.Reply>>)
      requires h.Valid()
      modifies h
      ensures Host.Step(old(h.State()), Host.Allocate(alloc, size, align), h.maxRw) == (h.State(), r)
    {
      r := Host.Execute(h, Host.Allocate(alloc, size, align));
    }

    method Free(ptr: int) returns (err: Option<Error>)
      requires h.Valid()
      modifies h
      ensures var (l, r) := Host.Step(old(h.State()), Host.Free(ptr), h.maxRw);
        h.State() == l && err == Raised(r)
    {
      var r := Host.Execute(h, Host.Free(ptr));
      err := Raised(r);
    }

    method Read(ptr: int, size: Commands.SizeOrType) returns (r: Option<Outcome<Host.Reply>>)
      requires h.Valid()
      modifies h
      ensures Host.Step(old(h.State()), Host.Read(ptr, size), h.maxRw) == (h.State(), r)
    {
      r := Host.Execute(h, Host.Read(ptr, size));
    }

    method Write(ptr: int, payload: Bytes) returns (err: Option<Error>)
      requires h.Valid()
      modifies h
      ensures var (l, r) := Host.Step(old(h.State()), Host.Write(ptr, payload), h.maxRw);
        h.State() == l && err == Raised(r)
    {
      var r := Host.Execute(h, Host.Write(ptr, payload));
      err := Raised(r);
    }
  }

  // ---------------------------------------------------------------------------
  // SubService

  /** A service reached through another one: closed once either is closed, and closing it closes only the inner one. */
  /** Python's `a or b` on two `closed` answers: b is asked only when a is False, and a raise propagates. */
  function OrElse(a: Outcome<bool>, b: Outcome<bool>): Outcome<bool>
  {
    match a
    case Fail(e) => Fail(e)
    case Ok(c) => if c then Ok(true) else b
  }

  /** `closed` asked of each service in turn, stopping at the first that raises or is closed. */
  function AnyClosed(ss: seq<Service>): Outcome<bool>
    reads set s | s in ss
  {
    if ss == [] then Ok(false) else OrElse(ss[0].Closed(), AnyClosed(ss[1..]))
  }

  /** Asking a chain in two parts is asking the first part `or` the second. */
  lemma {:induction false} ChainOr(a: seq<Service>, b: seq<Service>)
    ensures AnyClosed(a + b) == OrElse(AnyClosed(a), AnyClosed(b))
    decreases |a|
  {
    if a != [] {
      assert (a + b)[1..] == a[1..] + b;
      ChainOr(a[1..], b);
    } else {
      assert a + b == b;
    }
  }

  /**
   * A session opened through another: `parent` is a Service or, as for the
   * files and directories of a file system, itself a SubService. It is kept
   * as `chain`, the services its `closed` asks in order: the parent itself,
   * or the parent's chain followed by the parent's inner service.
   */
  class SubService {
    const chain: seq<Service>
    const srv: Service

    /** `SubService(parent, srv)` with a Service parent. */
    constructor (parent: Service, srv: Service)
      ensures this.chain == [parent] && this.srv == srv
      ensures AnyClosed(chain) == parent.Closed()
    {
      this.chain := [parent];
      this.srv := srv;
      new;
      assert AnyClosed(chain[1..]) == Ok(false);
    }

    /** `SubService(parent, srv)` with a SubService parent: `parent.closed` is that parent's own `closed`. */
    constructor Nested(parent: SubService, srv: Service)
      ensures this.chain == parent.chain + [parent.srv] && this.srv == srv
      ensures AnyClosed(chain) == parent.Closed()
    {
      this.chain := parent.chain + [parent.srv];
      this.srv := srv;
      new;
      ChainOr(parent.chain, [parent.srv]);
      assert AnyClosed([parent.srv][1..]) == Ok(false);
    }

    /** `parent.closed or srv.closed`: the inner one is asked only when the parent is open; either can raise. */
    function Closed(): Outcome<bool>
      reads (set s | s in chain), srv
    {
      OrElse(AnyClosed(chain), srv.Closed())
    }

    /** `close()`: the inner service is closed only while neither is closed. */
    method Close() returns (err: Option<Error>)
      requires srv.h.Valid()
      modifies srv, srv.h
      ensures old(Closed()).Fail? ==> err == Some(old(Closed()).error) && unchanged(srv, srv.h)
      ensures old(Closed()) == Ok(true) ==> err.None? && unchanged(srv, srv.h)
      ensures old(Closed()) == Ok(false) ==>
        (srv.h.State(), srv.base, err) == CloseOn(old(srv.h.State()), old(srv.base), srv.h.maxRw)
    {
      var closed := Closed();
      if closed.Fail? {
        return Some(closed.error);
      }
      err := None;
      if !closed.value {
        err := srv.Close();
      }
    }

    method Dispatch(req: Dispatch.Request) returns (r: Outcome<Dispatch.DispatchOut>, objects: seq<Service>)
      requires srv.h.Valid()
      modifies srv.h
      ensures (srv.h.State(), r) == DispatchOn(old(srv.h.State()), srv.base, req, srv.h.maxRw)
      ensures r.Ok? ==> |objects| == |r.value.objects|
      ensures r.Ok? ==> forall i :: 0 <= i < |objects| ==>
        fresh(objects[i]) && objects[i].h == srv.h && objects[i].base == Some(r.value.objects[i])
      ensures r.Fail? ==> objects == []
    {
      r, objects := srv.Dispatch(req);
    }

    method Allocate(alloc: string, size: Commands.SizeOrType, align: Option<int>) returns (r: Option<Outcome<Host.Reply>>)
      requires srv.h.Valid()
      modifies srv.h
      ensures Host.Step(old(srv.h.State()), Host.Allocate(alloc, size, align), srv.h.maxRw) == (srv.h.State(), r)
    {
      r := srv.Allocate(alloc, size, align);
    }

    method Free(ptr: int) returns (err: Option<Error>)
      requires srv.h.Valid()
      modifies srv.h
      ensures var (l, r) := Host.Step(old(srv.h.State()), Host.Free(ptr), srv.h.maxRw);
        srv.h.State() == l && err == Raised(r)
    {
      err := srv.Free(ptr);
    }

    method Read(ptr: int, size: Commands.SizeOrType) returns (r: Option<Outcome<Host.Reply>>)
      requires srv.h.Valid()
      modifies srv.h
      ensures Host.Step(old(srv.h.State()), Host.Read(ptr, size), srv.h.maxRw) == (srv.h.State(), r)
    {
      r := srv.Read(ptr, size);
    }

    /**
     * `write(...)` as written: it looks up a method `wrtie` that Service does
     * not have, so every call raises AttributeError before anything is sent.
     */
    method Write(ptr: int, payload: Bytes) returns (err: Option<Error>)
      ensures err == Some(AttributeError)
    {
      err := Some(AttributeError);
    }

    /** `write(...)` as evidently intended: the inner service's `write`. */
    method WriteIntended(ptr: int, payload: Bytes) returns (err: Option<Error>)
      requires srv.h.Valid()
      modifies srv.h
      ensures var (l, r) := Host.Step(old(srv.h.State()), Host.Write(ptr, payload), srv.h.maxRw);
        srv.h.State() == l && err == Raised(r)
    {
      err := srv.Write(ptr, payload);
    }
  }
}
