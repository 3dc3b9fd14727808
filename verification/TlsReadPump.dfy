/** The read side of IOTLS: pending reads, left-over bytes, the in-progress flag and callbacks that may
    read again. Public methods are atomic steps; decrypted bytes, end of stream and errors arrive as steps. */
module TlsReadPump {
  import opened Words

  datatype Option<T> = None | Some(value: T)

  /** A read call. `maxBytes == 0` means no limit when bytes arrive, and nothing when they are queued. */
  datatype Request = Request(maxBytes: nat, bufferized: bool, id: nat)

  /** A callback invocation: `status` is the byte count, 0 at end of stream or a negative error. */
  datatype Delivery = Delivery(req: Request, data: seq<Byte>, status: int)

  datatype Call = Accepted | NotOpen | NotConnected | NoTls

  const UV_EOF: int := -4095
  const UV_ECONNRESET: int := -104

  ghost function Bytes(ds: seq<Delivery>): seq<Byte> {
    if |ds| == 0 then [] else Bytes(ds[..|ds| - 1]) + ds[|ds| - 1].data
  }

  ghost function Requests(ds: seq<Delivery>): (rs: seq<Request>)
    ensures |rs| == |ds|
  {
    seq(|ds|, i requires 0 <= i < |ds| => ds[i].req)
  }

  /** How many requests ask for zero bytes. */
  ghost function Zeros(rs: seq<Request>): nat {
    if |rs| == 0 then 0 else (if rs[0].maxBytes == 0 then 1 else 0) + Zeros(rs[1..])
  }

  lemma ZerosFirst(rs: seq<Request>)
    ensures |rs| > 0 ==> Zeros(rs) == (if rs[0].maxBytes == 0 then 1 else 0) + Zeros(rs[1..])
  {}

  lemma {:induction false} ZerosAppend(rs: seq<Request>, r: Request)
    ensures Zeros(rs + [r]) == Zeros(rs) + if r.maxBytes == 0 then 1 else 0
  {
    if |rs| > 0 {
      assert (rs + [r])[1..] == rs[1..] + [r];
      ZerosAppend(rs[1..], r);
    }
  }

  ghost predicate Fits(d: Delivery) {
    && (d.req.maxBytes > 0 ==> |d.data| <= d.req.maxBytes)
    && (d.status == |d.data| || (d.data == [] && d.status <= 0))
  }

  /** What a request gets from left-over bytes: as many as it asks for and there are. */
  function Served(r: Request, queue: seq<Byte>): (d: Delivery)
    ensures d.req == r && d.data <= queue && d.status == |d.data| <= r.maxBytes
    ensures |d.data| == r.maxBytes || d.data == queue
  {
    var n := if r.maxBytes < |queue| then r.maxBytes else |queue|;
    Delivery(r, queue[..n], n)
  }

  lemma ServedFits(r: Request, queue: seq<Byte>)
    ensures Fits(Served(r, queue))
  {}

  lemma BytesAppend(ds: seq<Delivery>, d: Delivery)
    ensures Bytes(ds + [d]) == Bytes(ds) + d.data
    ensures Requests(ds + [d]) == Requests(ds) + [d.req]
  {
    assert (ds + [d])[..|ds|] == ds;
  }

  /** What the armed request gets when a read ends with `nread` bytes, at end of stream or with an error. */
  function FirstDelivery(r: Request, nread: int, buf: seq<Byte>): (d: Delivery)
    requires nread <= |buf|
    ensures d.req == r
    ensures nread > 0 ==> d.data <= buf[..nread] && d.status == |d.data|
    ensures nread > 0 ==> (|d.data| == nread && (r.maxBytes > 0 ==> nread <= r.maxBytes)) || |d.data| == r.maxBytes > 0
    ensures nread <= 0 ==> d.data == []
    ensures nread == UV_EOF || nread == UV_ECONNRESET ==> d.status == 0
    ensures nread <= 0 && nread != UV_EOF && nread != UV_ECONNRESET ==> d.status == nread
  {
    if nread > 0 then
      var n := if r.maxBytes > 0 && nread > r.maxBytes then r.maxBytes else nread;
      Delivery(r, buf[..n], n)
    else Delivery(r, [], if nread == UV_EOF || nread == UV_ECONNRESET then 0 else nread)
  }

  /** The pump and its history at one moment. */
  datatype State = State(received: seq<Byte>, issued: seq<Request>, delivered: seq<Delivery>, dataQueue: seq<Byte>,
                         readQueue: seq<Request>, armed: Option<Request>, tlsReading: bool, connReset: bool,
                         open: bool, connected: bool, tlsReady: bool)

  class IOTLS {
    var readQueue: seq<Request>
    var dataQueue: seq<Byte>
    var tlsReading: bool
    var bufferized: bool
    var readData: Option<Request>
    var connReset: bool
    var open: bool
    var connected: bool
    var tlsReady: bool

    /** What callbacks may still do in this step: how many reads of zero bytes they will issue. They may
        issue any number of other reads. */
    var zeroReads: nat

    ghost var received: seq<Byte>
    ghost var issued: seq<Request>
    ghost var delivered: seq<Delivery>

    /** Nothing lost, repeated or reordered: `pending` requests are between queue and callback and `data`
        is on its way to one. */
    ghost predicate Accounts(data: seq<Byte>, pending: seq<Request>)
      reads `delivered, `dataQueue, `received, `readQueue, `issued
    {
      && Bytes(delivered) + data + dataQueue == received
      && Requests(delivered) + pending + readQueue == issued
      && (forall d :: d in delivered ==> Fits(d))
    }

    /** Between steps: a read is armed exactly while `tlsReading` is set, and then no bytes are left over;
        otherwise no read is waiting. */
    ghost predicate Valid()
      reads `delivered, `dataQueue, `received, `readQueue, `issued, `readData, `tlsReading, `bufferized
    {
      match readData
      case Some(r) => Accounts([], [r]) && tlsReading && dataQueue == [] && bufferized == r.bufferized
      case None => Accounts([], []) && !tlsReading && readQueue == []
    }

    /** While a read is being served, before and after its callback. */
    ghost predicate Serving()
      reads `delivered, `dataQueue, `received, `readQueue, `issued, `readData, `tlsReading
      ensures Serving() ==> tlsReading
    {
      readData == None && tlsReading && Accounts([], [])
    }

    ghost function Snapshot(): State
      reads this
    {
      State(received, issued, delivered, dataQueue, readQueue, readData, tlsReading, connReset, open, connected, tlsReady)
    }

    /** Decreases whenever a queued request is served from the left-over bytes. */
    ghost function ZeroWork(): nat
      reads this
    {
      Zeros(readQueue) + zeroReads
    }

    constructor ()
      ensures Valid() && received == [] && issued == [] && delivered == []
    {
      readQueue, dataQueue, tlsReading, readData := [], [], false, None;
      open, connected, tlsReady, connReset := true, true, true, false;
      received, issued, delivered := [], [], [];
    }

    /** Both `read` overloads. Called from inside a callback, it only queues the request. */
    method Read(req: Request) returns (call: Call)
      requires Valid() || Serving()
      modifies this
      ensures old(Valid()) ==> Valid()
      ensures old(Serving()) ==>
        && Serving() && dataQueue == old(dataQueue) && zeroReads == old(zeroReads) && delivered == old(delivered)
        && readQueue == old(readQueue) + (if call == Accepted then [req] else [])
      ensures received == old(received) && old(delivered) <= delivered
      ensures open == old(open) && connected == old(connected) && tlsReady == old(tlsReady) && connReset == old(connReset)
      ensures call == if !open then NotOpen else if !connected then NotConnected else if !tlsReady then NoTls else Accepted
      ensures if call == Accepted then old(issued) + [req] <= issued else Snapshot() == old(Snapshot())
      ensures call == Accepted ==>
        if old(tlsReading) then delivered == old(delivered) && readQueue == old(readQueue) + [req] && readData == old(readData)
        else if old(dataQueue) == [] then delivered == old(delivered) && readData == Some(req)
        else old(delivered) + [Served(req, old(dataQueue))] <= delivered
      decreases |dataQueue|, ZeroWork() + (if tlsReading then 0 else 1), if tlsReading then 0 else 3
    {
      hide Bytes, Requests, Zeros, Fits, Served;
      if !open { return NotOpen; }
      if !connected { return NotConnected; }
      if !tlsReady { return NoTls; }
      call := Accepted;
      issued := issued + [req];
      if readQueue == [] && !tlsReading {
        tlsReading := true;
        if dataQueue != [] {
          Serve(req);
          return;
        }
        bufferized := req.bufferized;
        assert readData == None; // nothing for freeReadData to drop
        readData := Some(req);
      } else {
        readQueue := readQueue + [req];
      }
    }

    /** Moves queued bytes into the caller's buffer. */
    method Take(req: Request) returns (data: seq<Byte>)
      modifies this`dataQueue
      ensures data + dataQueue == old(dataQueue) && Delivery(req, data, |data|) == Served(req, old(dataQueue))
      ensures old(dataQueue) != [] && req.maxBytes > 0 ==> |dataQueue| < |old(dataQueue)|
      ensures |data| <= req.maxBytes && (|data| == req.maxBytes || dataQueue == [])
    {
      data := [];
      while dataQueue != [] && |data| < req.maxBytes
        invariant data + dataQueue == old(dataQueue) && |data| <= req.maxBytes
        decreases |dataQueue|
      {
        data := data + [dataQueue[0]];
        dataQueue := dataQueue[1..];
      }
    }

    /** The hand-over itself. */
    ghost method Record(d: Delivery)
      requires readData == None && tlsReading && Accounts(d.data, [d.req]) && Fits(d)
      modifies this`delivered
      ensures Serving() && delivered == old(delivered) + [d]
    {
      BytesAppend(delivered, d);
      hide Bytes, Requests, Fits;
      delivered := delivered + [d];
    }

    /** The user's callback: any number of reads of any size, zero-size ones within `zeroReads`. */
    method Callback(req: Request, data: seq<Byte>, status: int)
      requires readData == None && tlsReading && Accounts(data, [req]) && Fits(Delivery(req, data, status))
      modifies this
      ensures Serving() && dataQueue == old(dataQueue) && ZeroWork() <= old(ZeroWork())
      ensures received == old(received) && delivered == old(delivered) + [Delivery(req, data, status)]
      ensures old(issued) <= issued
      ensures open == old(open) && connected == old(connected) && tlsReady == old(tlsReady) && connReset == old(connReset)
      decreases |dataQueue|, ZeroWork(), 2
    {
      hide Bytes, Requests, Fits, Zeros, Accounts, Serving, Valid;
      Record(Delivery(req, data, status));
      var calls: int := *;
      var i := 0;
      while i < calls
        invariant Serving() && dataQueue == old(dataQueue) && ZeroWork() <= old(ZeroWork())
        invariant received == old(received) && delivered == old(delivered) + [Delivery(req, data, status)]
        invariant old(issued) <= issued
        invariant open == old(open) && connected == old(connected) && tlsReady == old(tlsReady) && connReset == old(connReset)
      {
        var next: Request := *;
        if next.maxBytes > 0 || zeroReads > 0 {
          ghost var queue := readQueue;
          ZerosAppend(queue, next);
          if next.maxBytes == 0 { zeroReads := zeroReads - 1; }
          var call := Read(next);
          assert readQueue == if call == Accepted then queue + [next] else queue;
        }
        i := i + 1;
      }
    }

    /** Hands left-over bytes to a request and goes on with the queue. */
    method Serve(req: Request)
      requires readData == None && tlsReading && Accounts([], [req]) && dataQueue != []
      modifies this
      ensures Valid() && old(delivered) + [Served(req, old(dataQueue))] <= delivered
      ensures received == old(received) && old(issued) <= issued
      ensures open == old(open) && connected == old(connected) && tlsReady == old(tlsReady) && connReset == old(connReset)
      decreases |dataQueue|, ZeroWork() + (if req.maxBytes == 0 then 1 else 0), 0
    {
      hide Bytes, Requests, Zeros, Fits, Served;
      ServedFits(req, dataQueue);
      var data := Take(req);
      Callback(req, data, |data|);
      CheckReadQueue();
    }

    /** Serves queued reads from left-over bytes; arms the next one, or stops reading, when one side runs out. */
    method CheckReadQueue()
      requires Serving()
      modifies this
      ensures Valid()
      ensures if old(readQueue) == [] then delivered == old(delivered) && readData == None
              else if old(dataQueue) == [] then delivered == old(delivered) && readData == Some(old(readQueue)[0])
              else old(delivered) + [Served(old(readQueue)[0], old(dataQueue))] <= delivered
      ensures received == old(received) && old(delivered) <= delivered && old(issued) <= issued
      ensures open == old(open) && connected == old(connected) && tlsReady == old(tlsReady) && connReset == old(connReset)
      decreases |dataQueue|, ZeroWork(), 1
    {
      ZerosFirst(readQueue);
      hide Bytes, Requests, Zeros, Fits, Served;
      if readQueue == [] {
        tlsReading := false;
        return;
      }
      assert readData == None;
      var req := readQueue[0];
      readQueue := readQueue[1..];
      bufferized := req.bufferized;
      if dataQueue != [] {
        Serve(req);
        return;
      }
      readData := Some(req);
    }

    /** `_read_tls_cb` and `_readBuffer_tls_cb`: bytes, end of stream or an error for the armed read. */
    method OnTlsRead(nread0: int, buf: seq<Byte>)
      requires Valid() && readData.Some? && nread0 <= |buf|
      modifies this
      ensures Valid()
      ensures received == old(received) + (if nread0 > 0 then buf[..nread0] else [])
      ensures old(issued) <= issued
      ensures old(delivered) + [FirstDelivery(old(readData.value), nread0, buf)] <= delivered
      ensures connReset == (old(connReset) || nread0 == UV_ECONNRESET)
      ensures open == old(open) && connected == old(connected) && tlsReady == old(tlsReady)
    {
      hide Bytes, Requests, Zeros;
      var nread := if nread0 == UV_EOF then 0 else nread0;
      var rcv := readData.value;
      if nread == UV_ECONNRESET {
        nread := 0;
        connReset := true;
      }
      readData := None;
      if nread > 0 {
        received := received + buf[..nread];
        var size := nread;
        if rcv.maxBytes > 0 && size > rcv.maxBytes {
          size := rcv.maxBytes;
          dataQueue := dataQueue + buf[size..nread];
        }
        Callback(rcv, buf[..size], size);
      } else {
        Callback(rcv, [], nread);
      }
      CheckReadQueue();
    }

    /** The armed read could not be started. */
    method OnStartFailed(result: int)
      requires Valid() && readData.Some? && result < 0
      modifies this
      ensures Valid() && received == old(received) && old(issued) <= issued
      ensures old(delivered) + [Delivery(old(readData.value), [], result)] <= delivered
      ensures open == old(open) && connected == old(connected) && tlsReady == old(tlsReady) && connReset == old(connReset)
    {
      hide Bytes, Requests, Zeros;
      var rcv := readData.value;
      readData := None;
      Callback(rcv, [], result);
      CheckReadQueue();
    }
  }

  // ---------------------------------------------------------------- runs

  /** What may happen to an open connection. */
  datatype Event =
    | ReadCall(req: Request)
    | Arrive(buf: seq<Byte>)
    | EndOfStream
    | Reset
    | ReadError(code: int)
    | StartFailed(code: int)

  /** What callbacks got, in order, followed by what is left over is what was received; requests are served
      first in first out, within their sizes; an armed read means nothing is left over, and without one no read
      is waiting. */
  ghost predicate Ordered(s: State) {
    && Bytes(s.delivered) + s.dataQueue == s.received
    && Requests(s.delivered) + (if s.armed.Some? then [s.armed.value] else []) + s.readQueue == s.issued
    && (forall d :: d in s.delivered ==> Fits(d))
    && s.tlsReading == s.armed.Some?
    && if s.armed.Some? then s.dataQueue == [] else s.readQueue == []
  }

  lemma ValidIsOrdered(io: IOTLS)
    requires io.Valid()
    ensures Ordered(io.Snapshot())
  {}

  /** Callbacks may read and be served further, but history only grows and the connection stays as it is. */
  ghost predicate Continues(a: State, b: State) {
    && a.received <= b.received && a.issued <= b.issued && a.delivered <= b.delivered
    && b.open == a.open && b.connected == a.connected && b.tlsReady == a.tlsReady
  }

  /** How many bytes, which end or which error the event reports for the armed read. */
  function Reported(e: Event): int
    requires !e.ReadCall?
  {
    match e
    case Arrive(buf) => |buf|
    case EndOfStream => UV_EOF
    case Reset => UV_ECONNRESET
    case ReadError(code) => code
    case StartFailed(code) => code
  }

  function Arrived(e: Event): seq<Byte> { if e.Arrive? then e.buf else [] }

  /** The event can happen: something reaches the connection only for an armed read. */
  predicate Happens(s: State, e: Event) {
    match e
    case ReadCall(_) => s.open && s.connected && s.tlsReady
    case Arrive(buf) => s.armed.Some? && |buf| > 0
    case EndOfStream => s.armed.Some?
    case Reset => s.armed.Some?
    case ReadError(code) => s.armed.Some? && code <= 0
    case StartFailed(code) => s.armed.Some? && code < 0
  }

  /** The next delivery goes to the request, from the front of the left-over bytes: as many as it asks for, or all
      there are. */
  ghost predicate HandsOver(a: State, r: Request, b: State) {
    && a.delivered <= b.delivered && |b.delivered| > |a.delivered|
    && var d := b.delivered[|a.delivered|];
       && d.req == r && d.data <= a.dataQueue && d.status == |d.data| <= r.maxBytes
       && (|d.data| == r.maxBytes || d.data == a.dataQueue)
  }

  lemma ServedHandsOver(a: State, r: Request, b: State)
    requires a.delivered + [Served(r, a.dataQueue)] <= b.delivered
    ensures HandsOver(a, r, b)
  {
    assert b.delivered[|a.delivered|] == Served(r, a.dataQueue);
  }

  /** What an event does, whatever the callbacks it causes do. */
  ghost predicate Follows(a: State, e: Event, b: State) {
    if !Happens(a, e) then b == a
    else if e.ReadCall? then
      && Continues(a, b) && b.received == a.received && b.connReset == a.connReset
      && a.issued + [e.req] <= b.issued
      && if a.tlsReading then b.delivered == a.delivered && b.readQueue == a.readQueue + [e.req] && b.armed == a.armed
         else if a.dataQueue == [] then b.delivered == a.delivered && b.armed == Some(e.req)
         else HandsOver(a, e.req, b)
    else
      && Continues(a, b) && b.received == a.received + Arrived(e)
      && b.connReset == (a.connReset || (Reported(e) == UV_ECONNRESET && !e.StartFailed?))
      && a.delivered + [EventDelivery(a.armed.value, e)] <= b.delivered
  }

  function EventDelivery(r: Request, e: Event): Delivery
    requires !e.ReadCall? && Reported(e) <= |Arrived(e)|
  {
    if e.StartFailed? then Delivery(r, [], e.code) else FirstDelivery(r, Reported(e), Arrived(e))
  }

  method ReadStep(io: IOTLS, req: Request)
    requires io.Valid()
    modifies io
    ensures io.Valid() && Follows(old(io.Snapshot()), ReadCall(req), io.Snapshot())
  {
    hide Bytes, Requests, Fits, IOTLS.Accounts, Served, HandsOver;
    ghost var a := io.Snapshot();
    var call := io.Read(req);
    if call == Accepted && !a.tlsReading && a.dataQueue != [] { ServedHandsOver(a, req, io.Snapshot()); }
  }

  /** One event. */
  method Step(io: IOTLS, e: Event)
    requires io.Valid()
    modifies io
    ensures io.Valid() && Follows(old(io.Snapshot()), e, io.Snapshot())
  {
    hide Bytes, Requests, Fits, IOTLS.Accounts, Served, FirstDelivery, HandsOver;
    var zeros: int := *;
    io.zeroReads := if zeros > 0 then zeros else 0;
    match e
    case ReadCall(req) =>
      ReadStep(io, req);
    case Arrive(buf) =>
      if io.readData.Some? && |buf| > 0 {
        assert buf[..|buf|] == buf;
        io.OnTlsRead(|buf|, buf);
      }
    case EndOfStream =>
      if io.readData.Some? { io.OnTlsRead(UV_EOF, []); }
    case Reset =>
      if io.readData.Some? { io.OnTlsRead(UV_ECONNRESET, []); }
    case ReadError(code) =>
      if io.readData.Some? && code <= 0 { io.OnTlsRead(code, []); }
    case StartFailed(code) =>
      if io.readData.Some? && code < 0 { io.OnStartFailed(code); }
  }

  /** Over a whole run the bytes received are those of the events that reached an armed read, and history only
      grows. */
  lemma {:induction false} RunReceives(trace: seq<State>, events: seq<Event>)
    requires |trace| == |events| + 1 && forall i :: 0 <= i < |events| ==> Follows(trace[i], events[i], trace[i + 1])
    ensures trace[|events|].received == trace[0].received + Received(trace, events)
    ensures Continues(trace[0], trace[|events|])
    decreases |events|
  {
    hide Follows;
    if |events| > 0 {
      var n := |events| - 1;
      RunReceives(trace[..n + 1], events[..n]);
      StepReceives(trace[n], events[n], trace[n + 1]);
    }
  }

  lemma StepReceives(a: State, e: Event, b: State)
    requires Follows(a, e, b)
    ensures b.received == a.received + (if Happens(a, e) then Arrived(e) else []) && Continues(a, b)
  {}

  /** The bytes of the events that found a read armed, in order. */
  ghost function Received(trace: seq<State>, events: seq<Event>): seq<Byte>
    requires |trace| == |events| + 1
    decreases |events|
  {
    if |events| == 0 then []
    else
      var n := |events| - 1;
      Received(trace[..n + 1], events[..n]) + if Happens(trace[n], events[n]) then Arrived(events[n]) else []
  }

  /** Every run of atomic steps, whatever its callbacks do, goes through states in order, each following from
      the one before it by its event. */
  method Run(io: IOTLS, events: seq<Event>) returns (ghost trace: seq<State>)
    requires io.Valid()
    modifies io
    ensures io.Valid()
    ensures |trace| == |events| + 1 && trace[0] == old(io.Snapshot()) && trace[|events|] == io.Snapshot()
    ensures forall i :: 0 <= i < |trace| ==> Ordered(trace[i])
    ensures forall i :: 0 <= i < |events| ==> Follows(trace[i], events[i], trace[i + 1])
    ensures io.received == old(io.received) + Received(trace, events)
    ensures old(io.issued) <= io.issued && old(io.delivered) <= io.delivered
  {
    hide Ordered, Follows, IOTLS.Valid, Received;
    ValidIsOrdered(io);
    trace := [io.Snapshot()];
    for i := 0 to |events|
      invariant io.Valid() && |trace| == i + 1 && trace[0] == old(io.Snapshot()) && trace[i] == io.Snapshot()
      invariant forall m :: 0 <= m <= i ==> Ordered(trace[m])
      invariant forall m :: 0 <= m < i ==> Follows(trace[m], events[m], trace[m + 1])
    {
      Step(io, events[i]);
      ValidIsOrdered(io);
      trace := trace + [io.Snapshot()];
    }
    RunReceives(trace, events);
  }
}
