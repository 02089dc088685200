/** GenericRPCConnection: packets framed by a 16-bit size and a type, over a
    waitable connection. Integers are little-endian, as on the hosts the code
    runs on; both ends copy the header in host order. */
module RpcConnection {
  import opened Bytes
  import opened BinaryQueue
  import opened ExecutionContext

  const HEADER_SIZE: nat := 4
  const ASYNC_CALL: nat := 0
  const PING_PONG: nat := 1

  datatype Packet = Packet(kind: nat, payload: seq<byte>)

  /** The packets whose size the header can tell. */
  predicate Fits(p: Packet)
  {
    |p.payload| < 0x1_0000 && p.kind < 0x1_0000
  }

  /** The 16-bit size is truncated, as the cast to unsigned short does. */
  function Header(p: Packet): (s: seq<byte>)
    ensures |s| == HEADER_SIZE
  {
    Low(|p.payload| % 0x1_0000, 2) + Low(p.kind % 0x1_0000, 2)
  }

  function Encode(p: Packet): (s: seq<byte>)
    ensures |s| == HEADER_SIZE + |p.payload|
  {
    Header(p) + p.payload
  }

  function SizeField(s: seq<byte>): (n: nat)
    requires |s| >= HEADER_SIZE
    ensures n < 0x1_0000
  {
    GetBound(s[..2]);
    Pow256Values();
    Get(s[..2])
  }

  function KindField(s: seq<byte>): (n: nat)
    requires |s| >= HEADER_SIZE
    ensures n < 0x1_0000
  {
    GetBound(s[2..4]);
    Pow256Values();
    Get(s[2..4])
  }

  /** Whether a stream starts with a whole packet. */
  predicate Whole(s: seq<byte>)
  {
    |s| >= HEADER_SIZE && |s| >= HEADER_SIZE + SizeField(s)
  }

  function First(s: seq<byte>): (p: Packet)
    requires Whole(s)
    ensures Fits(p)
  {
    Packet(KindField(s), s[HEADER_SIZE..HEADER_SIZE + SizeField(s)])
  }

  function Frames(ps: seq<Packet>): seq<byte>
  {
    if ps == [] then [] else Encode(ps[0]) + Frames(ps[1..])
  }

  lemma HeaderBytes(p: Packet, rest: seq<byte>)
    ensures var s := Encode(p) + rest;
      s[..2] == Low(|p.payload| % 0x1_0000, 2) && s[2..4] == Low(p.kind % 0x1_0000, 2)
  {
    hide Low;
    var s, h := Encode(p) + rest, Header(p);
    assert s[..2] == h[..2] && s[2..4] == h[2..4];
  }

  lemma HeaderFields(p: Packet, rest: seq<byte>)
    requires p.kind < 0x1_0000
    ensures SizeField(Encode(p) + rest) == |p.payload| % 0x1_0000
    ensures KindField(Encode(p) + rest) == p.kind
  {
    hide Low, Encode, Get;
    HeaderBytes(p, rest);
    GetLow(|p.payload| % 0x1_0000, 2);
    GetLow(p.kind % 0x1_0000, 2);
    Pow256Values();
  }

  /** A call is read back as it was sent, whatever follows it, exactly when its
      payload is shorter than 65536 bytes. */
  lemma FramedIff(p: Packet)
    requires p.kind < 0x1_0000
    ensures (forall rest: seq<byte> :: ReadsBack(p, rest)) <==> |p.payload| < 0x1_0000
  {
    forall rest: seq<byte>
      ensures ReadsBack(p, rest) <==> |p.payload| < 0x1_0000
    {
      HeaderFields(p, rest);
      var s := Encode(p) + rest;
      if |p.payload| < 0x1_0000 {
        assert s[HEADER_SIZE..HEADER_SIZE + |p.payload|] == p.payload;
        assert s[|Encode(p)|..] == rest;
      } else {
        assert SizeField(s) != |p.payload|;
        assert Whole(s) ==> |First(s).payload| == SizeField(s);
      }
    }
    assert ReadsBack(p, []) || !ReadsBack(p, []);
  }

  predicate ReadsBack(p: Packet, rest: seq<byte>)
  {
    var s := Encode(p) + rest;
    Whole(s) && First(s) == p && s[HEADER_SIZE + SizeField(s)..] == rest
  }

  /** The bytes of a frame: two of length, two of type, and the payload. */
  lemma FrameBytes(payload: seq<byte>)
    requires |payload| < 0x1_0000
    ensures Encode(Packet(ASYNC_CALL, payload)) == [|payload| % 256, |payload| / 256, 0, 0] + payload
    ensures Encode(PING) == [0, 0, 1, 0]
  {
    LowTwo(|payload|);
    LowTwo(0);
    LowTwo(1);
  }

  lemma LowTwo(n: nat)
    requires n < 0x1_0000
    ensures Low(n, 2) == [n % 256, n / 256]
  {
    assert Low(n, 2) == [n % 256] + Low(n / 256, 1);
    assert Low(n / 256, 1) == [n / 256 % 256] + Low(n / 256 / 256, 0);
  }

  /** What is read is what was framed: the bytes consumed encode the packet. */
  lemma FirstEncodes(s: seq<byte>)
    requires Whole(s)
    ensures s == Encode(First(s)) + s[HEADER_SIZE + SizeField(s)..]
  {
    var p, n := First(s), HEADER_SIZE + SizeField(s);
    HeaderOfFirst(s);
    hide Header, First, SizeField;
    assert s == s[..HEADER_SIZE] + s[HEADER_SIZE..n] + s[n..];
  }

  lemma HeaderOfFirst(s: seq<byte>)
    requires Whole(s)
    ensures Header(First(s)) == s[..HEADER_SIZE] && First(s).payload == s[HEADER_SIZE..HEADER_SIZE + SizeField(s)]
  {
    hide Low, Get;
    FieldBack(s[..2]);
    FieldBack(s[2..4]);
    assert s[..2] + s[2..4] == s[..HEADER_SIZE];
    assert |First(s).payload| == SizeField(s);
  }

  lemma FieldBack(x: seq<byte>)
    requires |x| == 2
    ensures Get(x) < 0x1_0000 && Low(Get(x) % 0x1_0000, 2) == x
  {
    hide Low, Get;
    GetBound(x);
    Pow256Values();
    LowGet(x);
  }

  lemma {:induction false} FramesConcat(a: seq<Packet>, b: seq<Packet>)
    ensures Frames(a + b) == Frames(a) + Frames(b)
  {
    if a == [] {
      assert a + b == b;
    } else {
      assert (a + b)[1..] == a[1..] + b;
      FramesConcat(a[1..], b);
      assert Encode(a[0]) + (Frames(a[1..]) + Frames(b)) == (Encode(a[0]) + Frames(a[1..])) + Frames(b);
    }
  }

  lemma FramesSnoc(a: seq<Packet>, p: Packet)
    ensures Frames(a + [p]) == Frames(a) + Encode(p)
  {
    FramesConcat(a, [p]);
    assert Frames([p]) == Encode(p) + Frames([]);
  }

  /** Unique decoding: packets whose frames begin a stream of frames begin the
      packets of that stream, and the rest is the frames of what is left. */
  lemma {:induction false} FramesUnique(read: seq<Packet>, rest: seq<byte>, sent: seq<Packet>, more: seq<byte>)
    requires AllFit(read) && AllFit(sent)
    requires Frames(read) + rest + more == Frames(sent)
    ensures read <= sent && rest + more == Frames(sent[|read|..])
  {
    hide Header, SizeField, KindField;
    if read == [] {
      assert Frames(read) + rest + more == rest + more;
      assert sent[0..] == sent;
    } else {
      var s := Frames(sent);
      var tail := Frames(read[1..]) + rest + more;
      assert s == Encode(read[0]) + tail;
      assert sent != [];
      HeaderFields(read[0], tail);
      HeaderFields(sent[0], Frames(sent[1..]));
      var n := |Encode(read[0])|;
      assert |Encode(sent[0])| == n;
      assert s[HEADER_SIZE..n] == read[0].payload && s[n..] == tail;
      assert s[HEADER_SIZE..n] == sent[0].payload && s[n..] == Frames(sent[1..]);
      FramesUnique(read[1..], rest, sent[1..], more);
      assert sent[1..][|read[1..]|..] == sent[|read|..];
      assert read == [read[0]] + read[1..] && sent == [sent[0]] + sent[1..];
    }
  }

  /** An endpoint: the connection's context, and the history of packets it put
      in its output stream and of packets it took out of its input stream. */
  datatype Endpoint = Endpoint(context: Context, log: seq<Packet>, parsed: seq<Packet>)

  function Send(e: Endpoint, p: Packet): Endpoint
  {
    e.(context := Append(e.context, Encode(p)), log := e.log + [p])
  }

  /** Append a packet and try to send it; false when the connection is not open,
      the packet then staying in the output stream. */
  function Transmit(e: Endpoint, p: Packet): (r: (bool, Endpoint))
  {
    var f := Send(e, p);
    if f.context.isOpen then (true, f.(context := Fed(f.context))) else (false, f)
  }

  const PING: Packet := Packet(PING_PONG, [])

  /** Take one packet off the input and answer it: a ping with a ping. */
  function Take(e: Endpoint): (r: (bool, Endpoint))
    requires Whole(e.context.input)
  {
    var rest := e.context.input[HEADER_SIZE + SizeField(e.context.input)..];
    Answered(e.(context := e.context.(input := rest)), First(e.context.input))
  }

  function Answered(e: Endpoint, p: Packet): (r: (bool, Endpoint))
  {
    var f := e.(parsed := e.parsed + [p]);
    if p.kind == PING_PONG then Transmit(f, PING) else (true, f)
  }

  /** OnInputStreamRead: all whole packets, until one ping cannot be answered. */
  function Interpret(e: Endpoint): (r: (bool, Endpoint))
    decreases |e.context.input|
  {
    if !Whole(e.context.input) then (true, e)
    else
      var (ok, f) := Take(e);
      if ok then Interpret(f) else (false, f)
  }

  /** The read half of OnWaitableHandleEvent. */
  function ReadReady(e: Endpoint, outcome: ReadOutcome): (r: (bool, Endpoint))
  {
    var (interpret, c) := ReadIn(e.context, outcome);
    var f := e.(context := c);
    if interpret then Interpret(f) else (true, f)
  }

  /** The payloads delivered as asynchronous calls, in order. */
  function Calls(ps: seq<Packet>): seq<seq<byte>>
  {
    if ps == [] then []
    else
      var p := ps[|ps| - 1];
      Calls(ps[..|ps| - 1]) + (if p.kind == ASYNC_CALL then [p.payload] else [])
  }

  function Pings(ps: seq<Packet>): nat
  {
    if ps == [] then 0
    else Pings(ps[..|ps| - 1]) + (if ps[|ps| - 1].kind == PING_PONG then 1 else 0)
  }

  predicate AllFit(ps: seq<Packet>)
  {
    forall k | 0 <= k < |ps| :: Fits(ps[k])
  }

  /** What ties the history to the bytes, whatever the other side does. */
  predicate Consistent(e: Endpoint)
  {
    && e.context.Appended() == Frames(e.log)
    && e.context.got == Frames(e.parsed) + e.context.input
    && AllFit(e.parsed)
  }

  lemma TransmitWatched(e: Endpoint, p: Packet)
    requires e.context.Watched()
    ensures Transmit(e, p).1.context.Watched()
  {
  }

  lemma TransmitKeeps(e: Endpoint, p: Packet)
    requires Consistent(e) && e.context.Steady()
    ensures var (ok, f) := Transmit(e, p);
      && Consistent(f) && f.context.Steady() && ok == e.context.isOpen
      && f.log == e.log + [p] && f.parsed == e.parsed
      && f.context.input == e.context.input && f.context.got == e.context.got && e.context.wire <= f.context.wire
      && (f.context.isOpen ==> ok)
  {
    var f := Send(e, p);
    FramesSnoc(e.log, p);
    assert e.context.wire + (e.context.output + Encode(p)) == e.context.Appended() + Encode(p);
    if f.context.isOpen {
      FedKeeps(f.context);
    }
  }

  /** Moving a packet from the input to the history. */
  lemma TakenConsistent(e: Endpoint)
    requires Consistent(e) && Whole(e.context.input)
    ensures var s := e.context.input;
      var rest := s[HEADER_SIZE + SizeField(s)..];
      |rest| < |s| && Consistent(e.(context := e.context.(input := rest), parsed := e.parsed + [First(s)]))
  {
    hide Encode, KindField, SizeField, Frames;
    var s := e.context.input;
    var p, rest := First(s), s[HEADER_SIZE + SizeField(s)..];
    FirstEncodes(s);
    FramesSnoc(e.parsed, p);
    Assoc(Frames(e.parsed), Encode(p), rest);
  }

  lemma TakeKeeps(e: Endpoint)
    requires Consistent(e) && e.context.Steady() && Whole(e.context.input)
    ensures var (ok, f) := Take(e);
      && Consistent(f) && f.context.Steady()
      && f.parsed == e.parsed + [First(e.context.input)]
      && f.context.got == e.context.got && e.context.wire <= f.context.wire
      && e.log <= f.log && Calls(f.log) == Calls(e.log)
      && Pings(f.log) - Pings(e.log) == Pings(f.parsed) - Pings(e.parsed)
      && |f.context.input| < |e.context.input| && (f.context.isOpen ==> ok)
      && (AllFit(e.log) ==> AllFit(f.log))
  {
    hide Frames, Calls, Pings, SizeField, KindField, Consistent, Transmit, First;
    var s := e.context.input;
    var p, rest := First(s), s[HEADER_SIZE + SizeField(s)..];
    var f := e.(context := e.context.(input := rest), parsed := e.parsed + [p]);
    TakenConsistent(e);
    PingsSnoc(e.parsed, p);
    if p.kind == PING_PONG {
      TransmitKeeps(f, PING);
      CallsSnoc(e.log, PING);
      PingsSnoc(e.log, PING);
    }
  }

  /** Interpreting adds to both histories; it answers each ping taken with one
      ping and sends no call. */
  lemma {:induction false} InterpretKeeps(e: Endpoint)
    requires Consistent(e) && e.context.Steady()
    ensures var (ok, f) := Interpret(e);
      && Consistent(f) && f.context.Steady() && (f.context.isOpen ==> !Whole(f.context.input))
      && f.context.got == e.context.got && e.context.wire <= f.context.wire
      && e.log <= f.log && e.parsed <= f.parsed
      && Calls(f.log) == Calls(e.log)
      && Pings(f.log) - Pings(e.log) == Pings(f.parsed) - Pings(e.parsed)
      && (AllFit(e.log) ==> AllFit(f.log))
    decreases |e.context.input|
  {
    hide Take, Whole, Consistent, Frames, Calls, Pings, AllFit;
    if Whole(e.context.input) {
      TakeKeeps(e);
      var (ok, f) := Take(e);
      assert f.parsed[..|e.parsed|] == e.parsed;
      if ok {
        InterpretKeeps(f);
      }
    }
  }

  lemma InterpretStep(e: Endpoint)
    ensures !Whole(e.context.input) ==> Interpret(e) == (true, e)
    ensures Whole(e.context.input) ==> Interpret(e) == if Take(e).0 then Interpret(Take(e).1) else (false, Take(e).1)
  {
  }

  lemma PingsSnoc(ps: seq<Packet>, p: Packet)
    ensures Pings(ps + [p]) == Pings(ps) + (if p.kind == PING_PONG then 1 else 0)
  {
    assert (ps + [p])[..|ps|] == ps;
  }

  lemma CallsSnoc(ps: seq<Packet>, p: Packet)
    ensures Calls(ps + [p]) == Calls(ps) + (if p.kind == ASYNC_CALL then [p.payload] else [])
  {
  }

  class Connection {
    const support: Support
    /** The payloads of the asynchronous call events emitted, in order. */
    var emitted: seq<seq<byte>>
    ghost var log: seq<Packet>
    ghost var parsed: seq<Packet>

    ghost function Repr(): set<object>
      reads this, support, support.inputStream, support.outputStream
    {
      {this} + support.Repr()
    }

    ghost predicate Valid()
      reads this, support, support.inputStream, support.outputStream,
            support.inputStream.Buffers(), support.outputStream.Buffers()
    {
      && support.Valid()
      && emitted == Calls(parsed)
    }

    ghost function State(): Endpoint
      requires support.inputStream.Valid() && support.outputStream.Valid()
      reads this, support, support.pipe, support.inputStream, support.outputStream
    {
      Endpoint(support.State(), log, parsed)
    }

    /** The connection opens its support at once. */
    constructor (pipe: Pipe)
      requires pipe.wire == [] && pipe.got == []
      ensures Valid() && support.pipe == pipe && fresh(Repr() - {pipe})
      ensures State() == Endpoint(Opened(Fresh(pipe.writes)), [], [])
    {
      support := new Support(pipe);
      emitted, log, parsed := [], [], [];
      new;
      var _ := support.Open();
    }

    /** AsyncCall: the payload moves into the output stream behind its header. */
    method AsyncCall(call: Queue) returns (ok: bool)
      requires Valid() && support.State().Watched()
      requires call.Valid() && call.Intact() && call.Repr() !! Repr()
      modifies this`log, support, support.pipe`wire, support.pipe`writes, support.outputStream.Repr(), call.Repr()
      ensures Valid() && call.Valid() && call.Contents() == []
      ensures (ok, State()) == Transmit(old(State()), Packet(ASYNC_CALL, old(call.Contents())))
    {
      hide Queue.Valid, Queue.Contents, Fed, Frames, Calls;
      ghost var p := Packet(ASYNC_CALL, call.Contents());
      ghost var out := support.outputStream.Contents();
      support.outputStream.AppendCopy(Low(call.size % 0x1_0000, 2) + Low(ASYNC_CALL, 2));
      support.outputStream.AppendMoveFrom(call);
      assert out + Header(p) + p.payload == out + Encode(p);
      log := log + [p];
      ok := support.FeedOutput();
    }

    method Ping() returns (ok: bool)
      requires Valid() && support.State().Watched()
      modifies this`log, support, support.pipe`wire, support.pipe`writes, support.outputStream.Repr()
      ensures Valid() && fresh(support.outputStream.Buffers() - old(support.outputStream.Buffers()))
      ensures (ok, State()) == Transmit(old(State()), PING)
    {
      support.outputStream.AppendCopy(Low(0, 2) + Low(PING_PONG, 2));
      assert Encode(PING) == Low(0, 2) + Low(PING_PONG, 2);
      log := log + [PING];
      ok := support.FeedOutput();
    }

    /** OnInputStreamRead: false when answering a ping found the connection closed. */
    method OnInputStreamRead() returns (ok: bool)
      requires Valid() && support.State().Watched()
      modifies this, support, support.pipe`wire, support.pipe`writes,
               support.inputStream.Repr(), support.outputStream.Repr()
      ensures Valid()
      ensures (ok, State()) == Interpret(old(State()))
    {
      hide Interpret, Take, Queue.Valid, Queue.Contents;
      ghost var goal := Interpret(State());
      var waiting := true;
      ok := true;
      while ok && waiting && support.inputStream.size >= HEADER_SIZE
        invariant Valid() && support.State().Watched()
        invariant fresh(support.inputStream.Buffers() - old(support.inputStream.Buffers()))
        invariant fresh(support.outputStream.Buffers() - old(support.outputStream.Buffers()))
        invariant ok && waiting ==> Interpret(State()) == goal
        invariant !ok || !waiting ==> (ok, State()) == goal
        decreases ok && waiting, support.inputStream.size
      {
        InterpretStep(State());
        waiting, ok := Step();
      }
      InterpretStep(State());
    }

    /** OnWaitableHandleEvent for a read event, delivered only while watched. */
    method OnReadReady(outcome: ReadOutcome) returns (ok: bool)
      requires Valid() && support.State().Steady() && support.hasReadWatch
      requires outcome.Received? ==> |outcome.data| <= DEFAULT_READ_SIZE
      modifies this, support, support.pipe`got, support.pipe`wire, support.pipe`writes,
               support.inputStream.Repr(), support.outputStream.Repr()
      ensures Valid()
      ensures (ok, State()) == ReadReady(old(State()), outcome)
    {
      hide Interpret, Queue.Valid, Queue.Contents;
      ok := true;
      var interpret := support.ReadInput(outcome);
      if interpret {
        ok := OnInputStreamRead();
      }
    }

    /** One turn of the loop: waiting is false when no whole packet is left. */
    method Step() returns (waiting: bool, ok: bool)
      requires Valid() && support.State().Watched() && support.inputStream.size >= HEADER_SIZE
      modifies this, support, support.pipe`wire, support.pipe`writes,
               support.inputStream.Repr(), support.outputStream.Repr()
      ensures Valid() && support.State().Watched()
      ensures support.inputStream.Buffers() <= old(support.inputStream.Buffers())
      ensures fresh(support.outputStream.Buffers() - old(support.outputStream.Buffers()))
      ensures waiting == old(Whole(State().context.input)) && (waiting ==> support.inputStream.size < old(support.inputStream.size))
      ensures (ok, State()) == if waiting then Take(old(State())) else (true, old(State()))
    {
      hide Queue.Valid, Queue.Contents, Frames, Calls, Fed;
      waiting, ok := false, true;
      var _, header := support.inputStream.Flatten(HEADER_SIZE);
      var size, kind := Get(header[..2]), Get(header[2..4]);
      ghost var s := support.inputStream.Contents();
      assert header[..2] == s[..2] && header[2..4] == s[2..4];
      if support.inputStream.size >= HEADER_SIZE + size {
        waiting := true;
        var _, packet := support.inputStream.FlattenConsume(HEADER_SIZE + size);
        assert Packet(kind, packet[HEADER_SIZE..]) == First(s);
        ok := Dispatch(kind, packet);
      }
    }

    /** What is behind the header of a packet, by way of a queue. */
    static method Payload(packet: seq<byte>) returns (payload: seq<byte>)
      requires |packet| >= HEADER_SIZE
      ensures payload == packet[HEADER_SIZE..]
    {
      hide Joined, Held;
      var call := new Queue();
      call.AppendCopy(packet);
      var _ := call.Consume(HEADER_SIZE);
      var _, data := call.Flatten(call.size);
      assert [] + packet == packet;
      assert packet[HEADER_SIZE..][..|packet| - HEADER_SIZE] == packet[HEADER_SIZE..];
      payload := data;
    }

    /** The parsing of one packet by type; unknown types are dropped. */
    method Dispatch(kind: nat, packet: seq<byte>) returns (ok: bool)
      requires Valid() && support.State().Watched() && |packet| >= HEADER_SIZE
      modifies this, support, support.pipe`wire, support.pipe`writes, support.outputStream.Repr()
      ensures Valid() && support.State().Watched()
      ensures fresh(support.outputStream.Buffers() - old(support.outputStream.Buffers()))
      ensures (ok, State()) == Answered(old(State()), Packet(kind, packet[HEADER_SIZE..]))
    {
      hide Queue.Valid, Queue.Contents, Frames, Calls, Fed;
      ok := true;
      CallsSnoc(parsed, Packet(kind, packet[HEADER_SIZE..]));
      parsed := parsed + [Packet(kind, packet[HEADER_SIZE..])];
      if kind == ASYNC_CALL {
        var payload := Payload(packet);
        emitted := emitted + [payload];
      } else if kind == PING_PONG {
        TransmitWatched(State(), PING);
        ok := Ping();
      }
    }
  }
}
