/** Two RPC connections joined by first-in first-out byte channels, over whole
    runs with arbitrary partial writes and reads. */
module RpcRun {
  import opened Bytes
  import opened ExecutionContext
  import opened RpcConnection

  /** One side: its connection, the payloads its application passed to AsyncCall
      and how often it called Ping. */
  datatype Side = Side(end: Endpoint, called: seq<seq<byte>>, pinged: nat)

  datatype System = System(left: Side, right: Side)

  datatype Action =
    | Call(payload: seq<byte>)
    | PingPeer
    | Readable(outcome: ReadOutcome)
    | Writable
    | Shut

  /** What a call or an event does on the side it happens at. */
  function Act(s: Side, a: Action): Side
  {
    match a
    case Call(payload) =>
      s.(end := Transmit(s.end, Packet(ASYNC_CALL, payload)).1, called := s.called + [payload])
    case PingPeer => s.(end := Transmit(s.end, PING).1, pinged := s.pinged + 1)
    case Readable(outcome) => s.(end := ReadReady(s.end, outcome).1)
    case Writable => s.(end := s.end.(context := WriteReady(s.end.context)))
    case Shut => s.(end := s.end.(context := Closed(s.end.context)))
  }

  /** The bytes one side wrote and the other has not read yet. */
  function Channel(from: Side, to: Side): seq<byte>
    requires |to.end.context.got| <= |from.end.context.wire|
  {
    from.end.context.wire[|to.end.context.got|..]
  }

  /** Events come only for watches held; what is read comes from the channel, in
      order; payloads stay below the size the header can tell. */
  predicate Enabled(s: Side, peer: Side, a: Action)
  {
    match a
    case Call(payload) => |payload| < 0x1_0000
    case Readable(outcome) =>
      s.end.context.readWatch && (outcome.Received? ==> s.end.context.got + outcome.data <= peer.end.context.wire)
    case Writable => s.end.context.writeWatch
    case _ => true
  }

  function Stepped(s: System, atLeft: bool, a: Action): System
  {
    if atLeft then s.(left := Act(s.left, a)) else s.(right := Act(s.right, a))
  }

  predicate Allowed(s: System, run: seq<(bool, Action)>)
    decreases |run|
  {
    run == [] ||
    (var (atLeft, a) := run[0];
     (if atLeft then Enabled(s.left, s.right, a) else Enabled(s.right, s.left, a)) &&
     Allowed(Stepped(s, atLeft, a), run[1..]))
  }

  function After(s: System, run: seq<(bool, Action)>): System
    decreases |run|
  {
    if run == [] then s else After(Stepped(s, run[0].0, run[0].1), run[1..])
  }

  /** Both connections just constructed; the answers to their writes are arbitrary. */
  function Start(leftWrites: seq<WriteOutcome>, rightWrites: seq<WriteOutcome>): System
  {
    System(Side(Endpoint(Opened(Fresh(leftWrites)), [], []), [], 0),
           Side(Endpoint(Opened(Fresh(rightWrites)), [], []), [], 0))
  }

  predicate Sound(s: Side)
  {
    && Consistent(s.end) && s.end.context.Steady() && AllFit(s.end.log)
    && Calls(s.end.log) == s.called
    && Pings(s.end.log) == s.pinged + Pings(s.end.parsed)
    && (s.end.context.isOpen ==> !Whole(s.end.context.input))
  }

  predicate Invariant(s: System)
  {
    && Sound(s.left) && Sound(s.right)
    && s.left.end.context.got <= s.right.end.context.wire
    && s.right.end.context.got <= s.left.end.context.wire
  }

  lemma SentKeeps(s: Side, p: Packet)
    requires Sound(s) && Fits(p)
    ensures var f := Transmit(s.end, p).1;
      && Consistent(f) && f.context.Steady() && AllFit(f.log) && f.parsed == s.end.parsed
      && Calls(f.log) == s.called + (if p.kind == ASYNC_CALL then [p.payload] else [])
      && Pings(f.log) == Pings(s.end.log) + (if p.kind == PING_PONG then 1 else 0)
      && f.context.got == s.end.context.got && s.end.context.wire <= f.context.wire
      && (f.context.isOpen ==> !Whole(f.context.input))
  {
    TransmitKeeps(s.end, p);
    CallsSnoc(s.end.log, p);
    assert (s.end.log + [p])[..|s.end.log|] == s.end.log;
  }

  /** No action on one side breaks what holds there; it only adds to what that
      side wrote, and only a read adds to what it read. */
  lemma ActKeeps(s: Side, peer: Side, a: Action)
    requires Sound(s) && Enabled(s, peer, a)
    requires s.end.context.got <= peer.end.context.wire
    ensures Sound(Act(s, a))
    ensures s.end.context.wire <= Act(s, a).end.context.wire
    ensures Act(s, a).end.context.got <= peer.end.context.wire
  {
    hide Interpret, Fed, Transmit, Calls, Pings, Frames;
    match a
    case Call(payload) => SentKeeps(s, Packet(ASYNC_CALL, payload));
    case PingPeer => SentKeeps(s, PING);
    case Readable(outcome) =>
      ReadInKeeps(s.end.context, outcome);
      var (interpret, c) := ReadIn(s.end.context, outcome);
      if interpret {
        assert Frames(s.end.parsed) + (s.end.context.input + outcome.data)
            == (Frames(s.end.parsed) + s.end.context.input) + outcome.data;
        InterpretKeeps(s.end.(context := c));
      }
    case Writable => WriteReadyKeeps(s.end.context);
    case Shut =>
  }

  lemma {:induction false} RunKeeps(s: System, run: seq<(bool, Action)>)
    requires Invariant(s) && Allowed(s, run)
    ensures Invariant(After(s, run))
    decreases |run|
  {
    hide Sound, Act, Enabled;
    if run != [] {
      var (atLeft, a) := run[0];
      if atLeft {
        ActKeeps(s.left, s.right, a);
      } else {
        ActKeeps(s.right, s.left, a);
      }
      RunKeeps(Stepped(s, atLeft, a), run[1..]);
    }
  }

  lemma {:induction false} CallsPrefix(a: seq<Packet>, b: seq<Packet>)
    ensures Calls(a) <= Calls(a + b) && Pings(a + b) == Pings(a) + Pings(b)
  {
    if b == [] {
      assert a + b == a;
    } else {
      var c := b[..|b| - 1];
      assert a + b == (a + c) + [b[|b| - 1]];
      assert (a + b)[..|a + b| - 1] == a + c;
      CallsPrefix(a, c);
    }
  }

  /** The packets sent and not yet taken by the peer are exactly those whose
      bytes are in the output stream, in the channel or in the peer's input. */
  lemma Undelivered(from: Side, to: Side) returns (pending: seq<Packet>)
    requires Sound(from) && Sound(to) && to.end.context.got <= from.end.context.wire
    ensures from.end.log == to.end.parsed + pending
    ensures Frames(pending) == to.end.context.input + Channel(from, to) + from.end.context.output
    ensures Calls(to.end.parsed) <= from.called
    ensures Pings(from.end.log) == Pings(to.end.parsed) + Pings(pending)
  {
    hide Frames, Calls, Pings, AllFit;
    var channel, output, rest := Channel(from, to), from.end.context.output, to.end.context.input;
    var got := to.end.context.got;
    assert from.end.context.wire == got + channel;
    Assoc(got, channel, output);
    assert Frames(to.end.parsed) + rest + (channel + output) == Frames(from.end.log);
    FramesUnique(to.end.parsed, rest, from.end.log, channel + output);
    pending := from.end.log[|to.end.parsed|..];
    assert from.end.log == to.end.parsed + pending;
    Assoc(rest, channel, output);
    CallsPrefix(to.end.parsed, pending);
  }

  /** Over every run: each application receives a prefix of the calls the other
      made; the ping packets on the way, in both directions together, are as many
      as the calls of Ping; and neither side ever strands output. */
  lemma Delivery(leftWrites: seq<WriteOutcome>, rightWrites: seq<WriteOutcome>, run: seq<(bool, Action)>)
      returns (toRight: seq<Packet>, toLeft: seq<Packet>)
    requires Allowed(Start(leftWrites, rightWrites), run)
    ensures var s := After(Start(leftWrites, rightWrites), run);
      && Invariant(s)
      && Calls(s.right.end.parsed) <= s.left.called && Calls(s.left.end.parsed) <= s.right.called
      && Frames(toRight) == s.right.end.context.input + Channel(s.left, s.right) + s.left.end.context.output
      && Frames(toLeft) == s.left.end.context.input + Channel(s.right, s.left) + s.right.end.context.output
      && Pings(toRight) + Pings(toLeft) == s.left.pinged + s.right.pinged
      && s.left.end.context.Steady() && s.right.end.context.Steady()
  {
    var start := Start(leftWrites, rightWrites);
    RunKeeps(start, run);
    var s := After(start, run);
    toRight := Undelivered(s.left, s.right);
    toLeft := Undelivered(s.right, s.left);
  }

  /** A stream of frames that is not empty begins with a whole packet. */
  lemma FrontWhole(ps: seq<Packet>)
    requires ps != [] && Fits(ps[0])
    ensures Whole(Frames(ps))
  {
    HeaderFields(ps[0], Frames(ps[1..]));
  }

  /** With empty output and channel, and an open or emptied far side, everything was
      taken. */
  lemma AllTaken(from: Side, to: Side)
    requires Sound(from) && Sound(to) && to.end.context.got == from.end.context.wire && from.end.context.output == []
    requires to.end.context.isOpen || to.end.context.input == []
    ensures Calls(to.end.parsed) == from.called && to.end.context.input == []
  {
    hide Frames, Calls, Pings, SizeField, Consistent;
    var pending := Undelivered(from, to);
    var input := to.end.context.input;
    assert Channel(from, to) == [] && input + [] + [] == input;
    NoFrames();
    if pending == [] {
      assert to.end.parsed + pending == to.end.parsed;
    } else {
      assert from.end.log[|to.end.parsed|] == pending[0];
      FrontWhole(pending);
      assert false;
    }
  }

  lemma NoFrames()
    ensures Frames([]) == []
  {
  }

  /** Nothing is stuck in the middle: once everything written has been read and
      nothing is left to write, every call has been delivered, if the far side is
      still open or has nothing left to interpret. */
  lemma Drained(leftWrites: seq<WriteOutcome>, rightWrites: seq<WriteOutcome>, run: seq<(bool, Action)>)
    requires Allowed(Start(leftWrites, rightWrites), run)
    ensures var s := After(Start(leftWrites, rightWrites), run);
      var (near, far) := (s.left.end.context, s.right.end.context);
      (near.output == [] && far.got == near.wire && (far.isOpen || far.input == []) ==>
        Calls(s.right.end.parsed) == s.left.called && far.input == [])
  {
    hide Sound, After, Calls;
    var start := Start(leftWrites, rightWrites);
    StartSound(leftWrites, rightWrites);
    RunKeeps(start, run);
    var s := After(start, run);
    var (near, far) := (s.left.end.context, s.right.end.context);
    if near.output == [] && far.got == near.wire && (far.isOpen || far.input == []) {
      AllTaken(s.left, s.right);
    }
  }

  lemma StartSound(leftWrites: seq<WriteOutcome>, rightWrites: seq<WriteOutcome>)
    ensures Invariant(Start(leftWrites, rightWrites))
  {
  }

  /** The end of a connection: an empty read, a broken one, or a close. */
  lemma EndsSide(s: Side, peer: Side, a: Action)
    requires Sound(s) && s.end.context.isOpen && Enabled(s, peer, a)
    requires a == Readable(Received([])) || a == Readable(ReadBroken) || a == Shut
    ensures var d := Act(s, a).end;
      && ExecutionContext.Shut(d.context) && d.context.got == s.end.context.got && d.context.wire == s.end.context.wire
      && d.parsed == s.end.parsed
      && d.context.signals == s.end.context.signals + (if a == Shut then [] else [if a.outcome.ReadBroken? then StreamBroken else StreamClosed])
  {
    hide Consistent, AllFit, Calls, Pings, Whole;
    if a.Readable? {
      ReadInCloses(s.end.context, a.outcome);
    }
  }

  /** A write event puts out what the device takes, and ends a side whose connection turns
      out broken. */
  lemma WritesOut(s: Side, peer: Side)
    requires Sound(s) && Enabled(s, peer, Writable) && s.end.context.output != [] && s.end.context.writes != []
    ensures var c, d := s.end.context, Act(s, Writable).end.context;
      match c.writes[0]
      case Accept(n) =>
        && d.isOpen && d.wire == c.wire + c.output[..Min(n, |c.output|)] && d.output == c.output[Min(n, |c.output|)..]
        && d.signals == c.signals
      case WriteBroken => ExecutionContext.Shut(d) && d.wire == c.wire && d.signals == c.signals + [StreamBroken]
  {
    hide Consistent, AllFit, Calls, Pings, Whole;
  }

  /** What is on the way can always be read, all at once, and then everything that the near
      side has nothing left of to write has been delivered, if the far side is still open. */
  lemma ReadDelivers(from: Side, to: Side)
    requires Sound(from) && Sound(to) && to.end.context.got <= from.end.context.wire
    requires to.end.context.isOpen && Channel(from, to) != []
    ensures var a := Readable(Received(Channel(from, to)));
      var t := Act(to, a);
      && Enabled(to, from, a) && t.end.context.got == from.end.context.wire
      && (from.end.context.output == [] && t.end.context.isOpen ==> Calls(t.end.parsed) == from.called)
  {
    hide Interpret, Fed, Transmit, Calls, Pings, Frames, Consistent, AllFit, Whole;
    var channel := Channel(from, to);
    var a := Readable(Received(channel));
    assert to.end.context.got + channel == from.end.context.wire;
    ActKeeps(to, from, a);
    ReadInKeeps(to.end.context, a.outcome);
    var c := ReadIn(to.end.context, a.outcome).1;
    ReadConsistent(to.end, c, channel);
    InterpretKeeps(to.end.(context := c));
    var t := Act(to, a);
    if from.end.context.output == [] && t.end.context.isOpen {
      AllTaken(from, t);
    }
  }

  lemma ReadConsistent(e: Endpoint, c: Context, data: seq<byte>)
    requires Consistent(e) && c.got == e.context.got + data && c.input == e.context.input + data
    requires c.wire == e.context.wire && c.output == e.context.output
    ensures Consistent(e.(context := c))
  {
    hide Frames, AllFit;
    Assoc(Frames(e.parsed), e.context.input, data);
  }

  /** A call gets through: the device takes the whole frame, the far side reads what is on
      the way, and then all calls have been delivered, this one last. */
  lemma CallArrives(s: System, payload: seq<byte>)
    requires Invariant(s) && s.left.end.context.isOpen && s.right.end.context.isOpen && |payload| < 0x1_0000
    requires var c := s.left.end.context;
      c.output == [] && c.writes != [] && c.writes[0].Accept? && c.writes[0].n >= 4 + |payload|
    ensures var t := Act(s.left, Call(payload));
      && |s.right.end.context.got| <= |t.end.context.wire|
      && var run := [(true, Call(payload)), (false, Readable(Received(Channel(t, s.right))))];
      && Allowed(s, run)
      && var r := After(s, run).right;
         (r.end.context.isOpen ==> Calls(r.end.parsed) == s.left.called + [payload])
  {
    hide Calls, Pings, Frames, Interpret, AllFit, Whole, Allowed, After, ReadReady;
    var t := Act(s.left, Call(payload));
    ActKeeps(s.left, s.right, Call(payload));
    CallWritten(s.left, payload);
    var a := Readable(Received(Channel(t, s.right)));
    ReadDelivers(t, s.right);
    TwoSteps(s, (true, Call(payload)), (false, a));
  }

  lemma CallWritten(s: Side, payload: seq<byte>)
    requires s.end.context.isOpen && s.end.context.output == []
    requires s.end.context.writes != [] && s.end.context.writes[0].Accept? && s.end.context.writes[0].n >= 4 + |payload|
    ensures var c := Act(s, Call(payload)).end.context;
      c.output == [] && c.wire == s.end.context.wire + Encode(Packet(ASYNC_CALL, payload))
  {
    var f := Encode(Packet(ASYNC_CALL, payload));
    assert [] + f == f && f[..|f|] == f && f[|f|..] == [];
  }

  lemma TwoSteps(s: System, x: (bool, Action), y: (bool, Action))
    ensures Allowed(s, [x, y]) <==>
      && (if x.0 then Enabled(s.left, s.right, x.1) else Enabled(s.right, s.left, x.1))
      && var t := Stepped(s, x.0, x.1);
         (if y.0 then Enabled(t.left, t.right, y.1) else Enabled(t.right, t.left, y.1))
    ensures After(s, [x, y]) == Stepped(Stepped(s, x.0, x.1), y.0, y.1)
  {
    hide Enabled, Act;
    assert [x, y][1..] == [y] && [y][1..] == [];
    var t := Stepped(s, x.0, x.1);
    assert Allowed(Stepped(t, y.0, y.1), []);
    assert After(t, [y]) == After(Stepped(t, y.0, y.1), []);
  }

  function SideOf(s: System, left: bool): Side
  {
    if left then s.left else s.right
  }

  /** A side that was closed stays closed: it reads, takes and sends nothing more, and
      sends no more events, whatever happens. */
  lemma {:induction false} StaysShut(s: System, run: seq<(bool, Action)>, left: bool)
    requires Allowed(s, run) && ExecutionContext.Shut(SideOf(s, left).end.context)
    ensures var d, e := SideOf(After(s, run), left).end, SideOf(s, left).end;
      && ExecutionContext.Shut(d.context) && d.context.got == e.context.got && d.context.wire == e.context.wire
      && d.parsed == e.parsed && d.context.signals == e.context.signals
    decreases |run|
  {
    if run != [] {
      StaysShut(Stepped(s, run[0].0, run[0].1), run[1..], left);
    }
  }
}
