/** WaitableInputOutputExecutionContextSupport: the two streams of a connection
    and the watches that keep them moving. */
module ExecutionContext {
  import opened Bytes
  import opened BinaryQueue
  import opened WaitModes

  const DEFAULT_READ_SIZE: nat := 2048

  /** What the input-output object answers to a read. */
  datatype ReadOutcome = Nothing | Received(data: seq<byte>) | ReadBroken

  /** What it answers to a write: how many bytes it takes at most, or a broken connection. */
  datatype WriteOutcome = Accept(n: nat) | WriteBroken

  datatype Signal = StreamClosed | StreamBroken

  /** The state of the support: `wire` and `got` are all the bytes written to
      and read from the input-output object so far, `writes` its answers to
      the writes to come. */
  datatype Context = Context(
    isOpen: bool, readWatch: bool, writeWatch: bool,
    input: seq<byte>, output: seq<byte>,
    wire: seq<byte>, got: seq<byte>, writes: seq<WriteOutcome>, signals: seq<Signal>)
  {
    /** Watches follow the open state. */
    predicate Watched() {
      (isOpen <==> readWatch) && (writeWatch ==> isOpen)
    }

    /** What holds between callbacks: moreover, unsent output is never stranded. */
    predicate Steady() {
      Watched() && (isOpen && output != [] ==> writeWatch)
    }

    /** Every byte ever appended to the output stream, sent or not. */
    function Appended(): seq<byte> {
      wire + output
    }
  }

  function Fresh(writes: seq<WriteOutcome>): Context {
    Context(false, false, false, [], [], [], [], writes, [])
  }

  function Opened(c: Context): Context
  {
    c.(isOpen := true, readWatch := true)
  }

  function Closed(c: Context): Context
  {
    if c.isOpen then c.(isOpen := false, readWatch := false, writeWatch := false) else c
  }

  function Broken(c: Context): Context
  {
    c.(isOpen := false, readWatch := false, writeWatch := false, signals := c.signals + [StreamBroken])
  }

  function Append(c: Context, data: seq<byte>): Context
  {
    c.(output := c.output + data)
  }

  function NextWrite(writes: seq<WriteOutcome>): (WriteOutcome, seq<WriteOutcome>)
  {
    if writes == [] then (Accept(0), []) else (writes[0], writes[1..])
  }

  /** FeedOutput on an open support. */
  function Fed(c: Context): Context
  {
    if c.output == [] then c
    else
      var (answer, rest) := NextWrite(c.writes);
      match answer
      case WriteBroken => Broken(c.(writes := rest))
      case Accept(n) =>
        var count := Min(n, |c.output|);
        c.(wire := c.wire + c.output[..count], output := c.output[count..], writes := rest,
           writeWatch := c.writeWatch || count < |c.output|)
  }

  /** ReadInput up to the interpretation of the bytes, which follows only when
      some arrived. */
  function ReadIn(c: Context, outcome: ReadOutcome): (r: (bool, Context))
  {
    match outcome
    case Nothing => (false, c)
    case ReadBroken => (false, Broken(c))
    case Received(data) =>
      if data == [] then
        (false, c.(isOpen := false, readWatch := false, writeWatch := false, signals := c.signals + [StreamClosed]))
      else (true, c.(input := c.input + data, got := c.got + data))
  }

  /** The write half of OnWaitableHandleEvent. */
  function WriteReady(c: Context): Context
  {
    var d := Fed(c);
    if d.output == [] then d.(writeWatch := false) else d
  }

  /** Feeding restores what an append may have broken, and never loses a byte. */
  lemma FedKeeps(c: Context)
    requires c.Watched() && c.isOpen
    ensures Fed(c).Steady()
    ensures Fed(c).Appended() == c.Appended()
    ensures c.wire <= Fed(c).wire && Fed(c).got == c.got && Fed(c).input == c.input
  {
  }

  /** A write event leaves the support steady; if the output is gone the watch
      was held, so that its removal is sound. */
  lemma WriteReadyKeeps(c: Context)
    requires c.Steady() && c.writeWatch
    ensures WriteReady(c).Steady() && WriteReady(c).Appended() == c.Appended()
    ensures Fed(c).output == [] ==> Fed(c).writeWatch
    ensures c.wire <= WriteReady(c).wire && WriteReady(c).got == c.got && WriteReady(c).input == c.input
  {
  }

  lemma ReadInKeeps(c: Context, outcome: ReadOutcome)
    requires c.Steady() && c.readWatch
    ensures var (interpret, d) := ReadIn(c, outcome);
      && d.Steady() && d.wire == c.wire && d.output == c.output && d.writes == c.writes
      && (interpret ==> outcome.Received? && d.got == c.got + outcome.data && d.input == c.input + outcome.data)
      && (!interpret ==> d.got == c.got && d.input == c.input)
  {
  }

  /** Closed for good: no watch of either kind is left. */
  predicate Shut(c: Context)
  {
    !c.isOpen && !c.readWatch && !c.writeWatch
  }

  /** A read event closes an open support exactly if the peer is gone, which an empty
      read or a broken connection tells; then both watches go and one event says which
      of the two it was. Otherwise no event is sent. */
  lemma ReadInCloses(c: Context, outcome: ReadOutcome)
    requires c.isOpen && c.Watched()
    ensures var d := ReadIn(c, outcome).1;
      && (outcome.Nothing? || (outcome.Received? && outcome.data != []) ==> d.isOpen && d.readWatch && d.signals == c.signals)
      && (outcome == Received([]) ==> Shut(d) && d.signals == c.signals + [StreamClosed])
      && (outcome.ReadBroken? ==> Shut(d) && d.signals == c.signals + [StreamBroken])
  {
  }

  /** Feeding closes an open support exactly if there is something to write and the
      connection turns out broken; otherwise the device gets what it takes. */
  lemma FedCloses(c: Context)
    requires c.isOpen && c.Watched()
    ensures c.output == [] ==> Fed(c) == c
    ensures c.output != [] ==>
      var (answer, rest) := NextWrite(c.writes);
      && Fed(c).writes == rest
      && (answer.WriteBroken? ==>
            Shut(Fed(c)) && Fed(c).signals == c.signals + [StreamBroken] && Fed(c).wire == c.wire && Fed(c).output == c.output)
      && (answer.Accept? ==>
            && Fed(c).isOpen && Fed(c).readWatch && Fed(c).signals == c.signals
            && |Fed(c).wire| == |c.wire| + Min(answer.n, |c.output|)
            && (Fed(c).writeWatch <==> c.writeWatch || answer.n < |c.output|))
  {
  }

  /** And so does a write event; a write watch stays exactly as long as there is something
      to write and the support is open. */
  lemma WriteReadyCloses(c: Context)
    requires c.isOpen && c.Steady() && c.writeWatch
    ensures var d := WriteReady(c);
      && d.isOpen == Fed(c).isOpen && d.signals == Fed(c).signals && d.wire == Fed(c).wire && d.output == Fed(c).output
      && (!d.isOpen ==> Shut(d)) && (d.writeWatch <==> d.isOpen && d.output != [])
  {
  }

  /** Opening a support again after a close, as nothing forbids, strands the
      output left over from before: the support is steady exactly when there
      is none. */
  lemma ReopenStrands(c: Context)
    requires c.Steady()
    ensures Opened(Closed(c)).Steady() <==> c.output == []
  {
  }

  /** The same with a named state: one byte the socket refused, then a close. */
  lemma ReopenExample()
    ensures var c := Fed(Append(Opened(Fresh([Accept(0)])), [7]));
      c.Steady() && Opened(Closed(c)).isOpen && Opened(Closed(c)).output == [7] && !Opened(Closed(c)).writeWatch
  {
  }

  /** AbstractWaitableInputOutput: a pipe to the other side. */
  class Pipe {
    var wire: seq<byte>
    var got: seq<byte>
    var writes: seq<WriteOutcome>

    constructor (writes: seq<WriteOutcome>)
      ensures wire == [] && got == [] && this.writes == writes
    {
      wire, got, this.writes := [], [], writes;
    }

    /** Read: a new queue with what arrived, or none. */
    method Read(outcome: ReadOutcome) returns (buffer: Queue?, broken: bool)
      requires outcome.Received? ==> |outcome.data| <= DEFAULT_READ_SIZE
      modifies `got
      ensures broken == outcome.ReadBroken?
      ensures buffer != null <==> outcome.Received?
      ensures got == old(got) + (if outcome.Received? then outcome.data else [])
      ensures buffer != null ==> fresh(buffer) && fresh(buffer.Buffers()) && buffer.Valid() && buffer.Intact() && buffer.Contents() == outcome.data
    {
      buffer, broken := null, outcome.ReadBroken?;
      if outcome.Received? {
        got := got + outcome.data;
        buffer := new Queue();
        buffer.AppendCopy(outcome.data);
      }
    }

    /** Write: takes some bytes off the front of what it is shown. */
    method Write(buffer: Queue) returns (broken: bool, bytes: nat)
      requires buffer.Valid()
      modifies `wire, `writes
      ensures var (answer, rest) := NextWrite(old(writes));
        && writes == rest && broken == answer.WriteBroken?
        && (answer.Accept? ==> bytes == Min(answer.n, |buffer.Contents()|))
        && wire == old(wire) + (if answer.Accept? then buffer.Contents()[..bytes] else [])
    {
      bytes := 0;
      var (answer, rest) := NextWrite(writes);
      writes := rest;
      broken := answer.WriteBroken?;
      if answer.Accept? {
        bytes := Min(answer.n, buffer.size);
        var _, taken := buffer.Flatten(bytes);
        wire := wire + taken;
      }
    }
  }

  class Support {
    var isOpen: bool
    var hasReadWatch: bool
    var hasWriteWatch: bool
    const pipe: Pipe
    const inputStream: Queue
    const outputStream: Queue
    /** The modes this listener is registered in with the watch support. */
    var registered: set<WaitMode>
    var signals: seq<Signal>

    ghost function Repr(): set<object>
      reads this, inputStream, outputStream
    {
      {this, pipe} + inputStream.Repr() + outputStream.Repr()
    }

    /** The streams are sound and apart, and the flags tell what is registered. */
    ghost predicate Valid()
      reads this, inputStream, outputStream, inputStream.Buffers(), outputStream.Buffers()
    {
      && inputStream.Valid() && inputStream.Intact() && outputStream.Valid() && outputStream.Intact()
      && inputStream.Repr() !! outputStream.Repr()
      && hasReadWatch == (WaitMode.Read in registered) && hasWriteWatch == (WaitMode.Write in registered)
    }

    ghost function State(): Context
      requires inputStream.Valid() && outputStream.Valid()
      reads this, pipe, inputStream, outputStream
    {
      Context(isOpen, hasReadWatch, hasWriteWatch, inputStream.Contents(), outputStream.Contents(),
              pipe.wire, pipe.got, pipe.writes, signals)
    }

    constructor (pipe: Pipe)
      requires pipe.wire == [] && pipe.got == []
      ensures Valid() && State() == Fresh(pipe.writes) && this.pipe == pipe && fresh(Repr() - {pipe})
    {
      isOpen, hasReadWatch, hasWriteWatch := false, false, false;
      this.pipe := pipe;
      inputStream := new Queue();
      outputStream := new Queue();
      registered, signals := {}, [];
    }

    /** AddWaitableHandleWatch, which asserts that the pair is new. */
    method AddWatch(mode: WaitMode)
      requires mode !in registered
      modifies `registered
      ensures registered == old(registered) + {mode}
    {
      registered := registered + {mode};
    }

    /** RemoveWaitableHandleWatch, which asserts that the pair is there. */
    method RemoveWatch(mode: WaitMode)
      requires mode in registered
      modifies `registered
      ensures registered == old(registered) - {mode}
    {
      registered := registered - {mode};
    }

    method CheckedRemoveReadWriteWatch()
      requires Valid()
      modifies `registered, `hasReadWatch, `hasWriteWatch
      ensures Valid() && !hasReadWatch && !hasWriteWatch
    {
      if hasReadWatch {
        RemoveWatch(WaitMode.Read);
        hasReadWatch := false;
      }
      if hasWriteWatch {
        RemoveWatch(WaitMode.Write);
        hasWriteWatch := false;
      }
    }

    method Open() returns (ok: bool)
      requires Valid() && State().Watched()
      modifies `isOpen, `hasReadWatch, `registered
      ensures Valid() && ok == !old(isOpen)
      ensures State() == if ok then Opened(old(State())) else old(State())
    {
      if isOpen {
        return false;
      }
      assert !hasReadWatch;
      AddWatch(WaitMode.Read);
      hasReadWatch := true;
      isOpen := true;
      ok := true;
    }

    method Close()
      requires Valid()
      modifies `isOpen, `registered, `hasReadWatch, `hasWriteWatch
      ensures Valid() && State() == Closed(old(State()))
    {
      if !isOpen {
        return;
      }
      CheckedRemoveReadWriteWatch();
      isOpen := false;
    }

    /** FeedOutput; ok is false when the support is not open. */
    method FeedOutput() returns (ok: bool)
      requires Valid() && State().Watched()
      modifies this, pipe`wire, pipe`writes, outputStream.Repr()
      ensures Valid() && outputStream.Buffers() <= old(outputStream.Buffers())
      ensures ok == old(isOpen) && State() == if ok then Fed(old(State())) else old(State())
    {
      hide Joined, Held;
      if !isOpen {
        return false;
      }
      ok := true;
      if outputStream.Empty() {
        return;
      }
      var broken, bytes := pipe.Write(outputStream);
      if !broken {
        if bytes < outputStream.size && !hasWriteWatch {
          AddWatch(WaitMode.Write);
          hasWriteWatch := true;
        }
        var _ := outputStream.Consume(bytes);
      } else {
        signals := signals + [StreamBroken];
        assert hasReadWatch;
        CheckedRemoveReadWriteWatch();
        isOpen := false;
      }
    }

    /** ReadInput; interpret tells whether the bytes are to be interpreted next. */
    method ReadInput(outcome: ReadOutcome) returns (interpret: bool)
      requires Valid() && State().Watched() && hasReadWatch
      requires outcome.Received? ==> |outcome.data| <= DEFAULT_READ_SIZE
      modifies this, pipe`got, inputStream
      ensures Valid() && fresh(inputStream.Buffers() - old(inputStream.Buffers()))
      ensures (interpret, State()) == ReadIn(old(State()), outcome)
    {
      hide Joined, Held;
      interpret := false;
      assert pipe.got + [] == pipe.got;
      var buffer, broken := pipe.Read(outcome);
      if broken {
        signals := signals + [StreamBroken];
        assert hasReadWatch;
        CheckedRemoveReadWriteWatch();
        isOpen := false;
      } else if buffer != null {
        if buffer.Empty() {
          assert outcome.data == [];
          signals := signals + [StreamClosed];
          assert hasReadWatch;
          CheckedRemoveReadWriteWatch();
          isOpen := false;
        } else {
          inputStream.AppendMoveFrom(buffer);
          interpret := true;
        }
      }
    }

    /** OnWaitableHandleEvent for a write event, delivered only while watched. */
    method OnWriteReady()
      requires Valid() && State().Steady() && hasWriteWatch
      modifies this, pipe`wire, pipe`writes, outputStream.Repr()
      ensures Valid() && outputStream.Buffers() <= old(outputStream.Buffers())
      ensures State() == WriteReady(old(State()))
    {
      var _ := FeedOutput();
      if outputStream.Empty() {
        assert hasWriteWatch;
        RemoveWatch(WaitMode.Write);
        hasWriteWatch := false;
      }
    }
  }
}
