/** Handing events to another thread: a list under a mutex and a pipe with one
    byte per event pushed. Two variants differ in when the receiver takes a byte
    off the pipe: a Thread inside the critical section, after the swap; the main
    dispatcher before it. Every interleaving of any number of pushers with the
    receiver is a run. */
module WakeUp {

  datatype Variant = ThreadEvents | MainDispatcher

  /** Where a pusher stands inside its critical section. */
  datatype PushPoint = Entered | Appended | Signalled

  /** The mutex, with the place of its holder; a pusher outside has no state. */
  datatype Mutex = Free | Receiver | Pusher(id: nat, event: nat, at: PushPoint)

  /** Where the receiver stands; Woken is after the wait returned, Cleared after
      the byte was read. */
  datatype ReceivePoint = Waiting | Woken | Cleared | Inside | Swapped | Finished

  /** `pushed` and `taken` are the events ever appended and dispatched, in order;
      `failed` is set by a Reset that finds the pipe empty. */
  datatype State = State(
    list: seq<nat>, bytes: nat, mutex: Mutex, receiver: ReceivePoint, stolen: seq<nat>,
    pushed: seq<nat>, taken: seq<nat>, failed: bool)

  datatype Step =
    | Lock(id: nat, event: nat) | Push | Signal | Unlock
    | Wake | Reset | Enter | Swap | Leave | Dispatch

  function Start(): State
  {
    State([], 0, Free, Waiting, [], [], [], false)
  }

  /** Whether a step can be taken; a write to a full pipe blocks. */
  predicate Enabled(v: Variant, capacity: nat, s: State, step: Step)
  {
    match step
    case Lock(_, _) => s.mutex == Free
    case Push => s.mutex.Pusher? && s.mutex.at == Entered
    case Signal => s.mutex.Pusher? && s.mutex.at == Appended && s.bytes < capacity
    case Unlock => s.mutex.Pusher? && s.mutex.at == Signalled
    case Wake => s.receiver == Waiting && s.stolen == [] && s.bytes > 0
    case Reset => s.receiver == if v.ThreadEvents? then Swapped else Woken
    case Enter => s.mutex == Free && s.receiver == if v.ThreadEvents? then Woken else Cleared
    case Swap => s.receiver == Inside
    case Leave => s.receiver == if v.ThreadEvents? then Finished else Swapped
    case Dispatch => s.receiver == Waiting && s.stolen != []
  }

  function Next(v: Variant, capacity: nat, s: State, step: Step): State
    requires Enabled(v, capacity, s, step)
  {
    match step
    case Lock(id, event) => s.(mutex := Pusher(id, event, Entered))
    case Push => s.(list := s.list + [s.mutex.event], pushed := s.pushed + [s.mutex.event], mutex := s.mutex.(at := Appended))
    case Signal => s.(bytes := s.bytes + 1, mutex := s.mutex.(at := Signalled))
    case Unlock => s.(mutex := Free)
    case Wake => s.(receiver := Woken)
    case Reset =>
      var t := s.(receiver := if v.ThreadEvents? then Finished else Cleared);
      if s.bytes == 0 then t.(failed := true) else t.(bytes := s.bytes - 1)
    case Enter => s.(mutex := Receiver, receiver := Inside)
    case Swap => s.(list := s.stolen, stolen := s.list, receiver := Swapped)
    case Leave => s.(mutex := Free, receiver := Waiting)
    case Dispatch => s.(taken := s.taken + [s.stolen[0]], stolen := s.stolen[1..])
  }

  predicate Allowed(v: Variant, capacity: nat, s: State, run: seq<Step>)
    decreases |run|
  {
    run == [] || (Enabled(v, capacity, s, run[0]) && Allowed(v, capacity, Next(v, capacity, s, run[0]), run[1..]))
  }

  function After(v: Variant, capacity: nat, s: State, run: seq<Step>): State
    requires Allowed(v, capacity, s, run)
    decreases |run|
  {
    if run == [] then s else After(v, capacity, Next(v, capacity, s, run[0]), run[1..])
  }

  /** A pusher has appended its event and not signalled it yet. */
  predicate MidPush(s: State)
  {
    s.mutex.Pusher? && s.mutex.at == Appended
  }

  /** The main dispatcher has read a byte and not yet stolen the list. */
  predicate MidSteal(v: Variant, s: State)
  {
    v.MainDispatcher? && (s.receiver == Cleared || s.receiver == Inside)
  }

  /** The receiver is bound to read a byte. */
  predicate Owed(v: Variant, s: State)
  {
    s.receiver == Woken || (v.ThreadEvents? && (s.receiver == Inside || s.receiver == Swapped))
  }

  predicate Invariant(v: Variant, s: State)
  {
    && !s.failed
    && (s.mutex == Receiver <==> s.receiver == Inside || s.receiver == Swapped || s.receiver == Finished)
    && (s.receiver == Cleared ==> v.MainDispatcher?) && (s.receiver == Finished ==> v.ThreadEvents?)
    && (s.receiver != Waiting && s.receiver != Swapped && s.receiver != Finished ==> s.stolen == [])
    && (s.receiver == Swapped || s.receiver == Finished ==> s.list == [])
    && s.bytes + (if MidPush(s) then 1 else 0) + (if MidSteal(v, s) then 1 else 0) >= |s.list|
    && (Owed(v, s) ==> s.bytes > 0)
    && s.pushed == s.taken + s.stolen + s.list
  }

  lemma StepKeeps(v: Variant, capacity: nat, s: State, step: Step)
    requires Invariant(v, s) && Enabled(v, capacity, s, step)
    ensures Invariant(v, Next(v, capacity, s, step))
  {
  }

  lemma {:induction false} RunKeeps(v: Variant, capacity: nat, s: State, run: seq<Step>)
    requires Invariant(v, s) && Allowed(v, capacity, s, run)
    ensures Invariant(v, After(v, capacity, s, run))
    decreases |run|
  {
    if run != [] {
      StepKeeps(v, capacity, s, run[0]);
      RunKeeps(v, capacity, Next(v, capacity, s, run[0]), run[1..]);
    }
  }

  /** Over every run: no Reset fails; the bytes in the pipe, plus one between the
      main dispatcher's read and its steal, cover the events signalled; a list
      with events is signalled, or about to be, or about to be stolen; and the
      events taken are a prefix of those pushed, each once and in order. */
  lemma NoLostWakeUp(v: Variant, capacity: nat, run: seq<Step>)
    requires Allowed(v, capacity, Start(), run)
    ensures var s := After(v, capacity, Start(), run);
      && !s.failed
      && s.bytes + (if MidSteal(v, s) then 1 else 0) + (if MidPush(s) then 1 else 0) >= |s.list|
      && (s.list != [] ==> s.bytes > 0 || MidPush(s) || MidSteal(v, s))
      && s.taken <= s.pushed && s.pushed == s.taken + s.stolen + s.list
  {
    RunKeeps(v, capacity, Start(), run);
  }

  // ------------------------------------------------------------- full pipes

  /** Everybody is outside and every event pushed has been taken. */
  predicate Quiet(s: State)
  {
    s.mutex == Free && s.receiver == Waiting && s.list == [] && s.stolen == []
  }

  /** A pusher is inside that still has to signal, the pipe is full, and the receiver
      cannot read a byte without the mutex: a Thread never can, the main dispatcher
      cannot once it has read the byte of this round (or when no byte fits at all). */
  predicate Blocked(v: Variant, capacity: nat, s: State)
  {
    && s.mutex.Pusher? && s.mutex.at != Signalled && s.bytes >= capacity
    && (v.ThreadEvents? || s.receiver == Cleared || s.bytes == 0)
  }

  /** The event of a pusher that has the mutex and has not appended it yet. */
  function Pending(s: State): seq<nat>
  {
    if s.mutex.Pusher? && s.mutex.at == Entered then [s.mutex.event] else []
  }

  predicate Settles(v: Variant, capacity: nat, s: State, run: seq<Step>)
  {
    Allowed(v, capacity, s, run) && Quiet(After(v, capacity, s, run))
  }

  lemma BytesFit(v: Variant, capacity: nat, s: State, step: Step)
    requires Enabled(v, capacity, s, step) && s.bytes <= capacity
    ensures Next(v, capacity, s, step).bytes <= capacity
  {
  }

  /** A blocked state stays blocked, and nothing pushed from then on arrives. */
  lemma {:induction false} BlockedForever(v: Variant, capacity: nat, s: State, run: seq<Step>)
    requires Invariant(v, s) && s.bytes <= capacity && Blocked(v, capacity, s) && Allowed(v, capacity, s, run)
    ensures var t := After(v, capacity, s, run);
      Blocked(v, capacity, t) && t.mutex.id == s.mutex.id && t.pushed + Pending(t) == s.pushed + Pending(s)
    decreases |run|
  {
    if run != [] {
      StepKeeps(v, capacity, s, run[0]);
      BytesFit(v, capacity, s, run[0]);
      BlockedForever(v, capacity, Next(v, capacity, s, run[0]), run[1..]);
    }
  }

  /** What to do next when no new pusher comes: let the one inside finish if the pipe
      has room, else let the receiver go on. */
  function Onward(v: Variant, s: State, capacity: nat): Step
  {
    if s.mutex.Pusher? && s.mutex.at == Signalled then Unlock
    else if s.mutex.Pusher? && s.bytes < capacity then (if s.mutex.at == Entered then Push else Signal)
    else
      match s.receiver
      case Waiting => if s.stolen != [] then Dispatch else Wake
      case Woken => if v.ThreadEvents? then Enter else Reset
      case Cleared => Enter
      case Inside => Swap
      case Swapped => if v.ThreadEvents? then Reset else Leave
      case Finished => Leave
  }

  function PusherLeft(s: State): nat
  {
    if !s.mutex.Pusher? then 0 else match s.mutex.at case Entered => 3 case Appended => 2 case Signalled => 1
  }

  function ReceiverLeft(s: State): nat
  {
    match s.receiver
    case Waiting => if s.list == [] && !s.mutex.Pusher? then 0 else 6
    case Woken => 5
    case Cleared => 4
    case Inside => 3
    case Swapped => 2
    case Finished => 1
  }

  /** Going on is possible and makes progress, as long as the state is not blocked. */
  lemma OnwardWorks(v: Variant, capacity: nat, s: State)
    requires Invariant(v, s) && s.bytes <= capacity && !Blocked(v, capacity, s) && !Quiet(s)
    ensures Enabled(v, capacity, s, Onward(v, s, capacity))
    ensures var t := Next(v, capacity, s, Onward(v, s, capacity));
      && Invariant(v, t) && t.bytes <= capacity && !Blocked(v, capacity, t)
      && t.pushed + Pending(t) == s.pushed + Pending(s)
      && (PusherLeft(t) < PusherLeft(s)
          || (PusherLeft(t) == PusherLeft(s) && ReceiverLeft(t) < ReceiverLeft(s))
          || (PusherLeft(t) == PusherLeft(s) && ReceiverLeft(t) == ReceiverLeft(s) && |t.stolen| < |s.stolen|))
  {
    StepKeeps(v, capacity, s, Onward(v, s, capacity));
  }

  lemma OneMore(v: Variant, capacity: nat, s: State, step: Step, rest: seq<Step>)
    requires Enabled(v, capacity, s, step) && Allowed(v, capacity, Next(v, capacity, s, step), rest)
    ensures Allowed(v, capacity, s, [step] + rest)
    ensures After(v, capacity, s, [step] + rest) == After(v, capacity, Next(v, capacity, s, step), rest)
  {
  }

  /** From any other state a run leads to one where all events pushed, and that of a
      pusher inside, have been taken. */
  lemma {:induction false} GetsOn(v: Variant, capacity: nat, s: State) returns (run: seq<Step>)
    requires Invariant(v, s) && s.bytes <= capacity && !Blocked(v, capacity, s)
    ensures Settles(v, capacity, s, run)
    ensures var t := After(v, capacity, s, run); t.taken == t.pushed == s.pushed + Pending(s)
    decreases PusherLeft(s), ReceiverLeft(s), |s.stolen|
  {
    if Quiet(s) {
      run := [];
    } else {
      OnwardWorks(v, capacity, s);
      var step := Onward(v, s, capacity);
      var rest := GetsOn(v, capacity, Next(v, capacity, s, step));
      OneMore(v, capacity, s, step, rest);
      run := [step] + rest;
    }
  }

  /** Whether pushers and receiver can still bring every event home: exactly when the
      state is not blocked. For a Thread that is whether a pusher that holds the mutex
      finds room in the pipe. */
  lemma SettlesIff(v: Variant, capacity: nat, s: State)
    requires Invariant(v, s) && s.bytes <= capacity
    ensures (exists run :: Settles(v, capacity, s, run)) <==> !Blocked(v, capacity, s)
  {
    if Blocked(v, capacity, s) {
      forall run | Allowed(v, capacity, s, run)
        ensures !Settles(v, capacity, s, run)
      {
        BlockedForever(v, capacity, s, run);
      }
    } else {
      var run := GetsOn(v, capacity, s);
    }
  }

  lemma {:induction false} BytesFitAfter(v: Variant, capacity: nat, s: State, run: seq<Step>)
    requires s.bytes <= capacity && Allowed(v, capacity, s, run)
    ensures After(v, capacity, s, run).bytes <= capacity
    decreases |run|
  {
    if run != [] {
      BytesFit(v, capacity, s, run[0]);
      BytesFitAfter(v, capacity, Next(v, capacity, s, run[0]), run[1..]);
    }
  }

  /** The same for every state that a run reaches, continued in any way. */
  lemma ReachableSettlesIff(v: Variant, capacity: nat, run: seq<Step>)
    requires Allowed(v, capacity, Start(), run)
    ensures var s := After(v, capacity, Start(), run);
      (exists more :: Settles(v, capacity, s, more)) <==> !Blocked(v, capacity, s)
  {
    RunKeeps(v, capacity, Start(), run);
    BytesFitAfter(v, capacity, Start(), run);
    SettlesIff(v, capacity, After(v, capacity, Start(), run));
  }

  // ------------------------------------------------- blocked states are reached

  lemma {:induction false} TwoRuns(v: Variant, capacity: nat, s: State, run: seq<Step>, more: seq<Step>)
    requires Allowed(v, capacity, s, run) && Allowed(v, capacity, After(v, capacity, s, run), more)
    ensures Allowed(v, capacity, s, run + more)
    ensures After(v, capacity, s, run + more) == After(v, capacity, After(v, capacity, s, run), more)
    decreases |run|
  {
    if run == [] {
      assert run + more == more;
    } else {
      TwoRuns(v, capacity, Next(v, capacity, s, run[0]), run[1..], more);
      assert (run + more)[1..] == run[1..] + more;
    }
  }

  /** One whole push. */
  lemma PushOne(v: Variant, capacity: nat, s: State) returns (run: seq<Step>)
    requires s.mutex == Free && s.bytes < capacity
    ensures Allowed(v, capacity, s, run)
    ensures After(v, capacity, s, run) == s.(bytes := s.bytes + 1, list := s.list + [0], pushed := s.pushed + [0])
  {
    var a := Next(v, capacity, s, Lock(0, 0));
    var b := Next(v, capacity, a, Push);
    var c := Next(v, capacity, b, Signal);
    OneMore(v, capacity, c, Unlock, []);
    OneMore(v, capacity, b, Signal, [Unlock] + []);
    OneMore(v, capacity, a, Push, [Signal] + ([Unlock] + []));
    OneMore(v, capacity, s, Lock(0, 0), [Push] + ([Signal] + ([Unlock] + [])));
    run := [Lock(0, 0)] + ([Push] + ([Signal] + ([Unlock] + [])));
  }

  /** Pushes until the pipe is full. */
  lemma {:induction false} Fill(v: Variant, capacity: nat, s: State) returns (run: seq<Step>)
    requires s.mutex == Free && s.bytes <= capacity
    ensures Allowed(v, capacity, s, run)
    ensures var t := After(v, capacity, s, run); t.mutex == Free && t.bytes == capacity && t.receiver == s.receiver && t.stolen == s.stolen
    decreases capacity - s.bytes
  {
    if s.bytes == capacity {
      run := [];
    } else {
      var one := PushOne(v, capacity, s);
      var t := After(v, capacity, s, one);
      var rest := Fill(v, capacity, t);
      TwoRuns(v, capacity, s, one, rest);
      run := one + rest;
    }
  }

  /** Whatever the capacity, both variants can be driven into a blocked state: a Thread
      by a push when the pipe is full, the main dispatcher when pushers fill the pipe
      again between its read and its locking. */
  lemma BlockedReached(v: Variant, capacity: nat) returns (run: seq<Step>)
    ensures Allowed(v, capacity, Start(), run) && Blocked(v, capacity, After(v, capacity, Start(), run))
  {
    run := Fill(v, capacity, Start());
    var s := After(v, capacity, Start(), run);
    if v.MainDispatcher? && capacity > 0 {
      var a := Next(v, capacity, s, Wake);
      var b := Next(v, capacity, a, Reset);
      var one := PushOne(v, capacity, b);
      OneMore(v, capacity, a, Reset, one);
      OneMore(v, capacity, s, Wake, [Reset] + one);
      TwoRuns(v, capacity, Start(), run, [Wake] + ([Reset] + one));
      run := run + ([Wake] + ([Reset] + one));
      s := After(v, capacity, Start(), run);
    }
    OneMore(v, capacity, s, Lock(0, 0), []);
    TwoRuns(v, capacity, Start(), run, [Lock(0, 0)] + []);
    run := run + ([Lock(0, 0)] + []);
  }
}
