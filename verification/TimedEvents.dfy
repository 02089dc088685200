/** Timed events of a thread: a heap ordered by due time, drained into the
    immediate event list, and the wait computed from it. */
module TimedEvents {
  import opened Bytes

  /** An event pushed `due` milliseconds ahead when the clock stood at `born`;
      the object keeps `born` as a 32-bit unsigned long. */
  datatype TimedEvent = TimedEvent(event: nat, born: nat, due: nat) {
    function RegisterTime(): nat {
      Clock(born)
    }

    /** The absolute due time, a sum of unsigned longs. */
    function Due(): (d: nat)
      ensures d < U32
    {
      (RegisterTime() + due) % U32
    }

    /** The sum does not wrap around. */
    predicate Fits() {
      RegisterTime() + due < U32
    }
  }

  const INFINITE: nat := 0xffff_ffff

  /** GetCurrentTimeMiliseconds at t milliseconds since the epoch. */
  function Clock(t: nat): (c: nat)
    ensures c < U32
  {
    t % U32
  }

  predicate Ripe(e: TimedEvent, t: nat)
  {
    Clock(t) >= e.Due()
  }

  /** operator<, under which the greatest element is due first. */
  predicate Less(a: TimedEvent, b: TimedEvent)
  {
    a.Due() > b.Due()
  }

  /** The heap property of the standard library. */
  predicate IsHeap(v: seq<TimedEvent>)
  {
    forall i | 0 < i < |v| :: UnderParent(v, i)
  }

  predicate UnderParent(v: seq<TimedEvent>, i: nat)
    requires 0 < i < |v|
  {
    !Less(v[(i - 1) / 2], v[i])
  }

  predicate Sorted(v: seq<TimedEvent>)
  {
    forall i, j | 0 <= i <= j < |v| :: v[i].Due() <= v[j].Due()
  }

  /** The front of a heap is due no later than any other element. */
  lemma {:induction false} FrontIsEarliest(v: seq<TimedEvent>, i: nat)
    requires IsHeap(v) && i < |v|
    ensures v[0].Due() <= v[i].Due()
    decreases i
  {
    if i > 0 {
      FrontIsEarliest(v, (i - 1) / 2);
      assert UnderParent(v, i);
    }
  }

  lemma FrontIsLeast(v: seq<TimedEvent>)
    requires IsHeap(v)
    ensures forall e | e in v :: v[0].Due() <= e.Due()
  {
    forall i | 0 <= i < |v|
      ensures v[0].Due() <= v[i].Due()
    {
      FrontIsEarliest(v, i);
    }
  }

  /** An event is never ripe before its time exactly when its due time does not
      wrap around the unsigned long (or it is due at once). */
  lemma NeverEarlyIff(e: TimedEvent)
    requires e.due < U32
    ensures (forall t | e.born <= t < e.born + e.due :: !Ripe(e, t)) <==> e.Fits() || e.due == 0
  {
    var q := e.born / U32;
    if e.Fits() {
      forall t | e.born <= t < e.born + e.due
        ensures !Ripe(e, t)
      {
        var r := t - e.born;
        ModUnique(t, U32, q, e.RegisterTime() + r);
      }
    } else if e.due > 0 {
      ModUnique(e.RegisterTime() + e.due, U32, 1, e.RegisterTime() + e.due - U32);
      assert Ripe(e, e.born);
    }
  }

  /** A ripe event whose due time did not wrap is due, at any later time. */
  lemma RipeIsDue(e: TimedEvent, t: nat)
    requires e.Fits() && e.born <= t && Ripe(e, t)
    ensures t >= e.born + e.due
  {
  }

  /** The 2^32 milliseconds a moment belongs to: the clock wraps between two spans. */
  function Span(t: nat): nat
  {
    t / U32
  }

  /** Once an event is due it is ripe up to the end of the span it is due in; after the
      clock has wrapped it is overlooked exactly while the clock reads less than its due
      time. */
  lemma OverlookedIff(e: TimedEvent, t: nat)
    requires t >= e.born + e.due
    ensures Span(t) >= Span(e.born + e.due)
    ensures !Ripe(e, t) <==> Span(t) > Span(e.born + e.due) && Clock(t) < e.Due()
    ensures e.Fits() ==> Span(e.born + e.due) == Span(e.born)
  {
    var d := e.born + e.due;
    DueWord(e);
    assert t == U32 * Span(t) + Clock(t) && d == U32 * Span(d) + e.Due();
    if e.Fits() {
      DivUnique(d, U32, Span(e.born), e.RegisterTime() + e.due);
    }
  }

  /** The due time the object computes is the true one on the clock. */
  lemma DueWord(e: TimedEvent)
    ensures e.Due() == Clock(e.born + e.due)
  {
    var q, r := e.born / U32, (e.RegisterTime() + e.due) / U32;
    ModUnique(e.born + e.due, U32, q + r, e.Due());
  }

  /** No event is ever overlooked if and only if it is due when the clock reads zero:
      any other is at the moment the clock wraps. */
  lemma NeverOverlookedIff(e: TimedEvent)
    ensures (forall t | t >= e.born + e.due :: Ripe(e, t)) <==> e.Due() == 0
  {
    var wrap := U32 * (Span(e.born + e.due) + 1);
    ModUnique(wrap, U32, Span(e.born + e.due) + 1, 0);
    assert wrap >= e.born + e.due && Clock(wrap) == 0;
    assert Ripe(e, wrap) <==> e.Due() == 0;
  }

  /** What the event loop waits for, given the vector and the time. */
  function WaitFor(v: seq<TimedEvent>, t: nat): nat
  {
    if v == [] then INFINITE else if Clock(t) > v[0].Due() then 0 else v[0].Due() - Clock(t)
  }

  /** The wait for an event ends in time exactly when the clock has not wrapped since
      its due time, or reads that time or more again. */
  lemma WaitInTimeIff(e: TimedEvent, t: nat)
    ensures (WaitFor([e], t) == 0 || t + WaitFor([e], t) <= e.born + e.due) <==>
      Span(t) <= Span(e.born + e.due) || Clock(t) >= e.Due()
  {
    var d := e.born + e.due;
    DueWord(e);
    assert t == U32 * Span(t) + Clock(t) && d == U32 * Span(d) + e.Due();
    if Span(t) < Span(d) {
      assert U32 * (Span(t) + 1) <= U32 * Span(d);
    } else if Span(t) > Span(d) {
      assert U32 * (Span(d) + 1) <= U32 * Span(t);
    }
  }

  /** An event due one millisecond before the clock wraps, looked at six milliseconds
      later: the drain leaves it, and the loop waits almost fifty days. */
  lemma OverlookedExample()
    ensures var e, t := TimedEvent(0, 0xffff_fffe, 1), 0x1_0000_0005;
      e.Fits() && t > e.born + e.due && !Ripe(e, t) && WaitFor([e], t) == 0xffff_fffa
  {
  }

  /** Not due yet, or left behind by a wrap of the clock since it was. */
  predicate LaterOrOverlooked(e: TimedEvent, t: nat)
  {
    t < e.born + e.due || (Span(t) > Span(e.born + e.due) && Clock(t) < e.Due())
  }

  lemma UnripeMeans(v: seq<TimedEvent>, t: nat)
    requires forall e | e in v :: !Ripe(e, t)
    ensures forall e | e in v :: LaterOrOverlooked(e, t)
  {
    forall e | e in v
      ensures LaterOrOverlooked(e, t)
    {
      if t >= e.born + e.due { OverlookedIff(e, t); }
    }
  }

  /** The front decides the wait; the other events of a heap are due no earlier. */
  lemma WaitBounds(v: seq<TimedEvent>, t: nat)
    requires IsHeap(v)
    ensures forall e | e in v && Span(t) <= Span(e.born + e.due) ::
      WaitFor(v, t) == 0 || t + WaitFor(v, t) <= e.born + e.due
  {
    FrontIsLeast(v);
    forall e | e in v && Span(t) <= Span(e.born + e.due)
      ensures WaitFor(v, t) == 0 || t + WaitFor(v, t) <= e.born + e.due
    {
      WaitInTimeIff(e, t);
    }
  }

  /** std::make_heap and std::pop_heap, of which the standard promises only
      these contracts. */
  method MakeHeap(v: seq<TimedEvent>) returns (h: seq<TimedEvent>)
    ensures multiset(h) == multiset(v) && IsHeap(h)
  {
    hide TimedEvent.Due, Clock;
    h := [];
    var i := 0;
    while i < |v|
      invariant 0 <= i <= |v|
      invariant multiset(h) == multiset(v[..i]) && Sorted(h)
    {
      assert v[..i + 1] == v[..i] + [v[i]];
      h := Insert(h, v[i]);
      i := i + 1;
    }
    assert v[..i] == v;
    forall k | 0 < k < |h|
      ensures UnderParent(h, k)
    {
    }
  }

  method Insert(h: seq<TimedEvent>, e: TimedEvent) returns (g: seq<TimedEvent>)
    requires Sorted(h)
    ensures Sorted(g) && multiset(g) == multiset(h) + multiset{e}
  {
    hide TimedEvent.Due;
    if h == [] || e.Due() <= h[0].Due() {
      g := [e] + h;
      hide Sorted;
      SortedFront(e, h);
    } else {
      assert h == [h[0]] + h[1..];
      var rest := Insert(h[1..], e);
      assert multiset(h) == multiset{h[0]} + multiset(h[1..]);
      assert multiset(rest) == multiset(h[1..] + [e]);
      SortedCons(h[0], h[1..] + [e], rest);
      g := [h[0]] + rest;
      assert multiset(g) == multiset{h[0]} + multiset(rest);
    }
  }

  lemma SortedFront(e: TimedEvent, h: seq<TimedEvent>)
    requires Sorted(h) && (h == [] || e.Due() <= h[0].Due())
    ensures Sorted([e] + h)
  {
    hide TimedEvent.Due;
  }

  lemma SortedCons(a: TimedEvent, s: seq<TimedEvent>, rest: seq<TimedEvent>)
    requires Sorted(rest) && multiset(rest) == multiset(s)
    requires forall k | 0 <= k < |s| :: a.Due() <= s[k].Due()
    ensures Sorted([a] + rest)
  {
    hide TimedEvent.Due;
    forall k | 0 <= k < |rest|
      ensures a.Due() <= rest[k].Due()
    {
      assert rest[k] in multiset(s);
    }
  }

  method PopHeap(v: seq<TimedEvent>) returns (h: seq<TimedEvent>)
    requires IsHeap(v) && v != []
    ensures |h| == |v| && multiset(h) == multiset(v)
    ensures h[|h| - 1] == v[0] && IsHeap(h[..|h| - 1])
  {
    var rest := MakeHeap(v[1..]);
    assert v == [v[0]] + v[1..];
    assert |rest| == |multiset(rest)| && |v[1..]| == |multiset(v[1..])|;
    h := rest + [v[0]];
    assert h[..|h| - 1] == rest;
  }

  /** An event moved to the immediate list, and when. */
  datatype Release = Release(what: TimedEvent, at: nat)

  /** Released no earlier than it was pushed, and than it was due unless its due time wrapped. */
  predicate OnTime(r: Release)
  {
    r.at >= r.what.born && (r.what.Fits() ==> r.at >= r.what.born + r.what.due)
  }

  function Released(rs: seq<Release>): (s: seq<TimedEvent>)
    ensures |s| == |rs|
    ensures forall k | 0 <= k < |s| :: s[k] == rs[k].what
  {
    seq(|rs|, k requires 0 <= k < |rs| => rs[k].what)
  }

  lemma ReleasedSnoc(rs: seq<Release>, r: Release)
    ensures Released(rs + [r]) == Released(rs) + [r.what]
  {
  }

  /** An element moved from one sequence to another is neither lost nor doubled. */
  lemma Conserved(pushed: seq<TimedEvent>, all: seq<TimedEvent>, left: seq<TimedEvent>,
                  before: seq<TimedEvent>, after: seq<TimedEvent>, moved: TimedEvent)
    requires multiset(pushed) == multiset(all) + multiset(before)
    requires multiset(all) == multiset{moved} + multiset(left) && after == before + [moved]
    ensures multiset(pushed) == multiset(left) + multiset(after)
  {
  }

  class Thread {
    var timedEvents: seq<TimedEvent>
    /** The immediate event list. */
    var events: seq<nat>
    /** How many bytes wait in the timed event invoker's pipe. */
    var signals: nat
    ghost var pushed: seq<TimedEvent>
    ghost var released: seq<Release>
    ghost var now: nat

    /** The vector is a heap; every event pushed is still there or was released,
        once; none was released before it was due, unless its due time wrapped. */
    ghost predicate Valid()
      reads this
      ensures Valid() ==> IsHeap(timedEvents)
    {
      && IsHeap(timedEvents)
      && multiset(pushed) == multiset(timedEvents) + multiset(Released(released))
      && (forall e | e in timedEvents :: e.born <= now)
      && (forall r | r in released :: OnTime(r))
    }

    constructor ()
      ensures Valid() && timedEvents == [] && events == [] && pushed == [] && released == []
    {
      timedEvents, events, signals := [], [], 0;
      pushed, released, now := [], [], 0;
    }

    /** PushTimedEvent at time t; the due time is truncated to milliseconds. */
    method PushTimedEvent(event: nat, dueTimeSeconds: real, t: nat)
      requires Valid() && t >= now && dueTimeSeconds >= 0.0 && 1000.0 * dueTimeSeconds < U32 as real
      modifies this
      ensures Valid() && now == t && events == old(events) && released == old(released)
      ensures pushed == old(pushed) + [TimedEvent(event, t, (1000.0 * dueTimeSeconds).Floor)]
      ensures multiset(timedEvents) == multiset(old(timedEvents)) + multiset{pushed[|pushed| - 1]}
      ensures signals == old(signals) + 1
    {
      var e := TimedEvent(event, t, (1000.0 * dueTimeSeconds).Floor);
      var v := timedEvents + [e];
      timedEvents := MakeHeap(v);
      signals := signals + 1;
      pushed := pushed + [e];
      now := t;
      forall x | x in timedEvents
        ensures x.born <= now
      {
        assert x in multiset(timedEvents) && x in multiset(v);
      }
    }

    /** ProcessTimedEvents at time t: moves exactly the events that are ripe, in order
        of their due times on the clock, and leaves the others. Those left are later
        ones, or were overlooked when the clock wrapped. */
    method ProcessTimedEvents(t: nat) returns (ghost moved: seq<TimedEvent>)
      requires Valid() && t >= now
      modifies this
      ensures Valid() && now == t && pushed == old(pushed) && signals == old(signals)
      ensures events == old(events) + seq(|moved|, k requires 0 <= k < |moved| => moved[k].event)
      ensures Released(released) == old(Released(released)) + moved
      ensures multiset(old(timedEvents)) == multiset(moved) + multiset(timedEvents)
      ensures Sorted(moved)
      ensures forall e | e in moved :: Ripe(e, t)
      ensures forall e | e in timedEvents :: !Ripe(e, t) && LaterOrOverlooked(e, t)
      ensures forall e | e in moved && e.Fits() :: t >= e.born + e.due
    {
      hide TimedEvent.Due, Clock, Valid, IsHeap, Released;
      moved := [];
      SetTime(t);
      while |timedEvents| > 0 && Clock(t) >= timedEvents[0].Due()
        invariant Valid() && now == t && pushed == old(pushed) && signals == old(signals)
        invariant events == old(events) + seq(|moved|, k requires 0 <= k < |moved| => moved[k].event)
        invariant Released(released) == old(Released(released)) + moved
        invariant multiset(old(timedEvents)) == multiset(moved) + multiset(timedEvents)
        invariant Sorted(moved) && forall e | e in moved :: Ripe(e, t) && e.born <= t
        invariant forall e, f | e in moved && f in timedEvents :: e.Due() <= f.Due()
        decreases |timedEvents|
      {
        ghost var front := ReleaseFront();
        moved := moved + [front];
      }
      FrontIsLeast(timedEvents);
      UnripeMeans(timedEvents, t);
      forall e | e in moved && e.Fits()
        ensures t >= e.born + e.due
      {
        RipeIsDue(e, t);
      }
    }

    ghost method SetTime(t: nat)
      requires Valid() && t >= now
      modifies `now
      ensures Valid() && now == t
    {
      now := t;
    }

    /** One turn of the loop: the front event becomes an immediate one. */
    method ReleaseFront() returns (ghost front: TimedEvent)
      requires Valid() && timedEvents != [] && Ripe(timedEvents[0], now)
      modifies `timedEvents, `events, `released
      ensures Valid() && front == old(timedEvents[0]) && |timedEvents| == |old(timedEvents)| - 1
      ensures events == old(events) + [front.event]
      ensures Released(released) == old(Released(released)) + [front]
      ensures multiset(old(timedEvents)) == multiset{front} + multiset(timedEvents)
      ensures front.born <= now && forall f | f in timedEvents :: f in old(timedEvents) && front.Due() <= f.Due()
    {
      hide TimedEvent.Due, Clock, IsHeap, Released;
      front := timedEvents[0];
      ghost var all, before := timedEvents, released;
      FrontIsLeast(all);
      assert OnTime(Release(front, now)) by {
        if front.Fits() { RipeIsDue(front, now); }
      }
      hide OnTime;
      events := events + [timedEvents[0].event];
      var h := PopHeap(timedEvents);
      assert h == h[..|h| - 1] + [front];
      timedEvents := h[..|h| - 1];
      assert multiset(all) == multiset{front} + multiset(timedEvents);
      assert forall f | f in timedEvents :: f in multiset(all);
      released := released + [Release(front, now)];
      ReleasedSnoc(before, Release(front, now));
      Conserved(pushed, all, timedEvents, Released(before), Released(released), front);
    }

    /** The wait of the event loop: none when something is ripe already, else up to the
        earliest due time on the clock. In true time the wait passes no due time in the
        present span or a later one. */
    method MinimumWaitTime(t: nat) returns (wait: nat)
      requires Valid()
      ensures wait == WaitFor(timedEvents, t) && (timedEvents == [] ==> wait == 0xffff_ffff)
      ensures forall e | e in timedEvents :: wait == 0 || Clock(t) + wait <= e.Due()
      ensures timedEvents != [] ==> exists e :: e in timedEvents && Clock(t) + wait >= e.Due()
      ensures timedEvents != [] && wait == INFINITE ==> Clock(t) == 0
      ensures forall e | e in timedEvents && Span(t) <= Span(e.born + e.due) :: wait == 0 || t + wait <= e.born + e.due
    {
      FrontIsLeast(timedEvents);
      WaitBounds(timedEvents, t);
      if |timedEvents| > 0 {
        var destination := timedEvents[0].Due();
        assert timedEvents[0] in timedEvents;
        wait := if Clock(t) > destination then 0 else destination - Clock(t);
      } else {
        wait := INFINITE;
      }
    }
  }
}
