/** WaitableHandleWatchSupport: who listens on which handle, and in which mode. */
module WatchSupport {
  import opened WaitModes

  datatype Watcher = Watcher(listener: nat, mode: WaitMode)

  /** The listeners of one handle, with a count for each mode. */
  datatype Watchers = Watchers(listeners: seq<Watcher>, readCount: nat, writeCount: nat) {
    function Counted(mode: WaitMode): nat {
      if mode == Read then readCount else writeCount
    }
  }

  function Count(ws: seq<Watcher>, mode: WaitMode): nat
  {
    if ws == [] then 0 else Count(ws[..|ws| - 1], mode) + (if ws[|ws| - 1].mode == mode then 1 else 0)
  }

  predicate Distinct<T(==)>(s: seq<T>)
  {
    forall i, j | 0 <= i < j < |s| :: s[i] != s[j]
  }

  /** No empty list, no pair twice, and counters that tell the listeners. */
  predicate Sound(w: Watchers)
  {
    && w.listeners != [] && Distinct(w.listeners)
    && forall m :: w.Counted(m) == Count(w.listeners, m)
  }

  lemma CountSnoc(ws: seq<Watcher>, w: Watcher, mode: WaitMode)
    ensures Count(ws + [w], mode) == Count(ws, mode) + (if w.mode == mode then 1 else 0)
  {
  }

  lemma {:induction false} CountWithout(ws: seq<Watcher>, i: nat, mode: WaitMode)
    requires i < |ws|
    ensures Count(ws[..i] + ws[i + 1..], mode) + (if ws[i].mode == mode then 1 else 0) == Count(ws, mode)
  {
    if i == |ws| - 1 {
      assert ws[..i] + ws[i + 1..] == ws[..|ws| - 1];
    } else {
      var front, last := ws[..|ws| - 1], ws[|ws| - 1];
      CountWithout(front, i, mode);
      assert ws[..i] + ws[i + 1..] == (front[..i] + front[i + 1..]) + [last];
      CountSnoc(front[..i] + front[i + 1..], last, mode);
    }
  }

  lemma {:induction false} CountPositive(ws: seq<Watcher>, mode: WaitMode)
    ensures Count(ws, mode) > 0 <==> exists w :: w in ws && w.mode == mode
  {
    if ws != [] {
      var front := ws[..|ws| - 1];
      CountPositive(front, mode);
      assert forall w :: w in ws <==> w in front || w == ws[|ws| - 1];
    }
  }

  lemma LeastOf(s: set<int>) returns (least: int)
    requires s != {}
    ensures least in s && forall x | x in s :: least <= x
    decreases |s|
  {
    assert (forall x :: x !in s) ==> s == {};
    least :| least in s;
    var rest := s - {least};
    assert forall x | x in s :: x == least || x in rest;
    if rest != {} {
      var other := LeastOf(rest);
      if other < least { least := other; }
    }
  }

  /** A handle ready in a mode. */
  type Interest = (int, WaitMode)

  predicate Ascending(list: seq<Interest>)
  {
    forall j, k | 0 <= j < k < |list| :: list[j].0 <= list[k].0
  }

  /** The entries of one more handle, greater than those before. */
  lemma Extend(list: seq<Interest>, mine: seq<Interest>, h: int)
    requires Distinct(list) && Ascending(list)
    requires forall i | i in list :: i.0 < h
    requires forall i | i in mine :: i.0 == h
    requires Distinct(mine)
    ensures Distinct(list + mine) && Ascending(list + mine)
  {
  }

  class Support {
    var watchers: map<int, Watchers>

    ghost predicate Valid()
      reads this
    {
      forall h | h in watchers :: Sound(watchers[h])
    }

    /** Whether a listener watches a handle in a mode. */
    predicate Listens(listener: nat, handle: int, mode: WaitMode)
      reads this
    {
      handle in watchers && Watcher(listener, mode) in watchers[handle].listeners
    }

    /** Whether anybody watches a handle in a mode. */
    ghost predicate Wanted(i: Interest)
      reads this
    {
      exists l: nat :: Listens(l, i.0, i.1)
    }

    constructor ()
      ensures Valid() && watchers == map[]
    {
      watchers := map[];
    }

    /** The destructor asserts that nobody listens any more: then no list is left. */
    lemma NobodyListens()
      requires Valid() && forall l, h, m :: !Listens(l, h, m)
      ensures watchers == map[]
    {
      forall h | h in watchers
        ensures false
      {
        assert Listens(watchers[h].listeners[0].listener, h, watchers[h].listeners[0].mode);
      }
    }

    /** AddWaitableHandleWatch, which asserts that the pair is not there yet. */
    method AddWaitableHandleWatch(listener: nat, handle: int, mode: WaitMode)
      requires Valid() && !Listens(listener, handle, mode)
      modifies this
      ensures Valid()
      ensures forall l, h, m :: Listens(l, h, m) <==> old(Listens(l, h, m)) || (l == listener && h == handle && m == mode)
      ensures forall h | h != handle :: h in watchers <==> h in old(watchers)
      ensures forall h | h in old(watchers) && h != handle :: watchers[h] == old(watchers)[h]
    {
      var w := if handle in watchers then watchers[handle] else Watchers([], 0, 0);
      forall m ensures Count(w.listeners + [Watcher(listener, mode)], m) == w.Counted(m) + (if mode == m then 1 else 0) {
        CountSnoc(w.listeners, Watcher(listener, mode), m);
      }
      w := w.(listeners := w.listeners + [Watcher(listener, mode)]);
      w := match mode
        case Read => w.(readCount := w.readCount + 1)
        case Write => w.(writeCount := w.writeCount + 1);
      watchers := watchers[handle := w];
    }

    /** RemoveWaitableHandleWatch, which asserts that the pair is there; a list
        that becomes empty goes. */
    method RemoveWaitableHandleWatch(listener: nat, handle: int, mode: WaitMode)
      requires Valid() && Listens(listener, handle, mode)
      modifies this
      ensures Valid()
      ensures forall l, h, m :: Listens(l, h, m) <==> old(Listens(l, h, m)) && !(l == listener && h == handle && m == mode)
      ensures forall h | h != handle :: h in watchers <==> h in old(watchers)
      ensures forall h | h in watchers && h != handle :: watchers[h] == old(watchers)[h]
    {
      var w := watchers[handle];
      var i := 0;
      while w.listeners[i] != Watcher(listener, mode)
        invariant 0 <= i < |w.listeners|
        invariant Watcher(listener, mode) !in w.listeners[..i]
        decreases |w.listeners| - i
      {
        i := i + 1;
      }
      var left := w.listeners[..i] + w.listeners[i + 1..];
      Without(w.listeners, i);
      forall m ensures Count(left, m) + (if mode == m then 1 else 0) == w.Counted(m) {
        CountWithout(w.listeners, i, m);
      }
      assert w.Counted(mode) >= 1;
      w := w.(listeners := left);
      w := match mode
        case Read => w.(readCount := w.readCount - 1)
        case Write => w.(writeCount := w.writeCount - 1);
      watchers := if left == [] then watchers - {handle} else watchers[handle := w];
    }

    /** The search for a listener of the snapshot. */
    static method StillTracked(tracked: seq<Watcher>, i: nat) returns (found: bool)
      requires i < |tracked|
      ensures found
    {
      found := false;
      var k := 0;
      while k < |tracked| && !found
        invariant 0 <= k <= |tracked| && (k > i ==> found)
        decreases |tracked| - k, !found
      {
        found := tracked[k] == tracked[i];
        k := k + 1;
      }
    }

    /** HandleWatcher: calls the listeners of a snapshot of the handle's list; the
        search for each of them is made in the snapshot too, so it succeeds. */
    method HandleWatcher(handle: int, mode: WaitMode, reactions: seq<map<int, Watchers>>) returns (called: seq<nat>)
      requires Valid()
      modifies this
      ensures handle !in old(watchers) ==> called == []
      ensures handle in old(watchers) ==> called == Called(old(watchers)[handle].listeners, mode, handle, old(watchers), reactions)
      ensures watchers == LiveAfter(old(watchers), reactions, |called|)
    {
      called := [];
      if handle !in watchers {
        return;
      }
      var tracked := watchers[handle].listeners;
      ghost var goal := Called(tracked, mode, handle, watchers, reactions);
      var i, left := 0, reactions;
      assert tracked[0..] == tracked && [] + goal == goal;
      while i < |tracked| && handle in watchers
        invariant 0 <= i <= |tracked|
        invariant called + Called(tracked[i..], mode, handle, watchers, left) == goal
        invariant left == if |called| <= |reactions| then reactions[|called|..] else []
        invariant watchers == LiveAfter(old(watchers), reactions, |called|)
        decreases |tracked| - i
      {
        var stillExists := StillTracked(tracked, i);
        assert stillExists && tracked[i..][1..] == tracked[i + 1..];
        if tracked[i].mode == mode {
          TurnTaken(called, tracked[i..], mode, handle, watchers, left);
          called := called + [tracked[i].listener];
          if left != [] {
            watchers := left[0];
            left := left[1..];
          }
        }
        i := i + 1;
      }
    }

    /** The modes somebody watches a handle in. */
    static method InterestsIn(h: int, w: Watchers) returns (mine: seq<Interest>)
      ensures Distinct(mine) && forall i :: i in mine <==> i.0 == h && w.Counted(i.1) > 0
    {
      mine := (if w.readCount > 0 then [(h, Read)] else []) + (if w.writeCount > 0 then [(h, Write)] else []);
    }

    /** WaitableWatcherHandles: each handle in each mode somebody watches it in,
        once, handles in ascending order. */
    method WaitableWatcherHandles() returns (list: seq<Interest>)
      requires Valid()
      ensures forall i :: i in list <==> Wanted(i)
      ensures Distinct(list) && Ascending(list)
    {
      list := [];
      assert Distinct(list) && Ascending(list);
      hide Sound, Count, Ascending;
      var rest := watchers.Keys;
      while rest != {}
        invariant rest <= watchers.Keys
        invariant forall i :: i in list <==> i.0 in watchers.Keys - rest && watchers[i.0].Counted(i.1) > 0
        invariant forall i, h | i in list && h in rest :: i.0 < h
        invariant Distinct(list) && Ascending(list)
        decreases rest
      {
        ghost var least := LeastOf(rest);
        var h :| h in rest && forall x | x in rest :: h <= x;
        var w := watchers[h];
        var mine := InterestsIn(h, w);
        Extend(list, mine, h);
        list := list + mine;
        rest := rest - {h};
      }
      forall i: Interest
        ensures i in list <==> Wanted(i)
      {
        WantedIff(i);
      }
    }

    /** The counters tell who is wanted. */
    lemma WantedIff(i: Interest)
      requires Valid()
      ensures Wanted(i) <==> i.0 in watchers && watchers[i.0].Counted(i.1) > 0
    {
      var h: int := i.0;
      if h in watchers {
        var ws := watchers[h].listeners;
        CountPositive(ws, i.1);
        assert Sound(watchers[h]);
        assert watchers[h].Counted(i.1) == Count(ws, i.1);
        if w :| w in ws && w.mode == i.1 {
          assert Listens(w.listener, i.0, i.1);
        }
      }
    }
  }

  /** The listeners a snapshot has in a mode, in order. */
  function InMode(tracked: seq<Watcher>, mode: WaitMode): seq<nat>
  {
    if tracked == [] then []
    else (if tracked[0].mode == mode then [tracked[0].listener] else []) + InMode(tracked[1..], mode)
  }

  /** The map after n listeners were called, each call leaving what its entry in
      reactions says (calls beyond those change nothing). */
  function LiveAfter(live: map<int, Watchers>, reactions: seq<map<int, Watchers>>, n: nat): map<int, Watchers>
  {
    if n == 0 || reactions == [] then live
    else if n <= |reactions| then reactions[n - 1] else reactions[|reactions| - 1]
  }

  /** Which listeners a dispatch calls: those of the snapshot, until the handle
      has nobody left. */
  function Called(tracked: seq<Watcher>, mode: WaitMode, handle: int,
                  live: map<int, Watchers>, reactions: seq<map<int, Watchers>>): seq<nat>
  {
    if tracked == [] || handle !in live then []
    else if tracked[0].mode != mode then Called(tracked[1..], mode, handle, live, reactions)
    else
      var rest := if reactions == [] then [] else reactions[1..];
      [tracked[0].listener] + Called(tracked[1..], mode, handle, LiveAfter(live, reactions, 1), rest)
  }

  /** One turn of a dispatch. */
  lemma TurnTaken(called: seq<nat>, tracked: seq<Watcher>, mode: WaitMode, handle: int,
                  live: map<int, Watchers>, left: seq<map<int, Watchers>>)
    requires tracked != [] && handle in live && tracked[0].mode == mode
    ensures called + Called(tracked, mode, handle, live, left)
      == (called + [tracked[0].listener]) + Called(tracked[1..], mode, handle, if left == [] then live else left[0],
                                                   if left == [] then [] else left[1..])
  {
  }

  lemma LiveNext(live: map<int, Watchers>, reactions: seq<map<int, Watchers>>, n: nat)
    ensures LiveAfter(LiveAfter(live, reactions, 1), if reactions == [] then [] else reactions[1..], n)
      == LiveAfter(live, reactions, n + 1)
  {
  }

  /** The listeners called are the first ones of the snapshot. */
  lemma {:induction false} CalledPrefix(tracked: seq<Watcher>, mode: WaitMode, handle: int,
                                        live: map<int, Watchers>, reactions: seq<map<int, Watchers>>)
    ensures Called(tracked, mode, handle, live, reactions) <= InMode(tracked, mode)
    decreases |tracked|
  {
    hide LiveAfter;
    if tracked != [] && handle in live {
      var next, rest := LiveAfter(live, reactions, 1), if reactions == [] then [] else reactions[1..];
      if tracked[0].mode != mode {
        CalledPrefix(tracked[1..], mode, handle, live, reactions);
        assert [] + InMode(tracked[1..], mode) == InMode(tracked[1..], mode);
      } else {
        CalledPrefix(tracked[1..], mode, handle, next, rest);
      }
    }
  }

  /** A listener of the snapshot is called exactly when at its turn, and so at
      every turn before, somebody watches the handle; whether it is itself still
      registered makes no difference. */
  lemma {:induction false} CalledIff(tracked: seq<Watcher>, mode: WaitMode, handle: int,
                                     live: map<int, Watchers>, reactions: seq<map<int, Watchers>>)
    ensures var c := Called(tracked, mode, handle, live, reactions);
      && c <= InMode(tracked, mode)
      && (forall n | 0 <= n < |c| :: handle in LiveAfter(live, reactions, n))
      && (|c| < |InMode(tracked, mode)| ==> handle !in LiveAfter(live, reactions, |c|))
    decreases |tracked|
  {
    LiveFirst(live, reactions);
    CalledPrefix(tracked, mode, handle, live, reactions);
    if tracked != [] && handle in live {
      hide LiveAfter;
      if tracked[0].mode != mode {
        CalledIff(tracked[1..], mode, handle, live, reactions);
      } else {
        var next, rest := LiveAfter(live, reactions, 1), if reactions == [] then [] else reactions[1..];
        CalledIff(tracked[1..], mode, handle, next, rest);
        var c := Called(tracked[1..], mode, handle, next, rest);
        forall n | 0 <= n < |c| + 1
          ensures handle in LiveAfter(live, reactions, n)
        {
          if n > 0 { LiveNext(live, reactions, n - 1); }
        }
        LiveNext(live, reactions, |c|);
      }
    }
  }

  lemma LiveFirst(live: map<int, Watchers>, reactions: seq<map<int, Watchers>>)
    ensures LiveAfter(live, reactions, 0) == live
  {
  }

  /** The first of two listeners removes the second when called; the second is
      called all the same. */
  lemma RemovedStillCalled()
    ensures var one := Watcher(1, Read);
      var two := Watcher(2, Read);
      var after := map[5 := Watchers([one], 1, 0)];
      two !in after[5].listeners && Called([one, two], Read, 5, map[5 := Watchers([one, two], 2, 0)], [after]) == [1, 2]
  {
    var one, two := Watcher(1, Read), Watcher(2, Read);
    var before, after := map[5 := Watchers([one, two], 2, 0)], map[5 := Watchers([one], 1, 0)];
    var none: seq<map<int, Watchers>> := [];
    assert [one, two][1..] == [two] && [two][1..] == [] && [after][1..] == none;
    assert LiveAfter(before, [after], 1) == after && LiveAfter(after, none, 1) == after;
    assert Called([], Read, 5, after, none) == [];
    assert Called([two], Read, 5, after, none) == [2] + Called([], Read, 5, after, none);
    assert Called([one, two], Read, 5, before, [after]) == [1] + Called([two], Read, 5, after, none);
  }

  lemma Without<T>(s: seq<T>, i: nat)
    requires Distinct(s) && i < |s|
    ensures Distinct(s[..i] + s[i + 1..])
    ensures forall x :: x in s[..i] + s[i + 1..] <==> x in s && x != s[i]
  {
  }
}
