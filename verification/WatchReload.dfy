/** Main: the watches of the main loop, kept as descriptor handlers of the
    toolkit and reconciled with the watch support after every change. */
module WatchReload {
  import opened WaitModes
  import opened WatchSupport

  /** A handler the toolkit returned: a new one each time, for a descriptor. */
  datatype Handler = Handler(id: nat, fd: int)

  /** The toolkit's side: which handlers are registered, in which mode. */
  class Toolkit {
    var next: nat
    var registered: set<(Handler, WaitMode)>

    ghost predicate Valid()
      reads this
    {
      forall r | r in registered :: r.0.id < next
    }

    constructor ()
      ensures Valid() && registered == {}
    {
      next, registered := 0, {};
    }

    method Add(fd: int, mode: WaitMode) returns (h: Handler)
      requires Valid()
      modifies this
      ensures Valid() && h.fd == fd && (forall m :: (h, m) !in old(registered))
      ensures registered == old(registered) + {(h, mode)}
    {
      h := Handler(next, fd);
      next := next + 1;
      registered := registered + {(h, mode)};
    }

    method Delete(h: Handler, mode: WaitMode)
      requires Valid()
      modifies this
      ensures Valid() && registered == old(registered) - {(h, mode)}
    {
      registered := registered - {(h, mode)};
    }
  }

  ghost predicate DistinctFds(hs: seq<Handler>)
  {
    forall i, j | 0 <= i < j < |hs| :: hs[i].fd != hs[j].fd
  }

  /** The registrations of a list of handlers in one mode. */
  ghost function InModeSet(hs: seq<Handler>, mode: WaitMode): set<(Handler, WaitMode)>
  {
    set h | h in hs :: (h, mode)
  }

  ghost predicate Watches(hs: seq<Handler>, fd: int)
  {
    exists h :: h in hs && h.fd == fd
  }

  class Main {
    const support: Support
    const toolkit: Toolkit
    var readWatchers: seq<Handler>
    var writeWatchers: seq<Handler>

    /** The lists are what is registered, each descriptor at most once a mode. */
    ghost predicate Valid()
      reads this, support, toolkit
    {
      && support.Valid() && toolkit.Valid()
      && DistinctFds(readWatchers) && DistinctFds(writeWatchers)
      && toolkit.registered == InModeSet(readWatchers, Read) + InModeSet(writeWatchers, Write)
    }

    /** Moreover the lists watch what the listeners want. */
    ghost predicate UpToDate()
      reads this, support
    {
      && (forall fd: int :: Watches(readWatchers, fd) <==> support.Wanted((fd, Read)))
      && (forall fd: int :: Watches(writeWatchers, fd) <==> support.Wanted((fd, Write)))
    }

    constructor ()
      ensures Valid() && UpToDate() && fresh(support) && fresh(toolkit) && support.watchers == map[]
    {
      support := new Support();
      toolkit := new Toolkit();
      readWatchers, writeWatchers := [], [];
    }

    /** Whether a list has a handle wanted in a mode. */
    method Find(wanted: seq<Interest>, fd: int, mode: WaitMode) returns (found: bool)
      ensures found == ((fd, mode) in wanted)
    {
      found := false;
      var i := 0;
      while i < |wanted| && !found
        invariant 0 <= i <= |wanted|
        invariant found == ((fd, mode) in wanted[..i])
      {
        found := wanted[i].1 == mode && wanted[i].0 == fd;
        i := i + 1;
      }
    }

    method FindHandler(hs: seq<Handler>, fd: int) returns (found: bool)
      ensures found == Watches(hs, fd)
    {
      found := false;
      var i := 0;
      while i < |hs| && !found
        invariant 0 <= i <= |hs|
        invariant found ==> Watches(hs, fd)
        invariant !found ==> forall k | 0 <= k < i :: hs[k].fd != fd
      {
        found := hs[i].fd == fd;
        i := i + 1;
      }
    }

    /** The loop that unregisters the handlers of one list no longer wanted. */
    method Prune(hs: seq<Handler>, wanted: seq<Interest>, mode: WaitMode) returns (kept: seq<Handler>)
      requires toolkit.Valid() && DistinctFds(hs)
      modifies toolkit
      ensures toolkit.Valid() && DistinctFds(kept)
      ensures forall h :: h in kept <==> h in hs && (h.fd, mode) in wanted
      ensures toolkit.registered == old(toolkit.registered) - (set h | h in hs && (h.fd, mode) !in wanted :: (h, mode))
    {
      kept := hs;
      var i := 0;
      ghost var gone: set<Handler> := {};
      while i < |kept|
        invariant 0 <= i <= |kept| && toolkit.Valid() && DistinctFds(kept)
        invariant forall h :: h in hs <==> h in kept || h in gone
        invariant forall h | h in gone :: h !in kept && (h.fd, mode) !in wanted
        invariant forall k | 0 <= k < i :: (kept[k].fd, mode) in wanted
        invariant toolkit.registered == old(toolkit.registered) - (set h | h in gone :: (h, mode))
        decreases |kept| - i
      {
        var found := Find(wanted, kept[i].fd, mode);
        if !found {
          toolkit.Delete(kept[i], mode);
          gone := gone + {kept[i]};
          Without(kept, i);
          WithoutFds(kept, i);
          kept := kept[..i] + kept[i + 1..];
        } else {
          i := i + 1;
        }
      }
      assert gone == set h | h in hs && (h.fd, mode) !in wanted;
    }

    /** ReloadWatchList: afterwards the registered descriptors are exactly the
        handles somebody watches, each once in each mode; handlers still wanted
        were kept. */
    method ReloadWatchList()
      requires Valid()
      modifies `readWatchers, `writeWatchers, toolkit
      ensures Valid() && UpToDate()
      ensures forall h | h in old(readWatchers) :: h in readWatchers <==> support.Wanted((h.fd, Read))
      ensures forall h | h in old(writeWatchers) :: h in writeWatchers <==> support.Wanted((h.fd, Write))
    {
      var wanted := support.WaitableWatcherHandles();
      readWatchers := Prune(readWatchers, wanted, Read);
      writeWatchers := Prune(writeWatchers, wanted, Write);
      CoverAll(wanted);
    }

    /** Adding and removing a watch from the main thread, where the change is
        committed by a direct call of ReloadWatchList. */
    method Add(listener: nat, handle: int, mode: WaitMode)
      requires Valid() && !support.Listens(listener, handle, mode)
      modifies this, support, toolkit
      ensures Valid() && UpToDate() && support.Listens(listener, handle, mode)
      ensures forall h | h in old(readWatchers) && old(support.Wanted((h.fd, Read))) :: h in readWatchers
      ensures forall h | h in old(writeWatchers) && old(support.Wanted((h.fd, Write))) :: h in writeWatchers
    {
      hide Support.Valid, Support.Listens;
      support.AddWaitableHandleWatch(listener, handle, mode);
      ReloadWatchList();
    }

    method Remove(listener: nat, handle: int, mode: WaitMode)
      requires Valid() && support.Listens(listener, handle, mode)
      modifies this, support, toolkit
      ensures Valid() && UpToDate() && !support.Listens(listener, handle, mode)
      ensures forall h | h in old(readWatchers) :: h in readWatchers <==> support.Wanted((h.fd, Read))
      ensures forall h | h in old(writeWatchers) :: h in writeWatchers <==> support.Wanted((h.fd, Write))
    {
      hide Support.Valid, Support.Listens;
      support.RemoveWaitableHandleWatch(listener, handle, mode);
      ReloadWatchList();
    }

    /** The loop that registers a handler for each wanted handle without one. */
    method CoverAll(wanted: seq<Interest>)
      requires Valid()
      modifies `readWatchers, `writeWatchers, toolkit
      ensures Valid() && old(readWatchers) <= readWatchers && old(writeWatchers) <= writeWatchers
      ensures forall fd: int :: Watches(readWatchers, fd) <==> old(Watches(readWatchers, fd)) || (fd, Read) in wanted
      ensures forall fd: int :: Watches(writeWatchers, fd) <==> old(Watches(writeWatchers, fd)) || (fd, Write) in wanted
    {
      hide Watches, DistinctFds, Support.Valid, Toolkit.Valid;
      var i := 0;
      while i < |wanted|
        invariant 0 <= i <= |wanted| && Valid()
        invariant old(readWatchers) <= readWatchers && old(writeWatchers) <= writeWatchers
        invariant forall fd: int :: Watches(readWatchers, fd) <==> old(Watches(readWatchers, fd)) || (fd, Read) in wanted[..i]
        invariant forall fd: int :: Watches(writeWatchers, fd) <==> old(Watches(writeWatchers, fd)) || (fd, Write) in wanted[..i]
      {
        if wanted[i].1 == Read {
          readWatchers := Cover(readWatchers, wanted[i].0, Read);
        } else {
          writeWatchers := Cover(writeWatchers, wanted[i].0, Write);
        }
        i := i + 1;
      }
    }

    /** Registers a handler for a descriptor that has none in the mode yet. */
    method Cover(hs: seq<Handler>, fd: int, mode: WaitMode) returns (more: seq<Handler>)
      requires toolkit.Valid() && DistinctFds(hs) && InModeSet(hs, mode) <= toolkit.registered
      modifies toolkit
      ensures toolkit.Valid() && DistinctFds(more) && hs <= more
      ensures forall d: int :: Watches(more, d) <==> Watches(hs, d) || d == fd
      ensures toolkit.registered == old(toolkit.registered) + InModeSet(more, mode)
    {
      more := hs;
      var found := FindHandler(hs, fd);
      if !found {
        var h := toolkit.Add(fd, mode);
        more := hs + [h];
      }
    }
  }

  lemma WithoutFds(hs: seq<Handler>, i: nat)
    requires DistinctFds(hs) && i < |hs|
    ensures DistinctFds(hs[..i] + hs[i + 1..])
  {
  }
}
