/** Any number of binary queues used together, by any sequence of calls: what
    each stands for, and who owns the buffers. */
module QueuePool {
  import opened Bytes
  import opened BinaryQueue

  /** A call on queue number `i`; `j` is the other queue it names. Copied is the
      assignment operator. */
  datatype Call =
    | Create
    | Unmanaged(i: nat, data: seq<byte>)
    | Copy(i: nat, data: seq<byte>)
    | CopyFrom(i: nat, j: nat)
    | MoveFrom(i: nat, j: nat)
    | Drop(i: nat, n: nat)
    | Take(i: nat, n: nat)
    | Clear(i: nat)
    | Copied(i: nat, j: nat)

  /** The calls a program may make: existing queues, and no queue moved into itself. */
  predicate Allowed(c: Call, count: nat)
  {
    match c
    case Create => true
    case CopyFrom(i, j) => i < count && j < count
    case Copied(i, j) => i < count && j < count
    case MoveFrom(i, j) => i < count && j < count && i != j
    case _ => c.i < count
  }

  /** What a call does to the byte sequences the queues stand for. */
  function Applied(s: seq<seq<byte>>, c: Call): (t: seq<seq<byte>>)
    requires Allowed(c, |s|)
  {
    match c
    case Create => s + [[]]
    case Unmanaged(i, data) => s[i := s[i] + data]
    case Copy(i, data) => s[i := s[i] + data]
    case CopyFrom(i, j) => s[i := s[i] + s[j]]
    case MoveFrom(i, j) => s[i := s[i] + s[j]][j := []]
    case Drop(i, n) => if n <= |s[i]| then s[i := s[i][n..]] else s
    case Take(i, n) =>
      var m := Min(n, |s[i]|);
      s[i := s[i][m..]] + [s[i][..m]]
    case Clear(i) => s[i := []]
    case Copied(i, j) => s[i := s[j]]
  }

  /** No other queue changes; what moves or is read out leaves one queue and is in another,
      in order; what is copied stays; and what is dropped was in front. */
  lemma AppliedKeeps(s: seq<seq<byte>>, c: Call)
    requires Allowed(c, |s|)
    ensures var t := Applied(s, c);
      && |t| == |s| + (if c.Create? || c.Take? then 1 else 0)
      && (forall k | 0 <= k < |s| && (c.Create? || k != c.i) && (c.MoveFrom? ==> k != c.j) :: t[k] == s[k])
      && (c.Create? ==> t[|s|] == [])
      && (c.Unmanaged? || c.Copy? ==> s[c.i] <= t[c.i] && t[c.i][|s[c.i]|..] == c.data)
      && (c.CopyFrom? || c.MoveFrom? ==> s[c.i] <= t[c.i] && t[c.i][|s[c.i]|..] == s[c.j])
      && (c.MoveFrom? ==> t[c.j] == [])
      && (c.Drop? && c.n <= |s[c.i]| ==> s[c.i][..c.n] + t[c.i] == s[c.i])
      && (c.Drop? && c.n > |s[c.i]| ==> t[c.i] == s[c.i])
      && (c.Take? ==> t[|s|] + t[c.i] == s[c.i] && |t[|s|]| == Min(c.n, |s[c.i]|))
      && (c.Clear? ==> t[c.i] == []) && (c.Copied? ==> t[c.i] == s[c.j])
  {
  }

  /** Different queues, each of them sound. */
  ghost predicate Sound(qs: seq<Queue>)
    reads qs
  {
    && (forall k, l | 0 <= k < l < |qs| :: qs[k] != qs[l])
    && (forall k | 0 <= k < |qs| :: qs[k].Valid())
  }

  ghost function StreamsOf(qs: seq<Queue>): (s: seq<seq<byte>>)
    requires Sound(qs)
    reads qs
    ensures |s| == |qs|
  {
    seq(|qs|, k requires 0 <= k < |qs| && Sound(qs) reads qs => qs[k].Contents())
  }

  class Pool {
    var queues: seq<Queue>
    /** Every buffer some queue was ever given, with the number of the queue that
        owns it now, or -1 once none does. */
    ghost var owner: map<Buffer, int>

    ghost function Repr(): set<object>
      reads this
    {
      {this} + (set q: Queue | q in queues :: q as object) + owner.Keys
    }

    /** Each queue is sound and has the buffers it owns, so that no two share one;
        a buffer is not deleted while it has an owner, and exactly once if not. */
    ghost predicate Valid()
      reads this, queues, owner.Keys
      ensures Valid() ==> Sound(queues)
    {
      && Sound(queues)
      && (forall k, b | 0 <= k < |queues| && b in queues[k].Buffers() :: b in owner && owner[b] == k)
      && (forall b | b in owner :: Booked(b))
    }

    ghost predicate Booked(b: Buffer)
      requires b in owner
      reads this, queues, b
    {
      if owner[b] == -1 then b.deletions == 1
      else 0 <= owner[b] < |queues| && b in queues[owner[b]].Buffers() && b.deletions == 0
    }

    ghost function Streams(): (s: seq<seq<byte>>)
      requires Sound(queues)
      reads `queues, queues
      ensures |s| == |queues|
    {
      StreamsOf(queues)
    }

    constructor ()
      ensures Valid() && Streams() == [] && owner == map[]
    {
      queues, owner := [], map[];
    }

    /** Everything is in order but the books on queue i, which its new buffers,
        and those in extra, have not reached yet. */
    ghost predicate Unbooked(i: nat, extra: set<Buffer>)
      requires i < |queues|
      reads this, queues, owner.Keys, extra, queues[i].Buffers()
      ensures Unbooked(i, extra) ==> Sound(queues)
    {
      && Sound(queues)
      && (forall k, b | 0 <= k < |queues| && k != i && b in queues[k].Buffers() :: b in owner && owner[b] == k)
      && (forall b | b in queues[i].Buffers() :: b.deletions == 0 && (b in owner ==> owner[b] == i))
      && (forall b | b in owner :: if owner[b] == i then b in queues[i].Buffers() || b.deletions == 1 else Booked(b))
      && (forall b | b in extra :: b !in owner && (b in queues[i].Buffers() || b.deletions == 1))
    }

    /** Books on queue i what it has now, and what it lost on nobody. */
    ghost method Book(i: nat, extra: set<Buffer>)
      requires i < |queues| && Unbooked(i, extra)
      modifies `owner
      ensures Valid() && owner.Keys == old(owner.Keys) + queues[i].Buffers() + extra
    {
      hide Queue.Valid, Queue.Contents, Queue.Buffers;
      owner := map b | b in owner.Keys + queues[i].Buffers() + extra ::
        if b in queues[i].Buffers() then i else if b in owner && owner[b] != i then owner[b] else -1;
      forall b | b in owner
        ensures Booked(b)
      {
        assert b in old(owner) && old(owner)[b] != i ==> old(Booked(b));
      }
    }

    lemma Owned(i: nat)
      requires Valid() && i < |queues|
      ensures queues[i] in queues && queues[i].Intact() && queues[i].Buffers() <= owner.Keys
      ensures forall j | 0 <= j < |queues| && j != i :: queues[j] != queues[i] && queues[j].Repr() !! queues[i].Repr()
    {
      hide Queue.Valid, Queue.Contents, Queue.Buffers;
      forall b | b in queues[i].Buffers()
        ensures b in owner && b.deletions == 0
      {
        assert owner[b] == i && Booked(b);
      }
    }

    /** After a call that only queue i noticed, its books are the only ones not up to date. */
    twostate lemma OnlyQueue(i: nat)
      requires old(Valid()) && queues == old(queues) && owner == old(owner) && i < |queues| && Sound(queues)
      requires forall k | 0 <= k < |queues| && k != i :: queues[k].Buffers() == old(queues[k].Buffers())
      requires forall b | b in queues[i].Buffers() :: b.deletions == 0 && (b in owner ==> b in old(queues[i].Buffers()))
      requires forall b | b in old(queues[i].Buffers()) :: b in queues[i].Buffers() || b.deletions == 1
      requires forall b | b in owner && b !in old(queues[i].Buffers()) :: b.deletions == old(b.deletions)
      ensures Unbooked(i, {})
    {
      hide Queue.Valid, Queue.Contents, Queue.Buffers;
      forall b | b in owner
        ensures if owner[b] == i then b in queues[i].Buffers() || b.deletions == 1 else Booked(b)
      {
        assert old(Booked(b));
      }
    }

    /** A new queue, sharing nothing with the others, joins the pool. */
    method Adopt(q: Queue)
      requires Valid() && q !in queues && q.Valid() && q.Intact() && q.Buffers() !! owner.Keys
      modifies this
      ensures Valid() && owner.Keys == old(owner.Keys) + q.Buffers() && queues == old(queues) + [q]
      ensures Streams() == old(Streams()) + [q.Contents()]
    {
      hide Queue.Valid, Queue.Contents, Queue.Buffers;
      queues := queues + [q];
      forall b | b in owner
        ensures Booked(b)
      {
        assert old(Booked(b));
      }
      Book(|queues| - 1, {});
    }

    /** Queue i takes over a buffer that no queue ever had. */
    method Feed(i: nat, buffer: Buffer)
      requires Valid() && i < |queues| && buffer !in owner && buffer.deletions == 0
      modifies queues[i], buffer
      ensures Sound(queues) && queues[i].Intact()
      ensures Streams() == old(Streams())[i := old(Streams())[i] + buffer.data]
      ensures queues[i].Buffers() == old(queues[i].Buffers()) + (if buffer.data == [] then {} else {buffer})
      ensures buffer.deletions == if buffer.data == [] then 1 else 0
    {
      hide Queue.Valid, Queue.Contents, Queue.Buffers, Queue.Repr;
      Owned(i);
      queues[i].AppendUnmanaged(buffer);
    }

    /** A buffer becomes queue i's own. */
    method Hand(i: nat, data: seq<byte>) returns (ghost extra: set<Buffer>)
      requires Valid() && i < |queues|
      modifies queues[i]
      ensures Unbooked(i, extra) && fresh(extra)
      ensures fresh(queues[i].Buffers() - old(queues[i].Buffers()))
      ensures Streams() == old(Streams())[i := old(Streams())[i] + data]
    {
      hide Queue.Valid, Queue.Contents, Queue.Buffers, Queue.Repr, Sound, StreamsOf;
      var q := queues[i];
      Owned(i);
      var b := new Buffer(data);
      Feed(i, b);
      extra := {b};
      forall b | b in owner
        ensures if owner[b] == i then b in q.Buffers() else Booked(b)
      {
        assert old(Booked(b));
      }
    }

    /** Queue i gets a copy. */
    method CopyIn(i: nat, data: seq<byte>)
      requires Valid() && i < |queues|
      modifies queues[i]
      ensures Unbooked(i, {})
      ensures fresh(queues[i].Buffers() - old(queues[i].Buffers()))
      ensures Streams() == Applied(old(Streams()), Copy(i, data))
    {
      hide Queue.Valid, Queue.Contents, Queue.Buffers;
      var q := queues[i];
      Owned(i);
      q.AppendCopy(data);
      OnlyQueue(i);
    }

    /** Queue i gets a copy of what queue j holds. */
    method CopyOver(i: nat, j: nat)
      requires Valid() && i < |queues| && j < |queues|
      modifies queues[i]
      ensures Unbooked(i, {})
      ensures fresh(queues[i].Buffers() - old(queues[i].Buffers()))
      ensures Streams() == Applied(old(Streams()), CopyFrom(i, j))
    {
      hide Queue.Valid, Queue.Contents, Queue.Buffers;
      var q := queues[i];
      Owned(i);
      q.AppendCopyFrom(queues[j]);
      OnlyQueue(i);
    }

    /** Queue i loses its first n bytes. */
    method Consume(i: nat, n: nat)
      requires Valid() && i < |queues|
      modifies queues[i].Repr()
      ensures Unbooked(i, {})
      ensures fresh(queues[i].Buffers() - old(queues[i].Buffers()))
      ensures Streams() == Applied(old(Streams()), Drop(i, n))
    {
      hide Queue.Valid, Queue.Contents, Queue.Buffers;
      var q := queues[i];
      Owned(i);
      var _ := q.Consume(n);
      OnlyQueue(i);
    }

    /** Queue i loses everything. */
    method Empty(i: nat)
      requires Valid() && i < |queues|
      modifies queues[i].Repr()
      ensures Unbooked(i, {})
      ensures fresh(queues[i].Buffers() - old(queues[i].Buffers()))
      ensures Streams() == Applied(old(Streams()), Clear(i))
    {
      hide Queue.Valid, Queue.Contents, Queue.Buffers;
      var q := queues[i];
      Owned(i);
      q.Clear();
      OnlyQueue(i);
    }

    /** Queue i becomes a copy of queue j. */
    method Assign(i: nat, j: nat)
      requires Valid() && i < |queues| && j < |queues|
      modifies queues[i].Repr()
      ensures Unbooked(i, {})
      ensures fresh(queues[i].Buffers() - old(queues[i].Buffers()))
      ensures Streams() == Applied(old(Streams()), Copied(i, j))
    {
      hide Queue.Valid, Queue.Contents, Queue.Buffers;
      var q := queues[i];
      Owned(i);
      q.Assign(queues[j]);
      OnlyQueue(i);
    }

    /** The calls that change one queue only. */
    method Work(c: Call)
      requires Valid() && Allowed(c, |queues|) && !c.Create? && !c.MoveFrom? && !c.Take?
      modifies Repr()
      ensures Valid() && fresh(Repr() - old(Repr())) && old(owner.Keys) <= owner.Keys && queues == old(queues)
      ensures Streams() == Applied(old(Streams()), c)
    {
      hide Queue.Valid, Queue.Contents, Queue.Buffers, Valid, Unbooked, StreamsOf, Sound;
      Owned(c.i);
      ghost var extra: set<Buffer> := {};
      match c {
        case Unmanaged(i, data) => extra := Hand(i, data);
        case Copy(i, data) => CopyIn(i, data);
        case CopyFrom(i, j) => CopyOver(i, j);
        case Drop(i, n) => Consume(i, n);
        case Clear(i) => Empty(i);
        case Copied(i, j) => Assign(i, j);
      }
      Book(c.i, extra);
    }

    method MoveOver(i: nat, j: nat)
      requires Valid() && i < |queues| && j < |queues| && i != j
      modifies queues[i], queues[j]
      ensures Sound(queues) && Streams() == Applied(old(Streams()), MoveFrom(i, j))
      ensures queues[i].Buffers() == old(queues[i].Buffers()) + old(queues[j].Buffers()) && queues[j].Buffers() == {}
      ensures forall k | 0 <= k < |queues| && k != i && k != j :: unchanged(queues[k])
    {
      hide Queue.Valid, Queue.Contents, Queue.Buffers;
      Owned(i);
      Owned(j);
      queues[i].AppendMoveFrom(queues[j]);
    }

    /** The books after everything of queue j has moved to queue i. */
    ghost method Rebook(i: nat, j: nat)
      requires i < |queues| && j < |queues| && i != j && Sound(queues) && queues[j].Buffers() == {}
      requires forall k, b | 0 <= k < |queues| && k != i && b in queues[k].Buffers() :: b in owner && owner[b] == k
      requires forall b | b in queues[i].Buffers() :: b in owner && (owner[b] == i || owner[b] == j)
      requires forall b | b in owner :: if owner[b] == i || owner[b] == j then b in queues[i].Buffers() && b.deletions == 0 else Booked(b)
      modifies `owner
      ensures Valid() && owner.Keys == old(owner.Keys)
    {
      hide Queue.Valid, Queue.Contents, Queue.Buffers, Sound;
      owner := map b | b in owner :: if owner[b] == j then i else owner[b];
      forall b | b in owner
        ensures Booked(b)
      {
        assert old(owner)[b] != i && old(owner)[b] != j ==> old(Booked(b));
      }
    }

    method Move(i: nat, j: nat)
      requires Valid() && i < |queues| && j < |queues| && i != j
      modifies this, queues[i], queues[j]
      ensures Valid() && queues == old(queues) && owner.Keys == old(owner.Keys)
      ensures Streams() == Applied(old(Streams()), MoveFrom(i, j))
    {
      hide Queue.Valid, Queue.Contents, Queue.Buffers, Sound, StreamsOf, Applied;
      assert forall k | 0 <= k < |queues| && k != i && k != j :: queues[k] != queues[i] && queues[k] != queues[j] by { Owned(i); Owned(j); }
      MoveOver(i, j);
      forall b | b in owner
        ensures if owner[b] == i || owner[b] == j then b in queues[i].Buffers() && b.deletions == 0 else Booked(b)
      {
        assert old(Booked(b));
      }
      Rebook(i, j);
    }

    method ReadOff(i: nat, n: nat) returns (q: Queue)
      requires Valid() && i < |queues|
      modifies queues[i].Repr()
      ensures Unbooked(i, {}) && queues[i].Buffers() <= owner.Keys
      ensures fresh(q) && fresh(q.Buffers()) && q.Valid() && q.Intact()
      ensures var s, m := old(Streams()), Min(n, |old(Streams())[i]|);
        Streams() == s[i := s[i][m..]] && q.Contents() == s[i][..m]
    {
      hide Queue.Valid, Queue.Contents, Queue.Buffers;
      Owned(i);
      q := queues[i].Read(n);
      OnlyQueue(i);
    }

    method Split(i: nat, n: nat)
      requires Valid() && i < |queues|
      modifies Repr()
      ensures Valid() && fresh(Repr() - old(Repr())) && old(owner.Keys) <= owner.Keys
      ensures Streams() == Applied(old(Streams()), Take(i, n))
    {
      hide Queue.Valid, Queue.Contents, Queue.Buffers, Valid, Unbooked, StreamsOf, Sound;
      Owned(i);
      var q := ReadOff(i, n);
      assert forall k | 0 <= k < |queues| :: queues[k] != q;
      Book(i, {});
      Adopt(q);
    }

    /** Every call keeps the ownership rule and does to the streams what Applied says. */
    method Do(c: Call)
      requires Valid() && Allowed(c, |queues|)
      modifies Repr()
      ensures Valid() && fresh(Repr() - old(Repr())) && old(owner.Keys) <= owner.Keys
      ensures Streams() == Applied(old(Streams()), c)
    {
      hide Queue.Valid, Queue.Contents, Queue.Buffers, Valid, StreamsOf, Sound;
      if c.Create? {
        var q := new Queue();
        Adopt(q);
      } else if c.Take? {
        Split(c.i, c.n);
      } else if c.MoveFrom? {
        assert queues[c.i] in queues && queues[c.j] in queues;
        Move(c.i, c.j);
      } else {
        Work(c);
      }
    }

    /** The destructors of all queues: afterwards the deleter of every buffer
        ever attached has run exactly once. */
    method Destroy()
      requires Valid()
      modifies Repr()
      ensures forall b | b in old(owner) :: b.deletions == 1
    {
      hide Queue.Valid, Queue.Contents, Queue.Buffers, Valid, StreamsOf, Sound;
      var i: nat := 0;
      while i < |queues|
        invariant Valid() && fresh(Repr() - old(Repr())) && old(owner.Keys) <= owner.Keys && i <= |queues|
        invariant queues == old(queues)
        invariant forall k | 0 <= k < i :: Streams()[k] == []
      {
        Work(Call.Clear(i));
        i := i + 1;
      }
      Unowned();
    }

    /** Queues without bytes own nothing. */
    lemma Unowned()
      requires Valid()
      requires forall k | 0 <= k < |queues| :: Streams()[k] == []
      ensures forall b | b in owner :: b.deletions == 1
    {
      forall k | 0 <= k < |queues|
        ensures queues[k].Buffers() == {}
      {
        assert Streams()[k] == Joined(queues[k].buckets);
      }
      forall b | b in owner
        ensures b.deletions == 1
      {
        assert Booked(b);
      }
    }
  }
}
