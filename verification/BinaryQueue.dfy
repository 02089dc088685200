/** BinaryQueue: a byte stream kept as a list of buckets over buffers that the
    queue owns. */
module BinaryQueue {
  import opened Bytes

  /** Memory a queue may be given; `deletions` counts the calls of its deleter. */
  class Buffer {
    const data: seq<byte>
    var deletions: nat

    constructor (data: seq<byte>)
      ensures this.data == data && deletions == 0
    {
      this.data := data;
      deletions := 0;
    }
  }

  /** One piece of the stream: `left` bytes from `ptr` on, in a buffer it owns. */
  datatype Bucket = Bucket(buffer: Buffer, ptr: nat, left: nat) {
    /** `ptr` and `left` together always reach the end of the buffer, and a
        bucket in a queue is never used up. */
    ghost predicate Sound()
    {
      left > 0 && ptr + left == |buffer.data|
    }

    ghost function Rest(): (s: seq<byte>)
      requires Sound()
      ensures |s| == left
    {
      buffer.data[ptr..]
    }
  }

  /** No buffer occurs twice. */
  ghost predicate Held(bs: seq<Bucket>)
  {
    && (forall k | 0 <= k < |bs| :: bs[k].Sound())
    && (forall i, j | 0 <= i < j < |bs| :: bs[i].buffer != bs[j].buffer)
  }

  ghost function BuffersOf(bs: seq<Bucket>): set<Buffer>
  {
    set b | b in bs :: b.buffer
  }

  /** The bytes the buckets have left, in order. */
  ghost function Joined(bs: seq<Bucket>): seq<byte>
    requires forall k | 0 <= k < |bs| :: bs[k].Sound()
  {
    if bs == [] then [] else bs[0].Rest() + Joined(bs[1..])
  }

  lemma {:induction false} JoinedConcat(a: seq<Bucket>, b: seq<Bucket>)
    requires forall k | 0 <= k < |a| :: a[k].Sound()
    requires forall k | 0 <= k < |b| :: b[k].Sound()
    ensures Joined(a + b) == Joined(a) + Joined(b)
  {
    if a == [] {
      assert a + b == b;
    } else {
      assert (a + b)[1..] == a[1..] + b;
      JoinedConcat(a[1..], b);
    }
  }

  lemma HeldConcat(a: seq<Bucket>, b: seq<Bucket>)
    requires Held(a) && Held(b) && BuffersOf(a) !! BuffersOf(b)
    ensures Held(a + b) && BuffersOf(a + b) == BuffersOf(a) + BuffersOf(b) && Joined(a + b) == Joined(a) + Joined(b)
  {
    assert forall k | 0 <= k < |a| :: a[k].buffer in BuffersOf(a);
    assert forall k | 0 <= k < |b| :: b[k].buffer in BuffersOf(b);
    JoinedConcat(a, b);
  }

  lemma NothingHeld()
    ensures Held([]) && BuffersOf([]) == {} && Joined([]) == []
  {
  }

  /** The buckets after count bytes of the first are used. */
  function Advanced(bs: seq<Bucket>, count: nat): seq<Bucket>
    requires bs != [] && count <= bs[0].left
  {
    if count == bs[0].left then bs[1..]
    else [bs[0].(ptr := bs[0].ptr + count, left := bs[0].left - count)] + bs[1..]
  }

  lemma AdvancedDrops(bs: seq<Bucket>, count: nat)
    requires Held(bs) && bs != [] && 0 < count <= bs[0].left
    ensures Held(Advanced(bs, count))
    ensures |Joined(bs)| >= count && Joined(Advanced(bs, count)) == Joined(bs)[count..]
  {
    var tail, rest := bs[1..], bs[0].Rest();
    assert rest[count..] + Joined(tail) == (rest + Joined(tail))[count..];
    if count < bs[0].left {
      var next := bs[0].(ptr := bs[0].ptr + count, left := bs[0].left - count);
      assert next.Rest() == rest[count..];
      assert ([next] + tail)[1..] == tail;
    }
  }

  lemma AdvancedOwns(bs: seq<Bucket>, count: nat)
    requires Held(bs) && bs != [] && 0 < count <= bs[0].left
    ensures bs[0].buffer in BuffersOf(bs)
    ensures BuffersOf(Advanced(bs, count)) == BuffersOf(bs) - (if count == bs[0].left then {bs[0].buffer} else {})
  {
  }

  lemma FirstBucket(bs: seq<Bucket>)
    requires Held(bs) && Joined(bs) != []
    ensures bs != [] && bs[0].left > 0
  {
  }

  /** Taking count bytes of the bucket reached continues a prefix of the stream. */
  lemma PieceExtends(all: seq<byte>, data: seq<byte>, bs: seq<Bucket>, count: nat)
    requires Held(bs) && bs != [] && count <= bs[0].left
    requires all == data + Joined(bs)
    ensures all == (data + bs[0].Rest()) + Joined(bs[1..])
    ensures |data| + count <= |all| && data + bs[0].Rest()[..count] == all[..|data| + count]
  {
  }

  class Queue {
    var buckets: seq<Bucket>
    var size: nat

    ghost function Buffers(): set<Buffer>
      reads this
    {
      BuffersOf(buckets)
    }

    /** What the queue may change: itself and the buffers it owns. */
    ghost function Repr(): set<object>
      reads this
    {
      {this} + Buffers()
    }

    ghost predicate Valid()
      reads this
      ensures Valid() ==> Held(buckets)
    {
      Held(buckets) && size == |Joined(buckets)|
    }

    /** No buffer held has been deleted. */
    ghost predicate Intact()
      reads this, Buffers()
    {
      forall b | b in Buffers() :: b.deletions == 0
    }

    /** The byte sequence the queue stands for. */
    ghost function Contents(): (s: seq<byte>)
      requires Held(buckets)
      reads this
      ensures Valid() ==> |s| == size
    {
      Joined(buckets)
    }

    constructor ()
      ensures Valid() && Intact() && Contents() == [] && Buffers() == {}
    {
      buckets, size := [], 0;
    }

    /** AppendUnmanaged: the queue becomes the owner of the buffer; an empty
        one is deleted at once. */
    method AppendUnmanaged(buffer: Buffer)
      requires Valid() && Intact() && buffer !in Buffers() && buffer.deletions == 0
      modifies this, buffer
      ensures Valid() && Intact()
      ensures Contents() == old(Contents()) + buffer.data
      ensures Buffers() == old(Buffers()) + (if buffer.data == [] then {} else {buffer})
      ensures buffer.deletions == if buffer.data == [] then 1 else 0
    {
      if |buffer.data| == 0 {
        buffer.deletions := buffer.deletions + 1;
        return;
      }
      ghost var before := buckets;
      buckets := buckets + [Bucket(buffer, 0, |buffer.data|)];
      size := size + |buffer.data|;
      JoinedConcat(before, [Bucket(buffer, 0, |buffer.data|)]);
      assert forall k | 0 <= k < |before| :: before[k].buffer in BuffersOf(before);
    }

    method AppendCopy(data: seq<byte>)
      requires Valid() && Intact()
      modifies this
      ensures Valid() && Intact() && fresh(Buffers() - old(Buffers())) && old(Buffers()) <= Buffers()
      ensures Contents() == old(Contents()) + data
    {
      var copy := new Buffer(data);
      AppendUnmanaged(copy);
    }

    /** AppendCopyFrom: the other queue, possibly this one, keeps its bytes. */
    method AppendCopyFrom(other: Queue)
      requires Valid() && Intact() && other.Valid()
      modifies this
      ensures Valid() && Intact() && fresh(Buffers() - old(Buffers())) && old(Buffers()) <= Buffers()
      ensures Contents() == old(Contents()) + old(other.Contents())
    {
      var _, copy := other.Flatten(other.size);
      AppendCopy(copy);
    }

    /** AppendMoveFrom: the buffers change owner, no byte is copied. */
    method AppendMoveFrom(other: Queue)
      requires Valid() && Intact() && other.Valid() && other.Intact() && Repr() !! other.Repr()
      modifies this, other
      ensures Valid() && Intact() && other.Valid()
      ensures Buffers() == old(Buffers()) + old(other.Buffers()) && other.Buffers() == {}
      ensures Contents() == old(Contents()) + old(other.Contents())
      ensures other.Contents() == []
    {
      hide Held, Joined, BuffersOf;
      HeldConcat(buckets, other.buckets);
      NothingHeld();
      buckets := buckets + other.buckets;
      size := size + other.size;
      other.buckets := [];
      other.size := 0;
    }

    /** Clear: the deleter of every buffer held runs, once. */
    method Clear()
      requires Valid() && Intact()
      modifies Repr()
      ensures Valid() && Intact() && Contents() == [] && Buffers() == {}
      ensures forall b | b in old(Buffers()) :: b.deletions == 1
    {
      ghost var held := buckets;
      var i := 0;
      while i < |buckets|
        invariant 0 <= i <= |buckets| && buckets == held
        invariant forall k | 0 <= k < |held| :: held[k].buffer.deletions == if k < i then 1 else 0
        modifies Buffers()
      {
        var buffer := buckets[i].buffer;
        buffer.deletions := buffer.deletions + 1;
        i := i + 1;
      }
      buckets, size := [], 0;
    }

    predicate Empty()
      reads this
    {
      size == 0
    }

    /** One turn of the loop of Consume: drop what can be dropped of the first bucket. */
    method UseFirst(most: nat) returns (count: nat)
      requires Valid() && Intact() && 0 < most <= size
      modifies Repr()
      ensures Valid() && Intact() && 0 < count <= most && size == old(size) - count
      ensures count <= |old(Contents())| && Contents() == old(Contents())[count..]
      ensures Buffers() <= old(Buffers())
      ensures forall b | b in old(Buffers()) :: b.deletions == if b in Buffers() then 0 else 1
    {
      hide Joined, Advanced, BuffersOf, Held;
      FirstBucket(buckets);
      var front := buckets[0];
      count := Min(most, front.left);
      AdvancedDrops(buckets, count);
      AdvancedOwns(buckets, count);
      if count == front.left {
        front.buffer.deletions := front.buffer.deletions + 1;
      }
      buckets := Advanced(buckets, count);
      size := size - count;
    }

    /** Consume: drop n bytes from the front; buffers used up are deleted. */
    method Consume(n: nat) returns (ok: bool)
      requires Valid() && Intact()
      modifies Repr()
      ensures Valid() && Intact() && Buffers() <= old(Buffers())
      ensures ok == (n <= |old(Contents())|)
      ensures Contents() == if ok then old(Contents())[n..] else old(Contents())
      ensures forall b | b in old(Buffers()) :: b.deletions == if b in Buffers() then 0 else 1
    {
      if n > size {
        return false;
      }
      hide Joined, BuffersOf, Held;
      ok := true;
      var bytesLeft: nat := n;
      ghost var whole := Contents();
      while bytesLeft > 0
        invariant bytesLeft <= n <= |whole| && bytesLeft <= size
        invariant Valid() && Intact() && Buffers() <= old(Buffers())
        invariant Contents() == whole[n - bytesLeft..]
        invariant forall b | b in old(Buffers()) :: b.deletions == if b in Buffers() then 0 else 1
      {
        var count := UseFirst(bytesLeft);
        SliceOfDrop(whole, n - bytesLeft, count, |whole| - (n - bytesLeft));
        bytesLeft := bytesLeft - count;
      }
    }

    /** Flatten: the first n bytes, without removing them. */
    method Flatten(n: nat) returns (ok: bool, data: seq<byte>)
      requires Valid()
      ensures ok == (n <= |Contents()|)
      ensures ok ==> data == Contents()[..n]
    {
      data := [];
      if n == 0 {
        return true, data;
      }
      if n > size {
        return false, data;
      }
      var bytesLeft: nat := n;
      var i: nat := 0;
      assert buckets[0..] == buckets;
      while bytesLeft > 0
        invariant i <= |buckets| && bytesLeft <= n && |data| == n - bytesLeft
        invariant bytesLeft <= |Joined(buckets[i..])|
        invariant bytesLeft > 0 ==> Contents() == data + Joined(buckets[i..])
        invariant bytesLeft == 0 ==> data == Contents()[..n]
      {
        var bucket := buckets[i];
        var count := Min(bytesLeft, bucket.left);
        PieceExtends(Contents(), data, buckets[i..], count);
        assert buckets[i..][0] == bucket && buckets[i..][1..] == buckets[i + 1..];
        var piece := bucket.buffer.data[bucket.ptr..bucket.ptr + count];
        assert piece == bucket.Rest()[..count];
        assert count == bucket.left ==> bucket.Rest()[..count] == bucket.Rest();
        data := data + piece;
        bytesLeft := bytesLeft - count;
        i := i + 1;
      }
      ok := true;
    }

    method FlattenConsume(n: nat) returns (ok: bool, data: seq<byte>)
      requires Valid() && Intact()
      modifies Repr()
      ensures Valid() && Intact() && Buffers() <= old(Buffers())
      ensures ok == (n <= |old(Contents())|)
      ensures ok ==> data == old(Contents())[..n] && Contents() == old(Contents())[n..]
      ensures !ok ==> Contents() == old(Contents())
      ensures forall b | b in old(Buffers()) :: b.deletions == if b in Buffers() then 0 else 1
    {
      ok, data := Flatten(n);
      if ok {
        ok := Consume(n);
      }
    }

    /** Read: at most n bytes, taken off the front into a queue of their own. */
    method Read(n: nat) returns (result: Queue)
      requires Valid() && Intact()
      modifies Repr()
      ensures Valid() && Intact() && Buffers() <= old(Buffers())
      ensures fresh(result) && fresh(result.Buffers()) && result.Valid() && result.Intact()
      ensures result.Contents() == old(Contents())[..Min(n, |old(Contents())|)]
      ensures Contents() == old(Contents())[|result.Contents()|..]
      ensures forall b | b in old(Buffers()) :: b.deletions == if b in Buffers() then 0 else 1
    {
      hide Held, Joined;
      var available := Min(n, size);
      result := new Queue();
      var ok, copy := Flatten(available);
      result.AppendCopy(copy);
      ok := Consume(available);
    }

    /** Write: appends the whole of the other queue, whatever size is asked for. */
    method Write(other: Queue, n: nat) returns (written: nat)
      requires Valid() && Intact() && other.Valid()
      modifies this
      ensures Valid() && Intact() && fresh(Buffers() - old(Buffers())) && old(Buffers()) <= Buffers()
      ensures written == n && Contents() == old(Contents()) + old(other.Contents())
    {
      AppendCopyFrom(other);
      written := n;
    }

    /** Assignment: what this queue held is deleted, then the other is copied. */
    method Assign(other: Queue)
      requires Valid() && Intact() && other.Valid() && (other == this || Repr() !! other.Repr())
      modifies Repr()
      ensures Valid() && Intact() && fresh(Buffers() - old(Buffers()))
      ensures Contents() == old(other.Contents())
      ensures if other == this then Buffers() == old(Buffers()) else forall b | b in old(Buffers()) :: b.deletions == 1
    {
      if other != this {
        Clear();
        AppendCopyFrom(other);
      }
    }
  }
}
