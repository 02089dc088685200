/** The seekable file behind the I/O function table: its bytes and one position.
    Requests are served in full as far as the file reaches. */
module Stream {
  import opened Bytes

  /** The bytes a read of n at p delivers. */
  function Available(b: seq<byte>, p: nat, n: nat): seq<byte>
  {
    if p >= |b| then [] else b[p..Min(p + n, |b|)]
  }

  /** The contents after writing s at p; a gap behind the end is zero-filled. */
  function Overwrite(b: seq<byte>, p: nat, s: seq<byte>): (r: seq<byte>)
    ensures |r| == Max(|b|, p + |s|)
    ensures p <= |b| ==> r[..p] == b[..p]
    ensures r[p..p + |s|] == s
    ensures p + |s| <= |b| ==> r[p + |s|..] == b[p + |s|..]
    ensures p + |s| >= |b| ==> r[p + |s|..] == []
  {
    (if p <= |b| then b[..p] else b + Repeat(0, p - |b|))
    + s
    + (if p + |s| <= |b| then b[p + |s|..] else [])
  }

  class File {
    var bytes: seq<byte>
    var pos: nat

    constructor (bytes: seq<byte>)
      ensures this.bytes == bytes && pos == 0
    {
      this.bytes, pos := bytes, 0;
    }

    method SeekSet(p: nat)
      modifies `pos
      ensures pos == p
    {
      pos := p;
    }

    method SeekCur(d: nat)
      modifies `pos
      ensures pos == old(pos) + d
    {
      pos := pos + d;
    }

    method SeekEnd()
      modifies `pos
      ensures pos == |bytes|
    {
      pos := |bytes|;
    }

    method Tell() returns (p: nat)
      ensures p == pos
    {
      p := pos;
    }

    method Read(n: nat) returns (s: seq<byte>)
      modifies `pos
      ensures s == Available(bytes, old(pos), n)
      ensures pos == old(pos) + |s|
    {
      s := Available(bytes, pos, n);
      pos := pos + |s|;
    }

    method Write(s: seq<byte>)
      modifies this
      ensures bytes == Overwrite(old(bytes), old(pos), s)
      ensures pos == old(pos) + |s|
    {
      bytes := Overwrite(bytes, pos, s);
      pos := pos + |s|;
    }

    /** getShort, getLong and getLong64 (n = 2, 4, 8): the bytes are read one by
        one; at the end of the file the result is zero and an error is returned. */
    method GetValue(n: nat) returns (ok: bool, x: nat)
      modifies `pos
      ensures ok <==> old(pos) + n <= |bytes|
      ensures ok ==> x == Num(bytes, old(pos), n) && pos == old(pos) + n
      ensures !ok ==> x == 0
      ensures !ok && n > 0 ==> pos == Max(old(pos), |bytes|)
      ensures n < 1 ==> !ok ==> pos == old(pos)
    {
      hide Num;
      ok, x := pos <= |bytes| || n > 0, 0;
      var i := 0;
      var weight: nat := 1;
      ghost var start := pos;
      NoNum(bytes, start);
      while i < n && ok
        invariant 0 <= i <= n
        invariant weight == Pow256(i)
        invariant ok ==> pos == start + i && (i > 0 || start <= |bytes| ==> start + i <= |bytes| && x == Num(bytes, start, i))
        invariant ok && i == 0 ==> x == 0
        invariant !ok ==> start + n > |bytes| && pos == Max(start, |bytes|)
        decreases n - i, ok
      {
        var c := Read(1);
        if |c| == 1 {
          NumSnoc(bytes, start, i);
          assert c[0] == bytes[start + i];
          x := x + c[0] * weight;
          weight := 256 * weight;
          i := i + 1;
        } else {
          ok := false;
        }
      }
      if !ok {
        x := 0;
      }
    }

    static lemma NoNum(b: seq<byte>, p: nat)
      ensures p <= |b| ==> Num(b, p, 0) == 0
    {
    }

    /** zip64local_putValue: n bytes, saturated. */
    method PutValue(x: nat, n: nat)
      modifies this
      ensures bytes == Overwrite(old(bytes), old(pos), Put(x, n))
      ensures pos == old(pos) + n
    {
      var buf := PutValueInMemory(x, n);
      Write(buf);
    }
  }

  /** The shared loop of zip64local_putValue and zip64local_putValue_inmemory:
      shift out n bytes, and overwrite them with 0xff when something is left. */
  method PutValueInMemory(x: nat, n: nat) returns (buf: seq<byte>)
    ensures buf == Put(x, n)
  {
    hide Low, Pow256;
    buf := [];
    var rest: nat := x;
    var i := 0;
    while i < n
      invariant 0 <= i <= n
      invariant buf + Low(rest, n - i) == Low(x, n)
      invariant rest < Pow256(n - i) <==> x < Pow256(n)
    {
      PowStep(n - i);
      DivLess(rest, Pow256(n - i - 1));
      LowStep(buf, rest, n - i);
      buf := buf + [rest % 256];
      rest := rest / 256;
      i := i + 1;
    }
    ZeroBytes(rest);
    if rest != 0 {
      buf := AllOnes(buf);
    }
  }

  /** The loop of the overflow case. */
  method AllOnes(buf: seq<byte>) returns (ones: seq<byte>)
    ensures ones == Repeat(0xff, |buf|)
  {
    ones := buf;
    var k := 0;
    while k < |buf|
      invariant 0 <= k <= |buf| == |ones|
      invariant forall j :: 0 <= j < k ==> ones[j] == 0xff
    {
      ones := ones[k := 0xff];
      k := k + 1;
    }
  }

  lemma PowStep(n: nat)
    requires n > 0
    ensures Pow256(n) == 256 * Pow256(n - 1)
  {
  }

  lemma ZeroBytes(x: nat)
    ensures Low(x, 0) == [] && Pow256(0) == 1
  {
  }

  lemma LowStep(buf: seq<byte>, x: nat, n: nat)
    requires n > 0
    ensures buf + Low(x, n) == buf + [x % 256] + Low(x / 256, n - 1)
  {
  }

  lemma DivLess(x: nat, m: nat)
    ensures x / 256 < m <==> x < 256 * m
  {
  }
}
