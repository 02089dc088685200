/** The backward scan for the end record and for the zip64 locator. */
module EndSearch {
  import opened Bytes
  import opened Stream

  const CHUNK: nat := 0x400
  const MAX_BACK: nat := 0xffff

  /** The last occurrence of sig at a position from lo to hi, or 0. */
  function LastIn(b: seq<byte>, sig: seq<byte>, lo: nat, hi: int): (p: nat)
    ensures p != 0 ==> lo <= p <= hi && At(b, p, sig)
    ensures forall q :: lo <= q <= hi && p < q ==> !At(b, q, sig)
    decreases hi - lo + 1
  {
    if hi < lo then 0
    else if At(b, hi, sig) then hi
    else LastIn(b, sig, lo, hi - 1)
  }

  /** What the scan is meant to find: the last occurrence of the signature among
      the last 0xffff bytes of the file, position 0 standing for "none". */
  function LastSignature(b: seq<byte>, sig: seq<byte>): nat
    requires |sig| == 4
  {
    LastIn(b, sig, |b| - Min(|b|, MAX_BACK), |b| - 4)
  }

  /** The position is determined by its two properties. */
  lemma LastInUnique(b: seq<byte>, sig: seq<byte>, lo: nat, hi: int, p: nat)
    requires lo <= p <= hi && At(b, p, sig)
    requires forall q :: p < q <= hi ==> !At(b, q, sig)
    ensures LastIn(b, sig, lo, hi) == p
  {
  }

  /** No occurrence at a nonzero position from lo to hi. */
  ghost predicate NoneIn(b: seq<byte>, sig: seq<byte>, lo: int, hi: int)
  {
    forall q :: lo <= q <= hi && q != 0 ==> !At(b, q, sig)
  }

  /** The backward loop over one chunk: the last occurrence in buf, or -1. */
  method ScanChunk(buf: seq<byte>, sig: seq<byte>) returns (i: int)
    requires |sig| == 4
    ensures -1 <= i && (i >= 0 ==> At(buf, i, sig))
    ensures forall q :: i < q ==> !At(buf, q, sig)
  {
    i := |buf| - 3;
    while i > 0
      invariant i <= |buf| - 3
      invariant forall q :: i <= q ==> !At(buf, q, sig)
    {
      i := i - 1;
      assert buf[i..i + 4] == [buf[i], buf[i + 1], buf[i + 2], buf[i + 3]];
      assert sig == [sig[0], sig[1], sig[2], sig[3]];
      if buf[i] == sig[0] && buf[i + 1] == sig[1] && buf[i + 2] == sig[2] && buf[i + 3] == sig[3] {
        return;
      }
    }
    i := -1;
  }

  lemma ChunkInFile(b: seq<byte>, buf: seq<byte>, sig: seq<byte>, p: nat)
    requires At(b, p, buf)
    ensures forall q :: p <= q <= p + |buf| - |sig| ==> (At(b, q, sig) <==> At(buf, q - p, sig))
  {
    forall q | p <= q <= p + |buf| - |sig|
      ensures At(b, q, sig) <==> At(buf, q - p, sig)
    {
      var k, n := q - p, |sig|;
      assert buf == buf[..k] + (buf[k..k + n] + buf[k + n..]);
      AtConcat(b, p, buf[..k], buf[k..k + n] + buf[k + n..]);
      AtConcat(b, q, buf[k..k + n], buf[k + n..]);
    }
  }

  /** The scan by overlapping chunks of 0x404 bytes finds exactly that position. */
  method SearchSignature(f: File, sig: seq<byte>) returns (found: nat)
    requires |sig| == 4
    modifies f`pos
    ensures found == LastSignature(f.bytes, sig)
  {
    hide At, LastSignature, NoneIn;
    ghost var b := f.bytes;
    f.SeekEnd();
    var size := f.Tell();
    var maxBack := MAX_BACK;
    if maxBack > size {
      maxBack := size;
    }
    found := 0;
    var backRead := 4;
    NothingYet(b, sig);
    while backRead < maxBack
      invariant size == |b| && maxBack == Min(|b|, MAX_BACK)
      invariant 4 <= backRead && (maxBack >= 4 ==> backRead <= maxBack)
      invariant found == 0
      invariant NoneIn(b, sig, if backRead == 4 then size - 3 else size - backRead, size - 4)
      decreases maxBack - backRead
    {
      ghost var seen := if backRead == 4 then size - 3 else size - backRead;
      if backRead + CHUNK > maxBack {
        backRead := maxBack;
      } else {
        backRead := backRead + CHUNK;
      }
      var readPos := size - backRead;
      var readSize := if CHUNK + 4 < size - readPos then CHUNK + 4 else size - readPos;
      f.SeekSet(readPos);
      var buf := f.Read(readSize);
      if |buf| != readSize {
        break;
      }
      var i := ScanChunk(buf, sig);
      ChunkScanned(b, buf, sig, readPos, i, seen);
      if i >= 0 {
        found := readPos + i;
      }
      if found != 0 {
        break;
      }
    }
    if found == 0 {
      NotFound(b, sig, if backRead == 4 then size - 3 else size - backRead);
    }
  }

  lemma NothingYet(b: seq<byte>, sig: seq<byte>)
    ensures NoneIn(b, sig, |b| - 3, |b| - 4)
  {
  }

  /** What one chunk adds to the part already scanned. */
  lemma ChunkScanned(b: seq<byte>, buf: seq<byte>, sig: seq<byte>, p: nat, i: int, seen: int)
    requires |sig| == 4 && p + |buf| <= |b| && buf == b[p..p + |buf|] && -1 <= i
    requires i >= 0 ==> At(buf, i, sig)
    requires forall q :: i < q ==> !At(buf, q, sig)
    requires NoneIn(b, sig, seen, |b| - 4) && seen <= p + |buf| - 3 && |b| - Min(|b|, MAX_BACK) <= p
    ensures i >= 0 && p + i != 0 ==> LastSignature(b, sig) == p + i
    ensures (i < 0 || p + i == 0) ==> NoneIn(b, sig, p, |b| - 4)
  {
    ChunkInFile(b, buf, sig, p);
    if i >= 0 {
      assert At(buf, p + i - p, sig);
      if p + i != 0 {
        LastInUnique(b, sig, |b| - Min(|b|, MAX_BACK), |b| - 4, p + i);
      }
    }
  }

  lemma NotFound(b: seq<byte>, sig: seq<byte>, seen: int)
    requires |sig| == 4 && NoneIn(b, sig, seen, |b| - 4)
    requires seen <= |b| - Min(|b|, MAX_BACK) || |b| <= 4
    ensures LastSignature(b, sig) == 0
  {
  }
}
