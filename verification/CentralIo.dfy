/** The directory record of an entry, built in memory when the entry is opened and
    completed when it is closed. */
module CentralIo {
  import opened Bytes
  import opened Format
  import opened Stream
  import opened Entry

  /** Space reserved behind the record for a zip64 field. */
  const EXTRA_FREE: nat := 32

  function Middle(p: Params): seq<byte>
  {
    p.name + p.extraGlobal + p.comment
  }

  /** One number at p; everything in front of p stays. */
  method Store(header: seq<byte>, p: nat, x: nat, n: nat) returns (r: seq<byte>, next: nat)
    requires p + n <= |header|
    ensures |r| == |header| && next == p + n
    ensures r[..next] == header[..p] + Put(x, n)
    ensures r == Overwrite(header, p, Put(x, n))
  {
    var buf := PutValueInMemory(x, n);
    r, next := Overwrite(header, p, buf), p + n;
    assert r[..p + n] == r[..p] + r[p..p + n];
  }

  /** The next number of a header that is filled from front to back. */
  method StoreNext(header: seq<byte>, p: nat, x: nat, n: nat) returns (r: seq<byte>, next: nat)
    requires p + n <= |header|
    ensures |r| == |header| && next == p + n
    ensures r[..next] == header[..p] + Put(x, n)
  {
    r, next := Store(header, p, x, n);
  }

  lemma CentralBehind(f: CentralFixed)
    ensures EncodeCentral(f) ==
      [] + Put(CENTRAL_MAGIC, 4) + Put(f.made, 2) + Put(f.need, 2) + Put(f.flag, 2) + Put(f.compression, 2)
      + Put(f.dosDate, 4) + Put(f.crc, 4) + Put(f.csize, 4) + Put(f.usize, 4)
      + Put(f.nameLen, 2) + Put(f.extraLen, 2) + Put(f.commentLen, 2) + Put(f.disk, 2)
      + Put(f.internalFa, 2) + Put(f.externalFa, 4) + Put(f.offset, 4)
  {
    hide Put;
    assert [] + Put(CENTRAL_MAGIC, 4) == Put(CENTRAL_MAGIC, 4);
  }

  /** The record that zipOpenNewFileInZip4_64 prepares; the buffer is allocated with
      the reserved space behind it. */
  method BuildCentral(p: Params, pos: nat, base: nat) returns (header: seq<byte>, size: nat)
    requires base <= pos
    ensures size == 46 + |Middle(p)| && |header| == size + EXTRA_FREE
    ensures header[..size] == EncodeCentral(OpenCentral(p, pos, base)) + Middle(p)
  {
    hide Put, Overwrite, EncodeCentral;
    size := 46 + |p.name| + |p.extraGlobal| + |p.comment|;
    header := Repeat(0, size + EXTRA_FREE);
    var i := 0;
    header, i := StoreNext(header, i, CENTRAL_MAGIC, 4);
    header, i := StoreNext(header, i, p.made, 2);
    header, i := StoreNext(header, i, 20, 2);
    header, i := StoreNext(header, i, p.Flag(), 2);
    header, i := StoreNext(header, i, p.compression, 2);
    header, i := StoreNext(header, i, p.dosDate, 4);
    header, i := StoreNext(header, i, 0, 4);
    header, i := StoreNext(header, i, 0, 4);
    header, i := StoreNext(header, i, 0, 4);
    header, i := StoreNext(header, i, |p.name|, 2);
    header, i := StoreNext(header, i, |p.extraGlobal|, 2);
    header, i := StoreNext(header, i, |p.comment|, 2);
    header, i := StoreNext(header, i, 0, 2);
    header, i := StoreNext(header, i, p.internalFa, 2);
    header, i := StoreNext(header, i, p.externalFa, 4);
    header, i := StoreNext(header, i, if pos >= SENTINEL then SENTINEL else pos - base, 4);
    CentralBehind(OpenCentral(p, pos, base));
    header := CopyMiddle(header, i, p);
  }

  /** The three copy loops: name, extra field, comment. */
  method CopyMiddle(header: seq<byte>, start: nat, p: Params) returns (r: seq<byte>)
    requires start + |Middle(p)| <= |header|
    ensures |r| == |header| && r[..start + |Middle(p)|] == header[..start] + Middle(p)
  {
    r := CopyBytes(header, start, p.name);
    r := CopyBytes(r, start + |p.name|, p.extraGlobal);
    r := CopyBytes(r, start + |p.name| + |p.extraGlobal|, p.comment);
    Assoc(header[..start], p.name + p.extraGlobal, p.comment);
    Assoc(header[..start], p.name, p.extraGlobal);
  }

  method CopyBytes(header: seq<byte>, start: nat, s: seq<byte>) returns (r: seq<byte>)
    requires start + |s| <= |header|
    ensures |r| == |header| && r[..start + |s|] == header[..start] + s
  {
    r := header;
    for i := 0 to |s|
      invariant |r| == |header| && r[..start + i] == header[..start] + s[..i]
    {
      r := r[start + i := s[i]];
      assert r[..start + i + 1] == r[..start + i] + [s[i]];
      assert s[..i + 1] == s[..i] + [s[i]];
    }
  }

  lemma PatchInMemory(f: CentralFixed, rest: seq<byte>, off: nat, v: nat, n: nat)
    requires (off in {4, 6, 30} && n == 2) || (off in {16, 20, 24} && n == 4)
    ensures Overwrite(EncodeCentral(f) + rest, off, Put(v, n)) == EncodeCentral(SetCentral(f, off, v)) + rest
  {
    hide Put, Overwrite;
    PatchCentral(f, off, v, n);
    OverwriteInside([], EncodeCentral(f), rest, off, Put(v, n));
    assert [] + EncodeCentral(f) + rest == EncodeCentral(f) + rest;
    assert [] + EncodeCentral(SetCentral(f, off, v)) + rest == EncodeCentral(SetCentral(f, off, v)) + rest;
  }

  /** One patched number of the fixed part. */
  method Patch(header: seq<byte>, off: nat, v: nat, n: nat, ghost f: CentralFixed, ghost rest: seq<byte>)
    returns (r: seq<byte>)
    requires header == EncodeCentral(f) + rest
    requires (off in {4, 6, 30} && n == 2) || (off in {16, 20, 24} && n == 4)
    ensures r == EncodeCentral(SetCentral(f, off, v)) + rest
  {
    PatchInMemory(f, rest, off, v, n);
    var stored, _ := Store(header, off, v, n);
    r := stored;
  }

  /** The completion of the record in zipCloseFileInZipRaw64. */
  method CompleteCentral(header0: seq<byte>, size0: nat, extraSize: nat, pos: nat, crc: nat, csize: nat, usize: nat,
                         ghost e: Entry, ghost base: nat)
    returns (header: seq<byte>, size: nat)
    requires base <= pos && e == Entry(pos, e.p, e.payload, crc, usize) && csize == e.Csize()
    requires size0 == 46 + |Middle(e.p)| && |header0| == size0 + EXTRA_FREE && extraSize == |e.p.extraGlobal|
    requires header0[..size0] == EncodeCentral(OpenCentral(e.p, pos, base)) + Middle(e.p)
    ensures size <= |header| && header[..size] == CentralBytes(e, base)
  {
    hide Put, Overwrite, EncodeCentral, CentralZip64, Middle;
    ghost var f := OpenCentral(e.p, pos, base);
    ghost var rest := Middle(e.p) + header0[size0..];
    header := header0;
    assert header == EncodeCentral(f) + rest by {
      Assoc(EncodeCentral(f), Middle(e.p), header0[size0..]);
    }
    if csize >= SENTINEL || usize >= SENTINEL || pos >= SENTINEL {
      header := Patch(header, 4, 45, 2, f, rest);
      f := SetCentral(f, 4, 45);
      header := Patch(header, 6, 45, 2, f, rest);
      f := SetCentral(f, 6, 45);
    }
    header := Patch(header, 16, crc, 4, f, rest);
    f := SetCentral(f, 16, crc);
    header := Patch(header, 20, if csize >= SENTINEL then SENTINEL else csize, 4, f, rest);
    f := SetCentral(f, 20, Min(csize, SENTINEL));
    header := Patch(header, 24, if usize >= SENTINEL then SENTINEL else usize, 4, f, rest);
    f := SetCentral(f, 24, Min(usize, SENTINEL));
    size := size0;
    assert header[..size0] == EncodeCentral(f) + Middle(e.p);
    header, size := StoreZip64(header, size0, pos, csize, usize, e);
    assert header[..size] == EncodeCentral(f) + Middle(e.p) + CentralZip64(e);
    if size > size0 {
      ghost var tail := Middle(e.p) + CentralZip64(e);
      Assoc(EncodeCentral(f), Middle(e.p), CentralZip64(e));
      ghost var rest' := Behind(header, EncodeCentral(f), tail, size);
      header := Patch(header, 30, extraSize + (size - size0), 2, f, rest');
      f := SetCentral(f, 30, extraSize + (size - size0));
      InFront(EncodeCentral(f), rest', tail, size);
      Assoc(EncodeCentral(f), Middle(e.p), CentralZip64(e));
    }
    assert f == CentralHeader(e, base);
    CentralForm(e, base);
  }

  ghost function Behind(x: seq<byte>, a: seq<byte>, t: seq<byte>, n: nat): (r: seq<byte>)
    requires n <= |x| && x[..n] == a + t
    ensures x == a + r && |t| <= |r| && r[..|t|] == t && |a| + |t| == n
  {
    assert x == x[..n] + x[n..];
    Assoc(a, t, x[n..]);
    t + x[n..]
  }

  lemma InFront(a: seq<byte>, r: seq<byte>, t: seq<byte>, n: nat)
    requires |t| <= |r| && r[..|t|] == t && n == |a| + |t|
    ensures (a + r)[..n] == a + t
  {
  }

  lemma CentralForm(e: Entry, base: nat)
    ensures CentralBytes(e, base) == EncodeCentral(CentralHeader(e, base)) + Middle(e.p) + CentralZip64(e)
  {
  }

  /** The zip64 field, in the reserved space. Its 28 bytes always fit. */
  method StoreZip64(header0: seq<byte>, size0: nat, pos: nat, csize: nat, usize: nat, ghost e: Entry)
    returns (header: seq<byte>, size: nat)
    requires |header0| == size0 + EXTRA_FREE
    requires pos == e.pos && csize == e.Csize() && usize == e.usize
    ensures |header| == |header0| && size == size0 + |CentralZip64(e)| <= |header|
    ensures header[..size] == header0[..size0] + CentralZip64(e)
    ensures |CentralZip64(e)| == 0 || |CentralZip64(e)| > 4
  {
    hide Put, Overwrite, CentralZip64;
    var datasize := 0;
    if usize >= SENTINEL {
      datasize := datasize + 8;
    }
    if csize >= SENTINEL {
      datasize := datasize + 8;
    }
    if pos >= SENTINEL {
      datasize := datasize + 8;
    }
    Zip64Form(e, header0[..size0]);
    header, size := header0, size0;
    if datasize > 0 {
      header, size := StoreNext(header, size, 1, 2);
      header, size := StoreNext(header, size, datasize, 2);
      header, size := StoreBig(header, size, usize);
      header, size := StoreBig(header, size, csize);
      header, size := StoreBig(header, size, pos);
    }
  }

  method StoreBig(header: seq<byte>, p: nat, x: nat) returns (r: seq<byte>, next: nat)
    requires p + |BigField(x)| <= |header|
    ensures |r| == |header| && next == p + |BigField(x)|
    ensures r[..next] == header[..p] + BigField(x)
  {
    r, next := header, p;
    if x >= SENTINEL {
      r, next := StoreNext(header, p, x, 8);
    }
  }

  lemma Zip64Form(e: Entry, a: seq<byte>)
    ensures e.Big() ==>
      (a + CentralZip64(e) ==
       a + Put(1, 2) + Put(|BigField(e.usize)| + |BigField(e.Csize())| + |BigField(e.pos)|, 2)
       + BigField(e.usize) + BigField(e.Csize()) + BigField(e.pos))
    ensures e.Big() ==> |CentralZip64(e)| == 4 + |BigField(e.usize)| + |BigField(e.Csize())| + |BigField(e.pos)|
    ensures !e.Big() ==> CentralZip64(e) == [] && a + CentralZip64(e) == a
  {
  }
}
