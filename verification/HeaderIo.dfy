/** The pieces of zip.c that put headers together: writing a record field by field,
    and patching it when the sizes are known. */
module HeaderIo {
  import opened Bytes
  import opened Format
  import opened Stream
  import opened Entry

  /** Behind the writing position the file still holds its original bytes. */
  ghost predicate Tail(b: seq<byte>, p: nat, original: seq<byte>)
  {
    p <= |b| && b[p..] == original[Min(p, |original|)..]
  }

  lemma TailOverwrite(b: seq<byte>, p: nat, original: seq<byte>, s: seq<byte>)
    requires Tail(b, p, original)
    ensures Tail(Overwrite(b, p, s), p + |s|, original)
    ensures Overwrite(b, p, s)[..p + |s|] == b[..p] + s
  {
  }

  method Emit(f: File, s: seq<byte>, ghost original: seq<byte>)
    requires Tail(f.bytes, f.pos, original)
    modifies f
    ensures Tail(f.bytes, f.pos, original)
    ensures f.pos == old(f.pos) + |s|
    ensures f.bytes[..f.pos] == old(f.bytes[..f.pos]) + s
  {
    TailOverwrite(f.bytes, f.pos, original, s);
    f.Write(s);
  }

  method EmitValue(f: File, x: nat, n: nat, ghost original: seq<byte>)
    requires Tail(f.bytes, f.pos, original)
    modifies f
    ensures Tail(f.bytes, f.pos, original)
    ensures f.pos == old(f.pos) + n
    ensures f.bytes[..f.pos] == old(f.bytes[..f.pos]) + Put(x, n)
  {
    TailOverwrite(f.bytes, f.pos, original, Put(x, n));
    f.PutValue(x, n);
  }

  /** A record behind a prefix is its fields behind that prefix. */
  lemma LocalBehind(a: seq<byte>, f: LocalFixed)
    ensures a + EncodeLocal(f) ==
      a + Put(LOCAL_MAGIC, 4) + Put(f.need, 2) + Put(f.flag, 2) + Put(f.compression, 2) + Put(f.dosDate, 4)
      + Put(f.crc, 4) + Put(f.csize, 4) + Put(f.usize, 4) + Put(f.nameLen, 2) + Put(f.extraLen, 2)
  {
    hide Put;
    var x1 := Put(LOCAL_MAGIC, 4);
    var x2 := x1 + Put(f.need, 2);
    var x3 := x2 + Put(f.flag, 2);
    var x4 := x3 + Put(f.compression, 2);
    var x5 := x4 + Put(f.dosDate, 4);
    var x6 := x5 + Put(f.crc, 4);
    var x7 := x6 + Put(f.csize, 4);
    var x8 := x7 + Put(f.usize, 4);
    var x9 := x8 + Put(f.nameLen, 2);
    Assoc(a, x9, Put(f.extraLen, 2));
    Assoc(a, x8, Put(f.nameLen, 2));
    Assoc(a, x7, Put(f.usize, 4));
    Assoc(a, x6, Put(f.csize, 4));
    Assoc(a, x5, Put(f.crc, 4));
    Assoc(a, x4, Put(f.dosDate, 4));
    Assoc(a, x3, Put(f.compression, 2));
    Assoc(a, x2, Put(f.flag, 2));
    Assoc(a, x1, Put(f.need, 2));
  }

  lemma EndBehind(a: seq<byte>, f: EndFixed)
    ensures a + EncodeEnd(f) ==
      a + Put(END_MAGIC, 4) + Put(f.disk, 2) + Put(f.diskCd, 2) + Put(f.here, 2) + Put(f.total, 2)
      + Put(f.size, 4) + Put(f.offset, 4) + Put(f.commentLen, 2)
  {
    hide Put;
    var x1 := Put(END_MAGIC, 4);
    var x2 := x1 + Put(f.disk, 2);
    var x3 := x2 + Put(f.diskCd, 2);
    var x4 := x3 + Put(f.here, 2);
    var x5 := x4 + Put(f.total, 2);
    var x6 := x5 + Put(f.size, 4);
    var x7 := x6 + Put(f.offset, 4);
    Assoc(a, x7, Put(f.commentLen, 2));
    Assoc(a, x6, Put(f.offset, 4));
    Assoc(a, x5, Put(f.size, 4));
    Assoc(a, x4, Put(f.total, 2));
    Assoc(a, x3, Put(f.here, 2));
    Assoc(a, x2, Put(f.diskCd, 2));
    Assoc(a, x1, Put(f.disk, 2));
  }

  lemma Zip64EndBehind(a: seq<byte>, f: Zip64End)
    ensures a + EncodeZip64End(f) ==
      a + Put(ZIP64_END_MAGIC, 4) + Put(44, 8) + Put(45, 2) + Put(45, 2) + Put(f.disk, 4) + Put(f.diskCd, 4)
      + Put(f.here, 8) + Put(f.total, 8) + Put(f.size, 8) + Put(f.offset, 8)
  {
    hide Put;
    var x1 := Put(ZIP64_END_MAGIC, 4);
    var x2 := x1 + Put(44, 8);
    var x3 := x2 + Put(45, 2);
    var x4 := x3 + Put(45, 2);
    var x5 := x4 + Put(f.disk, 4);
    var x6 := x5 + Put(f.diskCd, 4);
    var x7 := x6 + Put(f.here, 8);
    var x8 := x7 + Put(f.total, 8);
    var x9 := x8 + Put(f.size, 8);
    Assoc(a, x9, Put(f.offset, 8));
    Assoc(a, x8, Put(f.size, 8));
    Assoc(a, x7, Put(f.total, 8));
    Assoc(a, x6, Put(f.here, 8));
    Assoc(a, x5, Put(f.diskCd, 4));
    Assoc(a, x4, Put(f.disk, 4));
    Assoc(a, x3, Put(45, 2));
    Assoc(a, x2, Put(45, 2));
    Assoc(a, x1, Put(44, 8));
  }

  lemma LocatorBehind(a: seq<byte>, offset: nat)
    ensures a + EncodeLocator(offset) == a + Put(LOCATOR_MAGIC, 4) + Put(0, 4) + Put(offset, 8) + Put(1, 4)
  {
  }

  // ------------------------------------------------------------ end of archive

  /** Write_EndOfCentralDirectoryRecord and Write_GlobalComment: counts and offset are
      capped, the directory size is a 32-bit number. */
  method WriteEnd(f: File, count: nat, size: nat, offset: nat, comment: seq<byte>, ghost original: seq<byte>)
    requires Tail(f.bytes, f.pos, original) && size < U32
    modifies f
    ensures Tail(f.bytes, f.pos, original)
    ensures f.bytes[..f.pos] == old(f.bytes[..f.pos])
      + EncodeEnd(EndFixed(0, 0, Min(count, 0xffff), Min(count, 0xffff), size, Min(offset, SENTINEL), |comment|))
      + comment
  {
    hide Put;
    ghost var a := f.bytes[..f.pos];
    EmitValue(f, END_MAGIC, 4, original);
    EmitValue(f, 0, 2, original);
    EmitValue(f, 0, 2, original);
    EmitValue(f, if count >= 0xffff then 0xffff else count, 2, original);
    EmitValue(f, if count >= 0xffff then 0xffff else count, 2, original);
    EmitValue(f, size, 4, original);
    EmitValue(f, if offset >= SENTINEL then SENTINEL else offset, 4, original);
    EmitValue(f, |comment|, 2, original);
    EndBehind(a, EndFixed(0, 0, Min(count, 0xffff), Min(count, 0xffff), size, Min(offset, SENTINEL), |comment|));
    if |comment| > 0 {
      Emit(f, comment, original);
    }
  }

  /** Write_Zip64EndOfCentralDirectoryRecord and Write_Zip64EndOfCentralDirectoryLocator. */
  method WriteZip64End(f: File, count: nat, size: nat, offset: nat, base: nat, ghost original: seq<byte>)
    requires Tail(f.bytes, f.pos, original) && base <= f.pos
    modifies f
    ensures Tail(f.bytes, f.pos, original)
    ensures f.bytes[..f.pos] == old(f.bytes[..f.pos])
      + EncodeZip64End(Zip64End(0, 0, count, count, size, offset)) + EncodeLocator(old(f.pos) - base)
  {
    hide Put;
    ghost var a := f.bytes[..f.pos];
    var at := f.Tell();
    EmitValue(f, ZIP64_END_MAGIC, 4, original);
    EmitValue(f, 44, 8, original);
    EmitValue(f, 45, 2, original);
    EmitValue(f, 45, 2, original);
    EmitValue(f, 0, 4, original);
    EmitValue(f, 0, 4, original);
    EmitValue(f, count, 8, original);
    EmitValue(f, count, 8, original);
    EmitValue(f, size, 8, original);
    EmitValue(f, offset, 8, original);
    Zip64EndBehind(a, Zip64End(0, 0, count, count, size, offset));
    assert f.bytes[..f.pos] == a + EncodeZip64End(Zip64End(0, 0, count, count, size, offset));
    ghost var c := f.bytes[..f.pos];
    EmitValue(f, LOCATOR_MAGIC, 4, original);
    EmitValue(f, 0, 4, original);
    EmitValue(f, at - base, 8, original);
    EmitValue(f, 1, 4, original);
    LocatorBehind(c, at - base);
  }

  // -------------------------------------------------------------- local header

  /** Write_LocalFileHeader; returns where the zip64 field went (0 without one). */
  method WriteLocalHeader(f: File, p: Params, ghost original: seq<byte>) returns (posZip64: nat)
    requires Tail(f.bytes, f.pos, original)
    modifies f
    ensures Tail(f.bytes, f.pos, original)
    ensures f.pos == old(f.pos) + LocalLength(p)
    ensures f.bytes[..f.pos] == old(f.bytes[..f.pos]) + OpenLocal(p)
    ensures posZip64 == if p.zip64 then old(f.pos) + 30 + |p.name| + |p.extraLocal| else 0
  {
    hide Put;
    ghost var a := f.bytes[..f.pos];
    var unknown := if p.zip64 then SENTINEL else 0;
    var extra := |p.extraLocal|;
    EmitValue(f, LOCAL_MAGIC, 4, original);
    if p.zip64 {
      EmitValue(f, 45, 2, original);
    } else {
      EmitValue(f, 20, 2, original);
    }
    EmitValue(f, p.Flag(), 2, original);
    EmitValue(f, p.compression, 2, original);
    EmitValue(f, p.dosDate, 4, original);
    EmitValue(f, 0, 4, original);
    EmitValue(f, unknown, 4, original);
    EmitValue(f, unknown, 4, original);
    EmitValue(f, |p.name|, 2, original);
    if p.zip64 {
      extra := extra + 20;
    }
    EmitValue(f, extra, 2, original);
    ghost var h := LocalHeader(p, 0, unknown, unknown);
    LocalBehind(a, h);
    assert f.bytes[..f.pos] == a + EncodeLocal(h);
    posZip64 := WriteLocalTail(f, p, original);
    Assoc(a, EncodeLocal(h), LocalTail(p, 0, 0));
  }

  lemma LocalTailBehind(a: seq<byte>, p: Params)
    requires p.zip64
    ensures a + LocalTail(p, 0, 0) == a + p.name + p.extraLocal + Put(1, 2) + Put(16, 2) + Put(0, 8) + Put(0, 8)
  {
  }

  method WriteLocalTail(f: File, p: Params, ghost original: seq<byte>) returns (posZip64: nat)
    requires Tail(f.bytes, f.pos, original)
    modifies f
    ensures Tail(f.bytes, f.pos, original)
    ensures f.pos == old(f.pos) + |LocalTail(p, 0, 0)|
    ensures f.bytes[..f.pos] == old(f.bytes[..f.pos]) + LocalTail(p, 0, 0)
    ensures posZip64 == if p.zip64 then old(f.pos) + |p.name| + |p.extraLocal| else 0
  {
    hide Put;
    ghost var a := f.bytes[..f.pos];
    if |p.name| > 0 {
      Emit(f, p.name, original);
    }
    if |p.extraLocal| > 0 {
      Emit(f, p.extraLocal, original);
    }
    assert f.bytes[..f.pos] == a + p.name + p.extraLocal;
    posZip64 := 0;
    if p.zip64 {
      posZip64 := f.Tell();
      EmitValue(f, 1, 2, original);
      EmitValue(f, 16, 2, original);
      EmitValue(f, 0, 8, original);
      EmitValue(f, 0, 8, original);
      LocalTailBehind(a, p);
    } else {
      assert LocalTail(p, 0, 0) == p.name + p.extraLocal;
      Assoc(a, p.name, p.extraLocal);
    }
  }

  /** Patching one number of the fixed part, in place in the file. */
  lemma PatchInFile(a: seq<byte>, f: LocalFixed, z: seq<byte>, off: nat, v: nat)
    requires off == 14 || off == 18 || off == 22
    ensures Overwrite(a + EncodeLocal(f) + z, |a| + off, Put(v, 4)) == a + EncodeLocal(SetLocal(f, off, v)) + z
  {
    hide Put;
    OverwriteInside(a, EncodeLocal(f), z, off, Put(v, 4));
    PatchLocal(f, off, v);
  }

  /** The update of the local header in zipCloseFileInZipRaw64. The file is a, the
      header of the entry, and z. */
  method UpdateLocalHeader(f: File, posLocal: nat, posZip64: nat, crc: nat, csize: nat, usize: nat,
                           ghost a: seq<byte>, ghost p: Params, ghost z: seq<byte>, ghost e: Entry)
    requires f.bytes == a + OpenLocal(p) + z && posLocal == |a|
    requires posZip64 == if p.zip64 then posLocal + 30 + |p.name| + |p.extraLocal| else 0
    requires e.p == p && e.crc == crc && e.usize == usize && e.Csize() == csize
    modifies f
    ensures f.bytes == a + LocalBytes(e) + z && f.pos == old(f.pos)
  {
    hide Put, Overwrite, EncodeLocal;
    var cur := f.Tell();
    ghost var unknown := if p.zip64 then SENTINEL else 0;
    ghost var h := LocalHeader(p, 0, unknown, unknown);
    ghost var t := LocalTail(p, 0, 0);
    ghost var tz := t + z;
    Regroup(a, EncodeLocal(h), t, z);
    PatchInFile(a, h, tz, 14, crc);
    f.SeekSet(posLocal + 14);
    f.PutValue(crc, 4);
    h := h.(crc := crc);
    if usize >= SENTINEL {
      if posZip64 > 0 {
        Assoc(a + EncodeLocal(h), t, z);
        UpdateLocalZip64(f, posZip64, csize, usize, a + EncodeLocal(h), p, z);
        Regroup(a, EncodeLocal(h), LocalTail(p, usize, csize), z);
        Assoc(a + EncodeLocal(h), LocalTail(p, usize, csize), z);
      } else {
        Regroup(a, EncodeLocal(h), t, z);
      }
    } else {
      PatchInFile(a, h, tz, 18, csize);
      f.PutValue(csize, 4);
      h := h.(csize := csize);
      PatchInFile(a, h, tz, 22, usize);
      f.PutValue(usize, 4);
      h := h.(usize := usize);
      Regroup(a, EncodeLocal(h), t, z);
    }
    f.SeekSet(cur);
  }

  /** A file with name, extra data, a zip64 field of two numbers u and c, and z. */
  function WithZip64(a: seq<byte>, p: Params, u: seq<byte>, c: seq<byte>, z: seq<byte>): seq<byte>
  {
    a + (p.name + p.extraLocal + (Put(1, 2) + Put(16, 2) + u + c)) + z
  }

  lemma PatchFirst(a: seq<byte>, p: Params, u: seq<byte>, c: seq<byte>, z: seq<byte>, v: seq<byte>)
    requires |u| == |v|
    ensures Overwrite(WithZip64(a, p, u, c, z), |a| + |p.name| + |p.extraLocal| + 4, v) == WithZip64(a, p, v, c, z)
  {
    hide Put, Overwrite;
    var front := a + (p.name + p.extraLocal + (Put(1, 2) + Put(16, 2)));
    Zip64Parts(a, p, u, c, z);
    Zip64Parts(a, p, v, c, z);
    Assoc(front, u, c);
    Assoc(front + u, c, z);
    Assoc(front + v, c, z);
    OverwritePart(front, u, c + z, v);
  }

  lemma Zip64Parts(a: seq<byte>, p: Params, u: seq<byte>, c: seq<byte>, z: seq<byte>)
    ensures WithZip64(a, p, u, c, z) == a + (p.name + p.extraLocal + (Put(1, 2) + Put(16, 2))) + u + c + z
  {
    hide Put;
    var h, m := Put(1, 2) + Put(16, 2), p.name + p.extraLocal;
    Assoc(m, h + u, c);
    Assoc(m, h, u);
    Assoc(a, m + h + u, c);
    Assoc(a, m + h, u);
  }

  lemma PatchSecond(a: seq<byte>, p: Params, u: seq<byte>, c: seq<byte>, z: seq<byte>, v: seq<byte>)
    requires |u| == 8 && |c| == |v|
    ensures Overwrite(WithZip64(a, p, u, c, z), |a| + |p.name| + |p.extraLocal| + 12, v) == WithZip64(a, p, u, v, z)
  {
    hide Put, Overwrite;
    Zip64Parts(a, p, u, c, z);
    Zip64Parts(a, p, u, v, z);
    OverwritePart(a + (p.name + p.extraLocal + (Put(1, 2) + Put(16, 2))) + u, c, z, v);
  }

  lemma TailForm(a: seq<byte>, p: Params, usize: nat, csize: nat, z: seq<byte>)
    requires p.zip64
    ensures a + LocalTail(p, usize, csize) + z == WithZip64(a, p, Put(usize, 8), Put(csize, 8), z)
  {
  }

  method UpdateLocalZip64(f: File, posZip64: nat, csize: nat, usize: nat,
                          ghost a: seq<byte>, ghost p: Params, ghost z: seq<byte>)
    requires p.zip64 && f.bytes == a + LocalTail(p, 0, 0) + z
    requires posZip64 == |a| + |p.name| + |p.extraLocal|
    modifies f
    ensures f.bytes == a + LocalTail(p, usize, csize) + z
  {
    hide Put, Overwrite, WithZip64, LocalTail;
    TailForm(a, p, 0, 0, z);
    TailForm(a, p, usize, csize, z);
    f.SeekSet(posZip64 + 4);
    PatchFirst(a, p, Put(0, 8), Put(0, 8), z, Put(usize, 8));
    f.PutValue(usize, 8);
    PatchSecond(a, p, Put(usize, 8), Put(0, 8), z, Put(csize, 8));
    f.PutValue(csize, 8);
  }
}
