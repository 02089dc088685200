/** The records of a zip archive (sections 4.3.7, 4.3.12 and 4.3.14 to 4.3.16 of
    APPNOTE.TXT): the fixed part of each record as the writer lays it out, and the
    field positions at which the reader looks. */
module Format {
  import opened Bytes

  const LOCAL_MAGIC: nat := 0x0403_4b50
  const CENTRAL_MAGIC: nat := 0x0201_4b50
  const END_MAGIC: nat := 0x0605_4b50
  const ZIP64_END_MAGIC: nat := 0x0606_4b50
  const LOCATOR_MAGIC: nat := 0x0706_4b50

  const Z_DEFLATED: nat := 8
  const Z_BZIP2ED: nat := 12

  datatype CentralFixed = CentralFixed(
    made: nat, need: nat, flag: nat, compression: nat, dosDate: nat, crc: nat, csize: nat, usize: nat,
    nameLen: nat, extraLen: nat, commentLen: nat, disk: nat, internalFa: nat, externalFa: nat, offset: nat)
  {
    ghost predicate InRange() {
      && made < 0x1_0000 && need < 0x1_0000 && flag < 0x1_0000 && compression < 0x1_0000
      && dosDate < U32 && crc < U32 && csize < U32 && usize < U32
      && nameLen < 0x1_0000 && extraLen < 0x1_0000 && commentLen < 0x1_0000
      && disk < 0x1_0000 && internalFa < 0x1_0000 && externalFa < U32 && offset < U32
    }
  }

  datatype LocalFixed = LocalFixed(
    need: nat, flag: nat, compression: nat, dosDate: nat, crc: nat, csize: nat, usize: nat,
    nameLen: nat, extraLen: nat)
  {
    ghost predicate InRange() {
      && need < 0x1_0000 && flag < 0x1_0000 && compression < 0x1_0000 && dosDate < U32
      && crc < U32 && csize < U32 && usize < U32 && nameLen < 0x1_0000 && extraLen < 0x1_0000
    }
  }

  datatype EndFixed = EndFixed(disk: nat, diskCd: nat, here: nat, total: nat, size: nat, offset: nat, commentLen: nat)
  {
    ghost predicate InRange() {
      && disk < 0x1_0000 && diskCd < 0x1_0000 && here < 0x1_0000 && total < 0x1_0000
      && size < U32 && offset < U32 && commentLen < 0x1_0000
    }
  }

  datatype Zip64End = Zip64End(disk: nat, diskCd: nat, here: nat, total: nat, size: nat, offset: nat)
  {
    ghost predicate InRange() {
      && disk < U32 && diskCd < U32 && here < U64 && total < U64 && size < U64 && offset < U64
    }
  }

  // ------------------------------------------------------------------ central

  function EncodeCentral(f: CentralFixed): (s: seq<byte>)
    ensures |s| == 46
  {
    Put(CENTRAL_MAGIC, 4) + Put(f.made, 2) + Put(f.need, 2) + Put(f.flag, 2) + Put(f.compression, 2)
    + Put(f.dosDate, 4) + Put(f.crc, 4) + Put(f.csize, 4) + Put(f.usize, 4)
    + Put(f.nameLen, 2) + Put(f.extraLen, 2) + Put(f.commentLen, 2) + Put(f.disk, 2)
    + Put(f.internalFa, 2) + Put(f.externalFa, 4) + Put(f.offset, 4)
  }

  function DecodeCentral(b: seq<byte>, p: nat): CentralFixed
    requires p + 46 <= |b|
  {
    CentralFixed(
      Num(b, p + 4, 2), Num(b, p + 6, 2), Num(b, p + 8, 2), Num(b, p + 10, 2),
      Num(b, p + 12, 4), Num(b, p + 16, 4), Num(b, p + 20, 4), Num(b, p + 24, 4),
      Num(b, p + 28, 2), Num(b, p + 30, 2), Num(b, p + 32, 2), Num(b, p + 34, 2),
      Num(b, p + 36, 2), Num(b, p + 38, 4), Num(b, p + 42, 4))
  }

  /** The fields of f, each in its place. */
  ghost predicate CentralAt(b: seq<byte>, p: int, f: CentralFixed)
  {
    && At(b, p, Put(CENTRAL_MAGIC, 4)) && At(b, p + 4, Put(f.made, 2)) && At(b, p + 6, Put(f.need, 2))
    && At(b, p + 8, Put(f.flag, 2)) && At(b, p + 10, Put(f.compression, 2)) && At(b, p + 12, Put(f.dosDate, 4))
    && At(b, p + 16, Put(f.crc, 4)) && At(b, p + 20, Put(f.csize, 4)) && At(b, p + 24, Put(f.usize, 4))
    && At(b, p + 28, Put(f.nameLen, 2)) && At(b, p + 30, Put(f.extraLen, 2)) && At(b, p + 32, Put(f.commentLen, 2))
    && At(b, p + 34, Put(f.disk, 2)) && At(b, p + 36, Put(f.internalFa, 2)) && At(b, p + 38, Put(f.externalFa, 4))
    && At(b, p + 42, Put(f.offset, 4))
  }

  lemma CentralFields(b: seq<byte>, p: int, f: CentralFixed)
    ensures At(b, p, EncodeCentral(f)) <==> CentralAt(b, p, f)
  {
    var x1 := Put(CENTRAL_MAGIC, 4);
    var x2 := x1 + Put(f.made, 2);
    var x3 := x2 + Put(f.need, 2);
    var x4 := x3 + Put(f.flag, 2);
    var x5 := x4 + Put(f.compression, 2);
    var x6 := x5 + Put(f.dosDate, 4);
    var x7 := x6 + Put(f.crc, 4);
    var x8 := x7 + Put(f.csize, 4);
    var x9 := x8 + Put(f.usize, 4);
    var x10 := x9 + Put(f.nameLen, 2);
    var x11 := x10 + Put(f.extraLen, 2);
    var x12 := x11 + Put(f.commentLen, 2);
    var x13 := x12 + Put(f.disk, 2);
    var x14 := x13 + Put(f.internalFa, 2);
    var x15 := x14 + Put(f.externalFa, 4);
    AtConcat(b, p, x1, Put(f.made, 2));
    AtConcat(b, p, x2, Put(f.need, 2));
    AtConcat(b, p, x3, Put(f.flag, 2));
    AtConcat(b, p, x4, Put(f.compression, 2));
    AtConcat(b, p, x5, Put(f.dosDate, 4));
    AtConcat(b, p, x6, Put(f.crc, 4));
    AtConcat(b, p, x7, Put(f.csize, 4));
    AtConcat(b, p, x8, Put(f.usize, 4));
    AtConcat(b, p, x9, Put(f.nameLen, 2));
    AtConcat(b, p, x10, Put(f.extraLen, 2));
    AtConcat(b, p, x11, Put(f.commentLen, 2));
    AtConcat(b, p, x12, Put(f.disk, 2));
    AtConcat(b, p, x13, Put(f.internalFa, 2));
    AtConcat(b, p, x14, Put(f.externalFa, 4));
    AtConcat(b, p, x15, Put(f.offset, 4));
  }

  lemma NumAt(b: seq<byte>, p: nat, x: nat, n: nat)
    requires At(b, p, Put(x, n)) && x < Pow256(n)
    ensures p + n <= |b| && Num(b, p, n) == x
  {
    GetPut(x, n);
  }

  /** The reader finds in a central record the values the writer stored. */
  lemma CentralRoundTrip(b: seq<byte>, p: nat, f: CentralFixed)
    requires At(b, p, EncodeCentral(f)) && f.InRange()
    ensures p + 46 <= |b| && Num(b, p, 4) == CENTRAL_MAGIC && DecodeCentral(b, p) == f
  {
    Pow256Values();
    CentralFields(b, p, f);
    NumAt(b, p, CENTRAL_MAGIC, 4);
    NumAt(b, p + 4, f.made, 2);
    NumAt(b, p + 6, f.need, 2);
    NumAt(b, p + 8, f.flag, 2);
    NumAt(b, p + 10, f.compression, 2);
    NumAt(b, p + 12, f.dosDate, 4);
    NumAt(b, p + 16, f.crc, 4);
    NumAt(b, p + 20, f.csize, 4);
    NumAt(b, p + 24, f.usize, 4);
    NumAt(b, p + 28, f.nameLen, 2);
    NumAt(b, p + 30, f.extraLen, 2);
    NumAt(b, p + 32, f.commentLen, 2);
    NumAt(b, p + 34, f.disk, 2);
    NumAt(b, p + 36, f.internalFa, 2);
    NumAt(b, p + 38, f.externalFa, 4);
    NumAt(b, p + 42, f.offset, 4);
  }

  // -------------------------------------------------------------------- local

  function EncodeLocal(f: LocalFixed): (s: seq<byte>)
    ensures |s| == 30
  {
    Put(LOCAL_MAGIC, 4) + Put(f.need, 2) + Put(f.flag, 2) + Put(f.compression, 2) + Put(f.dosDate, 4)
    + Put(f.crc, 4) + Put(f.csize, 4) + Put(f.usize, 4) + Put(f.nameLen, 2) + Put(f.extraLen, 2)
  }

  function DecodeLocal(b: seq<byte>, p: nat): LocalFixed
    requires p + 30 <= |b|
  {
    LocalFixed(
      Num(b, p + 4, 2), Num(b, p + 6, 2), Num(b, p + 8, 2), Num(b, p + 10, 4),
      Num(b, p + 14, 4), Num(b, p + 18, 4), Num(b, p + 22, 4), Num(b, p + 26, 2), Num(b, p + 28, 2))
  }

  ghost predicate LocalAt(b: seq<byte>, p: int, f: LocalFixed)
  {
    && At(b, p, Put(LOCAL_MAGIC, 4)) && At(b, p + 4, Put(f.need, 2)) && At(b, p + 6, Put(f.flag, 2))
    && At(b, p + 8, Put(f.compression, 2)) && At(b, p + 10, Put(f.dosDate, 4)) && At(b, p + 14, Put(f.crc, 4))
    && At(b, p + 18, Put(f.csize, 4)) && At(b, p + 22, Put(f.usize, 4)) && At(b, p + 26, Put(f.nameLen, 2))
    && At(b, p + 28, Put(f.extraLen, 2))
  }

  lemma LocalFields(b: seq<byte>, p: int, f: LocalFixed)
    ensures At(b, p, EncodeLocal(f)) <==> LocalAt(b, p, f)
  {
    var x1 := Put(LOCAL_MAGIC, 4);
    var x2 := x1 + Put(f.need, 2);
    var x3 := x2 + Put(f.flag, 2);
    var x4 := x3 + Put(f.compression, 2);
    var x5 := x4 + Put(f.dosDate, 4);
    var x6 := x5 + Put(f.crc, 4);
    var x7 := x6 + Put(f.csize, 4);
    var x8 := x7 + Put(f.usize, 4);
    var x9 := x8 + Put(f.nameLen, 2);
    AtConcat(b, p, x1, Put(f.need, 2));
    AtConcat(b, p, x2, Put(f.flag, 2));
    AtConcat(b, p, x3, Put(f.compression, 2));
    AtConcat(b, p, x4, Put(f.dosDate, 4));
    AtConcat(b, p, x5, Put(f.crc, 4));
    AtConcat(b, p, x6, Put(f.csize, 4));
    AtConcat(b, p, x7, Put(f.usize, 4));
    AtConcat(b, p, x8, Put(f.nameLen, 2));
    AtConcat(b, p, x9, Put(f.extraLen, 2));
  }

  lemma LocalRoundTrip(b: seq<byte>, p: nat, f: LocalFixed)
    requires At(b, p, EncodeLocal(f)) && f.InRange()
    ensures p + 30 <= |b| && Num(b, p, 4) == LOCAL_MAGIC && DecodeLocal(b, p) == f
  {
    Pow256Values();
    LocalFields(b, p, f);
    NumAt(b, p, LOCAL_MAGIC, 4);
    NumAt(b, p + 4, f.need, 2);
    NumAt(b, p + 6, f.flag, 2);
    NumAt(b, p + 8, f.compression, 2);
    NumAt(b, p + 10, f.dosDate, 4);
    NumAt(b, p + 14, f.crc, 4);
    NumAt(b, p + 18, f.csize, 4);
    NumAt(b, p + 22, f.usize, 4);
    NumAt(b, p + 26, f.nameLen, 2);
    NumAt(b, p + 28, f.extraLen, 2);
  }

  // -------------------------------------------------------------- end records

  function EncodeEnd(f: EndFixed): (s: seq<byte>)
    ensures |s| == 22
  {
    Put(END_MAGIC, 4) + Put(f.disk, 2) + Put(f.diskCd, 2) + Put(f.here, 2) + Put(f.total, 2)
    + Put(f.size, 4) + Put(f.offset, 4) + Put(f.commentLen, 2)
  }

  function DecodeEnd(b: seq<byte>, p: nat): EndFixed
    requires p + 22 <= |b|
  {
    EndFixed(Num(b, p + 4, 2), Num(b, p + 6, 2), Num(b, p + 8, 2), Num(b, p + 10, 2),
             Num(b, p + 12, 4), Num(b, p + 16, 4), Num(b, p + 20, 2))
  }

  lemma EndRoundTrip(b: seq<byte>, p: nat, f: EndFixed)
    requires At(b, p, EncodeEnd(f)) && f.InRange()
    ensures p + 22 <= |b| && At(b, p, Put(END_MAGIC, 4)) && DecodeEnd(b, p) == f
  {
    Pow256Values();
    var x1 := Put(END_MAGIC, 4);
    var x2 := x1 + Put(f.disk, 2);
    var x3 := x2 + Put(f.diskCd, 2);
    var x4 := x3 + Put(f.here, 2);
    var x5 := x4 + Put(f.total, 2);
    var x6 := x5 + Put(f.size, 4);
    var x7 := x6 + Put(f.offset, 4);
    AtConcat(b, p, x7, Put(f.commentLen, 2));
    AtConcat(b, p, x6, Put(f.offset, 4));
    AtConcat(b, p, x5, Put(f.size, 4));
    AtConcat(b, p, x4, Put(f.total, 2));
    AtConcat(b, p, x3, Put(f.here, 2));
    AtConcat(b, p, x2, Put(f.diskCd, 2));
    AtConcat(b, p, x1, Put(f.disk, 2));
    NumAt(b, p + 4, f.disk, 2);
    NumAt(b, p + 6, f.diskCd, 2);
    NumAt(b, p + 8, f.here, 2);
    NumAt(b, p + 10, f.total, 2);
    NumAt(b, p + 12, f.size, 4);
    NumAt(b, p + 16, f.offset, 4);
    NumAt(b, p + 20, f.commentLen, 2);
  }

  function EncodeZip64End(f: Zip64End): (s: seq<byte>)
    ensures |s| == 56
  {
    Put(ZIP64_END_MAGIC, 4) + Put(44, 8) + Put(45, 2) + Put(45, 2) + Put(f.disk, 4) + Put(f.diskCd, 4)
    + Put(f.here, 8) + Put(f.total, 8) + Put(f.size, 8) + Put(f.offset, 8)
  }

  function DecodeZip64End(b: seq<byte>, p: nat): Zip64End
    requires p + 56 <= |b|
  {
    Zip64End(Num(b, p + 16, 4), Num(b, p + 20, 4), Num(b, p + 24, 8), Num(b, p + 32, 8),
             Num(b, p + 40, 8), Num(b, p + 48, 8))
  }

  lemma Zip64EndRoundTrip(b: seq<byte>, p: nat, f: Zip64End)
    requires At(b, p, EncodeZip64End(f)) && f.InRange()
    ensures p + 56 <= |b| && Num(b, p, 4) == ZIP64_END_MAGIC && DecodeZip64End(b, p) == f
  {
    Pow256Values();
    var x1 := Put(ZIP64_END_MAGIC, 4);
    var x2 := x1 + Put(44, 8);
    var x3 := x2 + Put(45, 2);
    var x4 := x3 + Put(45, 2);
    var x5 := x4 + Put(f.disk, 4);
    var x6 := x5 + Put(f.diskCd, 4);
    var x7 := x6 + Put(f.here, 8);
    var x8 := x7 + Put(f.total, 8);
    var x9 := x8 + Put(f.size, 8);
    AtConcat(b, p, x9, Put(f.offset, 8));
    AtConcat(b, p, x8, Put(f.size, 8));
    AtConcat(b, p, x7, Put(f.total, 8));
    AtConcat(b, p, x6, Put(f.here, 8));
    AtConcat(b, p, x5, Put(f.diskCd, 4));
    AtConcat(b, p, x4, Put(f.disk, 4));
    AtConcat(b, p, x3, Put(45, 2));
    AtConcat(b, p, x2, Put(45, 2));
    AtConcat(b, p, x1, Put(44, 8));
    NumAt(b, p, ZIP64_END_MAGIC, 4);
    NumAt(b, p + 16, f.disk, 4);
    NumAt(b, p + 20, f.diskCd, 4);
    NumAt(b, p + 24, f.here, 8);
    NumAt(b, p + 32, f.total, 8);
    NumAt(b, p + 40, f.size, 8);
    NumAt(b, p + 48, f.offset, 8);
  }

  /** The zip64 end locator: disk, position of the zip64 end record, disk count. */
  function EncodeLocator(offset: nat): (s: seq<byte>)
    ensures |s| == 20
  {
    Put(LOCATOR_MAGIC, 4) + Put(0, 4) + Put(offset, 8) + Put(1, 4)
  }

  lemma LocatorRoundTrip(b: seq<byte>, p: nat, offset: nat)
    requires At(b, p, EncodeLocator(offset)) && offset < U64
    ensures p + 20 <= |b| && At(b, p, Put(LOCATOR_MAGIC, 4))
    ensures Num(b, p + 4, 4) == 0 && Num(b, p + 8, 8) == offset && Num(b, p + 16, 4) == 1
  {
    Pow256Values();
    var x1 := Put(LOCATOR_MAGIC, 4);
    var x2 := x1 + Put(0, 4);
    var x3 := x2 + Put(offset, 8);
    AtConcat(b, p, x3, Put(1, 4));
    AtConcat(b, p, x2, Put(offset, 8));
    AtConcat(b, p, x1, Put(0, 4));
    NumAt(b, p + 4, 0, 4);
    NumAt(b, p + 8, offset, 8);
    NumAt(b, p + 16, 1, 4);
  }
}
