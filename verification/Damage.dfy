/** What the reader refuses: local headers that do not agree with their records, and end
    records that no archive of one part has. */
module Damage {
  import opened Bytes
  import opened Format
  import opened Stream
  import opened EndRecord
  import opened EndSearch
  import opened Entry
  import opened Records
  import opened Archive
  import opened ChecksumLaws

  /** A local header that agrees with a record: the same method, one of the three known,
      the same name length, and unless bit 3 is set the same checksum and sizes, as far as
      the header has them. */
  predicate Agrees(l: LocalFixed, i: FileInfo)
  {
    && l.compression == i.fixed.compression && l.compression in {0, 8, 12} && l.nameLen == i.fixed.nameLen
    && (Bit(l.flag, 3) == 0 ==>
          && l.crc == i.fixed.crc
          && l.csize in {0xffff_ffff, i.sizes.csize} && l.usize in {0xffff_ffff, i.sizes.usize})
  }

  /** Whatever header stands at a position, the check passes exactly if it agrees with the
      record, and then gives the length of name and extra field. */
  lemma HeaderAdmittedIff(b: seq<byte>, p: nat, l: LocalFixed, i: FileInfo)
    requires At(b, p, EncodeLocal(l)) && l.InRange()
    ensures CheckLocal(b, p, i) == if Agrees(l, i) then Some(l.nameLen + l.extraLen) else None
  {
    hide Num, EncodeLocal, DecodeLocal;
    LocalRoundTrip(b, p, l);
    BitThree(l.flag);
  }

  lemma BitThree(x: nat)
    ensures Bit(x, 3) == x / 8 % 2
  {
    assert Bit(x, 3) == Bit(x / 2, 2) == Bit(x / 2 / 2, 1) == Bit(x / 2 / 2 / 2, 0);
  }

  /** Without a header there, the check fails. */
  lemma NoHeaderRefused(b: seq<byte>, p: nat, i: FileInfo)
    requires p + 30 > |b| || b[p..p + 4] != [0x50, 0x4b, 3, 4]
    ensures CheckLocal(b, p, i) == None
  {
    hide DecodeLocal, Get, Put;
    LocalSignature();
    if p + 30 <= |b| {
      PutGet(b[p..p + 4]);
    }
  }

  lemma LocalSignature()
    ensures Put(LOCAL_MAGIC, 4) == [0x50, 0x4b, 3, 4]
  {
  }

  // ------------------------------------------------- damage to a written header

  /** The fields of a local header that are compared. */
  datatype Field = Method | CrcField | CsizeField | UsizeField | NameLength
  {
    function Place(): nat
    {
      match this
      case Method => 8
      case CrcField => 14
      case CsizeField => 18
      case UsizeField => 22
      case NameLength => 26
    }

    function Width(): nat { if Method? || NameLength? then 2 else 4 }
  }

  function With(l: LocalFixed, f: Field, v: nat): LocalFixed
  {
    match f
    case Method => l.(compression := v)
    case CrcField => l.(crc := v)
    case CsizeField => l.(csize := v)
    case UsizeField => l.(usize := v)
    case NameLength => l.(nameLen := v)
  }

  lemma FieldOverwritten(b: seq<byte>, p: nat, l: LocalFixed, f: Field, v: nat)
    requires At(b, p, EncodeLocal(l))
    ensures p + 30 <= |b|
    ensures At(Overwrite(b, p + f.Place(), Put(v, f.Width())), p, EncodeLocal(With(l, f, v)))
  {
    hide Put, EncodeLocal, Overwrite, At;
    AtWithin(b, p, EncodeLocal(l));
    LocalFields(b, p, l);
    OverwriteKeeps(b, p + f.Place(), Put(v, f.Width()));
    var c := Overwrite(b, p + f.Place(), Put(v, f.Width()));
    assert LocalAt(c, p, With(l, f, v));
    LocalFields(c, p, With(l, f, v));
  }

  lemma AtWithin(b: seq<byte>, p: nat, s: seq<byte>)
    requires At(b, p, s)
    ensures p + |s| <= |b|
  {
  }

  /** What the check makes of a new value in a field of a closed entry's header. */
  predicate Harmless(e: Entry, f: Field, v: nat)
  {
    match f
    case Method => v == e.p.compression
    case NameLength => v == |e.p.name|
    case CrcField => v == e.crc || Bit(e.p.Flag(), 3) == 1
    case CsizeField => v == 0xffff_ffff || v == e.Csize() || Bit(e.p.Flag(), 3) == 1
    case UsizeField => v == 0xffff_ffff || v == e.usize || Bit(e.p.Flag(), 3) == 1
  }

  /** Overwriting one field of the local header of an entry that can be opened: it can still
      be opened exactly if the new value is the old one, or a missing size, or bit 3 says
      that the number is not there. */
  lemma DamageIff(b: seq<byte>, e: Entry, base: nat, f: Field, v: nat)
    requires base <= e.pos && e.p.InRange() && e.crc < U32 && At(b, e.pos, LocalBytes(e))
    requires e.p.compression in {0, 8} && Openable(e) && v < Pow256(f.Width())
    ensures var c := Overwrite(b, e.pos + f.Place(), Put(v, f.Width()));
      CheckLocal(c, e.pos, InfoOf(e, base)).Some? <==> Harmless(e, f, v)
  {
    hide Put, EncodeLocal, Overwrite, At, LocalBytes, CheckLocal;
    FlagInRange(e.p);
    Pow256Values();
    LocalParts(b, e.pos, e);
    FieldOverwritten(b, e.pos, StoredLocal(e), f, v);
    var c := Overwrite(b, e.pos + f.Place(), Put(v, f.Width()));
    HeaderAdmittedIff(c, e.pos, With(StoredLocal(e), f, v), InfoOf(e, base));
    BitThree(e.p.Flag());
  }

  // ------------------------------------------------------------ end records

  /** Without zip64 records a directory is found exactly if the end record is complete, is
      that of a single part, has the same count twice, and leaves room for the directory
      in front of it. */
  lemma LocateOrdinaryIff(b: seq<byte>, tolerant: bool)
    requires Zip64EndPos(b) == 0
    ensures var p := LastSignature(b, END_SIGNATURE);
      Locate(b, tolerant).Some? <==>
        && (p != 0 || tolerant) && p + 22 <= |b|
        && b[p + 4..p + 6] == [0, 0] && b[p + 6..p + 8] == [0, 0] && b[p + 8..p + 10] == b[p + 10..p + 12]
        && (Num(b, p + 12, 4) + Num(b, p + 16, 4)) % U64 <= p
  {
    hide LastSignature, Get, Zip64EndPos;
    var p := LastSignature(b, END_SIGNATURE);
    if p + 22 <= |b| {
      ZeroNumber(b[p + 4..p + 6]);
      ZeroNumber(b[p + 6..p + 8]);
      SameNumber(b[p + 8..p + 10], b[p + 10..p + 12]);
    }
  }

  lemma ZeroNumber(s: seq<byte>)
    requires |s| == 2
    ensures Get(s) == 0 <==> s == [0, 0]
  {
    SameNumber(s, [0, 0]);
    Zeros();
  }

  lemma SameNumber(s: seq<byte>, t: seq<byte>)
    requires |s| == |t|
    ensures Get(s) == Get(t) <==> s == t
  {
    hide Get, Put;
    PutGet(s);
    PutGet(t);
  }

  /** A zip64 end record is taken exactly if the last locator is complete, is that of an
      archive of one part, and names a place where such a record begins. */
  lemma Zip64EndPosIff(b: seq<byte>, r: nat)
    requires r != 0
    ensures var p := LastSignature(b, LOCATOR_SIGNATURE);
      Zip64EndPos(b) == r <==>
        && p != 0 && p + 20 <= |b|
        && b[p + 4..p + 8] == [0, 0, 0, 0] && Num(b, p + 8, 8) == r && b[p + 16..p + 20] == [1, 0, 0, 0]
        && r + 4 <= |b| && b[r..r + 4] == [0x50, 0x4b, 6, 6]
  {
    hide LastSignature, Get, Put;
    var p := LastSignature(b, LOCATOR_SIGNATURE);
    OneAndMagic();
    if p != 0 && p + 20 <= |b| {
      ZeroWord(b[p + 4..p + 8]);
      SameNumber(b[p + 16..p + 20], [1, 0, 0, 0]);
      if r + 4 <= |b| {
        SameNumber(b[r..r + 4], [0x50, 0x4b, 6, 6]);
      }
    }
  }

  lemma OneAndMagic()
    ensures Get([1, 0, 0, 0]) == 1 && Get([0x50, 0x4b, 6, 6]) == ZIP64_END_MAGIC
  {
    GetLow(1, 4);
    GetLow(ZIP64_END_MAGIC, 4);
    Pow256Values();
    assert Low(1, 4) == [1, 0, 0, 0] && Low(ZIP64_END_MAGIC, 4) == [0x50, 0x4b, 6, 6];
  }

  /** The same through zip64 records. */
  lemma LocateZip64Iff(b: seq<byte>, tolerant: bool)
    requires Zip64EndPos(b) != 0
    ensures var p := Zip64EndPos(b);
      Locate(b, tolerant).Some? <==>
        && p + 56 <= |b| && b[p + 16..p + 20] == [0, 0, 0, 0] && b[p + 20..p + 24] == [0, 0, 0, 0]
        && b[p + 24..p + 32] == b[p + 32..p + 40]
        && (Num(b, p + 40, 8) + Num(b, p + 48, 8)) % U64 <= p
  {
    hide LastSignature, Get, Zip64EndPos;
    var p := Zip64EndPos(b);
    if p + 56 <= |b| {
      ZeroWord(b[p + 16..p + 20]);
      ZeroWord(b[p + 20..p + 24]);
      SameNumber(b[p + 24..p + 32], b[p + 32..p + 40]);
    }
  }

  lemma ZeroWord(s: seq<byte>)
    requires |s| == 4
    ensures Get(s) == 0 <==> s == [0, 0, 0, 0]
  {
    SameNumber(s, [0, 0, 0, 0]);
    Zeros();
  }

  lemma Zeros()
    ensures Get([0, 0]) == 0 && Get([0, 0, 0, 0]) == 0
  {
    var s: seq<byte> := [0, 0, 0, 0];
    assert s[1..] == [0, 0, 0] && s[1..][1..] == [0, 0] && s[1..][1..][1..] == [0] && s[1..][1..][1..][1..] == [];
  }

  /** A directory record is accepted only with its signature, with all of its fixed fields
      and, if there is an extra field, with the start of that; name and comment only if the
      file holds them. */
  lemma RecordNeeds(b: seq<byte>, p: nat)
    requires ParseInfo(b, p).Some?
    ensures p + 46 <= |b| && At(b, p, [0x50, 0x4b, 1, 2])
    ensures var f := DecodeCentral(b, p);
      && (f.extraLen > 0 ==> p + 46 + f.nameLen + 4 <= |b|)
      && (ParseFull(b, p).Some? <==>
            && (f.nameLen > 0 ==> p + 46 + f.nameLen <= |b|)
            && (f.commentLen > 0 ==> ParseInfo(b, p).value.1 + f.commentLen <= |b|))
  {
    hide DecodeCentral;
    Pow256Values();
    PutGet(b[p..p + 4]);
    CentralSignature();
  }

  lemma CentralSignature()
    ensures Put(CENTRAL_MAGIC, 4) == [0x50, 0x4b, 1, 2]
  {
  }
}
