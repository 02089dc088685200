/** A finished archive as the reader sees it: what the writer stored is what the walk
    over the directory, the header checks and the reads deliver. */
module Archive {
  import opened Bytes
  import opened Format
  import opened Stream
  import opened EndSearch
  import opened EndRecord
  import opened Entry
  import opened Records
  import opened Checksum
  import opened Catalog
  import ZipReader
  import ZipWriter

  // -------------------------------------------------------------- extra fields

  /** An extra field made of whole records, none of them a zip64 one (section 4.5.1 of
      APPNOTE.TXT). */
  predicate WellFormed(s: seq<byte>)
  {
    s == [] ||
    (|s| >= 4 && Num(s, 0, 2) != 1 && 4 + Num(s, 2, 2) <= |s| && WellFormed(s[4 + Num(s, 2, 2)..]))
  }

  lemma NumInside(b: seq<byte>, p: nat, s: seq<byte>, i: nat, n: nat)
    requires At(b, p, s) && i + n <= |s|
    ensures p + i + n <= |b| && Num(b, p + i, n) == Num(s, i, n)
  {
    assert b[p + i..p + i + n] == s[i..i + n] by {
      assert s == s[..i] + (s[i..i + n] + s[i + n..]);
      AtConcat(b, p, s[..i], s[i..i + n] + s[i + n..]);
      AtConcat(b, p + i, s[i..i + n], s[i + n..]);
    }
  }

  /** The walk passes over well-formed records without changing anything. */
  lemma {:induction false} WalkRecords(b: seq<byte>, p: nat, s: seq<byte>, acc: nat, total: nat, v: Sizes)
    requires At(b, p, s) && WellFormed(s) && acc + |s| <= total
    ensures WalkExtra(b, p, acc, total, v) == WalkExtra(b, p + |s|, acc + |s|, total, v)
    decreases |s|
  {
    hide Num;
    if s != [] {
      var n := 4 + Num(s, 2, 2);
      NumInside(b, p, s, 0, 2);
      NumInside(b, p, s, 2, 2);
      assert s == s[..n] + s[n..];
      AtConcat(b, p, s[..n], s[n..]);
      WalkRecords(b, p + n, s[n..], acc + n, total, v);
    }
  }

  lemma BigNumAt(b: seq<byte>, p: nat, x: nat)
    requires At(b, p, BigField(x)) && x < U64
    ensures BigNum(b, p, Min(x, SENTINEL)) == Some((x, p + |BigField(x)|))
  {
    Pow256Values();
    if x >= SENTINEL {
      NumAt(b, p, x, 8);
    }
  }

  /** The numbers a directory record starts from, before its zip64 field is read. */
  function Stored(e: Entry, base: nat): Sizes
  {
    Sizes(Min(e.usize, SENTINEL), Min(e.Csize(), SENTINEL), Offset(e.pos, base))
  }

  function Actual(e: Entry, base: nat): Sizes
  {
    Sizes(e.usize, e.Csize(), Max(0, e.pos - base))
  }

  /** What the reader gets: a zip64 position is taken as it is, although the reader
      adds the leading bytes to it. */
  function Reported(e: Entry, base: nat): Sizes
  {
    Sizes(e.usize, e.Csize(), if e.pos >= SENTINEL then e.pos else Max(0, e.pos - base))
  }

  /** The position comes back right exactly when it is below 4 GB or nothing stands in
      front of the archive. */
  lemma ReportedIff(e: Entry, base: nat)
    requires base <= e.pos
    ensures Reported(e, base) == Actual(e, base) <==> (e.pos < SENTINEL || base == 0)
  {
  }

  /** All numbers of an entry are 64-bit ones. */
  ghost predicate Wide(e: Entry)
  {
    e.usize < U64 && e.Csize() < U64 && e.pos < U64
  }

  lemma Zip64Parts(b: seq<byte>, p: nat, e: Entry)
    requires At(b, p, CentralZip64(e)) && e.Big()
    ensures var u, c, o := BigField(e.usize), BigField(e.Csize()), BigField(e.pos);
      && |CentralZip64(e)| == 4 + |u| + |c| + |o|
      && p + 4 <= |b| && Num(b, p, 2) == 1 && Num(b, p + 2, 2) == |u| + |c| + |o|
      && At(b, p + 4, u) && At(b, p + 4 + |u|, c) && At(b, p + 4 + |u| + |c|, o)
  {
    var u, c, o := BigField(e.usize), BigField(e.Csize()), BigField(e.pos);
    var h := Put(|u| + |c| + |o|, 2);
    Pow256Values();
    AtConcat(b, p, Put(1, 2) + h + u + c, o);
    AtConcat(b, p, Put(1, 2) + h + u, c);
    AtConcat(b, p, Put(1, 2) + h, u);
    AtConcat(b, p, Put(1, 2), h);
    NumAt(b, p, 1, 2);
    NumAt(b, p + 2, |u| + |c| + |o|, 2);
  }

  /** The fields the writer emits are exactly the ones the reader consumes. */
  lemma WalkZip64(b: seq<byte>, p: nat, e: Entry, base: nat, acc: nat)
    requires At(b, p, CentralZip64(e)) && e.Big() && Wide(e) && base <= e.pos
    ensures WalkExtra(b, p, acc, acc + |CentralZip64(e)|, Stored(e, base))
      == Some((Reported(e, base), p + |CentralZip64(e)|))
  {
    hide Num, Put, CentralZip64;
    var u, c := BigField(e.usize), BigField(e.Csize());
    Zip64Parts(b, p, e);
    BigNumAt(b, p + 4, e.usize);
    BigNumAt(b, p + 4 + |u|, e.Csize());
    if e.pos >= SENTINEL {
      BigNumAt(b, p + 4 + |u| + |c|, e.pos);
    }
    assert Zip64Sizes(b, p + 4, Stored(e, base)) == Some((Reported(e, base), p + |CentralZip64(e)|));
  }

  /** How many numbers a header leaves to the zip64 field. */
  function MissingNumbers(v: Sizes): nat
  {
    (if v.usize == SENTINEL then 1 else 0) + (if v.csize == SENTINEL then 1 else 0)
    + (if v.offset == SENTINEL then 1 else 0)
  }

  /** Behind a zip64 record the reader is at the next record exactly if it held the missing
      numbers and nothing else; its length is counted, but what is left of it is not
      skipped. */
  lemma Zip64SkippedIff(b: seq<byte>, p: nat, v: Sizes)
    requires p + 4 <= |b| && Zip64Sizes(b, p + 4, v).Some?
    ensures Zip64Sizes(b, p + 4, v).value.1 == p + 4 + Num(b, p + 2, 2) <==> Num(b, p + 2, 2) == 8 * MissingNumbers(v)
  {
    hide Num;
  }

  // ---------------------------------------------------------- directory records

  /** An entry whose record the reader can decode. With a zip64 field there must be no
      comment, which would stand in front of that field. */
  ghost predicate Decodable(e: Entry, base: nat)
  {
    && base <= e.pos && Wide(e) && e.p.InRange() && e.crc < U32 && WellFormed(e.p.extraGlobal)
    && (e.Big() ==> e.p.comment == [])
  }

  /** And the position in it is the right one. */
  ghost predicate Listable(e: Entry, base: nat)
  {
    Decodable(e, base) && (e.pos < SENTINEL || base == 0)
  }

  /** What the reader should report for an entry. */
  function InfoOf(e: Entry, base: nat): FileInfo
  {
    FileInfo(CentralHeader(e, base), Actual(e, base))
  }

  /** The information tells everything about the entry: sizes, checksum, position, the
      caller's arguments, and a version that can read it. */
  predicate Tells(i: FileInfo, e: Entry, base: nat)
    requires base <= e.pos
  {
    && i.sizes.usize == e.usize && i.sizes.csize == |e.payload| && i.sizes.offset == e.pos - base
    && i.fixed.crc == e.crc && i.fixed.compression == e.p.compression && i.fixed.flag == e.p.Flag()
    && i.fixed.dosDate == e.p.dosDate && i.fixed.internalFa == e.p.internalFa && i.fixed.externalFa == e.p.externalFa
    && i.fixed.nameLen == |e.p.name| && i.fixed.commentLen == |e.p.comment| && i.fixed.disk == 0
    && var big := e.usize >= 0xffff_ffff || |e.payload| >= 0xffff_ffff || e.pos >= 0xffff_ffff;
    && i.fixed.made == (if big then 45 else e.p.made) && i.fixed.need == (if big then 45 else 20)
  }

  lemma CentralParts(b: seq<byte>, p: nat, e: Entry, base: nat)
    requires base <= e.pos && At(b, p, CentralBytes(e, base))
    ensures var n, x, c := |e.p.name|, |e.p.extraGlobal|, |e.p.comment|;
      && At(b, p, EncodeCentral(CentralHeader(e, base)))
      && At(b, p + 46, e.p.name) && At(b, p + 46 + n, e.p.extraGlobal)
      && At(b, p + 46 + n + x, e.p.comment) && At(b, p + 46 + n + x + c, CentralZip64(e))
  {
    hide EncodeCentral, CentralZip64, At;
    var f := EncodeCentral(CentralHeader(e, base));
    AtConcat(b, p, f + e.p.name + e.p.extraGlobal + e.p.comment, CentralZip64(e));
    AtConcat(b, p, f + e.p.name + e.p.extraGlobal, e.p.comment);
    AtConcat(b, p, f + e.p.name, e.p.extraGlobal);
    AtConcat(b, p, f, e.p.name);
  }

  lemma CentralInRange(e: Entry, base: nat)
    requires Decodable(e, base)
    ensures CentralHeader(e, base).InRange()
  {
  }

  /** Both walks of the extra field of a record: user records, then the zip64 field. */
  lemma WalkWhole(b: seq<byte>, p: nat, e: Entry, base: nat)
    requires Decodable(e, base) && At(b, p, e.p.extraGlobal)
    requires e.Big() ==> At(b, p + |e.p.extraGlobal|, CentralZip64(e))
    ensures WalkExtra(b, p, 0, |e.p.extraGlobal| + |CentralZip64(e)|, Stored(e, base))
      == Some((Reported(e, base), p + |e.p.extraGlobal| + |CentralZip64(e)|))
  {
    hide Num;
    var x := e.p.extraGlobal;
    WalkRecords(b, p, x, 0, |x| + |CentralZip64(e)|, Stored(e, base));
    if e.Big() {
      WalkZip64(b, p + |x|, e, base, |x|);
    }
  }

  /** Decoding a record returns what was encoded, whatever the magnitude of sizes and
      position. */
  lemma ParseEntry(b: seq<byte>, p: nat, e: Entry, base: nat)
    requires Decodable(e, base) && At(b, p, CentralBytes(e, base))
    ensures var i := FileInfo(CentralHeader(e, base), Reported(e, base));
      && ParseInfo(b, p).Some? && ParseInfo(b, p).value.0 == i
      && ParseFull(b, p) == Some((i, e.p.name, e.p.comment))
  {
    hide Num, EncodeCentral, CentralZip64, CentralBytes, WalkExtra, DecodeCentral;
    CentralParts(b, p, e, base);
    CentralInRange(e, base);
    CentralRoundTrip(b, p, CentralHeader(e, base));
    NoZip64(e);
    WalkWhole(b, p + 46 + |e.p.name|, e, base);
  }

  lemma NoZip64(e: Entry)
    ensures !e.Big() ==> CentralZip64(e) == []
  {
  }

  // ------------------------------------------------------------- local headers

  lemma PutSaturates(x: nat)
    requires x >= SENTINEL
    ensures Put(x, 4) == Put(SENTINEL, 4)
  {
  }

  /** The local header of an entry with the numbers that were really stored. */
  function StoredLocal(e: Entry): LocalFixed
  {
    var unknown := if e.p.zip64 then SENTINEL else 0;
    if e.usize >= SENTINEL then LocalHeader(e.p, e.crc, unknown, unknown)
    else LocalHeader(e.p, e.crc, Min(e.Csize(), SENTINEL), e.usize)
  }

  lemma LocalParts(b: seq<byte>, p: nat, e: Entry)
    requires At(b, p, LocalBytes(e))
    ensures At(b, p, EncodeLocal(StoredLocal(e)))
  {
    if e.usize >= SENTINEL {
      AtConcat(b, p, EncodeLocal(StoredLocal(e)), LocalTail(e.p, e.usize, e.Csize()));
    } else {
      if e.Csize() >= SENTINEL {
        PutSaturates(e.Csize());
      }
      AtConcat(b, p, EncodeLocal(LocalHeader(e.p, e.crc, e.Csize(), e.usize)), LocalTail(e.p, 0, 0));
    }
  }

  /** The local header of the entry records its sizes, or says that it does not. */
  predicate Openable(e: Entry)
  {
    e.usize < SENTINEL || e.p.zip64 || Deferred(e.p.Flag())
  }

  /** The header check succeeds for exactly these entries: an entry of 0xffffffff bytes
      or more must have been opened with the zip64 flag (or have bit 3 set). */
  lemma CheckEntryIff(b: seq<byte>, e: Entry, base: nat)
    requires base <= e.pos && e.p.InRange() && e.crc < U32 && At(b, e.pos, LocalBytes(e))
    requires e.p.compression in {0, Z_DEFLATED, Z_BZIP2ED}
    ensures CheckLocal(b, e.pos, InfoOf(e, base)) ==
      if Openable(e) then Some(LocalLength(e.p) - 30) else None
  {
    hide Num, EncodeLocal, DecodeLocal;
    FlagInRange(e.p);
    LocalParts(b, e.pos, e);
    LocalRoundTrip(b, e.pos, StoredLocal(e));
  }

  // ------------------------------------------------------------ whole archives

  /** b is an archive of the entries es behind `base` leading bytes: the directory
      stands at cdPos, the end part behind it, and every local header with its payload
      where the entry says. */
  ghost predicate IsArchive(b: seq<byte>, base: nat, cdPos: nat, es: seq<Entry>, text: seq<byte>)
  {
    && base <= cdPos <= |b| && Placed(es, base)
    && b[cdPos..] == Dir(es, base) + ZipWriter.EndPart(base, cdPos, |Dir(es, base)|, |es|, text)
    && forall i :: 0 <= i < |es| ==> EntryAt(b, es[i], cdPos)
  }

  ghost predicate EntryAt(b: seq<byte>, e: Entry, cdPos: nat)
  {
    At(b, e.pos, LocalBytes(e) + e.payload) && e.pos + LocalLength(e.p) + |e.payload| <= cdPos
  }

  /** The end part starts right behind the directory. */
  function EndPos(cdPos: nat, es: seq<Entry>, base: nat): nat
  {
    cdPos + |Dir(es, base)|
  }

  lemma ArchiveParts(b: seq<byte>, base: nat, cdPos: nat, es: seq<Entry>, text: seq<byte>)
    requires IsArchive(b, base, cdPos, es, text)
    ensures At(b, cdPos, Dir(es, base))
    ensures var z := EndPos(cdPos, es, base);
      var part := ZipWriter.EndPart(base, cdPos, |Dir(es, base)|, |es|, text);
      z <= |b| && At(b, z, part) && z + |part| == |b|
  {
    hide Dir, ZipWriter.EndPart;
    var d, part := Dir(es, base), ZipWriter.EndPart(base, cdPos, |Dir(es, base)|, |es|, text);
    assert At(b, cdPos, d + part);
    AtConcat(b, cdPos, d, part);
  }

  // --------------------------------------------------------- finding the end

  /** The end record is the one the scan finds exactly when the file is not empty in
      front of it, the comment is short enough, and no later signature exists. */
  lemma EndFoundIff(b: seq<byte>, z: nat, sig: seq<byte>)
    requires |sig| == 4 && At(b, z, sig)
    ensures (LastSignature(b, sig) == z && z != 0) <==>
      (z != 0 && |b| - z <= 0xffff && forall q :: z < q <= |b| - 4 ==> !At(b, q, sig))
  {
  }

  /** The end record at z, with a comment of the given length, is the one the reader
      will use: no zip64 locator and no later signature is found, and the comment is
      short enough. */
  predicate EndFound(b: seq<byte>, z: nat, commentSize: nat)
  {
    && |b| < U64 && 22 + commentSize <= MAX_BACK && Zip64EndPos(b) == 0
    && forall q :: z < q <= |b| - 4 ==> !At(b, q, END_SIGNATURE)
  }

  /** Locating the directory through an ordinary end record. */
  lemma LocateEnd(b: seq<byte>, z: nat, f: EndFixed, text: seq<byte>, tolerant: bool)
    requires At(b, z, EncodeEnd(f) + text) && |b| == z + 22 + |text| && f.InRange() && EndFound(b, z, |text|)
    requires f.disk == f.diskCd == 0 && f.here == f.total && f.commentLen == |text| && f.offset + f.size <= z
    requires tolerant || z != 0
    ensures Locate(b, tolerant) ==
      Some(Directory(false, z, f.total, f.size, f.offset, |text|, z - (f.offset + f.size)))
  {
    hide EncodeEnd, DecodeEnd, Zip64EndPos, LastSignature, At;
    Signatures();
    AtConcat(b, z, EncodeEnd(f), text);
    EndRoundTrip(b, z, f);
    if z != 0 {
      EndFoundIff(b, z, END_SIGNATURE);
    } else {
      NoneFound(b, END_SIGNATURE);
    }
    SmallSum(f.offset + f.size);
  }

  lemma SmallSum(x: nat)
    ensures x < U64 ==> x % U64 == x
  {
  }

  /** The archive ends in an ordinary end record that the scan finds: the directory
      starts below 4 GB and is smaller than that. */
  ghost predicate PlainEnd(b: seq<byte>, base: nat, cdPos: nat, es: seq<Entry>, text: seq<byte>)
    requires base <= cdPos
  {
    cdPos - base < SENTINEL && |Dir(es, base)| < U32 && EndFound(b, EndPos(cdPos, es, base), |text|)
  }

  /** Where the reader places the directory of such an archive. */
  function PlainDirectory(base: nat, cdPos: nat, es: seq<Entry>, text: seq<byte>): Directory
    requires base <= cdPos
  {
    Directory(false, EndPos(cdPos, es, base), Min(|es|, 0xffff), |Dir(es, base)|, cdPos - base, |text|, base)
  }

  lemma LocatePlain(b: seq<byte>, base: nat, cdPos: nat, es: seq<Entry>, text: seq<byte>, tolerant: bool)
    requires IsArchive(b, base, cdPos, es, text) && PlainEnd(b, base, cdPos, es, text)
    requires tolerant || EndPos(cdPos, es, base) != 0
    ensures Locate(b, tolerant) == Some(PlainDirectory(base, cdPos, es, text))
    ensures EndPos(cdPos, es, base) + 22 + |text| == |b| && b[EndPos(cdPos, es, base) + 22..] == text
  {
    hide Dir, EncodeEnd, EndFound, Locate, At;
    ArchiveParts(b, base, cdPos, es, text);
    var z, size := EndPos(cdPos, es, base), |Dir(es, base)|;
    SmallMod32(size);
    var f := EndFixed(0, 0, Min(|es|, 0xffff), Min(|es|, 0xffff), size, cdPos - base, |text|);
    assert [] + EncodeEnd(f) + text == EncodeEnd(f) + text;
    EndFoundFits(b, z, |text|);
    LocateEnd(b, z, f, text, tolerant);
    AtConcat(b, z, EncodeEnd(f), text);
    TextBehind(b, z, text);
  }

  /** The reader places the directory there exactly if the scan finds the end record. */
  lemma LocatePlainIff(b: seq<byte>, base: nat, cdPos: nat, es: seq<Entry>, text: seq<byte>, tolerant: bool)
    requires IsArchive(b, base, cdPos, es, text) && cdPos - base < SENTINEL && |Dir(es, base)| < U32 && |b| < U64
    requires EndPos(cdPos, es, base) != 0
    ensures Locate(b, tolerant) == Some(PlainDirectory(base, cdPos, es, text)) <==>
      EndFound(b, EndPos(cdPos, es, base), |text|)
  {
    hide Dir, Zip64EndPos, LastSignature, At, EntryAt, ZipWriter.EndPart;
    var z := EndPos(cdPos, es, base);
    if EndFound(b, z, |text|) {
      LocatePlain(b, base, cdPos, es, text, tolerant);
    } else if Locate(b, tolerant) == Some(PlainDirectory(base, cdPos, es, text)) {
      PlainEndAt(b, base, cdPos, es, text);
      EndFoundIff(b, z, END_SIGNATURE);
    }
  }

  lemma PlainEndAt(b: seq<byte>, base: nat, cdPos: nat, es: seq<Entry>, text: seq<byte>)
    requires IsArchive(b, base, cdPos, es, text) && cdPos - base < SENTINEL
    ensures var z := EndPos(cdPos, es, base); At(b, z, END_SIGNATURE) && |b| == z + 22 + |text|
  {
    hide Dir, EncodeEnd, At;
    ArchiveParts(b, base, cdPos, es, text);
    var z, size := EndPos(cdPos, es, base), |Dir(es, base)| % U32;
    var f := EndFixed(0, 0, Min(|es|, 0xffff), Min(|es|, 0xffff), size, cdPos - base, |text|);
    var s := EncodeEnd(f);
    assert [] + s + text == s + text;
    AtConcat(b, z, s, text);
    Magics(f, Zip64End(0, 0, 0, 0, 0, 0));
    Signatures();
    assert s == s[..4] + s[4..];
    AtConcat(b, z, s[..4], s[4..]);
  }

  lemma EndFoundFits(b: seq<byte>, z: nat, n: nat)
    requires EndFound(b, z, n)
    ensures 22 + n <= MAX_BACK
  {
  }

  lemma TextBehind(b: seq<byte>, z: nat, text: seq<byte>)
    requires At(b, z + 22, text) && |b| == z + 22 + |text|
    ensures b[z + 22..] == text
  {
  }

  lemma SmallMod32(x: nat)
    ensures x < U32 ==> x % U32 == x
  {
  }

  lemma NoneFound(b: seq<byte>, sig: seq<byte>)
    requires |sig| == 4 && forall q :: 0 < q <= |b| - 4 ==> !At(b, q, sig)
    ensures LastSignature(b, sig) == 0
  {
  }

  /** The archive ends in zip64 records: its directory starts at 4 GB or later. The scan
      finds the locator. */
  ghost predicate Zip64Tail(b: seq<byte>, base: nat, cdPos: nat, es: seq<Entry>, text: seq<byte>)
    requires base <= cdPos
  {
    && cdPos - base >= SENTINEL && |Dir(es, base)| < U32 && |b| < U64 && |es| < U64
    && 42 + |text| <= MAX_BACK
    && forall q :: EndPos(cdPos, es, base) + 56 < q <= |b| - 4 ==> !At(b, q, LOCATOR_SIGNATURE)
  }

  lemma Zip64EndParts(b: seq<byte>, base: nat, cdPos: nat, es: seq<Entry>, text: seq<byte>)
    requires IsArchive(b, base, cdPos, es, text) && cdPos - base >= SENTINEL && |Dir(es, base)| < U32
    ensures var z, size := EndPos(cdPos, es, base), |Dir(es, base)|;
      && At(b, z, EncodeZip64End(Zip64End(0, 0, |es|, |es|, size, cdPos - base)))
      && At(b, z + 56, EncodeLocator(z - base))
      && At(b, z + 76, EncodeEnd(EndFixed(0, 0, Min(|es|, 0xffff), Min(|es|, 0xffff), size, SENTINEL, |text|)) + text)
      && |b| == z + 98 + |text| && b[z + 98..] == text
  {
    hide Dir, EncodeEnd, EncodeZip64End, EncodeLocator, At;
    ArchiveParts(b, base, cdPos, es, text);
    var z, size := EndPos(cdPos, es, base), |Dir(es, base)|;
    SmallMod32(size);
    var r, l := EncodeZip64End(Zip64End(0, 0, |es|, |es|, size, cdPos - base)), EncodeLocator(z - base);
    var e := EncodeEnd(EndFixed(0, 0, Min(|es|, 0xffff), Min(|es|, 0xffff), size, SENTINEL, |text|));
    assert ZipWriter.EndPart(base, cdPos, size, |es|, text) == r + l + e + text;
    Assoc(r + l, e, text);
    AtConcat(b, z, r + l, e + text);
    AtConcat(b, z, r, l);
    AtConcat(b, z + 76, e, text);
    TextBehind(b, z + 76, text);
  }

  /** The position in the locator is relative, but the scan takes it for an absolute one. */
  lemma LocatorFound(b: seq<byte>, base: nat, cdPos: nat, es: seq<Entry>, text: seq<byte>)
    requires IsArchive(b, base, cdPos, es, text) && Zip64Tail(b, base, cdPos, es, text)
    ensures var z := EndPos(cdPos, es, base);
      && base < z && z + 60 <= |b|
      && Zip64EndPos(b) == if Num(b, z - base, 4) == ZIP64_END_MAGIC then z - base else 0
  {
    hide Dir, EncodeEnd, EncodeZip64End, EncodeLocator, Num, LastSignature, At, IsArchive, Zip64EndPos;
    var z := EndPos(cdPos, es, base);
    Zip64EndParts(b, base, cdPos, es, text);
    Signatures();
    LocatorRoundTrip(b, z + 56, z - base);
    EndFoundIff(b, z + 56, LOCATOR_SIGNATURE);
    LocatorUsed(b, z + 56, z - base);
  }

  /** Where a locator leads. */
  lemma LocatorUsed(b: seq<byte>, p: nat, r: nat)
    requires LastSignature(b, LOCATOR_SIGNATURE) == p != 0 && p + 20 <= |b| && r + 4 <= |b|
    requires Num(b, p + 4, 4) == 0 && Num(b, p + 8, 8) == r && Num(b, p + 16, 4) == 1
    ensures Zip64EndPos(b) == if Num(b, r, 4) == ZIP64_END_MAGIC then r else 0
  {
    hide Num, LastSignature;
  }

  /** Where the reader should place the directory. */
  function Zip64Directory(base: nat, cdPos: nat, es: seq<Entry>): Directory
    requires base <= cdPos
  {
    Directory(true, EndPos(cdPos, es, base), |es|, |Dir(es, base)|, cdPos - base, 0, base)
  }

  /** The zip64 end record, and with it the directory, is found exactly when nothing
      stands in front of the archive. */
  lemma LocateZip64(b: seq<byte>, base: nat, cdPos: nat, es: seq<Entry>, text: seq<byte>, tolerant: bool)
    requires IsArchive(b, base, cdPos, es, text) && Zip64Tail(b, base, cdPos, es, text)
    ensures Zip64EndPos(b) == EndPos(cdPos, es, base) <==> base == 0
    ensures Locate(b, tolerant) == Some(Zip64Directory(base, cdPos, es)) <==> base == 0
  {
    hide Dir, Num, At, Zip64EndPos, Locate, IsArchive, Zip64Tail;
    LocatorFound(b, base, cdPos, es, text);
    LocateThroughZip64(b, tolerant);
    if base == 0 {
      LocateAlone(b, cdPos, es, text, tolerant);
    }
  }

  lemma LocateAlone(b: seq<byte>, cdPos: nat, es: seq<Entry>, text: seq<byte>, tolerant: bool)
    requires IsArchive(b, 0, cdPos, es, text) && Zip64Tail(b, 0, cdPos, es, text)
    ensures Zip64EndPos(b) == EndPos(cdPos, es, 0)
    ensures Locate(b, tolerant) == Some(Zip64Directory(0, cdPos, es))
  {
    hide Dir, EncodeZip64End, DecodeZip64End, EncodeLocator, EncodeEnd, Num, At, Zip64EndPos, Locate, IsArchive, Zip64Tail;
    var z, size := EndPos(cdPos, es, 0), |Dir(es, 0)|;
    var f := Zip64End(0, 0, |es|, |es|, size, cdPos);
    LocatorFound(b, 0, cdPos, es, text);
    Zip64Bounds(b, 0, cdPos, es, text);
    Zip64EndParts(b, 0, cdPos, es, text);
    Zip64EndRoundTrip(b, z, f);
    LocateFromZip64(b, z, f, tolerant);
  }

  lemma Zip64Bounds(b: seq<byte>, base: nat, cdPos: nat, es: seq<Entry>, text: seq<byte>)
    requires base <= cdPos && Zip64Tail(b, base, cdPos, es, text)
    ensures |Dir(es, base)| < U32 && |b| < U64 && |es| < U64 && cdPos - base >= SENTINEL
  {
  }

  /** Behind other bytes, unless these let the locator name some zip64 end record by
      chance, the reader falls back to the ordinary end record. It accepts that one, and
      looks for the directory 76 bytes too far on. */
  lemma LocateMisplaced(b: seq<byte>, base: nat, cdPos: nat, es: seq<Entry>, text: seq<byte>, tolerant: bool, c: Cursor)
    requires IsArchive(b, base, cdPos, es, text) && Zip64Tail(b, base, cdPos, es, text) && base > 0
    requires forall q :: EndPos(cdPos, es, base) + 76 < q <= |b| - 4 ==> !At(b, q, END_SIGNATURE)
    ensures var z := EndPos(cdPos, es, base);
      && z - base + 4 <= |b|
      && (Num(b, z - base, 4) != ZIP64_END_MAGIC ==>
            && Locate(b, tolerant).Some? && var d := Locate(b, tolerant).value;
            && d.entries == Min(|es|, 0xffff) && d.size == |Dir(es, base)| && d.before + d.offset == cdPos + 76
            && (First(b, d, c).ok <==> ParseInfo(b, cdPos + 76).Some?))
  {
    hide Dir, EncodeEnd, EncodeZip64End, EncodeLocator, Num, Locate, At, ParseInfo;
    var z, size := EndPos(cdPos, es, base), |Dir(es, base)|;
    Zip64EndParts(b, base, cdPos, es, text);
    LocatorFound(b, base, cdPos, es, text);
    if Num(b, z - base, 4) != ZIP64_END_MAGIC {
      var f := EndFixed(0, 0, Min(|es|, 0xffff), Min(|es|, 0xffff), size, SENTINEL, |text|);
      LocateEnd(b, z + 76, f, text, tolerant);
      SmallWrap(cdPos + 76);
    }
  }

  // -------------------------------------------------------------- the walk

  /** The record of an entry, with what the reader should make of it. */
  function RecordOf(e: Entry, base: nat): Record
  {
    Record(CentralBytes(e, base), InfoOf(e, base), e.p.name, e.p.comment)
  }

  lemma RecordGood(e: Entry, base: nat)
    requires Listable(e, base)
    ensures RecordOf(e, base).Good()
  {
    hide ParseInfo, ParseFull, CentralBytes, At, Listable;
    ListableParts(e, base);
    forall b, p: nat | At(b, p, CentralBytes(e, base))
      ensures ParseInfo(b, p).Some? && ParseInfo(b, p).value.0 == InfoOf(e, base)
      ensures ParseFull(b, p) == Some((InfoOf(e, base), e.p.name, e.p.comment))
    {
      ParseEntry(b, p, e, base);
    }
  }

  lemma ListableParts(e: Entry, base: nat)
    requires Listable(e, base)
    ensures Decodable(e, base) && Reported(e, base) == Actual(e, base)
  {
  }

  function RecordsOf(es: seq<Entry>, base: nat): seq<Record>
  {
    seq(|es|, i requires 0 <= i < |es| => RecordOf(es[i], base))
  }

  lemma {:induction false} CatIsDir(es: seq<Entry>, base: nat)
    ensures Cat(RecordsOf(es, base)) == Dir(es, base)
  {
    hide CentralBytes, InfoOf;
    if es != [] {
      var front := es[..|es| - 1];
      CatIsDir(front, base);
      assert RecordsOf(es, base)[..|es| - 1] == RecordsOf(front, base);
    }
  }

  /** The reader's directory describes the archive's one. */
  ghost predicate Matches(d: Directory, base: nat, cdPos: nat, es: seq<Entry>)
  {
    && base <= cdPos && d.before == base && d.offset == cdPos - base
    && (d.entries == |es| || d.entries == 0xffff <= |es|)
  }

  lemma ArchiveStands(b: seq<byte>, d: Directory, base: nat, cdPos: nat, es: seq<Entry>, text: seq<byte>)
    requires IsArchive(b, base, cdPos, es, text) && Matches(d, base, cdPos, es) && |b| < U64
    requires forall k :: 0 <= k < |es| ==> Listable(es[k], base)
    ensures Stands(b, d, RecordsOf(es, base))
    ensures d.entries == 0xffff ==> ParseInfo(b, d.before + d.offset + |Cat(RecordsOf(es, base))|) == None
  {
    hide Dir, Cat, Record.Good, Listable, ParseInfo, RecordOf, IsArchive, ZipWriter.EndPart;
    ArchiveParts(b, base, cdPos, es, text);
    CatIsDir(es, base);
    forall i | 0 <= i < |es|
      ensures RecordsOf(es, base)[i].Good()
    {
      RecordGood(es[i], base);
    }
    EndIsNoRecord(b, EndPos(cdPos, es, base), base, cdPos, es, text);
  }

  lemma EndIsNoRecord(b: seq<byte>, z: nat, base: nat, cdPos: nat, es: seq<Entry>, text: seq<byte>)
    requires base <= cdPos
    requires At(b, z, ZipWriter.EndPart(base, cdPos, |Dir(es, base)|, |es|, text))
    ensures ParseInfo(b, z) == None
  {
    hide Dir, Num, DecodeCentral, EncodeEnd, EncodeZip64End, EncodeLocator;
    Pow256Values();
    var size := |Dir(es, base)|;
    var offset := cdPos - base;
    var e := EndFixed(0, 0, Min(|es|, 0xffff), Min(|es|, 0xffff), size % U32, Min(offset, SENTINEL), |text|);
    if offset >= SENTINEL {
      var r, l := Zip64End(0, 0, |es|, |es|, size % U32, offset), EncodeLocator(cdPos + size - base);
      AtConcat(b, z, EncodeZip64End(r) + l + EncodeEnd(e), text);
      AtConcat(b, z, EncodeZip64End(r) + l, EncodeEnd(e));
      AtConcat(b, z, EncodeZip64End(r), l);
      Magics(e, r);
      FirstNumber(b, z, ZIP64_END_MAGIC, EncodeZip64End(r));
    } else {
      assert [] + EncodeEnd(e) + text == EncodeEnd(e) + text;
      AtConcat(b, z, EncodeEnd(e), text);
      Magics(e, Zip64End(0, 0, 0, 0, 0, 0));
      FirstNumber(b, z, END_MAGIC, EncodeEnd(e));
    }
  }

  lemma Magics(e: EndFixed, r: Zip64End)
    ensures EncodeEnd(e)[..4] == Put(END_MAGIC, 4) && EncodeZip64End(r)[..4] == Put(ZIP64_END_MAGIC, 4)
  {
    hide Put;
  }

  lemma FirstNumber(b: seq<byte>, z: nat, magic: nat, s: seq<byte>)
    requires At(b, z, s) && |s| >= 4 && s[..4] == Put(magic, 4) && magic < U32
    ensures z + 4 <= |b| && Num(b, z, 4) == magic
  {
    Pow256Values();
    assert s == s[..4] + s[4..];
    AtConcat(b, z, s[..4], s[4..]);
    NumAt(b, z, magic, 4);
  }

  // ------------------------------------------------------------ opening and reading

  /** A stored, unencrypted entry as the writer closes it. */
  ghost predicate Stored0(e: Entry)
  {
    e.p.compression == 0 && !e.p.raw && !e.p.encrypted && e.usize == |e.payload| && e.crc == Crc(0, e.payload)
  }

  /** Opening any entry that the header check admits makes exactly its payload
      readable; bzip2 entries are never decompressed. */
  lemma OpenDelivers(b: seq<byte>, base: nat, cdPos: nat, es: seq<Entry>, text: seq<byte>, i: nat, raw: bool)
    requires IsArchive(b, base, cdPos, es, text) && i < |es| && Listable(es[i], base) && |b| < U64
    requires es[i].p.compression in {0, Z_DEFLATED, Z_BZIP2ED} && Openable(es[i])
    ensures var e, info := es[i], InfoOf(es[i], base);
      && CheckLocal(b, Wrap64(info.sizes.offset + base), info) == Some(LocalLength(e.p) - 30)
      && var r := ZipReader.StartReading(info, LocalLength(e.p) - 30, raw);
      && r.InFile(b, base) && r.Remaining(b, base) == e.payload
      && r.restUncompressed == e.usize && r.crcWait == e.crc && r.crc == 0
      && r.compression == e.p.compression && (r.raw <==> raw || e.p.compression == 12)
  {
    hide CheckLocal, LocalBytes, IsArchive, At, Wrap64, Available;
    var e := es[i];
    EntryOf(b, base, cdPos, es, text, i);
    AtConcat(b, e.pos, LocalBytes(e), e.payload);
    CheckEntryIff(b, e, base);
    SmallWrap(e.pos);
    SmallWrap(e.pos + LocalLength(e.p));
    AvailableAt(b, e.pos + LocalLength(e.p), e.payload);
  }

  lemma EntryOf(b: seq<byte>, base: nat, cdPos: nat, es: seq<Entry>, text: seq<byte>, i: nat)
    requires IsArchive(b, base, cdPos, es, text) && i < |es|
    ensures EntryAt(b, es[i], cdPos) && cdPos <= |b|
  {
  }

  lemma AvailableAt(b: seq<byte>, p: nat, s: seq<byte>)
    requires At(b, p, s)
    ensures [] + Available(b, p, |s|) == s && p + |s| <= |b|
  {
  }

  // ------------------------------------------------------- what the writer leaves

  lemma EmptyDir(base: nat)
    ensures Dir([], base) == []
  {
  }

  lemma SplitLast(es: seq<Entry>, fs: seq<Entry>)
    requires fs != []
    ensures var front, e := fs[..|fs| - 1], fs[|fs| - 1];
      fs == front + [e] && es + fs == (es + front) + [e]
  {
  }

  lemma {:induction false} DirAppend(es: seq<Entry>, fs: seq<Entry>, base: nat)
    ensures Dir(es + fs, base) == Dir(es, base) + Dir(fs, base)
    decreases |fs|
  {
    hide CentralBytes, Dir, Placed;
    EmptyDir(base);
    if fs == [] {
      assert es + fs == es && Dir(es, base) + [] == Dir(es, base);
    } else {
      var front, e := fs[..|fs| - 1], fs[|fs| - 1];
      SplitLast(es, fs);
      DirAppend(es, front, base);
      calc {
        Dir(es + fs, base);
        { DirSnoc(es + front, e, base); }
        Dir(es, base) + Dir(front, base) + CentralBytes(e, base);
        { Assoc(Dir(es, base), Dir(front, base), CentralBytes(e, base)); }
        Dir(es, base) + (Dir(front, base) + CentralBytes(e, base));
        { DirSnoc(front, e, base); }
        Dir(es, base) + Dir(fs, base);
      }
    }
  }

  lemma PlacedAppend(es: seq<Entry>, fs: seq<Entry>, base: nat)
    requires Placed(es, base) && Placed(fs, base)
    ensures Placed(es + fs, base)
  {
  }

  lemma {:induction false} EntryInBody(es: seq<Entry>, i: nat)
    requires i < |es|
    ensures At(Body(es), |Body(es[..i])|, LocalBytes(es[i]) + es[i].payload)
  {
    hide LocalBytes, Body;
    var n := |es| - 1;
    var front := es[..n];
    assert es == front + [es[n]];
    BodySnoc(front, es[n]);
    var own := LocalBytes(es[n]) + es[n].payload;
    Assoc(Body(front), LocalBytes(es[n]), es[n].payload);
    if i < n {
      EntryInBody(front, i);
      assert front[..i] == es[..i];
      AtInFront(Body(front), own, |Body(es[..i])|, LocalBytes(es[i]) + es[i].payload);
    } else {
      assert es[..i] == front && At(Body(front) + own, |Body(front)|, own);
    }
  }

  lemma OldEntryStays(b: seq<byte>, c: seq<byte>, e: Entry, n: nat, m: nat)
    requires EntryAt(b, e, n) && n <= m && n <= |b| && n <= |c| && c[..n] == b[..n]
    ensures EntryAt(c, e, m)
  {
    hide LocalBytes, At;
    AtFrame(b, c, e.pos, LocalBytes(e) + e.payload, n);
  }

  lemma NewEntryFollows(b: seq<byte>, start: nat, fs: seq<Entry>, k: nat)
    requires At(b, start, Body(fs)) && ZipWriter.Sited(fs, start) && k < |fs|
    ensures EntryAt(b, fs[k], start + |Body(fs)|)
  {
    hide LocalBytes, Body, At;
    var s := LocalBytes(fs[k]) + fs[k].payload;
    EntryInBody(fs, k);
    AtEnds(Body(fs), |Body(fs[..k])|, s);
    AtInside(b, start, Body(fs), |Body(fs[..k])|, s);
  }

  lemma AtEnds(b: seq<byte>, p: nat, s: seq<byte>)
    requires At(b, p, s)
    ensures p + |s| <= |b|
  {
  }

  /** Entries found in the old file stay where they are, new ones follow them. */
  lemma AllEntriesAt(b: seq<byte>, o: ZipWriter.Origin, es: seq<Entry>, fs: seq<Entry>)
    requires o.start <= |o.file| && ZipWriter.Sited(fs, o.start)
    requires forall i :: 0 <= i < |es| ==> EntryAt(o.file, es[i], o.start)
    requires At(b, 0, o.file[..o.start] + Body(fs))
    ensures b[..o.start] == o.file[..o.start]
    ensures forall i :: 0 <= i < |es + fs| ==> EntryAt(b, (es + fs)[i], o.start + |Body(fs)|)
  {
    hide Body, EntryAt, ZipWriter.Sited;
    AtConcat(b, 0, o.file[..o.start], Body(fs));
    assert b[..o.start] == o.file[..o.start];
    forall i | 0 <= i < |es + fs|
      ensures EntryAt(b, (es + fs)[i], o.start + |Body(fs)|)
    {
      if i < |es| {
        OldEntryStays(o.file, b, es[i], o.start, o.start + |Body(fs)|);
      } else {
        NewEntryFollows(b, o.start, fs, i - |es|);
      }
    }
  }

  /** What zipClose leaves behind is an archive of the old entries followed by the new
      ones, provided the new file is at least as long as the old one. */
  lemma ClosedArchive(b: seq<byte>, p: nat, o: ZipWriter.Origin, base: nat, es: seq<Entry>, fs: seq<Entry>, text: seq<byte>)
    requires base <= o.start <= |o.file| && Placed(es, base) && Placed(fs, base) && ZipWriter.Sited(fs, o.start)
    requires o.dir == Dir(es, base) && o.count == |es|
    requires forall i :: 0 <= i < |es| ==> EntryAt(o.file, es[i], o.start)
    requires var done, dir := ZipWriter.Done(o, fs), o.dir + Dir(fs, base);
      ZipWriter.Holds(b, p, done + dir + ZipWriter.EndPart(base, |done|, |dir|, |es| + |fs|, text), o.file)
    requires |o.file| <= p
    ensures IsArchive(b, base, o.start + |Body(fs)|, es + fs, text)
    ensures b[..o.start] == o.file[..o.start]
  {
    hide Dir, Body, ZipWriter.EndPart, LocalBytes, EntryAt, ZipWriter.Sited, ZipWriter.Holds, At, Placed, IsArchive;
    PlacedAppend(es, fs, base);
    var done, dir := ZipWriter.Done(o, fs), o.dir + Dir(fs, base);
    var part := ZipWriter.EndPart(base, |done|, |dir|, |es| + |fs|, text);
    DirAppend(es, fs, base);
    HoldsAll(b, p, done + dir + part, o.file);
    Suffix(done, dir, part);
    AllEntriesAt(b, o, es, fs);
    assert |done| == o.start + |Body(fs)| && |es + fs| == |es| + |fs|;
    MakeArchive(b, base, |done|, es + fs, text);
  }

  lemma MakeArchive(b: seq<byte>, base: nat, cdPos: nat, es: seq<Entry>, text: seq<byte>)
    requires base <= cdPos <= |b| && Placed(es, base)
    requires b[cdPos..] == Dir(es, base) + ZipWriter.EndPart(base, cdPos, |Dir(es, base)|, |es|, text)
    requires forall i :: 0 <= i < |es| ==> EntryAt(b, es[i], cdPos)
    ensures IsArchive(b, base, cdPos, es, text)
  {
  }

  lemma HoldsAll(b: seq<byte>, p: nat, s: seq<byte>, original: seq<byte>)
    requires ZipWriter.Holds(b, p, s, original) && |original| <= p
    ensures b == s
  {
  }

  lemma Suffix(done: seq<byte>, dir: seq<byte>, part: seq<byte>)
    ensures At(done + dir + part, 0, done) && (done + dir + part)[|done|..] == dir + part
  {
  }

  /** Re-opening and closing never makes an archive shorter, so nothing of the old end
      survives behind the new one. */
  lemma NoStaleTail(b: seq<byte>, base: nat, cdPos: nat, es: seq<Entry>, fs: seq<Entry>, text: seq<byte>)
    requires IsArchive(b, base, cdPos, es, text)
    ensures |b| <= cdPos + |Body(fs)| + |Dir(es, base) + Dir(fs, base)|
      + |ZipWriter.EndPart(base, cdPos + |Body(fs)|, |Dir(es, base) + Dir(fs, base)|, |es| + |fs|, text)|
  {
    hide Dir, Body, EncodeEnd, EncodeZip64End, EncodeLocator;
  }

  /** The count taken over from an ordinary end record is right, or is not needed
      because the new end is an ordinary one too. */
  predicate CountKept(n: nat, offset: nat)
  {
    n <= 0xffff || offset < SENTINEL
  }

  /** When the count matters. */
  lemma EndPartCount(base: nat, cdPos: nat, size: nat, n: nat, k: nat, text: seq<byte>)
    requires base <= cdPos
    ensures var found, right := ZipWriter.EndPart(base, cdPos, size, Min(n, 0xffff) + k, text),
                                ZipWriter.EndPart(base, cdPos, size, n + k, text);
      && |found| == |right|
      && (CountKept(n, cdPos - base) ==> found == right)
      && (!CountKept(n, cdPos - base) && n + k < U64 ==> found != right)
  {
    hide EncodeEnd, EncodeLocator, EncodeZip64End, DecodeZip64End;
    if !CountKept(n, cdPos - base) && n + k < U64 {
      EndPartTells(base, cdPos, size, Min(n, 0xffff) + k, text);
      EndPartTells(base, cdPos, size, n + k, text);
    }
  }

  /** The zip64 record holds the count. */
  lemma EndPartTells(base: nat, cdPos: nat, size: nat, n: nat, text: seq<byte>)
    requires base + SENTINEL <= cdPos && n < U64
    ensures |ZipWriter.EndPart(base, cdPos, size, n, text)| >= 40
    ensures ZipWriter.EndPart(base, cdPos, size, n, text)[32..40] == Put(n, 8) && Get(Put(n, 8)) == n
  {
    hide EncodeEnd, EncodeLocator, Put;
    Pow256Values();
    GetPut(n, 8);
  }
}
