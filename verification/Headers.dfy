/** What the headers of an entry record, field by field, against the arguments it was opened
    with. */
module Headers {
  import opened Bytes
  import opened Format
  import opened EndRecord
  import opened Entry
  import opened Archive
  import opened Checksum
  import opened ChecksumLaws
  import Repair
  import ZipWriter

  /** Setting a bit leaves the others alone. */
  lemma {:induction false} OrBitSets(x: nat, n: nat, i: nat)
    ensures Bit(OrBit(x, Pow2(n)), i) == if i == n then 1 else Bit(x, i)
    decreases n
  {
    if n == 0 {
      if i > 0 {
        assert OrBit(x, 1) / 2 == x / 2;
      }
    } else {
      var m := Pow2(n - 1);
      OrBitHalved(x, m);
      if i > 0 {
        OrBitSets(x / 2, n - 1, i - 1);
      }
    }
  }

  lemma OrBitHalved(x: nat, m: nat)
    requires m > 0
    ensures OrBit(x, 2 * m) % 2 == x % 2 && OrBit(x, 2 * m) / 2 == OrBit(x / 2, m)
  {
    DivTwice(x, m);
  }

  /** Bit 0 tells encryption, bits 1 and 2 the level, the others are those passed in. */
  lemma FlagBits(p: Params, i: nat)
    ensures Bit(p.Flag(), i) == 1 <==>
      || Bit(p.flagBase, i) == 1
      || (i == 0 && p.encrypted)
      || (i == 1 && p.level in {1, 8, 9})
      || (i == 2 && p.level in {1, 2})
  {
    hide OrBit, Bit;
    assert Pow2(0) == 1 && Pow2(1) == 2 && Pow2(2) == 4;
    var f1 := if p.level == 8 || p.level == 9 || p.level == 1 then OrBit(p.flagBase, 2) else p.flagBase;
    var f2 := if p.level == 2 || p.level == 1 then OrBit(f1, 4) else f1;
    OrBitSets(p.flagBase, 1, i);
    OrBitSets(f1, 2, i);
    OrBitSets(f2, 0, i);
  }

  /** The signatures as the bytes they are. */
  lemma SignatureBytes()
    ensures Put(LOCAL_MAGIC, 4) == [0x50, 0x4b, 3, 4] && Put(CENTRAL_MAGIC, 4) == [0x50, 0x4b, 1, 2]
    ensures Put(END_MAGIC, 4) == [0x50, 0x4b, 5, 6] && Put(ZIP64_END_MAGIC, 4) == [0x50, 0x4b, 6, 6]
    ensures Put(LOCATOR_MAGIC, 4) == [0x50, 0x4b, 6, 7]
  {
    Signatures();
  }

  /** A record tells everything about the entry that the caller gave. */
  lemma InfoTells(e: Entry, base: nat)
    requires base <= e.pos
    ensures Tells(InfoOf(e, base), e, base)
  {
  }

  // ------------------------------------------------------------ local headers

  /** What stands in the local header of a closed entry and behind it. The sizes are in the
      header, or from 0xffffffff bytes on in the zip64 record at the end of the extra
      field, the size of the contents first. */
  lemma LocalTells(b: seq<byte>, p: nat, e: Entry)
    requires At(b, p, LocalBytes(e)) && e.p.InRange() && e.crc < U32
    ensures p + 30 <= |b|
    ensures var l := DecodeLocal(b, p);
      && l.flag == e.p.Flag() && l.compression == e.p.compression && l.dosDate == e.p.dosDate && l.crc == e.crc
      && l.need == (if e.p.zip64 then 45 else 20)
      && l.nameLen == |e.p.name| && l.extraLen == |e.p.extraLocal| + (if e.p.zip64 then 20 else 0)
      && (e.usize < 0xffff_ffff ==> l.usize == e.usize && l.csize == Min(e.Csize(), 0xffff_ffff))
    ensures At(b, p + 30, e.p.name) && At(b, p + 30 + |e.p.name|, e.p.extraLocal)
    ensures e.p.zip64 ==>
      var r := p + 30 + |e.p.name| + |e.p.extraLocal|;
      At(b, r, [1, 0, 16, 0]) && (e.usize >= 0xffff_ffff ==> At(b, r + 4, Put(e.usize, 8)) && At(b, r + 12, Put(e.Csize(), 8)))
  {
    hide Put, EncodeLocal, DecodeLocal, At;
    FlagInRange(e.p);
    LocalParts(b, p, e);
    LocalRoundTrip(b, p, StoredLocal(e));
    var u, c := if e.usize >= SENTINEL then e.usize else 0, if e.usize >= SENTINEL then e.Csize() else 0;
    TailBehind(b, p, e);
    TailParts(b, p + 30, e.p, u, c);
  }

  lemma TailBehind(b: seq<byte>, p: nat, e: Entry)
    requires At(b, p, LocalBytes(e))
    ensures At(b, p + 30, if e.usize >= SENTINEL then LocalTail(e.p, e.usize, e.Csize()) else LocalTail(e.p, 0, 0))
  {
    hide Put, EncodeLocal, At, LocalTail;
    if e.usize >= SENTINEL {
      AtConcat(b, p, EncodeLocal(StoredLocal(e)), LocalTail(e.p, e.usize, e.Csize()));
    } else {
      AtConcat(b, p, EncodeLocal(LocalHeader(e.p, e.crc, e.Csize(), e.usize)), LocalTail(e.p, 0, 0));
    }
  }

  lemma TailParts(b: seq<byte>, q: nat, p: Params, u: nat, c: nat)
    requires At(b, q, LocalTail(p, u, c))
    ensures At(b, q, p.name) && At(b, q + |p.name|, p.extraLocal)
    ensures p.zip64 ==>
      var r := q + |p.name| + |p.extraLocal|;
      At(b, r, [1, 0, 16, 0]) && At(b, r + 4, Put(u, 8)) && At(b, r + 12, Put(c, 8))
  {
    hide Put, At;
    AtConcat(b, q, p.name + p.extraLocal, LocalZip64(p, u, c));
    AtConcat(b, q, p.name, p.extraLocal);
    if p.zip64 {
      var r, h := q + |p.name| + |p.extraLocal|, Put(1, 2) + Put(16, 2);
      AtConcat(b, r, h + Put(u, 8), Put(c, 8));
      AtConcat(b, r, h, Put(u, 8));
      ZeroExtended();
    }
  }

  lemma ZeroExtended()
    ensures Put(1, 2) + Put(16, 2) == [1, 0, 16, 0]
  {
  }

  /** What the end record of an archive says: the number of entries as far as it fits, the
      low 32 bits of the size of the directory, its place, and the comment. */
  lemma EndTells(b: seq<byte>, z: nat, base: nat, cdPos: nat, size: nat, count: nat, text: seq<byte>)
    requires base <= cdPos && cdPos - base < 0xffff_ffff && |text| < 0x1_0000
    requires At(b, z, ZipWriter.EndPart(base, cdPos, size, count, text))
    ensures z + 22 + |text| <= |b| && At(b, z, [0x50, 0x4b, 5, 6]) && At(b, z + 22, text)
    ensures DecodeEnd(b, z) ==
      EndFixed(0, 0, Min(count, 65535), Min(count, 65535), size % 0x1_0000_0000, cdPos - base, |text|)
  {
    hide EncodeEnd, DecodeEnd, Put, At;
    SignatureBytes();
    var f := EndFixed(0, 0, Min(count, 0xffff), Min(count, 0xffff), size % U32, cdPos - base, |text|);
    assert [] + EncodeEnd(f) + text == EncodeEnd(f) + text;
    AtConcat(b, z, EncodeEnd(f), text);
    EndRoundTrip(b, z, f);
    InFile(b, z + 22, text);
  }

  lemma InFile(b: seq<byte>, p: nat, s: seq<byte>)
    requires At(b, p, s)
    ensures p + |s| <= |b|
  {
  }

  /** What repair records of an entry, wherever it stands: everything in its header, and the
      low 32 bits of its place. */
  lemma RepairTells(b: seq<byte>, p: nat, f: LocalFixed, offset: nat)
    requires At(b, p, EncodeCentral(Repair.CentralOf(f, offset))) && f.InRange()
    ensures p + 46 <= |b| && Repair.TakenOver(DecodeCentral(b, p), f)
    ensures DecodeCentral(b, p).offset == offset % 0x1_0000_0000
  {
    hide EncodeCentral, DecodeCentral, At;
    CentralRoundTrip(b, p, Repair.CentralOf(f, offset));
  }

  /** And of all of them. */
  lemma RepairEndTells(b: seq<byte>, z: nat, r: Repair.Recovery)
    requires At(b, z, Repair.RepairedEnd(r))
    ensures z + 22 <= |b| && DecodeEnd(b, z) ==
      EndFixed(0, 0, Min(r.entries, 65535), Min(r.entries, 65535), |r.cd| % 0x1_0000_0000, |r.out| % 0x1_0000_0000, 0)
  {
    hide EncodeEnd, DecodeEnd, At;
    EndRoundTrip(b, z, Repair.RepairedFields(r.entries, |r.cd|, |r.out|));
  }
}
