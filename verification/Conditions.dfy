/** What the conditions of the main results amount to: which arguments, extra fields and
    files meet them. */
module Conditions {
  import opened Bytes
  import opened Format
  import opened DataBlocks
  import opened EndSearch
  import opened EndRecord
  import opened Entry
  import opened Archive
  import opened Catalog
  import ExtraBlocks
  import Leading
  import Repair
  import RepairWritten
  import RoundTrip

  /** An ordinary job: a name, a date, an extra field and a comment that fit, and nothing
      else asked for. Every one below 4 GB can be written and read back, and with a short
      name and extra field, below 2 GB, also repaired. */
  lemma OrdinaryJob(name: seq<byte>, date: nat, extra: seq<byte>, comment: seq<byte>, level: int, zip64: bool,
                    pieces: seq<seq<byte>>)
    requires |name| < 0x1_0000 && date < U32 && |extra| + 28 < 0x1_0000 && WellFormed(extra) && |comment| < 0x1_0000
    requires |Join(pieces)| < 0xffff_ffff
    ensures var j := RoundTrip.Job(Params(name, date, 0, 0, extra, extra, comment, 0, level, false, false, 0, 0, zip64), pieces);
      && j.Plain() && j.Fits()
      && (1 <= |name| <= 256 && |extra| <= 1004 && |Join(pieces)| < 0x8000_0000 ==> RepairWritten.Modest(j))
  {
    hide Join, WellFormed;
  }

  /** An entry of any size, opened with the zip64 flag and without a comment, can be made
      out and opened. */
  lemma LargeEntry(e: Entry, base: nat)
    requires Stored0(e) && e.p.InRange() && WellFormed(e.p.extraGlobal) && base <= e.pos
    requires e.p.zip64 && e.p.comment == [] && |e.payload| < U64 && e.pos < U64
    ensures RoundTrip.Sizeable(e, base)
  {
    hide WellFormed, Params.InRange;
    RoundTrip.CrcRange32(e.payload);
  }

  /** A field of whole records is well-formed exactly if none of them is a zip64 one. */
  lemma {:induction false} WellFormedIff(rs: seq<ExtraBlocks.Block>)
    requires ExtraBlocks.AllSound(rs)
    ensures WellFormed(ExtraBlocks.Field(rs)) <==> forall k | 0 <= k < |rs| :: rs[k].id != 1
  {
    if rs != [] {
      var r, rest := rs[0], ExtraBlocks.Field(rs[1..]);
      ExtraBlocks.EncodeFields(r, rest);
      WellFormedIff(rs[1..]);
      hide WellFormed, ExtraBlocks.Encode, Num;
      WellFormedStep(ExtraBlocks.Field(rs), 4 + |r.data|, rest);
      assert rs == [r] + rs[1..];
    }
  }

  lemma WellFormedStep(s: seq<byte>, n: nat, rest: seq<byte>)
    requires |s| >= 4 && n == 4 + Num(s, 2, 2) <= |s| && s[n..] == rest
    ensures WellFormed(s) <==> Num(s, 0, 2) != 1 && WellFormed(rest)
  {
    hide Num;
  }

  /** The end record at z is the one used exactly if the backward scans say so. */
  lemma EndFoundExactly(b: seq<byte>, z: nat, n: nat)
    requires At(b, z, END_SIGNATURE) && |b| == z + 22 + n && z != 0
    ensures EndFound(b, z, n) <==> |b| < U64 && Zip64EndPos(b) == 0 && LastSignature(b, END_SIGNATURE) == z
  {
    hide Zip64EndPos, LastSignature, At;
    EndFoundIff(b, z, END_SIGNATURE);
  }

  lemma OrdinaryIff(b: seq<byte>, text: seq<byte>)
    requires 22 + |text| < |b| && At(b, |b| - 22 - |text|, END_SIGNATURE)
    ensures Leading.Ordinary(b, text) <==>
      |b| < 0xffff_ffff && Zip64EndPos(b) == 0 && LastSignature(b, END_SIGNATURE) == |b| - 22 - |text|
  {
    hide EndFound, Zip64EndPos, LastSignature, At;
    EndFoundExactly(b, |b| - 22 - |text|, |text|);
  }

  lemma SearchableIff(b: seq<byte>)
    requires 22 < |b| && At(b, |b| - 22, END_SIGNATURE)
    ensures RepairWritten.Searchable(b) <==>
      |b| < 0x8000_0000 && Zip64EndPos(b) == 0 && LastSignature(b, END_SIGNATURE) == |b| - 22
  {
    hide EndFound, Zip64EndPos, LastSignature, At;
    EndFoundExactly(b, |b| - 22, 0);
  }

  /** A repaired file is in order exactly if the reader finds its directory. */
  lemma FindableIff(ls: seq<Repair.Local>)
    requires ls != [] && |Repair.Repaired(ls)| < 0x8000_0000 + 22
    ensures Repair.Findable(ls) <==> Locate(Repair.Repaired(ls), false) == Some(Repair.RepairedDirectory(ls))
  {
    hide Cat, EndFound, Repair.Locals, Repair.RecordsFor, Repair.Repaired, Repair.RepairedFields;
    hide Zip64EndPos, LastSignature, At, EncodeEnd, Locate, DecodeEnd, DecodeZip64End;
    var b, l, c := Repair.Repaired(ls), |Repair.Locals(ls)|, |Cat(Repair.RecordsFor(ls, 0))|;
    var f := Repair.RepairedFields(|ls|, c, l);
    Repair.RepairedParts(ls);
    Repair.SomeBytes(ls);
    AtEndSignature(b, l + c, f);
    EndFoundExactly(b, l + c, 0);
    if Repair.Findable(ls) {
      Repair.LocateRepaired(ls);
    } else {
      FoundThere(b);
    }
  }

  lemma AtEndSignature(b: seq<byte>, z: nat, f: EndFixed)
    requires At(b, z, EncodeEnd(f))
    ensures At(b, z, END_SIGNATURE)
  {
    hide EncodeEnd, At;
    var s := EncodeEnd(f);
    Magics(f, Zip64End(0, 0, 0, 0, 0, 0));
    Signatures();
    assert s == s[..4] + s[4..];
    AtConcat(b, z, s[..4], s[4..]);
  }

  lemma FoundThere(b: seq<byte>)
    ensures var d := Locate(b, false);
      d.Some? && !d.value.zip64 ==> Zip64EndPos(b) == 0 && LastSignature(b, END_SIGNATURE) == d.value.centralPos
  {
    hide Zip64EndPos, LastSignature, DecodeEnd, DecodeZip64End;
  }

  /** The locator at the end of a large archive is the one used exactly if the scan finds
      no other one behind it. */
  lemma Zip64TailIff(b: seq<byte>, base: nat, cdPos: nat, es: seq<Entry>, text: seq<byte>)
    requires IsArchive(b, base, cdPos, es, text) && cdPos - base >= 0xffff_ffff && |Dir(es, base)| < U32
    requires |b| < U64 && |es| < U64
    ensures Zip64Tail(b, base, cdPos, es, text) <==>
      LastSignature(b, LOCATOR_SIGNATURE) == EndPos(cdPos, es, base) + 56
  {
    hide Dir, EncodeEnd, EncodeZip64End, EncodeLocator, At, LastSignature, EntryAt;
    var z := EndPos(cdPos, es, base);
    Zip64EndParts(b, base, cdPos, es, text);
    Signatures();
    var s := EncodeLocator(z - base);
    LocatorMagic(z - base);
    assert s == s[..4] + s[4..];
    AtConcat(b, z + 56, s[..4], s[4..]);
    EndFoundIff(b, z + 56, LOCATOR_SIGNATURE);
  }

  lemma LocatorMagic(x: nat)
    ensures EncodeLocator(x)[..4] == Put(LOCATOR_MAGIC, 4)
  {
    hide Put;
  }
}
