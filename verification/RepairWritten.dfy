/** unzRepair on an archive that this writer has just written: nothing is lost. */
module RepairWritten {
  import opened Bytes
  import opened Format
  import opened Stream
  import opened Checksum
  import opened DataBlocks
  import opened EndRecord
  import opened Entry
  import opened Records
  import opened Archive
  import opened Catalog
  import opened Repair
  import ZipWriter
  import RoundTrip

  /** A closed entry as a local entry. With the zip64 flag its extra field ends in a zip64
      record, which holds zeros when the sizes are in the header. */
  function AsLocal(e: Entry): Local
  {
    Local(LocalHeader(e.p, e.crc, e.Csize(), e.usize), e.p.name, e.p.extraLocal,
          if e.p.zip64 then Some(Put(0, 8) + Put(0, 8)) else None, e.payload)
  }

  /** What repair can cope with: names and extra fields that fit its buffers, and sizes
      below 2 GB. */
  ghost predicate Mendable(p: Params)
  {
    p.InRange() && 1 <= |p.name| <= 256 && |p.extraLocal| + 20 <= 1024 && WellFormed(p.extraLocal)
  }

  lemma AsLocalGood(e: Entry)
    requires Mendable(e.p) && e.crc < U32 && e.usize < SENTINEL && e.Csize() < 0x8000_0000
    requires e.Csize() == 0 ==> e.usize == 0
    ensures AsLocal(e).Good() && AsLocal(e).Bytes() == LocalBytes(e) + e.payload
  {
    hide Put, EncodeLocal, WellFormed;
    FlagInRange(e.p);
  }

  function AsLocals(es: seq<Entry>): (ls: seq<Local>)
    ensures |ls| == |es| && forall i :: 0 <= i < |es| ==> ls[i] == AsLocal(es[i])
  {
    seq(|es|, i requires 0 <= i < |es| => AsLocal(es[i]))
  }

  lemma {:induction false} LocalsSnoc(ls: seq<Local>, l: Local)
    ensures Locals(ls + [l]) == Locals(ls) + l.Bytes()
    decreases |ls|
  {
    hide Local.Bytes;
    if ls == [] {
      assert [] + [l] == [l] && [l][1..] == [];
      assert l.Bytes() + [] == [] + l.Bytes();
    } else {
      assert (ls + [l])[1..] == ls[1..] + [l];
      LocalsSnoc(ls[1..], l);
      Assoc(ls[0].Bytes(), Locals(ls[1..]), l.Bytes());
    }
  }

  ghost predicate AllGood(es: seq<Entry>)
  {
    forall i :: 0 <= i < |es| ==> AsLocal(es[i]).Good() && AsLocal(es[i]).Bytes() == LocalBytes(es[i]) + es[i].payload
  }

  /** The entries of an archive are local entries one after the other. */
  lemma {:induction false} LocalsAreBody(es: seq<Entry>)
    requires AllGood(es)
    ensures Locals(AsLocals(es)) == Body(es)
  {
    hide Local.Bytes, Local.Good, AsLocal, Locals, Body, LocalBytes;
    if es == [] {
      NoLocals();
    } else {
      var front, e := es[..|es| - 1], es[|es| - 1];
      assert es == front + [e];
      assert AllGood(front);
      LocalsAreBody(front);
      BodySnoc(front, e);
      assert AsLocals(es) == AsLocals(front) + [AsLocal(e)];
      LocalsSnoc(AsLocals(front), AsLocal(e));
      Assoc(Body(front), LocalBytes(e), e.payload);
    }
  }

  lemma NoLocals()
    ensures Locals([]) == [] && Body([]) == []
  {
  }

  lemma {:induction false} FirstInDir(es: seq<Entry>)
    requires es != []
    ensures At(Dir(es, 0), 0, EncodeCentral(CentralHeader(es[0], 0)))
  {
    hide EncodeCentral, CentralZip64, CentralHeader, Dir, CentralBytes;
    var front, e := es[..|es| - 1], es[|es| - 1];
    assert es == front + [e];
    DirSnoc(front, e, 0);
    if front == [] {
      EmptyDir(0);
      assert [] + CentralBytes(e, 0) == CentralBytes(e, 0);
      StartsRecord(e);
    } else {
      FirstInDir(front);
      AtFront(Dir(front, 0), CentralBytes(e, 0), EncodeCentral(CentralHeader(es[0], 0)));
    }
  }

  lemma StartsRecord(e: Entry)
    ensures At(CentralBytes(e, 0), 0, EncodeCentral(CentralHeader(e, 0)))
  {
    hide EncodeCentral, CentralZip64, CentralHeader;
  }

  lemma AtFront(s: seq<byte>, t: seq<byte>, x: seq<byte>)
    requires At(s, 0, x)
    ensures At(s + t, 0, x)
  {
  }

  lemma CentralMagic(f: CentralFixed)
    ensures EncodeCentral(f)[..4] == Put(CENTRAL_MAGIC, 4)
  {
    hide Put;
  }

  /** The directory is no local entry. */
  lemma DirectoryStops(es: seq<Entry>, part: seq<byte>)
    requires es != []
    ensures Stops(Dir(es, 0) + part)
  {
    hide Num, EncodeCentral, CentralHeader, Dir;
    var f := CentralHeader(es[0], 0);
    FirstInDir(es);
    CentralMagic(f);
    AtFront(Dir(es, 0), part, EncodeCentral(f));
    FirstNumber(Dir(es, 0) + part, 0, CENTRAL_MAGIC, EncodeCentral(f));
  }

  /** An archive as written is local entries followed by something that is none, so that
      repair recovers every entry and keeps its place. */
  lemma WrittenRecovers(es: seq<Entry>, text: seq<byte>)
    requires es != [] && AllGood(es)
    ensures var b, r, ls := RoundTrip.Whole(es, text), Recover(RoundTrip.Whole(es, text), 0), AsLocals(es);
      && r.ok && r.out == Body(es) && r.entries == |es| && r.out + r.cd + RepairedEnd(r) == Repaired(ls)
      && b == Locals(ls) + b[|Body(es)|..] && Stops(b[|Body(es)|..])
  {
    hide Dir, Body, ZipWriter.EndPart, Locals, Local.Good, Recover, Repaired, AsLocals, RepairedEnd, Stops, Local.Framed;
    var ls, b := AsLocals(es), RoundTrip.Whole(es, text);
    var part := ZipWriter.EndPart(0, |Body(es)|, |Dir(es, 0)|, |es|, text);
    LocalsAreBody(es);
    DirectoryStops(es, part);
    Assoc(Body(es), Dir(es, 0), part);
    assert b[|Body(es)|..] == Dir(es, 0) + part;
    LocalsGood(es);
    GoodFramed(ls);
    RepairRebuilds(ls, Dir(es, 0) + part);
    RecoverLocals(Locals(ls) + (Dir(es, 0) + part), 0, ls, Dir(es, 0) + part);
  }

  lemma LocalsGood(es: seq<Entry>)
    requires AllGood(es)
    ensures |AsLocals(es)| == |es| && forall k :: 0 <= k < |es| ==> AsLocals(es)[k].Good()
  {
    hide Local.Good, AsLocal, Local.Bytes, LocalBytes;
    forall k | 0 <= k < |es|
      ensures AsLocals(es)[k].Good()
    {
      assert AsLocal(es[k]).Good();
    }
  }

  /** Jobs that the writer, the reader and repair can all cope with. */
  ghost predicate Modest(j: RoundTrip.Job)
  {
    j.Plain() && Mendable(j.p) && |Join(j.pieces)| < 0x8000_0000
  }

  lemma JobsGood(es: seq<Entry>, jobs: seq<RoundTrip.Job>)
    requires RoundTrip.Recorded(es, jobs) && forall i :: 0 <= i < |jobs| ==> Modest(jobs[i])
    ensures AllGood(es)
  {
    hide Join, Crc, Mendable, AsLocal, Local.Good, Local.Bytes, LocalBytes;
    forall k | 0 <= k < |es|
      ensures AsLocal(es[k]).Good() && AsLocal(es[k]).Bytes() == LocalBytes(es[k]) + es[k].payload
    {
      assert RoundTrip.Holds1(es[k], jobs[k]) && Modest(jobs[k]);
      RoundTrip.CrcRange32(es[k].payload);
      AsLocalGood(es[k]);
    }
  }

  /** A file below 2 GB whose end record the reader finds. */
  predicate Searchable(b: seq<byte>)
  {
    22 <= |b| && |b| < 0x8000_0000 && EndFound(b, |b| - 22, 0)
  }

  /** Write an archive, let repair make another one of it, and list that: every entry is
      there again, with its name, its checksum and its contents. */
  method WriteThenRepair(jobs: seq<RoundTrip.Job>, text: seq<byte>)
    returns (repaired: seq<byte>, files: seq<Listed>, last: Code)
    requires jobs != [] && forall i :: 0 <= i < |jobs| ==> Modest(jobs[i])
    ensures Searchable(repaired) ==>
      && |files| == |jobs| && last == (if |jobs| < 0xffff then UnzEndOfList else UnzError)
      && forall i :: 0 <= i < |jobs| ==>
           && files[i].name == jobs[i].p.name && files[i].data == Join(jobs[i].pieces)
           && files[i].admitted && files[i].passed
           && files[i].info.sizes.usize == files[i].info.sizes.csize == |files[i].data|
           && files[i].info.fixed.crc == Crc(0, files[i].data)
  {
    hide Searchable, AllGood, AsLocals, Recover, Repaired, RepairedEnd, Stops, Locals, Local.Good, RoundTrip.Whole,
      RoundTrip.Recorded, Body, Findable, Modest, Relisted, RoundTrip.EndsPlainly, IsArchive, ZipWriter.CString,
      ZipWriter.Sited, RoundTrip.Readable, PlainDirectory, RepairedDirectory, RecordsFor, Stands, ParseInfo, Locate,
      ListedAs, Held, Cat;
    var f := new File([]);
    JobsPlain(jobs);
    ghost var es := RoundTrip.WriteArchive(f, jobs, text);
    JobsGood(es, jobs);
    SomeEntries(es, jobs);
    ghost var ls := AsLocals(es);
    WrittenRecovers(es, ZipWriter.CString(text));
    LocalsGood(es);
    var zip := new File(f.bytes);
    var out := new File([]);
    var cd := new File([]);
    var ok, n, total := UnzRepair(zip, out, cd);
    repaired, files, last := out.bytes, [], UnzOk;
    if Searchable(repaired) {
      SearchableFindable(ls);
      RepairThenOpen(ls);
      RelistedAll(ls);
      RepairedCount(ls);
      files, last := OpenAndList(out, RepairedDirectory(ls), RecordsFor(ls, 0));
      AllRelisted(es, jobs);
    }
  }

  lemma JobsPlain(jobs: seq<RoundTrip.Job>)
    requires forall i :: 0 <= i < |jobs| ==> Modest(jobs[i])
    ensures forall i :: 0 <= i < |jobs| ==> jobs[i].Plain()
  {
    hide Mendable, Join;
  }

  lemma SomeEntries(es: seq<Entry>, jobs: seq<RoundTrip.Job>)
    requires RoundTrip.Recorded(es, jobs)
    ensures |es| == |jobs|
  {
  }

  lemma SearchableFindable(ls: seq<Local>)
    requires Searchable(Repaired(ls))
    ensures Findable(ls)
  {
    hide Repaired, EndFound, Locals, RecordsFor, Cat;
    RepairedParts(ls);
  }

  lemma AllRelisted(es: seq<Entry>, jobs: seq<RoundTrip.Job>)
    requires RoundTrip.Recorded(es, jobs) && forall i :: 0 <= i < |jobs| ==> Modest(jobs[i])
    ensures |AsLocals(es)| == |jobs| && forall i, p: nat :: 0 <= i < |jobs| ==>
      var file := Relisted(AsLocals(es)[i], p);
      && file.name == jobs[i].p.name && file.data == Join(jobs[i].pieces) && file.admitted && file.passed
      && file.info.sizes.usize == file.info.sizes.csize == |file.data| && file.info.fixed.crc == Crc(0, file.data)
  {
    hide Join, Crc, Mendable;
    forall i, p: nat | 0 <= i < |jobs|
      ensures var file := Relisted(AsLocals(es)[i], p);
        && file.name == jobs[i].p.name && file.data == Join(jobs[i].pieces) && file.admitted && file.passed
        && file.info.sizes.usize == file.info.sizes.csize == |file.data| && file.info.fixed.crc == Crc(0, file.data)
    {
      assert RoundTrip.Holds1(es[i], jobs[i]) && Modest(jobs[i]);
      assert AsLocals(es)[i] == AsLocal(es[i]);
    }
  }
}
