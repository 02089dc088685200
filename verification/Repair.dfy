/** unzRepair: rebuilding a central directory from the local headers of a file. */
module Repair {
  import opened Bytes
  import opened Format
  import opened Stream
  import opened EndRecord
  import opened Records
  import opened Catalog
  import opened Archive
  import opened Checksum
  import ZipReader
  import RoundTrip

  /** The size of the data behind a header, as the 32-bit int of the C code: a number
      from 2^31 on is negative and stands for no data. */
  function DataSize(f: LocalFixed): nat
  {
    var size := if f.csize == 0 then f.usize else f.csize;
    if size < 0x8000_0000 then size else 0
  }

  /** The directory record for a local header at the given offset, of which 32 bits are
      stored. */
  function CentralOf(f: LocalFixed, offset: nat): CentralFixed
  {
    CentralFixed(f.need, f.need, f.flag, f.compression, f.dosDate, f.crc, f.csize, f.usize,
                 f.nameLen, f.extraLen, 0, 0, 0, 0, offset % U32)
  }

  /** What is recovered from position p on: whether no read failed, the bytes for the
      output, the directory records, their number, and the bytes of data. */
  datatype Recovery = Recovery(ok: bool, out: seq<byte>, cd: seq<byte>, entries: nat, total: nat)

  function Before(a: Recovery, r: Recovery): Recovery
  {
    Recovery(r.ok, a.out + r.out, a.cd + r.cd, a.entries + r.entries, a.total + r.total)
  }

  /** The length of the entry whose header stands at p. */
  function EntryLength(f: LocalFixed): nat
  {
    30 + f.nameLen + f.extraLen + DataSize(f)
  }

  /** The entry at p as a recovered one, or the part of it that was copied before a
      read failed. An entry without a name is an error. */
  function One(b: seq<byte>, p: nat): Recovery
    requires p + 30 <= |b|
  {
    var f := DecodeLocal(b, p);
    var q := p + 30 + f.nameLen;
    if f.nameLen == 0 || q > |b| then Recovery(false, b[p..p + 30], [], 0, 0)
    else if q + f.extraLen > |b| then Recovery(false, b[p..q], [], 0, 0)
    else if q + f.extraLen + DataSize(f) > |b| then Recovery(false, b[p..q + f.extraLen], [], 0, 0)
    else
      Recovery(true, b[p..p + EntryLength(f)],
               EncodeCentral(CentralOf(f, p)) + b[p + 30..q + f.extraLen], 1, DataSize(f))
  }

  /** The data of an entry: the compressed size tells its length, or the other one if that
      is zero; from 2^31 on a size counts as none. */
  lemma DataLength(f: LocalFixed)
    ensures f.csize == 0 && f.usize < 0x8000_0000 ==> DataSize(f) == f.usize
    ensures 0 < f.csize < 0x8000_0000 ==> DataSize(f) == f.csize
    ensures (f.csize == 0 && f.usize >= 0x8000_0000) || f.csize >= 0x8000_0000 ==> DataSize(f) == 0
  {
  }

  /** An entry is recovered exactly if it has a name and is there to its end; repair then
      goes on behind it, and otherwise gives up, having copied no more than was there. */
  lemma OneOkIff(b: seq<byte>, p: nat)
    requires p + 30 <= |b| && Num(b, p, 4) == LOCAL_MAGIC
    ensures var f := DecodeLocal(b, p);
      var whole := f.nameLen > 0 && p + 30 + f.nameLen + f.extraLen + DataSize(f) <= |b|;
      && (One(b, p).ok <==> whole)
      && (whole ==> Recover(b, p).entries == 1 + Recover(b, p + 30 + f.nameLen + f.extraLen + DataSize(f)).entries)
      && (!whole ==> !Recover(b, p).ok && Recover(b, p).cd == [] && Recover(b, p).out <= b[p..])
  {
    hide Num, DecodeLocal, EncodeCentral, DataSize;
  }

  function Recover(b: seq<byte>, p: nat): Recovery
    decreases |b| - p
  {
    if p + 30 > |b| || Num(b, p, 4) != LOCAL_MAGIC then Recovery(true, [], [], 0, 0)
    else
      var r := One(b, p);
      if r.ok then Before(r, Recover(b, p + EntryLength(DecodeLocal(b, p)))) else r
  }

  /** The end record behind the rebuilt directory, with the low 32 bits of its size and
      position. */
  function RepairedEnd(r: Recovery): seq<byte>
  {
    EncodeEnd(RepairedFields(r.entries, |r.cd|, |r.out|))
  }

  function RepairedFields(entries: nat, size: nat, offset: nat): EndFixed
  {
    EndFixed(0, 0, Min(entries, 0xffff), Min(entries, 0xffff), size % U32, offset % U32, 0)
  }

  lemma BeforeBefore(a: Recovery, c: Recovery, r: Recovery)
    ensures Before(Before(a, c), r) == Before(a, Before(c, r))
  {
  }

  /** The loop body of unzRepair behind the signature test: copy the entry piece by
      piece and add its directory record to the second file. */
  method CopyEntry(zip: File, out: File, cd: File, header: seq<byte>, ghost p: nat) returns (ok: bool, size: nat)
    requires zip != out && zip != cd && out != cd
    requires p + 30 <= |zip.bytes| && header == zip.bytes[p..p + 30] && zip.pos == p + 30
    requires out.pos == |out.bytes| == p && cd.pos == |cd.bytes|
    modifies zip`pos, out, cd
    ensures var r := One(zip.bytes, p);
      && ok == r.ok && out.bytes == old(out.bytes) + r.out && cd.bytes == old(cd.bytes) + r.cd
      && out.pos == |out.bytes| && cd.pos == |cd.bytes|
      && (ok ==> size == r.total && zip.pos == p + EntryLength(DecodeLocal(zip.bytes, p)))
  {
    hide Num, EncodeCentral, DecodeLocal;
    ghost var b := zip.bytes;
    HeaderFields(b, p, header);
    var f := DecodeLocal(header, 0);
    var offset := out.pos;
    var name, extra;
    ok, size, name, extra := CopyParts(zip, out, f, header, p);
    if ok {
      assert name + extra == b[p + 30..p + 30 + f.nameLen + f.extraLen];
      WriteRecord(cd, f, offset, name, extra);
    } else {
      assert cd.bytes + [] == cd.bytes;
    }
  }

  /** Header, name, extra field and data, each copied once it was read. */
  method CopyParts(zip: File, out: File, f: LocalFixed, header: seq<byte>, ghost p: nat)
      returns (ok: bool, size: nat, name: seq<byte>, extra: seq<byte>)
    requires zip != out && p + 30 <= |zip.bytes| && header == zip.bytes[p..p + 30] && zip.pos == p + 30
    requires out.pos == |out.bytes| == p && f == DecodeLocal(zip.bytes, p)
    modifies zip`pos, out
    ensures var r := One(zip.bytes, p);
      && ok == r.ok && out.bytes == old(out.bytes) + r.out && out.pos == |out.bytes|
      && (ok ==>
            && size == r.total && zip.pos == p + EntryLength(f)
            && name == zip.bytes[p + 30..p + 30 + f.nameLen]
            && extra == zip.bytes[p + 30 + f.nameLen..p + 30 + f.nameLen + f.extraLen])
  {
    hide EncodeCentral, DecodeLocal;
    ghost var a := out.bytes;
    ok, size, name, extra := false, 0, [], [];
    AppendAll(out, header);
    if f.nameLen == 0 {
      return;
    }
    ok, name := CopyPart(zip, out, f.nameLen, a, p);
    if !ok {
      return;
    }
    ok, extra := CopyPart(zip, out, f.extraLen, a, p);
    if !ok {
      return;
    }
    size := DataSize(f);
    var data;
    ok, data := CopyPart(zip, out, size, a, p);
  }

  /** The directory record of a copied entry. */
  method WriteRecord(cd: File, f: LocalFixed, offset: nat, name: seq<byte>, extra: seq<byte>)
    requires cd.pos == |cd.bytes|
    modifies cd
    ensures cd.pos == |cd.bytes| && cd.bytes == old(cd.bytes) + (EncodeCentral(CentralOf(f, offset)) + (name + extra))
  {
    hide EncodeCentral;
    var record := EncodeCentral(CentralOf(f, offset));
    AppendAll(cd, record);
    AppendAll(cd, name);
    if |extra| > 0 {
      AppendAll(cd, extra);
    } else {
      assert name + extra == name;
    }
    Assoc(old(cd.bytes) + record, name, extra);
    Assoc(old(cd.bytes), record, name + extra);
  }

  /** Copy n bytes, if there are any to copy; a short read is an error. */
  method CopyPart(zip: File, out: File, n: nat, ghost a: seq<byte>, ghost p: nat) returns (ok: bool, piece: seq<byte>)
    requires zip != out && p <= zip.pos <= |zip.bytes|
    requires out.pos == |out.bytes| && out.bytes == a + zip.bytes[p..zip.pos]
    modifies zip`pos, out
    ensures ok <==> old(zip.pos) + n <= |zip.bytes|
    ensures ok ==> zip.pos == old(zip.pos) + n && piece == zip.bytes[old(zip.pos)..zip.pos]
    ensures ok ==> out.pos == |out.bytes| && out.bytes == a + zip.bytes[p..zip.pos]
    ensures !ok ==> out.bytes == old(out.bytes) && out.pos == |out.bytes|
  {
    ok, piece := true, [];
    if n > 0 {
      Adjacent(zip.bytes, a, p, zip.pos, zip.pos + n);
      piece := zip.Read(n);
      ok := |piece| == n;
      if ok {
        AppendAll(out, piece);
      }
    }
  }

  /** fwrite at the end of a file. */
  method AppendAll(f: File, s: seq<byte>)
    requires f.pos == |f.bytes|
    modifies f
    ensures f.bytes == old(f.bytes) + s && f.pos == |f.bytes|
  {
    f.Write(s);
    assert f.bytes == f.bytes[..|old(f.bytes)|] + f.bytes[|old(f.bytes)|..];
  }

  lemma Adjacent(b: seq<byte>, a: seq<byte>, i: nat, j: nat, k: nat)
    requires i <= j <= k
    ensures k <= |b| ==> a + b[i..j] + b[j..k] == a + b[i..k]
  {
  }

  lemma HeaderFields(b: seq<byte>, p: nat, header: seq<byte>)
    requires p + 30 <= |b| && header == b[p..p + 30]
    ensures Num(header, 0, 4) == Num(b, p, 4) && DecodeLocal(header, 0) == DecodeLocal(b, p)
  {
    assert At(b, p, header);
    NumInside(b, p, header, 0, 4);
    NumInside(b, p, header, 4, 2);
    NumInside(b, p, header, 6, 2);
    NumInside(b, p, header, 8, 2);
    NumInside(b, p, header, 10, 4);
    NumInside(b, p, header, 14, 4);
    NumInside(b, p, header, 18, 4);
    NumInside(b, p, header, 22, 4);
    NumInside(b, p, header, 26, 2);
    NumInside(b, p, header, 28, 2);
  }

  /** unzRepair. The directory is collected in a second file and merged behind the
      copied entries, unless a read failed. */
  method UnzRepair(zip: File, out: File, cd: File) returns (ok: bool, recovered: nat, bytesRecovered: nat)
    requires zip != out && zip != cd && out != cd
    requires zip.pos == 0 && out.bytes == [] && out.pos == 0 && cd.bytes == [] && cd.pos == 0
    modifies zip`pos, out, cd
    ensures var r := Recover(zip.bytes, 0);
      && ok == r.ok
      && out.bytes == (if r.ok then r.out + r.cd + RepairedEnd(r) else r.out)
      && (ok ==> recovered == r.entries && bytesRecovered == r.total % U32)
  {
    hide Num, EncodeEnd, One, DecodeLocal;
    ghost var b := zip.bytes;
    ok, recovered, bytesRecovered := true, 0, 0;
    ghost var acc := Recovery(true, [], [], 0, 0);
    BeforeEmpty(Recover(b, 0));
    while true
      invariant ok && zip.pos == |out.bytes| == out.pos && cd.pos == |cd.bytes|
      invariant acc == Recovery(true, out.bytes, cd.bytes, recovered, acc.total) && bytesRecovered == acc.total % U32
      invariant Recover(b, 0) == Before(acc, Recover(b, zip.pos))
      decreases |b| - zip.pos
    {
      ghost var p := zip.pos;
      var header := zip.Read(30);
      if |header| != 30 {
        break;
      }
      HeaderFields(b, p, header);
      if Num(header, 0, 4) != LOCAL_MAGIC {
        break;
      }
      var size;
      ok, size := CopyEntry(zip, out, cd, header, p);
      BeforeBefore(acc, One(b, p), Recover(b, zip.pos));
      OneLength(b, p);
      if !ok {
        break;
      }
      SumMod(acc.total, size);
      acc := Before(acc, One(b, p));
      recovered := recovered + 1;
      bytesRecovered := (bytesRecovered + size) % U32;
    }
    if ok {
      BeforeNothing(acc);
      var offsetCd := |cd.bytes|;
      var offset := |out.bytes|;
      var count := if recovered > 0xffff then 0xffff else recovered;
      var end := EncodeEnd(EndFixed(0, 0, count, count, offsetCd % U32, offset % U32, 0));
      AppendAll(cd, end);
      Assoc(out.bytes, Recover(b, 0).cd, end);
      Merge(cd, out);
    }
  }

  lemma SumMod(x: nat, y: nat)
    ensures (x % U32 + y) % U32 == (x + y) % U32
  {
  }

  lemma BeforeEmpty(r: Recovery)
    ensures Before(Recovery(true, [], [], 0, 0), r) == r
  {
  }

  lemma BeforeNothing(a: Recovery)
    ensures a.ok ==> Before(a, Recovery(true, [], [], 0, 0)) == a
  {
  }

  lemma OneLength(b: seq<byte>, p: nat)
    requires p + 30 <= |b|
    ensures var r := One(b, p);
      r.ok ==> |r.out| == EntryLength(DecodeLocal(b, p)) && p + |r.out| <= |b| && r.entries == 1
    ensures !One(b, p).ok ==> One(b, p).entries == 0 && One(b, p).total == 0
  {
  }

  /** The final copy loop, 8192 bytes at a time. */
  method Merge(from: File, to: File)
    requires from != to && to.pos == |to.bytes|
    modifies from`pos, to
    ensures to.bytes == old(to.bytes) + from.bytes
  {
    from.SeekSet(0);
    while true
      invariant from.pos <= |from.bytes| && to.pos == |to.bytes|
      invariant to.bytes == old(to.bytes) + from.bytes[..from.pos]
      decreases |from.bytes| - from.pos
    {
      ghost var p := from.pos;
      var buffer := from.Read(8192);
      if |buffer| == 0 {
        break;
      }
      AppendAll(to, buffer);
      assert from.bytes[..p] + buffer == from.bytes[..from.pos];
      Assoc(old(to.bytes), from.bytes[..p], buffer);
    }
    assert from.bytes[..from.pos] == from.bytes;
  }

  // ------------------------------------------------------- repair, then open

  /** A local entry as it stands in the damaged file; `zip64` is what a zip64 record at
      the end of its extra field holds. */
  datatype Local = Local(fixed: LocalFixed, name: seq<byte>, user: seq<byte>, zip64: Option<seq<byte>>, data: seq<byte>)
  {
    function Extra(): seq<byte>
    {
      user + if zip64 == None then [] else Put(1, 2) + Put(|zip64.value|, 2) + zip64.value
    }

    function Bytes(): seq<byte>
    {
      EncodeLocal(fixed) + name + Extra() + data
    }

    /** The lengths are the recorded ones and fit the buffers of unzRepair. */
    ghost predicate Framed()
    {
      && fixed.InRange() && fixed.nameLen == |name| && fixed.extraLen == |Extra()| && |data| == DataSize(fixed)
      && 1 <= |name| <= 256 && |Extra()| <= 1024
    }

    /** Moreover the extra field consists of whole records, of which only the last may be
        a zip64 one; that one holds the sizes the header does not. */
    ghost predicate Good()
    {
      && Framed() && WellFormed(user)
      && (zip64.Some? ==> 8 * (Missing(fixed.usize) + Missing(fixed.csize)) <= |zip64.value|)
    }

    /** The size in the header, or the one at `at` in the zip64 record. */
    function SizeOf(x: nat, at: nat): nat
    {
      if x == SENTINEL && zip64.Some? && at + 8 <= |zip64.value| then Num(zip64.value, at, 8) else x
    }
  }

  function Missing(x: nat): nat
  {
    if x == SENTINEL then 1 else 0
  }

  function Locals(ls: seq<Local>): seq<byte>
  {
    if ls == [] then [] else ls[0].Bytes() + Locals(ls[1..])
  }

  /** The record that repair gives to an entry at p. */
  function RecordFor(l: Local, p: nat): Record
  {
    Record(EncodeCentral(CentralOf(l.fixed, p)) + (l.name + l.Extra()),
           FileInfo(CentralOf(l.fixed, p),
                    Sizes(l.SizeOf(l.fixed.usize, 0), l.SizeOf(l.fixed.csize, 8 * Missing(l.fixed.usize)), p % U32)),
           l.name, [])
  }

  function RecordsFor(ls: seq<Local>, p: nat): seq<Record>
  {
    if ls == [] then [] else [RecordFor(ls[0], p)] + RecordsFor(ls[1..], p + |ls[0].Bytes()|)
  }

  /** Nothing more is recovered from here on. */
  ghost predicate Stops(rest: seq<byte>)
  {
    |rest| < 30 || Num(rest, 0, 4) != LOCAL_MAGIC
  }

  lemma {:induction false} CatCons(r: Record, rs: seq<Record>)
    ensures Cat([r] + rs) == r.bytes + Cat(rs)
    decreases |rs|
  {
    if rs == [] {
      assert [r] + rs == [] + [r];
      CatSnoc([], r);
      EmptyCat();
    } else {
      hide Cat;
      var front, last := rs[..|rs| - 1], rs[|rs| - 1];
      CatCons(r, front);
      assert rs == front + [last] && [r] + rs == ([r] + front) + [last];
      CatSnoc([r] + front, last);
      CatSnoc(front, last);
      Assoc(r.bytes, Cat(front), last.bytes);
    }
  }

  lemma OneLocal(b: seq<byte>, p: nat, l: Local)
    requires At(b, p, l.Bytes()) && l.Framed()
    ensures p + 30 <= |b| && Num(b, p, 4) == LOCAL_MAGIC && DecodeLocal(b, p) == l.fixed
    ensures One(b, p) == Recovery(true, l.Bytes(), RecordFor(l, p).bytes, 1, |l.data|)
    ensures EntryLength(l.fixed) == |l.Bytes()|
  {
    hide Num, EncodeLocal, EncodeCentral, DecodeLocal, Local.Extra, At, DataSize;
    var x := l.Extra();
    LocalParts(b, p, EncodeLocal(l.fixed), l.name, x, l.data);
    LocalRoundTrip(b, p, l.fixed);
  }

  /** Four parts, one behind the other. */
  lemma LocalParts(b: seq<byte>, p: nat, h: seq<byte>, n: seq<byte>, x: seq<byte>, d: seq<byte>)
    requires At(b, p, h + n + x + d)
    ensures var q := p + |h| + |n|;
      && At(b, p, h) && q + |x| + |d| <= |b| && b[p + |h|..q + |x|] == n + x
      && b[p..q + |x| + |d|] == h + n + x + d
  {
    AtConcat(b, p, h + n + x, d);
    AtConcat(b, p, h + n, x);
    AtConcat(b, p, h, n);
    assert b[p + |h|..p + |h| + |n| + |x|] == b[p + |h|..p + |h| + |n|] + b[p + |h| + |n|..p + |h| + |n| + |x|];
  }

  /** Everything up to the first thing that is no entry is recovered. */
  lemma {:induction false} RecoverLocals(b: seq<byte>, p: nat, ls: seq<Local>, rest: seq<byte>)
    requires At(b, p, Locals(ls) + rest) && |b| == p + |Locals(ls)| + |rest| && Stops(rest)
    requires forall i :: 0 <= i < |ls| ==> ls[i].Framed()
    ensures var r := Recover(b, p);
      r.ok && r.out == Locals(ls) && r.cd == Cat(RecordsFor(ls, p)) && r.entries == |ls|
    decreases |ls|
  {
    hide Num, One, DecodeLocal, Local.Bytes, RecordFor, At, Cat;
    EmptyCat();
    if ls == [] {
      assert [] + rest == rest;
      if |rest| >= 30 {
        NumInside(b, p, rest, 0, 4);
      }
    } else {
      var l, tail := ls[0], ls[1..];
      Assoc(l.Bytes(), Locals(tail), rest);
      AtConcat(b, p, l.Bytes(), Locals(tail) + rest);
      OneLocal(b, p, l);
      var q := p + |l.Bytes()|;
      RecoverLocals(b, q, tail, rest);
      CatCons(RecordFor(l, p), RecordsFor(tail, q));
      assert |Before(One(b, p), Recover(b, q)).out| == |Locals(ls)|;
    }
  }

  /** The rebuilt record is decoded to what the local header said. */
  lemma RecordForGood(l: Local, p: nat)
    requires l.Good() && p % U32 != SENTINEL
    ensures RecordFor(l, p).Good()
  {
    hide Num, EncodeCentral, DecodeCentral, ParseInfo, ParseFull, At;
    var r := RecordFor(l, p);
    forall b, q: nat | At(b, q, r.bytes)
      ensures ParseInfo(b, q).Some? && ParseInfo(b, q).value.0 == r.info
      ensures ParseFull(b, q) == Some((r.info, r.name, r.comment))
    {
      RecordForParses(b, q, l, p);
    }
  }

  lemma RecordForParses(b: seq<byte>, q: nat, l: Local, p: nat)
    requires l.Good() && p % U32 != SENTINEL && At(b, q, RecordFor(l, p).bytes)
    ensures var r := RecordFor(l, p);
      && ParseInfo(b, q).Some? && ParseInfo(b, q).value.0 == r.info
      && ParseFull(b, q) == Some((r.info, r.name, r.comment))
  {
    hide Num, EncodeCentral, DecodeCentral, WalkExtra, WellFormed, Local.Extra, Local.SizeOf, Missing;
    var f := CentralOf(l.fixed, p);
    AtConcat(b, q, EncodeCentral(f), l.name + l.Extra());
    AtConcat(b, q + 46, l.name, l.Extra());
    CentralRoundTrip(b, q, f);
    WalkLocal(b, q + 46 + |l.name|, l, p);
  }

  /** The walk over the extra field that repair copied. */
  lemma WalkLocal(b: seq<byte>, q: nat, l: Local, p: nat)
    requires l.Good() && p % U32 != SENTINEL && At(b, q, l.Extra())
    ensures var f, w := CentralOf(l.fixed, p), WalkExtra(b, q, 0, |l.Extra()|, Sizes(l.fixed.usize, l.fixed.csize, p % U32));
      w.Some? && w.value.0 == RecordFor(l, p).info.sizes
  {
    hide Num, EncodeCentral, WellFormed, Put, WalkExtra, Local.SizeOf, Missing;
    var v, u, z := Sizes(l.fixed.usize, l.fixed.csize, p % U32), |l.user|, l.Extra()[|l.user|..];
    assert l.Extra() == l.user + z;
    AtConcat(b, q, l.user, z);
    WalkRecords(b, q, l.user, 0, u + |z|, v);
    if l.zip64.Some? {
      var d := l.zip64.value;
      RecordHead(b, q + u, d);
      TrailingZip64(b, q + u, u, l, p);
    } else {
      WalkDone(b, q + u, u, v, l, p);
    }
  }

  lemma WalkDone(b: seq<byte>, q: nat, n: nat, v: Sizes, l: Local, p: nat)
    requires l.zip64 == None && v == Sizes(l.fixed.usize, l.fixed.csize, p % U32)
    ensures WalkExtra(b, q, n, n, v) == Some((v, q)) && RecordFor(l, p).info.sizes == v
  {
    hide EncodeCentral;
  }

  lemma RecordHead(b: seq<byte>, q: nat, d: seq<byte>)
    requires At(b, q, Put(1, 2) + Put(|d|, 2) + d) && |d| < 0x1_0000
    ensures q + 4 + |d| <= |b| && Num(b, q, 2) == 1 && Num(b, q + 2, 2) == |d| && At(b, q + 4, d)
  {
    hide Put;
    AtConcat(b, q, Put(1, 2) + Put(|d|, 2), d);
    AtConcat(b, q, Put(1, 2), Put(|d|, 2));
    Pow256Values();
    NumAt(b, q, 1, 2);
    NumAt(b, q + 2, |d|, 2);
  }

  lemma TrailingZip64(b: seq<byte>, r: nat, acc: nat, l: Local, p: nat)
    requires l.Good() && l.zip64.Some? && p % U32 != SENTINEL
    requires At(b, r + 4, l.zip64.value) && Num(b, r, 2) == 1 && Num(b, r + 2, 2) == |l.zip64.value|
    ensures var v := Sizes(l.fixed.usize, l.fixed.csize, p % U32);
      var w := WalkExtra(b, r, acc, acc + 4 + |l.zip64.value|, v);
      w.Some? && w.value.0 == RecordFor(l, p).info.sizes
  {
    hide Num, EncodeCentral, WellFormed, Put;
    var d, at := l.zip64.value, 8 * Missing(l.fixed.usize);
    if l.fixed.usize == SENTINEL {
      NumInside(b, r + 4, d, 0, 8);
    }
    if l.fixed.csize == SENTINEL {
      NumInside(b, r + 4, d, at, 8);
    }
  }

  lemma {:induction false} AllRecordsGood(ls: seq<Local>, p: nat, i: nat)
    requires i < |ls| && (forall k :: 0 <= k < |ls| ==> ls[k].Good()) && p + |Locals(ls)| < SENTINEL
    ensures |RecordsFor(ls, p)| == |ls| && RecordsFor(ls, p)[i] == RecordFor(ls[i], p + |Locals(ls[..i])|)
    ensures RecordsFor(ls, p)[i].Good()
    ensures At(Locals(ls), |Locals(ls[..i])|, ls[i].Bytes())
    decreases |ls|
  {
    hide Local.Bytes, Local.Good, Record.Good, RecordFor, At;
    var l, tail, q := ls[0], ls[1..], p + |ls[0].Bytes()|;
    if i == 0 {
      assert ls[..0] == [];
      assert l.Bytes() + Locals(tail) == [] + l.Bytes() + Locals(tail);
      AtFirst(l.Bytes(), Locals(tail));
      RecordForGood(l, p);
      if tail != [] {
        AllRecordsGood(tail, q, 0);
      }
    } else {
      AllRecordsGood(tail, q, i - 1);
      assert ls[..i][1..] == tail[..i - 1];
      AtShift(l.Bytes(), Locals(tail), |Locals(tail[..i - 1])|, ls[i].Bytes());
    }
  }

  lemma AtFirst(s: seq<byte>, t: seq<byte>)
    ensures At(s + t, 0, s)
  {
  }

  lemma AtShift(s: seq<byte>, t: seq<byte>, i: nat, x: seq<byte>)
    requires At(t, i, x)
    ensures At(s + t, |s| + i, x)
  {
  }

  /** The file that repair writes when nothing goes wrong. */
  function Repaired(ls: seq<Local>): seq<byte>
  {
    Locals(ls) + Cat(RecordsFor(ls, 0))
    + EncodeEnd(RepairedFields(|ls|, |Cat(RecordsFor(ls, 0))|, |Locals(ls)|))
  }

  /** Repair copies the entries and rebuilds their directory. */
  lemma RepairRebuilds(ls: seq<Local>, rest: seq<byte>)
    requires Stops(rest) && forall i :: 0 <= i < |ls| ==> ls[i].Framed()
    ensures var r := Recover(Locals(ls) + rest, 0);
      r.ok && r.entries == |ls| && r.out + r.cd + RepairedEnd(r) == Repaired(ls)
  {
    hide Cat, RecordsFor, EncodeEnd;
    RecoverLocals(Locals(ls) + rest, 0, ls, rest);
  }

  /** Below 2 GB, where the offsets of repair do not overflow, and with an end record
      that the reader finds. */
  ghost predicate Findable(ls: seq<Local>)
  {
    var z := |Locals(ls)| + |Cat(RecordsFor(ls, 0))|;
    z < 0x8000_0000 && EndFound(Repaired(ls), z, 0)
  }

  /** The directory the reader finds in the repaired file. */
  function RepairedDirectory(ls: seq<Local>): Directory
  {
    var l, c := |Locals(ls)|, |Cat(RecordsFor(ls, 0))|;
    Directory(false, l + c, Min(|ls|, 0xffff), c, l, 0, 0)
  }

  /** The reader opens the repaired file and finds the records of the recovered entries. */
  lemma RepairThenOpen(ls: seq<Local>)
    requires ls != [] && (forall k :: 0 <= k < |ls| ==> ls[k].Good()) && Findable(ls)
    ensures var b, d, rs := Repaired(ls), RepairedDirectory(ls), RecordsFor(ls, 0);
      && Locate(b, false) == Some(d) && Stands(b, d, rs) && |rs| == |ls|
      && ParseInfo(b, d.before + d.offset + |Cat(rs)|) == None
  {
    hide Cat, Local.Good, Record.Good, At, Locate, Locals, EndFound, ParseInfo, Repaired, RecordsFor, EncodeEnd, RepairedFields;
    var b, rs, z := Repaired(ls), RecordsFor(ls, 0), |Locals(ls)| + |Cat(RecordsFor(ls, 0))|;
    RepairedParts(ls);
    RecordCount(ls, 0);
    Small(ls);
    LocateRepaired(ls);
    NoRecordAt(b, z, RepairedFields(|ls|, |Cat(rs)|, |Locals(ls)|));
    forall k | 0 <= k < |rs|
      ensures rs[k].Good()
    {
      AllRecordsGood(ls, 0, k);
    }
  }

  lemma RepairedParts(ls: seq<Local>)
    ensures var b, l, c := Repaired(ls), Locals(ls), Cat(RecordsFor(ls, 0));
      var e := EncodeEnd(RepairedFields(|ls|, |c|, |l|));
      At(b, 0, l) && At(b, |l|, c) && At(b, |l| + |c|, e) && |b| == |l| + |c| + 22
  {
    hide Cat, Locals, RecordsFor, EncodeEnd, RepairedFields;
    var l, c := Locals(ls), Cat(RecordsFor(ls, 0));
    Pieces(l, c, EncodeEnd(RepairedFields(|ls|, |c|, |l|)));
  }

  lemma LocateRepaired(ls: seq<Local>)
    requires ls != [] && Findable(ls)
    ensures Locate(Repaired(ls), false) == Some(RepairedDirectory(ls))
  {
    hide Cat, At, Locate, Locals, EndFound, Repaired, RecordsFor, EncodeEnd;
    var l, c := |Locals(ls)|, |Cat(RecordsFor(ls, 0))|;
    var f := RepairedFields(|ls|, c, l);
    RepairedParts(ls);
    SomeBytes(ls);
    assert EncodeEnd(f) + [] == EncodeEnd(f);
    LocateEnd(Repaired(ls), l + c, f, [], false);
  }

  lemma NoRecordAt(b: seq<byte>, z: nat, f: EndFixed)
    requires At(b, z, EncodeEnd(f))
    ensures ParseInfo(b, z) == None
  {
    hide Num, DecodeCentral, EncodeEnd;
    Magics(f, Zip64End(0, 0, 0, 0, 0, 0));
    FirstNumber(b, z, END_MAGIC, EncodeEnd(f));
  }

  /** Every recorded offset leads to the local header it was made from, which the reader
      accepts exactly if it knows the method of compression. */
  lemma RepairedHeader(ls: seq<Local>, i: nat)
    requires i < |ls| && (forall k :: 0 <= k < |ls| ==> ls[k].Good()) && |Locals(ls)| < SENTINEL
    ensures var b, rs := Repaired(ls), RecordsFor(ls, 0);
      && |rs| == |ls| && rs[i] == RecordFor(ls[i], |Locals(ls[..i])|)
      && var p := rs[i].info.sizes.offset;
      && p == |Locals(ls[..i])| < SENTINEL && At(b, p, ls[i].Bytes())
      && CheckLocal(b, p, rs[i].info) ==
         if ls[i].fixed.compression in {0, Z_DEFLATED, Z_BZIP2ED} then Some(|ls[i].name| + |ls[i].Extra()|) else None
  {
    hide Cat, EncodeEnd, Local.Bytes, Local.Good, Record.Good, At, Locals, Num, DecodeLocal, RecordsFor, RecordFor,
      RepairedFields, CheckLocal;
    var b, l, p := Repaired(ls), Locals(ls), |Locals(ls[..i])|;
    var c := Cat(RecordsFor(ls, 0));
    AllRecordsGood(ls, 0, i);
    Pieces(l, c, EncodeEnd(RepairedFields(|ls|, |c|, |l|)));
    Fits(l, p, ls[i].Bytes());
    AtInside(b, 0, l, p, ls[i].Bytes());
    HeaderPasses(b, p, ls[i]);
  }

  lemma HeaderPasses(b: seq<byte>, p: nat, l: Local)
    requires At(b, p, l.Bytes()) && l.Good() && p < U32
    ensures RecordFor(l, p).info.sizes.offset == p
    ensures CheckLocal(b, p, RecordFor(l, p).info) ==
      if l.fixed.compression in {0, Z_DEFLATED, Z_BZIP2ED} then Some(|l.name| + |l.Extra()|) else None
  {
    hide Local.Bytes, At, Num, DecodeLocal, EncodeCentral;
    OneLocal(b, p, l);
  }

  lemma Fits(b: seq<byte>, p: nat, s: seq<byte>)
    requires At(b, p, s)
    ensures p <= |b|
  {
  }

  /** What a caller gets of a file: its name, its record, whether it could be opened, and
      if it is stored whole its contents and whether their checksum is the recorded one. */
  datatype Listed = Listed(name: seq<byte>, info: FileInfo, admitted: bool, data: seq<byte>, passed: bool)

  /** Stored, with sizes in the 32-bit fields. */
  predicate Direct(i: FileInfo)
  {
    i.fixed.compression == 0 && i.sizes.usize == i.sizes.csize == i.fixed.csize == i.fixed.usize < 0x8000_0000
  }

  function Started(b: seq<byte>, before: nat, i: FileInfo): Option<ZipReader.ReadInfo>
  {
    match CheckLocal(b, Wrap64(i.sizes.offset + before), i)
    case None => None
    case Some(n) => Some(ZipReader.StartReading(i, n, false))
  }

  function ListedAs(b: seq<byte>, before: nat, r: Record): Listed
  {
    match Started(b, before, r.info)
    case None => Listed(r.name, r.info, false, [], true)
    case Some(reading) =>
      if !Direct(r.info) then Listed(r.name, r.info, true, [], true)
      else
        var data := reading.Remaining(b, before);
        Listed(r.name, r.info, true, data, Crc(0, data) == r.info.fixed.crc)
  }

  /** The file holds all of it. */
  ghost predicate Held(b: seq<byte>, before: nat, i: FileInfo)
  {
    Started(b, before, i).Some? && Direct(i) ==> Started(b, before, i).value.InFile(b, before)
  }

  /** Everything about the current file. */
  method ListCurrent(u: ZipReader.UnzFile, ghost r: Record) returns (file: Listed)
    requires u.cursor.ok && u.cursor.info == r.info && u.reading == None && Held(u.file.bytes, u.dir.before, r.info)
    requires ParseFull(u.file.bytes, Wrap64(u.cursor.pos + u.dir.before)) == Some((r.info, r.name, r.comment))
    modifies u.file`pos, u`reading
    ensures file == ListedAs(u.file.bytes, u.dir.before, r) && u.reading == None
  {
    hide ParseFull, CheckLocal, Wrap64, Crc, ZipReader.ReadInfo.Remaining, ZipReader.ReadInfo.InFile;
    ghost var b, before := u.file.bytes, u.dir.before;
    var full := u.GetFullInfo();
    var (info, name, _) := full.value;
    var code := u.OpenCurrentFile(false);
    file := Listed(name, info, code == UnzOk, [], true);
    if code == UnzOk {
      if Direct(info) {
        DirectStarts(b, before, info);
        var data := RoundTrip.ReadEntry(u, 4096, u.reading.value.Remaining(b, before));
        var closed := u.CloseCurrentFile();
        file := file.(data := data, passed := closed == UnzOk);
      } else {
        var _ := u.CloseCurrentFile();
      }
    }
  }

  lemma DirectStarts(b: seq<byte>, before: nat, i: FileInfo)
    requires Started(b, before, i).Some? && Direct(i) && Held(b, before, i)
    ensures var r := Started(b, before, i).value;
      && r.InFile(b, before) && r.restUncompressed == |r.Remaining(b, before)|
      && r.compression == 0 && !r.raw && r.crc == 0 && r.crcWait == i.fixed.crc
  {
    hide CheckLocal, Wrap64;
    var r := Started(b, before, i).value;
    SmallWrap(r.pos + before);
  }

  /** Walk over the directory of an opened archive, open every file, and read the stored
      ones. */
  method ListAll(u: ZipReader.UnzFile, ghost rs: seq<Record>) returns (files: seq<Listed>, last: Code)
    requires Stands(u.file.bytes, u.dir, rs) && rs != [] && u.cursor == CursorAt(u.dir, rs, 0) && u.reading == None
    requires u.dir.entries == 0xffff ==> ParseInfo(u.file.bytes, u.dir.before + u.dir.offset + |Cat(rs)|) == None
    requires forall i :: 0 <= i < |rs| ==> Held(u.file.bytes, u.dir.before, rs[i].info)
    modifies u.file`pos, u`reading, u`cursor
    ensures |files| == |rs| && forall i :: 0 <= i < |rs| ==> files[i] == ListedAs(u.file.bytes, u.dir.before, rs[i])
    ensures last == if u.dir.entries != 0xffff then UnzEndOfList else UnzError
  {
    hide Stands, Cat, ParseInfo, ParseFull, Wrap64, Next, Reload, ListedAs, Held;
    files := [];
    ghost var b, d, i := u.file.bytes, u.dir, 0;
    while true
      invariant 0 <= i < |rs| && u.dir == d && u.cursor == CursorAt(d, rs, i) && u.reading == None
      invariant |files| == i && forall k :: 0 <= k < i ==> files[k] == ListedAs(b, d.before, rs[k])
      decreases |rs| - i
    {
      ReloadAt(b, d, rs, i, rs[i].info);
      var file := ListCurrent(u, rs[i]);
      files := files + [file];
      if i + 1 < |rs| {
        StepTo(b, d, rs, i);
      } else {
        LastStep(b, d, rs);
      }
      last := u.GoToNextFile();
      if last != UnzOk {
        break;
      }
      i := i + 1;
    }
  }

  /** Open an archive and list everything. */
  method OpenAndList(f: File, ghost d: Directory, ghost rs: seq<Record>) returns (files: seq<Listed>, last: Code)
    requires Locate(f.bytes, false) == Some(d) && Stands(f.bytes, d, rs) && rs != []
    requires ParseInfo(f.bytes, d.before + d.offset + |Cat(rs)|) == None
    requires forall i :: 0 <= i < |rs| ==> Held(f.bytes, d.before, rs[i].info)
    modifies f`pos
    ensures |files| == |rs| && forall i :: 0 <= i < |rs| ==> files[i] == ListedAs(f.bytes, d.before, rs[i])
    ensures last == if d.entries != 0xffff then UnzEndOfList else UnzError
  {
    hide Locate, Stands, Cat, ParseInfo, Wrap64, First, CursorAt, ListedAs, Held;
    var u := ZipReader.UnzFile.Open(f);
    ghost var c :| u.cursor == First(f.bytes, d, c);
    FirstRecord(f.bytes, d, rs, c);
    files, last := ListAll(u, rs);
  }

  /** A recovered entry in that list. */
  function Relisted(l: Local, p: nat): Listed
  {
    var known := l.fixed.compression in {0, Z_DEFLATED, Z_BZIP2ED};
    var direct := l.fixed.compression == 0 && l.fixed.usize == l.fixed.csize < 0x8000_0000;
    Listed(l.name, RecordFor(l, p).info, known, if direct then l.data else [], direct ==> Crc(0, l.data) == l.fixed.crc)
  }

  /** Repair a file, open the result and walk over it: exactly the recovered entries are
      listed, with the numbers of their local headers; those of a known method of
      compression can be opened, and the stored ones give their data. */
  method RepairAndList(zip: File, out: File, cd: File, ghost ls: seq<Local>, ghost rest: seq<byte>)
    returns (files: seq<Listed>, last: Code)
    requires zip != out && zip != cd && out != cd
    requires zip.pos == 0 && out.bytes == [] && out.pos == 0 && cd.bytes == [] && cd.pos == 0
    requires zip.bytes == Locals(ls) + rest && Stops(rest) && ls != []
    requires (forall k :: 0 <= k < |ls| ==> ls[k].Good()) && Findable(ls)
    modifies zip`pos, out, cd
    ensures |files| == |ls| && forall i :: 0 <= i < |ls| ==> files[i] == Relisted(ls[i], |Locals(ls[..i])|)
    ensures forall i :: 0 <= i < |ls| ==> TakenOver(files[i].info.fixed, ls[i].fixed)
    ensures last == if |ls| < 0xffff then UnzEndOfList else UnzError
  {
    hide Local.Good, RecordFor, Repaired, RepairedEnd, RepairedDirectory, Locals, Cat, Findable, Stands, Local.Bytes,
      At, Locate, RecordsFor, Recover, Stops, ParseInfo, ListedAs, Relisted, Held, TakenOver;
    GoodFramed(ls);
    RepairRebuilds(ls, rest);
    RepairThenOpen(ls);
    RepairedCount(ls);
    RelistedAll(ls);
    AllTakenOver(ls);
    var ok, n, total := UnzRepair(zip, out, cd);
    files, last := OpenAndList(out, RepairedDirectory(ls), RecordsFor(ls, 0));
  }

  /** The record has what the local header had, the version in both places, and no
      comment or attributes. */
  predicate TakenOver(f: CentralFixed, l: LocalFixed)
  {
    && f.made == l.need && f.need == l.need && f.flag == l.flag && f.compression == l.compression
    && f.dosDate == l.dosDate && f.crc == l.crc && f.csize == l.csize && f.usize == l.usize
    && f.nameLen == l.nameLen && f.extraLen == l.extraLen
    && f.commentLen == 0 && f.disk == 0 && f.internalFa == 0 && f.externalFa == 0
  }

  lemma AllTakenOver(ls: seq<Local>)
    ensures forall i :: 0 <= i < |ls| ==> TakenOver(Relisted(ls[i], |Locals(ls[..i])|).info.fixed, ls[i].fixed)
  {
    hide Locals, Crc, EncodeCentral;
  }

  lemma GoodFramed(ls: seq<Local>)
    requires forall k :: 0 <= k < |ls| ==> ls[k].Good()
    ensures forall k :: 0 <= k < |ls| ==> ls[k].Framed()
  {
    hide Local.Framed, WellFormed;
  }

  lemma RelistedAll(ls: seq<Local>)
    requires (forall k :: 0 <= k < |ls| ==> ls[k].Good()) && Findable(ls)
    ensures var b, rs := Repaired(ls), RecordsFor(ls, 0);
      && |rs| == |ls|
      && (forall i :: 0 <= i < |ls| ==> Held(b, 0, rs[i].info))
      && (forall i :: 0 <= i < |ls| ==> ListedAs(b, 0, rs[i]) == Relisted(ls[i], |Locals(ls[..i])|))
  {
    hide Local.Good, RecordFor, Repaired, Locals, Cat, Findable, CheckLocal, Local.Bytes, At, RecordsFor, Wrap64, Held,
      ListedAs, Relisted;
    var b, rs := Repaired(ls), RecordsFor(ls, 0);
    RecordCount(ls, 0);
    Small(ls);
    forall i | 0 <= i < |ls|
      ensures Held(b, 0, rs[i].info) && ListedAs(b, 0, rs[i]) == Relisted(ls[i], |Locals(ls[..i])|)
    {
      RepairedHeader(ls, i);
      RelistedOne(b, |Locals(ls[..i])|, ls[i]);
    }
  }

  lemma RelistedOne(b: seq<byte>, p: nat, l: Local)
    requires At(b, p, l.Bytes()) && l.Good() && p < SENTINEL && |b| < U64
    ensures Held(b, 0, RecordFor(l, p).info) && ListedAs(b, 0, RecordFor(l, p)) == Relisted(l, p)
  {
    hide Local.Good, CheckLocal, Local.Bytes, At, Wrap64, Crc, RecordFor, Direct, Available, Local.Extra;
    HeaderPasses(b, p, l);
    SmallWrap(p);
    DataBehind(b, p, l);
    DirectIff(l, p);
  }

  lemma DirectIff(l: Local, p: nat)
    requires l.Good()
    ensures var i := RecordFor(l, p).info;
      && i.fixed.crc == l.fixed.crc && i.fixed.compression == l.fixed.compression && RecordFor(l, p).name == l.name
      && (Direct(i) <==> l.fixed.compression == 0 && l.fixed.usize == l.fixed.csize < 0x8000_0000)
      && (Direct(i) ==> i.sizes.csize == i.sizes.usize == DataSize(l.fixed))
  {
    hide Num, EncodeCentral, WellFormed, Local.Extra;
  }

  /** The data of an entry is what reading from behind its header delivers. */
  lemma DataBehind(b: seq<byte>, p: nat, l: Local)
    requires At(b, p, l.Bytes()) && l.Good() && |b| < U64
    ensures var q := p + 30 + |l.name| + |l.Extra()|;
      q + DataSize(l.fixed) <= |b| && [] + Available(b, Wrap64(q), DataSize(l.fixed)) == l.data
  {
    hide EncodeLocal, WellFormed, Local.Extra, Wrap64;
    var q := p + 30 + |l.name| + |l.Extra()|;
    AtConcat(b, p, EncodeLocal(l.fixed) + l.name + l.Extra(), l.data);
    SmallWrap(q);
  }

  lemma RecordCount(ls: seq<Local>, p: nat)
    ensures |RecordsFor(ls, p)| == |ls|
    decreases |ls|
  {
    hide RecordFor, Local.Bytes;
    if ls != [] {
      RecordCount(ls[1..], p + |ls[0].Bytes()|);
    }
  }

  lemma RepairedCount(ls: seq<Local>)
    ensures RepairedDirectory(ls).entries == Min(|ls|, 0xffff) && RepairedDirectory(ls).before == 0
  {
  }

  lemma FirstRecord(b: seq<byte>, d: Directory, rs: seq<Record>, c: Cursor)
    requires Stands(b, d, rs) && rs != []
    ensures First(b, d, c) == CursorAt(d, rs, 0)
  {
    hide Stands, Reload, ParseFull, Cat;
    assert rs[..0] == [];
    EmptyCat();
    ReloadAt(b, d, rs, 0, c.info);
  }

  lemma Small(ls: seq<Local>)
    requires Findable(ls)
    ensures |Locals(ls)| < SENTINEL && |Repaired(ls)| < U64
  {
    EndFoundSize(Repaired(ls), |Locals(ls)| + |Cat(RecordsFor(ls, 0))|);
  }

  lemma SomeBytes(ls: seq<Local>)
    requires ls != []
    ensures |Locals(ls)| > 0
  {
  }

  lemma EndFoundSize(b: seq<byte>, z: nat)
    requires EndFound(b, z, 0)
    ensures |b| < U64
  {
  }

  lemma Pieces(l: seq<byte>, c: seq<byte>, e: seq<byte>)
    ensures At(l + c + e, 0, l) && At(l + c + e, |l|, c) && At(l + c + e, |l| + |c|, e)
  {
  }
}
