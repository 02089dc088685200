/** Runs of writer and reader: writing any list of stored entries in any pieces, adding
    to an existing archive, and reading everything back. */
module RoundTrip {
  import opened Bytes
  import opened Stream
  import opened Checksum
  import opened DataBlocks
  import opened EndRecord
  import opened Entry
  import opened Records
  import opened ZipWriter
  import ZipReader
  import opened Archive
  import opened Catalog

  /** An entry to be stored, in the pieces in which it is written. */
  datatype Job = Job(p: Params, pieces: seq<seq<byte>>)
  {
    ghost predicate Plain() { p.compression == 0 && !p.raw && !p.encrypted }

    /** Arguments in range, a well-formed extra field, and nothing of 4 GB or more. */
    ghost predicate Fits() { p.InRange() && WellFormed(p.extraGlobal) && |Join(pieces)| < SENTINEL }
  }

  /** The entry records the arguments and the bytes of the job, in one piece. */
  ghost predicate Holds1(e: Entry, j: Job)
  {
    && e.p == j.p && e.payload == Join(j.pieces)
    && e.usize == |e.payload| && e.crc == Crc(0, e.payload)
  }

  ghost predicate Recorded(es: seq<Entry>, jobs: seq<Job>)
  {
    |es| == |jobs| && forall i :: 0 <= i < |es| ==> Holds1(es[i], jobs[i])
  }

  lemma RecordedSnoc(es: seq<Entry>, e: Entry, jobs: seq<Job>, n: nat)
    requires n < |jobs| && Recorded(es, jobs[..n]) && Holds1(e, jobs[n])
    ensures Recorded(es + [e], jobs[..n + 1])
  {
  }

  /** The entry that closing a plain request records. */
  lemma FinishedPlain(c: CurFile, r: Request, base: nat, j: Job)
    requires Headers(c, r, base) && r.Keyed() && j.Plain() && r.p == j.p && r.input == Join(j.pieces)
    requires c.crc == Crc(0, r.input)
    ensures Holds1(Finished(c, r, 0, 0), j)
  {
  }

  method WritePieces(w: Writer, pieces: seq<seq<byte>>)
    requires w.Valid() && w.inOpenedFile && w.request.input == []
    modifies w.file, w.buffered, w`ci, w`request
    ensures w.Valid() && w.request == old(w.request).(input := Join(pieces))
  {
    hide w.Valid, Join;
    var i := 0;
    EmptyJoin();
    while i < |pieces|
      invariant 0 <= i <= |pieces| && w.Valid()
      invariant w.request == old(w.request).(input := Join(pieces[..i]))
    {
      var _ := w.Write(pieces[i]);
      assert pieces[..i + 1] == pieces[..i] + [pieces[i]];
      JoinSnoc(pieces[..i], pieces[i]);
      i := i + 1;
    }
    assert pieces[..i] == pieces;
  }

  lemma EmptyJoin()
    ensures Join([]) == []
  {
  }

  /** Write a list of entries, each in its own pieces. */
  method WriteJobs(w: Writer, jobs: seq<Job>) returns (ghost fs: seq<Entry>)
    requires w.Valid() && !w.inOpenedFile
    requires forall i :: 0 <= i < |jobs| ==> jobs[i].Plain()
    modifies w, w.file, w.centralDir, w.buffered
    ensures w.Valid() && !w.inOpenedFile && w.origin == old(w.origin) && w.base == old(w.base)
    ensures w.entries == old(w.entries) + fs && Recorded(fs, jobs) && w.globalComment == old(w.globalComment)
  {
    hide Crc, Join, Ledger, Pipeline, Holds, Partial, Done, Holds1, Headers, Finished;
    fs := [];
    var i := 0;
    while i < |jobs|
      invariant 0 <= i <= |jobs| && w.Valid() && !w.inOpenedFile
      invariant w.origin == old(w.origin) && w.base == old(w.base) && w.globalComment == old(w.globalComment)
      invariant w.entries == old(w.entries) + fs && Recorded(fs, jobs[..i])
    {
      var j := jobs[i];
      ghost var before := w.entries;
      var _ := w.OpenNewFile(j.p, None, Repeat(0, 10), 0);
      WritePieces(w, j.pieces);
      ghost var e := Finished(w.ci, w.request, 0, 0);
      FinishedPlain(w.ci, w.request, w.base, j);
      var _ := w.CloseFileRaw(0, 0);
      RecordedSnoc(fs, e, jobs, i);
      assert before + [e] == old(w.entries) + (fs + [e]);
      fs := fs + [e];
      i := i + 1;
    }
    assert jobs[..i] == jobs;
  }

  /** Entries, directory and end part, and nothing else. */
  function Whole(es: seq<Entry>, text: seq<byte>): seq<byte>
  {
    Body(es) + Dir(es, 0) + EndPart(0, |Body(es)|, |Dir(es, 0)|, |es|, text)
  }

  lemma OnlyThese(b: seq<byte>, p: nat, o: Origin, es: seq<Entry>, text: seq<byte>)
    requires o == Origin([], 0, [], 0)
    requires var done, dir := Done(o, es), o.dir + Dir(es, 0);
      Holds(b, p, done + dir + EndPart(0, |done|, |dir|, 0 + |es|, text), [])
    ensures b == Whole(es, text)
  {
    hide Body, Dir, EndPart;
    assert [] + Body(es) == Body(es) && [] + Dir(es, 0) == Dir(es, 0);
  }

  /** zipOpen with APPEND_STATUS_CREATE, the entries, zipClose: the file is an archive
      of exactly these entries, with the comment up to its first zero. */
  method WriteArchive(f: File, jobs: seq<Job>, text: seq<byte>) returns (ghost es: seq<Entry>)
    requires f.bytes == [] && f.pos == 0
    requires forall i :: 0 <= i < |jobs| ==> jobs[i].Plain()
    modifies f
    ensures Recorded(es, jobs) && IsArchive(f.bytes, 0, |Body(es)|, es, CString(text)) && Sited(es, 0)
    ensures f.bytes == Whole(es, CString(text))
    ensures Zeroless(text) ==> IsArchive(f.bytes, 0, |Body(es)|, es, text)
    ensures var t := CString(text);
      EndsPlainly(f.bytes, 0, |Body(es)|, es, t) && (forall i :: 0 <= i < |jobs| ==> jobs[i].Fits()) ==>
        Readable(f.bytes, PlainDirectory(0, |Body(es)|, es, t), 0, |Body(es)|, es, t)
  {
    ghost var t := CString(text);
    CStringIs(text);
    hide Readable, EndsPlainly, PlainDirectory, Job.Fits;
    hide Ledger, Pipeline, Holds, Partial, Headers, Finished, Recorded, Dir, Body, EndPart, Join, IsArchive;
    var w := new Writer(f, false);
    es := WriteJobs(w, jobs);
    assert w.entries == es && es + [] == es;
    w.Close(Some(text));
    assert w.entries == es;
    ghost var o := w.origin;
    EmptyDir(0);
    assert [] + es == es;
    ClosedArchive(f.bytes, f.pos, o, 0, [], es, t);
    OnlyThese(f.bytes, f.pos, o, es, t);
    if EndsPlainly(f.bytes, 0, |Body(es)|, es, t) && forall i :: 0 <= i < |jobs| ==> jobs[i].Fits() {
      JobsModest(es, jobs);
      PlainReadable(f.bytes, 0, |Body(es)|, es, t);
    }
  }

  /** zipOpen with APPEND_STATUS_ADDINZIP, new entries, zipClose with a NULL comment:
      the archive lists the old entries followed by the new ones, and every byte in
      front of the old directory is as it was. Only if there were 0x10000 entries or
      more and the new ones push the directory to 4 GB, the zip64 record then needed
      has the wrong number of entries. */
  method AppendArchive(f: File, jobs: seq<Job>, ghost base: nat, ghost cdPos: nat, ghost es: seq<Entry>,
                       ghost text: seq<byte>)
    returns (ok: bool, ghost fs: seq<Entry>)
    requires f.pos == 0 && IsArchive(f.bytes, base, cdPos, es, text) && PlainEnd(f.bytes, base, cdPos, es, text)
    requires CString(text) == text
    requires forall i :: 0 <= i < |jobs| ==> jobs[i].Plain()
    modifies f
    ensures ok && Recorded(fs, jobs)
    ensures var cd := cdPos + |Body(fs)|;
      && base <= cd && (CountKept(|es|, cd - base) ==> IsArchive(f.bytes, base, cd, es + fs, text))
      && (IsArchive(f.bytes, base, cd, es + fs, text) && |es| + |fs| < U64 ==> CountKept(|es|, cd - base))
    ensures cdPos + |Body(fs)| <= |f.bytes| && f.bytes[..cdPos] == old(f.bytes[..cdPos])
    ensures var cd := cdPos + |Body(fs)|;
      && base <= cd
      && (EndsPlainly(f.bytes, base, cd, es + fs, text) && (forall i :: 0 <= i < |jobs| ==> jobs[i].Fits())
          && (forall k :: 0 <= k < |es| ==> Modest(es[k])) ==>
          Readable(f.bytes, PlainDirectory(base, cd, es + fs, text), base, cd, es + fs, text))
      && (CountKept(|es|, cd - base) && Zip64Tail(f.bytes, base, cd, es + fs, text) && es + fs != []
          && (forall k :: 0 <= k < |es + fs| ==> Sizeable((es + fs)[k], base)) ==>
          (Readable(f.bytes, Zip64Directory(base, cd, es + fs), base, cd, es + fs, text) <==> base == 0))
  {
    hide Readable, EndsPlainly, PlainDirectory, Job.Fits, Modest, Zip64Tail, Zip64Directory, Sizeable, CountKept;
    hide Ledger, Pipeline, Holds, Partial, Headers, Finished, Recorded, Dir, Body, EndPart, Join, IsArchive, PlainEnd,
      Locate, Done, Sited, Placed, EntryAt, Available, CString, Zeroless;
    ghost var b := f.bytes;
    var w := new Writer(f, false);
    ReloadPlain(b, base, cdPos, es, text);
    ok := w.Load();
    fs := WriteJobs(w, jobs);
    assert w.entries == fs && fs + [] == fs;
    w.Close(None);
    assert w.entries == fs;
    Appended(b, f.bytes, f.pos, w.origin, base, cdPos, es, fs, text);
    AppendedReadable(f.bytes, base, cdPos + |Body(fs)|, es, fs, text, jobs);
  }

  /** When the result of adding entries can be read back. */
  lemma AppendedReadable(b: seq<byte>, base: nat, cd: nat, es: seq<Entry>, fs: seq<Entry>, text: seq<byte>,
                         jobs: seq<Job>)
    requires base <= cd && Recorded(fs, jobs) && forall i :: 0 <= i < |jobs| ==> jobs[i].Plain()
    requires CountKept(|es|, cd - base) ==> IsArchive(b, base, cd, es + fs, text)
    ensures (EndsPlainly(b, base, cd, es + fs, text) && (forall i :: 0 <= i < |jobs| ==> jobs[i].Fits())
             && (forall k :: 0 <= k < |es| ==> Modest(es[k]))) ==>
      Readable(b, PlainDirectory(base, cd, es + fs, text), base, cd, es + fs, text)
    ensures (CountKept(|es|, cd - base) && Zip64Tail(b, base, cd, es + fs, text) && es + fs != []
             && (forall k :: 0 <= k < |es + fs| ==> Sizeable((es + fs)[k], base))) ==>
      (Readable(b, Zip64Directory(base, cd, es + fs), base, cd, es + fs, text) <==> base == 0)
  {
    hide Readable, EndsPlainly, PlainDirectory, Job.Fits, Modest, Zip64Tail, Zip64Directory, Sizeable, CountKept,
      Recorded, Dir, IsArchive;
    if EndsPlainly(b, base, cd, es + fs, text) && (forall i :: 0 <= i < |jobs| ==> jobs[i].Fits())
      && (forall k :: 0 <= k < |es| ==> Modest(es[k]))
    {
      JobsModest(fs, jobs);
      CountKeptBelow(b, base, cd, es + fs, text, |es|);
      PlainReadable(b, base, cd, es + fs, text);
    }
    if CountKept(|es|, cd - base) && Zip64Tail(b, base, cd, es + fs, text) && es + fs != []
      && forall k :: 0 <= k < |es + fs| ==> Sizeable((es + fs)[k], base)
    {
      LargeReadable(b, base, cd, es + fs, text);
    }
  }

  lemma CountKeptBelow(b: seq<byte>, base: nat, cdPos: nat, es: seq<Entry>, text: seq<byte>, n: nat)
    requires base <= cdPos && EndsPlainly(b, base, cdPos, es, text)
    ensures CountKept(n, cdPos - base)
  {
  }

  /** The same with an archive that ends in zip64 records. Its comment is not taken over,
      and when the new entries take less room than it took, the end of it stays behind
      the new end. */
  method AppendZip64(f: File, jobs: seq<Job>, ghost cdPos: nat, ghost es: seq<Entry>, ghost text: seq<byte>)
    returns (ok: bool, ghost fs: seq<Entry>)
    requires f.pos == 0 && IsArchive(f.bytes, 0, cdPos, es, text) && Zip64Tail(f.bytes, 0, cdPos, es, text)
    requires forall i :: 0 <= i < |jobs| ==> jobs[i].Plain()
    modifies f
    ensures ok && Recorded(fs, jobs) && cdPos <= |old(f.bytes)|
    ensures var cd, grown, dir := cdPos + |Body(fs)|, |Body(fs)| + |Dir(fs, 0)|, Dir(es + fs, 0);
      && f.bytes == old(f.bytes)[..cdPos] + Body(fs) + dir + EndPart(0, cd, |dir|, |es| + |fs|, [])
                    + text[Min(grown, |text|)..]
      && (IsArchive(f.bytes, 0, cd, es + fs, []) <==> grown >= |text|)
  {
    hide Ledger, Pipeline, Holds, Partial, Headers, Finished, Recorded, Dir, Body, EndPart, Join, IsArchive, Zip64Tail,
      Locate, Done, Sited, Placed, EntryAt, Available;
    ghost var b := f.bytes;
    var w := new Writer(f, false);
    ReloadZip64(b, cdPos, es, text);
    ok := w.Load();
    fs := WriteJobs(w, jobs);
    assert w.entries == fs && fs + [] == fs;
    w.Close(None);
    assert w.entries == fs;
    Overlaid(b, f.bytes, f.pos, w.origin, cdPos, es, fs, text);
  }

  lemma ReloadZip64(b: seq<byte>, cdPos: nat, es: seq<Entry>, text: seq<byte>)
    requires IsArchive(b, 0, cdPos, es, text) && Zip64Tail(b, 0, cdPos, es, text)
    ensures |b| < U64 && Locate(b, true) == Some(Zip64Directory(0, cdPos, es))
    ensures var d := Zip64Directory(0, cdPos, es);
      && d.offset + d.size < U64 && d.before + d.offset == cdPos && d.entries == |es| && d.commentSize == 0
      && cdPos <= d.centralPos <= |b| && b[cdPos..d.centralPos] == Dir(es, 0)
  {
    hide Dir, Body, EndPart, Zip64EndPos, Locate;
    LocateZip64(b, 0, cdPos, es, text, true);
    ArchiveParts(b, 0, cdPos, es, text);
  }

  lemma Overlaid(b: seq<byte>, c: seq<byte>, p: nat, o: Origin, cdPos: nat, es: seq<Entry>, fs: seq<Entry>, text: seq<byte>)
    requires IsArchive(b, 0, cdPos, es, text) && Zip64Tail(b, 0, cdPos, es, text) && o == Origin(b, cdPos, Dir(es, 0), |es|)
    requires Placed(fs, 0) && Sited(fs, cdPos)
    requires var done, dir := Done(o, fs), o.dir + Dir(fs, 0);
      Holds(c, p, done + dir + EndPart(0, |done|, |dir|, |es| + |fs|, []), b)
    ensures cdPos <= |b|
    ensures var cd, grown, dir := cdPos + |Body(fs)|, |Body(fs)| + |Dir(fs, 0)|, Dir(es + fs, 0);
      && c == b[..cdPos] + Body(fs) + dir + EndPart(0, cd, |dir|, |es| + |fs|, []) + text[Min(grown, |text|)..]
      && (IsArchive(c, 0, cd, es + fs, []) <==> grown >= |text|)
  {
    hide Dir, Body, EndPart, EntryAt, Sited, Placed, Zip64Tail, At;
    var cd, grown := cdPos + |Body(fs)|, |Body(fs)| + |Dir(fs, 0)|;
    var done, dir := Done(o, fs), o.dir + Dir(fs, 0);
    var part := EndPart(0, cd, |dir|, |es| + |fs|, []);
    DirAppend(es, fs, 0);
    Zip64Length(b, cdPos, es, text);
    Zip64PartLength(cd, |dir|, |es| + |fs|);
    assert |done| == cd && p == |b| - |text| + grown;
    Leftover(b, |b| - |text|, text, p);
    assert c == c[..p] + c[p..];
    if grown >= |text| {
      ClosedArchive(c, p, o, 0, es, fs, []);
      assert text[Min(grown, |text|)..] == [];
    } else if IsArchive(c, 0, cd, es + fs, []) {
      assert false;
    }
  }

  lemma Zip64Length(b: seq<byte>, cdPos: nat, es: seq<Entry>, text: seq<byte>)
    requires IsArchive(b, 0, cdPos, es, text) && Zip64Tail(b, 0, cdPos, es, text)
    ensures cdPos >= SENTINEL && |b| == cdPos + |Dir(es, 0)| + 98 + |text| && b[|b| - |text|..] == text
  {
    hide Dir, At, IsArchive, EndPart;
    Zip64EndParts(b, 0, cdPos, es, text);
  }

  lemma Zip64PartLength(cdPos: nat, size: nat, count: nat)
    requires cdPos >= SENTINEL
    ensures |EndPart(0, cdPos, size, count, [])| == 98
  {
  }

  /** What is left of the old file behind position p, if that lies in its comment. */
  lemma Leftover(b: seq<byte>, q: nat, text: seq<byte>, p: nat)
    requires q <= p && q + |text| == |b| && b[q..] == text
    ensures b[Min(p, |b|)..] == text[Min(p - q, |text|)..]
  {
  }

  /** What loading finds in an archive with an ordinary end. */
  lemma ReloadPlain(b: seq<byte>, base: nat, cdPos: nat, es: seq<Entry>, text: seq<byte>)
    requires IsArchive(b, base, cdPos, es, text) && PlainEnd(b, base, cdPos, es, text)
    ensures base <= cdPos && |b| < U64 && Locate(b, true).Some?
    ensures var d := Locate(b, true).value;
      && d.offset + d.size < U64 && d.before == base && d.before + d.offset == cdPos && d.entries == Min(|es|, 0xffff)
      && cdPos <= d.centralPos <= |b| && b[cdPos..d.centralPos] == Dir(es, base)
      && d.commentSize == |text| && Available(b, d.centralPos + 22, |text|) == text
  {
    hide Dir, Body, EndPart, Zip64EndPos, Locate;
    LocatePlain(b, base, cdPos, es, text, true);
    ArchiveParts(b, base, cdPos, es, text);
  }

  lemma Appended(b: seq<byte>, c: seq<byte>, p: nat, o: Origin, base: nat, cdPos: nat, es: seq<Entry>, fs: seq<Entry>,
                 text: seq<byte>)
    requires IsArchive(b, base, cdPos, es, text) && o == Origin(b, cdPos, Dir(es, base), Min(|es|, 0xffff))
    requires Placed(fs, base) && Sited(fs, cdPos)
    requires var done, dir := Done(o, fs), o.dir + Dir(fs, base);
      base <= |done| && Holds(c, p, done + dir + EndPart(base, |done|, |dir|, o.count + |fs|, text), b)
    ensures var cd := cdPos + |Body(fs)|;
      && base <= cd && (CountKept(|es|, cd - base) ==> IsArchive(c, base, cd, es + fs, text))
      && (IsArchive(c, base, cd, es + fs, text) && |es| + |fs| < U64 ==> CountKept(|es|, cd - base))
    ensures cdPos <= |b| && cdPos + |Body(fs)| <= |c| && c[..cdPos] == b[..cdPos]
  {
    hide Dir, Body, EndPart, EntryAt, Sited, Placed, CountKept;
    NoStaleTail(b, base, cdPos, es, fs, text);
    var done, dir := Done(o, fs), o.dir + Dir(fs, base);
    EndPartCount(base, |done|, |dir|, |es|, |fs|, text);
    var part := EndPart(base, |done|, |dir|, o.count + |fs|, text);
    HoldsAll(c, p, done + dir + part, b);
    Suffix(done, dir, part);
    DirAppend(es, fs, base);
    assert |done| == cdPos + |Body(fs)|;
    assert c[..cdPos] == done[..cdPos] == b[..cdPos];
    if CountKept(|es|, |done| - base) {
      ClosedArchive(c, p, o.(count := |es|), base, es, fs, text);
    } else if |es| + |fs| < U64 && IsArchive(c, base, |done|, es + fs, text) {
      SameEnd(dir, part, EndPart(base, |done|, |dir|, |es| + |fs|, text));
      assert false;
    }
  }

  lemma SameEnd(d: seq<byte>, x: seq<byte>, y: seq<byte>)
    requires d + x == d + y
    ensures x == y
  {
    assert (d + x)[|d|..] == x && (d + y)[|d|..] == y;
  }

  // ---------------------------------------------------------------- reading back

  /** The archive can be listed and every entry is a stored one that can be opened. */
  ghost predicate Readable(b: seq<byte>, d: Directory, base: nat, cdPos: nat, es: seq<Entry>, text: seq<byte>)
  {
    && IsArchive(b, base, cdPos, es, text) && |b| < U64
    && Locate(b, false) == Some(d) && Matches(d, base, cdPos, es)
    && es != []
    && (forall k :: 0 <= k < |es| ==> Listable(es[k], base) && Stored0(es[k]) && Openable(es[k]))
  }

  /** What the caller of the writer answers for: arguments in range, a well-formed
      extra field, and nothing of 4 GB or more. */
  ghost predicate Modest(e: Entry)
  {
    Stored0(e) && e.p.InRange() && WellFormed(e.p.extraGlobal) && |e.payload| < SENTINEL
  }

  lemma JobsModest(es: seq<Entry>, jobs: seq<Job>)
    requires Recorded(es, jobs) && forall i :: 0 <= i < |jobs| ==> jobs[i].Plain() && jobs[i].Fits()
    ensures forall k :: 0 <= k < |es| ==> Modest(es[k])
  {
    hide Crc, Join, WellFormed;
    forall k | 0 <= k < |es|
      ensures Modest(es[k])
    {
      assert Holds1(es[k], jobs[k]) && jobs[k].Plain() && jobs[k].Fits();
    }
  }

  /** Some entries, a directory that starts below 4 GB, and an
      end record that the scan finds. */
  ghost predicate EndsPlainly(b: seq<byte>, base: nat, cdPos: nat, es: seq<Entry>, text: seq<byte>)
    requires base <= cdPos
  {
    PlainEnd(b, base, cdPos, es, text) && cdPos < SENTINEL && es != []
  }

  /** Such an archive, of entries as above, can be read back. */
  lemma PlainReadable(b: seq<byte>, base: nat, cdPos: nat, es: seq<Entry>, text: seq<byte>)
    requires IsArchive(b, base, cdPos, es, text) && EndsPlainly(b, base, cdPos, es, text)
    requires forall k :: 0 <= k < |es| ==> Modest(es[k])
    ensures Readable(b, PlainDirectory(base, cdPos, es, text), base, cdPos, es, text)
  {
    hide Crc, WellFormed, Locate, EndFound, Dir, At, LocalBytes, LocalLength, ZipWriter.EndPart;
    SomeDirectory(es, base);
    LocatePlain(b, base, cdPos, es, text, false);
    forall k | 0 <= k < |es|
      ensures Listable(es[k], base) && Stored0(es[k]) && Openable(es[k])
    {
      assert EntryAt(b, es[k], cdPos) && Modest(es[k]);
      CrcRange32(es[k].payload);
    }
    EndFoundWidth(b, EndPos(cdPos, es, base), |text|);
  }

  /** And only if it ends so. */
  lemma PlainReadableIff(b: seq<byte>, base: nat, cdPos: nat, es: seq<Entry>, text: seq<byte>)
    requires IsArchive(b, base, cdPos, es, text) && cdPos < 0xffff_ffff && |Dir(es, base)| < U32 && |b| < U64
    requires es != [] && forall k :: 0 <= k < |es| ==> Modest(es[k])
    ensures Readable(b, PlainDirectory(base, cdPos, es, text), base, cdPos, es, text) <==>
      EndsPlainly(b, base, cdPos, es, text)
  {
    hide Modest, EntryAt, Locate, EndFound, Dir, PlainDirectory, ZipWriter.EndPart;
    SomeDirectory(es, base);
    LocatePlainIff(b, base, cdPos, es, text, false);
    if EndsPlainly(b, base, cdPos, es, text) {
      PlainReadable(b, base, cdPos, es, text);
    }
  }

  lemma CrcRange32(s: seq<byte>)
    ensures Crc(0, s) < U32
  {
  }

  lemma EndFoundWidth(b: seq<byte>, z: nat, n: nat)
    requires EndFound(b, z, n)
    ensures |b| < U64
  {
  }

  lemma SomeDirectory(es: seq<Entry>, base: nat)
    requires es != []
    ensures |Dir(es, base)| > 0
  {
  }

  /** An entry of any size that the reader can make out and open. */
  ghost predicate Sizeable(e: Entry, base: nat)
  {
    Stored0(e) && Decodable(e, base) && Openable(e)
  }

  /** The same with zip64 records: the directory starts at 4 GB or later, entries may
      be of any size, and those with a zip64 field have no comment. Such an archive can
      be read back exactly if nothing stands in front of it. */
  lemma LargeReadable(b: seq<byte>, base: nat, cdPos: nat, es: seq<Entry>, text: seq<byte>)
    requires IsArchive(b, base, cdPos, es, text) && Zip64Tail(b, base, cdPos, es, text)
    requires es != [] && forall k :: 0 <= k < |es| ==> Sizeable(es[k], base)
    ensures Readable(b, Zip64Directory(base, cdPos, es), base, cdPos, es, text) <==> base == 0
  {
    hide Crc, Locate, Dir, At, Decodable;
    LocateZip64(b, base, cdPos, es, text, false);
  }

  /** Read the current entry to its end, len bytes at a time. */
  method ReadEntry(u: ZipReader.UnzFile, len: nat, ghost all: seq<byte>) returns (data: seq<byte>)
    requires len > 0 && u.reading.Some?
    requires var r := u.reading.value;
      && r.InFile(u.file.bytes, u.dir.before) && r.Remaining(u.file.bytes, u.dir.before) == all
      && r.compression == 0 && !r.raw && r.restUncompressed == |all| && r.crc == 0
    modifies u.file`pos, u`reading
    ensures data == all
    ensures u.reading.Some? && u.reading.value.restUncompressed == 0
    ensures var r := u.reading.value;
      !r.raw && r.crcWait == old(u.reading).value.crcWait && r.crc == Crc(0, all)
  {
    hide Crc, Available, Wrap64;
    data := [];
    ghost var r0 := u.reading.value;
    StartCrc();
    assert [] + all == all;
    while true
      invariant u.reading.Some?
      invariant var r := u.reading.value;
        && r.InFile(u.file.bytes, u.dir.before) && r.compression == 0 && !r.raw && r.crcWait == r0.crcWait
        && all == data + r.Remaining(u.file.bytes, u.dir.before)
        && r.restUncompressed == |all| - |data| && r.crc == Crc(0, data)
      decreases |all| - |data|
    {
      ghost var r := u.reading.value;
      CrcRange(r, data);
      var _, piece := u.ReadCurrentFile(len);
      ghost var s := u.reading.value;
      CrcAppend(0, data, piece);
      ReadProgress(r, s, data, piece, all, len, u.file.bytes, u.dir.before);
      data := data + piece;
      if |piece| == 0 {
        break;
      }
    }
  }

  lemma StartCrc()
    ensures Crc(0, []) == 0
  {
  }

  lemma CrcRange(r: ZipReader.ReadInfo, data: seq<byte>)
    requires r.crc == Crc(0, data)
    ensures r.crc < U32
  {
  }

  lemma ReadProgress(r: ZipReader.ReadInfo, s: ZipReader.ReadInfo, data: seq<byte>, piece: seq<byte>, all: seq<byte>,
                     len: nat, b: seq<byte>, before: nat)
    requires len > 0 && r.crc < U32 && r.InFile(b, before) && !r.raw
    requires all == data + r.Remaining(b, before) && r.restUncompressed == |all| - |data|
    requires piece == r.Remaining(b, before)[..r.Count(b, before, len)]
    requires ZipReader.Follows(r, s, piece, b, before)
    ensures all == data + piece + s.Remaining(b, before)
    ensures s.restUncompressed == |all| - |data| - |piece|
    ensures |piece| == 0 ==> data == all
  {
    hide Crc, Available, Wrap64;
    Assoc(data, piece, s.Remaining(b, before));
    SmallWrap(r.restUncompressed - |piece|);
    assert |piece| == Min(len, |all| - |data|);
    RestMod(r.restUncompressed, |piece|);
  }

  lemma RestMod(x: nat, n: nat)
    requires n <= x < U64
    ensures (x - n) % U64 == x - n
  {
  }

  /** How the walk over a directory ends. */
  function LastCode(d: Directory): Records.Code
  {
    if d.entries != 0xffff then UnzEndOfList else UnzError
  }

  /** Open the archive, walk over it and read every entry: names and contents come back
      in order with the recorded sizes and checksums, every header check and every
      checksum test passes, and the walk ends at the last entry. With 0xffff entries or
      more in an ordinary end record it ends there in an error. */
  method ReadArchive(f: File, len: nat, ghost d: Directory, ghost base: nat, ghost cdPos: nat, ghost es: seq<Entry>,
                     ghost text: seq<byte>)
    returns (ok: bool, names: seq<seq<byte>>, infos: seq<FileInfo>, contents: seq<seq<byte>>, last: Records.Code)
    requires len > 0 && Readable(f.bytes, d, base, cdPos, es, text)
    modifies f`pos
    ensures ok && |names| == |infos| == |contents| == |es|
    ensures forall i :: 0 <= i < |es| ==> names[i] == es[i].p.name && contents[i] == es[i].payload
    ensures forall i :: 0 <= i < |es| ==> base <= es[i].pos && infos[i] == InfoOf(es[i], base) && Tells(infos[i], es[i], base)
    ensures last == LastCode(d)
  {
    hide Readable, Locate, First, CursorAt, InfoOf, Next, Reload, Cat, IsArchive, RecordOf, Tells;
    ok, names, infos, contents := true, [], [], [];
    ReadableParts(f.bytes, d, base, cdPos, es, text);
    var u := ZipReader.UnzFile.Open(f);
    ghost var c :| u.cursor == First(f.bytes, u.dir, c);
    FirstEntry(f.bytes, d, base, cdPos, es, text, c);
    ghost var i := 0;
    while true
      invariant ok && 0 <= i < |es| && u.dir == d && u.file == f
      invariant Readable(f.bytes, d, base, cdPos, es, text) && base <= cdPos
      invariant u.cursor == CursorAt(d, RecordsOf(es, base), i) && u.reading == None
      invariant |names| == |infos| == |contents| == i
      invariant forall k :: 0 <= k < i ==> base <= es[k].pos && infos[k] == InfoOf(es[k], base) && Tells(infos[k], es[k], base)
      invariant forall k :: 0 <= k < i ==> names[k] == es[k].p.name && contents[k] == es[k].payload
      decreases |es| - i
    {
      var passed, name, info, data := ReadCurrent(u, len, d, base, cdPos, es, text, i);
      ok := passed;
      names, infos, contents := names + [name], infos + [info], contents + [data];
      LastOrNext(f.bytes, d, base, cdPos, es, text, i);
      last := u.GoToNextFile();
      if last != UnzOk {
        break;
      }
      i := i + 1;
    }
  }

  /** Name, recorded numbers and contents of the current entry. */
  method ReadCurrent(u: ZipReader.UnzFile, len: nat, ghost d: Directory, ghost base: nat, ghost cdPos: nat,
                     ghost es: seq<Entry>, ghost text: seq<byte>, ghost i: nat)
    returns (ok: bool, name: seq<byte>, recorded: FileInfo, data: seq<byte>)
    requires len > 0 && Readable(u.file.bytes, d, base, cdPos, es, text) && u.dir == d && u.reading == None
    requires base <= cdPos && i < |es| && u.cursor == CursorAt(d, RecordsOf(es, base), i)
    modifies u.file`pos, u`reading
    ensures base <= es[i].pos && Tells(recorded, es[i], base)
    ensures ok && name == es[i].p.name && recorded == InfoOf(es[i], base) && data == es[i].payload && u.reading == None
  {
    hide Readable, Crc, CheckLocal, ParseFull, Dir, Wrap64, Available, CentralHeader, LocalLength, IsArchive, InfoOf, RecordsOf,
      Tells;
    EntryReadable(u.file.bytes, d, base, cdPos, es, text, i);
    EntryTold(u.file.bytes, d, base, cdPos, es, text, i);
    var info := u.GetFullInfo();
    var started := u.OpenCurrentFile(false);
    data := ReadEntry(u, len, es[i].payload);
    var closed := u.CloseCurrentFile();
    ok := info.Some? && started == UnzOk && closed == UnzOk;
    name, recorded := info.value.1, info.value.0;
  }

  lemma EntryTold(b: seq<byte>, d: Directory, base: nat, cdPos: nat, es: seq<Entry>, text: seq<byte>, i: nat)
    requires Readable(b, d, base, cdPos, es, text) && i < |es|
    ensures base <= es[i].pos && Tells(InfoOf(es[i], base), es[i], base)
  {
    hide Locate, IsArchive;
  }

  lemma ReadableParts(b: seq<byte>, d: Directory, base: nat, cdPos: nat, es: seq<Entry>, text: seq<byte>)
    requires Readable(b, d, base, cdPos, es, text)
    ensures Locate(b, false) == Some(d) && |es| > 0 && base <= cdPos
  {
    hide Locate;
  }

  lemma FirstEntry(b: seq<byte>, d: Directory, base: nat, cdPos: nat, es: seq<Entry>, text: seq<byte>, c: Cursor)
    requires Readable(b, d, base, cdPos, es, text)
    ensures base <= cdPos && |es| > 0 && First(b, d, c) == CursorAt(d, RecordsOf(es, base), 0)
  {
    hide Locate, IsArchive, Listable, First, Stands;
    ArchiveStands(b, d, base, cdPos, es, text);
    WalkReaches(b, d, RecordsOf(es, base), c, 0);
    assert Walk(b, d, c, 0) == First(b, d, c);
  }

  /** What the reader makes of an entry's record. */
  ghost predicate DecodesAs(b: seq<byte>, base: nat, e: Entry, c: Cursor)
  {
    && c.ok && c.info == InfoOf(e, base)
    && ParseFull(b, Wrap64(c.pos + base)) == Some((InfoOf(e, base), e.p.name, e.p.comment))
  }

  /** The header check passes and the payload is what there is to read. */
  ghost predicate Delivers(b: seq<byte>, base: nat, e: Entry)
  {
    var info, n := InfoOf(e, base), LocalLength(e.p) - 30;
    && n >= 0 && CheckLocal(b, Wrap64(info.sizes.offset + base), info) == Some(n)
    && var r := ZipReader.StartReading(info, n, false);
    && r.InFile(b, base) && r.Remaining(b, base) == e.payload && r.restUncompressed == |e.payload|
    && r.compression == 0 && !r.raw && r.crc == 0 && r.crcWait == Crc(0, e.payload)
  }

  lemma EntryReadable(b: seq<byte>, d: Directory, base: nat, cdPos: nat, es: seq<Entry>, text: seq<byte>, i: nat)
    requires Readable(b, d, base, cdPos, es, text) && i < |es|
    ensures base <= cdPos && d.before == base
    ensures DecodesAs(b, base, es[i], CursorAt(d, RecordsOf(es, base), i)) && Delivers(b, base, es[i])
  {
    hide Readable, IsArchive, Stands, Delivers, Listable, Cat, RecordsOf, RecordOf, ParseFull, Wrap64, InfoOf, Stored0, Openable,
      Reload, DecodesAs;
    Unpacked(b, d, base, cdPos, es, text, i);
    RecordsLength(es, base, i);
    Decodes(b, d, base, es, i);
    EntryDelivers(b, base, cdPos, es, text, i);
  }

  lemma Decodes(b: seq<byte>, d: Directory, base: nat, es: seq<Entry>, i: nat)
    requires Stands(b, d, RecordsOf(es, base)) && i < |es| && d.before == base
    ensures |RecordsOf(es, base)| == |es| && DecodesAs(b, base, es[i], CursorAt(d, RecordsOf(es, base), i))
  {
    hide Stands, Cat, RecordsOf, RecordOf, ParseFull, Wrap64, InfoOf, Reload;
    RecordsLength(es, base, i);
    ReloadAt(b, d, RecordsOf(es, base), i, InfoOf(es[i], base));
  }

  lemma EntryDelivers(b: seq<byte>, base: nat, cdPos: nat, es: seq<Entry>, text: seq<byte>, i: nat)
    requires IsArchive(b, base, cdPos, es, text) && i < |es| && |b| < U64
    requires Listable(es[i], base) && Stored0(es[i]) && Openable(es[i])
    ensures Delivers(b, base, es[i])
  {
    hide IsArchive, Crc, CheckLocal, Wrap64, Listable, LocalLength, CentralHeader,
      ZipReader.ReadInfo.InFile, ZipReader.ReadInfo.Remaining;
    OpenDelivers(b, base, cdPos, es, text, i, false);
    HeaderLength(es[i].p);
    StoredUncompressed(es[i], base);
  }

  lemma HeaderLength(p: Params)
    ensures LocalLength(p) >= 30
  {
  }

  lemma StoredUncompressed(e: Entry, base: nat)
    ensures CentralHeader(e, base).compression == e.p.compression
  {
  }

  lemma Unpacked(b: seq<byte>, d: Directory, base: nat, cdPos: nat, es: seq<Entry>, text: seq<byte>, i: nat)
    requires Readable(b, d, base, cdPos, es, text) && i < |es|
    ensures base <= cdPos && d.before == base && |b| < U64
    ensures IsArchive(b, base, cdPos, es, text) && Stands(b, d, RecordsOf(es, base))
    ensures Listable(es[i], base) && Stored0(es[i]) && Openable(es[i])
  {
    hide Crc, Locate, Listable, Stands, RecordsOf;
    ArchiveStands(b, d, base, cdPos, es, text);
  }

  lemma RecordsLength(es: seq<Entry>, base: nat, i: nat)
    requires i < |es|
    ensures |RecordsOf(es, base)| == |es|
    ensures var r := RecordsOf(es, base)[i];
      r.info == InfoOf(es[i], base) && r.name == es[i].p.name && r.comment == es[i].p.comment
  {
  }

  lemma PastTheEnd(b: seq<byte>, d: Directory, base: nat, cdPos: nat, es: seq<Entry>, text: seq<byte>)
    requires Readable(b, d, base, cdPos, es, text)
    ensures d.entries == 0xffff ==> ParseInfo(b, d.before + d.offset + |Cat(RecordsOf(es, base))|) == None
  {
    hide IsArchive, Listable, Locate, Stands, Cat, ParseInfo, RecordsOf, Stored0, Openable;
    ArchiveStands(b, d, base, cdPos, es, text);
  }

  lemma LastOrNext(b: seq<byte>, d: Directory, base: nat, cdPos: nat, es: seq<Entry>, text: seq<byte>, i: nat)
    requires Readable(b, d, base, cdPos, es, text) && i < |es| && base <= cdPos
    ensures var r := Next(b, d, CursorAt(d, RecordsOf(es, base), i));
      if i + 1 < |es| then r == (UnzOk, CursorAt(d, RecordsOf(es, base), i + 1))
      else r.0 == LastCode(d)
  {
    hide IsArchive, Listable, Next, Locate, Stands, Cat, ParseInfo, CursorAt, RecordsOf, Readable;
    Unpacked(b, d, base, cdPos, es, text, i);
    PastTheEnd(b, d, base, cdPos, es, text);
    RecordsLength(es, base, i);
    if i + 1 < |es| {
      StepTo(b, d, RecordsOf(es, base), i);
    } else {
      LastStep(b, d, RecordsOf(es, base));
    }
  }
}
