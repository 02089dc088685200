/** ZipInput: random access to the files of an archive. One mapped device serves any
    number of readers, each with a stream offset of its own. */
module ZipInput {
  import opened Bytes
  import opened Stream
  import opened Checksum
  import opened DataBlocks
  import opened EndRecord
  import opened Entry
  import opened Records
  import opened Catalog
  import opened Archive
  import opened RoundTrip
  import ZipReader
  import ZipWriter

  const EXTRACT_BUFFER_SIZE: nat := 4096

  /** What is remembered of a file: the handle, as 32-bit numbers, and the strings up
      to their first zero. */
  datatype ZipFileInfo = ZipFileInfo(pos: nat, num: nat, name: seq<byte>, comment: seq<byte>, csize: nat, usize: nat)

  /** An archive and where it stands, for the contracts. */
  datatype Content = Content(d: Directory, base: nat, cdPos: nat, es: seq<Entry>, text: seq<byte>)
  {
    /** Readable, with a directory whose positions fit the handles. */
    ghost predicate In(b: seq<byte>)
    {
      && Readable(b, d, base, cdPos, es, text)
      && d.offset + |Dir(es, base)| < U32 && |es| < U32
    }

    /** What is to be remembered of the i-th entry. */
    ghost function Info(i: nat): ZipFileInfo
      requires i < |es|
    {
      ZipFileInfo(d.offset + |Cat(RecordsOf(es, base)[..i])|, i, ZipWriter.CString(es[i].p.name),
               ZipWriter.CString(es[i].p.comment), es[i].Csize(), es[i].usize)
    }
  }

  /** The mapped file. Opening it for a reader makes a stream of its own. */
  class Device {
    const bytes: seq<byte>

    constructor (bytes: seq<byte>)
      ensures this.bytes == bytes
    {
      this.bytes := bytes;
    }

    method OpenStream() returns (f: File)
      ensures fresh(f) && f.bytes == bytes && f.pos == 0
    {
      f := new File(bytes);
    }
  }

  /** ZipInput::File: an entry being read. `contents` is what is to be read and `at`
      how much of it was. */
  class ZipFile {
    const unz: ZipReader.UnzFile
    ghost const contents: seq<byte>
    ghost var at: nat

    ghost predicate Valid()
      reads this, unz, unz.file
    {
      && at <= |contents| < U64 && unz.reading.Some?
      && var r := unz.reading.value;
      && r.InFile(unz.file.bytes, unz.dir.before)
      && r.Remaining(unz.file.bytes, unz.dir.before) == contents[at..]
      && r.compression == 0 && !r.raw && r.restUncompressed == |contents| - at && r.crc < U32
    }

    constructor (unz: ZipReader.UnzFile, ghost contents: seq<byte>)
      ensures this.unz == unz && this.contents == contents && at == 0
    {
      this.unz, this.contents, at := unz, contents, 0;
    }

    /** Read: nothing for nothing, and never more than the buffer holds. */
    method Read(size: nat) returns (data: seq<byte>)
      requires Valid()
      modifies this, unz`reading, unz.file`pos
      ensures Valid() && at == old(at) + Served(|contents| - old(at), size)
      ensures data == contents[old(at)..at] && |data| == Min(|contents| - old(at), Min(size, 4096))
    {
      hide Crc, Available, Wrap64;
      data := [];
      if size == 0 {
        return;
      }
      var sizeToRead := if size > EXTRACT_BUFFER_SIZE then EXTRACT_BUFFER_SIZE else size;
      ghost var r := unz.reading.value;
      var _, piece := unz.ReadCurrentFile(sizeToRead);
      data := piece;
      ghost var n := |piece|;
      PartRead(r, unz.reading.value, contents, at, piece, sizeToRead, unz.file.bytes, unz.dir.before);
      at := at + n;
    }
  }

  /** How many bytes a request gets when `left` are left. */
  function Served(left: nat, size: nat): nat
  {
    Min(left, Min(size, EXTRACT_BUFFER_SIZE))
  }

  lemma PartRead(r: ZipReader.ReadInfo, s: ZipReader.ReadInfo, contents: seq<byte>, at: nat, piece: seq<byte>, len: nat,
                 b: seq<byte>, before: nat)
    requires at <= |contents| < U64 && r.InFile(b, before) && r.Remaining(b, before) == contents[at..]
    requires r.crc < U32 && !r.raw && r.restUncompressed == |contents| - at
    requires piece == r.Remaining(b, before)[..r.Count(b, before, len)] && ZipReader.Follows(r, s, piece, b, before)
    ensures |piece| == Min(|contents| - at, len) && piece == contents[at..at + |piece|]
    ensures s.Remaining(b, before) == contents[at + |piece|..]
    ensures s.restUncompressed == |contents| - (at + |piece|) && s.crc < U32
  {
    hide Available, Wrap64;
    var n := |piece|;
    RestMod(r.restUncompressed, n);
    assert (piece + s.Remaining(b, before))[n..] == s.Remaining(b, before);
    assert contents[at..][n..] == contents[at + n..] && contents[at..][..n] == contents[at..at + n];
  }

  // ------------------------------------------------- several files at a time

  /** How far the requests get, one after the other, starting at `at`. */
  function Reached(total: nat, at: nat, sizes: seq<nat>): (p: nat)
    requires at <= total
    ensures at <= p <= total
  {
    if sizes == [] then at
    else
      var p := Reached(total, at, sizes[..|sizes| - 1]);
      p + Served(total - p, sizes[|sizes| - 1])
  }

  /** What a reader of its own would get for the requests. */
  function Alone(contents: seq<byte>, at: nat, sizes: seq<nat>): seq<seq<byte>>
    requires at <= |contents|
  {
    if sizes == [] then []
    else
      var front := sizes[..|sizes| - 1];
      Alone(contents, at, front) + [contents[Reached(|contents|, at, front)..Reached(|contents|, at, sizes)]]
  }

  /** The pieces are consecutive slices: together they are what was passed over. */
  lemma {:induction false} AloneJoins(contents: seq<byte>, at: nat, sizes: seq<nat>)
    requires at <= |contents|
    ensures Join(Alone(contents, at, sizes)) == contents[at..Reached(|contents|, at, sizes)]
  {
    if sizes == [] {
      assert Join([]) == [] && contents[at..at] == [];
    } else {
      var front := sizes[..|sizes| - 1];
      AloneJoins(contents, at, front);
      var p, q := Reached(|contents|, at, front), Reached(|contents|, at, sizes);
      var pieces := Alone(contents, at, front);
      hide Join, Served;
      JoinSnoc(pieces, contents[p..q]);
      assert contents[at..p] + contents[p..q] == contents[at..q];
    }
  }

  /** A read of something gives something as long as there is anything left, and as many
      such reads as there are bytes give the whole file. */
  lemma {:induction false} ReadsEnd(contents: seq<byte>, at: nat, sizes: seq<nat>)
    requires at <= |contents| && forall k | 0 <= k < |sizes| :: sizes[k] > 0
    ensures Reached(|contents|, at, sizes) >= Min(|contents|, at + |sizes|)
    ensures at + |sizes| >= |contents| ==> Join(Alone(contents, at, sizes)) == contents[at..]
  {
    AloneJoins(contents, at, sizes);
    hide Alone, Join;
    if sizes != [] {
      ReadsEnd(contents, at, sizes[..|sizes| - 1]);
    }
  }

  /** A read of one of several files. */
  datatype Request = Request(file: nat, size: nat)

  function SizesFor(schedule: seq<Request>, k: nat): seq<nat>
  {
    if schedule == [] then []
    else
      var r := schedule[|schedule| - 1];
      SizesFor(schedule[..|schedule| - 1], k) + (if r.file == k then [r.size] else [])
  }

  function ResultsFor(schedule: seq<Request>, results: seq<seq<byte>>, k: nat): seq<seq<byte>>
    requires |results| == |schedule|
  {
    if schedule == [] then []
    else
      var n := |schedule| - 1;
      ResultsFor(schedule[..n], results[..n], k) + (if schedule[n].file == k then [results[n]] else [])
  }

  lemma Snoc(schedule: seq<Request>, r: Request, results: seq<seq<byte>>, data: seq<byte>, k: nat)
    requires |results| == |schedule|
    ensures SizesFor(schedule + [r], k) == SizesFor(schedule, k) + (if r.file == k then [r.size] else [])
    ensures ResultsFor(schedule + [r], results + [data], k) == ResultsFor(schedule, results, k) + (if r.file == k then [data] else [])
  {
  }

  lemma AloneSnoc(contents: seq<byte>, at: nat, sizes: seq<nat>, size: nat)
    requires at <= |contents|
    ensures var p := Reached(|contents|, at, sizes);
      && Reached(|contents|, at, sizes + [size]) == p + Served(|contents| - p, size)
      && Alone(contents, at, sizes + [size]) == Alone(contents, at, sizes) + [contents[p..p + Served(|contents| - p, size)]]
  {
  }

  /** Files over the same device, none sharing a stream or a reader with another. */
  ghost predicate Separate(files: seq<ZipFile>)
    reads files, set f | f in files :: f.unz
  {
    forall i, j | 0 <= i < j < |files| ::
      files[i] != files[j] && files[i].unz != files[j].unz && files[i].unz.file != files[j].unz.file
  }

  /** Reads in any order and of any sizes: each file gives what it would have given had
      it been read alone. */
  method Interleave(files: seq<ZipFile>, schedule: seq<Request>) returns (results: seq<seq<byte>>)
    requires Separate(files) && forall k | 0 <= k < |files| :: files[k].Valid()
    requires forall i | 0 <= i < |schedule| :: schedule[i].file < |files|
    modifies files, set f | f in files :: f.unz, set f | f in files :: f.unz.file
    ensures |results| == |schedule| && forall k | 0 <= k < |files| :: old(files[k].at) <= |files[k].contents|
    ensures forall k | 0 <= k < |files| ::
      ResultsFor(schedule, results, k) == Alone(files[k].contents, old(files[k].at), SizesFor(schedule, k))
  {
    hide Alone, Reached, SizesFor, ResultsFor, Served, ZipFile.Valid;
    results := [];
    forall k | 0 <= k < |files|
      ensures files[k].at <= |files[k].contents|
      ensures AsAlone(files[k].contents, files[k].at, files[k].at, schedule[..0], results, k)
    {
      Bounded(files[k]);
      NothingServed(files[k].contents, files[k].at, k);
    }
    var i := 0;
    while i < |schedule|
      invariant 0 <= i <= |schedule| && |results| == i
      invariant forall k | 0 <= k < |files| :: files[k].Valid() && old(files[k].at) <= |files[k].contents|
      invariant forall k | 0 <= k < |files| ::
        AsAlone(files[k].contents, old(files[k].at), files[k].at, schedule[..i], results, k)
    {
      var r := schedule[i];
      Bounded(files[r.file]);
      ghost var before := results;
      label L:
      var data := files[r.file].Read(r.size);
      results := results + [data];
      assert schedule[..i + 1] == schedule[..i] + [r];
      forall k | 0 <= k < |files|
        ensures AsAlone(files[k].contents, old(files[k].at), files[k].at, schedule[..i + 1], results, k)
      {
        OneMoreServed(files[k].contents, old(files[k].at), old@L(files[k].at), schedule[..i], r, before, data, k);
      }
      i := i + 1;
    }
    assert schedule[..i] == schedule;
  }

  lemma Bounded(f: ZipFile)
    requires f.Valid()
    ensures f.at <= |f.contents|
  {
  }

  /** So far file k, which started at `start` and is at `at` now, has given what it
      would have given alone. */
  ghost predicate AsAlone(contents: seq<byte>, start: nat, at: nat, schedule: seq<Request>, results: seq<seq<byte>>, k: nat)
    requires start <= |contents|
  {
    && |results| == |schedule| && at == Reached(|contents|, start, SizesFor(schedule, k))
    && ResultsFor(schedule, results, k) == Alone(contents, start, SizesFor(schedule, k))
  }

  lemma NothingServed(contents: seq<byte>, at: nat, k: nat)
    requires at <= |contents|
    ensures AsAlone(contents, at, at, [], [], k)
  {
  }

  lemma OneMoreServed(contents: seq<byte>, start: nat, at: nat, schedule: seq<Request>, r: Request,
                      results: seq<seq<byte>>, data: seq<byte>, k: nat)
    requires start <= |contents| && AsAlone(contents, start, at, schedule, results, k)
    requires at <= |contents| && (r.file == k ==> data == contents[at..at + Served(|contents| - at, r.size)])
    ensures AsAlone(contents, start, if r.file == k then at + Served(|contents| - at, r.size) else at,
                    schedule + [r], results + [data], k)
  {
    hide Served;
    Snoc(schedule, r, results, data, k);
    if r.file == k {
      AloneSnoc(contents, start, SizesFor(schedule, k), r.size);
    } else {
      assert SizesFor(schedule, k) + [] == SizesFor(schedule, k);
      assert ResultsFor(schedule, results, k) + [] == ResultsFor(schedule, results, k);
    }
  }

  // ----------------------------------------------------------- the archive

  /** Every entry is remembered with its own handle. */
  ghost predicate Lists(infos: seq<ZipFileInfo>, c: Content, n: nat)
  {
    |infos| == n <= |c.es| && forall k | 0 <= k < n :: infos[k] == c.Info(k)
  }

  /** Names and comments that are C strings are remembered as they are. */
  ghost predicate NamedAs(infos: seq<ZipFileInfo>, c: Content)
  {
    forall k | 0 <= k < |infos| && k < |c.es| && c.es[k].p.CStrings() ::
      infos[k].name == c.es[k].p.name && infos[k].comment == c.es[k].p.comment
  }

  lemma ListedNames(infos: seq<ZipFileInfo>, c: Content, n: nat)
    requires Lists(infos, c, n)
    ensures NamedAs(infos, c)
  {
    hide ZipWriter.CString;
    forall k | 0 <= k < |infos| && k < |c.es| && c.es[k].p.CStrings()
      ensures infos[k].name == c.es[k].p.name && infos[k].comment == c.es[k].p.comment
    {
      ZipWriter.CStringIs(c.es[k].p.name);
      ZipWriter.CStringIs(c.es[k].p.comment);
    }
  }

  /** The conversions to 32 bits. */
  function Long(x: nat): nat
  {
    x % U32
  }

  class ZipArchive {
    const device: Device
    const master: ZipReader.UnzFile
    var infos: seq<ZipFileInfo>

    constructor (device: Device, master: ZipReader.UnzFile, infos: seq<ZipFileInfo>)
      ensures this.device == device && this.master == master && this.infos == infos
    {
      this.device, this.master, this.infos := device, master, infos;
    }

    /** The constructor of ZipInput; null for its exceptions. A readable archive is
        opened exactly when its comment is empty, because the number of comment bytes
        read is taken for an error code. The entries listed are the recorded number of
        them: with an ordinary end record no more than 0xffff. */
    static method Open(device: Device, ghost c: Content) returns (z: ZipArchive?)
      ensures z != null ==> fresh(z) && z.device == device
      ensures c.In(device.bytes) ==> (z != null <==> c.d.commentSize == 0)
      ensures c.In(device.bytes) && z != null ==>
        && Lists(z.infos, c, c.d.entries)
        && (!c.d.zip64 ==> |z.infos| == Min(|c.es|, 0xffff))
        && NamedAs(z.infos, c)
    {
      hide Locate, First, Content.In, Content.Info;
      z := null;
      ghost var b := device.bytes;
      if c.In(b) {
        Opens(b, c);
        OrdinaryCount(b, c);
      }
      var stream := device.OpenStream();
      var u := ZipReader.UnzFile.Open(stream);
      if u == null || u.dir.commentSize != 0 {
        return;
      }
      var ok, infos := ReadInfos(u, c);
      if ok {
        if c.In(b) { ListedNames(infos, c, c.d.entries); }
        z := new ZipArchive(device, u, infos);
      }
    }

    /** ReadInfos. */
    static method ReadInfos(u: ZipReader.UnzFile, ghost c: Content) returns (ok: bool, infos: seq<ZipFileInfo>)
      requires c.In(u.file.bytes) ==> u.dir == c.d
      modifies u.file`pos, u`cursor
      ensures c.In(u.file.bytes) ==> ok && Lists(infos, c, c.d.entries) && NamedAs(infos, c)
    {
      hide First, Next, Content.In, Content.Info, CursorAt, RecordsOf;
      ok, infos := true, [];
      ghost var b := u.file.bytes;
      ghost var good := c.In(b);
      if good {
        Opens(b, c);
        AtFirst(b, c, u.cursor);
      }
      var code := u.GoToFirstFile();
      if code != UnzOk {
        return false, infos;
      }
      var numberOfFiles := Long(u.dir.entries);
      var i := 0;
      while i < numberOfFiles
        invariant 0 <= i <= numberOfFiles
        invariant good ==> numberOfFiles == c.d.entries <= |c.es| && Lists(infos, c, i)
        invariant good && i < numberOfFiles ==> AtEntry(u, c, i)
      {
        var info;
        ok, info := ReadInfo(u, c, i);
        if !ok {
          return;
        }
        infos := infos + [info];
        if i != numberOfFiles - 1 {
          if good { EntryNext(b, c, i); }
          var next := u.GoToNextFile();
          if next != UnzOk {
            return false, infos;
          }
        }
        i := i + 1;
      }
      if good { ListedNames(infos, c, c.d.entries); }
    }

    /** What is remembered of the current file. */
    static method ReadInfo(u: ZipReader.UnzFile, ghost c: Content, ghost i: nat) returns (ok: bool, r: ZipFileInfo)
      modifies u.file`pos
      ensures c.In(u.file.bytes) && u.dir == c.d && AtEntry(u, c, i) ==> ok && r == c.Info(i)
    {
      hide Content.In, Content.Info, CursorAt, ParseFull, ParseInfo, Wrap64, RecordsOf, InfoOf, ZipWriter.CString;
      ok, r := false, ZipFileInfo(0, 0, [], [], 0, 0);
      if c.In(u.file.bytes) && u.dir == c.d && AtEntry(u, c, i) { EntryFound(u.file.bytes, c, i); }
      if !u.cursor.ok {
        return;
      }
      var pos, num := Long(u.cursor.pos), Long(u.cursor.num);
      var first := u.GetInfo(u.cursor.pos);
      var full := u.GetFullInfo();
      if first == None || full == None {
        return;
      }
      var (info, name, comment) := full.value;
      ok := true;
      r := ZipFileInfo(pos, num, ZipWriter.CString(name), ZipWriter.CString(comment), info.sizes.csize, info.sizes.usize);
    }

    /** OpenFile: the first file of that name; null for its exceptions. The reader
        made for it stands where walking to the entry would have led, and shares
        nothing with any other. */
    method OpenFile(name: seq<byte>, ghost c: Content) returns (f: ZipFile?, ghost i: nat)
      requires c.In(device.bytes) && Lists(infos, c, |infos|)
      ensures f == null <==> forall k | 0 <= k < |infos| :: infos[k].name != name
      ensures (exists k | 0 <= k < |infos| :: c.es[k].p.CStrings() && c.es[k].p.name == name) ==> f != null
      ensures f != null ==>
        && i < |infos| && infos[i].name == name && (forall k | 0 <= k < i :: infos[k].name != name)
        && fresh(f) && fresh(f.unz) && fresh(f.unz.file) && f.Valid() && f.at == 0
        && f.contents == c.es[i].payload && f.unz.cursor == CursorAt(c.d, RecordsOf(c.es, c.base), i)
    {
      hide Content.In, Content.Info, CursorAt, ZipFile.Valid, RecordsOf;
      f, i := null, 0;
      ListedNames(infos, c, |infos|);
      var k := 0;
      while k < |infos| && infos[k].name != name
        invariant 0 <= k <= |infos|
        invariant forall j | 0 <= j < k :: infos[j].name != name
      {
        k := k + 1;
      }
      if k < |infos| {
        i := k;
        f := OpenHandle(infos[k].pos, infos[k].num, c, k);
      }
    }

    /** The constructor of ZipInput::File, for a handle recorded by ReadInfos. */
    method OpenHandle(pos: nat, num: nat, ghost c: Content, ghost i: nat) returns (f: ZipFile)
      requires c.In(device.bytes) && i < |c.es| && pos == c.Info(i).pos && num == c.Info(i).num
      ensures fresh(f) && fresh(f.unz) && fresh(f.unz.file) && f.Valid() && f.at == 0
      ensures f.contents == c.es[i].payload && |RecordsOf(c.es, c.base)| == |c.es|
      ensures f.unz.cursor == CursorAt(c.d, RecordsOf(c.es, c.base), i)
    {
      hide Locate, First, Content.In, Content.Info, CursorAt, RecordsOf, CheckLocal, Wrap64, InfoOf, Crc, Available, Reload;
      ghost var b := device.bytes;
      Opens(b, c);
      EntryDelivered(b, c, i);
      var stream := device.OpenStream();
      var u := ZipReader.UnzFile.Open(stream);
      HandleReaches(b, c, i, u.cursor.info);
      var _ := u.GoToFilePos(pos, num);
      var _ := u.OpenCurrentFile(false);
      f := new ZipFile(u, c.es[i].payload);
    }
  }

  /** The master reader stands at the i-th entry. */
  ghost predicate AtEntry(u: ZipReader.UnzFile, c: Content, i: nat)
    reads u
  {
    |RecordsOf(c.es, c.base)| == |c.es| && i < |c.es| && u.cursor == CursorAt(c.d, RecordsOf(c.es, c.base), i)
  }

  lemma Opens(b: seq<byte>, c: Content)
    requires c.In(b)
    ensures Locate(b, false) == Some(c.d) && |c.es| > 0 && c.base <= c.cdPos
    ensures Long(c.d.entries) == c.d.entries <= |c.es| && c.d.entries > 0 && c.d.before == c.base
    ensures |RecordsOf(c.es, c.base)| == |c.es|
  {
    hide Locate, IsArchive, RecordOf, Dir;
    ReadableParts(b, c.d, c.base, c.cdPos, c.es, c.text);
    RecordsLength(c.es, c.base, 0);
    SmallLong(c.d.entries);
  }

  /** An ordinary end record counts no more than 0xffff entries, so that the rest is not
      listed: every entry is exactly if there are no more than that. */
  lemma OrdinaryCount(b: seq<byte>, c: Content)
    requires c.In(b)
    ensures !c.d.zip64 ==> c.d.entries == Min(|c.es|, 0xffff) && (c.d.entries == |c.es| <==> |c.es| <= 0xffff)
  {
    hide IsArchive, Locate, Dir;
    if !c.d.zip64 {
      LocateCount(b, false);
    }
  }

  lemma SmallLong(x: nat)
    ensures x < U32 ==> Long(x) == x
  {
  }

  lemma AtFirst(b: seq<byte>, c: Content, cursor: Cursor)
    requires c.In(b)
    ensures |RecordsOf(c.es, c.base)| == |c.es| > 0
    ensures First(b, c.d, cursor) == CursorAt(c.d, RecordsOf(c.es, c.base), 0)
    ensures CursorAt(c.d, RecordsOf(c.es, c.base), 0).ok
  {
    hide Readable, First, CursorAt, RecordsOf;
    Opens(b, c);
    FirstEntry(b, c.d, c.base, c.cdPos, c.es, c.text, cursor);
    EntryReadable(b, c.d, c.base, c.cdPos, c.es, c.text, 0);
  }

  /** The directory up to an entry is a part of the whole. */
  lemma PosInside(c: Content, i: nat)
    requires i < |c.es|
    ensures |RecordsOf(c.es, c.base)| == |c.es|
    ensures |Cat(RecordsOf(c.es, c.base)[..i])| <= |Dir(c.es, c.base)|
  {
    hide Cat, Dir, RecordsOf;
    RecordsLength(c.es, c.base, i);
    CatIsDir(c.es, c.base);
    RecordInside(RecordsOf(c.es, c.base), i);
  }

  /** What the master reader finds at the i-th entry. */
  ghost predicate Found(b: seq<byte>, c: Content, i: nat, cur: Cursor)
    requires i < |c.es|
  {
    var info := InfoOf(c.es[i], c.base);
    && cur.ok && cur.info == info && cur.num == i
    && ParseFull(b, Wrap64(cur.pos + c.d.before)) == Some((info, c.es[i].p.name, c.es[i].p.comment))
    && ParseInfo(b, Wrap64(cur.pos + c.d.before)).Some?
    && c.Info(i) == ZipFileInfo(Long(cur.pos), Long(i), ZipWriter.CString(c.es[i].p.name),
                                ZipWriter.CString(c.es[i].p.comment), info.sizes.csize, info.sizes.usize)
  }

  lemma EntryFound(b: seq<byte>, c: Content, i: nat)
    requires c.In(b) && i < |c.es|
    ensures |RecordsOf(c.es, c.base)| == |c.es| && Found(b, c, i, CursorAt(c.d, RecordsOf(c.es, c.base), i))
  {
    hide Readable, RecordsOf, ParseFull, ParseInfo, Wrap64, ZipWriter.CString, CentralHeader, Cat, Dir, Delivers;
    Opens(b, c);
    PosInside(c, i);
    EntryReadable(b, c.d, c.base, c.cdPos, c.es, c.text, i);
    SmallLong(c.d.offset + |Cat(RecordsOf(c.es, c.base)[..i])|);
    SmallLong(i);
    FullNeedsInfo(b, Wrap64(CursorAt(c.d, RecordsOf(c.es, c.base), i).pos + c.d.before));
  }

  /** And where it goes next. */
  lemma EntryNext(b: seq<byte>, c: Content, i: nat)
    requires c.In(b) && i + 1 < |c.es|
    ensures |RecordsOf(c.es, c.base)| == |c.es|
    ensures Next(b, c.d, CursorAt(c.d, RecordsOf(c.es, c.base), i)) == (UnzOk, CursorAt(c.d, RecordsOf(c.es, c.base), i + 1))
  {
    hide Readable, RecordsOf, Next, CursorAt;
    Opens(b, c);
    LastOrNext(b, c.d, c.base, c.cdPos, c.es, c.text, i);
  }

  lemma FullNeedsInfo(b: seq<byte>, p: nat)
    ensures ParseFull(b, p).Some? ==> ParseInfo(b, p).Some?
  {
  }

  /** Going to a recorded handle is the same as walking to its entry. */
  lemma HandleReaches(b: seq<byte>, c: Content, i: nat, prev: Records.FileInfo)
    requires c.In(b) && i < |c.es|
    ensures |RecordsOf(c.es, c.base)| == |c.es|
    ensures var cur := CursorAt(c.d, RecordsOf(c.es, c.base), i);
      && Reload(b, c.d, c.Info(i).pos, c.Info(i).num, prev) == cur && cur.ok && cur.info == InfoOf(c.es[i], c.base)
  {
    hide Content.In, Content.Info, CursorAt, RecordsOf, Reload, Stands, Cat, InfoOf;
    StandsIn(b, c);
    InfoHandle(c, i);
    ReloadAt(b, c.d, RecordsOf(c.es, c.base), i, prev);
    CursorFound(b, c, i);
  }

  lemma InfoHandle(c: Content, i: nat)
    requires i < |c.es|
    ensures |RecordsOf(c.es, c.base)| == |c.es|
    ensures c.Info(i).pos == c.d.offset + |Cat(RecordsOf(c.es, c.base)[..i])| && c.Info(i).num == i
  {
  }

  lemma StandsIn(b: seq<byte>, c: Content)
    requires c.In(b)
    ensures c.es != [] && |RecordsOf(c.es, c.base)| == |c.es| && Stands(b, c.d, RecordsOf(c.es, c.base))
  {
    hide Readable, RecordsOf, Stands;
    Opens(b, c);
    Unpacked(b, c.d, c.base, c.cdPos, c.es, c.text, 0);
  }

  lemma CursorFound(b: seq<byte>, c: Content, i: nat)
    requires c.In(b) && i < |c.es|
    ensures |RecordsOf(c.es, c.base)| == |c.es|
    ensures var cur := CursorAt(c.d, RecordsOf(c.es, c.base), i); cur.ok && cur.info == InfoOf(c.es[i], c.base)
  {
    hide Content.In, CursorAt, RecordsOf, ParseFull, ParseInfo, Wrap64, InfoOf, Content.Info;
    EntryFound(b, c, i);
  }

  lemma EntryDelivered(b: seq<byte>, c: Content, i: nat)
    requires c.In(b) && i < |c.es|
    ensures c.d.before == c.base && |c.es[i].payload| < U64 && Delivers(b, c.base, c.es[i])
  {
    hide Readable, Delivers;
    EntryReadable(b, c.d, c.base, c.cdPos, c.es, c.text, i);
    Unpacked(b, c.d, c.base, c.cdPos, c.es, c.text, i);
  }
}
