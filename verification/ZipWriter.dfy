/** The archive writer: zipOpen3, zipOpenNewFileInZip4_64, zipWriteInFileInZip,
    zipCloseFileInZipRaw64 and zipClose, for entries that are stored or passed through
    raw, with or without a password. */
module ZipWriter {
  import opened Bytes
  import opened Format
  import opened Stream
  import opened Entry
  import opened HeaderIo
  import opened CentralIo
  import opened DataBlocks
  import opened EndRecord
  import opened Checksum
  import opened Cipher

  const Z_BUFSIZE: nat := 16384

  datatype Code = ZipOk | ZipParamError | ZipErrno

  /** The copy loop of the store path. */
  method CopyInto(a: array<byte>, start: nat, piece: seq<byte>)
    requires start + |piece| <= a.Length
    modifies a
    ensures a[..start + |piece|] == old(a[..start]) + piece
  {
    for i := 0 to |piece|
      invariant a[..start] == old(a[..start])
      invariant a[start..start + i] == piece[..i]
    {
      a[start + i] := piece[i];
      assert a[start..start + i + 1] == piece[..i] + [piece[i]] == piece[..i + 1];
    }
    assert a[..start + |piece|] == a[..start] + a[start..start + |piece|];
  }

  /** The encryption loop of zip64FlushWriteBuffer, in place. */
  method EncodeBuffer(a: array<byte>, n: nat, keys: Keys) returns (k: Keys)
    requires n <= a.Length
    modifies a
    ensures a[..n] == Encrypt(keys, old(a[..n]), U32) && k == KeysAfter(keys, old(a[..n]), U32)
  {
    hide Mask, Update;
    ghost var plain := a[..n];
    k := keys;
    for i := 0 to n
      invariant k == KeysAfter(keys, plain[..i], U32)
      invariant a[..i] == Encrypt(keys, plain[..i], U32)
      invariant a[i..n] == plain[i..]
    {
      var c := a[i];
      assert c == plain[i] && plain[..i + 1][..i] == plain[..i];
      a[i] := Mask(c, k);
      k := Update(k, c, U32);
      assert a[..i + 1] == a[..i] + [a[i]];
    }
    assert plain[..n] == plain;
  }

  /** Everything behind the last entry: the zip64 records when the directory starts
      too far into the archive, the end record and the comment. */
  function EndPart(base: nat, cdPos: nat, size: nat, count: nat, comment: seq<byte>): seq<byte>
    requires base <= cdPos
  {
    var offset := cdPos - base;
    (if offset >= SENTINEL then
       EncodeZip64End(Zip64End(0, 0, count, count, size % U32, offset)) + EncodeLocator(cdPos + size - base)
     else [])
    + EncodeEnd(EndFixed(0, 0, Min(count, 0xffff), Min(count, 0xffff), size % U32, Min(offset, SENTINEL), |comment|))
    + comment
  }

  /** A C string ends at its first zero. */
  function CString(s: seq<byte>): seq<byte>
  {
    if s == [] || s[0] == 0 then [] else [s[0]] + CString(s[1..])
  }

  /** What that means: the bytes in front of the first zero, all of them if there is none. */
  lemma {:induction false} CStringIs(s: seq<byte>)
    ensures var r := CString(s);
      && r <= s && Zeroless(r) && (|r| < |s| ==> s[|r|] == 0)
      && (Zeroless(s) <==> r == s)
  {
    if s != [] && s[0] != 0 {
      CStringIs(s[1..]);
    }
  }

  /** NULL counts as the empty comment. */
  function Comment(s: Option<seq<byte>>): (r: seq<byte>)
    ensures s == None ==> r == []
    ensures s.Some? ==> r <= s.value && Zeroless(r) && (Zeroless(s.value) ==> r == s.value)
    ensures s.Some? && |r| < |s.value| ==> s.value[|r|] == 0
  {
    if s == None then []
    else
      CStringIs(s.value);
      CString(s.value)
  }

  /** Entries follow one another from `start` on. */
  ghost predicate Sited(es: seq<Entry>, start: nat)
  {
    forall i :: 0 <= i < |es| ==> es[i].pos == start + |Body(es[..i])|
  }

  lemma SitedSnoc(es: seq<Entry>, e: Entry, start: nat)
    requires Sited(es, start) && e.pos == start + |Body(es)|
    ensures Sited(es + [e], start)
  {
    forall i | 0 <= i <= |es|
      ensures (es + [e])[i].pos == start + |Body((es + [e])[..i])|
    {
      assert (es + [e])[..i] == es[..i];
      assert es[..|es|] == es;
    }
  }

  /** curfile64_info: the entry being written. */
  datatype CurFile = CurFile(
    posLocalHeader: nat, centralHeader: seq<byte>, sizeCentralHeader: nat, sizeCentralExtra: nat,
    posZip64: nat, raw: bool, encrypt: bool, headSize: nat, keys: Keys, crc: word,
    pos: nat, availOut: nat, totalIn: nat, totalCompressed: nat, totalUncompressed: nat)

  /** What the caller asked for: arguments, password, and all bytes passed in so far;
      with a password also the encryption head and the keys behind it. */
  datatype Request = Request(p: Params, password: seq<byte>, head: seq<byte>, firstKeys: Keys, input: seq<byte>)
  {
    /** The form in which bytes of the entry reach the file. */
    function Sent(s: seq<byte>): (e: seq<byte>)
      ensures |e| == |s|
    {
      if p.encrypted then Encrypt(firstKeys, s, U32) else s
    }

    /** The head begins the key stream of the password. */
    ghost predicate Keyed()
    {
      && |head| == (if p.encrypted then HEAD else 0)
      && (p.encrypted ==>
            firstKeys == KeysAfter(InitKeys(password), Decrypt(InitKeys(password), head, U32), U32))
    }
  }

  /** The archive being extended: the file as it was, where writing started, and the
      directory and number of entries found in it. */
  datatype Origin = Origin(file: seq<byte>, start: nat, dir: seq<byte>, count: nat)

  /** The archive to extend, from where the reader finds its directory; the bytes in
      front of the end record are the directory. */
  function Taken(b: seq<byte>, d: Directory): Origin
  {
    var start := d.before + d.offset;
    Origin(b, start, if start <= d.centralPos <= |b| then b[start..d.centralPos] else [], d.entries)
  }

  /** Both headers of the current entry are in place, sizes still unknown. */
  ghost predicate Headers(c: CurFile, r: Request, base: nat)
  {
    && base <= c.posLocalHeader
    && c.posZip64 == (if r.p.zip64 then c.posLocalHeader + 30 + |r.p.name| + |r.p.extraLocal| else 0)
    && c.sizeCentralHeader == 46 + |Middle(r.p)| && |c.centralHeader| == c.sizeCentralHeader + EXTRA_FREE
    && c.centralHeader[..c.sizeCentralHeader] == EncodeCentral(OpenCentral(r.p, c.posLocalHeader, base)) + Middle(r.p)
    && c.sizeCentralExtra == |r.p.extraGlobal|
    && c.raw == r.p.raw && c.encrypt == r.p.encrypted && c.headSize == |r.head|
  }

  /** What was passed in but not flushed is in the buffer; the totals count the rest. */
  ghost predicate Pipeline(c: CurFile, r: Request, buffer: seq<byte>)
  {
    && c.pos <= |r.input| && c.pos <= |buffer| == Z_BUFSIZE
    && buffer[..c.pos] == r.input[|r.input| - c.pos..]
    && (c.encrypt ==> c.keys == KeysAfter(r.firstKeys, Flushed(c, r), U32))
    && c.encrypt == r.p.encrypted
    && c.totalCompressed == c.totalUncompressed == |Flushed(c, r)| && c.totalIn == c.pos
  }

  /** The bytes of the current entry that have been flushed. */
  ghost function Flushed(c: CurFile, r: Request): seq<byte>
  {
    r.input[..Max(0, |r.input| - c.pos)]
  }

  /** The current entry as the file holds it. */
  ghost function Partial(c: CurFile, r: Request): seq<byte>
  {
    OpenLocal(r.p) + (r.head + r.Sent(Flushed(c, r)))
  }

  /** The entry that closing would record. */
  function Finished(c: CurFile, r: Request, uncompressedSize: nat, crc32: word): Entry
  {
    Entry(c.posLocalHeader, r.p, r.head + r.Sent(r.input),
          if c.raw then crc32 else c.crc, if c.raw then uncompressedSize else |r.input|)
  }

  /** What closing records of a request: what was passed in, as it is or, with a password,
      so that it decodes to that behind the twelve bytes of the head; the numbers given for
      a raw entry, and otherwise those of the input. */
  lemma FinishedTells(c: CurFile, r: Request, base: nat, uncompressedSize: nat, crc32: word)
    requires Headers(c, r, base) && r.Keyed()
    ensures var e := Finished(c, r, uncompressedSize, crc32);
      && e.p == r.p && e.pos == c.posLocalHeader
      && (r.p.raw ==> e.crc == crc32 && e.usize == uncompressedSize)
      && (!r.p.raw ==> e.crc == c.crc && e.usize == |r.input|)
      && (!r.p.encrypted ==> e.payload == r.input)
      && (r.p.encrypted ==>
            |e.payload| == 12 + |r.input| && Decrypt(InitKeys(r.password), e.payload, U32)[12..] == r.input)
  {
    hide Encrypt, Decrypt, KeysAfter, EncodeCentral, Middle, InitKeys;
    if r.p.encrypted {
      EntryDecrypts(r.password, r.head, r.input);
    } else {
      assert [] + r.input == r.input;
    }
  }

  /** The directory under construction describes the finished entries. */
  ghost predicate Ledger(o: Origin, base: nat, es: seq<Entry>, dir: seq<byte>, count: nat)
  {
    && base <= o.start <= |o.file|
    && Placed(es, base) && Sited(es, o.start)
    && dir == o.dir + Dir(es, base)
    && count == o.count + |es|
  }

  /** The file up to the end of the last finished entry. */
  ghost function Done(o: Origin, es: seq<Entry>): seq<byte>
  {
    o.file[..Min(o.start, |o.file|)] + Body(es)
  }

  /** The file begins with s, ends there as far as writing goes, and is untouched
      behind. */
  ghost predicate Holds(b: seq<byte>, p: nat, s: seq<byte>, original: seq<byte>)
  {
    p == |s| <= |b| && b[..p] == s && Tail(b, p, original)
  }

  class Writer {
    const file: File
    const centralDir: BlockList
    const buffered: array<byte>

    // zip64_internal
    var inOpenedFile: bool
    var base: nat
    var numberEntry: nat
    var globalComment: Option<seq<byte>>
    var ci: CurFile

    ghost var origin: Origin
    /** The entries closed so far, and the one being written. */
    ghost var entries: seq<Entry>
    ghost var request: Request

    ghost predicate Valid()
      reads this, file, centralDir, buffered
    {
      && centralDir.Valid() && buffered.Length == Z_BUFSIZE
      && Ledger(origin, base, entries, centralDir.Contents(), numberEntry)
      && (!inOpenedFile ==> Holds(file.bytes, file.pos, Done(origin, entries), origin.file))
      && (inOpenedFile ==>
            && ci.posLocalHeader == |Done(origin, entries)|
            && Headers(ci, request, base) && request.Keyed()
            && Pipeline(ci, request, buffered[..])
            && ci.availOut + ci.pos == Z_BUFSIZE && ci.crc == Crc(0, request.input)
            && Holds(file.bytes, file.pos, Done(origin, entries) + Partial(ci, request), origin.file))
    }

    /** zipOpen3 up to the loading of an existing directory. The file has just been
        opened; with APPEND_STATUS_CREATEAFTER writing starts behind its bytes. */
    constructor (file: File, after: bool)
      requires file.pos == 0
      modifies file
      ensures Valid() && !inOpenedFile && this.file == file && fresh(centralDir) && fresh(buffered)
      ensures base == 0 && entries == [] && globalComment == None && numberEntry == 0
      ensures origin == Origin(old(file.bytes), if after then |old(file.bytes)| else 0, [], 0)
      ensures file.bytes == old(file.bytes) && centralDir.Contents() == []
    {
      this.file := file;
      centralDir := new BlockList();
      buffered := new byte[Z_BUFSIZE](_ => 0);
      inOpenedFile, base, numberEntry, globalComment := false, 0, 0, None;
      ci := CurFile(0, [], 0, 0, 0, false, false, 0, Keys(0, 0, 0), 0, 0, 0, 0, 0, 0);
      origin, entries := Origin(file.bytes, if after then |file.bytes| else 0, [], 0), [];
      new;
      if after {
        file.SeekEnd();
      }
      assert file.bytes[..origin.start] + [] == file.bytes[..origin.start];
    }

    /** LoadCentralDirectoryRecord: take over the directory of an existing archive and
        position the file so that writing replaces it. */
    method Load() returns (ok: bool)
      requires Valid() && !inOpenedFile && entries == [] && origin.dir == [] && origin.count == 0
      requires |file.bytes| < U64
      modifies this, file, centralDir
      ensures file.bytes == old(file.bytes) && !inOpenedFile && entries == []
      ensures Locate(file.bytes, true) == None ==> !ok
      ensures Locate(file.bytes, true).Some? ==>
        var d := Locate(file.bytes, true).value;
        d.offset + d.size < U64 ==>
          && ok && Valid() && base == d.before && origin == Taken(file.bytes, d)
          && globalComment ==
             if d.commentSize > 0 then Some(Available(file.bytes, d.centralPos + 22, d.commentSize)) else None
    {
      hide Locate, Put, Num, Available, Ledger, Holds, Done, Headers, Pipeline, Join, Partial, Finished, CString;
      EmptyLedger(origin, base, centralDir.Contents(), numberEntry);
      globalComment := None;
      var found := LocateDirectory(file, true);
      if found == None {
        return false;
      }
      var d := found.value;
      LocateBounds(file.bytes, true);
      if d.commentSize > 0 {
        var text := file.Read(d.commentSize);
        globalComment := Some(text);
      }
      ok := TakeDirectory(d);
    }

    /** Load the bytes of the located directory and continue in its place. */
    method TakeDirectory(d: Directory) returns (ok: bool)
      requires centralDir.Valid() && centralDir.Contents() == [] && buffered.Length == Z_BUFSIZE
      requires !inOpenedFile && entries == [] && d.centralPos <= |file.bytes| < U64
      requires d.offset + d.size < U64 ==> d.before + d.offset + d.size == d.centralPos
      modifies `base, `numberEntry, `origin, file`pos, centralDir
      ensures d.offset + d.size < U64 ==>
        ok && Valid() && base == d.before && origin == Taken(file.bytes, d)
    {
      hide Ledger, Holds, Done, Join;
      base := d.before;
      var at := (d.offset + d.before) % U64;
      file.SeekSet(at);
      ok := LoadBytes(d.size);
      numberEntry := d.entries;
      file.SeekSet(at);
      if d.offset + d.size < U64 {
        origin := Origin(file.bytes, at, file.bytes[at..at + d.size], d.entries);
        FreshLedger(origin, base, file.bytes);
        assert [] + origin.dir == origin.dir;
      }
    }

    /** The reading loop of LoadCentralDirectoryRecord. */
    method LoadBytes(size: nat) returns (ok: bool)
      requires centralDir.Valid()
      modifies file`pos, centralDir
      ensures centralDir.Valid() && (old(file.pos) + size <= |file.bytes| ==> ok)
      ensures old(file.pos) + size <= |file.bytes| ==>
        centralDir.Contents() == old(centralDir.Contents()) + file.bytes[old(file.pos)..old(file.pos) + size]
    {
      hide Join, BlockList.Valid, BlockList.Contents, Available;
      ghost var start, c0 := file.pos, centralDir.Contents();
      LoadNothing(file.bytes, start, c0);
      var toRead: nat := size;
      ok := true;
      while toRead > 0 && ok
        invariant centralDir.Valid() && toRead <= size && (ok ==> file.pos == start + (size - toRead))
        invariant start + size <= |file.bytes| ==>
          ok && centralDir.Contents() == c0 + file.bytes[start..start + (size - toRead)]
        decreases toRead, ok
      {
        var readThis := Min(BLOCK_SIZE, toRead);
        ghost var before := file.pos;
        LoadMore(file.bytes, start, before, readThis, c0);
        var buf := file.Read(readThis);
        if |buf| != readThis {
          ok := false;
        } else {
          centralDir.AddData(buf);
          toRead := toRead - readThis;
        }
      }
    }

    /** zip64FlushWriteBuffer. */
    method Flush(ghost done: seq<byte>)
      requires Pipeline(ci, request, buffered[..])
      requires Holds(file.bytes, file.pos, done + Partial(ci, request), origin.file)
      modifies file, buffered, `ci
      ensures Pipeline(ci, request, buffered[..]) && ci.pos == 0
      ensures Holds(file.bytes, file.pos, done + Partial(ci, request), origin.file)
      ensures ci == old(ci).(pos := 0, keys := ci.keys, totalIn := 0,
                             totalCompressed := ci.totalCompressed, totalUncompressed := ci.totalUncompressed)
    {
      hide Put, Encrypt, KeysAfter, OpenLocal, Tail;
      ghost var sent, pending := Flushed(ci, request), request.input[|request.input| - ci.pos..];
      var n := ci.pos;
      var k := ci.keys;
      assert buffered[..n] == pending;
      EncryptAppend(request.firstKeys, sent, pending, U32);
      if ci.encrypt {
        k := EncodeBuffer(buffered, n, ci.keys);
      }
      assert request.input == sent + pending;
      assert request.Sent(sent) + buffered[..n] == request.Sent(request.input);
      FlushedMore(done, OpenLocal(request.p), request.head, request.Sent(sent), buffered[..n]);
      Emit(file, buffered[..n], origin.file);
      ci := ci.(keys := k, totalCompressed := ci.totalCompressed + n,
                totalUncompressed := ci.totalUncompressed + ci.totalIn, totalIn := 0, pos := 0);
      assert Flushed(ci, request) == request.input;
    }

    /** One round of the store loop: copy as much as fits. */
    method CopyPiece(piece: seq<byte>)
      requires Pipeline(ci, request, buffered[..]) && ci.availOut + ci.pos == Z_BUFSIZE && |piece| <= ci.availOut
      modifies buffered, `ci, `request
      ensures Pipeline(ci, request, buffered[..]) && request == old(request).(input := old(request).input + piece)
      ensures ci == old(ci).(pos := old(ci).pos + |piece|, totalIn := ci.totalIn, availOut := ci.availOut)
      ensures ci.availOut + ci.pos == Z_BUFSIZE
      ensures Partial(ci, request) == old(Partial(ci, request))
    {
      hide Put, Encrypt, KeysAfter, OpenLocal;
      var n := |piece|;
      CopyInto(buffered, Z_BUFSIZE - ci.availOut, piece);
      AppendPending(request.input, ci.pos, piece);
      request := request.(input := request.input + piece);
      ci := ci.(availOut := ci.availOut - n, totalIn := ci.totalIn + n, pos := ci.pos + n);
      assert Flushed(ci, request) == old(Flushed(ci, request));
    }

    /** zipWriteInFileInZip. */
    method Write(buf: seq<byte>) returns (code: Code)
      requires Valid()
      modifies file, buffered, `ci, `request
      ensures Valid()
      ensures !inOpenedFile ==> code == ZipParamError && file.bytes == old(file.bytes)
      ensures inOpenedFile ==> code == ZipOk && request == old(request).(input := old(request).input + buf)
      ensures ci.posLocalHeader == old(ci).posLocalHeader
    {
      hide Put, Ledger, Headers, Pipeline, Crc, Partial, Holds, Done;
      if !inOpenedFile {
        return ZipParamError;
      }
      CrcAppend(0, request.input, buf);
      ghost var done, c0 := Done(origin, entries), ci;
      ci := ci.(crc := Crc(ci.crc, buf));
      CrcIrrelevant(c0, ci, request, base, buffered[..]);
      StoreAll(buf, done);
      SameHeaders(c0, old(request), ci, request, base);
      code := ZipOk;
    }

    /** The loop of zipWriteInFileInZip for entries that are not deflated. */
    method StoreAll(buf: seq<byte>, ghost done: seq<byte>)
      requires Pipeline(ci, request, buffered[..]) && ci.availOut + ci.pos == Z_BUFSIZE
      requires Holds(file.bytes, file.pos, done + Partial(ci, request), origin.file)
      modifies file, buffered, `ci, `request
      ensures Pipeline(ci, request, buffered[..]) && ci.availOut + ci.pos == Z_BUFSIZE
      ensures Holds(file.bytes, file.pos, done + Partial(ci, request), origin.file)
      ensures request == old(request).(input := old(request).input + buf)
      ensures SameEntry(old(ci), ci)
    {
      hide Holds, Pipeline, Partial;
      var nextIn: nat := 0;
      var availIn: nat := |buf|;
      while availIn > 0
        invariant nextIn + availIn == |buf|
        invariant request == old(request).(input := old(request).input + buf[..nextIn])
        invariant Pipeline(ci, request, buffered[..]) && ci.availOut + ci.pos == Z_BUFSIZE
        invariant Holds(file.bytes, file.pos, done + Partial(ci, request), origin.file)
        invariant SameEntry(old(ci), ci)
        decreases availIn
      {
        if ci.availOut == 0 {
          Flush(done);
          AvailIrrelevant(ci, ci.(availOut := Z_BUFSIZE), request, buffered[..]);
          ci := ci.(availOut := Z_BUFSIZE);
        }
        var copyThis := if availIn < ci.availOut then availIn else ci.availOut;
        var piece := buf[nextIn..nextIn + copyThis];
        CopyPiece(piece);
        assert buf[..nextIn + copyThis] == buf[..nextIn] + piece;
        nextIn := nextIn + copyThis;
        availIn := availIn - copyThis;
      }
      assert buf[..nextIn] == buf;
    }

    /** zipOpenNewFileInZip4_64. An entry still open is closed first; the random bytes
        of the encryption head are an argument. */
    method OpenNewFile(q: Params, pass: Option<seq<byte>>, random: seq<byte>, crcForCrypting: word) returns (code: Code)
      requires Valid() && |random| == HEAD - 2
      requires q.compression == Z_DEFLATED ==> q.raw
      requires q.encrypted == pass.Some?
      modifies file, centralDir, buffered, `ci, `request, `entries, `numberEntry, `inOpenedFile
      ensures Valid() && origin == old(origin) && base == old(base)
      ensures q.compression != 0 && q.compression != Z_DEFLATED ==>
        code == ZipParamError && inOpenedFile == old(inOpenedFile) && entries == old(entries) && file.bytes == old(file.bytes)
      ensures q.compression == 0 || q.compression == Z_DEFLATED ==>
        && code == ZipOk && inOpenedFile && request.p == q && request.input == []
        && entries == old(entries) + if old(inOpenedFile) then [old(Finished(ci, request, 0, 0))] else []
      ensures code == ZipOk && pass.Some? ==>
        && request.password == pass.value
        && Decrypt(InitKeys(pass.value), request.head, U32)[HEAD - 2..] == CheckBytes(crcForCrypting)
    {
      hide Valid, Finished;
      if q.compression != 0 && q.compression != Z_DEFLATED {
        return ZipParamError;
      }
      if inOpenedFile {
        var _ := CloseFileRaw(0, 0);
      }
      BeginEntry(q, pass, random, crcForCrypting);
      code := ZipOk;
    }

    method BeginEntry(q: Params, pass: Option<seq<byte>>, random: seq<byte>, crcForCrypting: word)
      requires Valid() && !inOpenedFile
      requires |random| == HEAD - 2 && q.encrypted == pass.Some?
      modifies file, `ci, `request, `inOpenedFile
      ensures Valid() && inOpenedFile && request.p == q && request.input == []
      ensures pass.Some? ==>
        && request.password == pass.value && |request.head| == HEAD
        && Decrypt(InitKeys(pass.value), request.head, U32)[HEAD - 2..] == CheckBytes(crcForCrypting)
    {
      hide Put, OpenLocal, EncodeCentral, Encrypt, KeysAfter, Decrypt, Crc, CheckBytes, Ledger, Pipeline, Partial, Done,
        Headers, Holds, Request.Keyed, BlockList.Valid, BlockList.Contents, InitKeys;
      ci, request := WriteHead(q, pass, random, crcForCrypting);
      inOpenedFile := true;
      EmptyStart(ci, request, buffered[..]);
      assert Partial(ci, request) == OpenLocal(q) + request.head && ci.crc == Crc(0, request.input);
    }

    /** Both headers of a new entry, the local one in the file, and the encryption head. */
    method WriteHead(q: Params, pass: Option<seq<byte>>, random: seq<byte>, crcForCrypting: word)
      returns (c: CurFile, ghost r: Request)
      requires Valid() && !inOpenedFile
      requires |random| == HEAD - 2 && q.encrypted == pass.Some?
      modifies file
      ensures r.p == q && r.input == [] && r.Keyed() && Headers(c, r, base)
      ensures c.posLocalHeader == |Done(origin, entries)| && c.availOut == Z_BUFSIZE && c.crc == 0 && c.encrypt == q.encrypted
      ensures c.pos == c.totalIn == c.totalCompressed == c.totalUncompressed == 0 && (c.encrypt ==> c.keys == r.firstKeys)
      ensures Holds(file.bytes, file.pos, Done(origin, entries) + (OpenLocal(q) + r.head), origin.file)
      ensures pass.Some? ==>
        && r.password == pass.value && |r.head| == HEAD
        && Decrypt(InitKeys(pass.value), r.head, U32)[HEAD - 2..] == CheckBytes(crcForCrypting)
    {
      hide Put, OpenLocal, EncodeCentral, Encrypt, KeysAfter, Decrypt, Crc, CheckBytes, Body, Dir;
      ghost var done := Done(origin, entries);
      var at := file.Tell();
      var header, size := BuildCentral(q, at, base);
      var posZip64 := WriteLocalHeader(file, q, origin.file);
      var keys, head := Keys(0, 0, 0), [];
      var password := [];
      if pass.Some? {
        password := pass.value;
        head, keys := CryptHead(password, random, crcForCrypting);
        Emit(file, head, origin.file);
      }
      c := CurFile(at, header, size, |q.extraGlobal|, posZip64, q.raw, q.encrypted, |head|, keys, 0,
                   0, Z_BUFSIZE, 0, 0, 0);
      r := Request(q, password, head, keys, []);
      Assoc(done, OpenLocal(q), head);
      assert done + (OpenLocal(q) + []) == done + OpenLocal(q);
    }

    /** zipCloseFileInZipRaw64; for entries that are not raw the size and the
        checksum are those of the bytes passed in. */
    method CloseFileRaw(uncompressedSize: nat, crc32: word) returns (code: Code)
      requires Valid()
      modifies file, centralDir, buffered, `ci, `entries, `numberEntry, `inOpenedFile
      ensures Valid() && !inOpenedFile
      ensures !old(inOpenedFile) ==> code == ZipParamError && entries == old(entries) && file.bytes == old(file.bytes)
      ensures old(inOpenedFile) ==>
        code == ZipOk && entries == old(entries) + [Finished(old(ci), request, uncompressedSize, crc32)]
    {
      hide Put, Ledger, Headers, Pipeline, Crc, Partial, Holds, Done, LocalBytes;
      if !inOpenedFile {
        return ZipParamError;
      }
      ghost var e, done := Finished(ci, request, uncompressedSize, crc32), Done(origin, entries);
      ghost var c0 := ci;
      if ci.pos > 0 {
        Flush(done);
      }
      AllFlushed(c0, ci, request, base, buffered[..]);
      var checksum, usize := crc32, uncompressedSize;
      if !ci.raw {
        checksum := ci.crc;
        usize := ci.totalUncompressed;
      }
      var csize := ci.totalCompressed + ci.headSize;
      RecordDirectory(checksum, csize, usize, e);
      RecordLocal(checksum, csize, usize, done, e);
      DoneSnoc(origin, old(entries), e);
      inOpenedFile := false;
      code := ZipOk;
    }

    /** zipClose: directory, end records and comment, a C string. Without a comment the
        archive keeps the one it had. */
    method Close(comment: Option<seq<byte>>)
      requires Valid()
      modifies this, file, centralDir, buffered
      ensures entries == old(entries) + if old(inOpenedFile) then [old(Finished(ci, request, 0, 0))] else []
      ensures base == old(base) && origin == old(origin) && Placed(entries, base) && base <= origin.start <= |origin.file|
      ensures Sited(entries, origin.start)
      ensures var dir := origin.dir + Dir(entries, base);
        var done := Done(origin, entries);
        var text := Comment(if comment.Some? then comment else old(globalComment));
        base <= |done|
        && Holds(file.bytes, file.pos,
                 done + dir + EndPart(base, |done|, |dir|, origin.count + |entries|, text), origin.file)
    {
      hide Ledger, Headers, Pipeline, Finished, Dir, EndPart, Partial, Done, Holds, Sited, Placed;
      hide CString, Zeroless, Comment, BlockList.Valid, BlockList.Contents;
      if inOpenedFile {
        var _ := CloseFileRaw(0, 0);
      }
      LedgerFacts(origin, base, entries, centralDir.Contents(), numberEntry);
      var text := Comment(if comment.Some? then comment else globalComment);
      WriteTail(text, Done(origin, entries));
    }

    /** The directory and everything behind it. */
    method WriteTail(text: seq<byte>, ghost done: seq<byte>)
      requires Holds(file.bytes, file.pos, done, origin.file) && base <= |done| && centralDir.Valid()
      modifies file
      ensures var dir := centralDir.Contents();
        Holds(file.bytes, file.pos, done + dir + EndPart(base, |done|, |dir|, numberEntry, text), origin.file)
    {
      hide Put, EncodeEnd, EncodeZip64End, EncodeLocator, Join;
      var cdPos := file.Tell();
      ghost var dir := centralDir.Contents();
      var size := WriteDirectory();
      var offset := cdPos - base;
      ghost var prefix := done + dir;
      ghost var zip64: seq<byte> := [];
      if offset >= SENTINEL {
        ghost var z, l := EncodeZip64End(Zip64End(0, 0, numberEntry, numberEntry, size, offset)),
                          EncodeLocator(cdPos + |dir| - base);
        zip64 := z + l;
        WriteZip64End(file, numberEntry, size, offset, base, origin.file);
        Assoc(prefix, z, l);
      } else {
        assert prefix + zip64 == prefix;
      }
      WriteEnd(file, numberEntry, size, offset, text, origin.file);
      ghost var e := EncodeEnd(EndFixed(0, 0, Min(numberEntry, 0xffff), Min(numberEntry, 0xffff), size,
                                        Min(offset, SENTINEL), |text|));
      Assoc(prefix, zip64 + e, text);
      Assoc(prefix, zip64, e);
    }

    /** The walk of zipClose over the blocks of the directory; their sizes are added
        up in 32 bits. */
    method WriteDirectory() returns (size: nat)
      requires Tail(file.bytes, file.pos, origin.file) && file.pos <= |file.bytes| && centralDir.Valid()
      modifies file
      ensures Tail(file.bytes, file.pos, origin.file) && file.pos <= |file.bytes|
      ensures file.bytes[..file.pos] == old(file.bytes[..file.pos]) + centralDir.Contents()
      ensures size == |centralDir.Contents()| % U32
    {
      hide Join, Tail;
      ghost var a := file.bytes[..file.pos];
      ghost var blocks := centralDir.blocks;
      size := 0;
      var i := 0;
      JoinEmpty(a);
      while i < |centralDir.blocks|
        invariant 0 <= i <= |blocks|
        invariant Tail(file.bytes, file.pos, origin.file) && file.pos <= |file.bytes|
        invariant file.bytes[..file.pos] == a + Join(blocks[..i])
        invariant size == |Join(blocks[..i])| % U32
      {
        var block := centralDir.blocks[i];
        assert blocks[..i + 1] == blocks[..i] + [block];
        JoinSnoc(blocks[..i], block);
        Assoc(a, Join(blocks[..i]), block);
        AddMod(|Join(blocks[..i])|, |block|);
        if |block| > 0 {
          EmitBlock(file, block, origin.file);
        } else {
          assert a + Join(blocks[..i]) + block == a + Join(blocks[..i]);
        }
        size := (size + |block|) % U32;
        i := i + 1;
      }
      assert blocks[..i] == blocks;
    }

    /** Complete the directory record and append it to the directory. */
    method RecordDirectory(checksum: word, csize: nat, usize: nat, ghost e: Entry)
      requires Ledger(origin, base, entries, centralDir.Contents(), numberEntry) && centralDir.Valid()
      requires Headers(ci, request, base) && ci.posLocalHeader == |Done(origin, entries)|
      requires e == Entry(ci.posLocalHeader, request.p, e.payload, checksum, usize) && csize == e.Csize()
      modifies centralDir, `entries, `numberEntry
      ensures entries == old(entries) + [e] && centralDir.Valid()
      ensures Ledger(origin, base, entries, centralDir.Contents(), numberEntry)
    {
      hide Put, Body, CentralBytes, LocalBytes, Dir, EncodeCentral;
      var header, size := CompleteCentral(ci.centralHeader, ci.sizeCentralHeader, ci.sizeCentralExtra,
                                          ci.posLocalHeader, checksum, csize, usize, e, base);
      centralDir.AddData(header[..size]);
      numberEntry := numberEntry + 1;
      DirSnoc(entries, e, base);
      SitedSnoc(entries, e, origin.start);
      Assoc(origin.dir, Dir(entries, base), CentralBytes(e, base));
      entries := entries + [e];
    }

    /** Write the final numbers into the local header. */
    method RecordLocal(checksum: word, csize: nat, usize: nat, ghost done: seq<byte>, ghost e: Entry)
      requires Headers(ci, request, base) && ci.posLocalHeader == |done|
      requires e == Entry(ci.posLocalHeader, request.p, e.payload, checksum, usize) && csize == e.Csize()
      requires Holds(file.bytes, file.pos, done + (OpenLocal(request.p) + e.payload), origin.file)
      modifies file
      ensures Holds(file.bytes, file.pos, done + LocalBytes(e) + e.payload, origin.file)
    {
      hide Put, LocalBytes, OpenLocal, EncodeCentral, Middle;
      ghost var p := request.p;
      ghost var rest := file.bytes[file.pos..];
      ghost var n := file.pos;
      Assoc(done, OpenLocal(p), e.payload);
      assert file.bytes == file.bytes[..n] + rest;
      Assoc(done + OpenLocal(p), e.payload, rest);
      UpdateLocalHeader(file, ci.posLocalHeader, ci.posZip64, checksum, csize, usize, done, p, e.payload + rest, e);
      Assoc(done + LocalBytes(e), e.payload, rest);
      assert n == |done + LocalBytes(e) + e.payload|;
      assert file.bytes[n..] == rest;
    }
  }

  /** The fields that writing leaves alone. */
  ghost predicate SameEntry(a: CurFile, b: CurFile)
  {
    b == a.(pos := b.pos, availOut := b.availOut, totalIn := b.totalIn, keys := b.keys,
            totalCompressed := b.totalCompressed, totalUncompressed := b.totalUncompressed)
  }

  lemma SameHeaders(a: CurFile, r: Request, b: CurFile, q: Request, base: nat)
    requires Headers(a, r, base) && SameEntry(a.(crc := b.crc), b) && q == r.(input := q.input)
    ensures Headers(b, q, base)
  {
  }

  lemma CrcIrrelevant(a: CurFile, b: CurFile, r: Request, base: nat, buffer: seq<byte>)
    requires b == a.(crc := b.crc) && Headers(a, r, base) && Pipeline(a, r, buffer)
    ensures Headers(b, r, base) && Pipeline(b, r, buffer)
    ensures Partial(b, r) == Partial(a, r)
  {
    hide OpenLocal, Encrypt, KeysAfter, EncodeCentral, Middle;
  }

  lemma AvailIrrelevant(a: CurFile, b: CurFile, r: Request, buffer: seq<byte>)
    requires b == a.(availOut := b.availOut) && Pipeline(a, r, buffer)
    ensures Pipeline(b, r, buffer) && Partial(b, r) == Partial(a, r)
  {
    hide OpenLocal, Encrypt, KeysAfter;
  }

  lemma AppendPending(s: seq<byte>, n: nat, piece: seq<byte>)
    requires n <= |s|
    ensures var t := s + piece;
      && t[..|t| - (n + |piece|)] == s[..|s| - n]
      && t[|t| - (n + |piece|)..] == s[|s| - n..] + piece
  {
  }

  lemma FlushedMore(done: seq<byte>, local: seq<byte>, head: seq<byte>, sent: seq<byte>, more: seq<byte>)
    ensures done + (local + (head + sent)) + more == done + (local + (head + (sent + more)))
  {
  }

  /** Nothing passed in, nothing buffered. */
  lemma EmptyStart(c: CurFile, r: Request, buffer: seq<byte>)
    requires r.input == [] && |buffer| == Z_BUFSIZE && c.encrypt == r.p.encrypted
    requires c.pos == c.totalIn == c.totalCompressed == c.totalUncompressed == 0
    requires c.encrypt ==> c.keys == r.firstKeys
    ensures Pipeline(c, r, buffer) && Crc(0, []) == 0 && Partial(c, r) == OpenLocal(r.p) + r.head
  {
  }

  /** After a flush everything passed in is in the file. */
  lemma AllFlushed(a: CurFile, c: CurFile, r: Request, base: nat, buffer: seq<byte>)
    requires Pipeline(c, r, buffer) && c.pos == 0 && Headers(a, r, base)
    requires c == a.(pos := c.pos, keys := c.keys, totalIn := c.totalIn,
                     totalCompressed := c.totalCompressed, totalUncompressed := c.totalUncompressed)
    ensures Headers(c, r, base) && c.headSize == |r.head|
    ensures c.totalCompressed == c.totalUncompressed == |r.input|
    ensures Partial(c, r) == OpenLocal(r.p) + (r.head + r.Sent(r.input))
  {
    hide Put, OpenLocal, KeysAfter, EncodeCentral, Middle;
    assert Flushed(c, r) == r.input;
  }

  lemma LoadNothing(b: seq<byte>, start: nat, x: seq<byte>)
    ensures start <= |b| ==> x + b[start..start] == x
  {
  }

  lemma LoadMore(b: seq<byte>, start: nat, from: nat, n: nat, x: seq<byte>)
    requires start <= from
    ensures from + n <= |b| ==>
      |Available(b, from, n)| == n && x + b[start..from] + Available(b, from, n) == x + b[start..from + n]
  {
  }

  lemma EmptyLedger(o: Origin, base: nat, dir: seq<byte>, count: nat)
    requires Ledger(o, base, [], dir, count) && o.dir == []
    ensures dir == []
  {
  }

  lemma FreshLedger(o: Origin, base: nat, b: seq<byte>)
    requires base <= o.start <= |o.file| && o.file == b
    ensures Ledger(o, base, [], o.dir, o.count) && Holds(b, o.start, Done(o, []), b)
  {
  }

  method EmitBlock(f: File, s: seq<byte>, ghost original: seq<byte>)
    requires Tail(f.bytes, f.pos, original) && f.pos <= |f.bytes|
    modifies f
    ensures Tail(f.bytes, f.pos, original) && f.pos <= |f.bytes|
    ensures f.bytes[..f.pos] == old(f.bytes[..f.pos]) + s
  {
    Emit(f, s, original);
  }

  lemma JoinEmpty(a: seq<byte>)
    ensures Join([]) == [] && a + Join([]) == a
  {
  }

  lemma AddMod(x: nat, y: nat)
    ensures (x % U32 + y) % U32 == (x + y) % U32
  {
  }

  lemma LedgerFacts(o: Origin, base: nat, es: seq<Entry>, dir: seq<byte>, count: nat)
    requires Ledger(o, base, es, dir, count)
    ensures base <= o.start <= |o.file| && Placed(es, base) && Sited(es, o.start)
    ensures dir == o.dir + Dir(es, base) && count == o.count + |es| && base <= |Done(o, es)|
  {
  }

  lemma DoneSnoc(o: Origin, es: seq<Entry>, e: Entry)
    ensures Done(o, es + [e]) == Done(o, es) + LocalBytes(e) + e.payload
  {
    hide LocalBytes;
    BodySnoc(es, e);
    var a := o.file[..Min(o.start, |o.file|)];
    Assoc(a, Body(es) + LocalBytes(e), e.payload);
    Assoc(a, Body(es), LocalBytes(e));
  }
}
