/** The archive reader: unzOpenInternal, the walk over the directory, opening, reading
    and closing of stored or raw entries. */
module ZipReader {
  import opened Bytes
  import opened Format
  import opened Stream
  import opened EndRecord
  import opened Records
  import opened Checksum

  const UNZ_BUFSIZE: nat := 16384

  /** file_in_zip64_read_info_s: the entry being read. `pending` is the part of the
      read buffer not yet handed out. */
  datatype ReadInfo = ReadInfo(
    pos: nat, restCompressed: nat, restUncompressed: nat, pending: seq<byte>,
    crc: nat, crcWait: nat, compression: nat, raw: bool)
  {
    /** All bytes of the entry that reading can still deliver. */
    function Remaining(b: seq<byte>, before: nat): seq<byte>
    {
      pending + Available(b, Wrap64(pos + before), restCompressed)
    }

    /** They all exist. */
    ghost predicate InFile(b: seq<byte>, before: nat)
    {
      pos + before + restCompressed <= |b| < U64 && restUncompressed < U64
    }

    /** How many bytes a read of len returns. */
    function Count(b: seq<byte>, before: nat, len: nat): nat
    {
      var all := |Remaining(b, before)|;
      Min(all, if raw then len else Min(len, restUncompressed))
    }
  }

  /** The state a successful unzOpenCurrentFile2 starts from. */
  function StartReading(i: FileInfo, sizeVar: nat, raw: bool): ReadInfo
  {
    ReadInfo(i.sizes.offset + 30 + sizeVar, i.sizes.csize, i.sizes.usize, [], 0, i.fixed.crc,
             i.fixed.compression, raw || i.fixed.compression == Z_BZIP2ED)
  }

  class UnzFile {
    const file: File
    var dir: Directory
    var cursor: Cursor
    var reading: Option<ReadInfo>

    /** Made by Open only. */
    constructor (file: File, dir: Directory)
      ensures this.file == file && this.dir == dir && reading == None
    {
      this.file, this.dir, reading := file, dir, None;
      cursor := Cursor(0, 0, false, FileInfo(CentralFixed(0, 0, 0, 0, 0, 0, 0, 0, 0, 0, 0, 0, 0, 0, 0), Sizes(0, 0, 0)));
    }

    /** unzOpenInternal. */
    static method Open(f: File) returns (u: UnzFile?)
      modifies f`pos
      ensures u == null <==> Locate(f.bytes, false) == None
      ensures u != null ==>
        && fresh(u) && u.file == f && u.reading == None && Some(u.dir) == Locate(f.bytes, false)
        && exists c :: u.cursor == First(f.bytes, u.dir, c)
    {
      hide Locate, First;
      u := null;
      var d := LocateDirectory(f, false);
      if d.Some? {
        u := new UnzFile(f, d.value);
        ghost var c := u.cursor;
        var _ := u.GoToFirstFile();
        assert u.cursor == First(f.bytes, u.dir, c);
      }
    }

    /** The 16 reads of a directory record, without stopping at an error. */
    method ReadFixed(p: nat) returns (err: bool, f: CentralFixed)
      modifies file`pos
      ensures err <==> p + 46 > |file.bytes| || Num(file.bytes, p, 4) != CENTRAL_MAGIC
      ensures !err ==> f == DecodeCentral(file.bytes, p) && file.pos == p + 46
    {
      hide Num;
      file.SeekSet(p);
      var ok1, magic, made, need, flag, compression, dosDate, crc := ReadFixedFront();
      var ok2, csize, usize, nameLen, extraLen, commentLen := ReadFixedMiddle();
      var ok3, disk := file.GetValue(2);
      var ok4, internalFa := file.GetValue(2);
      var ok5, externalFa := file.GetValue(4);
      var ok6, offset := file.GetValue(4);
      err := !(ok1 && ok2 && ok3 && ok4 && ok5 && ok6) || magic != CENTRAL_MAGIC;
      f := CentralFixed(made, need, flag, compression, dosDate, crc, csize, usize, nameLen, extraLen,
                        commentLen, disk, internalFa, externalFa, offset);
    }

    method ReadFixedFront()
      returns (ok: bool, magic: nat, made: nat, need: nat, flag: nat, compression: nat, dosDate: nat, crc: nat)
      modifies file`pos
      ensures var p, b := old(file.pos), file.bytes;
        && (ok <==> p + 20 <= |b|) && (!ok ==> file.pos >= |b|)
        && (ok ==>
              && file.pos == p + 20 && magic == Num(b, p, 4) && made == Num(b, p + 4, 2) && need == Num(b, p + 6, 2)
              && flag == Num(b, p + 8, 2) && compression == Num(b, p + 10, 2) && dosDate == Num(b, p + 12, 4)
              && crc == Num(b, p + 16, 4))
    {
      hide Num;
      var ok0, ok1, ok2, ok3, ok4, ok5, ok6;
      ok0, magic := file.GetValue(4);
      ok1, made := file.GetValue(2);
      ok2, need := file.GetValue(2);
      ok3, flag := file.GetValue(2);
      ok4, compression := file.GetValue(2);
      ok5, dosDate := file.GetValue(4);
      ok6, crc := file.GetValue(4);
      ok := ok0 && ok1 && ok2 && ok3 && ok4 && ok5 && ok6;
    }

    method ReadFixedMiddle()
      returns (ok: bool, csize: nat, usize: nat, nameLen: nat, extraLen: nat, commentLen: nat)
      modifies file`pos
      ensures var p, b := old(file.pos), file.bytes;
        && (ok <==> p + 14 <= |b|) && (!ok ==> file.pos >= |b|)
        && (ok ==>
              && file.pos == p + 14 && csize == Num(b, p, 4) && usize == Num(b, p + 4, 4)
              && nameLen == Num(b, p + 8, 2) && extraLen == Num(b, p + 10, 2) && commentLen == Num(b, p + 12, 2))
    {
      hide Num;
      var ok0, ok1, ok2, ok3, ok4;
      ok0, csize := file.GetValue(4);
      ok1, usize := file.GetValue(4);
      ok2, nameLen := file.GetValue(2);
      ok3, extraLen := file.GetValue(2);
      ok4, commentLen := file.GetValue(2);
      ok := ok0 && ok1 && ok2 && ok3 && ok4;
    }

    /** One number of a zip64 field. */
    method ReadBig(v: nat) returns (ok: bool, r: nat)
      modifies file`pos
      ensures ok <==> BigNum(file.bytes, old(file.pos), v).Some?
      ensures ok ==> BigNum(file.bytes, old(file.pos), v) == Some((r, file.pos))
      ensures !ok ==> file.pos == Max(old(file.pos), |file.bytes|)
    {
      hide Num;
      ok, r := true, v;
      if v == SENTINEL {
        ok, r := file.GetValue(8);
      }
    }

    /** The while loop over the extra field. An error is remembered, and the loop runs
        on with zero lengths. */
    method ReadExtra(total: nat, start: Sizes) returns (err: bool, v: Sizes)
      modifies file`pos
      ensures err <==> WalkExtra(file.bytes, old(file.pos), 0, total, start) == None
      ensures !err ==> WalkExtra(file.bytes, old(file.pos), 0, total, start) == Some((v, file.pos))
    {
      hide Num, BigNum;
      ghost var b := file.bytes;
      ghost var p0 := file.pos;
      err, v := false, start;
      var acc := 0;
      while acc < total
        invariant err ==> WalkExtra(b, p0, 0, total, start) == None
        invariant !err ==> WalkExtra(b, p0, 0, total, start) == WalkExtra(b, file.pos, acc, total, v)
        decreases total - acc
      {
        ghost var p := file.pos;
        var ok1, headerId := file.GetValue(2);
        var ok2, dataSize := file.GetValue(2);
        if !ok1 || !ok2 {
          err := true;
        }
        if headerId == 1 {
          var ok3, u := ReadBig(v.usize);
          var ok4, c := ReadBig(v.csize);
          var ok5, o := ReadBig(v.offset);
          if !ok3 || !ok4 || !ok5 {
            err := true;
          } else {
            v := Sizes(u, c, o);
          }
        } else {
          file.SeekCur(dataSize);
        }
        acc := acc + 4 + dataSize;
      }
    }

    /** unz64local_GetCurrentFileInfoInternal without buffers. */
    method GetInfo(pos: nat) returns (i: Option<FileInfo>)
      modifies file`pos
      ensures ParseInfo(file.bytes, Wrap64(pos + dir.before)) == None ==> i == None
      ensures ParseInfo(file.bytes, Wrap64(pos + dir.before)).Some? ==>
        i == Some(ParseInfo(file.bytes, Wrap64(pos + dir.before)).value.0)
    {
      hide Num, WalkExtra;
      var err, f := ReadFixed(Wrap64(pos + dir.before));
      if err {
        return None;
      }
      file.SeekCur(f.nameLen);
      var start := Sizes(f.usize, f.csize, f.offset);
      ZeroExtra(file.bytes, file.pos, start);
      var v := start;
      if f.extraLen != 0 {
        err, v := ReadExtra(f.extraLen, start);
      }
      i := if err then None else Some(FileInfo(f, v));
    }

    lemma ZeroExtra(b: seq<byte>, p: nat, v: Sizes)
      ensures WalkExtra(b, p, 0, 0, v) == Some((v, p))
    {
    }

    /** unzGetCurrentFileInfo64 with buffers one byte longer than name and comment. */
    method GetFullInfo() returns (r: Option<(FileInfo, seq<byte>, seq<byte>)>)
      modifies file`pos
      ensures r == ParseFull(file.bytes, Wrap64(cursor.pos + dir.before))
    {
      hide Num, WalkExtra;
      var err, f := ReadFixed(Wrap64(cursor.pos + dir.before));
      if err {
        return None;
      }
      var name := [];
      if f.nameLen > 0 {
        name := file.Read(f.nameLen);
        if |name| != f.nameLen {
          return None;
        }
      }
      var start := Sizes(f.usize, f.csize, f.offset);
      ZeroExtra(file.bytes, file.pos, start);
      var v := start;
      if f.extraLen != 0 {
        err, v := ReadExtra(f.extraLen, start);
      }
      if err {
        return None;
      }
      var comment := [];
      if f.commentLen > 0 {
        comment := file.Read(f.commentLen);
        if |comment| != f.commentLen {
          return None;
        }
      }
      r := Some((FileInfo(f, v), name, comment));
    }

    /** Make the record at pos the current one. */
    method MoveTo(pos: nat, num: nat) returns (code: Code)
      modifies file`pos, `cursor
      ensures cursor == Reload(file.bytes, dir, pos, num, old(cursor).info)
      ensures code == if cursor.ok then UnzOk else UnzError
    {
      hide ParseInfo;
      var i := GetInfo(pos);
      cursor := Cursor(pos, num, i.Some?, if i.Some? then i.value else cursor.info);
      code := if i.Some? then UnzOk else UnzError;
    }

    method GoToFirstFile() returns (code: Code)
      modifies file`pos, `cursor
      ensures cursor == First(file.bytes, dir, old(cursor))
      ensures code == if cursor.ok then UnzOk else UnzError
    {
      code := MoveTo(dir.offset, 0);
    }

    method GoToNextFile() returns (code: Code)
      modifies file`pos, `cursor
      ensures (code, cursor) == Next(file.bytes, dir, old(cursor))
    {
      hide Reload;
      if !cursor.ok {
        return UnzEndOfList;
      }
      if dir.entries != 0xffff && cursor.num + 1 == dir.entries {
        return UnzEndOfList;
      }
      var f := cursor.info.fixed;
      code := MoveTo(cursor.pos + 46 + f.nameLen + f.extraLen + f.commentLen, cursor.num + 1);
    }

    /** unzGoToFilePos64. */
    method GoToFilePos(pos: nat, num: nat) returns (code: Code)
      modifies file`pos, `cursor
      ensures cursor == Reload(file.bytes, dir, pos, num, old(cursor).info)
      ensures code == if cursor.ok then UnzOk else UnzError
    {
      code := MoveTo(pos, num);
    }

    method ReadLocal(p: nat) returns (ok: bool, magic: nat, l: LocalFixed)
      modifies file`pos
      ensures ok <==> p + 30 <= |file.bytes|
      ensures ok ==> magic == Num(file.bytes, p, 4) && l == DecodeLocal(file.bytes, p)
    {
      hide Num;
      file.SeekSet(p);
      var ok0, ok1, ok2, ok3, ok4, ok5;
      ok0, magic := file.GetValue(4);
      var need, flag, compression, dosDate, crc;
      ok1, need := file.GetValue(2);
      ok2, flag := file.GetValue(2);
      ok3, compression := file.GetValue(2);
      ok4, dosDate := file.GetValue(4);
      ok5, crc := file.GetValue(4);
      assert (ok0 && ok1 && ok2 && ok3 && ok4 && ok5) <==> p + 18 <= |file.bytes|;
      var ok6, csize := file.GetValue(4);
      var ok7, usize := file.GetValue(4);
      var ok8, nameLen := file.GetValue(2);
      var ok9, extraLen := file.GetValue(2);
      ok := ok0 && ok1 && ok2 && ok3 && ok4 && ok5 && ok6 && ok7 && ok8 && ok9;
      l := LocalFixed(need, flag, compression, dosDate, crc, csize, usize, nameLen, extraLen);
    }

    /** unz64local_CheckCurrentFileCoherencyHeader. */
    method CheckHeader() returns (sizeVar: Option<nat>)
      modifies file`pos
      ensures sizeVar == CheckLocal(file.bytes, Wrap64(cursor.info.sizes.offset + dir.before), cursor.info)
    {
      hide Num, DecodeLocal;
      var ok, magic, l := ReadLocal(Wrap64(cursor.info.sizes.offset + dir.before));
      var i := cursor.info;
      var err := !ok;
      if magic != LOCAL_MAGIC {
        err := true;
      }
      if l.compression != i.fixed.compression {
        err := true;
      }
      if i.fixed.compression != 0 && i.fixed.compression != Z_BZIP2ED && i.fixed.compression != Z_DEFLATED {
        err := true;
      }
      if l.crc != i.fixed.crc && l.flag / 8 % 2 == 0 {
        err := true;
      }
      if l.csize != SENTINEL && l.csize != i.sizes.csize && l.flag / 8 % 2 == 0 {
        err := true;
      }
      if l.usize != SENTINEL && l.usize != i.sizes.usize && l.flag / 8 % 2 == 0 {
        err := true;
      }
      if l.nameLen != i.fixed.nameLen {
        err := true;
      }
      sizeVar := if err then None else Some(l.nameLen + l.extraLen);
    }

    /** unzOpenCurrentFile3 without a password. */
    method OpenCurrentFile(raw: bool) returns (code: Code)
      modifies file`pos, `reading
      ensures !cursor.ok ==> code == UnzParamError && reading == old(reading)
      ensures cursor.ok ==>
        var check := CheckLocal(file.bytes, Wrap64(cursor.info.sizes.offset + dir.before), cursor.info);
        if check == None then code == UnzBadZipFile && reading == None
        else code == UnzOk && reading == Some(StartReading(cursor.info, check.value, raw))
    {
      hide CheckLocal;
      if !cursor.ok {
        return UnzParamError;
      }
      if reading.Some? {
        var _ := CloseCurrentFile();
      }
      var sizeVar := CheckHeader();
      if sizeVar == None {
        return UnzBadZipFile;
      }
      reading := Some(StartReading(cursor.info, sizeVar.value, raw));
      code := UnzOk;
    }

    /** unzCloseCurrentFile. */
    method CloseCurrentFile() returns (code: Code)
      modifies `reading
      ensures reading == None
      ensures old(reading) == None ==> code == UnzParamError
      ensures old(reading).Some? ==>
        var r := old(reading).value;
        code == if r.restUncompressed == 0 && !r.raw && r.crc != r.crcWait then UnzCrcError else UnzOk
    {
      if reading == None {
        return UnzParamError;
      }
      var r := reading.value;
      code := UnzOk;
      if r.restUncompressed == 0 && !r.raw {
        if r.crc != r.crcWait {
          code := UnzCrcError;
        }
      }
      reading := None;
    }

    /** unzReadCurrentFile for a stored or raw entry. */
    method ReadCurrentFile(len: nat) returns (ok: bool, data: seq<byte>)
      requires reading.Some? ==> reading.value.compression == 0 || reading.value.raw
      requires reading.Some? ==> reading.value.crc < U32
      modifies file`pos, `reading
      ensures old(reading) == None ==> !ok && reading == None
      ensures old(reading).Some? && old(reading).value.InFile(file.bytes, dir.before) ==>
        var r := old(reading).value;
        ok && reading.Some?
        && data == r.Remaining(file.bytes, dir.before)[..r.Count(file.bytes, dir.before, len)]
        && data <= r.Remaining(file.bytes, dir.before) && |data| <= len && (!r.raw ==> |data| <= r.restUncompressed)
        && (|data| == len || data == r.Remaining(file.bytes, dir.before) || (!r.raw && |data| == r.restUncompressed))
        && Follows(r, reading.value, data, file.bytes, dir.before)
    {
      hide Follows, Crc, Available;
      ok, data := false, [];
      if reading == None {
        return;
      }
      var r := reading.value;
      NothingRead(r, file.bytes, dir.before);
      if len == 0 {
        ok := true;
        return;
      }
      var availOut := len;
      if len > r.restUncompressed && !r.raw {
        availOut := r.restUncompressed;
      }
      if len > r.restCompressed + |r.pending| && r.raw {
        availOut := r.restCompressed + |r.pending|;
      }
      ghost var r0, wanted, good := r, availOut, r.InFile(file.bytes, dir.before);
      while availOut > 0
        invariant r.crc < U32 && 0 <= availOut <= wanted && reading == old(reading)
        invariant good ==> Follows(r0, r, data, file.bytes, dir.before) && |data| + availOut == wanted
        decreases availOut
      {
        if |r.pending| == 0 && r.restCompressed > 0 {
          ghost var r1 := r;
          FollowsInFile(r0, r1, data, file.bytes, dir.before);
          ok, r := Refill(r);
          if !ok {
            reading := Some(r);
            return;
          }
          RefillFollows(r0, r1, r, data, file.bytes, dir.before);
        }
        if |r.pending| == 0 && r.restCompressed == 0 {
          break;
        }
        var doCopy := if availOut < |r.pending| then availOut else |r.pending|;
        var piece := r.pending[..doCopy];
        TakePiece(r0, r, data, doCopy, file.bytes, dir.before);
        data := data + piece;
        r := r.(crc := Crc(r.crc, piece), restUncompressed := (r.restUncompressed - doCopy) % U64,
                pending := r.pending[doCopy..]);
        availOut := availOut - doCopy;
      }
      reading := Some(r);
      ok := true;
      if good {
        ReadAll(r0, r, data, availOut, wanted, len, file.bytes, dir.before);
      }
    }

    /** Read the next part of the entry into the empty buffer. */
    method Refill(r: ReadInfo) returns (ok: bool, s: ReadInfo)
      requires r.pending == [] && r.restCompressed > 0
      modifies file`pos
      ensures r.InFile(file.bytes, dir.before) ==> ok
      ensures ok ==> |s.pending| > 0 && s == r.(pending := s.pending, pos := s.pos, restCompressed := s.restCompressed)
      ensures r.InFile(file.bytes, dir.before) ==>
        s.InFile(file.bytes, dir.before) && s.Remaining(file.bytes, dir.before) == r.Remaining(file.bytes, dir.before)
    {
      hide Available, Wrap64;
      s := r;
      var readThis := Min(UNZ_BUFSIZE, r.restCompressed);
      file.SeekSet(Wrap64(r.pos + dir.before));
      var buf := file.Read(readThis);
      ok := |buf| == readThis;
      RefillSame(r, readThis, file.bytes, dir.before);
      if ok {
        s := r.(pending := buf, pos := r.pos + readThis, restCompressed := r.restCompressed - readThis);
      }
    }
  }

  /** s is r after the bytes data were read. */
  ghost predicate Follows(r: ReadInfo, s: ReadInfo, data: seq<byte>, b: seq<byte>, before: nat)
    requires r.crc < U32
  {
    && s.InFile(b, before) && s.crc == Crc(r.crc, data)
    && r.Remaining(b, before) == data + s.Remaining(b, before)
    && s.restUncompressed == (r.restUncompressed - |data|) % U64
    && s.crcWait == r.crcWait && s.compression == r.compression && s.raw == r.raw
  }

  lemma NothingRead(r: ReadInfo, b: seq<byte>, before: nat)
    requires r.crc < U32
    ensures r.InFile(b, before) ==> Follows(r, r, [], b, before)
    ensures r.Remaining(b, before)[..0] == []
  {
  }

  /** Refilling the empty buffer changes nothing that is still to come. */
  lemma RefillSame(r: ReadInfo, n: nat, b: seq<byte>, before: nat)
    requires r.pending == [] && n <= r.restCompressed
    ensures var s := r.(pending := Available(b, Wrap64(r.pos + before), n), pos := r.pos + n,
                        restCompressed := r.restCompressed - n);
      r.InFile(b, before) ==>
        s.InFile(b, before) && s.Remaining(b, before) == r.Remaining(b, before) && |s.pending| == n
  {
    hide Available, Wrap64;
    if r.InFile(b, before) {
      var p := r.pos + before;
      SmallWrap(p);
      SmallWrap(p + n);
      AvailableSplit(b, p, n, r.restCompressed - n);
    }
  }

  lemma AvailableSplit(b: seq<byte>, p: nat, n: nat, m: nat)
    requires p + n + m <= |b|
    ensures |Available(b, p, n)| == n
    ensures Available(b, p, n + m) == [] + Available(b, p, n) + Available(b, p + n, m)
    ensures Available(b, p, n + m) == Available(b, p, n) + Available(b, p + n, m)
    ensures [] + Available(b, p, n + m) == Available(b, p, n + m)
  {
    var x, y := Available(b, p, n), Available(b, p + n, m);
    assert Available(b, p, n + m) == x + y;
    hide Available;
    assert [] + x == x && [] + (x + y) == x + y;
  }

  lemma RefillFollows(r0: ReadInfo, r: ReadInfo, s: ReadInfo, data: seq<byte>, b: seq<byte>, before: nat)
    requires r0.crc < U32 && s == r.(pending := s.pending, pos := s.pos, restCompressed := s.restCompressed)
    requires r.InFile(b, before) ==> s.InFile(b, before) && s.Remaining(b, before) == r.Remaining(b, before)
    ensures Follows(r0, r, data, b, before) ==> Follows(r0, s, data, b, before)
  {
  }

  lemma FollowsInFile(r0: ReadInfo, r: ReadInfo, data: seq<byte>, b: seq<byte>, before: nat)
    requires r0.crc < U32
    ensures Follows(r0, r, data, b, before) ==> r.InFile(b, before)
  {
  }

  lemma ModSub(a: int, c: int, n: int)
    requires a == c % U64
    ensures (a - n) % U64 == (c - n) % U64
  {
  }

  lemma TakePiece(r0: ReadInfo, r: ReadInfo, data: seq<byte>, n: nat, b: seq<byte>, before: nat)
    requires r0.crc < U32 && r.crc < U32 && n <= |r.pending|
    ensures var s := r.(crc := Crc(r.crc, r.pending[..n]), restUncompressed := (r.restUncompressed - n) % U64,
                        pending := r.pending[n..]);
      Follows(r0, r, data, b, before) ==> Follows(r0, s, data + r.pending[..n], b, before)
  {
    hide Crc, Available;
    if Follows(r0, r, data, b, before) {
      var piece, rest := r.pending[..n], Available(b, Wrap64(r.pos + before), r.restCompressed);
      CrcAppend(r0.crc, data, piece);
      ModSub(r.restUncompressed, r0.restUncompressed - |data|, n);
      assert r.pending == piece + r.pending[n..];
      Assoc(data, piece + r.pending[n..], rest);
      Regroup(data, piece, r.pending[n..], rest);
    }
  }

  /** The loop stops when enough was read or nothing is left. */
  lemma ReadAll(r0: ReadInfo, r: ReadInfo, data: seq<byte>, left: nat, wanted: nat, len: nat, b: seq<byte>, before: nat)
    requires r0.crc < U32 && r0.InFile(b, before) && Follows(r0, r, data, b, before) && |data| + left == wanted
    requires left == 0 || (r.pending == [] && r.restCompressed == 0)
    requires wanted == Min(len, if r0.raw then r0.restCompressed + |r0.pending| else r0.restUncompressed)
    ensures data == r0.Remaining(b, before)[..r0.Count(b, before, len)]
  {
  }
}
