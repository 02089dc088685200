/** What the reader makes of a directory record and of a local header: the decoding
    of unz64local_GetCurrentFileInfoInternal and the checks of
    unz64local_CheckCurrentFileCoherencyHeader, as functions of the file's bytes. */
module Records {
  import opened Bytes
  import opened Format
  import opened EndRecord

  /** The three numbers a zip64 extra field may replace. */
  datatype Sizes = Sizes(usize: nat, csize: nat, offset: nat)

  /** unz_file_info64 with its internal part: the fixed fields and the real sizes. */
  datatype FileInfo = FileInfo(fixed: CentralFixed, sizes: Sizes)

  /** One eight-byte number of a zip64 field, present when the old value is the
      sentinel; and the position behind it. */
  function BigNum(b: seq<byte>, p: nat, v: nat): Option<(nat, nat)>
  {
    if v != SENTINEL then Some((v, p))
    else if p + 8 > |b| then None
    else Some((Num(b, p, 8), p + 8))
  }

  function Zip64Sizes(b: seq<byte>, p: nat, v: Sizes): Option<(Sizes, nat)>
  {
    match BigNum(b, p, v.usize)
    case None => None
    case Some((u, p1)) =>
      match BigNum(b, p1, v.csize)
      case None => None
      case Some((c, p2)) =>
        match BigNum(b, p2, v.offset)
        case None => None
        case Some((o, p3)) => Some((Sizes(u, c, o), p3))
  }

  /** The loop over the extra field: acc counts what the record headers announce,
      p is where reading really is. */
  function WalkExtra(b: seq<byte>, p: nat, acc: nat, total: nat, v: Sizes): Option<(Sizes, nat)>
    decreases total - acc
  {
    if acc >= total then Some((v, p))
    else if p + 4 > |b| then None
    else
      var id, len := Num(b, p, 2), Num(b, p + 2, 2);
      if id != 1 then WalkExtra(b, p + 4 + len, acc + 4 + len, total, v)
      else
        match Zip64Sizes(b, p + 4, v)
        case None => None
        case Some((w, q)) => WalkExtra(b, q, acc + 4 + len, total, w)
  }

  /** A directory record at p: its contents, and the position behind the extra field. */
  function ParseInfo(b: seq<byte>, p: nat): Option<(FileInfo, nat)>
  {
    if p + 46 > |b| || Num(b, p, 4) != CENTRAL_MAGIC then None
    else
      var f := DecodeCentral(b, p);
      match WalkExtra(b, p + 46 + f.nameLen, 0, f.extraLen, Sizes(f.usize, f.csize, f.offset))
      case None => None
      case Some((v, q)) => Some((FileInfo(f, v), q))
  }

  /** The same with name and comment, read into buffers large enough for both. */
  function ParseFull(b: seq<byte>, p: nat): Option<(FileInfo, seq<byte>, seq<byte>)>
  {
    match ParseInfo(b, p)
    case None => None
    case Some((i, q)) =>
      var n, c := i.fixed.nameLen, i.fixed.commentLen;
      if (n > 0 && p + 46 + n > |b|) || (c > 0 && q + c > |b|) then None
      else Some((i, if n > 0 then b[p + 46..p + 46 + n] else [], if c > 0 then b[q..q + c] else []))
  }

  /** Bit 3 of the flags: sizes and checksum are not in the local header. */
  predicate Deferred(flag: nat) { flag / 8 % 2 == 1 }

  /** The comparison of a local header with the directory record. */
  predicate Coherent(l: LocalFixed, i: FileInfo)
  {
    && l.compression == i.fixed.compression
    && i.fixed.compression in {0, Z_DEFLATED, Z_BZIP2ED}
    && (l.crc == i.fixed.crc || Deferred(l.flag))
    && (l.csize == SENTINEL || l.csize == i.sizes.csize || Deferred(l.flag))
    && (l.usize == SENTINEL || l.usize == i.sizes.usize || Deferred(l.flag))
    && l.nameLen == i.fixed.nameLen
  }

  /** The length of name and extra field behind a coherent local header at p. */
  function CheckLocal(b: seq<byte>, p: nat, i: FileInfo): Option<nat>
  {
    if p + 30 > |b| || Num(b, p, 4) != LOCAL_MAGIC then None
    else
      var l := DecodeLocal(b, p);
      if Coherent(l, i) then Some(l.nameLen + l.extraLen) else None
  }

  // ----------------------------------------------------------------- the cursor

  /** The current file of an opened archive. */
  datatype Cursor = Cursor(pos: nat, num: nat, ok: bool, info: FileInfo)

  /** Reload the record of the current file. */
  function Reload(b: seq<byte>, d: Directory, pos: nat, num: nat, info: FileInfo): Cursor
  {
    match ParseInfo(b, Wrap64(pos + d.before))
    case None => Cursor(pos, num, false, info)
    case Some((i, _)) => Cursor(pos, num, true, i)
  }

  function First(b: seq<byte>, d: Directory, c: Cursor): Cursor
  {
    Reload(b, d, d.offset, 0, c.info)
  }

  datatype Code = UnzOk | UnzEndOfList | UnzError | UnzParamError | UnzBadZipFile | UnzCrcError

  /** unzGoToNextFile; the count 0xffff stands for "unknown". */
  function Next(b: seq<byte>, d: Directory, c: Cursor): (Code, Cursor)
  {
    if !c.ok || (d.entries != 0xffff && c.num + 1 == d.entries) then (UnzEndOfList, c)
    else
      var f := c.info.fixed;
      var n := Reload(b, d, c.pos + 46 + f.nameLen + f.extraLen + f.commentLen, c.num + 1, c.info);
      (if n.ok then UnzOk else UnzError, n)
  }

  /** The cursor after n successful steps from the first file. */
  function Walk(b: seq<byte>, d: Directory, c: Cursor, n: nat): Cursor
  {
    if n == 0 then First(b, d, c) else Next(b, d, Walk(b, d, c, n - 1)).1
  }
}
