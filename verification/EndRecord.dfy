/** Finding and decoding the end of an archive. The reader (unzOpenInternal) and the
    appending writer (LoadCentralDirectoryRecord) contain the same steps. */
module EndRecord {
  import opened Bytes
  import opened Format
  import opened Stream
  import opened EndSearch

  datatype Option<T> = None | Some(value: T)

  /** Where the central directory is and how many entries it has. Positions in the
      archive are relative to `before`, the number of bytes in front of it. */
  datatype Directory = Directory(
    zip64: bool, centralPos: nat, entries: nat, size: nat, offset: nat, commentSize: nat, before: nat)

  const END_SIGNATURE: seq<byte> := [0x50, 0x4b, 0x05, 0x06]
  const LOCATOR_SIGNATURE: seq<byte> := [0x50, 0x4b, 0x06, 0x07]

  lemma Signatures()
    ensures Put(END_MAGIC, 4) == END_SIGNATURE && Put(LOCATOR_MAGIC, 4) == LOCATOR_SIGNATURE
  {
  }

  /** The zip64 end record that a locator near the end of the file names, or 0. */
  function Zip64EndPos(b: seq<byte>): nat
  {
    var p := LastSignature(b, LOCATOR_SIGNATURE);
    if p == 0 || p + 20 > |b| || Num(b, p + 4, 4) != 0 || Num(b, p + 16, 4) != 1 then 0
    else
      var r := Num(b, p + 8, 8);
      if r + 4 <= |b| && Num(b, r, 4) == ZIP64_END_MAGIC then r else 0
  }

  /** Accepts the decoded numbers, or not; the sum is a 64-bit one. */
  function Check(zip64: bool, pos: nat, disk: nat, diskCd: nat, here: nat, total: nat,
                 size: nat, offset: nat, commentSize: nat): Option<Directory>
  {
    if total != here || diskCd != 0 || disk != 0 || pos < (offset + size) % U64 then None
    else Some(Directory(zip64, pos, total, size, offset, commentSize, pos - (offset + size) % U64))
  }

  /** The directory of an archive. The reader refuses an end record at position 0;
      the writer does not, so that it can extend an archive without entries. */
  function Locate(b: seq<byte>, tolerant: bool): Option<Directory>
  {
    var p64 := Zip64EndPos(b);
    if p64 != 0 then
      if p64 + 56 > |b| then None
      else
        var z := DecodeZip64End(b, p64);
        Check(true, p64, z.disk, z.diskCd, z.here, z.total, z.size, z.offset, 0)
    else
      var p := LastSignature(b, END_SIGNATURE);
      if (p == 0 && !tolerant) || p + 22 > |b| then None
      else
        var e := DecodeEnd(b, p);
        Check(false, p, e.disk, e.diskCd, e.here, e.total, e.size, e.offset, e.commentLen)
  }

  /** The directory lies in front of the end record. */
  lemma LocateBounds(b: seq<byte>, tolerant: bool)
    requires Locate(b, tolerant).Some?
    ensures var d := Locate(b, tolerant).value;
      && (d.zip64 ==> d.commentSize == 0)
      && d.centralPos <= |b| && (!d.zip64 ==> d.centralPos + 22 <= |b|)
      && (d.offset + d.size < U64 ==> d.before + d.offset + d.size == d.centralPos)
  {
  }

  /** A directory found through zip64 records ends at the zip64 end record. */
  lemma LocateThroughZip64(b: seq<byte>, tolerant: bool)
    ensures var d := Locate(b, tolerant);
      d.Some? && d.value.zip64 ==> d.value.centralPos == Zip64EndPos(b) != 0
  {
    hide LastSignature, Num, Zip64EndPos;
  }

  /** The same from the fields of that record. */
  lemma LocateFromZip64(b: seq<byte>, z: nat, f: Zip64End, tolerant: bool)
    requires Zip64EndPos(b) == z != 0 && z + 56 <= |b| && DecodeZip64End(b, z) == f
    requires f.disk == f.diskCd == 0 && f.here == f.total && f.offset + f.size == z < U64
    ensures Locate(b, tolerant) == Some(Directory(true, z, f.total, f.size, f.offset, 0, 0))
  {
    hide LastSignature, Num, Zip64EndPos, DecodeZip64End;
  }

  /** An ordinary end record counts its entries in two bytes. */
  lemma LocateCount(b: seq<byte>, tolerant: bool)
    requires Locate(b, tolerant).Some? && !Locate(b, tolerant).value.zip64
    ensures Locate(b, tolerant).value.entries <= 0xffff
  {
    hide LastSignature, Get, Zip64EndPos;
    var p := LastSignature(b, END_SIGNATURE);
    Pow256Values();
    GetBound(b[p + 10..p + 12]);
  }

  /** SearchCentralDir64. */
  method SearchZip64End(f: File) returns (pos: nat)
    modifies f`pos
    ensures pos == Zip64EndPos(f.bytes)
  {
    hide Num, LastSignature;
    var found := SearchSignature(f, LOCATOR_SIGNATURE);
    if found == 0 {
      return 0;
    }
    f.SeekSet(found);
    var ok, x := f.GetValue(4);
    // the signature was already checked
    ok, x := f.GetValue(4);
    if !ok || x != 0 { return 0; }
    var relative;
    ok, relative := f.GetValue(8);
    if !ok { return 0; }
    ok, x := f.GetValue(4);
    if !ok || x != 1 { return 0; }
    f.SeekSet(relative);
    ok, x := f.GetValue(4);
    if !ok || x != ZIP64_END_MAGIC { return 0; }
    return relative;
  }

  /** The fields of the zip64 end record; a failed read leaves an error behind, and
      the remaining fields are read all the same. */
  method ReadZip64End(f: File, pos: nat) returns (err: bool, z: Zip64End)
    modifies f`pos
    ensures err <==> pos + 56 > |f.bytes|
    ensures !err ==> z == DecodeZip64End(f.bytes, pos)
  {
    hide Num;
    var x, disk, diskCd, here, total, size, offset;
    var ok1, ok2, ok3, ok4, ok5, ok6, ok7, ok8, ok9, ok10;
    f.SeekSet(pos);
    ok1, x := f.GetValue(4);
    ok2, x := f.GetValue(8);
    ok3, x := f.GetValue(2);
    ok4, x := f.GetValue(2);
    ok5, disk := f.GetValue(4);
    ok6, diskCd := f.GetValue(4);
    ok7, here := f.GetValue(8);
    ok8, total := f.GetValue(8);
    ok9, size := f.GetValue(8);
    ok10, offset := f.GetValue(8);
    err := !(ok1 && ok2 && ok3 && ok4 && ok5 && ok6 && ok7 && ok8 && ok9 && ok10);
    z := Zip64End(disk, diskCd, here, total, size, offset);
  }

  method ReadEnd(f: File, pos: nat) returns (err: bool, e: EndFixed)
    modifies f`pos
    ensures err <==> pos + 22 > |f.bytes|
    ensures !err ==> e == DecodeEnd(f.bytes, pos) && f.pos == pos + 22
  {
    hide Num;
    var x, disk, diskCd, here, total, size, offset, commentLen;
    var ok1, ok2, ok3, ok4, ok5, ok6, ok7, ok8;
    f.SeekSet(pos);
    ok1, x := f.GetValue(4);
    ok2, disk := f.GetValue(2);
    ok3, diskCd := f.GetValue(2);
    ok4, here := f.GetValue(2);
    ok5, total := f.GetValue(2);
    ok6, size := f.GetValue(4);
    ok7, offset := f.GetValue(4);
    ok8, commentLen := f.GetValue(2);
    err := !(ok1 && ok2 && ok3 && ok4 && ok5 && ok6 && ok7 && ok8);
    e := EndFixed(disk, diskCd, here, total, size, offset, commentLen);
  }

  /** The reading half of unzOpenInternal and LoadCentralDirectoryRecord. The file
      ends up behind the last field read. */
  method LocateDirectory(f: File, tolerant: bool) returns (d: Option<Directory>)
    modifies f`pos
    ensures d == Locate(f.bytes, tolerant)
    ensures d.Some? && !d.value.zip64 ==> f.pos == d.value.centralPos + 22
  {
    hide Num, LastSignature;
    var pos := SearchZip64End(f);
    if pos != 0 {
      var err, z := ReadZip64End(f, pos);
      d := if err then None
           else Check(true, pos, z.disk, z.diskCd, z.here, z.total, z.size, z.offset, 0);
    } else {
      pos := SearchSignature(f, END_SIGNATURE);
      var err, e := ReadEnd(f, pos);
      d := if err || (pos == 0 && !tolerant) then None
           else Check(false, pos, e.disk, e.diskCd, e.here, e.total, e.size, e.offset, e.commentLen);
    }
  }
}
