/** What one entry contributes to an archive, and how the records written when it is
    opened turn into the final ones when it is closed. */
module Entry {
  import opened Bytes
  import opened Format
  import opened Stream

  /** The arguments of zipOpenNewFileInZip4_64 that reach the file. */
  datatype Params = Params(
    name: seq<byte>, dosDate: nat, internalFa: nat, externalFa: nat,
    extraLocal: seq<byte>, extraGlobal: seq<byte>, comment: seq<byte>,
    compression: nat, level: int, raw: bool, encrypted: bool,
    made: nat, flagBase: nat, zip64: bool)
  {
    /** Bits 1 and 2 record the level, bit 0 the encryption. */
    function Flag(): nat
    {
      var f1 := if level == 8 || level == 9 || level == 1 then OrBit(flagBase, 2) else flagBase;
      var f2 := if level == 2 || level == 1 then OrBit(f1, 4) else f1;
      if encrypted then OrBit(f2, 1) else f2
    }

    /** Name and comment are C strings: no byte is zero. */
    predicate CStrings()
    {
      Zeroless(name) && Zeroless(comment)
    }

    /** Every number fits its field of the header. */
    ghost predicate InRange()
    {
      && |name| < 0x1_0000 && dosDate < U32 && internalFa < 0x1_0000 && externalFa < U32
      && |extraLocal| + 20 < 0x1_0000 && |extraGlobal| + 28 < 0x1_0000 && |comment| < 0x1_0000
      && made < 0x1_0000 && flagBase < 0x1_0000 && compression < 0x1_0000
    }
  }

  /** x | bit, for a power of two. */
  function OrBit(x: nat, bit: nat): (r: nat)
    requires bit > 0
    ensures r == x || r == x + bit
  {
    if x / bit % 2 == 1 then x else x + bit
  }

  lemma FlagInRange(p: Params)
    requires p.flagBase < 0x1_0000
    ensures p.Flag() < 0x1_0000
  {
  }

  /** A finished entry: the place of its local header, its arguments, the bytes behind
      the header, and the recorded checksum and size. */
  datatype Entry = Entry(pos: nat, p: Params, payload: seq<byte>, crc: nat, usize: nat)
  {
    function Csize(): nat { |payload| }

    /** Some number does not fit 32 bits. */
    predicate Big() { Csize() >= SENTINEL || usize >= SENTINEL || pos >= SENTINEL }
  }

  // ------------------------------------------------------------ local header

  function LocalHeader(p: Params, crc: nat, csize: nat, usize: nat): LocalFixed
  {
    LocalFixed(if p.zip64 then 45 else 20, p.Flag(), p.compression, p.dosDate, crc, csize, usize,
               |p.name|, |p.extraLocal| + if p.zip64 then 20 else 0)
  }

  /** The zip64 extra field of a local header. */
  function LocalZip64(p: Params, usize: nat, csize: nat): seq<byte>
  {
    if p.zip64 then Put(1, 2) + Put(16, 2) + Put(usize, 8) + Put(csize, 8) else []
  }

  /** Name and extra fields behind the fixed part. */
  function LocalTail(p: Params, usize: nat, csize: nat): seq<byte>
  {
    p.name + p.extraLocal + LocalZip64(p, usize, csize)
  }

  /** The local header as it is first written, sizes unknown. */
  function OpenLocal(p: Params): (s: seq<byte>)
    ensures |s| == LocalLength(p)
  {
    var unknown := if p.zip64 then SENTINEL else 0;
    EncodeLocal(LocalHeader(p, 0, unknown, unknown)) + LocalTail(p, 0, 0)
  }

  function LocalLength(p: Params): nat
  {
    30 + |p.name| + |p.extraLocal| + if p.zip64 then 20 else 0
  }

  /** The local header that a closed entry has. A size of 0xffffffff or more goes to
      the zip64 field when there is one, and nowhere otherwise. */
  function LocalBytes(e: Entry): (s: seq<byte>)
    ensures |s| == LocalLength(e.p)
  {
    if e.usize >= SENTINEL then
      var unknown := if e.p.zip64 then SENTINEL else 0;
      EncodeLocal(LocalHeader(e.p, e.crc, unknown, unknown)) + LocalTail(e.p, e.usize, e.Csize())
    else
      EncodeLocal(LocalHeader(e.p, e.crc, e.Csize(), e.usize)) + LocalTail(e.p, 0, 0)
  }

  /** All entries, header and payload, in the order they were written. */
  function Body(es: seq<Entry>): seq<byte>
  {
    if es == [] then []
    else Body(es[..|es| - 1]) + LocalBytes(es[|es| - 1]) + es[|es| - 1].payload
  }

  // ------------------------------------------------------- directory record

  /** The position an entry is given in the directory; no entry stands in front of the
      base. */
  function Offset(pos: nat, base: nat): nat
  {
    if pos >= SENTINEL then SENTINEL else Max(0, pos - base)
  }

  function CentralHeader(e: Entry, base: nat): CentralFixed
  {
    CentralFixed(
      if e.Big() then 45 else e.p.made, if e.Big() then 45 else 20,
      e.p.Flag(), e.p.compression, e.p.dosDate, e.crc,
      Min(e.Csize(), SENTINEL), Min(e.usize, SENTINEL),
      |e.p.name|, |e.p.extraGlobal| + |CentralZip64(e)|, |e.p.comment|,
      0, e.p.internalFa, e.p.externalFa, Offset(e.pos, base))
  }

  /** The eight bytes of a number that does not fit 32 bits, or nothing. */
  function BigField(x: nat): seq<byte>
  {
    if x >= SENTINEL then Put(x, 8) else []
  }

  /** The zip64 extra field of a directory record: the numbers that do not fit. */
  function CentralZip64(e: Entry): (s: seq<byte>)
    ensures |s| <= 28
  {
    if e.Big() then
      var u, c, o := BigField(e.usize), BigField(e.Csize()), BigField(e.pos);
      Put(1, 2) + Put(|u| + |c| + |o|, 2) + u + c + o
    else []
  }

  /** The zip64 field is placed behind the comment, not behind the other extra data. */
  function CentralBytes(e: Entry, base: nat): (s: seq<byte>)
    ensures |s| == 46 + |e.p.name| + |e.p.extraGlobal| + |e.p.comment| + |CentralZip64(e)|
  {
    EncodeCentral(CentralHeader(e, base)) + e.p.name + e.p.extraGlobal + e.p.comment + CentralZip64(e)
  }

  ghost predicate Placed(es: seq<Entry>, base: nat)
  {
    forall i :: 0 <= i < |es| ==> base <= es[i].pos
  }

  function Dir(es: seq<Entry>, base: nat): seq<byte>
  {
    if es == [] then []
    else Dir(es[..|es| - 1], base) + CentralBytes(es[|es| - 1], base)
  }

  /** The header as it is first built in memory, sizes unknown. */
  function OpenCentral(p: Params, pos: nat, base: nat): CentralFixed
  {
    CentralFixed(p.made, 20, p.Flag(), p.compression, p.dosDate, 0, 0, 0,
                 |p.name|, |p.extraGlobal|, |p.comment|, 0, p.internalFa, p.externalFa, Offset(pos, base))
  }

  // ------------------------------------------------------------ back-patching

  /** Overwriting keeps everything in front of and behind the written place. */
  lemma OverwriteKeeps(x: seq<byte>, off: nat, s: seq<byte>)
    requires off + |s| <= |x|
    ensures At(Overwrite(x, off, s), off, s)
    ensures forall p, t {:trigger At(Overwrite(x, off, s), p, t)} ::
      At(x, p, t) && (p + |t| <= off || off + |s| <= p) ==> At(Overwrite(x, off, s), p, t)
  {
  }

  /** Overwriting inside the middle part of a string. */
  lemma OverwriteInside(a: seq<byte>, x: seq<byte>, z: seq<byte>, off: nat, s: seq<byte>)
    requires off + |s| <= |x|
    ensures Overwrite(a + x + z, |a| + off, s) == a + Overwrite(x, off, s) + z
  {
    var y, front, rest := a + x + z, x[..off], x[off + |s|..];
    assert y[..|a| + off] == a + front;
    assert y[|a| + off + |s|..] == rest + z;
    assert Overwrite(y, |a| + off, s) == (a + front) + s + (rest + z);
    assert a + (front + s + rest) + z == (a + front) + s + (rest + z);
  }

  /** Overwriting exactly one part. */
  lemma OverwritePart(front: seq<byte>, u: seq<byte>, rest: seq<byte>, v: seq<byte>)
    requires |u| == |v|
    ensures Overwrite(front + u + rest, |front|, v) == front + v + rest
  {
    var x := front + u + rest;
    assert x[..|front|] == front && x[|front| + |v|..] == rest;
  }

  function SetLocal(f: LocalFixed, off: nat, v: nat): LocalFixed
  {
    if off == 14 then f.(crc := v) else if off == 18 then f.(csize := v) else f.(usize := v)
  }

  lemma PatchLocal(f: LocalFixed, off: nat, v: nat)
    requires off == 14 || off == 18 || off == 22
    ensures Overwrite(EncodeLocal(f), off, Put(v, 4)) == EncodeLocal(SetLocal(f, off, v))
  {
    hide Put, EncodeLocal, Overwrite, At;
    var x, g := EncodeLocal(f), SetLocal(f, off, v);
    var r := Overwrite(x, off, Put(v, 4));
    WholeAt(x);
    LocalFields(x, 0, f);
    OverwriteKeeps(x, off, Put(v, 4));
    assert LocalAt(r, 0, g);
    LocalFields(r, 0, g);
    AtWhole(r, EncodeLocal(g));
  }

  lemma WholeAt(x: seq<byte>)
    ensures At(x, 0, x)
  {
  }

  lemma AtWhole(r: seq<byte>, x: seq<byte>)
    requires At(r, 0, x) && |r| == |x|
    ensures r == x
  {
  }

  function SetCentral(f: CentralFixed, off: nat, v: nat): CentralFixed
  {
    if off == 4 then f.(made := v) else if off == 6 then f.(need := v)
    else if off == 16 then f.(crc := v) else if off == 20 then f.(csize := v)
    else if off == 24 then f.(usize := v) else f.(extraLen := v)
  }

  lemma PatchCentral(f: CentralFixed, off: nat, v: nat, n: nat)
    requires (off in {4, 6, 30} && n == 2) || (off in {16, 20, 24} && n == 4)
    ensures Overwrite(EncodeCentral(f), off, Put(v, n)) == EncodeCentral(SetCentral(f, off, v))
  {
    hide Put, EncodeCentral, Overwrite, At;
    var x, g := EncodeCentral(f), SetCentral(f, off, v);
    var r := Overwrite(x, off, Put(v, n));
    WholeAt(x);
    CentralFields(x, 0, f);
    OverwriteKeeps(x, off, Put(v, n));
    assert CentralAt(r, 0, g);
    CentralFields(r, 0, g);
    AtWhole(r, EncodeCentral(g));
  }

  lemma BodySnoc(es: seq<Entry>, e: Entry)
    ensures Body(es + [e]) == Body(es) + LocalBytes(e) + e.payload
  {
  }

  lemma DirSnoc(es: seq<Entry>, e: Entry, base: nat)
    ensures Placed(es, base) && base <= e.pos ==> Placed(es + [e], base)
    ensures Dir(es + [e], base) == Dir(es, base) + CentralBytes(e, base)
  {
  }
}
