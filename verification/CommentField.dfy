/** The zip64 field of a directory record stands behind the entry comment, while the
    reader looks for it directly behind the other extra data: which sizes and position
    it then makes out. */
module CommentField {
  import opened Bytes
  import opened Format
  import opened EndRecord
  import opened Entry
  import opened Records
  import opened Archive

  /** Some number needs its 64 bits. */
  predicate Over(e: Entry)
  {
    e.usize > SENTINEL || e.Csize() > SENTINEL || e.pos > SENTINEL
  }

  /** What the record must satisfy anyway. */
  ghost predicate Given(b: seq<byte>, p: nat, e: Entry, base: nat)
  {
    && base <= e.pos && Wide(e) && e.p.InRange() && e.p.CStrings() && e.crc < U32 && WellFormed(e.p.extraGlobal)
    && At(b, p, CentralBytes(e, base))
  }

  /** The reader decodes the record and gets sizes and position right. */
  predicate ComesBack(b: seq<byte>, p: nat, e: Entry, base: nat)
  {
    ParseInfo(b, p).Some? && ParseInfo(b, p).value.0.sizes == Reported(e, base)
  }

  /** The walk that decides it. */
  function Walked(b: seq<byte>, p: nat, e: Entry, base: nat): Option<(Sizes, nat)>
  {
    var z := |CentralZip64(e)|;
    WalkExtra(b, p + 46 + |e.p.name| + |e.p.extraGlobal|, 0, z, Stored(e, base))
  }

  /** The number of bytes already accounted for does not matter to the walk. */
  lemma {:induction false} WalkShift(b: seq<byte>, p: nat, acc: nat, total: nat, k: nat, v: Sizes)
    ensures WalkExtra(b, p, acc + k, total + k, v) == WalkExtra(b, p, acc, total, v)
    decreases total - acc
  {
    hide Num;
    if acc < total && p + 4 <= |b| {
      var len := Num(b, p + 2, 2);
      if Num(b, p, 2) != 1 {
        WalkShift(b, p + 4 + len, acc + 4 + len, total, k, v);
      } else if Zip64Sizes(b, p + 4, v).Some? {
        var (w, q) := Zip64Sizes(b, p + 4, v).value;
        WalkShift(b, q, acc + 4 + len, total, k, w);
      }
    }
  }

  /** The other extra data are passed over, so that everything depends on what follows. */
  lemma ParseIsWalk(b: seq<byte>, p: nat, e: Entry, base: nat)
    requires Given(b, p, e, base)
    ensures ParseInfo(b, p).Some? <==> Walked(b, p, e, base).Some?
    ensures ParseInfo(b, p).Some? ==> ParseInfo(b, p).value.0.sizes == Walked(b, p, e, base).value.0
  {
    hide Num, EncodeCentral, CentralZip64, CentralBytes, WalkExtra, DecodeCentral, WellFormed;
    CentralParts(b, p, e, base);
    FlagInRange(e.p);
    CentralRoundTrip(b, p, CentralHeader(e, base));
    var x, z, q := e.p.extraGlobal, |CentralZip64(e)|, p + 46 + |e.p.name|;
    WalkRecords(b, q, x, 0, |x| + z, Stored(e, base));
    WalkShift(b, q + |x|, 0, z, |x|, Stored(e, base));
  }

  /** Behind the extra data come the comment and the zip64 field. */
  lemma Behind(b: seq<byte>, p: nat, e: Entry, base: nat)
    requires Given(b, p, e, base)
    ensures At(b, p + 46 + |e.p.name| + |e.p.extraGlobal|, e.p.comment + CentralZip64(e))
  {
    hide CentralBytes, CentralZip64, At;
    CentralParts(b, p, e, base);
    AtConcat(b, p + 46 + |e.p.name| + |e.p.extraGlobal|, e.p.comment, CentralZip64(e));
  }

  lemma TwoBytes(b: seq<byte>, p: nat)
    requires p + 2 <= |b|
    ensures Num(b, p, 2) == (b[p] as int) + 256 * (b[p + 1] as int)
  {
    var s := b[p..p + 2];
    assert s[1..] == [b[p + 1]] && s[1..][1..] == [];
    assert Get(s[1..]) == b[p + 1];
  }

  lemma ByteAt(b: seq<byte>, p: nat, s: seq<byte>, i: nat)
    requires At(b, p, s) && i < |s|
    ensures p + i < |b| && b[p + i] == s[i]
  {
    assert b[p..p + |s|][i] == s[i];
  }

  /** The first bytes of the zip64 field. */
  lemma FieldStarts(e: Entry)
    requires e.Big()
    ensures var z := CentralZip64(e);
      |z| in {12, 20, 28} && z[0] == 1 && z[1] == 0 && z[2] == |z| - 4 && z[3] == 0
      && z[4..12] == Put(FirstBig(e), 8)
  {
    hide Put, Low;
    var u, c, o := BigField(e.usize), BigField(e.Csize()), BigField(e.pos);
    var n := |u| + |c| + |o|;
    SmallPut(1);
    SmallPut(n);
    assert CentralZip64(e) == [1, 0] + [n, 0] + u + c + o;
  }

  lemma SmallPut(x: nat)
    requires x < 256
    ensures Put(x, 2) == [x, 0]
  {
    Pow256Values();
    assert Low(x, 2) == [x % 256] + Low(x / 256, 1);
    assert Low(x / 256, 1) == [x / 256 % 256] + Low(x / 256 / 256, 0);
  }

  /** The first number of the field. */
  function FirstBig(e: Entry): nat
  {
    if e.usize >= SENTINEL then e.usize else if e.Csize() >= SENTINEL then e.Csize() else e.pos
  }

  /** A record that is no zip64 one and reaches to the end is the last. */
  lemma LastRecord(b: seq<byte>, q: nat, acc: nat, total: nat, v: Sizes)
    requires acc < total && q + 4 <= |b| && Num(b, q, 2) != 1 && acc + 4 + Num(b, q + 2, 2) >= total
    ensures WalkExtra(b, q, acc, total, v).Some? && WalkExtra(b, q, acc, total, v).value.0 == v
  {
    hide Num;
  }

  /** With one, three, four or more comment bytes in front the first "record" has a
      number of 256 or more and a length of 256 or more, which ends the walk. */
  lemma CommentEndsWalk(b: seq<byte>, p: nat, e: Entry, base: nat)
    requires Given(b, p, e, base) && e.Big() && e.p.comment != [] && |e.p.comment| != 2
    ensures Walked(b, p, e, base).Some? && Walked(b, p, e, base).value.0 == Stored(e, base)
  {
    hide Num, CentralBytes, CentralZip64, Put, WalkExtra, WellFormed;
    var q, c, z := p + 46 + |e.p.name| + |e.p.extraGlobal|, e.p.comment, CentralZip64(e);
    Behind(b, p, e, base);
    FieldStarts(e);
    LongRecord(b, q, c, z);
    LastRecord(b, q, 0, |z|, Stored(e, base));
  }

  lemma LongRecord(b: seq<byte>, q: nat, c: seq<byte>, z: seq<byte>)
    requires At(b, q, c + z) && c != [] && |c| != 2 && (forall i | 0 <= i < |c| :: c[i] != 0)
    requires |z| in {12, 20, 28} && z[0] == 1 && z[1] == 0 && z[2] == |z| - 4
    ensures q + 4 <= |b| && Num(b, q, 2) != 1 && Num(b, q + 2, 2) >= 256
  {
    hide Num, At;
    ByteAt(b, q, c + z, 0);
    ByteAt(b, q, c + z, 1);
    ByteAt(b, q, c + z, 2);
    ByteAt(b, q, c + z, 3);
    TwoBytes(b, q);
    TwoBytes(b, q + 2);
  }

  lemma StoredRight(e: Entry, base: nat)
    requires base <= e.pos
    ensures Stored(e, base) == Reported(e, base) <==> !Over(e)
  {
  }

  /** Sizes and position come back exactly when there is no comment or no number needs
      its 64 bits; for comments of any length but two. */
  lemma ComesBackIff(b: seq<byte>, p: nat, e: Entry, base: nat)
    requires Given(b, p, e, base) && |e.p.comment| != 2
    ensures ParseInfo(b, p).Some?
    ensures ComesBack(b, p, e, base) <==> e.p.comment == [] || !Over(e)
  {
    hide ParseInfo, CentralBytes, WellFormed;
    if e.Big() && e.p.comment != [] {
      ParseIsWalk(b, p, e, base);
      CommentEndsWalk(b, p, e, base);
      StoredRight(e, base);
    } else {
      ParseEntry(b, p, e, base);
    }
  }

  // --------------------------------------------------- comments of two bytes

  /** The bits 8 to 23 of the first number, which the reader takes for a length. */
  function Hop(e: Entry): nat
  {
    FirstBig(e) / 256 % 0x1_0000
  }

  /** The second "record" then starts inside the zip64 field, with a length taken from
      its first number; its own number is a multiple of 256. */
  lemma SecondRecord(b: seq<byte>, p: nat, e: Entry, base: nat)
    requires Given(b, p, e, base) && e.Big() && |e.p.comment| == 2
    ensures var q, z := p + 46 + |e.p.name| + |e.p.extraGlobal|, |CentralZip64(e)|;
      && q + 9 <= |b| && Num(b, q + 5, 2) != 1 && Num(b, q + 7, 2) == Hop(e)
      && Walked(b, p, e, base) == WalkExtra(b, q + 5, 5, z, Stored(e, base))
  {
    hide Num, CentralBytes, CentralZip64, Put, WellFormed, WalkExtra;
    var q, c, z := p + 46 + |e.p.name| + |e.p.extraGlobal|, e.p.comment, CentralZip64(e);
    Behind(b, p, e, base);
    FieldStarts(e);
    MiddleBytes(FirstBig(e));
    assert z[4..12][1] == z[5] && z[4..12][2] == z[6];
    ShortRecord(b, q, c, z);
    NextRecord(b, q, 0, |z|, Stored(e, base));
  }

  lemma NextRecord(b: seq<byte>, q: nat, acc: nat, total: nat, v: Sizes)
    requires acc < total && q + 4 <= |b| && Num(b, q, 2) != 1
    ensures var n := 4 + Num(b, q + 2, 2); WalkExtra(b, q, acc, total, v) == WalkExtra(b, q + n, acc + n, total, v)
  {
    hide Num;
  }

  lemma ShortRecord(b: seq<byte>, q: nat, c: seq<byte>, z: seq<byte>)
    requires At(b, q, c + z) && |c| == 2 && c[1] != 0
    requires |z| in {12, 20, 28} && z[0] == 1 && z[1] == 0 && z[3] == 0
    ensures q + 9 <= |b| && Num(b, q, 2) != 1 && Num(b, q + 2, 2) == 1
    ensures Num(b, q + 5, 2) != 1 && Num(b, q + 7, 2) == (z[5] as int) + 256 * (z[6] as int)
  {
    hide Num, At;
    ByteAt(b, q, c + z, 1);
    ByteAt(b, q, c + z, 2);
    ByteAt(b, q, c + z, 3);
    ByteAt(b, q, c + z, 4);
    ByteAt(b, q, c + z, 5);
    ByteAt(b, q, c + z, 6);
    ByteAt(b, q, c + z, 7);
    ByteAt(b, q, c + z, 8);
    ByteAt(b, q, c + z, 0);
    TwoBytes(b, q);
    TwoBytes(b, q + 2);
    TwoBytes(b, q + 5);
    TwoBytes(b, q + 7);
  }

  lemma MiddleBytes(x: nat)
    requires x < U64
    ensures var s := Put(x, 8); (s[1] as int) + 256 * (s[2] as int) == x / 256 % 0x1_0000
  {
    Pow256Values();
    assert Low(x, 8) == [x % 256] + Low(x / 256, 7);
    assert Low(x / 256, 7) == [x / 256 % 256] + Low(x / 256 / 256, 6);
    assert Low(x / 256 / 256, 6)[0] == x / 256 / 256 % 256;
    ModStep(x / 256, 256);
  }

  /** Two bytes, and a length that reaches to the end: the same condition holds. */
  lemma TwoBytesIff(b: seq<byte>, p: nat, e: Entry, base: nat)
    requires Given(b, p, e, base) && e.Big() && |e.p.comment| == 2 && Hop(e) + 9 >= |CentralZip64(e)|
    ensures ComesBack(b, p, e, base) <==> !Over(e)
  {
    hide Num, ParseInfo, CentralBytes, WellFormed, CentralZip64, WalkExtra, Hop;
    ParseIsWalk(b, p, e, base);
    SecondRecord(b, p, e, base);
    FieldStarts(e);
    LastRecord(b, p + 46 + |e.p.name| + |e.p.extraGlobal| + 5, 5, |CentralZip64(e)|, Stored(e, base));
    StoredRight(e, base);
  }

  /** Two bytes and one number too large, in a directory: what follows the record is
      another record or an end record, so the bytes P, K and some t other than 2. The
      walk may then hit upon a zip64 field, but never reads the right number. */
  lemma TwoBytesOneNumberIff(b: seq<byte>, p: nat, e: Entry, base: nat, t: byte)
    requires Given(b, p, e, base) && |e.p.comment| == 2 && |CentralZip64(e)| == 12
    requires At(b, p + |CentralBytes(e, base)|, [0x50, 0x4b, t]) && t != 2
    ensures ComesBack(b, p, e, base) <==> !Over(e)
  {
    hide Num, ParseInfo, CentralBytes, WellFormed, CentralZip64, WalkExtra, Hop, Reported, Zip64Sizes;
    FieldMeansBig(e);
    if Hop(e) >= 3 {
      TwoBytesIff(b, p, e, base);
    } else {
      ParseIsWalk(b, p, e, base);
      SecondRecord(b, p, e, base);
      NeverHit(b, p, e, base, t);
    }
  }

  lemma FieldMeansBig(e: Entry)
    requires |CentralZip64(e)| > 0
    ensures e.Big()
  {
  }

  /** The third record starts Hop bytes further on. Whatever it is, the walk ends with
      it, and not with the right number. */
  lemma NeverHit(b: seq<byte>, p: nat, e: Entry, base: nat, t: byte)
    requires Given(b, p, e, base) && |e.p.comment| == 2 && |CentralZip64(e)| == 12 && Hop(e) < 3
    requires At(b, p + |CentralBytes(e, base)|, [0x50, 0x4b, t]) && t != 2
    ensures Over(e)
    ensures var w := Walked(b, p, e, base); w.Some? ==> w.value.0 != Reported(e, base)
  {
    hide Num, CentralBytes, CentralZip64, WalkExtra, WellFormed, Put, Hop, Reported, Stored, At;
    var q, v := p + 46 + |e.p.name| + |e.p.extraGlobal|, Stored(e, base);
    var r := q + 9 + Hop(e);
    OneNumber(e);
    SecondRecord(b, p, e, base);
    NextRecord(b, q + 5, 5, 12, v);
    StoredRight(e, base);
    Behind(b, p, e, base);
    TailOf(e, base);
    WrongNumber(b, q, e, t);
    if r + 4 <= |b| {
      if Num(b, r, 2) != 1 {
        LastRecord(b, r, 9 + Hop(e), 12, v);
      } else {
        OneField(b, r, 9 + Hop(e), e, base);
      }
    } else {
      CutOff(b, r, 9 + Hop(e), 12, v);
    }
  }

  lemma TailOf(e: Entry, base: nat)
    ensures |CentralBytes(e, base)| == 46 + |e.p.name| + |e.p.extraGlobal| + |e.p.comment| + |CentralZip64(e)|
  {
  }

  lemma CutOff(b: seq<byte>, q: nat, acc: nat, total: nat, v: Sizes)
    requires acc < total && q + 4 > |b|
    ensures WalkExtra(b, q, acc, total, v) == None
  {
  }

  /** Exactly one number is too large, and not the sentinel itself. */
  lemma OneNumber(e: Entry)
    requires |CentralZip64(e)| == 12 && Hop(e) < 3
    ensures e.Big() && FirstBig(e) > SENTINEL && Over(e)
    ensures e.usize >= SENTINEL ==> e.Csize() < SENTINEL && e.pos < SENTINEL
    ensures e.Csize() >= SENTINEL ==> e.pos < SENTINEL
  {
    hide Put;
  }

  /** The eight bytes the third record would take for the number are not those of the
      number: its second byte is Hop, theirs is one of P, K and t. */
  lemma WrongNumber(b: seq<byte>, q: nat, e: Entry, t: byte)
    requires e.Big() && Wide(e) && |e.p.comment| == 2 && |CentralZip64(e)| == 12 && Hop(e) < 3
    requires At(b, q, e.p.comment + CentralZip64(e)) && At(b, q + 14, [0x50, 0x4b, t]) && t != 2
    ensures q + 21 + Hop(e) <= |b| ==> Num(b, q + 13 + Hop(e), 8) != FirstBig(e)
  {
    hide Get, Put, At, CentralZip64, Hop;
    var k, x := Hop(e), FirstBig(e);
    if q + 21 + k <= |b| && Num(b, q + 13 + k, 8) == x {
      var w := b[q + 13 + k..q + 21 + k];
      PutGet(w);
      SecondByte(e);
      ByteAt(b, q + 14, [0x50, 0x4b, t], k);
      assert false;
    }
  }

  lemma SecondByte(e: Entry)
    requires Wide(e) && Hop(e) < 3
    ensures Put(FirstBig(e), 8)[1] == Hop(e)
  {
    hide Put;
    MiddleBytes(FirstBig(e));
  }

  /** A zip64 record that ends the walk replaces the one number by what it reads. */
  lemma OneField(b: seq<byte>, r: nat, acc: nat, e: Entry, base: nat)
    requires acc < 12 <= acc + 4 && r + 4 <= |b| && Num(b, r, 2) == 1 && base <= e.pos
    requires FirstBig(e) > SENTINEL
    requires e.usize >= SENTINEL ==> e.Csize() < SENTINEL && e.pos < SENTINEL
    requires e.Csize() >= SENTINEL ==> e.pos < SENTINEL
    requires r + 12 <= |b| ==> Num(b, r + 4, 8) != FirstBig(e)
    ensures var w := WalkExtra(b, r, acc, 12, Stored(e, base)); w.Some? ==> w.value.0 != Reported(e, base)
  {
    hide Num;
  }

  // --------------------------------------------- two bytes, in general

  /** The numbers of the field, as they should be read. */
  function Numbers(e: Entry): seq<byte>
  {
    BigField(e.usize) + BigField(e.Csize()) + BigField(e.pos)
  }

  /** Two bytes, and a third "record" that reaches to the end: sizes and position come
      back exactly if it looks like a zip64 record with the right numbers. */
  lemma TwoBytesThirdIff(b: seq<byte>, p: nat, e: Entry, base: nat)
    requires Given(b, p, e, base) && e.Big() && |e.p.comment| == 2 && Hop(e) + 9 < |CentralZip64(e)|
    requires var r := p + 55 + |e.p.name| + |e.p.extraGlobal| + Hop(e);
      r + 4 <= |b| && Hop(e) + 13 + Num(b, r + 2, 2) >= |CentralZip64(e)|
    ensures var r := p + 55 + |e.p.name| + |e.p.extraGlobal| + Hop(e);
      ComesBack(b, p, e, base) <==> Num(b, r, 2) == 1 && At(b, r + 4, Numbers(e))
  {
    hide Num, ParseInfo, CentralBytes, WellFormed, CentralZip64, WalkExtra, Hop, Reported, Stored, Numbers, At;
    var q, n, v := p + 46 + |e.p.name| + |e.p.extraGlobal|, |CentralZip64(e)|, Stored(e, base);
    var r := q + 9 + Hop(e);
    ParseIsWalk(b, p, e, base);
    SecondRecord(b, p, e, base);
    NextRecord(b, q + 5, 5, n, v);
    ShortHop(e);
    StoredRight(e, base);
    if Num(b, r, 2) != 1 {
      LastRecord(b, r, 9 + Hop(e), n, v);
    } else {
      LastZip64(b, r, 9 + Hop(e), n, v);
      NumbersRead(b, r + 4, e, base);
    }
  }

  /** A short hop means that the first number is not just the sentinel. */
  lemma ShortHop(e: Entry)
    requires e.Big() && Hop(e) + 9 < |CentralZip64(e)|
    ensures Over(e)
  {
    hide Put;
  }

  lemma LastZip64(b: seq<byte>, r: nat, acc: nat, total: nat, v: Sizes)
    requires acc < total && r + 4 <= |b| && Num(b, r, 2) == 1 && acc + 4 + Num(b, r + 2, 2) >= total
    ensures var w, z := WalkExtra(b, r, acc, total, v), Zip64Sizes(b, r + 4, v);
      (w.Some? <==> z.Some?) && (w.Some? ==> w.value.0 == z.value.0)
  {
    hide Num, Zip64Sizes;
  }

  /** The reader gets the right numbers only from their own bytes. */
  lemma NumbersRead(b: seq<byte>, s: nat, e: Entry, base: nat)
    requires Wide(e) && base <= e.pos && s <= |b|
    ensures var z := Zip64Sizes(b, s, Stored(e, base));
      z.Some? && z.value.0 == Reported(e, base) <==> At(b, s, Numbers(e))
  {
    hide Num, Put, At;
    var u, c, o := BigField(e.usize), BigField(e.Csize()), BigField(e.pos);
    AtConcat(b, s, u + c, o);
    AtConcat(b, s, u, c);
    NumberRead(b, s, e.usize);
    NumberRead(b, s + |u|, e.Csize());
    NumberRead(b, s + |u| + |c|, e.pos);
    AtWithin(b, s, u);
    AtWithin(b, s + |u|, c);
    assert |u + c| == |u| + |c|;
  }

  lemma NumberRead(b: seq<byte>, s: nat, x: nat)
    requires x < U64
    ensures var n := BigNum(b, s, Min(x, SENTINEL));
      && (n.Some? ==> n.value.1 == s + |BigField(x)|)
      && (s <= |b| ==> (n.Some? && n.value.0 == x <==> At(b, s, BigField(x))))
  {
    hide Put, Get;
    if x >= SENTINEL && s + 8 <= |b| {
      GetPut(x, 8);
      Pow256Values();
      PutGet(b[s..s + 8]);
    }
  }

  lemma AtWithin(b: seq<byte>, s: nat, t: seq<byte>)
    ensures At(b, s, t) ==> s + |t| <= |b|
  {
  }

  // ------------------------------------------------ two bytes, found by chance

  const CHANCE_U: seq<byte> := [0, 5, 0, 0, 0x50, 0x4b, 1, 2]
  const CHANCE_C: seq<byte> := [1, 0, 20, 0, 0, 5, 0, 0]

  /** With two bytes and two numbers too large the walk can end up right by chance: the
      compressed size looks like the head of a zip64 record, whose numbers are the end of
      that size and the start of the next record (made by 1, needing 20, flags 0x0500,
      stored). No condition on one number alone is exact there. */
  lemma TwoBytesByChance(b: seq<byte>, p: nat, e: Entry, base: nat)
    requires Given(b, p, e, base) && |e.p.comment| == 2 && e.pos < SENTINEL
    requires e.usize == Get(CHANCE_U) && e.Csize() == Get(CHANCE_C)
    requires At(b, p + |CentralBytes(e, base)|, CHANCE_U[4..] + CHANCE_C)
    ensures Over(e) && ComesBack(b, p, e, base)
  {
    hide Num, CentralBytes, CentralZip64, WalkExtra, WellFormed, Put, Hop, ParseInfo, At, Get, Low;
    var q, v := p + 46 + |e.p.name| + |e.p.extraGlobal|, Stored(e, base);
    ChanceField(e);
    Behind(b, p, e, base);
    TailOf(e, base);
    assert (CHANCE_U[4..] + CHANCE_C) == [0x50, 0x4b, 1, 2, 1, 0, 20, 0, 0, 5, 0, 0];
    ChanceBytes(b, q, e.p.comment, CentralZip64(e));
    ParseIsWalk(b, p, e, base);
    SecondRecord(b, p, e, base);
    NextRecord(b, q + 5, 5, 20, v);
    ChanceRecord(b, q + 14, v, Reported(e, base));
  }

  lemma ChanceField(e: Entry)
    requires e.usize == Get(CHANCE_U) && e.Csize() == Get(CHANCE_C) && e.pos < SENTINEL
    ensures e.usize > SENTINEL && e.Csize() > SENTINEL && Hop(e) == 5
    ensures CentralZip64(e) == [1, 0, 16, 0] + CHANCE_U + CHANCE_C
  {
    hide Put, Low;
    assert Get(CHANCE_U) == 0x02014b50_00000500 && Get(CHANCE_C) == 0x0500_00140001;
    PutGet(CHANCE_U);
    PutGet(CHANCE_C);
    SmallPut(1);
    SmallPut(16);
  }

  /** Where the two numbers stand a second time. */
  lemma ChanceBytes(b: seq<byte>, q: nat, c: seq<byte>, z: seq<byte>)
    requires |c| == 2 && z == [1, 0, 16, 0] + CHANCE_U + CHANCE_C && At(b, q, c + z)
    requires At(b, q + 22, CHANCE_U[4..] + CHANCE_C)
    ensures At(b, q + 14, CHANCE_C[..4]) && At(b, q + 18, CHANCE_U) && At(b, q + 26, CHANCE_C)
  {
    hide At;
    var front := c + [1, 0, 16, 0] + CHANCE_U;
    assert c + z == front + (CHANCE_C[..4] + CHANCE_U[..4]);
    AtConcat(b, q, front, CHANCE_C[..4] + CHANCE_U[..4]);
    AtConcat(b, q + 14, CHANCE_C[..4], CHANCE_U[..4]);
    AtConcat(b, q + 22, CHANCE_U[4..], CHANCE_C);
    assert CHANCE_U[..4] + CHANCE_U[4..] == CHANCE_U;
    AtConcat(b, q + 18, CHANCE_U[..4], CHANCE_U[4..]);
  }

  lemma ChanceRecord(b: seq<byte>, r: nat, v: Sizes, w: Sizes)
    requires At(b, r, CHANCE_C[..4]) && At(b, r + 4, CHANCE_U) && At(b, r + 12, CHANCE_C)
    requires v.usize == v.csize == SENTINEL && v.offset < SENTINEL
    requires w == Sizes(Get(CHANCE_U), Get(CHANCE_C), v.offset)
    ensures WalkExtra(b, r, 14, 20, v) == Some((w, r + 20))
  {
    hide Num, Get;
    assert b[r..r + 4] == [1, 0, 20, 0];
    assert b[r] == 1 && b[r + 1] == 0 && b[r + 2] == 20 && b[r + 3] == 0;
    TwoBytes(b, r);
    TwoBytes(b, r + 2);
    WholeNumber(b, r + 4, CHANCE_U);
    WholeNumber(b, r + 12, CHANCE_C);
    assert Zip64Sizes(b, r + 4, v) == Some((w, r + 20));
  }

  lemma WholeNumber(b: seq<byte>, p: nat, s: seq<byte>)
    requires At(b, p, s)
    ensures Num(b, p, |s|) == Get(s)
  {
  }
}
