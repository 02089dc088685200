/** Walking over a directory, whoever wrote it: a directory that is a sequence of
    records, each of which the reader can decode, is enumerated record by record. */
module Catalog {
  import opened Bytes
  import opened EndRecord
  import opened Records

  /** A directory record and what it should be decoded to. */
  datatype Record = Record(bytes: seq<byte>, info: FileInfo, name: seq<byte>, comment: seq<byte>)
  {
    /** Decoding succeeds wherever the record stands, and its length is the one that
        the walk computes from the decoded lengths. */
    ghost predicate Good()
    {
      && |bytes| == 46 + info.fixed.nameLen + info.fixed.extraLen + info.fixed.commentLen
      && (forall b, p: nat :: At(b, p, bytes) ==>
            && ParseInfo(b, p).Some? && ParseInfo(b, p).value.0 == info
            && ParseFull(b, p) == Some((info, name, comment)))
    }
  }

  function Cat(rs: seq<Record>): seq<byte>
  {
    if rs == [] then [] else Cat(rs[..|rs| - 1]) + rs[|rs| - 1].bytes
  }

  /** The directory d of the file b consists of the records rs. */
  ghost predicate Stands(b: seq<byte>, d: Directory, rs: seq<Record>)
  {
    && At(b, d.before + d.offset, Cat(rs)) && |b| < U64
    && (d.entries == |rs| || d.entries == 0xffff <= |rs|)
    && forall i :: 0 <= i < |rs| ==> rs[i].Good()
  }

  /** The reader at the i-th entry. */
  function CursorAt(d: Directory, rs: seq<Record>, i: nat): Cursor
    requires i < |rs|
  {
    Cursor(d.offset + |Cat(rs[..i])|, i, true, rs[i].info)
  }

  lemma CatSnoc(rs: seq<Record>, r: Record)
    ensures Cat(rs + [r]) == Cat(rs) + r.bytes
  {
  }

  lemma AtInside(b: seq<byte>, p: nat, s: seq<byte>, i: nat, t: seq<byte>)
    requires At(b, p, s) && At(s, i, t)
    ensures At(b, p + i, t)
  {
    assert s == s[..i] + (t + s[i + |t|..]);
    AtConcat(b, p, s[..i], t + s[i + |t|..]);
    AtConcat(b, p + i, t, s[i + |t|..]);
  }

  lemma AtEnd(d: seq<byte>, z: seq<byte>)
    ensures At(d + z, |d|, z)
  {
  }

  lemma AtInFront(d: seq<byte>, z: seq<byte>, p: nat, s: seq<byte>)
    requires At(d, p, s)
    ensures At(d + z, p, s)
  {
  }

  /** The bytes of the i-th record within the directory. */
  lemma {:induction false} RecordInside(rs: seq<Record>, i: nat)
    requires i < |rs|
    ensures At(Cat(rs), |Cat(rs[..i])|, rs[i].bytes)
    ensures |Cat(rs[..i + 1])| == |Cat(rs[..i])| + |rs[i].bytes|
  {
    hide Cat, At;
    var n := |rs| - 1;
    var front := rs[..n];
    assert rs == front + [rs[n]];
    CatSnoc(front, rs[n]);
    if i < n {
      RecordInside(front, i);
      assert front[..i] == rs[..i] && front[..i + 1] == rs[..i + 1];
      AtInFront(Cat(front), rs[n].bytes, |Cat(rs[..i])|, rs[i].bytes);
    } else {
      assert rs[..i] == front && rs[..i + 1] == rs;
      AtEnd(Cat(front), rs[n].bytes);
    }
  }

  /** Loading the record at the position of the i-th entry, for instance through a
      recorded handle, makes that entry the current one. */
  lemma ReloadAt(b: seq<byte>, d: Directory, rs: seq<Record>, i: nat, prev: FileInfo)
    requires Stands(b, d, rs) && i < |rs|
    ensures Reload(b, d, d.offset + |Cat(rs[..i])|, i, prev) == CursorAt(d, rs, i)
    ensures ParseFull(b, Wrap64(d.offset + |Cat(rs[..i])| + d.before))
      == Some((rs[i].info, rs[i].name, rs[i].comment))
  {
    hide Cat, ParseInfo, ParseFull, Wrap64;
    RecordInside(rs, i);
    var p := d.before + d.offset + |Cat(rs[..i])|;
    AtInside(b, d.before + d.offset, Cat(rs), |Cat(rs[..i])|, rs[i].bytes);
    assert rs[i].Good();
    SmallWrap(p);
  }

  /** One step of the walk. */
  lemma StepTo(b: seq<byte>, d: Directory, rs: seq<Record>, i: nat)
    requires Stands(b, d, rs) && i + 1 < |rs|
    ensures Next(b, d, CursorAt(d, rs, i)) == (UnzOk, CursorAt(d, rs, i + 1))
  {
    hide Cat, Reload, ParseFull;
    assert rs[i].Good();
    RecordInside(rs, i);
    ReloadAt(b, d, rs, i + 1, rs[i].info);
  }

  /** Walking: the i-th step reaches the i-th entry, for directories of any length. */
  lemma {:induction false} WalkReaches(b: seq<byte>, d: Directory, rs: seq<Record>, c: Cursor, i: nat)
    requires Stands(b, d, rs) && i < |rs|
    ensures Walk(b, d, c, i) == CursorAt(d, rs, i)
    ensures i > 0 ==> Next(b, d, Walk(b, d, c, i - 1)).0 == UnzOk
  {
    hide Reload, Stands, Next, Cat;
    if i == 0 {
      assert rs[..0] == [];
      EmptyCat();
      ReloadAt(b, d, rs, 0, c.info);
    } else {
      WalkReaches(b, d, rs, c, i - 1);
      StepTo(b, d, rs, i - 1);
    }
  }

  lemma EmptyCat()
    ensures Cat([]) == []
  {
  }

  /** At the last entry the walk ends. A count of 0xffff means "unknown"; then the
      attempt to read past the directory is an error instead. */
  lemma LastStep(b: seq<byte>, d: Directory, rs: seq<Record>)
    requires Stands(b, d, rs) && rs != []
    requires d.entries == 0xffff ==> ParseInfo(b, d.before + d.offset + |Cat(rs)|) == None
    ensures var last := CursorAt(d, rs, |rs| - 1);
      var r := Next(b, d, last);
      r.0 == (if d.entries != 0xffff then UnzEndOfList else UnzError) && (d.entries != 0xffff ==> r.1 == last)
  {
    hide Cat, ParseInfo, ParseFull, Wrap64;
    if d.entries == 0xffff {
      var n := |rs| - 1;
      assert rs[n].Good();
      RecordInside(rs, n);
      assert rs[..n + 1] == rs;
      SmallWrap(d.before + d.offset + |Cat(rs)|);
    }
  }
}
