/** zipRemoveExtraInfoBlock: all records with one header identifier leave an extra
    field, in place. */
module ExtraBlocks {
  import opened Bytes

  const ZIP_OK := 0
  const ZIP_ERRNO := -1
  const ZIP_PARAMERROR := -102

  /** A record of an extra field (section 4.5.1 of APPNOTE.TXT), with both numbers as
      the code reads them: 16-bit, the size signed. */
  datatype Block = Block(id: nat, data: seq<byte>)

  predicate Sound(r: Block)
  {
    r.id < 0x1_0000 && |r.data| < 0x8000
  }

  function Encode(r: Block): (s: seq<byte>)
    ensures |s| == 4 + |r.data|
  {
    Low(r.id, 2) + Low(|r.data|, 2) + r.data
  }

  function Field(rs: seq<Block>): seq<byte>
  {
    if rs == [] then [] else Encode(rs[0]) + Field(rs[1..])
  }

  predicate AllSound(rs: seq<Block>)
  {
    forall k | 0 <= k < |rs| :: Sound(rs[k])
  }

  /** The records of a field in order without those with an identifier. */
  function Without(rs: seq<Block>, id: nat): seq<Block>
  {
    if rs == [] then []
    else (if rs[0].id == id then [] else [rs[0]]) + Without(rs[1..], id)
  }

  lemma EncodeFields(r: Block, rest: seq<byte>)
    requires Sound(r)
    ensures var s := Encode(r) + rest;
      Num(s, 0, 2) == r.id && Num(s, 2, 2) == |r.data| && s[4 + |r.data|..] == rest && s[4..4 + |r.data|] == r.data
  {
    var s := Encode(r) + rest;
    assert s[0..2] == Low(r.id, 2) && s[2..4] == Low(|r.data|, 2);
    GetLow(r.id, 2);
    GetLow(|r.data|, 2);
    Pow256Values();
  }

  /** A field is made of records in one way only. */
  lemma {:induction false} FieldUnique(a: seq<Block>, b: seq<Block>)
    requires AllSound(a) && AllSound(b) && Field(a) == Field(b)
    ensures a == b
  {
    if a != [] && b != [] {
      EncodeFields(a[0], Field(a[1..]));
      EncodeFields(b[0], Field(b[1..]));
      FieldUnique(a[1..], b[1..]);
      assert a == [a[0]] + a[1..] && b == [b[0]] + b[1..];
    } else {
      assert a == [] ==> |Field(b)| == 0;
      assert b == [] ==> |Field(a)| == 0;
    }
  }

  lemma {:induction false} FieldConcat(a: seq<Block>, b: seq<Block>)
    ensures Field(a + b) == Field(a) + Field(b)
  {
    if a == [] {
      assert a + b == b;
    } else {
      assert (a + b)[1..] == a[1..] + b;
      FieldConcat(a[1..], b);
      assert Encode(a[0]) + (Field(a[1..]) + Field(b)) == (Encode(a[0]) + Field(a[1..])) + Field(b);
    }
  }

  lemma {:induction false} WithoutSnoc(rs: seq<Block>, r: Block, id: nat)
    ensures Without(rs + [r], id) == Without(rs, id) + (if r.id == id then [] else [r])
  {
    if rs == [] {
      assert [r][1..] == [];
    } else {
      var front, rest, last := if rs[0].id == id then [] else [rs[0]], Without(rs[1..], id), if r.id == id then [] else [r];
      assert (rs + [r])[1..] == rs[1..] + [r];
      WithoutSnoc(rs[1..], r, id);
      assert front + (rest + last) == (front + rest) + last;
    }
  }

  /** The filtered field is shorter exactly when a record with the identifier was
      there, and otherwise the same. */
  lemma {:induction false} WithoutShorter(rs: seq<Block>, id: nat)
    ensures |Field(Without(rs, id))| <= |Field(rs)|
    ensures |Field(Without(rs, id))| == |Field(rs)| <==> forall k | 0 <= k < |rs| :: rs[k].id != id
    ensures (forall k | 0 <= k < |rs| :: rs[k].id != id) ==> Without(rs, id) == rs
    ensures forall k | 0 <= k < |Without(rs, id)| :: Without(rs, id)[k].id != id
  {
    if rs != [] {
      var rest := rs[1..];
      WithoutShorter(rest, id);
      assert rs == [rs[0]] + rest;
      assert forall k | 0 <= k < |rest| :: rest[k] == rs[k + 1];
      var kept := Without(rest, id);
      if rs[0].id != id {
        assert ([rs[0]] + kept)[1..] == kept;
      } else {
        assert Without(rs, id) == kept;
      }
    }
  }

  function Zeros(n: nat): seq<byte>
  {
    Repeat(0, n)
  }

  /** A second removal finds nothing. */
  lemma WithoutTwice(rs: seq<Block>, id: nat)
    ensures Without(Without(rs, id), id) == Without(rs, id)
  {
    WithoutShorter(rs, id);
    WithoutShorter(Without(rs, id), id);
  }

  /** The field is the first dataLen bytes of data and consists of the records rs.
      If one has the identifier, the others move together, the rest of the field
      becomes zeros and the new length is theirs; otherwise nothing changes. */
  method RemoveExtraInfoBlock(data: array<byte>, dataLen: int, header: nat, ghost rs: seq<Block>)
      returns (err: int, newLen: int)
    requires dataLen >= 4 ==> dataLen <= data.Length && AllSound(rs) && data[..dataLen] == Field(rs)
    modifies data
    ensures dataLen < 4 ==> err == ZIP_PARAMERROR && newLen == dataLen && data[..] == old(data[..])
    ensures dataLen >= 4 && (forall k | 0 <= k < |rs| :: rs[k].id != header) ==>
      (err == ZIP_ERRNO && newLen == dataLen && data[..] == old(data[..]))
    ensures dataLen >= 4 && (exists k :: 0 <= k < |rs| && rs[k].id == header) ==>
      (err == ZIP_OK && newLen == |Field(Without(rs, header))| && newLen < dataLen
       && data[..] == Field(Without(rs, header)) + Zeros(dataLen - newLen) + old(data[dataLen..]))
  {
    if dataLen < 4 {
      return ZIP_PARAMERROR, dataLen;
    }
    var kept := Filtered(data[..dataLen], header, rs);
    WithoutShorter(rs, header);
    if |kept| < dataLen {
      Overwrite(data, dataLen, kept);
      err, newLen := ZIP_OK, |kept|;
    } else {
      err, newLen := ZIP_ERRNO, dataLen;
    }
  }

  lemma FieldEmpty(rs: seq<Block>, id: nat)
    ensures Field(rs) == [] <==> rs == []
    ensures Without([], id) == []
  {
  }

  /** What the loop meets at p, where record k starts, and what it keeps of it. */
  lemma NextBlock(field: seq<byte>, p: nat, rs: seq<Block>, k: nat, header: nat)
    requires AllSound(rs) && p < |field| && k <= |rs| && field[p..] == Field(rs[k..])
    ensures k < |rs| && p + 4 + |rs[k].data| <= |field|
    ensures Get(field[p..p + 2]) == rs[k].id && Get(field[p + 2..p + 4]) == |rs[k].data|
    ensures field[p + |rs[k].data| + 4..] == Field(rs[k + 1..])
    ensures Field(Without(rs[..k + 1], header)) == Field(Without(rs[..k], header))
      + (if rs[k].id == header then [] else field[p..p + |rs[k].data| + 4])
  {
    hide Encode, Without;
    FieldEmpty(rs[k..], header);
    var r := rs[k];
    var size := |r.data|;
    assert rs[k..][0] == r && rs[k..][1..] == rs[k + 1..];
    EncodeFields(r, Field(rs[k + 1..]));
    SliceOfDrop(field, p, 0, 2);
    SliceOfDrop(field, p, 2, 4);
    SliceOfDrop(field, p, 0, size + 4);
    assert field[p + size + 4..] == field[p..][size + 4..];
    assert rs[..k + 1] == rs[..k] + [r];
    WithoutSnoc(rs[..k], r, header);
    FieldConcat(Without(rs[..k], header), [r]);
    assert Field([r]) == Encode(r) by { assert Encode(r) + Field([]) == Encode(r); }
    if r.id == header {
      assert Without(rs[..k], header) + [] == Without(rs[..k], header);
    }
  }

  /** The loop that copies the records to keep into a buffer of their own. */
  method Filtered(field: seq<byte>, header: nat, ghost rs: seq<Block>) returns (kept: seq<byte>)
    requires AllSound(rs) && field == Field(rs)
    ensures kept == Field(Without(rs, header))
  {
    hide Encode, Field, Without;
    kept := [];
    var p: nat := 0;
    ghost var k: nat := 0;
    assert rs[0..] == rs && rs[..0] == [];
    FieldEmpty(Without([], header), header);
    while p < |field|
      invariant k <= |rs| && p <= |field| && field[p..] == Field(rs[k..])
      invariant kept == Field(Without(rs[..k], header))
    {
      NextBlock(field, p, rs, k, header);
      var id, size := Get(field[p..p + 2]), Get(field[p + 2..p + 4]);
      if id != header {
        kept := kept + field[p..p + size + 4];
      }
      p := p + size + 4;
      k := k + 1;
    }
    FieldEmpty(rs[k..], header);
    assert rs[..k] == rs;
  }

  /** memset over the old field, then memcpy of the new one. */
  method Overwrite(data: array<byte>, dataLen: nat, kept: seq<byte>)
    requires |kept| <= dataLen <= data.Length
    modifies data
    ensures data[..] == kept + Zeros(dataLen - |kept|) + old(data[dataLen..])
  {
    forall i | 0 <= i < dataLen {
      data[i] := 0;
    }
    forall i | 0 <= i < |kept| {
      data[i] := kept[i];
    }
  }
}
