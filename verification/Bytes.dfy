/** Bytes, the little-endian integers of the archive format, and occurrences of
    one byte string inside another. */
module Bytes {

  type byte = b: int | 0 <= b < 256

  /** Types of the C code: `uLong` is 32 bits wide, `ZPOS64_T` 64 bits. */
  const U32: nat := 0x1_0000_0000
  const U64: nat := 0x1_0000_0000_0000_0000
  /** The zip64 sentinel of 32-bit fields, `(uLong) -1`. */
  const SENTINEL: nat := 0xffff_ffff

  /** A position as a 64-bit number. */
  function Wrap64(x: nat): nat { x % U64 }

  lemma SmallWrap(x: nat)
    ensures x < U64 ==> Wrap64(x) == x
  {
  }

  /** No byte is zero, so that the bytes are a whole C string. */
  predicate Zeroless(s: seq<byte>)
  {
    forall i | 0 <= i < |s| :: s[i] != 0
  }

  function Pow256(n: nat): (r: nat)
    ensures r >= 1
  {
    if n == 0 then 1 else 256 * Pow256(n - 1)
  }

  function Repeat(v: byte, n: nat): (s: seq<byte>)
    ensures |s| == n && forall i :: 0 <= i < n ==> s[i] == v
  {
    seq(n, _ => v)
  }

  /** The n low bytes of x, least significant first. */
  function Low(x: nat, n: nat): (s: seq<byte>)
    ensures |s| == n
  {
    if n == 0 then [] else [x % 256] + Low(x / 256, n - 1)
  }

  /** The number a byte string denotes, least significant byte first. */
  function Get(s: seq<byte>): nat
  {
    if s == [] then 0 else s[0] + 256 * Get(s[1..])
  }

  /** What the writer stores for x in an n-byte field: x itself, or all ones
      when x does not fit. */
  function Put(x: nat, n: nat): (s: seq<byte>)
    ensures |s| == n
  {
    if x < Pow256(n) then Low(x, n) else Repeat(0xff, n)
  }

  lemma {:induction false} GetLow(x: nat, n: nat)
    ensures Get(Low(x, n)) == x % Pow256(n)
  {
    if n > 0 {
      GetLow(x / 256, n - 1);
      ModStep(x, Pow256(n - 1));
    }
  }

  lemma ModStep(x: nat, m: nat)
    requires m > 0
    ensures x % (256 * m) == 256 * (x / 256 % m) + x % 256
  {
    var y := x / 256;
    var q, r := y / m, y % m;
    assert y == m * q + r;
    assert 256 * (m * q) == (256 * m) * q;
    ModUnique(x, 256 * m, q, 256 * r + x % 256);
  }

  lemma ModUnique(x: int, d: int, q: int, r: int)
    requires 0 <= r < d && x == d * q + r
    ensures x % d == r
  {
    var e := x / d - q;
    assert d * e == r - x % d;
    assert e >= 1 ==> d * e >= d;
    assert e <= -1 ==> d * e <= -d;
  }

  lemma {:induction false} GetOnes(n: nat)
    ensures Get(Repeat(0xff, n)) == Pow256(n) - 1
  {
    if n > 0 {
      assert Repeat(0xff, n)[1..] == Repeat(0xff, n - 1);
      GetOnes(n - 1);
    }
  }

  function Min(a: int, b: int): int { if a <= b then a else b }

  function Max(a: int, b: int): int { if a <= b then b else a }

  /** Reading back a stored field gives the value capped at the field's largest
      number: stores saturate, they do not truncate. */
  lemma GetPut(x: nat, n: nat)
    ensures Get(Put(x, n)) == Min(x, Pow256(n) - 1)
  {
    if x < Pow256(n) {
      GetLow(x, n);
      ModUnique(x, Pow256(n), 0, x);
    } else {
      GetOnes(n);
    }
  }

  lemma {:induction false} GetBound(s: seq<byte>)
    ensures Get(s) < Pow256(|s|)
  {
    if s != [] {
      GetBound(s[1..]);
    }
  }

  lemma {:induction false} LowGet(s: seq<byte>)
    ensures Low(Get(s), |s|) == s
  {
    if s != [] {
      LowGet(s[1..]);
      ModUnique(Get(s), 256, Get(s[1..]), s[0]);
    }
  }

  /** A field that was read can be stored again without change. */
  lemma PutGet(s: seq<byte>)
    ensures Put(Get(s), |s|) == s
  {
    GetBound(s);
    LowGet(s);
  }

  lemma Pow256Values()
    ensures Pow256(1) == 256 && Pow256(2) == 0x1_0000 && Pow256(4) == U32 && Pow256(8) == U64
  {
  }

  lemma {:induction false} GetSnoc(s: seq<byte>, v: byte)
    ensures Get(s + [v]) == Get(s) + v * Pow256(|s|)
  {
    if s == [] {
      assert [v][1..] == [];
    } else {
      assert (s + [v])[1..] == s[1..] + [v];
      GetSnoc(s[1..], v);
      assert 256 * (v * Pow256(|s| - 1)) == v * Pow256(|s|);
    }
  }

  lemma DivUnique(x: int, d: int, q: int, r: int)
    requires 0 <= r < d && x == d * q + r
    ensures x / d == q
  {
    var e := x / d - q;
    assert d * e == r - x % d;
    assert e >= 1 ==> d * e >= d;
    assert e <= -1 ==> d * e <= -d;
  }

  lemma Assoc(a: seq<byte>, b: seq<byte>, c: seq<byte>)
    ensures a + (b + c) == a + b + c
  {
  }

  lemma Regroup(a: seq<byte>, h: seq<byte>, t: seq<byte>, z: seq<byte>)
    ensures a + (h + t) + z == a + h + (t + z)
  {
  }

  // ---------------------------------------------------------------- occurrences

  /** The bytes s stand in b at position p. */
  predicate At(b: seq<byte>, p: int, s: seq<byte>)
  {
    0 <= p && p + |s| <= |b| && b[p..p + |s|] == s
  }

  lemma AtConcat(b: seq<byte>, p: int, s: seq<byte>, t: seq<byte>)
    ensures At(b, p, s + t) <==> At(b, p, s) && At(b, p + |s|, t)
  {
    if At(b, p, s + t) {
      assert b[p..p + |s|] == b[p..p + |s + t|][..|s|];
      assert b[p + |s|..p + |s| + |t|] == b[p..p + |s + t|][|s|..];
    }
    if At(b, p, s) && At(b, p + |s|, t) {
      assert b[p..p + |s + t|] == b[p..p + |s|] + b[p + |s|..p + |s| + |t|];
    }
  }

  lemma SliceOfDrop(b: seq<byte>, n: nat, i: nat, j: nat)
    requires i <= j && n + j <= |b|
    ensures b[n..][i..j] == b[n + i..n + j]
  {
  }

  lemma SliceSnoc(b: seq<byte>, i: nat, j: nat)
    requires i <= j < |b|
    ensures b[i..j + 1] == b[i..j] + [b[j]] && b[j..j + 1] == [b[j]]
  {
  }

  /** Occurrences depend only on the bytes they cover. */
  lemma AtFrame(b: seq<byte>, c: seq<byte>, p: int, s: seq<byte>, n: nat)
    requires At(b, p, s) && p + |s| <= n <= |b| && n <= |c| && b[..n] == c[..n]
    ensures At(c, p, s)
  {
    assert b[p..p + |s|] == b[..n][p..p + |s|] == c[..n][p..p + |s|] == c[p..p + |s|];
  }

  /** The n-byte number at position p. */
  function Num(b: seq<byte>, p: nat, n: nat): nat
    requires p + n <= |b|
  {
    Get(b[p..p + n])
  }

  lemma NumSnoc(b: seq<byte>, p: nat, n: nat)
    requires p + n < |b|
    ensures Num(b, p, n + 1) == Num(b, p, n) + b[p + n] * Pow256(n)
  {
    SliceSnoc(b, p, p + n);
    GetSnoc(b[p..p + n], b[p + n]);
  }
}
