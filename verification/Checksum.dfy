/** The CRC-32 of the archive format (section 4.4.7 of APPNOTE.TXT), as the
    running fold that zlib's crc32(crc, buf, len) computes. The bitwise operators
    are written out on natural numbers: >> 8 is / 256, & 0xff is % 256. */
module Checksum {
  import opened Bytes

  /** Bitwise exclusive or. */
  function Xor(a: nat, b: nat): nat
  {
    if a == 0 then b
    else if b == 0 then a
    else (a + b) % 2 + 2 * Xor(a / 2, b / 2)
  }

  function Pow2(n: nat): (r: nat)
    ensures r >= 1
  {
    if n == 0 then 1 else 2 * Pow2(n - 1)
  }

  lemma {:induction false} XorBound(a: nat, b: nat, n: nat)
    requires a < Pow2(n) && b < Pow2(n)
    ensures Xor(a, b) < Pow2(n)
  {
    if a != 0 && b != 0 {
      XorBound(a / 2, b / 2, n - 1);
    }
  }

  lemma HalfBit(k: nat, bit: nat)
    requires bit < 2
    ensures (bit + 2 * k) % 2 == bit && (bit + 2 * k) / 2 == k
  {
  }

  lemma {:induction false} XorBits(a: nat, b: nat)
    ensures Xor(a, b) % 2 == (a + b) % 2 && Xor(a, b) / 2 == Xor(a / 2, b / 2)
  {
    if a == 0 {
      assert Xor(0, b / 2) == b / 2;
    } else if b == 0 {
      assert Xor(a / 2, 0) == a / 2;
    } else {
      var k, bit := Xor(a / 2, b / 2), (a + b) % 2;
      assert Xor(a, b) == bit + 2 * k;
      hide Xor;
      HalfBit(k, bit);
    }
  }

  lemma BitTwice(a: nat, b: nat)
    ensures ((a + b) % 2 + b) % 2 == a % 2
  {
  }

  lemma {:induction false} XorTwice(a: nat, b: nat)
    ensures Xor(Xor(a, b), b) == a
    decreases a + b
  {
    if a != 0 && b != 0 {
      XorTwice(a / 2, b / 2);
      XorBits(a, b);
      XorBits(Xor(a, b), b);
      hide Xor;
      BitTwice(a, b);
    } else if b != 0 {
      XorSelf(b);
    }
  }

  lemma {:induction false} XorSelf(a: nat)
    ensures Xor(a, a) == 0
  {
    if a != 0 {
      XorSelf(a / 2);
    }
  }

  lemma WordBound(a: nat, b: nat)
    requires a < U32 && b < U32
    ensures Xor(a, b) < U32
  {
    PowWord();
    XorBound(a, b, 32);
  }

  lemma ByteBound(a: nat, b: nat)
    requires a < 256 && b < 256
    ensures Xor(a, b) < 256
  {
    PowByte();
    XorBound(a, b, 8);
  }

  lemma PowByte()
    ensures Pow2(8) == 256
  {
  }

  lemma PowWord()
    ensures Pow2(32) == U32
  {
    PowByte();
    assert Pow2(12) == 16 * Pow2(8) by { assert Pow2(10) == 4 * Pow2(8); }
    assert Pow2(16) == 16 * Pow2(12) by { assert Pow2(14) == 4 * Pow2(12); }
    assert Pow2(20) == 16 * Pow2(16) by { assert Pow2(18) == 4 * Pow2(16); }
    assert Pow2(24) == 16 * Pow2(20) by { assert Pow2(22) == 4 * Pow2(20); }
    assert Pow2(28) == 16 * Pow2(24) by { assert Pow2(26) == 4 * Pow2(24); }
    assert Pow2(32) == 16 * Pow2(28) by { assert Pow2(30) == 4 * Pow2(28); }
  }

  /** n shifts by the reflected generator polynomial. */
  function Shift(x: nat, n: nat): (r: nat)
    requires x < U32
    ensures r < U32
    decreases n
  {
    if n == 0 then x
    else
      WordBound(x / 2, 0xedb8_8320);
      Shift(if x % 2 == 1 then Xor(x / 2, 0xedb8_8320) else x / 2, n - 1)
  }

  /** The entry of zlib's table for a byte, and the table step CRC32(c, b); the
      step observes only the low byte of its second argument. */
  function Step(c: nat, b: byte): (r: nat)
    requires c < U32
    ensures r < U32
  {
    ByteBound(c % 256, b);
    WordBound(Shift(Xor(c % 256, b), 8), c / 256);
    Xor(Shift(Xor(c % 256, b), 8), c / 256)
  }

  function CrcByte(c: nat, b: byte): (r: nat)
    requires c < U32
    ensures r < U32
  {
    WordBound(c, SENTINEL);
    WordBound(Step(Xor(c, SENTINEL), b), SENTINEL);
    Xor(Step(Xor(c, SENTINEL), b), SENTINEL)
  }

  function Crc(c: nat, s: seq<byte>): (r: nat)
    requires c < U32
    ensures r < U32
  {
    if s == [] then c else CrcByte(Crc(c, s[..|s| - 1]), s[|s| - 1])
  }

  /** Feeding two pieces one after the other is feeding their concatenation. */
  lemma {:induction false} CrcAppend(c: nat, s: seq<byte>, t: seq<byte>)
    requires c < U32
    ensures Crc(Crc(c, s), t) == Crc(c, s + t)
  {
    hide CrcByte;
    if t == [] {
      assert s + t == s;
    } else {
      var t' := t[..|t| - 1];
      CrcAppend(c, s, t');
      assert (s + t)[..|s + t| - 1] == s + t';
    }
  }
}
