/** What the cipher does to a byte: exclusive or with a key-stream byte that is a function
    of 15 bits of the last key, and keys that no two streams ever have in common. */
module CipherLaws {
  import opened Bytes
  import opened Checksum
  import opened ChecksumLaws
  import opened Cipher

  /** Every bit of the coded byte. */
  lemma MaskBits(c: byte, k: Keys, i: nat)
    ensures Bit(Mask(c, k), i) == (Bit(c, i) + Bit(DecryptByte(k.k2), i)) % 2
  {
    hide Xor, DecryptByte;
    XorBitwise(c, DecryptByte(k.k2), i);
  }

  /** A byte is left in the clear exactly when the key-stream byte is zero, and different
      key-stream bytes give different results. */
  lemma ClearIff(c: byte, k: Keys, l: Keys)
    ensures Mask(c, k) == c <==> DecryptByte(k.k2) == 0
    ensures Mask(c, k) == Mask(c, l) <==> DecryptByte(k.k2) == DecryptByte(l.k2)
  {
    hide Xor, DecryptByte;
    var x, y := DecryptByte(k.k2), DecryptByte(l.k2);
    XorComm(c, x);
    XorComm(c, y);
    XorZero(c);
    if Xor(x, c) == Xor(0, c) {
      XorCancel(x, 0, c);
    }
    if Xor(x, c) == Xor(y, c) {
      XorCancel(x, y, c);
    }
  }

  lemma {:induction false} BitLow(x: nat, i: nat, n: nat)
    requires i < n
    ensures Bit(x % Pow2(n), i) == Bit(x, i)
    decreases n
  {
    var m, y := Pow2(n - 1), x % Pow2(n);
    ModTwice(x, m);
    assert y % 2 == x % 2 && y / 2 == x / 2 % m;
    if i > 0 {
      BitLow(x / 2, i - 1, n - 1);
    }
  }

  /** The low word with bit 1 set. */
  function Set1(k2: word): nat
  {
    var low := k2 % 0x1_0000;
    if low / 2 % 2 == 1 then low else low + 2
  }

  lemma Set1Parts(k2: word)
    ensures var low, t := k2 % 0x1_0000, Set1(k2);
      t < 0x1_0000 && t % 2 == low % 2 && t / 2 % 2 == 1 && t / 2 / 2 == low / 2 / 2
  {
    var low := k2 % 0x1_0000;
    if low / 2 % 2 == 0 {
      Quarters(low, low / 4, low % 2);
    }
  }

  lemma Quarters(low: nat, q: nat, r: nat)
    requires low == 4 * q + r && r < 2 && low < 0x1_0000
    ensures low + 2 < 0x1_0000 && (low + 2) % 2 == low % 2 && (low + 2) / 2 % 2 == 1 && (low + 2) / 2 / 2 == low / 2 / 2
  {
    assert (low + 2) / 2 == 2 * q + 1 && low / 2 == 2 * q;
  }

  lemma BitParts(x: nat, i: nat)
    ensures Bit(x, 0) == x % 2 && Bit(x, 1) == x / 2 % 2
    ensures i >= 2 ==> Bit(x, i) == Bit(x / 2 / 2, i - 2)
  {
  }

  lemma Set1Bits(k2: word, i: nat)
    requires i < 16
    ensures Set1(k2) < 0x1_0000 && Bit(Set1(k2), i) == if i == 1 then 1 else Bit(k2, i)
  {
    hide Bit, Set1;
    PowHalf();
    BitLow(k2, i, 16);
    Set1Parts(k2);
    BitParts(k2 % 0x1_0000, i);
    BitParts(Set1(k2), i);
  }

  lemma PowHalf()
    ensures Pow2(16) == 0x1_0000
  {
    PowByte();
    assert Pow2(12) == 16 * Pow2(8) by { assert Pow2(10) == 4 * Pow2(8); }
    assert Pow2(16) == 16 * Pow2(12) by { assert Pow2(14) == 4 * Pow2(12); }
  }

  lemma XorOne(t: nat)
    ensures Xor(t, 1) == if t % 2 == 0 then t + 1 else t - 1
  {
    XorBits(t, 1);
    XorZero(t / 2);
    hide Xor;
    Halves(Xor(t, 1), if t % 2 == 0 then t + 1 else t - 1);
  }

  /** The key-stream byte: bits 8 to 15 of t times t with its lowest bit inverted, where t is
      the low word of the key with bit 1 set. */
  lemma KeyStream(k2: word, t: nat)
    requires t < 0x1_0000 && Bit(t, 1) == 1 && forall i: nat | i < 16 && i != 1 :: Bit(t, i) == Bit(k2, i)
    ensures DecryptByte(k2) == t * Xor(t, 1) / 256 % 256
  {
    hide Xor, Bit;
    PowHalf();
    forall i: nat | i < 16
      ensures Bit(t, i) == Bit(Set1(k2), i)
    {
      Set1Bits(k2, i);
    }
    Set1Bits(k2, 0);
    SameBits(t, Set1(k2), 16);
    XorOne(t);
  }

  // ------------------------------------------------------------- known values

  /** Without a password the stream starts with 0xab and, after a byte 0x78, goes on with
      0x0a. */
  lemma KnownStream()
    ensures DecryptByte(InitKeys([]).k2) == 0xab
    ensures DecryptByte(Update(InitKeys([]), 0x78, U32).k2) == 0x0a
  {
    hide DecryptByte, Update, Step;
    EmptyPassword();
    FirstUpdate();
    SecondKey();
    StreamByte(0x3456_7890, 0x7890);
    StreamByte(Step(0x3456_7890, 0xb0), 0x76b0);
    assert 0x7892 * 0x7893 / 256 % 256 == 0xab && 0x76b2 * 0x76b3 / 256 % 256 == 0x0a;
  }

  lemma EmptyPassword()
    ensures InitKeys([]) == Keys(0x1234_5678, 0x2345_6789, 0x3456_7890)
  {
    hide Update;
  }

  lemma StreamByte(k2: word, low: nat)
    requires k2 % 0x1_0000 == low && low / 2 % 2 == 0 && low % 2 == 0
    ensures DecryptByte(k2) == (low + 2) * (low + 3) / 256 % 256
  {
    assert (low + 2) % 2 == 0;
  }

  lemma FirstUpdate()
    ensures Update(Keys(0x1234_5678, 0x2345_6789, 0x3456_7890), 0x78, U32).k2 == Step(0x3456_7890, 0xb0)
  {
    hide Step, NextMiddle;
    StepEqual(0x1234_5678, 0x78);
    FirstMiddle();
  }

  lemma FirstMiddle()
    ensures NextMiddle(0x2345_6789, 0x56, U32) == 0xb0e2_035c
  {
  }

  lemma SecondKey()
    ensures Step(0x3456_7890, 0xb0) % 0x1_0000 == 0x76b0
  {
    hide Xor, Shift;
    KeyIndex();
    TableEntries();
    KeyWord();
  }

  lemma KeyIndex()
    ensures Xor(0x90, 0xb0) == 0x20
  {
    KnownNibbles();
    hide Xor;
    XorNibble(0x90, 0xb0);
    ZeroNibble();
  }

  lemma ZeroNibble()
    ensures Xor(0, 0) == 0
  {
  }

  lemma KeyWord()
    ensures Xor(0x3b6e_20c8, 0x34_5678) % 0x1_0000 == 0x76b0
  {
    hide Xor;
    KnownNibbles();
    MoreNibbles();
    XorNibble(0x3b6e_20c8, 0x34_5678);
    XorNibble(0x3b6_e20c, 0x3_4567);
    XorNibble(0x3b_6e20, 0x3456);
    XorNibble(0x3_b6e2, 0x345);
    LowWord(Xor(0x3b6e, 0x34));
  }

  lemma LowWord(x: nat)
    ensures (0 + 16 * (0xb + 16 * (6 + 16 * (7 + 16 * x)))) % 0x1_0000 == 0x76b0
  {
  }

  lemma KnownNibbles()
    ensures Xor(9, 0xb) == 2 && Xor(8, 8) == 0 && Xor(0xc, 7) == 0xb && Xor(0, 6) == 6
  {
    hide Xor;
    XorSelf(8);
    XorZero(6);
    XorTwoBits(9, 0xb);
    XorTwoBits(0xc, 7);
    SmallPairs();
  }

  lemma MoreNibbles()
    ensures Xor(2, 5) == 7 && Xor(4, 0xa) == 0xe && Xor(1, 0xb) == 0xa && Xor(7, 0xa) == 0xd
  {
    hide Xor;
    XorTwoBits(2, 5);
    XorTwoBits(4, 0xa);
    XorTwoBits(1, 0xb);
    XorTwoBits(7, 0xa);
    SmallPairs();
  }

  lemma LastNibbles()
    ensures Xor(8, 0xb) == 3 && Xor(4, 0) == 4 && Xor(1, 0xa) == 0xb
  {
    hide Xor;
    XorTwoBits(8, 0xb);
    XorTwoBits(4, 0);
    XorTwoBits(1, 0xa);
    SmallPairs();
  }

  /** Two bits at a time. */
  lemma XorTwoBits(a: nat, b: nat)
    ensures Xor(a, b) == Xor(a % 4, b % 4) + 4 * Xor(a / 4, b / 4)
  {
    hide Xor;
    AllParted(a, b, 2);
    assert Pow2(2) == 4;
  }

  lemma SmallPairs()
    ensures forall a: nat | a < 4 :: Xor(a, 0) == Xor(0, a) == a
    ensures Xor(1, 1) == Xor(2, 2) == 0 && Xor(1, 2) == Xor(2, 1) == 3
    ensures Xor(1, 3) == Xor(3, 1) == 2 && Xor(2, 3) == Xor(3, 2) == 1 && Xor(3, 3) == 0
  {
  }

  /** And the bytes that makes. */
  lemma KnownCipher()
    ensures Encrypt(InitKeys([]), [0x41], U32) == [0xea]
    ensures Encrypt(InitKeys([]), [0x78, 0x41], U32) == [0xd3, 0x4b]
  {
    hide Xor, DecryptByte, Update, InitKeys;
    var k := InitKeys([]);
    var none: seq<byte> := [];
    KnownStream();
    KnownMasks();
    NothingEncrypted(k);
    EncryptSnoc(k, none, 0x41, U32);
    EncryptSnoc(k, none, 0x78, U32);
    EncryptSnoc(k, none + [0x78], 0x41, U32);
    assert none + [0x41] == [0x41] && none + [0x78] + [0x41] == [0x78, 0x41];
  }

  lemma KnownMasks()
    ensures Xor(0x41, 0xab) == 0xea && Xor(0x78, 0xab) == 0xd3 && Xor(0x41, 0x0a) == 0x4b
  {
    hide Xor;
    KnownNibbles();
    MoreNibbles();
    LastNibbles();
    XorNibble(0x41, 0xab);
    XorNibble(0x78, 0xab);
    XorNibble(0x41, 0x0a);
  }

  lemma NothingEncrypted(k: Keys)
    ensures Encrypt(k, [], U32) == [] && KeysAfter(k, [], U32) == k
  {
  }

  // ------------------------------------------------- keys do not run together

  const INVERSE: nat := 3645876429

  /** The multiplier can be undone, modulo 2^32. */
  lemma MultiplierInverse(x: int, y: int)
    requires (x * MULTIPLIER + 1) % U32 == (y * MULTIPLIER + 1) % U32
    ensures x % U32 == y % U32
  {
    var d, e := (x * MULTIPLIER + 1) / U32 - (y * MULTIPLIER + 1) / U32, x - y;
    assert e * MULTIPLIER == U32 * d;
    Inverted(e, d);
    ModUnique(x, U32, y / U32 + (d * INVERSE - e * 114407381), y % U32);
  }

  lemma Inverted(e: int, d: int)
    requires e * MULTIPLIER == U32 * d
    ensures e == U32 * (d * INVERSE - e * 114407381)
  {
    assert MULTIPLIER * INVERSE == U32 * 114407381 + 1;
    assert (e * MULTIPLIER) * INVERSE == (U32 * d) * INVERSE;
    assert (e * MULTIPLIER) * INVERSE == e * (MULTIPLIER * INVERSE);
  }

  /** The middle key as a number of its 32 bits. */
  ghost predicate Narrow(k: Keys)
  {
    k.k1 < U32
  }

  lemma MiddleInjective(x: nat, y: nat, low: byte)
    requires x < U32 && y < U32 && NextMiddle(x, low, U32) == NextMiddle(y, low, U32)
    ensures x == y
  {
    MultiplierInverse(x + low, y + low);
    var d := (x + low) / U32 - (y + low) / U32;
    assert x - y == U32 * d;
  }

  /** One step from different keys by the same byte, or from the same keys by different
      bytes, leads to different keys. */
  lemma UpdateInjective(k: Keys, l: Keys, b: byte, v: byte)
    requires Narrow(k) && Narrow(l) && Update(k, b, U32) == Update(l, v, U32)
    ensures k == l <==> b == v
  {
    hide Step, NextMiddle, ShiftByte, Xor;
    StepInjective(k.k0, l.k0, b, v);
    if b == v {
      XorCancel(k.k0, l.k0, b);
      var low := Step(k.k0, b) % 256;
      MiddleInjective(k.k1, l.k1, low);
      var s := ShiftByte(NextMiddle(k.k1, low, U32));
      StepInjective(k.k2, l.k2, s, s);
      XorCancel(k.k2, l.k2, s);
    } else if k == l {
      XorComm(k.k0, b);
      XorComm(k.k0, v);
      XorCancel(b, v, k.k0);
      assert false;
    }
  }

  lemma StaysNarrow(k: Keys, b: byte)
    ensures Narrow(Update(k, b, U32))
  {
    hide Step;
  }

  /** Two different states of the keys never meet, whatever is encoded from then on. */
  lemma {:induction false} KeysKeepApart(k: Keys, l: Keys, s: seq<byte>)
    requires Narrow(k) && Narrow(l) && KeysAfter(k, s, U32) == KeysAfter(l, s, U32)
    ensures k == l
  {
    hide Update;
    if s != [] {
      var front, b := s[..|s| - 1], s[|s| - 1];
      NarrowAfter(k, front);
      NarrowAfter(l, front);
      UpdateInjective(KeysAfter(k, front, U32), KeysAfter(l, front, U32), b, b);
      KeysKeepApart(k, l, front);
    }
  }

  lemma NarrowAfter(k: Keys, s: seq<byte>)
    requires Narrow(k)
    ensures Narrow(KeysAfter(k, s, U32))
  {
    hide Update;
    if s != [] {
      StaysNarrow(KeysAfter(k, s[..|s| - 1], U32), s[|s| - 1]);
    }
  }

  /** Passwords that differ in one byte give different keys. */
  lemma PasswordsApart(p: seq<byte>, b: byte, v: byte, q: seq<byte>)
    requires b != v
    ensures InitKeys(p + [b] + q) != InitKeys(p + [v] + q)
  {
    hide Update, KeysAfter, Encrypt;
    var start := Keys(305419896, 591751049, 878082192);
    var k := KeysAfter(start, p, U32);
    NarrowAfter(start, p);
    EncryptSnoc(start, p, b, U32);
    EncryptSnoc(start, p, v, U32);
    EncryptAppend(start, p + [b], q, U32);
    EncryptAppend(start, p + [v], q, U32);
    StaysNarrow(k, b);
    StaysNarrow(k, v);
    if InitKeys(p + [b] + q) == InitKeys(p + [v] + q) {
      KeysKeepApart(Update(k, b, U32), Update(k, v, U32), q);
      UpdateInjective(k, k, b, v);
      assert false;
    }
  }
}
