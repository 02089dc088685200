/** What the checksum and the step it shares with the cipher compute: exclusive or bit by
    bit, the table step as eight divisions by the generator polynomial, a known value, and
    that no change of a single byte goes unnoticed. */
module ChecksumLaws {
  import opened Bytes
  import opened Checksum

  /** Bit i of x. */
  function Bit(x: nat, i: nat): nat
  {
    if i == 0 then x % 2 else Bit(x / 2, i - 1)
  }

  lemma {:induction false} XorBitwise(a: nat, b: nat, i: nat)
    ensures Bit(Xor(a, b), i) == (Bit(a, i) + Bit(b, i)) % 2
  {
    hide Xor;
    XorBits(a, b);
    if i > 0 {
      XorBitwise(a / 2, b / 2, i - 1);
    }
  }

  /** Numbers of n bits are known by their bits. */
  lemma {:induction false} SameBits(a: nat, b: nat, n: nat)
    requires a < Pow2(n) && b < Pow2(n) && forall i: nat | i < n :: Bit(a, i) == Bit(b, i)
    ensures a == b
  {
    if n > 0 {
      assert Bit(a, 0) == Bit(b, 0);
      forall i: nat | i < n - 1
        ensures Bit(a / 2, i) == Bit(b / 2, i)
      {
        assert Bit(a, i + 1) == Bit(b, i + 1);
      }
      SameBits(a / 2, b / 2, n - 1);
    }
  }

  // ---------------------------------------------------------- laws of exclusive or

  lemma {:induction false} XorComm(a: nat, b: nat)
    ensures Xor(a, b) == Xor(b, a)
  {
    if a != 0 && b != 0 {
      XorComm(a / 2, b / 2);
    }
  }

  lemma Halves(x: nat, y: nat)
    requires x % 2 == y % 2 && x / 2 == y / 2
    ensures x == y
  {
  }

  lemma {:induction false} XorAssoc(a: nat, b: nat, c: nat)
    ensures Xor(Xor(a, b), c) == Xor(a, Xor(b, c))
    decreases a + b + c
  {
    if a != 0 && b != 0 && c != 0 {
      hide Xor;
      var p, q := Xor(a, b), Xor(b, c);
      XorAssoc(a / 2, b / 2, c / 2);
      XorBits(a, b);
      XorBits(b, c);
      XorBits(p, c);
      XorBits(a, q);
      ThreeBits(a, b, c, p, q);
      Halves(Xor(p, c), Xor(a, q));
    }
  }

  lemma ThreeBits(a: nat, b: nat, c: nat, p: nat, q: nat)
    requires p % 2 == (a + b) % 2 && q % 2 == (b + c) % 2
    ensures (p + c) % 2 == (a + q) % 2
  {
  }

  /** The same number on one side can be dropped. */
  lemma XorCancel(a: nat, b: nat, c: nat)
    requires Xor(a, c) == Xor(b, c)
    ensures a == b
  {
    hide Xor;
    XorTwice(a, c);
    XorTwice(b, c);
  }

  // --------------------------------------------------- division by the polynomial

  const POLYNOMIAL: nat := 0xedb8_8320

  /** One step of the division. */
  function Half(x: nat): (r: nat)
    requires x < U32
    ensures r < U32
  {
    WordBound(x / 2, POLYNOMIAL);
    if x % 2 == 1 then Xor(x / 2, POLYNOMIAL) else x / 2
  }

  lemma ShiftNext(x: nat, n: nat)
    requires x < U32 && n > 0
    ensures Shift(x, n) == Shift(Half(x), n - 1)
  {
    hide Xor;
  }

  /** Four terms in pairs. */
  lemma XorPairs(a: nat, b: nat, c: nat, d: nat)
    ensures Xor(Xor(a, b), Xor(c, d)) == Xor(Xor(a, c), Xor(b, d))
  {
    hide Xor;
    XorAssoc(a, b, Xor(c, d));
    XorAssoc(b, c, d);
    XorComm(b, c);
    XorAssoc(c, b, d);
    XorAssoc(a, c, Xor(b, d));
  }

  lemma HalfLinear(a: nat, b: nat)
    requires a < U32 && b < U32
    ensures Xor(a, b) < U32 && Half(Xor(a, b)) == Xor(Half(a), Half(b))
  {
    hide Xor;
    var p := POLYNOMIAL;
    WordBound(a, b);
    XorBits(a, b);
    var x, y := a / 2, b / 2;
    if a % 2 == 1 && b % 2 == 1 {
      XorPairs(x, p, y, p);
      XorSelf(p);
      XorZero(Xor(x, y));
    } else if a % 2 == 1 {
      XorAssoc(x, p, y);
      XorComm(p, y);
      XorAssoc(x, y, p);
    } else if b % 2 == 1 {
      XorAssoc(x, y, p);
    }
  }

  lemma XorZero(a: nat)
    ensures Xor(a, 0) == a && Xor(0, a) == a
  {
  }

  lemma {:induction false} ShiftLinear(a: nat, b: nat, n: nat)
    requires a < U32 && b < U32
    ensures Xor(a, b) < U32 && Shift(Xor(a, b), n) == Xor(Shift(a, n), Shift(b, n))
    decreases n
  {
    hide Xor, Half;
    WordBound(a, b);
    if n == 0 {
      NoShift(a);
      NoShift(b);
      NoShift(Xor(a, b));
    } else {
      hide Shift;
      ShiftNext(a, n);
      ShiftNext(b, n);
      ShiftNext(Xor(a, b), n);
      HalfLinear(a, b);
      ShiftLinear(Half(a), Half(b), n - 1);
    }
  }

  lemma NoShift(x: nat)
    requires x < U32
    ensures Shift(x, 0) == x
  {
  }

  /** Zero bits are just shifted out. */
  lemma {:induction false} ShiftZeros(h: nat, n: nat)
    requires h * Pow2(n) < U32
    ensures Shift(h * Pow2(n), n) == h
    decreases n
  {
    if n > 0 {
      PowDoubles(0, h, n);
      ShiftZeros(h, n - 1);
      hide Pow2;
      ShiftEven(h * Pow2(n - 1), n);
    } else {
      NoShift(h);
    }
  }

  lemma ShiftEven(y: nat, n: nat)
    requires 2 * y < U32 && n > 0
    ensures Shift(2 * y, n) == Shift(y, n - 1)
  {
    hide Xor;
    assert 2 * y % 2 == 0 && 2 * y / 2 == y;
  }

  lemma {:induction false} XorSplit(lo: nat, h: nat, n: nat)
    requires lo < Pow2(n)
    ensures Xor(lo, h * Pow2(n)) == lo + h * Pow2(n)
    decreases n
  {
    if n > 0 {
      var x, y := h * Pow2(n), h * Pow2(n - 1);
      PowDoubles(lo, h, n);
      XorSplit(lo / 2, h, n - 1);
      hide Xor, Pow2;
      EvenAdds(lo, x, y);
    }
  }

  lemma PowDoubles(lo: nat, h: nat, n: nat)
    requires n > 0 && lo < Pow2(n)
    ensures lo / 2 < Pow2(n - 1) && h * Pow2(n) == 2 * (h * Pow2(n - 1))
  {
  }

  lemma EvenAdds(lo: nat, x: nat, y: nat)
    requires x == 2 * y && Xor(lo / 2, y) == lo / 2 + y
    ensures Xor(lo, x) == lo + x
  {
    XorBits(lo, x);
    hide Xor;
    assert x / 2 == y && (lo + x) % 2 == lo % 2;
    Halves(Xor(lo, x), lo + x);
  }

  /** The table step is eight steps of the division. */
  lemma StepIsShift(c: nat, b: byte)
    requires c < U32
    ensures Xor(c, b) < U32 && Step(c, b) == Shift(Xor(c, b), 8)
  {
    hide Xor, Shift;
    var lo, h := c % 256, c / 256;
    ByteBound(lo, b);
    LowByte(c, b);
    ShiftLinear(Xor(lo, b), 256 * h, 8);
    HighBytes(h);
  }

  lemma LowByte(c: nat, b: byte)
    ensures Xor(c, b) == Xor(Xor(c % 256, b), 256 * (c / 256))
  {
    hide Xor;
    var lo, h := c % 256, 256 * (c / 256);
    PowByte();
    XorSplit(lo, c / 256, 8);
    XorComm(lo, h);
    XorAssoc(h, lo, b);
    XorComm(h, Xor(lo, b));
  }

  lemma HighBytes(h: nat)
    requires 256 * h < U32
    ensures Shift(256 * h, 8) == h
  {
    PowByte();
    ShiftZeros(h, 8);
  }

  // ------------------------------------------------------- what a change does

  /** x without its n low bits. */
  function Top(x: nat, n: nat): nat
  {
    if n == 0 then x else Top(x / 2, n - 1)
  }

  lemma {:induction false} XorTop(a: nat, b: nat, n: nat)
    ensures Top(Xor(a, b), n) == Xor(Top(a, n), Top(b, n))
  {
    hide Xor;
    if n > 0 {
      XorBits(a, b);
      XorTop(a / 2, b / 2, n - 1);
    }
  }

  lemma {:induction false} TopDiv(x: nat, n: nat)
    ensures Top(x, n) == x / Pow2(n)
  {
    if n > 0 {
      TopDiv(x / 2, n - 1);
      DivTwice(x, Pow2(n - 1));
    }
  }

  lemma DivTwice(x: nat, m: nat)
    requires m > 0
    ensures x / (2 * m) == x / 2 / m
  {
    var q, r := x / 2 / m, x / 2 % m;
    assert x == 2 * (m * q + r) + x % 2;
    assert 2 * (m * q) == (2 * m) * q;
    DivUnique(x, 2 * m, q, 2 * r + x % 2);
  }

  /** The top bit tells whether the polynomial was subtracted. */
  lemma HalfTop(x: nat)
    requires x < U32
    ensures Half(x) / 0x8000_0000 == x % 2
  {
    hide Xor, Top;
    PowTop();
    if x % 2 == 1 {
      var y := x / 2;
      XorTop(y, POLYNOMIAL, 31);
      TopDiv(y, 31);
      TopDiv(POLYNOMIAL, 31);
      TopDiv(Xor(y, POLYNOMIAL), 31);
      XorZero(1);
    }
  }

  lemma PowTop()
    ensures Pow2(31) == 0x8000_0000
  {
    PowWord();
  }

  lemma HalfInjective(x: nat, y: nat)
    requires x < U32 && y < U32 && Half(x) == Half(y)
    ensures x == y
  {
    hide Xor;
    HalfTop(x);
    HalfTop(y);
    if x % 2 == 1 {
      XorCancel(x / 2, y / 2, POLYNOMIAL);
    }
  }

  lemma {:induction false} ShiftInjective(x: nat, y: nat, n: nat)
    requires x < U32 && y < U32 && Shift(x, n) == Shift(y, n)
    ensures x == y
    decreases n
  {
    hide Xor, Half;
    if n > 0 {
      ShiftNext(x, n);
      ShiftNext(y, n);
      ShiftInjective(Half(x), Half(y), n - 1);
      HalfInjective(x, y);
    }
  }

  lemma StepInjective(c: nat, d: nat, b: byte, v: byte)
    requires c < U32 && d < U32 && Step(c, b) == Step(d, v)
    ensures Xor(c, b) == Xor(d, v)
  {
    hide Xor, Shift, Step;
    StepIsShift(c, b);
    StepIsShift(d, v);
    ShiftInjective(Xor(c, b), Xor(d, v), 8);
  }

  /** From different checksums, or by different bytes, to different ones. */
  lemma CrcByteInjective(c: nat, d: nat, b: byte, v: byte)
    requires c < U32 && d < U32 && CrcByte(c, b) == CrcByte(d, v)
    ensures c == d <==> b == v
  {
    hide Xor, Step;
    var x, y := Xor(c, SENTINEL), Xor(d, SENTINEL);
    WordBound(c, SENTINEL);
    WordBound(d, SENTINEL);
    XorCancel(Step(x, b), Step(y, v), SENTINEL);
    StepInjective(x, y, b, v);
    if b == v {
      XorCancel(x, y, b);
      XorCancel(c, d, SENTINEL);
    } else if c == d {
      XorComm(x, b);
      XorComm(x, v);
      XorCancel(b, v, x);
      assert false;
    }
  }

  lemma {:induction false} CrcKeepsApart(c: nat, d: nat, s: seq<byte>)
    requires c < U32 && d < U32 && Crc(c, s) == Crc(d, s)
    ensures c == d
  {
    hide CrcByte;
    if s != [] {
      var front, b := s[..|s| - 1], s[|s| - 1];
      CrcByteInjective(Crc(c, front), Crc(d, front), b, b);
      CrcKeepsApart(c, d, front);
    }
  }

  /** Whatever stands around it, a changed byte changes the checksum. */
  lemma ChangeDetected(c: nat, s: seq<byte>, b: byte, v: byte, t: seq<byte>)
    requires c < U32 && b != v
    ensures Crc(c, s + [b] + t) != Crc(c, s + [v] + t)
  {
    hide CrcByte, Crc;
    CrcAppend(c, s + [b], t);
    CrcAppend(c, s + [v], t);
    CrcSnoc(c, s, b);
    CrcSnoc(c, s, v);
    if Crc(c, s + [b] + t) == Crc(c, s + [v] + t) {
      CrcKeepsApart(Crc(c, s + [b]), Crc(c, s + [v]), t);
      CrcByteInjective(Crc(c, s), Crc(c, s), b, v);
      assert false;
    }
  }

  lemma CrcSnoc(c: nat, s: seq<byte>, b: byte)
    requires c < U32
    ensures Crc(c, s + [b]) == CrcByte(Crc(c, s), b)
  {
    assert (s + [b])[..|s|] == s;
  }

  // ------------------------------------------------------------- known values

  lemma ModTwice(x: nat, m: nat)
    requires m > 0
    ensures x % (2 * m) == 2 * (x / 2 % m) + x % 2
  {
    var q, r := x / 2 / m, x / 2 % m;
    assert x == 2 * (m * q + r) + x % 2;
    assert 2 * (m * q) == (2 * m) * q;
    ModUnique(x, 2 * m, q, 2 * r + x % 2);
  }

  lemma XorNext(a: nat, b: nat)
    ensures Xor(a, b) == (a + b) % 2 + 2 * Xor(a / 2, b / 2)
  {
    hide Xor;
    XorBits(a, b);
  }

  /** The bits below m, a power of two, and the others go each for themselves. */
  ghost predicate Parted(a: nat, b: nat, m: nat)
  {
    m > 0 && Xor(a, b) == Xor(a % m, b % m) + m * Xor(a / m, b / m)
  }

  lemma PartedTwice(a: nat, b: nat, m: nat)
    requires Parted(a / 2, b / 2, m)
    ensures Parted(a, b, 2 * m)
  {
    hide Xor;
    var low, high := Xor(a / 2 % m, b / 2 % m), Xor(a / 2 / m, b / 2 / m);
    XorNext(a, b);
    LowerPart(a, b, m);
    DivTwice(a, m);
    DivTwice(b, m);
    assert 2 * (low + m * high) == 2 * low + (2 * m) * high;
  }

  lemma {:induction false} AllParted(a: nat, b: nat, n: nat)
    ensures Parted(a, b, Pow2(n))
  {
    hide Xor;
    if n == 0 {
      XorZero(0);
      assert a % 1 == 0 && b % 1 == 0 && a / 1 == a && b / 1 == b;
    } else {
      hide Parted;
      AllParted(a / 2, b / 2, n - 1);
      PartedTwice(a, b, Pow2(n - 1));
      assert Pow2(n) == 2 * Pow2(n - 1);
    }
  }

  lemma LowerPart(a: nat, b: nat, m: nat)
    requires m > 0
    ensures Xor(a % (2 * m), b % (2 * m)) == (a + b) % 2 + 2 * Xor(a / 2 % m, b / 2 % m)
  {
    hide Xor;
    var x, y := a % (2 * m), b % (2 * m);
    ModTwice(a, m);
    ModTwice(b, m);
    HalfBit(a / 2 % m, a % 2);
    HalfBit(b / 2 % m, b % 2);
    XorNext(x, y);
    SumParity(a, b, x, y);
  }

  lemma SumParity(a: nat, b: nat, x: nat, y: nat)
    requires a % 2 == x % 2 && b % 2 == y % 2
    ensures (a + b) % 2 == (x + y) % 2
  {
  }

  /** Four bits at a time. */
  lemma XorNibble(a: nat, b: nat)
    ensures Xor(a, b) == Xor(a % 16, b % 16) + 16 * Xor(a / 16, b / 16)
  {
    hide Xor;
    AllParted(a, b, 4);
    assert Pow2(4) == 16;
  }

  /** Inverting n bits. */
  lemma {:induction false} XorOnes(a: nat, n: nat)
    requires a < Pow2(n)
    ensures Xor(a, Pow2(n) - 1) == Pow2(n) - 1 - a
  {
    if n > 0 {
      var m := Pow2(n - 1);
      XorOnes(a / 2, n - 1);
      XorBits(a, 2 * m - 1);
      hide Xor;
      OnesHalved(m);
      OtherBit(a % 2, a / 2, m);
      Halves(Xor(a, 2 * m - 1), 2 * m - 1 - a);
    }
  }

  lemma OnesHalved(m: nat)
    requires m > 0
    ensures (2 * m - 1) / 2 == m - 1 && (2 * m - 1) % 2 == 1
  {
  }

  lemma OtherBit(bit: nat, h: nat, m: nat)
    requires bit < 2 && h < m
    ensures var a := 2 * h + bit;
      && a < 2 * m && (2 * m - 1 - a) / 2 == m - 1 - h
      && (2 * m - 1 - a) % 2 == (a + (2 * m - 1)) % 2
  {
  }

  lemma ShiftZero(n: nat)
    ensures Shift(0, n) == 0
  {
    ShiftZeros(0, n);
  }

  /** The table entries of single bits, as far as they are shifts of the polynomial. */
  lemma TableEntries()
    ensures Shift(0x80, 8) == 0xedb8_8320 && Shift(0x40, 8) == 0x76dc_4190 && Shift(0x20, 8) == 0x3b6e_20c8
    ensures Shift(0, 8) == 0
  {
    ShiftZero(8);
    PowByte();
    assert Pow2(7) == 0x80 && Pow2(6) == 0x40 && Pow2(5) == 0x20;
    ShiftSum(0x80, 7, 1);
    ShiftSum(0x40, 6, 2);
    ShiftSum(0x20, 5, 3);
    ShiftZeros(1, 7);
    ShiftZeros(1, 6);
    ShiftZeros(1, 5);
    OneShifted();
  }

  lemma {:induction false} ShiftSum(x: nat, m: nat, n: nat)
    requires x < U32
    ensures Shift(x, m + n) == Shift(Shift(x, m), n)
    decreases m
  {
    hide Xor, Half;
    if m > 0 {
      ShiftNext(x, m + n);
      ShiftNext(x, m);
      ShiftSum(Half(x), m - 1, n);
    }
  }

  lemma OneShifted()
    ensures Shift(1, 1) == 0xedb8_8320 && Shift(1, 2) == 0x76dc_4190 && Shift(1, 3) == 0x3b6e_20c8
  {
    hide Xor;
    XorZero(POLYNOMIAL);
    assert Half(1) == 0xedb8_8320 && Half(0xedb8_8320) == 0x76dc_4190 && Half(0x76dc_4190) == 0x3b6e_20c8;
    hide Shift;
    ShiftNext(1, 1);
    ShiftNext(1, 2);
    ShiftNext(1, 3);
    ShiftNext(0xedb8_8320, 1);
    ShiftNext(0xedb8_8320, 2);
    ShiftNext(0x76dc_4190, 1);
    NoShift(0xedb8_8320);
    NoShift(0x76dc_4190);
    NoShift(0x3b6e_20c8);
  }

  /** A byte equal to the low one of the register shifts the register. */
  lemma StepEqual(c: nat, b: byte)
    requires c < U32 && c % 256 == b
    ensures Step(c, b) == c / 256
  {
    hide Xor, Shift;
    XorSelf(b);
    ShiftZero(8);
    XorZero(c / 256);
  }

  /** The checksum with its register, which is kept inverted. */
  lemma CrcRegister(c: nat, s: seq<byte>, r: nat, b: byte)
    requires c < U32 && r < U32 && Crc(c, s) == Xor(r, SENTINEL)
    ensures Crc(c, s + [b]) == Xor(Step(r, b), SENTINEL)
  {
    hide Xor, Step, Crc;
    CrcSnoc(c, s, b);
    XorTwice(r, SENTINEL);
  }

  /** The checksums of four bytes 0xff, and of the same followed by 0x80. */
  lemma KnownChecksums()
    ensures Crc(0, [0xff, 0xff, 0xff, 0xff]) == 0xffff_ffff
    ensures Crc(0, [0xff, 0xff, 0xff, 0xff, 0x80]) == 0x1247_7cdf
  {
    hide Xor, Shift, Step, Crc;
    var one: seq<byte> := [0xff];
    XorSelf(SENTINEL);
    CrcEmpty(0);
    StepEqual(SENTINEL, 0xff);
    StepEqual(0xff_ffff, 0xff);
    StepEqual(0xffff, 0xff);
    StepEqual(0xff, 0xff);
    CrcRegister(0, [], SENTINEL, 0xff);
    CrcRegister(0, [] + one, 0xff_ffff, 0xff);
    CrcRegister(0, [] + one + one, 0xffff, 0xff);
    CrcRegister(0, [] + one + one + one, 0xff, 0xff);
    CrcRegister(0, [] + one + one + one + one, 0, 0x80);
    StepZero(0x80);
    TableEntries();
    PowWord();
    XorOnes(0, 32);
    XorOnes(POLYNOMIAL, 32);
    assert [] + one + one + one + one == [0xff, 0xff, 0xff, 0xff];
    assert [] + one + one + one + one + [0x80] == [0xff, 0xff, 0xff, 0xff, 0x80];
  }

  lemma CrcEmpty(c: nat)
    requires c < U32
    ensures Crc(c, []) == c
  {
  }

  lemma StepZero(b: byte)
    ensures Step(0, b) == Shift(b, 8)
  {
    hide Xor, Shift;
    XorZero(b);
    XorZero(Shift(b, 8));
  }
}
