/** Traditional zip encryption (section 6.1 of APPNOTE.TXT). */
module Cipher {
  import opened Bytes
  import opened Checksum

  type word = w: nat | w < 0x1_0000_0000

  /** The key array; the middle key is a number modulo the width of its C type. */
  datatype Keys = Keys(k0: word, k1: nat, k2: word)

  const MULTIPLIER: nat := 134775813

  /** The next byte of the key stream; only the low 16 bits of the key count. */
  function DecryptByte(k2: word): byte
  {
    var low := k2 % 0x1_0000;
    var temp := if low / 2 % 2 == 1 then low else low + 2;
    var other := if temp % 2 == 0 then temp + 1 else temp - 1;
    temp * other / 256 % 256
  }

  /** The middle key, with the wrap-around of its type. */
  function NextMiddle(k1: nat, low: byte, modulus: nat): nat
    requires modulus > 0
  {
    ((k1 + low) * MULTIPLIER + 1) % modulus
  }

  /** The low byte of (int)(k1 >> 24), the only one the macro observes. */
  function ShiftByte(k1: nat): byte
  {
    k1 / 0x100_0000 % 256
  }

  /** update_keys, with an unsigned long of the given modulus. */
  function Update(k: Keys, c: byte, modulus: nat): Keys
    requires modulus > 0
  {
    var k0 := Step(k.k0, c);
    var k1 := NextMiddle(k.k1, k0 % 256, modulus);
    Keys(k0, k1, Step(k.k2, ShiftByte(k1)))
  }

  /** zencode and zdecode mask one byte with the key stream. */
  function Mask(c: byte, k: Keys): byte
  {
    ByteBound(c, DecryptByte(k.k2));
    Xor(c, DecryptByte(k.k2))
  }

  lemma MaskTwice(c: byte, k: Keys)
    ensures Mask(Mask(c, k), k) == c
  {
    hide DecryptByte;
    XorTwice(c, DecryptByte(k.k2));
  }

  /** The keys after the plain bytes s. */
  function KeysAfter(k: Keys, s: seq<byte>, modulus: nat): Keys
    requires modulus > 0
  {
    if s == [] then k else Update(KeysAfter(k, s[..|s| - 1], modulus), s[|s| - 1], modulus)
  }

  function Encrypt(k: Keys, s: seq<byte>, modulus: nat): (e: seq<byte>)
    requires modulus > 0
    ensures |e| == |s|
  {
    if s == [] then []
    else Encrypt(k, s[..|s| - 1], modulus) + [Mask(s[|s| - 1], KeysAfter(k, s[..|s| - 1], modulus))]
  }

  /** zdecode over a whole string: the decoded bytes drive the keys. */
  function Decrypt(k: Keys, e: seq<byte>, modulus: nat): (s: seq<byte>)
    requires modulus > 0
    ensures |s| == |e|
  {
    if e == [] then []
    else
      var s := Decrypt(k, e[..|e| - 1], modulus);
      s + [Mask(e[|e| - 1], KeysAfter(k, s, modulus))]
  }

  lemma EncryptSnoc(k: Keys, s: seq<byte>, c: byte, m: nat)
    requires m > 0
    ensures KeysAfter(k, s + [c], m) == Update(KeysAfter(k, s, m), c, m)
    ensures Encrypt(k, s + [c], m) == Encrypt(k, s, m) + [Mask(c, KeysAfter(k, s, m))]
  {
  }

  /** Cutting the input into pieces does not change the ciphertext. */
  lemma {:induction false} EncryptAppend(k: Keys, s: seq<byte>, t: seq<byte>, m: nat)
    requires m > 0
    ensures KeysAfter(k, s + t, m) == KeysAfter(KeysAfter(k, s, m), t, m)
    ensures Encrypt(k, s + t, m) == Encrypt(k, s, m) + Encrypt(KeysAfter(k, s, m), t, m)
  {
    hide Mask, Update;
    if t == [] {
      assert s + t == s;
    } else {
      hide Encrypt, KeysAfter;
      var t', c := t[..|t| - 1], t[|t| - 1];
      EncryptAppend(k, s, t', m);
      EncryptSnoc(k, s + t', c, m);
      EncryptSnoc(KeysAfter(k, s, m), t', c, m);
      assert t == t' + [c] && s + t == (s + t') + [c];
    }
  }

  /** Decoding an encoded string returns it, and leaves both sides with the same keys. */
  lemma {:induction false} Lockstep(k: Keys, s: seq<byte>, m: nat)
    requires m > 0
    ensures Decrypt(k, Encrypt(k, s, m), m) == s
    ensures KeysAfter(k, Decrypt(k, Encrypt(k, s, m), m), m) == KeysAfter(k, s, m)
  {
    hide Mask, Update;
    if s != [] {
      var s' := s[..|s| - 1];
      Lockstep(k, s', m);
      MaskTwice(s[|s| - 1], KeysAfter(k, s', m));
      assert Encrypt(k, s, m)[..|s| - 1] == Encrypt(k, s', m);
      assert s == s' + [s[|s| - 1]];
    }
  }

  /** And the other way round: every string is the encoding of its decoding. */
  lemma {:induction false} LockstepBack(k: Keys, e: seq<byte>, m: nat)
    requires m > 0
    ensures Encrypt(k, Decrypt(k, e, m), m) == e
  {
    hide Mask, Update;
    if e != [] {
      var e' := e[..|e| - 1];
      LockstepBack(k, e', m);
      MaskTwice(e[|e| - 1], KeysAfter(k, Decrypt(k, e', m), m));
      assert Decrypt(k, e, m)[..|e| - 1] == Decrypt(k, e', m);
      assert e == e' + [e[|e| - 1]];
    }
  }

  /** init_keys: the initial keys, then every byte of the password. */
  function InitKeys(password: seq<byte>): Keys
  {
    KeysAfter(Keys(305419896, 591751049, 878082192), password, U32)
  }

  /** The byte loops of the flush and of the encryption head. */
  method EncodeAll(keys: Keys, s: seq<byte>) returns (e: seq<byte>, k: Keys)
    ensures e == Encrypt(keys, s, U32) && k == KeysAfter(keys, s, U32)
  {
    hide Mask, Update;
    e, k := [], keys;
    for i := 0 to |s|
      invariant e == Encrypt(keys, s[..i], U32) && k == KeysAfter(keys, s[..i], U32)
    {
      assert s[..i + 1][..i] == s[..i];
      e := e + [Mask(s[i], k)];
      k := Update(k, s[i], U32);
    }
    assert s[..|s|] == s;
  }

  const HEAD: nat := 12

  /** The two high bytes of a checksum, by which a reader tests the password. */
  function CheckBytes(crc: word): seq<byte>
  {
    [crc / 0x1_0000 % 256, crc / 0x100_0000 % 256]
  }

  /** crypthead: ten random bytes, encoded twice from the initial keys, then the two
      high bytes of the checksum. */
  method CryptHead(password: seq<byte>, random: seq<byte>, crc: word) returns (buf: seq<byte>, k: Keys)
    requires |random| == HEAD - 2
    ensures |buf| == 12
    ensures var start := InitKeys(password);
      && k == KeysAfter(start, Decrypt(start, buf, U32), U32)
      && Decrypt(start, buf, U32)[10..] == CheckBytes(crc) == [crc / 0x1_0000 % 256, crc / 0x100_0000 % 256]
      && Decrypt(start, buf, U32)[..10] == Encrypt(start, random, U32)
  {
    var start := InitKeys(password);
    var header, _ := EncodeAll(start, random);
    var plain := header + CheckBytes(crc);
    buf, k := EncodeAll(start, plain);
    Lockstep(start, plain, U32);
  }

  /** What a reader with the password gets out of an encrypted entry, whose bytes are
      a head and the input encoded with the keys the head leaves: the decoded head,
      then the input. */
  lemma EntryDecrypts(password: seq<byte>, head: seq<byte>, input: seq<byte>)
    ensures var start := InitKeys(password);
      var plain := Decrypt(start, head, U32);
      Decrypt(start, head + Encrypt(KeysAfter(start, plain, U32), input, U32), U32) == plain + input
  {
    hide Encrypt, KeysAfter, Decrypt;
    var start := InitKeys(password);
    var plain := Decrypt(start, head, U32);
    LockstepBack(start, head, U32);
    EncryptAppend(start, plain, input, U32);
    Lockstep(start, plain + input, U32);
  }

  // ------------------------------------------------- 64 against 32 bits of width

  /** The outer keys agree exactly, the middle ones modulo 2^32. */
  ghost predicate Agree(w: Keys, k: Keys)
  {
    w.k0 == k.k0 && w.k1 % U32 == k.k1 % U32 && w.k2 == k.k2
  }

  lemma ModOfMod(x: int, m: nat, n: nat)
    requires m > 0 && n > 0
    ensures m * n > 0 && x % (m * n) % m == x % m
  {
    var q, r := x / (m * n), x % (m * n);
    assert x == m * (n * q + r / m) + r % m by {
      assert (m * n) * q == m * (n * q);
    }
    ModUnique(x, m, n * q + r / m, r % m);
  }

  lemma MiddleAgrees(a: nat, b: nat, v: byte)
    requires a % U32 == b % U32
    ensures NextMiddle(a, v, U64) % U32 == NextMiddle(b, v, U32) % U32
  {
    var x, y := (a + v) * MULTIPLIER + 1, (b + v) * MULTIPLIER + 1;
    ModOfMod(x, U32, U32);
    var d := a / U32 - b / U32;
    assert a - b == U32 * d;
    assert x == y + U32 * (d * MULTIPLIER);
    ModUnique(x, U32, y / U32 + d * MULTIPLIER, y % U32);
  }

  /** The shifted byte lies within the low 32 bits. */
  lemma ShiftByteLow(a: nat)
    ensures ShiftByte(a) == a % U32 / 0x100_0000
  {
    var h, l := a / U32, a % U32;
    var q, r := l / 0x100_0000, l % 0x100_0000;
    assert a == 0x100_0000 * (256 * h + q) + r;
    DivUnique(a, 0x100_0000, 256 * h + q, r);
    ModUnique(256 * h + q, 256, h, q);
  }

  /** With a 64-bit unsigned long the middle key is wider, but the cipher produces
      the same bytes. */
  lemma {:induction false} WidthIndependent(w: Keys, k: Keys, s: seq<byte>)
    requires Agree(w, k)
    ensures Agree(KeysAfter(w, s, U64), KeysAfter(k, s, U32))
    ensures Encrypt(w, s, U64) == Encrypt(k, s, U32)
  {
    if s != [] {
      var s' := s[..|s| - 1];
      WidthIndependent(w, k, s');
      var w', k' := KeysAfter(w, s', U64), KeysAfter(k, s', U32);
      MiddleAgrees(w'.k1, k'.k1, Step(k'.k0, s[|s| - 1]) % 256);
      ShiftByteLow(KeysAfter(w, s, U64).k1);
      ShiftByteLow(KeysAfter(k, s, U32).k1);
    }
  }
}
