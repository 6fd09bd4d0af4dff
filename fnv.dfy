/**
 * ihash (src/mapreduce/common_map.go): the 32-bit FNV-1a hash of the key's
 * bytes, as Go's hash/fnv computes it (section 2 of the IETF draft "The FNV
 * Non-Cryptographic Hash Algorithm"), masked to 31 bits.
 *
 * The uint32 state is an int in [0, 2^32); the wrap-around of the uint32
 * multiplication is written out as "mod 2^32", and the mask 0x7fffffff, which
 * clears bit 31 of a 32-bit value, as "mod 2^31".
 */
module Fnv {
  import opened Common

  const TwoTo32: int := 0x1_0000_0000
  const TwoTo31: int := 0x8000_0000

  /** A uint32 value. */
  type Word = h: int | 0 <= h < TwoTo32

  /** The 32-bit offset basis, 2166136261. */
  const OffsetBasis: Word := 0x811c9dc5
  /** The 32-bit FNV prime, 16777619. */
  const Prime: int := 0x0100_0193

  /** Bitwise exclusive or of the low `width` bits of x and y. */
  function XorBits(x: nat, y: nat, width: nat): nat {
    if width == 0 then 0 else (x + y) % 2 + 2 * XorBits(x / 2, y / 2, width - 1)
  }

  function Pow2(n: nat): (p: nat)
    ensures p >= 1
  {
    if n == 0 then 1 else 2 * Pow2(n - 1)
  }

  /**
   * h ^ uint32(b): a byte only reaches the low 8 bits, so the high 24 bits of
   * h are kept and the low 8 are exclusive-or'ed with b.
   */
  function XorByte(h: Word, b: byte): Word {
    var high, low := h / 256, h % 256;
    var mixed := XorBits(low, b as int, 8);
    LowByteBounds(h, low, b as int);
    high * 256 + mixed
  }

  /** Replacing the low byte of a word by an 8-bit value gives a word. */
  lemma LowByteBounds(h: Word, low: nat, b: nat)
    requires low == h % 256 && b < 256
    ensures h / 256 < 0x100_0000
    ensures XorBits(low, b, 8) < 256
    ensures (h / 256) * 256 + XorBits(low, b, 8) < TwoTo32
  {
    XorBitsBound(low, b, 8);
    assert Pow2(8) == 256 by {
      assert Pow2(4) == 16;
    }
    var high := h / 256;
    assert high * 256 <= h;
  }

  lemma {:induction false} XorBitsBound(x: nat, y: nat, width: nat)
    ensures XorBits(x, y, width) < Pow2(width)
  {
    if width > 0 {
      XorBitsBound(x / 2, y / 2, width - 1);
    }
  }

  /** One FNV-1a round: XOR the byte in, then multiply by the prime mod 2^32. */
  function Step(h: Word, b: byte): Word {
    (XorByte(h, b) * Prime) % TwoTo32
  }

  /** The state after writing the bytes of s, in order, to a hash in state h. */
  function Absorb(h: Word, s: Bytes): Word
    decreases |s|
  {
    if |s| == 0 then h else Absorb(Step(h, s[0]), s[1..])
  }

  /** fnv.New32a() followed by Write(s) and Sum32(). */
  function Fnv1a(s: Bytes): Word {
    Absorb(OffsetBasis, s)
  }

  /** ihash: the hash with bit 31 cleared (& 0x7fffffff), as a non-negative int. */
  function IHash(s: Bytes): (r: int)
    ensures 0 <= r < TwoTo31
  {
    Fnv1a(s) % TwoTo31
  }

  /** Writing a key in two pieces gives the same state as writing it at once. */
  lemma {:induction false} AbsorbAppend(h: Word, a: Bytes, b: Bytes)
    ensures Absorb(h, a + b) == Absorb(Absorb(h, a), b)
    decreases |a|
  {
    if |a| == 0 {
      assert a + b == b;
    } else {
      assert (a + b)[0] == a[0];
      assert (a + b)[1..] == a[1..] + b;
      AbsorbAppend(Step(h, a[0]), a[1..], b);
    }
  }

  /** The hash of a key extended by one byte is one more round on the key's hash. */
  lemma Fnv1aSnoc(s: Bytes, b: byte)
    ensures Fnv1a(s + [b]) == Step(Fnv1a(s), b)
  {
    AbsorbAppend(OffsetBasis, s, [b]);
    assert Absorb(Fnv1a(s), [b]) == Absorb(Step(Fnv1a(s), b), []);
  }

  /** The exclusive or 0xc5 ^ 0x61 == 0xa4, bit by bit from the top call down. */
  lemma XorKnownAnswer()
    ensures XorBits(0xc5, 0x61, 8) == 0xa4
  {
    assert XorBits(0, 0, 0) == 0;
    assert XorBits(1, 0, 1) == 1;
    assert XorBits(3, 1, 2) == 2;
    assert XorBits(6, 3, 3) == 5;
    assert XorBits(12, 6, 4) == 10;
    assert XorBits(24, 12, 5) == 20;
    assert XorBits(49, 24, 6) == 41;
    assert XorBits(98, 48, 7) == 82;
  }

  /** The exclusive or 0x2c ^ 0x62 == 0x4e, bit by bit from the top call down. */
  lemma XorSecondKnownAnswer()
    ensures XorBits(0x2c, 0x62, 8) == 0x4e
  {
    assert XorBits(0, 0, 0) == 0;
    assert XorBits(0, 0, 1) == 0;
    assert XorBits(0, 1, 2) == 1;
    assert XorBits(1, 3, 3) == 2;
    assert XorBits(2, 6, 4) == 4;
    assert XorBits(5, 12, 5) == 9;
    assert XorBits(11, 24, 6) == 19;
    assert XorBits(22, 49, 7) == 39;
  }

  /**
   * Known answers of 32-bit FNV-1a and of ihash for the keys "", "a" and "ab";
   * "ab" fixes the order in which bytes are absorbed ("ba" hashes to 0x3c2ba6cc).
   */
  lemma KnownAnswers()
    ensures Fnv1a([]) == 0x811c9dc5 && IHash([]) == 0x011c9dc5
    ensures Fnv1a([0x61]) == 0xe40c292c && IHash([0x61]) == 0x640c292c
    ensures Fnv1a([0x61, 0x62]) == 0x4d2505ca && IHash([0x61, 0x62]) == 0x4d2505ca
  {
    XorKnownAnswer();
    assert OffsetBasis / 256 == 0x811c9d;
    assert OffsetBasis % 256 == 0xc5;
    var a: byte := 0x61;
    assert a as int == 0x61;
    assert XorByte(OffsetBasis, a) == 0x811c9da4;
    assert 0x811c9da4 * Prime == 0x811c9da4 * 0x0100_0193;
    assert Step(OffsetBasis, a) == 0xe40c292c;
    var s: Bytes := [a];
    assert Absorb(OffsetBasis, s) == Absorb(0xe40c292c, s[1..]);
    assert s[1..] == [];
    XorSecondKnownAnswer();
    var b: byte := 0x62;
    assert b as int == 0x62;
    assert 0xe40c292c / 256 == 0xe40c29;
    assert 0xe40c292c % 256 == 0x2c;
    assert XorByte(0xe40c292c, b) == 0xe40c294e;
    assert 0xe40c294e * Prime == 0xe40c294e * 0x0100_0193;
    assert Step(0xe40c292c, b) == 0x4d2505ca;
    var ab: Bytes := [a, b];
    Fnv1aSnoc(s, b);
    assert ab == s + [b];
  }
}
