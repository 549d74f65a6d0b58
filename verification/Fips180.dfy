/** The Secure Hash Standard, FIPS 180-4, restricted to SHA-256. This module is the
    reference the streaming hash of Sha256.dfy is proved against. It is written from the
    standard: section 4.1.2 (functions), 4.2.2 (constants), 5.1.1 (padding),
    5.3.3 (initial hash value) and 6.2.2 (hash computation). */
module Fips180 {
  type Byte = bv8
  type Word = bv32

  // Blocks are 64 bytes and digests 32. The sizes are written as numerals: the solver treats
  // remainders by a named constant as nonlinear.

  /** Addition modulo 2^32 (section 3.2). */
  function Add(x: Word, y: Word): Word { x + y }

  // Section 4.1.2.

  function Ch(x: Word, y: Word, z: Word): Word { (x & y) ^ (!x & z) }

  function Maj(x: Word, y: Word, z: Word): Word { (x & y) ^ (x & z) ^ (y & z) }

  function BigSigma0(x: Word): Word { x.RotateRight(2) ^ x.RotateRight(13) ^ x.RotateRight(22) }

  function BigSigma1(x: Word): Word { x.RotateRight(6) ^ x.RotateRight(11) ^ x.RotateRight(25) }

  function SmallSigma0(x: Word): Word { x.RotateRight(7) ^ x.RotateRight(18) ^ (x >> 3) }

  function SmallSigma1(x: Word): Word { x.RotateRight(17) ^ x.RotateRight(19) ^ (x >> 10) }

  // Section 4.2.2.

  /** The table of the round constants, row by row. */
  function KRow(r: nat): (row: seq<Word>)
    requires r < 8
    ensures |row| == 8
  {
    match r
    case 0 => [0x428a2f98, 0x71374491, 0xb5c0fbcf, 0xe9b5dba5, 0x3956c25b, 0x59f111f1, 0x923f82a4, 0xab1c5ed5]
    case 1 => [0xd807aa98, 0x12835b01, 0x243185be, 0x550c7dc3, 0x72be5d74, 0x80deb1fe, 0x9bdc06a7, 0xc19bf174]
    case 2 => [0xe49b69c1, 0xefbe4786, 0x0fc19dc6, 0x240ca1cc, 0x2de92c6f, 0x4a7484aa, 0x5cb0a9dc, 0x76f988da]
    case 3 => [0x983e5152, 0xa831c66d, 0xb00327c8, 0xbf597fc7, 0xc6e00bf3, 0xd5a79147, 0x06ca6351, 0x14292967]
    case 4 => [0x27b70a85, 0x2e1b2138, 0x4d2c6dfc, 0x53380d13, 0x650a7354, 0x766a0abb, 0x81c2c92e, 0x92722c85]
    case 5 => [0xa2bfe8a1, 0xa81a664b, 0xc24b8b70, 0xc76c51a3, 0xd192e819, 0xd6990624, 0xf40e3585, 0x106aa070]
    case 6 => [0x19a4c116, 0x1e376c08, 0x2748774c, 0x34b0bcb5, 0x391c0cb3, 0x4ed8aa4a, 0x5b9cca4f, 0x682e6ff3]
    case _ => [0x748f82ee, 0x78a5636f, 0x84c87814, 0x8cc70208, 0x90befffa, 0xa4506ceb, 0xbef9a3f7, 0xc67178f2]
  }

  function RoundConstant(t: nat): Word
    requires t < 64
  {
    KRow(t / 8)[t % 8]
  }

  // Section 5.3.3.

  const INITIAL_HASH: seq<Word> := [
    0x6a09e667, 0xbb67ae85, 0x3c6ef372, 0xa54ff53a, 0x510e527f, 0x9b05688c, 0x1f83d9ab, 0x5be0cd19]

  // Big-endian conversions (section 3.1).

  function WordToBytes(x: Word): (s: seq<Byte>)
    ensures |s| == 4
  {
    [((x >> 24) & 0xff) as Byte, ((x >> 16) & 0xff) as Byte, ((x >> 8) & 0xff) as Byte, (x & 0xff) as Byte]
  }

  function BytesToWord(s: seq<Byte>): Word
    requires |s| == 4
  {
    ((s[0] as Word) << 24) | ((s[1] as Word) << 16) | ((s[2] as Word) << 8) | (s[3] as Word)
  }

  /** The two conversions undo each other, in both directions. */
  lemma WordToBytesRoundTrip(x: Word)
    ensures BytesToWord(WordToBytes(x)) == x
  {}

  lemma BytesToWordRoundTrip(s: seq<Byte>)
    requires |s| == 4
    ensures WordToBytes(BytesToWord(s)) == s
  {}

  function WordsToBytes(ws: seq<Word>): (s: seq<Byte>)
    ensures |s| == 4 * |ws|
  {
    if ws == [] then [] else WordToBytes(ws[0]) + WordsToBytes(ws[1..])
  }

  lemma {:induction false} WordsToBytesAt(ws: seq<Word>)
    ensures forall i, k :: 0 <= i < |ws| && 0 <= k < 4 ==> WordsToBytes(ws)[4 * i + k] == WordToBytes(ws[i])[k]
  {
    if ws != [] {
      WordsToBytesAt(ws[1..]);
      forall i, k | 0 <= i < |ws| && 0 <= k < 4
        ensures WordsToBytes(ws)[4 * i + k] == WordToBytes(ws[i])[k]
      {
        if i > 0 {
          assert WordsToBytes(ws)[4 * i + k] == WordsToBytes(ws[1..])[4 * (i - 1) + k];
          assert ws[i] == ws[1..][i - 1];
        }
      }
    }
  }

  // A byte and the number it stands for, one four-bit half at a time.

  function ToByte(n: nat): Byte
    requires n < 256
  {
    ((n / 16) as bv4 as Byte << 4) | ((n % 16) as bv4 as Byte)
  }

  function FromByte(b: Byte): (n: nat)
    ensures n < 256
  {
    16 * ((b >> 4) as bv4 as nat) + ((b & 15) as bv4 as nat)
  }

  lemma HalfRoundTrip(n: nat)
    requires n < 16
    ensures (n as bv4) as nat == n
  {}

  lemma HalvesOfByte(high: bv4, low: bv4)
    ensures
      var b := (high as Byte << 4) | (low as Byte);
      (b >> 4) < 16 && (b >> 4) as bv4 == high && (b & 15) as bv4 == low
  {}

  lemma ByteRoundTrip(n: nat)
    requires n < 256
    ensures FromByte(ToByte(n)) == n
  {
    HalfRoundTrip(n / 16);
    HalfRoundTrip(n % 16);
    HalvesOfByte((n / 16) as bv4, (n % 16) as bv4);
  }

  /** A number as k bytes, most significant first. */
  function BigEndian(n: nat, k: nat): (s: seq<Byte>)
    ensures |s| == k
  {
    if k == 0 then [] else BigEndian(n / 256, k - 1) + [ToByte(n % 256)]
  }

  function BigEndianValue(s: seq<Byte>): nat {
    if s == [] then 0 else 256 * BigEndianValue(s[..|s| - 1]) + FromByte(s[|s| - 1])
  }

  function Pow256(k: nat): nat {
    if k == 0 then 1 else 256 * Pow256(k - 1)
  }

  lemma {:induction false} BigEndianRoundTrip(n: nat, k: nat)
    requires n < Pow256(k)
    ensures BigEndianValue(BigEndian(n, k)) == n
  {
    hide ToByte, FromByte;
    if k > 0 {
      BigEndianRoundTrip(n / 256, k - 1);
      ByteRoundTrip(n % 256);
      var s := BigEndian(n, k);
      assert s[..|s| - 1] == BigEndian(n / 256, k - 1);
    }
  }

  function Zeros(n: nat): (s: seq<Byte>)
    ensures |s| == n
  {
    seq(n, _ => 0)
  }

  // Section 5.1.1. The length of a message is given in bits and must be below 2^64.

  ghost predicate Hashable(m: seq<Byte>) { 8 * |m| < 0x1_0000_0000_0000_0000 }

  function ZeroCount(len: nat): nat { (55 - len) % 64 }

  function Pad(m: seq<Byte>): (p: seq<Byte>)
    requires Hashable(m)
    ensures |p| % 64 == 0
  {
    m + [0x80] + Zeros(ZeroCount(|m|)) + BigEndian(8 * |m|, 8)
  }

  lemma Pow256Eight()
    ensures Pow256(8) == 0x1_0000_0000_0000_0000
    ensures Pow256(4) == 0x1_0000_0000
  {
    assert Pow256(1) == 256;
    assert Pow256(2) == 65536;
    assert Pow256(3) == 16777216;
    assert Pow256(4) == 0x1_0000_0000;
    assert Pow256(5) == 0x100_0000_0000;
    assert Pow256(6) == 0x1_0000_0000_0000;
    assert Pow256(7) == 0x100_0000_0000_0000;
  }

  /** Padding loses nothing: the trailing length says where the message ends. */
  lemma PadInjective(m1: seq<Byte>, m2: seq<Byte>)
    requires Hashable(m1) && Hashable(m2)
    ensures Pad(m1) == Pad(m2) ==> m1 == m2
  {
    hide BigEndian, BigEndianValue;
    Pow256Eight();
    var p1, p2 := Pad(m1), Pad(m2);
    assert p1[|p1| - 8..] == BigEndian(8 * |m1|, 8);
    assert p2[|p2| - 8..] == BigEndian(8 * |m2|, 8);
    BigEndianRoundTrip(8 * |m1|, 8);
    BigEndianRoundTrip(8 * |m2|, 8);
    assert p1[..|m1|] == m1 && p2[..|m2|] == m2;
  }

  // Section 6.2.2.

  /** W_t, the message schedule. */
  function Schedule(block: seq<Byte>, t: nat): Word
    requires |block| == 64
  {
    if t < 16 then
      BytesToWord(block[4 * t..4 * t + 4])
    else
      Add(Add(Add(SmallSigma1(Schedule(block, t - 2)), Schedule(block, t - 7)),
              SmallSigma0(Schedule(block, t - 15))), Schedule(block, t - 16))
  }

  datatype Working = Working(a: Word, b: Word, c: Word, d: Word, e: Word, f: Word, g: Word, h: Word)

  function Round(v: Working, k: Word, w: Word): Working {
    var t1 := Add(Add(Add(Add(v.h, BigSigma1(v.e)), Ch(v.e, v.f, v.g)), k), w);
    var t2 := Add(BigSigma0(v.a), Maj(v.a, v.b, v.c));
    Working(Add(t1, t2), v.a, v.b, v.c, Add(v.d, t1), v.e, v.f, v.g)
  }

  /** The working variables after the first t rounds. */
  function Rounds(v: Working, block: seq<Byte>, t: nat): Working
    requires |block| == 64 && t <= 64
  {
    if t == 0 then v else Round(Rounds(v, block, t - 1), RoundConstant(t - 1), Schedule(block, t - 1))
  }

  type HashValue = s: seq<Word> | |s| == 8 witness INITIAL_HASH

  function ToWorking(h: HashValue): Working { Working(h[0], h[1], h[2], h[3], h[4], h[5], h[6], h[7]) }

  function Compress(h: HashValue, block: seq<Byte>): HashValue
    requires |block| == 64
  {
    var v := Rounds(ToWorking(h), block, 64);
    [Add(h[0], v.a), Add(h[1], v.b), Add(h[2], v.c), Add(h[3], v.d),
     Add(h[4], v.e), Add(h[5], v.f), Add(h[6], v.g), Add(h[7], v.h)]
  }

  /** The hash value after the whole blocks of m; a trailing part of a block is not read. */
  function HashBlocks(h: HashValue, m: seq<Byte>): HashValue
    decreases |m|
  {
    if |m| < 64 then h else HashBlocks(Compress(h, m[..64]), m[64..])
  }

  lemma {:induction false} HashBlocksAppend(h: HashValue, m1: seq<Byte>, m2: seq<Byte>)
    requires |m1| % 64 == 0
    ensures HashBlocks(h, m1 + m2) == HashBlocks(HashBlocks(h, m1), m2)
    decreases |m1|
  {
    if m1 == [] {
      assert m1 + m2 == m2;
    } else {
      var m := m1 + m2;
      assert m[..64] == m1[..64];
      assert m[64..] == m1[64..] + m2;
      HashBlocksAppend(Compress(h, m1[..64]), m1[64..], m2);
    }
  }

  function Digest(m: seq<Byte>): seq<Byte>
    requires Hashable(m)
  {
    WordsToBytes(HashBlocks(INITIAL_HASH, Pad(m)))
  }
}
