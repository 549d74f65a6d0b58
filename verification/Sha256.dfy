/** The streaming SHA-256 of src/Common/SHA256.cc: 64-byte carry buffer, in-place registers,
    padding built inside a 128-byte block, and a 32-bit length field. */
module Sha256 {
  import opened Fips180

  /** Unsigned 32-bit wrap-around. */
  function Wrap32(n: nat): (r: nat)
    ensures r < 0x1_0000_0000
  {
    n % 0x1_0000_0000
  }

  // Arithmetic of the counters, kept apart from the reasoning about bytes.

  lemma Wrap32Add(a: nat, b: nat)
    ensures Wrap32(Wrap32(a) + b) == Wrap32(a + b)
  {}

  lemma Wrap32Bits(a: nat, t: nat)
    ensures Wrap32((Wrap32(a) + t) * 8) == Wrap32(8 * (a + t))
  {}

  lemma Wrap32Blocks(n: nat)
    requires n % 64 == 0
    ensures Wrap32(n) % 64 == 0
  {
    assert Wrap32(n) == 64 * (n / 64 - 0x400_0000 * (n / 0x1_0000_0000));
  }

  lemma ZeroCountAligns(n: nat)
    ensures (n + ZeroCount(n) + 9) % 64 == 0
  {}

  lemma ZeroCountOfTail(n: nat)
    ensures ZeroCount(n) == (if 55 < n % 64 then 128 else 64) - n % 64 - 9
  {}

  function WholeBlocks(n: nat): (w: nat)
    ensures w <= n < w + 64 && w % 64 == 0
  {
    n - n % 64
  }

  lemma WholeBlocksUnique(n: nat, w: nat)
    requires w <= n < w + 64 && w % 64 == 0
    ensures WholeBlocks(n) == w
  {}

  // The macros of src/Common/SHA256.h, each equal to its FIPS 180-4 counterpart.

  function F1(x: Word): (r: Word)
    ensures r == BigSigma0(x)
  {
    ((x >> 2) | (x << 30)) ^ ((x >> 13) | (x << 19)) ^ ((x >> 22) | (x << 10))
  }

  function F2(x: Word): (r: Word)
    ensures r == BigSigma1(x)
  {
    ((x >> 6) | (x << 26)) ^ ((x >> 11) | (x << 21)) ^ ((x >> 25) | (x << 7))
  }

  function F3(x: Word): (r: Word)
    ensures r == SmallSigma0(x)
  {
    ((x >> 7) | (x << 25)) ^ ((x >> 18) | (x << 14)) ^ (x >> 3)
  }

  function F4(x: Word): (r: Word)
    ensures r == SmallSigma1(x)
  {
    ((x >> 17) | (x << 15)) ^ ((x >> 19) | (x << 13)) ^ (x >> 10)
  }

  /** SHA2_UNPACK32 on an unsigned 32-bit length. */
  function UnpackLength(n: nat): (s: seq<Byte>)
    requires n < 0x1_0000_0000
    ensures |s| == 4
  {
    [ToByte(n / 0x100_0000), ToByte(n / 0x1_0000 % 256), ToByte(n / 0x100 % 256), ToByte(n % 256)]
  }

  lemma UnpackLengthIsBigEndian(n: nat)
    requires n < 0x1_0000_0000
    ensures UnpackLength(n) == BigEndian(n, 4)
  {
    hide ToByte;
    assert n / 256 / 256 == n / 0x1_0000;
    assert n / 256 / 256 / 256 == n / 0x100_0000;
    assert BigEndian(n / 0x100_0000, 1) == [ToByte(n / 0x100_0000 % 256)];
    assert BigEndian(n / 0x1_0000, 2) == BigEndian(n / 0x100_0000, 1) + [ToByte(n / 0x1_0000 % 256)];
    assert BigEndian(n / 256, 3) == BigEndian(n / 0x1_0000, 2) + [ToByte(n / 256 % 256)];
  }

  // ---- What the streaming hash computes, on values ----

  /** hash: m_h; tail: the first m_len bytes of m_block; total: m_tot_len, an unsigned 32-bit count. */
  datatype Stream = Stream(hash: HashValue, tail: seq<Byte>, total: nat)

  const START := Stream(INITIAL_HASH, [], 0)

  ghost predicate WellFormed(s: Stream) {
    |s.tail| < 64 && s.total < 0x1_0000_0000 && s.total % 64 == 0
  }

  function Absorb(s: Stream, message: seq<Byte>): Stream {
    var all := s.tail + message;
    var whole := WholeBlocks(|all|);
    Stream(HashBlocks(s.hash, all[..whole]), all[whole..], Wrap32(s.total + whole))
  }

  function AbsorbAll(s: Stream, chunks: seq<seq<Byte>>): Stream
    decreases |chunks|
  {
    if chunks == [] then s else AbsorbAll(Absorb(s, chunks[0]), chunks[1..])
  }

  function LastBlocks(s: Stream): (p: seq<Byte>)
    requires WellFormed(s)
    ensures |p| % 64 == 0 && |p| <= 128
  {
    var padded := if 55 < |s.tail| then 128 else 64;
    s.tail + [0x80] + Zeros(padded - |s.tail| - 5) + UnpackLength(Wrap32((s.total + |s.tail|) * 8))
  }

  function Finish(s: Stream): seq<Byte>
    requires WellFormed(s)
  {
    WordsToBytes(HashBlocks(s.hash, LastBlocks(s)))
  }

  // ---- Refinement of FIPS 180-4 ----

  /** The carry invariant: s is what absorbing m, in whatever pieces, leaves behind. */
  ghost predicate Carries(s: Stream, m: seq<Byte>) {
    var whole := WholeBlocks(|m|);
    && s.hash == HashBlocks(INITIAL_HASH, m[..whole])
    && s.tail == m[whole..]
    && s.total == Wrap32(whole)
  }

  lemma CarriesWellFormed(s: Stream, m: seq<Byte>)
    requires Carries(s, m)
    ensures WellFormed(s)
  {
    hide HashBlocks, WholeBlocks, Wrap32;
    Wrap32Blocks(WholeBlocks(|m|));
  }

  lemma AbsorbKeepsCarry(s: Stream, m: seq<Byte>, chunk: seq<Byte>)
    requires Carries(s, m)
    ensures Carries(Absorb(s, chunk), m + chunk)
  {
    hide HashBlocks, WholeBlocks, Wrap32;
    var whole, all := WholeBlocks(|m|), s.tail + chunk;
    var more := WholeBlocks(|all|);
    WholeBlocksUnique(|m + chunk|, whole + more);
    Wrap32Add(whole, more);
    assert (m + chunk)[..whole + more] == m[..whole] + all[..more];
    assert (m + chunk)[whole + more..] == all[more..];
    HashBlocksAppend(INITIAL_HASH, m[..whole], all[..more]);
  }

  lemma StartCarries()
    ensures Carries(START, [])
  {
    hide Compress;
    HashNoBlock(INITIAL_HASH);
  }

  function Flatten(chunks: seq<seq<Byte>>): seq<Byte> {
    if chunks == [] then [] else chunks[0] + Flatten(chunks[1..])
  }

  lemma {:induction false} AbsorbAllKeepsCarry(s: Stream, m: seq<Byte>, chunks: seq<seq<Byte>>)
    requires Carries(s, m)
    ensures Carries(AbsorbAll(s, chunks), m + Flatten(chunks))
    decreases |chunks|
  {
    hide Carries, Absorb;
    if chunks == [] {
      assert m + [] == m;
    } else {
      AbsorbKeepsCarry(s, m, chunks[0]);
      AbsorbAllKeepsCarry(Absorb(s, chunks[0]), m + chunks[0], chunks[1..]);
      assert m + chunks[0] + Flatten(chunks[1..]) == m + Flatten(chunks);
    }
  }

  /** The stream of bytes that is hashed when m is absorbed and then finished: FIPS padding, but
      with only the low 32 bits of the bit count in the eight-byte length field. */
  function StreamPad(m: seq<Byte>): (p: seq<Byte>)
    ensures |p| % 64 == 0
  {
    hide UnpackLength, ZeroCount, Wrap32;
    ZeroCountAligns(|m|);
    m + [0x80] + Zeros(ZeroCount(|m|) + 4) + UnpackLength(Wrap32(8 * |m|))
  }

  lemma FinishHashesStreamPad(s: Stream, m: seq<Byte>)
    requires Carries(s, m)
    ensures WellFormed(s)
    ensures Finish(s) == WordsToBytes(HashBlocks(INITIAL_HASH, StreamPad(m)))
  {
    hide HashBlocks, UnpackLength, WordsToBytes, Wrap32, ZeroCount, WholeBlocks;
    CarriesWellFormed(s, m);
    var whole := WholeBlocks(|m|);
    Wrap32Bits(whole, |s.tail|);
    ZeroCountOfTail(|m|);
    assert |s.tail| == |m| % 64 && m == m[..whole] + s.tail;
    assert Zeros(ZeroCount(|m|) + 4) == Zeros((if 55 < |s.tail| then 128 else 64) - |s.tail| - 5);
    assert StreamPad(m) == m[..whole] + LastBlocks(s);
    HashBlocksAppend(INITIAL_HASH, m[..whole], LastBlocks(s));
  }

  /** The low k bytes and the bytes above them. */
  lemma {:induction false} BigEndianSplit(high: nat, low: nat, j: nat, k: nat)
    requires low < Pow256(k)
    ensures BigEndian(high * Pow256(k) + low, j + k) == BigEndian(high, j) + BigEndian(low, k)
    decreases k
  {
    hide ToByte;
    if k > 0 {
      var shifted := high * Pow256(k - 1);
      assert high * Pow256(k) == 256 * shifted;
      var n := 256 * shifted + low;
      assert n / 256 == shifted + low / 256 && n % 256 == low % 256;
      BigEndianSplit(high, low / 256, j, k - 1);
    }
  }

  lemma {:induction false} BigEndianZero(k: nat)
    ensures BigEndian(0, k) == Zeros(k)
  {
    if k > 0 {
      BigEndianZero(k - 1);
      ByteRoundTrip(0);
    }
  }

  lemma BigEndianIsZero(n: nat)
    requires n < 0x1_0000_0000
    ensures BigEndian(n, 4) == Zeros(4) <==> n == 0
  {
    Pow256Eight();
    BigEndianZero(4);
    BigEndianRoundTrip(n, 4);
    BigEndianRoundTrip(0, 4);
  }

  lemma PaddedFormsAgree(m: seq<Byte>)
    requires Hashable(m)
    ensures |StreamPad(m)| == |Pad(m)|
    ensures forall i :: 0 <= i < |Pad(m)| - 8 ==> StreamPad(m)[i] == Pad(m)[i]
    ensures StreamPad(m)[|Pad(m)| - 8..] == Zeros(4) + BigEndian(Wrap32(8 * |m|), 4)
    ensures Pad(m)[|Pad(m)| - 8..] == BigEndian(8 * |m| / 0x1_0000_0000, 4) + BigEndian(Wrap32(8 * |m|), 4)
  {
    hide BigEndian, UnpackLength;
    var bits := 8 * |m|;
    UnpackLengthIsBigEndian(Wrap32(bits));
    Pow256Eight();
    assert bits == bits / 0x1_0000_0000 * 0x1_0000_0000 + Wrap32(bits);
    BigEndianSplit(bits / 0x1_0000_0000, Wrap32(bits), 4, 4);
  }

  /** The streaming hash pads a message as FIPS 180-4 does exactly when the message is
      shorter than 2^29 bytes, the range of the 32-bit length field. */
  lemma StreamPadIsFips(m: seq<Byte>)
    requires Hashable(m)
    ensures StreamPad(m) == Pad(m) <==> |m| < 0x2000_0000
  {
    PaddedFormsAgree(m);
    var bits := 8 * |m|;
    var n := |Pad(m)| - 8;
    var high := BigEndian(bits / 0x1_0000_0000, 4);
    BigEndianIsZero(bits / 0x1_0000_0000);
    if high == Zeros(4) {
      assert StreamPad(m)[n..] == Pad(m)[n..];
      assert StreamPad(m) == StreamPad(m)[..n] + StreamPad(m)[n..];
      assert Pad(m) == Pad(m)[..n] + Pad(m)[n..];
      assert StreamPad(m)[..n] == Pad(m)[..n];
    } else {
      assert StreamPad(m)[n..][..4] == Zeros(4);
      assert Pad(m)[n..][..4] == high;
    }
  }

  /** Main result: for every message below 2^29 bytes and every way of cutting it into chunks,
      the streaming hash is the FIPS 180-4 digest of the message. */
  lemma StreamingIsFips(chunks: seq<seq<Byte>>)
    requires |Flatten(chunks)| < 0x2000_0000
    ensures WellFormed(AbsorbAll(START, chunks))
    ensures Finish(AbsorbAll(START, chunks)) == Digest(Flatten(chunks))
  {
    hide HashBlocks, StreamPad, Pad, WordsToBytes, AbsorbAll, Flatten, Carries, WellFormed, Finish;
    var m := Flatten(chunks);
    StartCarries();
    AbsorbAllKeepsCarry(START, [], chunks);
    assert [] + m == m;
    FinishHashesStreamPad(AbsorbAll(START, chunks), m);
    StreamPadIsFips(m);
  }

  /** For messages of any length the digest depends on the concatenation only. */
  lemma ChunkingIrrelevant(chunks1: seq<seq<Byte>>, chunks2: seq<seq<Byte>>)
    requires Flatten(chunks1) == Flatten(chunks2)
    ensures WellFormed(AbsorbAll(START, chunks1)) && WellFormed(AbsorbAll(START, chunks2))
    ensures Finish(AbsorbAll(START, chunks1)) == Finish(AbsorbAll(START, chunks2))
  {
    StartCarries();
    AbsorbAllKeepsCarry(START, [], chunks1);
    AbsorbAllKeepsCarry(START, [], chunks2);
    FinishHashesStreamPad(AbsorbAll(START, chunks1), [] + Flatten(chunks1));
    FinishHashesStreamPad(AbsorbAll(START, chunks2), [] + Flatten(chunks2));
  }

  // ---- The hash object ----

  lemma HashNoBlock(h: HashValue)
    ensures HashBlocks(h, []) == h
  {
    hide Compress;
  }

  lemma ScheduleHead(block: seq<Byte>, t: nat)
    requires |block| == 64 && t < 16
    ensures Schedule(block, t) == BytesToWord(block[4 * t..4 * t + 4])
  {
    hide BytesToWord;
  }

  lemma ScheduleStep(block: seq<Byte>, t: nat)
    requires |block| == 64 && 16 <= t
    ensures Schedule(block, t) ==
      Add(Add(Add(F4(Schedule(block, t - 2)), Schedule(block, t - 7)),
              F3(Schedule(block, t - 15))), Schedule(block, t - 16))
  {
    hide Add, BytesToWord, SmallSigma0, SmallSigma1, F3, F4;
  }

  lemma AbsorbShort(s: Stream, message: seq<Byte>)
    requires |s.tail| + |message| < 64 && s.total < 0x1_0000_0000
    ensures Absorb(s, message) == s.(tail := s.tail + message)
  {
    hide Compress;
    var all := s.tail + message;
    assert WholeBlocks(|all|) == 0;
    assert all[..0] == [] && all[0..] == all;
    HashNoBlock(s.hash);
  }

  /** update fills the carry buffer first, hashes it, and then hashes the rest in place. */
  lemma AbsorbLong(s: Stream, message: seq<Byte>)
    requires |s.tail| < 64 <= |s.tail| + |message|
    ensures
      var filled := 64 - |s.tail|;
      var rest := message[filled..];
      var n := |rest| / 64;
      Absorb(s, message) ==
      Stream(HashBlocks(HashBlocks(s.hash, s.tail + message[..filled]), rest[..n * 64]),
             rest[n * 64..], Wrap32(s.total + (n + 1) * 64))
  {
    hide HashBlocks, WholeBlocks, Wrap32;
    var filled := 64 - |s.tail|;
    var all, rest := s.tail + message, message[filled..];
    var n := |rest| / 64;
    WholeBlocksUnique(|all|, (n + 1) * 64);
    assert all[..(n + 1) * 64] == (s.tail + message[..filled]) + rest[..n * 64];
    assert all[(n + 1) * 64..] == rest[n * 64..];
    HashBlocksAppend(s.hash, s.tail + message[..filled], rest[..n * 64]);
  }

  /** The number of bytes that fit the signed offset i << 6 of transform. */
  const MAX_CHUNK: nat := 0x8000_0000

  class Sha256 {
    var totLen: nat
    var len: nat
    const block: array<Byte>
    const h: array<Word>

    ghost predicate Valid()
      reads this, block, h
    {
      && block.Length == 128
      && h.Length == 8
      && len < 64
      && totLen < 0x1_0000_0000
      && totLen % 64 == 0
    }

    ghost function State(): (s: Stream)
      requires Valid()
      reads this, block, h
      ensures WellFormed(s)
    {
      Stream(h[..], block[..len], totLen)
    }

    constructor ()
      ensures Valid() && fresh(block) && fresh(h)
      ensures State() == START
    {
      block := new Byte[128];
      h := new Word[8];
      len := 0;
      totLen := 0;
      new;
      Init();
    }

    method Init()
      requires h.Length == 8 && block.Length == 128
      modifies this, h
      ensures Valid() && State() == START
    {
      h[0] := 0x6a09e667;
      h[1] := 0xbb67ae85;
      h[2] := 0x3c6ef372;
      h[3] := 0xa54ff53a;
      h[4] := 0x510e527f;
      h[5] := 0x9b05688c;
      h[6] := 0x1f83d9ab;
      h[7] := 0x5be0cd19;
      len := 0;
      totLen := 0;
      assert h[..] == INITIAL_HASH;
    }

    /** The message schedule of one block. */
    method Expand(subBlock: seq<Byte>) returns (w: array<Word>)
      requires |subBlock| == 64
      ensures fresh(w) && w.Length == 64
      ensures forall t :: 0 <= t < 64 ==> w[t] == Schedule(subBlock, t)
    {
      hide Add, F3, F4, SmallSigma0, SmallSigma1, BytesToWord, Schedule;
      w := new Word[64];
      for j := 0 to 16
        invariant forall t :: 0 <= t < j ==> w[t] == Schedule(subBlock, t)
      {
        w[j] := BytesToWord(subBlock[4 * j..4 * j + 4]);
        ScheduleHead(subBlock, j);
      }
      for j := 16 to 64
        invariant forall t :: 0 <= t < j ==> w[t] == Schedule(subBlock, t)
      {
        w[j] := Add(Add(Add(F4(w[j - 2]), w[j - 7]), F3(w[j - 15])), w[j - 16]);
        ScheduleStep(subBlock, j);
      }
    }

    /** The 64 rounds, on registers shifted in place. */
    method Shuffle(wv: array<Word>, w: array<Word>, ghost subBlock: seq<Byte>)
      requires wv.Length == 8 && w.Length == 64 && wv != w && |subBlock| == 64
      requires forall t :: 0 <= t < 64 ==> w[t] == Schedule(subBlock, t)
      modifies wv
      ensures ToWorking(wv[..]) == Rounds(old(ToWorking(wv[..])), subBlock, 64)
    {
      hide Add, F1, F2, BigSigma0, BigSigma1, Ch, Maj, Schedule, RoundConstant;
      ghost var start := ToWorking(wv[..]);
      for j := 0 to 64
        invariant ToWorking(wv[..]) == Rounds(start, subBlock, j)
      {
        var t1 := Add(Add(Add(Add(wv[7], F2(wv[4])), Ch(wv[4], wv[5], wv[6])), RoundConstant(j)), w[j]);
        var t2 := Add(F1(wv[0]), Maj(wv[0], wv[1], wv[2]));
        wv[7] := wv[6];
        wv[6] := wv[5];
        wv[5] := wv[4];
        wv[4] := Add(wv[3], t1);
        wv[3] := wv[2];
        wv[2] := wv[1];
        wv[1] := wv[0];
        wv[0] := Add(t1, t2);
      }
    }

    method TransformBlock(subBlock: seq<Byte>)
      requires h.Length == 8 && |subBlock| == 64
      modifies h
      ensures h[..] == Compress(old(h[..]), subBlock)
    {
      hide Add, Schedule, Rounds;
      ghost var h0: HashValue := h[..];
      ghost var v := Rounds(ToWorking(h0), subBlock, 64);
      var w := Expand(subBlock);
      var wv := new Word[8];
      forall j | 0 <= j < 8 { wv[j] := h[j]; }
      assert wv[..] == h[..];
      Shuffle(wv, w, subBlock);
      assert wv[0] == v.a && wv[1] == v.b && wv[2] == v.c && wv[3] == v.d;
      assert wv[4] == v.e && wv[5] == v.f && wv[6] == v.g && wv[7] == v.h;
      forall j | 0 <= j < 8 { h[j] := Add(h[j], wv[j]); }
      assert h[..] == Compress(old(h[..]), subBlock);
    }

    method Transform(message: seq<Byte>, blockNb: nat)
      requires h.Length == 8 && blockNb * 64 <= |message|
      modifies h
      ensures h[..] == HashBlocks(old(h[..]), message[..blockNb * 64])
    {
      hide Compress;
      for i := 0 to blockNb
        invariant h[..] == HashBlocks(old(h[..]), message[..i * 64])
      {
        var subBlock := message[i * 64..(i + 1) * 64];
        TransformBlock(subBlock);
        HashBlocksAppend(old(h[..]), message[..i * 64], subBlock);
        assert message[..i * 64] + subBlock == message[..(i + 1) * 64];
        assert subBlock[..64] == subBlock && subBlock[64..] == [];
      }
    }

    method Update(message: seq<Byte>)
      requires Valid() && |message| < MAX_CHUNK
      modifies this, block, h
      ensures Valid() && State() == Absorb(old(State()), message)
    {
      hide HashBlocks, Absorb, Wrap32;
      ghost var s := State();
      var tmpLen := 64 - len;
      var remLen := if |message| < tmpLen then |message| else tmpLen;
      forall i | 0 <= i < remLen { block[len + i] := message[i]; }
      if len + |message| < 64 {
        AbsorbShort(s, message);
        len := len + |message|;
        assert block[..len] == s.tail + message;
        return;
      }
      AbsorbLong(s, message);
      var newLen := |message| - remLen;
      var blockNb := newLen / 64;
      var shifted := message[remLen..];
      assert block[..][..1 * 64] == s.tail + message[..tmpLen];
      assert h[..] == s.hash;
      Transform(block[..], 1);
      Transform(shifted, blockNb);
      remLen := newLen % 64;
      forall i | 0 <= i < remLen { block[i] := shifted[blockNb * 64 + i]; }
      len := remLen;
      Wrap32Blocks(totLen + (blockNb + 1) * 64);
      totLen := Wrap32(totLen + (blockNb + 1) * 64);
      assert block[..len] == shifted[blockNb * 64..];
    }

    /** Writes the digest. The object has to be initialised again before it is reused. */
    method Final(digest: array<Byte>)
      requires Valid() && digest.Length == 32 && digest != block
      modifies block, h, digest
      ensures digest[..] == Finish(old(State()))
    {
      hide HashBlocks, UnpackLength, WordsToBytes;
      ghost var s := State();
      var blockNb := 1 + (if 64 - 9 < len % 64 then 1 else 0);
      var lenB := Wrap32((totLen + len) * 8);
      var pmLen := blockNb * 64;
      assert len + 9 <= pmLen <= block.Length;
      forall i | len <= i < pmLen { block[i] := 0; }
      block[len] := 0x80;
      var lengthField := UnpackLength(lenB);
      forall i | 0 <= i < 4 { block[pmLen - 4 + i] := lengthField[i]; }
      assert block[..pmLen] == LastBlocks(s);
      assert block[..][..blockNb * 64] == LastBlocks(s);
      assert h[..] == s.hash;
      Transform(block[..], blockNb);
      assert h[..] == HashBlocks(s.hash, LastBlocks(s));
      WordsToBytesAt(h[..]);
      for i := 0 to 8
        invariant h[..] == HashBlocks(s.hash, LastBlocks(s))
        invariant forall k :: 0 <= k < 4 * i ==> digest[k] == WordsToBytes(h[..])[k]
      {
        var bytes := WordToBytes(h[i]);
        forall k | 0 <= k < 4 { digest[4 * i + k] := bytes[k]; }
      }
    }
  }

  /** Two lower-case hexadecimal digits per byte, as printf's %02x writes them. */
  function HexDigit(n: nat): char
    requires n < 16
  {
    if n < 10 then '0' + n as char else 'a' + (n - 10) as char
  }

  function Hex(s: seq<Byte>): string {
    if s == [] then [] else [HexDigit(FromByte(s[0]) / 16), HexDigit(FromByte(s[0]) % 16)] + Hex(s[1..])
  }

  /** Each byte is written as its two digits, the high half first. */
  lemma {:induction false} HexAt(s: seq<Byte>, i: nat)
    requires i < |s|
    ensures |Hex(s)| == 2 * |s|
    ensures Hex(s)[2 * i] == "0123456789abcdef"[FromByte(s[i]) / 16]
    ensures Hex(s)[2 * i + 1] == "0123456789abcdef"[FromByte(s[i]) % 16]
  {
    HexLength(s);
    if i > 0 {
      hide HexDigit, FromByte;
      HexAt(s[1..], i - 1);
    } else {
      HexDigitExactly(FromByte(s[0]) / 16);
      HexDigitExactly(FromByte(s[0]) % 16);
    }
  }

  lemma HexDigitExactly(n: nat)
    requires n < 16
    ensures HexDigit(n) == "0123456789abcdef"[n]
  {}

  lemma {:induction false} HexLength(s: seq<Byte>)
    ensures |Hex(s)| == 2 * |s|
  {
    if s != [] { HexLength(s[1..]); }
  }

  lemma OneShot(input: seq<Byte>)
    ensures WellFormed(Absorb(START, input))
    ensures Finish(Absorb(START, input)) == WordsToBytes(HashBlocks(INITIAL_HASH, StreamPad(input)))
  {
    StartCarries();
    hide Carries, Absorb, HashBlocks, StreamPad;
    AbsorbKeepsCarry(START, [], input);
    assert [] + input == input;
    FinishHashesStreamPad(Absorb(START, input), input);
  }

  /** The free function sha256: for inputs the length field can count, the hexadecimal
      FIPS 180-4 digest. */
  method HashString(input: seq<Byte>) returns (hex: string)
    requires |input| < MAX_CHUNK
    ensures hex == Hex(WordsToBytes(HashBlocks(INITIAL_HASH, StreamPad(input))))
    ensures |input| < 0x2000_0000 ==> hex == Hex(Digest(input))
  {
    hide HashBlocks, StreamPad, Pad, WordsToBytes, Absorb, Finish, WellFormed, FromByte;
    ghost var expected := WordsToBytes(HashBlocks(INITIAL_HASH, StreamPad(input)));
    var digest := new Byte[32];
    var ctx := new Sha256();
    ctx.Update(input);
    OneShot(input);
    ctx.Final(digest);
    hex := "";
    for i := 0 to 32
      invariant hex == Hex(digest[..i])
      invariant digest[..] == expected
    {
      hex := hex + [HexDigit(FromByte(digest[i]) / 16), HexDigit(FromByte(digest[i]) % 16)];
      HexAppend(digest[..i], digest[i]);
      assert digest[..i] + [digest[i]] == digest[..i + 1];
    }
    assert digest[..32] == digest[..];
    if |input| < 0x2000_0000 { StreamPadIsFips(input); }
  }

  lemma {:induction false} AbsorbAllAppend(s: Stream, chunks: seq<seq<Byte>>, chunk: seq<Byte>)
    ensures AbsorbAll(s, chunks + [chunk]) == Absorb(AbsorbAll(s, chunks), chunk)
    decreases |chunks|
  {
    hide Absorb;
    if chunks == [] {
      assert chunks + [chunk] == [chunk] && [chunk][1..] == [];
    } else {
      assert (chunks + [chunk])[1..] == chunks[1..] + [chunk];
      AbsorbAllAppend(Absorb(s, chunks[0]), chunks[1..], chunk);
    }
  }

  /** A client that feeds a message to the object chunk by chunk gets its FIPS 180-4 digest. */
  method HashChunks(chunks: seq<seq<Byte>>) returns (digest: array<Byte>)
    requires forall i :: 0 <= i < |chunks| ==> |chunks[i]| < MAX_CHUNK
    ensures digest.Length == 32
    ensures |Flatten(chunks)| < 0x2000_0000 ==> digest[..] == Digest(Flatten(chunks))
  {
    hide Absorb, AbsorbAll, Finish, Flatten, HashBlocks, Pad;
    digest := new Byte[32];
    var ctx := new Sha256();
    assert AbsorbAll(START, chunks[..0]) == START by { AbsorbNothing(chunks[..0]); }
    for i := 0 to |chunks|
      invariant ctx.Valid() && ctx.State() == AbsorbAll(START, chunks[..i])
      invariant fresh(ctx) && fresh(ctx.block) && fresh(ctx.h) && digest != ctx.block
    {
      AbsorbAllAppend(START, chunks[..i], chunks[i]);
      assert chunks[..i + 1] == chunks[..i] + [chunks[i]];
      ctx.Update(chunks[i]);
    }
    assert chunks[..|chunks|] == chunks;
    ctx.Final(digest);
    if |Flatten(chunks)| < 0x2000_0000 { StreamingIsFips(chunks); }
  }

  lemma AbsorbNothing(chunks: seq<seq<Byte>>)
    requires chunks == []
    ensures AbsorbAll(START, chunks) == START
  {}

  lemma {:induction false} HexAppend(s: seq<Byte>, b: Byte)
    ensures Hex(s + [b]) == Hex(s) + [HexDigit(FromByte(b) / 16), HexDigit(FromByte(b) % 16)]
  {
    if s == [] {
      assert s + [b] == [b];
    } else {
      assert (s + [b])[1..] == s[1..] + [b];
      HexAppend(s[1..], b);
    }
  }
}
