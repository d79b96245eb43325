/** The hash of lib/libstink_sha256.c, proved to be SHA-256 as sections 4.1.2, 4.2.2, 5.1.1,
    5.2.1, 5.3.3 and 6.2.2 of FIPS 180-4 define it. */
module Sha256Model {

  newtype Byte = b: int | 0 <= b < 256
  type Word = bv32

  // ------------------------------------------------- FIPS 180-4, recursively

  // The word operations of section 2.2.2, by name: a proof that only rearranges words
  // can hide these and is spared the bits.

  function Add(x: Word, y: Word): Word { x + y }

  function Xor(x: Word, y: Word): Word { x ^ y }

  function And(x: Word, y: Word): Word { x & y }

  function Not(x: Word): Word { !x }

  function Shr(n: nat, x: Word): Word
    requires n < 32
  {
    x >> n
  }

  function Ch(x: Word, y: Word, z: Word): Word { Xor(And(x, y), And(Not(x), z)) }

  function Maj(x: Word, y: Word, z: Word): Word { Xor(Xor(And(x, y), And(x, z)), And(y, z)) }

  function BigSigma0(x: Word): Word { Xor(Xor(x.RotateRight(2), x.RotateRight(13)), x.RotateRight(22)) }

  function BigSigma1(x: Word): Word { Xor(Xor(x.RotateRight(6), x.RotateRight(11)), x.RotateRight(25)) }

  function SmallSigma0(x: Word): Word { Xor(Xor(x.RotateRight(7), x.RotateRight(18)), Shr(3, x)) }

  function SmallSigma1(x: Word): Word { Xor(Xor(x.RotateRight(17), x.RotateRight(19)), Shr(10, x)) }

  const K: seq<Word> :=
    [0x428a2f98, 0x71374491, 0xb5c0fbcf, 0xe9b5dba5, 0x3956c25b, 0x59f111f1, 0x923f82a4, 0xab1c5ed5,
     0xd807aa98, 0x12835b01, 0x243185be, 0x550c7dc3, 0x72be5d74, 0x80deb1fe, 0x9bdc06a7, 0xc19bf174] +
    [0xe49b69c1, 0xefbe4786, 0x0fc19dc6, 0x240ca1cc, 0x2de92c6f, 0x4a7484aa, 0x5cb0a9dc, 0x76f988da,
     0x983e5152, 0xa831c66d, 0xb00327c8, 0xbf597fc7, 0xc6e00bf3, 0xd5a79147, 0x06ca6351, 0x14292967] +
    [0x27b70a85, 0x2e1b2138, 0x4d2c6dfc, 0x53380d13, 0x650a7354, 0x766a0abb, 0x81c2c92e, 0x92722c85,
     0xa2bfe8a1, 0xa81a664b, 0xc24b8b70, 0xc76c51a3, 0xd192e819, 0xd6990624, 0xf40e3585, 0x106aa070] +
    [0x19a4c116, 0x1e376c08, 0x2748774c, 0x34b0bcb5, 0x391c0cb3, 0x4ed8aa4a, 0x5b9cca4f, 0x682e6ff3,
     0x748f82ee, 0x78a5636f, 0x84c87814, 0x8cc70208, 0x90befffa, 0xa4506ceb, 0xbef9a3f7, 0xc67178f2]

  datatype State = State(a: Word, b: Word, c: Word, d: Word, e: Word, f: Word, g: Word, h: Word)

  const H0 := State(0x6a09e667, 0xbb67ae85, 0x3c6ef372, 0xa54ff53a, 0x510e527f, 0x9b05688c, 0x1f83d9ab, 0x5be0cd19)

  type Chunk = s: seq<Byte> | |s| == 64 witness seq(64, _ => 0)

  function BigEndian(b0: Byte, b1: Byte, b2: Byte, b3: Byte): Word {
    (b0 as Word << 24) | (b1 as Word << 16) | (b2 as Word << 8) | (b3 as Word)
  }

  function Sum4(a: Word, b: Word, c: Word, d: Word): Word { a + b + c + d }

  /** Word t of the message schedule (section 6.2.2, step 1). */
  function Schedule(m: Chunk, t: nat): Word
    requires t < 64
  {
    if t < 16 then BigEndian(m[4 * t], m[4 * t + 1], m[4 * t + 2], m[4 * t + 3])
    else Sum4(SmallSigma1(Schedule(m, t - 2)), Schedule(m, t - 7),
              SmallSigma0(Schedule(m, t - 15)), Schedule(m, t - 16))
  }

  function Round(s: State, k: Word, w: Word): State {
    var t1 := Add(Sum4(s.h, BigSigma1(s.e), Ch(s.e, s.f, s.g), k), w);
    var t2 := Add(BigSigma0(s.a), Maj(s.a, s.b, s.c));
    State(Add(t1, t2), s.a, s.b, s.c, Add(s.d, t1), s.e, s.f, s.g)
  }

  /** The working variables after t rounds (step 3). */
  function Rounds(s: State, m: Chunk, t: nat): State
    requires t <= 64
  {
    if t == 0 then s else Round(Rounds(s, m, t - 1), K[t - 1], Schedule(m, t - 1))
  }

  function Plus(s: State, t: State): State {
    State(Add(s.a, t.a), Add(s.b, t.b), Add(s.c, t.c), Add(s.d, t.d),
          Add(s.e, t.e), Add(s.f, t.f), Add(s.g, t.g), Add(s.h, t.h))
  }

  function Compress(s: State, m: Chunk): State {
    Plus(Rounds(s, m, 64), s)
  }

  /** The hash value after all blocks of a padded message (section 6.2.2). */
  function HashBlocks(s: State, m: seq<Byte>): State
    requires |m| % 64 == 0
    decreases |m|
  {
    if |m| == 0 then s else
      WholeBlock(|m|);
      HashBlocks(Compress(s, m[..64]), m[64..])
  }

  lemma WholeBlock(n: nat)
    requires n % 64 == 0 && n > 0
    ensures n >= 64 && (n - 64) % 64 == 0
  {
  }

  function Zeros(n: nat): seq<Byte> { seq(n, _ => 0) }

  function ToByte(n: nat): Byte
    requires n < 256
  {
    n as Byte
  }

  /** n as `k` big-endian bytes. */
  function NatBytes(n: nat, k: nat): (s: seq<Byte>)
    ensures |s| == k
  {
    if k == 0 then [] else NatBytes(n / 256, k - 1) + [ToByte(n % 256)]
  }

  /** Section 5.1.1: a one bit, the fewest zeros that reach 448 mod 512, and the bit length in 64 bits. */
  function Padding(len: nat): seq<Byte> {
    [0x80] + Zeros((119 - len % 64) % 64) + NatBytes(8 * len, 8)
  }

  lemma PaddingZeros(rem: nat)
    requires rem < 64
    ensures (119 - rem) % 64 == (if rem >= 56 then 119 else 55) - rem
  {
  }

  lemma Multiple(n: nat, k: nat)
    requires n == 64 * k
    ensures n % 64 == 0
  {
  }

  lemma PaddingFills(len: nat)
    ensures (len + |Padding(len)|) % 64 == 0 && |Padding(len)| == 9 + (119 - len % 64) % 64
  {
    hide NatBytes;
    var q, r := len / 64, len % 64;
    PaddingZeros(r);
    Multiple(len + |Padding(len)|, if r < 56 then q + 1 else q + 2);
  }

  function Padded(msg: seq<Byte>): (m: seq<Byte>)
    ensures |m| % 64 == 0
  {
    PaddingFills(|msg|);
    msg + Padding(|msg|)
  }

  function Pow256(k: nat): nat {
    if k == 0 then 1 else 256 * Pow256(k - 1)
  }

  lemma ToByteInjective(n: nat, m: nat)
    requires n < 256 && m < 256 && ToByte(n) == ToByte(m)
    ensures n == m
  {
  }

  lemma {:induction false} NatBytesInjective(n: nat, m: nat, k: nat)
    requires n < Pow256(k) && m < Pow256(k) && NatBytes(n, k) == NatBytes(m, k)
    ensures n == m
  {
    hide ToByte;
    if k > 0 {
      var s, t := NatBytes(n, k), NatBytes(m, k);
      assert s[..k - 1] == NatBytes(n / 256, k - 1) && t[..k - 1] == NatBytes(m / 256, k - 1);
      assert s[k - 1] == ToByte(n % 256) && t[k - 1] == ToByte(m % 256);
      NatBytesInjective(n / 256, m / 256, k - 1);
      ToByteInjective(n % 256, m % 256);
    }
  }

  /** No two messages share a padded form: the trailer recovers the length, and with it the message. */
  lemma PaddingIsInjective(x: seq<Byte>, y: seq<Byte>)
    requires 8 * |x| < Pow256(8) && 8 * |y| < Pow256(8) && Padded(x) == Padded(y)
    ensures x == y
  {
    hide NatBytes, Zeros;
    var m := Padded(x);
    assert m[|m| - 8..] == NatBytes(8 * |x|, 8) == NatBytes(8 * |y|, 8);
    NatBytesInjective(8 * |x|, 8 * |y|, 8);
    assert m[..|x|] == x && m[..|y|] == y;
  }

  function LowByte(w: Word): Byte { (w & 0xff) as bv8 as Byte }

  function WordBytes(w: Word): seq<Byte> {
    [LowByte(w >> 24), LowByte(w >> 16), LowByte(w >> 8), LowByte(w)]
  }

  function Digest(s: State): seq<Byte> {
    WordBytes(s.a) + WordBytes(s.b) + WordBytes(s.c) + WordBytes(s.d)
    + WordBytes(s.e) + WordBytes(s.f) + WordBytes(s.g) + WordBytes(s.h)
  }

  function Sha256(msg: seq<Byte>): seq<Byte> {
    Digest(HashBlocks(H0, Padded(msg)))
  }

  // ------------------------------------------------------------- sha256_block

  function StateOf(H: seq<Word>): State
    requires |H| == 8
  {
    State(H[0], H[1], H[2], H[3], H[4], H[5], H[6], H[7])
  }

  /** rotr of the C source. */
  function CRotr(x: Word, n: nat): Word
    requires 0 < n < 32
  {
    (x >> n) | (x << (32 - n))
  }

  lemma CRotrIsRotr(x: Word)
    ensures CRotr(x, 2) == x.RotateRight(2) && CRotr(x, 13) == x.RotateRight(13) && CRotr(x, 22) == x.RotateRight(22)
    ensures CRotr(x, 6) == x.RotateRight(6) && CRotr(x, 11) == x.RotateRight(11) && CRotr(x, 25) == x.RotateRight(25)
    ensures CRotr(x, 7) == x.RotateRight(7) && CRotr(x, 18) == x.RotateRight(18)
    ensures CRotr(x, 17) == x.RotateRight(17) && CRotr(x, 19) == x.RotateRight(19)
  {
  }

  lemma BigSigmaOf(x: Word)
    ensures BigSigma0(x) == Xor(Xor(CRotr(x, 2), CRotr(x, 13)), CRotr(x, 22))
    ensures BigSigma1(x) == Xor(Xor(CRotr(x, 6), CRotr(x, 11)), CRotr(x, 25))
  {
    hide CRotr, Xor, Shr;
    CRotrIsRotr(x);
  }

  lemma SmallSigmaOf(x: Word)
    ensures SmallSigma0(x) == Xor(Xor(CRotr(x, 7), CRotr(x, 18)), Shr(3, x))
    ensures SmallSigma1(x) == Xor(Xor(CRotr(x, 17), CRotr(x, 19)), Shr(10, x))
  {
    hide CRotr, Xor, Shr;
    CRotrIsRotr(x);
  }

  /** A word of the schedule, as the source computes it. */
  lemma NextWord(p: Chunk, t: nat, w16: Word, w15: Word, w7: Word, w2: Word)
    requires 16 <= t < 64 && Schedule(p, t - 16) == w16 && Schedule(p, t - 15) == w15
    requires Schedule(p, t - 7) == w7 && Schedule(p, t - 2) == w2
    ensures Schedule(p, t) == Sum4(w16, Xor(Xor(CRotr(w15, 7), CRotr(w15, 18)), Shr(3, w15)),
                                   w7, Xor(Xor(CRotr(w2, 17), CRotr(w2, 19)), Shr(10, w2)))
  {
    hide BigEndian, CRotr, Xor, Shr, Sum4, SmallSigma0, SmallSigma1;
    SmallSigmaOf(w15);
    SmallSigmaOf(w2);
    SumOrder(w16, SmallSigma0(w15), w7, SmallSigma1(w2));
  }

  method Expand(w: array<Word>, p: Chunk)
    requires w.Length == 64
    modifies w
    ensures forall t | 0 <= t < 64 :: w[t] == Schedule(p, t)
  {
    hide BigEndian, CRotr, Xor, Shr, Sum4;
    for t := 0 to 16
      invariant forall i | 0 <= i < t :: w[i] == Schedule(p, i)
    {
      w[t] := BigEndian(p[4 * t], p[4 * t + 1], p[4 * t + 2], p[4 * t + 3]);
    }
    hide Schedule;
    for t := 16 to 64
      invariant forall i | 0 <= i < t :: w[i] == Schedule(p, i)
    {
      NextWord(p, t, w[t - 16], w[t - 15], w[t - 7], w[t - 2]);
      var s0 := Xor(Xor(CRotr(w[t - 15], 7), CRotr(w[t - 15], 18)), Shr(3, w[t - 15]));
      var s1 := Xor(Xor(CRotr(w[t - 2], 17), CRotr(w[t - 2], 19)), Shr(10, w[t - 2]));
      w[t] := Sum4(w[t - 16], s0, w[t - 7], s1);
    }
  }

  lemma SumOrder(a: Word, b: Word, c: Word, d: Word)
    ensures Sum4(a, b, c, d) == Sum4(d, c, b, a)
  {
  }

  method Sha256Block(H: array<Word>, p: Chunk)
    requires H.Length == 8
    modifies H
    ensures StateOf(H[..]) == Compress(old(StateOf(H[..])), p)
  {
    hide CRotr, BigSigma0, BigSigma1, Schedule, Add, Xor, And, Not, Sum4, Plus, StateOf;
    ghost var s := StateOf(H[..]);
    var w := new Word[64];
    Expand(w, p);
    var a, b, c, d, e, f, g, h := H[0], H[1], H[2], H[3], H[4], H[5], H[6], H[7];
    LoadState(H[..]);
    for t := 0 to 64
      invariant State(a, b, c, d, e, f, g, h) == Rounds(s, p, t)
      invariant H[..] == old(H[..]) && forall i | 0 <= i < 64 :: w[i] == Schedule(p, i)
    {
      BigSigmaOf(e);
      BigSigmaOf(a);
      var S1 := Xor(Xor(CRotr(e, 6), CRotr(e, 11)), CRotr(e, 25));
      var ch := Xor(And(e, f), And(Not(e), g));
      var t1 := Add(Sum4(h, S1, ch, K[t]), w[t]);
      var S0 := Xor(Xor(CRotr(a, 2), CRotr(a, 13)), CRotr(a, 22));
      var maj := Xor(Xor(And(a, b), And(a, c)), And(b, c));
      var t2 := Add(S0, maj);
      h, g, f, e := g, f, e, Add(d, t1);
      d, c, b, a := c, b, a, Add(t1, t2);
    }
    Accumulate(H, a, b, c, d, e, f, g, h);
  }

  method Accumulate(H: array<Word>, a: Word, b: Word, c: Word, d: Word, e: Word, f: Word, g: Word, h: Word)
    requires H.Length == 8
    modifies H
    ensures StateOf(H[..]) == Plus(State(a, b, c, d, e, f, g, h), old(StateOf(H[..])))
  {
    hide Add, Plus, StateOf;
    H[0], H[1], H[2], H[3] := Add(H[0], a), Add(H[1], b), Add(H[2], c), Add(H[3], d);
    H[4], H[5], H[6], H[7] := Add(H[4], e), Add(H[5], f), Add(H[6], g), Add(H[7], h);
    StoreState(old(H[..]), H[..], State(a, b, c, d, e, f, g, h));
  }

  lemma LoadState(H: seq<Word>)
    requires |H| == 8
    ensures StateOf(H) == State(H[0], H[1], H[2], H[3], H[4], H[5], H[6], H[7])
  {
  }

  lemma StoreState(before: seq<Word>, after: seq<Word>, s: State)
    requires |before| == |after| == 8
    requires after == [Add(before[0], s.a), Add(before[1], s.b), Add(before[2], s.c), Add(before[3], s.d),
                       Add(before[4], s.e), Add(before[5], s.f), Add(before[6], s.g), Add(before[7], s.h)]
    ensures StateOf(after) == Plus(s, StateOf(before))
  {
    hide Add;
    AddCommutes(before[0], s.a);
    AddCommutes(before[1], s.b);
    AddCommutes(before[2], s.c);
    AddCommutes(before[3], s.d);
    AddCommutes(before[4], s.e);
    AddCommutes(before[5], s.f);
    AddCommutes(before[6], s.g);
    AddCommutes(before[7], s.h);
  }

  lemma AddCommutes(x: Word, y: Word)
    ensures Add(x, y) == Add(y, x)
  {
  }

  // ------------------------------------------------------------------- sha256

  lemma HashNext(s: State, m: seq<Byte>)
    requires |m| % 64 == 0 && |m| > 0
    ensures |m| >= 64 && |m[64..]| % 64 == 0 && HashBlocks(s, m) == HashBlocks(Compress(s, m[..64]), m[64..])
  {
    hide Compress;
    WholeBlock(|m|);
  }

  const WORD := 0x1_0000_0000

  /** The two 32-bit halves (len >> 29, len << 3) are 8 * len in 64 bits, byte by byte. */
  lemma LengthTrailer(len: nat)
    requires len < WORD
    ensures var hi, lo := len / 0x2000_0000, len * 8 % WORD;
            && hi * WORD + lo == 8 * len && hi < WORD
            && NatBytes(8 * len, 8) == NatBytes(hi, 4) + NatBytes(lo, 4)
  {
    var hi, lo := len / 0x2000_0000, len * 8 % WORD;
    Halves(len);
    TwoHalves(8 * len, hi, lo);
  }

  lemma TwoHalves(n: nat, hi: nat, lo: nat)
    requires n == hi * WORD + lo && lo < WORD
    ensures NatBytes(n, 8) == NatBytes(hi, 4) + NatBytes(lo, 4)
  {
    FourPowers();
    hide Pow256, NatBytes;
    NatBytesSplit(hi, lo, 4);
  }

  lemma Halves(len: nat)
    requires len < WORD
    ensures var hi, lo := len / 0x2000_0000, len * 8 % WORD;
            hi * WORD + lo == 8 * len && hi < WORD && lo < WORD
  {
    assert len * 8 / WORD == len / 0x2000_0000;
  }

  lemma FourPowers()
    ensures Pow256(4) == WORD
  {
  }

  /** Writing two halves big-endian, one after the other, writes the whole number. */
  lemma NatBytesSplit(hi: nat, lo: nat, k: nat)
    requires lo < Pow256(k)
    ensures NatBytes(hi * Pow256(k) + lo, 4 + k) == NatBytes(hi, 4) + NatBytes(lo, k)
  {
    if k == 0 {
      assert NatBytes(hi, 4) + [] == NatBytes(hi, 4);
    } else {
      var n := hi * Pow256(k) + lo;
      assert n == 256 * (hi * Pow256(k - 1)) + lo;
      assert n / 256 == hi * Pow256(k - 1) + lo / 256 && n % 256 == lo % 256;
      NatBytesSplit(hi, lo / 256, k - 1);
      var last := [ToByte(lo % 256)];
      assert NatBytes(hi, 4) + (NatBytes(lo / 256, k - 1) + last) == NatBytes(hi, 4) + NatBytes(lo / 256, k - 1) + last;
    }
  }

  function FourBytes(n: nat): seq<Byte>
    requires n < WORD
  {
    [ToByte(n / 0x100_0000), ToByte(n / 0x1_0000 % 256), ToByte(n / 0x100 % 256), ToByte(n % 256)]
  }

  lemma FourBytesAreNatBytes(n: nat)
    requires n < WORD
    ensures NatBytes(n, 4) == FourBytes(n)
  {
    hide ToByte;
    var a := n / 256;
    var b := a / 256;
    var c := b / 256;
    assert a == n / 0x100 && b == n / 0x1_0000 && c == n / 0x100_0000 && c < 256;
    assert NatBytes(c, 1) == [ToByte(c % 256)];
    assert NatBytes(b, 2) == NatBytes(c, 1) + [ToByte(b % 256)];
    assert NatBytes(a, 3) == NatBytes(b, 2) + [ToByte(a % 256)];
  }

  /** The final block or two: leftover bytes, terminator, zeros and the length. */
  method BuildTail(data: seq<Byte>, full: nat, tail: array<Byte>) returns (tlen: nat)
    requires |data| < WORD && full <= |data| < full + 64 && full % 64 == 0 && tail.Length == 128
    modifies tail
    ensures tlen == (if |data| - full >= 56 then 128 else 64)
    ensures tail[..tlen] == data[full..] + Padding(|data|)
  {
    hide NatBytes, FourBytes;
    var len, rem := |data|, |data| - full;
    for j := 0 to rem
      invariant tail[..j] == data[full..full + j]
    {
      tail[j] := data[full + j];
      assert tail[..j + 1] == tail[..j] + [data[full + j]];
    }
    tail[rem] := 0x80;
    tlen := if rem >= 56 then 128 else 64;
    for j := rem + 1 to tlen - 8
      invariant tail[..rem] == data[full..] && tail[rem] == 0x80
      invariant forall i | rem < i < j :: tail[i] == 0
    {
      tail[j] := 0;
    }
    var hi, lo := len / 0x2000_0000, len * 8 % WORD;
    LengthTrailer(len);
    FourBytesAreNatBytes(hi);
    FourBytesAreNatBytes(lo);
    PutLength(tail, tlen, hi, lo);
    PaddingShape(len, full);
    TailShape(data, full, tail[..tlen], FourBytes(hi) + FourBytes(lo));
  }

  method PutLength(tail: array<Byte>, tlen: nat, hi: nat, lo: nat)
    requires 8 <= tlen <= tail.Length && hi < WORD && lo < WORD
    modifies tail
    ensures forall i | 0 <= i < tail.Length && !(tlen - 8 <= i < tlen) :: tail[i] == old(tail[i])
    ensures tail[tlen - 8..tlen] == FourBytes(hi) + FourBytes(lo)
  {
    PutWord(tail, tlen - 8, hi);
    PutWord(tail, tlen - 4, lo);
    assert tail[tlen - 8..tlen] == tail[tlen - 8..tlen - 4] + tail[tlen - 4..tlen];
  }

  method PutWord(tail: array<Byte>, at: nat, n: nat)
    requires at + 4 <= tail.Length && n < WORD
    modifies tail
    ensures forall i | 0 <= i < tail.Length && !(at <= i < at + 4) :: tail[i] == old(tail[i])
    ensures tail[at..at + 4] == FourBytes(n)
  {
    hide ToByte;
    tail[at] := ToByte(n / 0x100_0000);
    tail[at + 1] := ToByte(n / 0x1_0000 % 256);
    tail[at + 2] := ToByte(n / 0x100 % 256);
    tail[at + 3] := ToByte(n % 256);
    assert tail[at..at + 4] == [tail[at], tail[at + 1], tail[at + 2], tail[at + 3]];
  }

  lemma PaddingShape(len: nat, full: nat)
    requires full <= len < full + 64 && full % 64 == 0
    ensures var rem := len - full;
            Padding(len) == [0x80] + Zeros((if rem >= 56 then 119 else 55) - rem) + NatBytes(8 * len, 8)
  {
    assert len % 64 == len - full;
    PaddingZeros(len - full);
  }

  lemma TailShape(data: seq<Byte>, full: nat, tail: seq<Byte>, trailer: seq<Byte>)
    requires full <= |data| && |data| - full + 9 <= |tail|
    requires Padding(|data|) == [0x80] + Zeros(|tail| - 9 - (|data| - full)) + trailer
    requires var rem := |data| - full;
             && tail[..rem] == data[full..] && tail[rem] == 0x80
             && (forall i | rem < i < |tail| - 8 :: tail[i] == 0)
             && tail[|tail| - 8..] == trailer
    ensures tail == data[full..] + Padding(|data|)
  {
    hide Padding, Zeros;
    TailParts(tail, |data| - full, trailer);
  }

  lemma TailParts(tail: seq<Byte>, rem: nat, trailer: seq<Byte>)
    requires rem + 9 <= |tail| && tail[rem] == 0x80 && tail[|tail| - 8..] == trailer
    requires forall i | rem < i < |tail| - 8 :: tail[i] == 0
    ensures tail == tail[..rem] + ([0x80] + Zeros(|tail| - 9 - rem) + trailer)
  {
    var zeros := tail[rem + 1..|tail| - 8];
    assert zeros == Zeros(|tail| - 9 - rem);
    assert tail[rem..] == [tail[rem]] + zeros + trailer;
    assert tail == tail[..rem] + tail[rem..];
  }

  method HashWholeBlocks(H: array<Word>, data: seq<Byte>, full: nat, ghost m: seq<Byte>)
    requires H.Length == 8 && full % 64 == 0 && full <= |data| && |m| % 64 == 0 && data <= m
    modifies H
    ensures HashBlocks(StateOf(H[..]), m[full..]) == HashBlocks(old(StateOf(H[..])), m)
  {
    hide Compress, HashBlocks, StateOf;
    var i := 0;
    assert m[0..] == m;
    while i < full
      invariant i % 64 == 0 && i <= full
      invariant HashBlocks(StateOf(H[..]), m[i..]) == HashBlocks(old(StateOf(H[..])), m)
    {
      HashNext(StateOf(H[..]), m[i..]);
      BlockOf(data, m, i);
      Sha256Block(H, data[i..i + 64]);
      i := i + 64;
    }
  }

  lemma BlockOf(data: seq<Byte>, m: seq<Byte>, i: nat)
    requires i + 64 <= |data| && data <= m
    ensures data[i..i + 64] == m[i..][..64] && m[i..][64..] == m[i + 64..]
  {
  }

  method HashTail(H: array<Word>, tail: array<Byte>, tlen: nat)
    requires H.Length == 8 && tail.Length == 128 && (tlen == 64 || tlen == 128)
    modifies H
    ensures StateOf(H[..]) == HashBlocks(old(StateOf(H[..])), tail[..tlen])
  {
    hide Compress, HashBlocks, StateOf;
    HashNext(StateOf(H[..]), tail[..tlen]);
    BlockOf(tail[..64], tail[..tlen], 0);
    assert tail[..tlen][0..] == tail[..tlen] && tail[..64][0..64] == tail[..64];
    Sha256Block(H, tail[..64]);
    if tlen == 128 {
      assert tail[..tlen][64..] == tail[64..128];
      HashNext(StateOf(H[..]), tail[64..128]);
      assert tail[64..128][..64] == tail[64..128];
      Sha256Block(H, tail[64..128]);
    }
    HashEnd(StateOf(H[..]));
  }

  /** Hashing the whole blocks of data and then the tail is hashing the padded message. */
  method Sha256Hash(data: seq<Byte>, out: array<Byte>)
    requires |data| < WORD && out.Length == 32
    modifies out
    ensures out[..] == Sha256(data)
  {
    hide HashBlocks, Padding, StateOf, Digest;
    var H := new Word[8] [0x6a09e667, 0xbb67ae85, 0x3c6ef372, 0xa54ff53a,
                          0x510e527f, 0x9b05688c, 0x1f83d9ab, 0x5be0cd19];
    LoadState(H[..]);
    ghost var m := Padded(data);
    var full := |data| - |data| % 64;
    HashWholeBlocks(H, data, full, m);
    var tail := new Byte[128];
    var tlen := BuildTail(data, full, tail);
    assert m[full..] == tail[..tlen];
    HashTail(H, tail, tlen);
    WriteDigest(H, out);
    assert out[..] == out[..32];
  }

  lemma HashEnd(s: State)
    ensures HashBlocks(s, []) == s
  {
  }

  method WriteDigest(H: array<Word>, out: array<Byte>)
    requires H.Length == 8 && out.Length == 32
    modifies out
    ensures out[..] == Digest(StateOf(H[..]))
  {
    hide WordBytes;
    ghost var s := H[..];
    for j := 0 to 8
      invariant out[..4 * j] == Concat(s, j)
    {
      PutDigestWord(out, 4 * j, H[j]);
      assert out[..4 * (j + 1)] == out[..4 * j] + out[4 * j..4 * j + 4];
    }
    DigestIsConcat(s);
  }

  method PutDigestWord(out: array<Byte>, at: nat, w: Word)
    requires at + 4 <= out.Length
    modifies out
    ensures out[..at] == old(out[..at]) && out[at..at + 4] == WordBytes(w)
  {
    hide LowByte;
    out[at], out[at + 1], out[at + 2], out[at + 3] := LowByte(w >> 24), LowByte(w >> 16), LowByte(w >> 8), LowByte(w);
  }

  ghost function Concat(H: seq<Word>, n: nat): seq<Byte>
    requires n <= |H|
  {
    if n == 0 then [] else Concat(H, n - 1) + WordBytes(H[n - 1])
  }

  lemma DigestIsConcat(H: seq<Word>)
    requires |H| == 8
    ensures Concat(H, 8) == Digest(StateOf(H))
  {
    hide WordBytes;
    assert Concat(H, 1) == [] + WordBytes(H[0]) == WordBytes(H[0]);
    assert Concat(H, 2) == Concat(H, 1) + WordBytes(H[1]);
    assert Concat(H, 3) == Concat(H, 2) + WordBytes(H[2]);
    assert Concat(H, 4) == Concat(H, 3) + WordBytes(H[3]);
    assert Concat(H, 5) == Concat(H, 4) + WordBytes(H[4]);
    assert Concat(H, 6) == Concat(H, 5) + WordBytes(H[5]);
    assert Concat(H, 7) == Concat(H, 6) + WordBytes(H[6]);
  }
}
