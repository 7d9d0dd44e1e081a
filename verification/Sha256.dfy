/**
 SHA-256 as a function of the whole message: the compression function in the recursive form of
 section 6.2.2 of FIPS 180-4, folded over the padded message.
 */
module Sha256 {
  import opened MachineInts
  import opened MerkleDamgard

  const BLOCK: nat := 64
  const LENGTH_FIELD: nat := 8

  const IV: seq<bv32> :=
    [0x6a09e667, 0xbb67ae85, 0x3c6ef372, 0xa54ff53a, 0x510e527f, 0x9b05688c, 0x1f83d9ab, 0x5be0cd19]

  // The round constants, one row of the table each.
  const K_0: seq<bv32> :=
    [0x428a2f98, 0x71374491, 0xb5c0fbcf, 0xe9b5dba5, 0x3956c25b, 0x59f111f1, 0x923f82a4, 0xab1c5ed5]
  const K_1: seq<bv32> :=
    [0xd807aa98, 0x12835b01, 0x243185be, 0x550c7dc3, 0x72be5d74, 0x80deb1fe, 0x9bdc06a7, 0xc19bf174]
  const K_2: seq<bv32> :=
    [0xe49b69c1, 0xefbe4786, 0x0fc19dc6, 0x240ca1cc, 0x2de92c6f, 0x4a7484aa, 0x5cb0a9dc, 0x76f988da]
  const K_3: seq<bv32> :=
    [0x983e5152, 0xa831c66d, 0xb00327c8, 0xbf597fc7, 0xc6e00bf3, 0xd5a79147, 0x06ca6351, 0x14292967]
  const K_4: seq<bv32> :=
    [0x27b70a85, 0x2e1b2138, 0x4d2c6dfc, 0x53380d13, 0x650a7354, 0x766a0abb, 0x81c2c92e, 0x92722c85]
  const K_5: seq<bv32> :=
    [0xa2bfe8a1, 0xa81a664b, 0xc24b8b70, 0xc76c51a3, 0xd192e819, 0xd6990624, 0xf40e3585, 0x106aa070]
  const K_6: seq<bv32> :=
    [0x19a4c116, 0x1e376c08, 0x2748774c, 0x34b0bcb5, 0x391c0cb3, 0x4ed8aa4a, 0x5b9cca4f, 0x682e6ff3]
  const K_7: seq<bv32> :=
    [0x748f82ee, 0x78a5636f, 0x84c87814, 0x8cc70208, 0x90befffa, 0xa4506ceb, 0xbef9a3f7, 0xc67178f2]

  const K: seq<bv32> := K_0 + K_1 + K_2 + K_3 + K_4 + K_5 + K_6 + K_7

  // The operators on 32-bit words. Named, so that equal expressions are recognised without bit-level reasoning.
  function Add(x: bv32, y: bv32): bv32 { x + y }
  function Xor(x: bv32, y: bv32): bv32 { x ^ y }
  function And(x: bv32, y: bv32): bv32 { x & y }
  function Not(x: bv32): bv32 { !x }
  function Shr(x: bv32, n: bv32): bv32 { if n < 32 then x >> n else 0 }
  function Rotr(x: bv32, n: bv32): bv32 { if 0 < n < 32 then (x >> n) | (x << (32 - n)) else x }

  // The logical functions of section 4.1.2.
  function Ch(x: bv32, y: bv32, z: bv32): bv32 { Xor(And(x, y), And(Not(x), z)) }
  function Maj(x: bv32, y: bv32, z: bv32): bv32 { Xor(Xor(And(x, y), And(x, z)), And(y, z)) }
  function BigSigma0(x: bv32): bv32 { Xor(Xor(Rotr(x, 2), Rotr(x, 13)), Rotr(x, 22)) }
  function BigSigma1(x: bv32): bv32 { Xor(Xor(Rotr(x, 6), Rotr(x, 11)), Rotr(x, 25)) }
  function SmallSigma0(x: bv32): bv32 { Xor(Xor(Rotr(x, 7), Rotr(x, 18)), Shr(x, 3)) }
  function SmallSigma1(x: bv32): bv32 { Xor(Xor(Rotr(x, 17), Rotr(x, 19)), Shr(x, 10)) }

  function Wide(b: u8): bv32 { (b as bv8) as bv32 }

  function Word(b0: u8, b1: u8, b2: u8, b3: u8): bv32 {
    (Wide(b0) << 24) | (Wide(b1) << 16) | (Wide(b2) << 8) | Wide(b3)
  }

  function Expand(w2: bv32, w7: bv32, w15: bv32, w16: bv32): bv32 {
    Add(Add(Add(w16, SmallSigma0(w15)), w7), SmallSigma1(w2))
  }

  /** The first n words of the message schedule. */
  function Schedule(block: seq<u8>, n: nat): (w: seq<bv32>)
    requires |block| == BLOCK
    ensures |w| == n
  {
    if n == 0 then [] else
    var w, t := Schedule(block, n - 1), n - 1;
    w + [if t < 16 then Word(block[4 * t], block[4 * t + 1], block[4 * t + 2], block[4 * t + 3])
         else Expand(w[t - 2], w[t - 7], w[t - 15], w[t - 16])]
  }

  lemma ScheduleStep(block: seq<u8>, n: nat)
    requires |block| == BLOCK
    ensures Schedule(block, 0) == []
    ensures var w := Schedule(block, n);
            Schedule(block, n + 1) ==
              w + [if n < 16 then Word(block[4 * n], block[4 * n + 1], block[4 * n + 2], block[4 * n + 3])
                   else Expand(w[n - 2], w[n - 7], w[n - 15], w[n - 16])]
  {}

  /** Longer schedules extend shorter ones, so each word obeys the recurrence of the standard. */
  lemma {:induction false} ScheduleAt(block: seq<u8>, n: nat, t: nat)
    requires |block| == BLOCK && t < n
    ensures var w := Schedule(block, n);
            w[t] == if t < 16 then Word(block[4 * t], block[4 * t + 1], block[4 * t + 2], block[4 * t + 3])
                    else Expand(w[t - 2], w[t - 7], w[t - 15], w[t - 16])
    ensures Schedule(block, n)[..t] == Schedule(block, t)
  {
    hide Expand, Word;
    if n == t + 1 {
    } else {
      ScheduleAt(block, n - 1, t);
    }
  }

  datatype Working = Working(a: bv32, b: bv32, c: bv32, d: bv32, e: bv32, f: bv32, g: bv32, h: bv32)

  function Round(v: Working, k: bv32, w: bv32): Working {
    var t1 := Add(Add(Add(Add(v.h, BigSigma1(v.e)), Ch(v.e, v.f, v.g)), k), w);
    var t2 := Add(BigSigma0(v.a), Maj(v.a, v.b, v.c));
    Working(Add(t1, t2), v.a, v.b, v.c, Add(v.d, t1), v.e, v.f, v.g)
  }

  /** The working variables after t rounds over round constants k and schedule w. */
  function Rounds(k: seq<bv32>, w: seq<bv32>, v: Working, t: nat): Working
    requires |k| == |w| == 64 && t <= 64
  {
    if t == 0 then v else Round(Rounds(k, w, v, t - 1), k[t - 1], w[t - 1])
  }

  function Load(s: seq<bv32>): Working
    requires |s| == 8
  {
    Working(s[0], s[1], s[2], s[3], s[4], s[5], s[6], s[7])
  }

  function Words(v: Working): seq<bv32> { [v.a, v.b, v.c, v.d, v.e, v.f, v.g, v.h] }

  function AddState(s: seq<bv32>, v: Working): (r: seq<bv32>)
    requires |s| == 8
    ensures |r| == 8
  {
    seq(8, i requires 0 <= i < 8 => Add(s[i], Words(v)[i]))
  }

  /** The compression function. It is only ever applied to 8 words and a block of 64 bytes. */
  function Compress(s: seq<bv32>, block: seq<u8>): seq<bv32> {
    if |s| == 8 && |block| == BLOCK then AddState(s, Rounds(K, Schedule(block, 64), Load(s), 64)) else IV
  }

  function Compression(): (seq<bv32>, seq<u8>) -> seq<bv32> { (s, block) => Compress(s, block) }

  lemma {:induction false} ChainLength(s: seq<bv32>, data: seq<u8>)
    requires |s| == 8
    ensures |Chain(Compression(), BLOCK, s, data)| == 8
    decreases |data|
  {
    if |data| < BLOCK {
    } else {
      ChainLength(Compression()(s, data[..BLOCK]), data[BLOCK..]);
    }
  }

  // Truncation to eight bits, then as a byte.
  function Low8(w: bv32): bv8 { (w & 0xff) as bv8 }
  function ByteOf(b: bv8): u8 { b as u8 }

  function WordBytes(w: bv32): seq<u8> {
    [ByteOf(Low8(w >> 24)), ByteOf(Low8(w >> 16)), ByteOf(Low8(w >> 8)), ByteOf(Low8(w))]
  }

  lemma ByteOfInjective(b: bv8, c: bv8)
    requires ByteOf(b) == ByteOf(c)
    ensures b == c
  {
    assert (b as int) as bv8 == b && (c as int) as bv8 == c;
  }

  lemma WordByItsBytes(v: bv32, w: bv32)
    requires Low8(v >> 24) == Low8(w >> 24) && Low8(v >> 16) == Low8(w >> 16)
    requires Low8(v >> 8) == Low8(w >> 8) && Low8(v) == Low8(w)
    ensures v == w
  {}

  lemma WordBytesInjective(v: bv32, w: bv32)
    requires WordBytes(v) == WordBytes(w)
    ensures v == w
  {
    var b, c := WordBytes(v), WordBytes(w);
    assert b[0] == c[0] && b[1] == c[1] && b[2] == c[2] && b[3] == c[3];
    ByteOfInjective(Low8(v >> 24), Low8(w >> 24));
    ByteOfInjective(Low8(v >> 16), Low8(w >> 16));
    ByteOfInjective(Low8(v >> 8), Low8(w >> 8));
    ByteOfInjective(Low8(v), Low8(w));
    WordByItsBytes(v, w);
  }

  function Bytes(s: seq<bv32>): (b: seq<u8>)
    ensures |b| == 4 * |s|
  {
    if s == [] then [] else Bytes(s[..|s| - 1]) + WordBytes(s[|s| - 1])
  }

  lemma {:induction false} BytesInjective(s: seq<bv32>, t: seq<bv32>)
    requires |s| == |t| && Bytes(s) == Bytes(t)
    ensures s == t
  {
    hide WordBytes;
    if s == [] {
    } else {
      var n := |s| - 1;
      assert Bytes(s)[..4 * n] == Bytes(s[..n]) && Bytes(t)[..4 * n] == Bytes(t[..n]);
      assert Bytes(s)[4 * n..] == WordBytes(s[n]) && Bytes(t)[4 * n..] == WordBytes(t[n]);
      BytesInjective(s[..n], t[..n]);
      WordBytesInjective(s[n], t[n]);
      assert s == s[..n] + [s[n]] && t == t[..n] + [t[n]];
    }
  }

  /** SHA-256 of a whole message. The length field holds the bit length modulo 2^64. */
  function Digest(m: seq<u8>): (d: seq<u8>)
    ensures |d| == 32
  {
    ChainLength(IV, Pad(m, BLOCK, LENGTH_FIELD));
    Bytes(Hash(Compression(), BLOCK, LENGTH_FIELD, IV, m))
  }
}
