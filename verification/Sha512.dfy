/**
 SHA-512 as a function of the whole message: the compression function in the recursive form of
 section 6.4.2 of FIPS 180-4, folded over the padded message. The 80 round constants are a
 parameter, because the table of the sources is not the one of the standard.
 */
module Sha512 {
  import opened MachineInts
  import opened MerkleDamgard

  const BLOCK: nat := 128
  const LENGTH_FIELD: nat := 16

  const IV: seq<bv64> :=
    [0x6a09e667f3bcc908, 0xbb67ae8584caa73b, 0x3c6ef372fe94f82b, 0xa54ff53a5f1d36f1,
     0x510e527fade682d1, 0x9b05688c2b3e6c1f, 0x1f83d9abfb41bd6b, 0x5be0cd19137e2179]

  // The operators on 64-bit words. Named, so that equal expressions are recognised without bit-level reasoning.
  function Add(x: bv64, y: bv64): bv64 { x + y }
  function Xor(x: bv64, y: bv64): bv64 { x ^ y }
  function And(x: bv64, y: bv64): bv64 { x & y }
  function Not(x: bv64): bv64 { !x }
  function Shr(x: bv64, n: bv64): bv64 { if n < 64 then x >> n else 0 }
  function Rotr(x: bv64, n: bv64): bv64 { if 0 < n < 64 then (x >> n) | (x << (64 - n)) else x }

  // The logical functions of section 4.1.2.
  function Ch(x: bv64, y: bv64, z: bv64): bv64 { Xor(And(x, y), And(Not(x), z)) }
  function Maj(x: bv64, y: bv64, z: bv64): bv64 { Xor(Xor(And(x, y), And(x, z)), And(y, z)) }
  function BigSigma0(x: bv64): bv64 { Xor(Xor(Rotr(x, 28), Rotr(x, 34)), Rotr(x, 39)) }
  function BigSigma1(x: bv64): bv64 { Xor(Xor(Rotr(x, 14), Rotr(x, 18)), Rotr(x, 41)) }
  function SmallSigma0(x: bv64): bv64 { Xor(Xor(Rotr(x, 1), Rotr(x, 8)), Shr(x, 7)) }
  function SmallSigma1(x: bv64): bv64 { Xor(Xor(Rotr(x, 19), Rotr(x, 61)), Shr(x, 6)) }

  function Wide(b: u8): bv64 { (b as bv8) as bv64 }

  function JoinBytes(a: u8, b: u8, c: u8, d: u8, e: u8, f: u8, g: u8, h: u8): bv64 {
    (Wide(a) << 56) | (Wide(b) << 48) | (Wide(c) << 40) | (Wide(d) << 32)
    | (Wide(e) << 24) | (Wide(f) << 16) | (Wide(g) << 8) | Wide(h)
  }

  /** The word in eight bytes, most significant first. */
  function Word(b: seq<u8>): bv64
    requires |b| == 8
  {
    JoinBytes(b[0], b[1], b[2], b[3], b[4], b[5], b[6], b[7])
  }

  function Expand(w2: bv64, w7: bv64, w15: bv64, w16: bv64): bv64 {
    Add(Add(Add(SmallSigma1(w2), w7), SmallSigma0(w15)), w16)
  }

  /** The first n words of the message schedule. */
  function Schedule(block: seq<u8>, n: nat): (w: seq<bv64>)
    requires |block| == BLOCK
    ensures |w| == n
  {
    if n == 0 then [] else
    var w, t := Schedule(block, n - 1), n - 1;
    w + [if t < 16 then Word(block[8 * t..8 * t + 8])
         else Expand(w[t - 2], w[t - 7], w[t - 15], w[t - 16])]
  }

  lemma ScheduleStep(block: seq<u8>, n: nat)
    requires |block| == BLOCK
    ensures Schedule(block, 0) == []
    ensures var w := Schedule(block, n);
            Schedule(block, n + 1) ==
              w + [if n < 16 then Word(block[8 * n..8 * n + 8])
                   else Expand(w[n - 2], w[n - 7], w[n - 15], w[n - 16])]
  {}

  /** Longer schedules extend shorter ones, so each word obeys the recurrence of the standard. */
  lemma {:induction false} ScheduleAt(block: seq<u8>, n: nat, t: nat)
    requires |block| == BLOCK && t < n
    ensures var w := Schedule(block, n);
            w[t] == if t < 16 then Word(block[8 * t..8 * t + 8])
                    else Expand(w[t - 2], w[t - 7], w[t - 15], w[t - 16])
    ensures Schedule(block, n)[..t] == Schedule(block, t)
  {
    hide Expand, Word;
    if n == t + 1 {
    } else {
      ScheduleAt(block, n - 1, t);
    }
  }

  datatype Working = Working(a: bv64, b: bv64, c: bv64, d: bv64, e: bv64, f: bv64, g: bv64, h: bv64)

  function Round(v: Working, k: bv64, w: bv64): Working {
    var t1 := Add(Add(Add(Add(v.h, BigSigma1(v.e)), Ch(v.e, v.f, v.g)), k), w);
    var t2 := Add(BigSigma0(v.a), Maj(v.a, v.b, v.c));
    Working(Add(t1, t2), v.a, v.b, v.c, Add(v.d, t1), v.e, v.f, v.g)
  }

  /** The working variables after t rounds over round constants k and schedule w. */
  function Rounds(k: seq<bv64>, w: seq<bv64>, v: Working, t: nat): Working
    requires |k| == |w| == 80 && t <= 80
  {
    if t == 0 then v else Round(Rounds(k, w, v, t - 1), k[t - 1], w[t - 1])
  }

  function Load(s: seq<bv64>): Working
    requires |s| == 8
  {
    Working(s[0], s[1], s[2], s[3], s[4], s[5], s[6], s[7])
  }

  function Words(v: Working): seq<bv64> { [v.a, v.b, v.c, v.d, v.e, v.f, v.g, v.h] }

  function AddState(s: seq<bv64>, v: Working): (r: seq<bv64>)
    requires |s| == 8
    ensures |r| == 8
  {
    seq(8, i requires 0 <= i < 8 => Add(s[i], Words(v)[i]))
  }

  /** The compression function. It is only ever applied to 80 constants, 8 words and a block of 128 bytes. */
  function Compress(k: seq<bv64>, s: seq<bv64>, block: seq<u8>): seq<bv64> {
    if |k| == 80 && |s| == 8 && |block| == BLOCK then AddState(s, Rounds(k, Schedule(block, 80), Load(s), 80)) else IV
  }

  function Compression(k: seq<bv64>): (seq<bv64>, seq<u8>) -> seq<bv64> { (s, block) => Compress(k, s, block) }

  // Truncation to eight bits, then as a byte.
  function Low8(w: bv64): bv8 { (w & 0xff) as bv8 }
  function ByteOf(b: bv8): u8 { b as u8 }

  function WordBytes(w: bv64): seq<u8> {
    [ByteOf(Low8(w >> 56)), ByteOf(Low8(w >> 48)), ByteOf(Low8(w >> 40)), ByteOf(Low8(w >> 32)),
     ByteOf(Low8(w >> 24)), ByteOf(Low8(w >> 16)), ByteOf(Low8(w >> 8)), ByteOf(Low8(w))]
  }

  function Bytes(s: seq<bv64>): (b: seq<u8>)
    ensures |b| == 8 * |s|
  {
    if s == [] then [] else Bytes(s[..|s| - 1]) + WordBytes(s[|s| - 1])
  }

  /** The digest when the length field claims total bytes. */
  function CountedDigest(k: seq<bv64>, m: seq<u8>, total: nat): seq<u8> {
    Bytes(Chain(Compression(k), BLOCK, IV, m + Padding(|m|, BLOCK, LENGTH_FIELD, total)))
  }

  /** SHA-512 of a whole message over round constants k. The length field is the bit length modulo 2^128. */
  function Digest(k: seq<bv64>, m: seq<u8>): seq<u8> {
    Bytes(Hash(Compression(k), BLOCK, LENGTH_FIELD, IV, m))
  }
}
