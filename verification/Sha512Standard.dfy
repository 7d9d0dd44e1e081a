/**
 SHA-512 against the text of FIPS 180-4, without its own definitions: the logical functions by their truth tables and
 by rotation, the constants as roots of primes, the byte order as numbers, and the digest of "abc".
 */
module Sha512Standard {
  import opened MachineInts
  import opened NumberTheory
  import opened MerkleDamgard
  import opened Streaming
  import opened Sha512

  // ----- logical functions and byte order -----

  /** Choice: y where x is set and z elsewhere. */
  lemma Choice(x: bv64, y: bv64, z: bv64)
    ensures Ch(x, y, z) == (x & y) | (!x & z)
  {}

  /** Majority: set in at least two of three. */
  lemma Majority(x: bv64, y: bv64, z: bv64)
    ensures Maj(x, y, z) == (x & y) | (x & z) | (y & z)
  {}

  /** The rotations in use are those of the language. */
  lemma Rotated(x: bv64)
    ensures Rotr(x, 1) == x.RotateRight(1)
    ensures Rotr(x, 8) == x.RotateRight(8)
    ensures Rotr(x, 14) == x.RotateRight(14)
    ensures Rotr(x, 18) == x.RotateRight(18)
    ensures Rotr(x, 19) == x.RotateRight(19)
    ensures Rotr(x, 28) == x.RotateRight(28)
    ensures Rotr(x, 34) == x.RotateRight(34)
    ensures Rotr(x, 39) == x.RotateRight(39)
    ensures Rotr(x, 41) == x.RotateRight(41)
    ensures Rotr(x, 61) == x.RotateRight(61)
    ensures Shr(x, 7) == x >> 7
    ensures Shr(x, 6) == x >> 6
  {}

  lemma Operators(x: bv64, y: bv64)
    ensures Xor(x, y) == x ^ y && Add(x, y) == x + y
  {}

  lemma Sigmas(x: bv64)
    ensures BigSigma0(x) == Xor(Xor(x.RotateRight(28), x.RotateRight(34)), x.RotateRight(39))
    ensures BigSigma1(x) == Xor(Xor(x.RotateRight(14), x.RotateRight(18)), x.RotateRight(41))
    ensures SmallSigma0(x) == Xor(Xor(x.RotateRight(1), x.RotateRight(8)), x >> 7)
    ensures SmallSigma1(x) == Xor(Xor(x.RotateRight(19), x.RotateRight(61)), x >> 6)
  {
    Rotated(x);
    hide Rotr, Xor, Shr;
  }

  lemma Joined(a: bv8, b: bv8, c: bv8, d: bv8, e: bv8, f: bv8, g: bv8, h: bv8)
    ensures (((a as bv64) << 56) | ((b as bv64) << 48) | ((c as bv64) << 40) | ((d as bv64) << 32)
             | ((e as bv64) << 24) | ((f as bv64) << 16) | ((g as bv64) << 8) | (h as bv64)) as int
            == 0x100_0000_0000_0000 * a as int + 0x1_0000_0000_0000 * b as int
               + 0x100_0000_0000 * c as int + 0x1_0000_0000 * d as int
               + 0x100_0000 * e as int + 0x1_0000 * f as int
               + 0x100 * g as int + h as int
  {}

  lemma Split(w: bv64)
    ensures w == ((Low8(w >> 56) as bv64) << 56) | ((Low8(w >> 48) as bv64) << 48)
              | ((Low8(w >> 40) as bv64) << 40) | ((Low8(w >> 32) as bv64) << 32)
              | ((Low8(w >> 24) as bv64) << 24) | ((Low8(w >> 16) as bv64) << 16)
              | ((Low8(w >> 8) as bv64) << 8) | (Low8(w) as bv64)
  {}

  lemma BitsAsByte(b: bv8)
    ensures ByteOf(b) as int == b as int
  {}

  /** The bytes of the digest are those of each word, most significant first. */
  lemma WordBytesAreBigEndian(w: bv64)
    ensures var b := WordBytes(w);
            && |b| == 8
            && w as int == 0x100_0000_0000_0000 * b[0] as int + 0x1_0000_0000_0000 * b[1] as int
                        + 0x100_0000_0000 * b[2] as int + 0x1_0000_0000 * b[3] as int
                        + 0x100_0000 * b[4] as int + 0x1_0000 * b[5] as int
                        + 0x100 * b[6] as int + b[7] as int
  {
    Split(w);
    Joined(Low8(w >> 56), Low8(w >> 48), Low8(w >> 40), Low8(w >> 32),
           Low8(w >> 24), Low8(w >> 16), Low8(w >> 8), Low8(w));
    BitsAsByte(Low8(w >> 56));
    BitsAsByte(Low8(w >> 48));
    BitsAsByte(Low8(w >> 40));
    BitsAsByte(Low8(w >> 32));
    BitsAsByte(Low8(w >> 24));
    BitsAsByte(Low8(w >> 16));
    BitsAsByte(Low8(w >> 8));
    BitsAsByte(Low8(w));
  }

  function Narrow(b: u8): bv8 { b as bv8 }

  lemma Widened(b: u8)
    ensures Wide(b) == Narrow(b) as bv64 && ByteOf(Narrow(b)) == b
  {
    hide ByteOf;
    NarrowKeeps(b);
  }

  lemma NarrowKeeps(b: u8)
    ensures ByteOf(Narrow(b)) == b
  {
    BitsOfNumber(b as int);
  }

  lemma Parts(w: bv64, a: bv8, b: bv8, c: bv8, d: bv8, e: bv8, f: bv8, g: bv8, h: bv8,
              wa: bv64, wb: bv64, wc: bv64, wd: bv64, we: bv64, wf: bv64, wg: bv64, wh: bv64)
    requires wa == a as bv64 && wb == b as bv64 && wc == c as bv64 && wd == d as bv64
    requires we == e as bv64 && wf == f as bv64 && wg == g as bv64 && wh == h as bv64
    requires w == (wa << 56) | (wb << 48) | (wc << 40) | (wd << 32) | (we << 24) | (wf << 16) | (wg << 8) | wh
    ensures Low8(w >> 56) == a && Low8(w >> 48) == b && Low8(w >> 40) == c && Low8(w >> 32) == d
    ensures Low8(w >> 24) == e && Low8(w >> 16) == f && Low8(w >> 8) == g && Low8(w) == h
  {}

  lemma PartsOfWord(a: u8, b: u8, c: u8, d: u8, e: u8, f: u8, g: u8, h: u8)
    ensures var w := JoinBytes(a, b, c, d, e, f, g, h);
            && Low8(w >> 56) == Narrow(a) && Low8(w >> 48) == Narrow(b)
            && Low8(w >> 40) == Narrow(c) && Low8(w >> 32) == Narrow(d)
            && Low8(w >> 24) == Narrow(e) && Low8(w >> 16) == Narrow(f)
            && Low8(w >> 8) == Narrow(g) && Low8(w) == Narrow(h)
  {
    hide Wide, Low8, ByteOf, Narrow;
    Widened(a);
    Widened(b);
    Widened(c);
    Widened(d);
    Widened(e);
    Widened(f);
    Widened(g);
    Widened(h);
    Parts(JoinBytes(a, b, c, d, e, f, g, h), Narrow(a), Narrow(b), Narrow(c), Narrow(d),
          Narrow(e), Narrow(f), Narrow(g), Narrow(h),
          Wide(a), Wide(b), Wide(c), Wide(d),
          Wide(e), Wide(f), Wide(g), Wide(h));
  }

  lemma JoinedRoundTrip(a: u8, b: u8, c: u8, d: u8, e: u8, f: u8, g: u8, h: u8)
    ensures WordBytes(JoinBytes(a, b, c, d, e, f, g, h)) == [a, b, c, d, e, f, g, h]
  {
    hide Wide, Low8, ByteOf, Narrow, JoinBytes;
    PartsOfWord(a, b, c, d, e, f, g, h);
    Widened(a);
    Widened(b);
    Widened(c);
    Widened(d);
    Widened(e);
    Widened(f);
    Widened(g);
    Widened(h);
  }

  /** Reading a word and writing it back. */
  lemma WordRoundTrip(b: seq<u8>)
    requires |b| == 8
    ensures WordBytes(Word(b)) == b
  {
    hide WordBytes, JoinBytes;
    JoinedRoundTrip(b[0], b[1], b[2], b[3], b[4], b[5], b[6], b[7]);
  }

  /** A word holds its bytes most significant first. */
  lemma WordIsBigEndian(b: seq<u8>)
    requires |b| == 8
    ensures Word(b) as int == 0x100_0000_0000_0000 * b[0] as int + 0x1_0000_0000_0000 * b[1] as int
               + 0x100_0000_0000 * b[2] as int + 0x1_0000_0000 * b[3] as int
               + 0x100_0000 * b[4] as int + 0x1_0000 * b[5] as int
               + 0x100 * b[6] as int + b[7] as int
  {
    WordRoundTrip(b);
    WordBytesAreBigEndian(Word(b));
    hide Word, WordBytes;
  }

  // ----- constants -----

  const PRIMES_0: seq<nat> := [2, 3, 5, 7, 11, 13, 17, 19]
  const PRIMES_1: seq<nat> := [23, 29, 31, 37, 41, 43, 47, 53]
  const PRIMES_2: seq<nat> := [59, 61, 67, 71, 73, 79, 83, 89]
  const PRIMES_3: seq<nat> := [97, 101, 103, 107, 109, 113, 127, 131]
  const PRIMES_4: seq<nat> := [137, 139, 149, 151, 157, 163, 167, 173]
  const PRIMES_5: seq<nat> := [179, 181, 191, 193, 197, 199, 211, 223]
  const PRIMES_6: seq<nat> := [227, 229, 233, 239, 241, 251, 257, 263]
  const PRIMES_7: seq<nat> := [269, 271, 277, 281, 283, 293, 307, 311]
  const PRIMES_8: seq<nat> := [313, 317, 331, 337, 347, 349, 353, 359]
  const PRIMES_9: seq<nat> := [367, 373, 379, 383, 389, 397, 401, 409]

  /** The first 80 primes. */
  const PRIMES: seq<nat> :=
    PRIMES_0 + PRIMES_1 + PRIMES_2 + PRIMES_3 + PRIMES_4 + PRIMES_5 + PRIMES_6 + PRIMES_7 + PRIMES_8 + PRIMES_9

  // The round constants of section 4.2.3. The table of the sources is another one.
  const K_0: seq<bv64> :=
    [0x428a2f98d728ae22, 0x7137449123ef65cd, 0xb5c0fbcfec4d3b2f, 0xe9b5dba58189dbbc,
     0x3956c25bf348b538, 0x59f111f1b605d019, 0x923f82a4af194f9b, 0xab1c5ed5da6d8118]
  const K_1: seq<bv64> :=
    [0xd807aa98a3030242, 0x12835b0145706fbe, 0x243185be4ee4b28c, 0x550c7dc3d5ffb4e2,
     0x72be5d74f27b896f, 0x80deb1fe3b1696b1, 0x9bdc06a725c71235, 0xc19bf174cf692694]
  const K_2: seq<bv64> :=
    [0xe49b69c19ef14ad2, 0xefbe4786384f25e3, 0x0fc19dc68b8cd5b5, 0x240ca1cc77ac9c65,
     0x2de92c6f592b0275, 0x4a7484aa6ea6e483, 0x5cb0a9dcbd41fbd4, 0x76f988da831153b5]
  const K_3: seq<bv64> :=
    [0x983e5152ee66dfab, 0xa831c66d2db43210, 0xb00327c898fb213f, 0xbf597fc7beef0ee4,
     0xc6e00bf33da88fc2, 0xd5a79147930aa725, 0x06ca6351e003826f, 0x142929670a0e6e70]
  const K_4: seq<bv64> :=
    [0x27b70a8546d22ffc, 0x2e1b21385c26c926, 0x4d2c6dfc5ac42aed, 0x53380d139d95b3df,
     0x650a73548baf63de, 0x766a0abb3c77b2a8, 0x81c2c92e47edaee6, 0x92722c851482353b]
  const K_5: seq<bv64> :=
    [0xa2bfe8a14cf10364, 0xa81a664bbc423001, 0xc24b8b70d0f89791, 0xc76c51a30654be30,
     0xd192e819d6ef5218, 0xd69906245565a910, 0xf40e35855771202a, 0x106aa07032bbd1b8]
  const K_6: seq<bv64> :=
    [0x19a4c116b8d2d0c8, 0x1e376c085141ab53, 0x2748774cdf8eeb99, 0x34b0bcb5e19b48a8,
     0x391c0cb3c5c95a63, 0x4ed8aa4ae3418acb, 0x5b9cca4f7763e373, 0x682e6ff3d6b2b8a3]
  const K_7: seq<bv64> :=
    [0x748f82ee5defb2fc, 0x78a5636f43172f60, 0x84c87814a1f0ab72, 0x8cc702081a6439ec,
     0x90befffa23631e28, 0xa4506cebde82bde9, 0xbef9a3f7b2c67915, 0xc67178f2e372532b]
  const K_8: seq<bv64> :=
    [0xca273eceea26619c, 0xd186b8c721c0c207, 0xeada7dd6cde0eb1e, 0xf57d4f7fee6ed178,
     0x06f067aa72176fba, 0x0a637dc5a2c898a6, 0x113f9804bef90dae, 0x1b710b35131c471b]
  const K_9: seq<bv64> :=
    [0x28db77f523047d84, 0x32caab7b40c72493, 0x3c9ebe0a15c9bebc, 0x431d67c49c100d4c,
     0x4cc5d4becb3e42b6, 0x597f299cfc657e2a, 0x5fcb6fab3ad6faec, 0x6c44198c4a475817]

  const K: seq<bv64> := K_0 + K_1 + K_2 + K_3 + K_4 + K_5 + K_6 + K_7 + K_8 + K_9

  /** The integer part of a cube root. */
  function CubeFloor(p: nat): nat {
    if p < 8 then 1 else if p < 27 then 2 else if p < 64 then 3 else if p < 125 then 4
    else if p < 216 then 5 else if p < 343 then 6 else 7
  }

  function SquareFloor(p: nat): nat {
    if p < 4 then 1 else if p < 9 then 2 else if p < 16 then 3 else 4
  }

  /** k is the first 64 bits of the fractional part of the cube root of p. */
  predicate CubeRootOf(k: bv64, p: nat) {
    var c := CubeFloor(p) * 0x1_0000_0000_0000_0000 + k as int;
    c * c * c <= p * 0x1_000000000000000000000000000000000000000000000000 < (c + 1) * (c + 1) * (c + 1)
  }

  /** k is the first 64 bits of the fractional part of the square root of p. */
  predicate SquareRootOf(k: bv64, p: nat) {
    var c := SquareFloor(p) * 0x1_0000_0000_0000_0000 + k as int;
    c * c <= p * 0x1_00000000000000000000000000000000 < (c + 1) * (c + 1)
  }

  lemma CubeRoots0()
    ensures CubeRoots(K_0, PRIMES_0)
  {
    assert CubeRootOf(0x428a2f98d728ae22, 2);
    assert CubeRootOf(0x7137449123ef65cd, 3);
    assert CubeRootOf(0xb5c0fbcfec4d3b2f, 5);
    assert CubeRootOf(0xe9b5dba58189dbbc, 7);
    assert CubeRootOf(0x3956c25bf348b538, 11);
    assert CubeRootOf(0x59f111f1b605d019, 13);
    assert CubeRootOf(0x923f82a4af194f9b, 17);
    assert CubeRootOf(0xab1c5ed5da6d8118, 19);
  }

  lemma CubeRoots1()
    ensures CubeRoots(K_1, PRIMES_1)
  {
    assert CubeRootOf(0xd807aa98a3030242, 23);
    assert CubeRootOf(0x12835b0145706fbe, 29);
    assert CubeRootOf(0x243185be4ee4b28c, 31);
    assert CubeRootOf(0x550c7dc3d5ffb4e2, 37);
    assert CubeRootOf(0x72be5d74f27b896f, 41);
    assert CubeRootOf(0x80deb1fe3b1696b1, 43);
    assert CubeRootOf(0x9bdc06a725c71235, 47);
    assert CubeRootOf(0xc19bf174cf692694, 53);
  }

  lemma CubeRoots2()
    ensures CubeRoots(K_2, PRIMES_2)
  {
    assert CubeRootOf(0xe49b69c19ef14ad2, 59);
    assert CubeRootOf(0xefbe4786384f25e3, 61);
    assert CubeRootOf(0x0fc19dc68b8cd5b5, 67);
    assert CubeRootOf(0x240ca1cc77ac9c65, 71);
    assert CubeRootOf(0x2de92c6f592b0275, 73);
    assert CubeRootOf(0x4a7484aa6ea6e483, 79);
    assert CubeRootOf(0x5cb0a9dcbd41fbd4, 83);
    assert CubeRootOf(0x76f988da831153b5, 89);
  }

  lemma CubeRoots3()
    ensures CubeRoots(K_3, PRIMES_3)
  {
    assert CubeRootOf(0x983e5152ee66dfab, 97);
    assert CubeRootOf(0xa831c66d2db43210, 101);
    assert CubeRootOf(0xb00327c898fb213f, 103);
    assert CubeRootOf(0xbf597fc7beef0ee4, 107);
    assert CubeRootOf(0xc6e00bf33da88fc2, 109);
    assert CubeRootOf(0xd5a79147930aa725, 113);
    assert CubeRootOf(0x06ca6351e003826f, 127);
    assert CubeRootOf(0x142929670a0e6e70, 131);
  }

  lemma CubeRoots4()
    ensures CubeRoots(K_4, PRIMES_4)
  {
    assert CubeRootOf(0x27b70a8546d22ffc, 137);
    assert CubeRootOf(0x2e1b21385c26c926, 139);
    assert CubeRootOf(0x4d2c6dfc5ac42aed, 149);
    assert CubeRootOf(0x53380d139d95b3df, 151);
    assert CubeRootOf(0x650a73548baf63de, 157);
    assert CubeRootOf(0x766a0abb3c77b2a8, 163);
    assert CubeRootOf(0x81c2c92e47edaee6, 167);
    assert CubeRootOf(0x92722c851482353b, 173);
  }

  lemma CubeRoots5()
    ensures CubeRoots(K_5, PRIMES_5)
  {
    assert CubeRootOf(0xa2bfe8a14cf10364, 179);
    assert CubeRootOf(0xa81a664bbc423001, 181);
    assert CubeRootOf(0xc24b8b70d0f89791, 191);
    assert CubeRootOf(0xc76c51a30654be30, 193);
    assert CubeRootOf(0xd192e819d6ef5218, 197);
    assert CubeRootOf(0xd69906245565a910, 199);
    assert CubeRootOf(0xf40e35855771202a, 211);
    assert CubeRootOf(0x106aa07032bbd1b8, 223);
  }

  lemma CubeRoots6()
    ensures CubeRoots(K_6, PRIMES_6)
  {
    assert CubeRootOf(0x19a4c116b8d2d0c8, 227);
    assert CubeRootOf(0x1e376c085141ab53, 229);
    assert CubeRootOf(0x2748774cdf8eeb99, 233);
    assert CubeRootOf(0x34b0bcb5e19b48a8, 239);
    assert CubeRootOf(0x391c0cb3c5c95a63, 241);
    assert CubeRootOf(0x4ed8aa4ae3418acb, 251);
    assert CubeRootOf(0x5b9cca4f7763e373, 257);
    assert CubeRootOf(0x682e6ff3d6b2b8a3, 263);
  }

  lemma CubeRoots7()
    ensures CubeRoots(K_7, PRIMES_7)
  {
    assert CubeRootOf(0x748f82ee5defb2fc, 269);
    assert CubeRootOf(0x78a5636f43172f60, 271);
    assert CubeRootOf(0x84c87814a1f0ab72, 277);
    assert CubeRootOf(0x8cc702081a6439ec, 281);
    assert CubeRootOf(0x90befffa23631e28, 283);
    assert CubeRootOf(0xa4506cebde82bde9, 293);
    assert CubeRootOf(0xbef9a3f7b2c67915, 307);
    assert CubeRootOf(0xc67178f2e372532b, 311);
  }

  lemma CubeRoots8()
    ensures CubeRoots(K_8, PRIMES_8)
  {
    assert CubeRootOf(0xca273eceea26619c, 313);
    assert CubeRootOf(0xd186b8c721c0c207, 317);
    assert CubeRootOf(0xeada7dd6cde0eb1e, 331);
    assert CubeRootOf(0xf57d4f7fee6ed178, 337);
    assert CubeRootOf(0x06f067aa72176fba, 347);
    assert CubeRootOf(0x0a637dc5a2c898a6, 349);
    assert CubeRootOf(0x113f9804bef90dae, 353);
    assert CubeRootOf(0x1b710b35131c471b, 359);
  }

  lemma CubeRoots9()
    ensures CubeRoots(K_9, PRIMES_9)
  {
    assert CubeRootOf(0x28db77f523047d84, 367);
    assert CubeRootOf(0x32caab7b40c72493, 373);
    assert CubeRootOf(0x3c9ebe0a15c9bebc, 379);
    assert CubeRootOf(0x431d67c49c100d4c, 383);
    assert CubeRootOf(0x4cc5d4becb3e42b6, 389);
    assert CubeRootOf(0x597f299cfc657e2a, 397);
    assert CubeRootOf(0x5fcb6fab3ad6faec, 401);
    assert CubeRootOf(0x6c44198c4a475817, 409);
  }

  /** The initial state of section 5.3: the square roots of the first eight primes. */
  lemma InitialState()
    ensures forall j :: 0 <= j < 8 ==> SquareRootOf(IV[j], PRIMES_0[j])
  {
    assert SquareRootOf(0x6a09e667f3bcc908, 2);
    assert SquareRootOf(0xbb67ae8584caa73b, 3);
    assert SquareRootOf(0x3c6ef372fe94f82b, 5);
    assert SquareRootOf(0xa54ff53a5f1d36f1, 7);
    assert SquareRootOf(0x510e527fade682d1, 11);
    assert SquareRootOf(0x9b05688c2b3e6c1f, 13);
    assert SquareRootOf(0x1f83d9abfb41bd6b, 17);
    assert SquareRootOf(0x5be0cd19137e2179, 19);
  }

  predicate CubeRoots(ks: seq<bv64>, ps: seq<nat>) {
    |ks| == |ps| && forall i :: 0 <= i < |ks| ==> CubeRootOf(ks[i], ps[i])
  }

  lemma CubeRootsConcat(ks: seq<bv64>, ps: seq<nat>, ls: seq<bv64>, qs: seq<nat>)
    requires CubeRoots(ks, ps) && CubeRoots(ls, qs)
    ensures CubeRoots(ks + ls, ps + qs)
  {}

  /** The round constants of section 4.2.3: the cube roots of the first 80 primes. */
  lemma RoundConstants()
    ensures |K| == 80
    ensures CubeRoots(K, PRIMES)
  {
    hide CubeRootOf, CubeRoots;
    CubeRoots0();
    CubeRoots1();
    CubeRoots2();
    CubeRoots3();
    CubeRoots4();
    CubeRoots5();
    CubeRoots6();
    CubeRoots7();
    CubeRoots8();
    CubeRoots9();
    var ks, ps := K_0, PRIMES_0;
    CubeRootsConcat(ks, ps, K_1, PRIMES_1);
    ks, ps := ks + K_1, ps + PRIMES_1;
    CubeRootsConcat(ks, ps, K_2, PRIMES_2);
    ks, ps := ks + K_2, ps + PRIMES_2;
    CubeRootsConcat(ks, ps, K_3, PRIMES_3);
    ks, ps := ks + K_3, ps + PRIMES_3;
    CubeRootsConcat(ks, ps, K_4, PRIMES_4);
    ks, ps := ks + K_4, ps + PRIMES_4;
    CubeRootsConcat(ks, ps, K_5, PRIMES_5);
    ks, ps := ks + K_5, ps + PRIMES_5;
    CubeRootsConcat(ks, ps, K_6, PRIMES_6);
    ks, ps := ks + K_6, ps + PRIMES_6;
    CubeRootsConcat(ks, ps, K_7, PRIMES_7);
    ks, ps := ks + K_7, ps + PRIMES_7;
    CubeRootsConcat(ks, ps, K_8, PRIMES_8);
    ks, ps := ks + K_8, ps + PRIMES_8;
    CubeRootsConcat(ks, ps, K_9, PRIMES_9);
    ks, ps := ks + K_9, ps + PRIMES_9;
  }

  /** The first constant in the table of the sources is not the root it stands for: its last 12 bits are zero. */
  lemma SourceTableDiffers()
    ensures !CubeRootOf(0x428a2f98d728b000, 2)
  {}

  // ----- the first rounds of hashing "abc" -----

  // The working variables after every round.
  const V_0: Working := Working(
    0x6a09e667f3bcc908, 0xbb67ae8584caa73b, 0x3c6ef372fe94f82b, 0xa54ff53a5f1d36f1,
    0x510e527fade682d1, 0x9b05688c2b3e6c1f, 0x1f83d9abfb41bd6b, 0x5be0cd19137e2179)
  const V_1: Working := Working(
    0xf6afceb8bcfcddf5, 0x6a09e667f3bcc908, 0xbb67ae8584caa73b, 0x3c6ef372fe94f82b,
    0x58cb02347ab51f91, 0x510e527fade682d1, 0x9b05688c2b3e6c1f, 0x1f83d9abfb41bd6b)
  const V_2: Working := Working(
    0x1320f8c9fb872cc0, 0xf6afceb8bcfcddf5, 0x6a09e667f3bcc908, 0xbb67ae8584caa73b,
    0xc3d4ebfd48650ffa, 0x58cb02347ab51f91, 0x510e527fade682d1, 0x9b05688c2b3e6c1f)
  const V_3: Working := Working(
    0xebcffc07203d91f3, 0x1320f8c9fb872cc0, 0xf6afceb8bcfcddf5, 0x6a09e667f3bcc908,
    0xdfa9b239f2697812, 0xc3d4ebfd48650ffa, 0x58cb02347ab51f91, 0x510e527fade682d1)
  const V_4: Working := Working(
    0x5a83cb3e80050e82, 0xebcffc07203d91f3, 0x1320f8c9fb872cc0, 0xf6afceb8bcfcddf5,
    0x0b47b4bb1928990e, 0xdfa9b239f2697812, 0xc3d4ebfd48650ffa, 0x58cb02347ab51f91)
  const V_5: Working := Working(
    0xb680953951604860, 0x5a83cb3e80050e82, 0xebcffc07203d91f3, 0x1320f8c9fb872cc0,
    0x745aca4a342ed2e2, 0x0b47b4bb1928990e, 0xdfa9b239f2697812, 0xc3d4ebfd48650ffa)
  const V_6: Working := Working(
    0xaf573b02403e89cd, 0xb680953951604860, 0x5a83cb3e80050e82, 0xebcffc07203d91f3,
    0x96f60209b6dc35ba, 0x745aca4a342ed2e2, 0x0b47b4bb1928990e, 0xdfa9b239f2697812)
  const V_7: Working := Working(
    0xc4875b0c7abc076b, 0xaf573b02403e89cd, 0xb680953951604860, 0x5a83cb3e80050e82,
    0x5a6c781f54dcc00c, 0x96f60209b6dc35ba, 0x745aca4a342ed2e2, 0x0b47b4bb1928990e)
  const V_8: Working := Working(
    0x8093d195e0054fa3, 0xc4875b0c7abc076b, 0xaf573b02403e89cd, 0xb680953951604860,
    0x86f67263a0f0ec0a, 0x5a6c781f54dcc00c, 0x96f60209b6dc35ba, 0x745aca4a342ed2e2)

  // Each state follows from the one before it.

  lemma Rounds0()
    ensures Round(V_0, 0x428a2f98d728ae22, 0x6162638000000000) == V_1
    ensures Round(V_1, 0x7137449123ef65cd, 0x0000000000000000) == V_2
    ensures Round(V_2, 0xb5c0fbcfec4d3b2f, 0x0000000000000000) == V_3
    ensures Round(V_3, 0xe9b5dba58189dbbc, 0x0000000000000000) == V_4
  {}

  lemma Rounds1()
    ensures Round(V_4, 0x3956c25bf348b538, 0x0000000000000000) == V_5
    ensures Round(V_5, 0x59f111f1b605d019, 0x0000000000000000) == V_6
    ensures Round(V_6, 0x923f82a4af194f9b, 0x0000000000000000) == V_7
    ensures Round(V_7, 0xab1c5ed5da6d8118, 0x0000000000000000) == V_8
  {}

  lemma Expansions0()
    ensures Expand(0x0a9699a24c700003, 0x0000000000000000,
                   0x0000000000000000, 0x0000000000000000) == 0x549ef62639858996
    ensures Expand(0x00000c0060000603, 0x0000000000000000,
                   0x0000000000000000, 0x0000000000000000) == 0x00c0003300003c00
    ensures Expand(0x549ef62639858996, 0x0000000000000018,
                   0x0000000000000000, 0x0000000000000000) == 0x1497007a8a0e9dbc
    ensures Expand(0x00c0003300003c00, 0x6162638000000000,
                   0x0000000000000000, 0x0000000000000000) == 0x62e56500cc0780f0
  {}

  lemma Expansions1()
    ensures Expand(0x1497007a8a0e9dbc, 0x00030000000000c0,
                   0x0000000000000000, 0x0000000000000000) == 0x7760dd475a538797
    ensures Expand(0x62e56500cc0780f0, 0x0a9699a24c700003,
                   0x0000000000000000, 0x0000000000000000) == 0xf1554b711c1c0003
    ensures Expand(0x7760dd475a538797, 0x00000c0060000603,
                   0x0000000000000000, 0x0000000000000000) == 0xca2993a4345d9ff2
    ensures Expand(0xf1554b711c1c0003, 0x549ef62639858996,
                   0x0000000000000000, 0x0000000000000000) == 0x5e0e66b5c783dd32
  {}

  lemma AddedInPlace(s: seq<bv64>, v: Working)
    requires |s| == 8
    ensures var r := AddState(s, v);
            && |r| == 8 && r[0] == Add(s[0], v.a) && r[1] == Add(s[1], v.b) && r[2] == Add(s[2], v.c)
            && r[3] == Add(s[3], v.d) && r[4] == Add(s[4], v.e) && r[5] == Add(s[5], v.f) && r[6] == Add(s[6], v.g)
            && r[7] == Add(s[7], v.h)
  {
    hide Add;
  }

  /** Where the working variables come from and what they are added to. */
  lemma CompressSteps(k: seq<bv64>, s: seq<bv64>, block: seq<u8>)
    requires |k| == 80 && |s| == 8 && |block| == 128
    ensures var v := Rounds(k, Schedule(block, 80), Working(s[0], s[1], s[2], s[3], s[4], s[5], s[6], s[7]), 80);
            var r := Compress(k, s, block);
            && |r| == 8 && r[0] == Add(s[0], v.a) && r[1] == Add(s[1], v.b) && r[2] == Add(s[2], v.c)
            && r[3] == Add(s[3], v.d) && r[4] == Add(s[4], v.e) && r[5] == Add(s[5], v.f) && r[6] == Add(s[6], v.g)
            && r[7] == Add(s[7], v.h)
  {
    var v := Rounds(k, Schedule(block, 80), Load(s), 80);
    hide Rounds, Schedule, AddState;
    AddedInPlace(s, v);
  }
}
