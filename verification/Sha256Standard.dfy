/**
 SHA-256 against the text of FIPS 180-4, without its own definitions: the logical functions by their truth tables and
 by rotation, the constants as roots of primes, the byte order as numbers, and the digest of "abc".
 */
module Sha256Standard {
  import opened MachineInts
  import opened NumberTheory
  import opened MerkleDamgard
  import opened Streaming
  import opened Sha256

  // ----- logical functions and byte order -----

  /** Choice: y where x is set and z elsewhere. */
  lemma Choice(x: bv32, y: bv32, z: bv32)
    ensures Ch(x, y, z) == (x & y) | (!x & z)
  {}

  /** Majority: set in at least two of three. */
  lemma Majority(x: bv32, y: bv32, z: bv32)
    ensures Maj(x, y, z) == (x & y) | (x & z) | (y & z)
  {}

  /** The rotations in use are those of the language. */
  lemma Rotated(x: bv32)
    ensures Rotr(x, 2) == x.RotateRight(2)
    ensures Rotr(x, 6) == x.RotateRight(6)
    ensures Rotr(x, 7) == x.RotateRight(7)
    ensures Rotr(x, 11) == x.RotateRight(11)
    ensures Rotr(x, 13) == x.RotateRight(13)
    ensures Rotr(x, 17) == x.RotateRight(17)
    ensures Rotr(x, 18) == x.RotateRight(18)
    ensures Rotr(x, 19) == x.RotateRight(19)
    ensures Rotr(x, 22) == x.RotateRight(22)
    ensures Rotr(x, 25) == x.RotateRight(25)
    ensures Shr(x, 3) == x >> 3
    ensures Shr(x, 10) == x >> 10
  {}

  lemma Operators(x: bv32, y: bv32)
    ensures Xor(x, y) == x ^ y && Add(x, y) == x + y
  {}

  lemma Sigmas(x: bv32)
    ensures BigSigma0(x) == Xor(Xor(x.RotateRight(2), x.RotateRight(13)), x.RotateRight(22))
    ensures BigSigma1(x) == Xor(Xor(x.RotateRight(6), x.RotateRight(11)), x.RotateRight(25))
    ensures SmallSigma0(x) == Xor(Xor(x.RotateRight(7), x.RotateRight(18)), x >> 3)
    ensures SmallSigma1(x) == Xor(Xor(x.RotateRight(17), x.RotateRight(19)), x >> 10)
  {
    Rotated(x);
    hide Rotr, Xor, Shr;
  }

  lemma Joined(a: bv8, b: bv8, c: bv8, d: bv8)
    ensures (((a as bv32) << 24) | ((b as bv32) << 16) | ((c as bv32) << 8) | (d as bv32)) as int
            == 0x100_0000 * a as int + 0x1_0000 * b as int + 0x100 * c as int + d as int
  {}

  lemma Split(w: bv32)
    ensures w == ((Low8(w >> 24) as bv32) << 24) | ((Low8(w >> 16) as bv32) << 16)
              | ((Low8(w >> 8) as bv32) << 8) | (Low8(w) as bv32)
  {}

  lemma BitsAsByte(b: bv8)
    ensures ByteOf(b) as int == b as int
  {}

  /** The bytes of the digest are those of each word, most significant first. */
  lemma WordBytesAreBigEndian(w: bv32)
    ensures var b := WordBytes(w);
            && |b| == 4
            && w as int == 0x100_0000 * b[0] as int + 0x1_0000 * b[1] as int + 0x100 * b[2] as int + b[3] as int
  {
    Split(w);
    Joined(Low8(w >> 24), Low8(w >> 16), Low8(w >> 8), Low8(w));
    BitsAsByte(Low8(w >> 24));
    BitsAsByte(Low8(w >> 16));
    BitsAsByte(Low8(w >> 8));
    BitsAsByte(Low8(w));
  }

  function Narrow(b: u8): bv8 { b as bv8 }

  lemma Widened(b: u8)
    ensures Wide(b) == Narrow(b) as bv32 && ByteOf(Narrow(b)) == b
  {
    hide ByteOf;
    NarrowKeeps(b);
  }

  lemma NarrowKeeps(b: u8)
    ensures ByteOf(Narrow(b)) == b
  {
    BitsOfNumber(b as int);
  }

  lemma Parts(w: bv32, a: bv8, b: bv8, c: bv8, d: bv8,
              wa: bv32, wb: bv32, wc: bv32, wd: bv32)
    requires wa == a as bv32 && wb == b as bv32 && wc == c as bv32 && wd == d as bv32
    requires w == (wa << 24) | (wb << 16) | (wc << 8) | wd
    ensures Low8(w >> 24) == a && Low8(w >> 16) == b && Low8(w >> 8) == c && Low8(w) == d
  {}

  lemma PartsOfWord(a: u8, b: u8, c: u8, d: u8)
    ensures var w := Word(a, b, c, d);
            && Low8(w >> 24) == Narrow(a) && Low8(w >> 16) == Narrow(b)
            && Low8(w >> 8) == Narrow(c) && Low8(w) == Narrow(d)
  {
    hide Wide, Low8, ByteOf, Narrow;
    Widened(a);
    Widened(b);
    Widened(c);
    Widened(d);
    Parts(Word(a, b, c, d), Narrow(a), Narrow(b), Narrow(c), Narrow(d),
          Wide(a), Wide(b), Wide(c), Wide(d));
  }

  /** Reading a word and writing it back. */
  lemma WordRoundTrip(a: u8, b: u8, c: u8, d: u8)
    ensures WordBytes(Word(a, b, c, d)) == [a, b, c, d]
  {
    hide Wide, Low8, ByteOf, Narrow, Word;
    PartsOfWord(a, b, c, d);
    Widened(a);
    Widened(b);
    Widened(c);
    Widened(d);
  }

  /** A word holds its bytes most significant first. */
  lemma WordIsBigEndian(a: u8, b: u8, c: u8, d: u8)
    ensures Word(a, b, c, d) as int == 0x100_0000 * a as int + 0x1_0000 * b as int + 0x100 * c as int + d as int
  {
    WordRoundTrip(a, b, c, d);
    WordBytesAreBigEndian(Word(a, b, c, d));
    hide Word, WordBytes;
  }

  // ----- constants -----

  const PRIMES_0: seq<nat> := [2, 3, 5, 7, 11, 13, 17, 19]
  const PRIMES_1: seq<nat> := [23, 29, 31, 37, 41, 43, 47, 53]
  const PRIMES_2: seq<nat> := [59, 61, 67, 71, 73, 79, 83, 89]
  const PRIMES_3: seq<nat> := [97, 101, 103, 107, 109, 113, 127, 131]
  const PRIMES_4: seq<nat> := [137, 139, 149, 151, 157, 163, 167, 173]
  const PRIMES_5: seq<nat> := [179, 181, 191, 193, 197, 199, 211, 223]
  const PRIMES_6: seq<nat> := [227, 229, 233, 239, 241, 251, 257, 263]
  const PRIMES_7: seq<nat> := [269, 271, 277, 281, 283, 293, 307, 311]

  /** The first 64 primes. */
  const PRIMES: seq<nat> :=
    PRIMES_0 + PRIMES_1 + PRIMES_2 + PRIMES_3 + PRIMES_4 + PRIMES_5 + PRIMES_6 + PRIMES_7

  /** The integer part of a cube root. */
  function CubeFloor(p: nat): nat {
    if p < 8 then 1 else if p < 27 then 2 else if p < 64 then 3 else if p < 125 then 4
    else if p < 216 then 5 else if p < 343 then 6 else 7
  }

  function SquareFloor(p: nat): nat {
    if p < 4 then 1 else if p < 9 then 2 else if p < 16 then 3 else 4
  }

  /** k is the first 32 bits of the fractional part of the cube root of p. */
  predicate CubeRootOf(k: bv32, p: nat) {
    var c := CubeFloor(p) * 0x1_0000_0000 + k as int;
    c * c * c <= p * 0x1_000000000000000000000000 < (c + 1) * (c + 1) * (c + 1)
  }

  /** k is the first 32 bits of the fractional part of the square root of p. */
  predicate SquareRootOf(k: bv32, p: nat) {
    var c := SquareFloor(p) * 0x1_0000_0000 + k as int;
    c * c <= p * 0x1_0000000000000000 < (c + 1) * (c + 1)
  }

  lemma CubeRoots0()
    ensures CubeRoots(K_0, PRIMES_0)
  {
    assert CubeRootOf(0x428a2f98, 2);
    assert CubeRootOf(0x71374491, 3);
    assert CubeRootOf(0xb5c0fbcf, 5);
    assert CubeRootOf(0xe9b5dba5, 7);
    assert CubeRootOf(0x3956c25b, 11);
    assert CubeRootOf(0x59f111f1, 13);
    assert CubeRootOf(0x923f82a4, 17);
    assert CubeRootOf(0xab1c5ed5, 19);
  }

  lemma CubeRoots1()
    ensures CubeRoots(K_1, PRIMES_1)
  {
    assert CubeRootOf(0xd807aa98, 23);
    assert CubeRootOf(0x12835b01, 29);
    assert CubeRootOf(0x243185be, 31);
    assert CubeRootOf(0x550c7dc3, 37);
    assert CubeRootOf(0x72be5d74, 41);
    assert CubeRootOf(0x80deb1fe, 43);
    assert CubeRootOf(0x9bdc06a7, 47);
    assert CubeRootOf(0xc19bf174, 53);
  }

  lemma CubeRoots2()
    ensures CubeRoots(K_2, PRIMES_2)
  {
    assert CubeRootOf(0xe49b69c1, 59);
    assert CubeRootOf(0xefbe4786, 61);
    assert CubeRootOf(0x0fc19dc6, 67);
    assert CubeRootOf(0x240ca1cc, 71);
    assert CubeRootOf(0x2de92c6f, 73);
    assert CubeRootOf(0x4a7484aa, 79);
    assert CubeRootOf(0x5cb0a9dc, 83);
    assert CubeRootOf(0x76f988da, 89);
  }

  lemma CubeRoots3()
    ensures CubeRoots(K_3, PRIMES_3)
  {
    assert CubeRootOf(0x983e5152, 97);
    assert CubeRootOf(0xa831c66d, 101);
    assert CubeRootOf(0xb00327c8, 103);
    assert CubeRootOf(0xbf597fc7, 107);
    assert CubeRootOf(0xc6e00bf3, 109);
    assert CubeRootOf(0xd5a79147, 113);
    assert CubeRootOf(0x06ca6351, 127);
    assert CubeRootOf(0x14292967, 131);
  }

  lemma CubeRoots4()
    ensures CubeRoots(K_4, PRIMES_4)
  {
    assert CubeRootOf(0x27b70a85, 137);
    assert CubeRootOf(0x2e1b2138, 139);
    assert CubeRootOf(0x4d2c6dfc, 149);
    assert CubeRootOf(0x53380d13, 151);
    assert CubeRootOf(0x650a7354, 157);
    assert CubeRootOf(0x766a0abb, 163);
    assert CubeRootOf(0x81c2c92e, 167);
    assert CubeRootOf(0x92722c85, 173);
  }

  lemma CubeRoots5()
    ensures CubeRoots(K_5, PRIMES_5)
  {
    assert CubeRootOf(0xa2bfe8a1, 179);
    assert CubeRootOf(0xa81a664b, 181);
    assert CubeRootOf(0xc24b8b70, 191);
    assert CubeRootOf(0xc76c51a3, 193);
    assert CubeRootOf(0xd192e819, 197);
    assert CubeRootOf(0xd6990624, 199);
    assert CubeRootOf(0xf40e3585, 211);
    assert CubeRootOf(0x106aa070, 223);
  }

  lemma CubeRoots6()
    ensures CubeRoots(K_6, PRIMES_6)
  {
    assert CubeRootOf(0x19a4c116, 227);
    assert CubeRootOf(0x1e376c08, 229);
    assert CubeRootOf(0x2748774c, 233);
    assert CubeRootOf(0x34b0bcb5, 239);
    assert CubeRootOf(0x391c0cb3, 241);
    assert CubeRootOf(0x4ed8aa4a, 251);
    assert CubeRootOf(0x5b9cca4f, 257);
    assert CubeRootOf(0x682e6ff3, 263);
  }

  lemma CubeRoots7()
    ensures CubeRoots(K_7, PRIMES_7)
  {
    assert CubeRootOf(0x748f82ee, 269);
    assert CubeRootOf(0x78a5636f, 271);
    assert CubeRootOf(0x84c87814, 277);
    assert CubeRootOf(0x8cc70208, 281);
    assert CubeRootOf(0x90befffa, 283);
    assert CubeRootOf(0xa4506ceb, 293);
    assert CubeRootOf(0xbef9a3f7, 307);
    assert CubeRootOf(0xc67178f2, 311);
  }

  /** The initial state of section 5.3: the square roots of the first eight primes. */
  lemma InitialState()
    ensures forall j :: 0 <= j < 8 ==> SquareRootOf(IV[j], PRIMES_0[j])
  {
    assert SquareRootOf(0x6a09e667, 2);
    assert SquareRootOf(0xbb67ae85, 3);
    assert SquareRootOf(0x3c6ef372, 5);
    assert SquareRootOf(0xa54ff53a, 7);
    assert SquareRootOf(0x510e527f, 11);
    assert SquareRootOf(0x9b05688c, 13);
    assert SquareRootOf(0x1f83d9ab, 17);
    assert SquareRootOf(0x5be0cd19, 19);
  }

  predicate CubeRoots(ks: seq<bv32>, ps: seq<nat>) {
    |ks| == |ps| && forall i :: 0 <= i < |ks| ==> CubeRootOf(ks[i], ps[i])
  }

  lemma CubeRootsConcat(ks: seq<bv32>, ps: seq<nat>, ls: seq<bv32>, qs: seq<nat>)
    requires CubeRoots(ks, ps) && CubeRoots(ls, qs)
    ensures CubeRoots(ks + ls, ps + qs)
  {}

  /** The round constants of section 4.2.2: the cube roots of the first 64 primes. */
  lemma RoundConstants()
    ensures |K| == 64
    ensures CubeRoots(K, PRIMES)
  {
    hide CubeRootOf, CubeRoots;
    CubeRoots0();
    CubeRoots1();
    CubeRoots2();
    CubeRoots3();
    CubeRoots4();
    CubeRoots5();
    CubeRoots6();
    CubeRoots7();
    var ks, ps := K_0, PRIMES_0;
    CubeRootsConcat(ks, ps, K_1, PRIMES_1);
    ks, ps := ks + K_1, ps + PRIMES_1;
    CubeRootsConcat(ks, ps, K_2, PRIMES_2);
    ks, ps := ks + K_2, ps + PRIMES_2;
    CubeRootsConcat(ks, ps, K_3, PRIMES_3);
    ks, ps := ks + K_3, ps + PRIMES_3;
    CubeRootsConcat(ks, ps, K_4, PRIMES_4);
    ks, ps := ks + K_4, ps + PRIMES_4;
    CubeRootsConcat(ks, ps, K_5, PRIMES_5);
    ks, ps := ks + K_5, ps + PRIMES_5;
    CubeRootsConcat(ks, ps, K_6, PRIMES_6);
    ks, ps := ks + K_6, ps + PRIMES_6;
    CubeRootsConcat(ks, ps, K_7, PRIMES_7);
    ks, ps := ks + K_7, ps + PRIMES_7;
  }

  // ----- the digest of "abc" -----

  // The message schedule, eight words a row, and the working variables after every round.
  const W_0: seq<bv32> :=
    [0x61626380, 0x00000000, 0x00000000, 0x00000000, 0x00000000, 0x00000000, 0x00000000, 0x00000000]
  const W_1: seq<bv32> :=
    [0x00000000, 0x00000000, 0x00000000, 0x00000000, 0x00000000, 0x00000000, 0x00000000, 0x00000018]
  const W_2: seq<bv32> :=
    [0x61626380, 0x000f0000, 0x7da86405, 0x600003c6, 0x3e9d7b78, 0x0183fc00, 0x12dcbfdb, 0xe2e2c38e]
  const W_3: seq<bv32> :=
    [0xc8215c1a, 0xb73679a2, 0xe5bc3909, 0x32663c5b, 0x9d209d67, 0xec8726cb, 0x702138a4, 0xd3b7973b]
  const W_4: seq<bv32> :=
    [0x93f5997f, 0x3b68ba73, 0xaff4ffc1, 0xf10a5c62, 0x0a8b3996, 0x72af830a, 0x9409e33e, 0x24641522]
  const W_5: seq<bv32> :=
    [0x9f47bf94, 0xf0a64f5a, 0x3e246a79, 0x27333ba3, 0x0c4763f2, 0x840abf27, 0x7a290d5d, 0x065c43da]
  const W_6: seq<bv32> :=
    [0xfb3e89cb, 0xcc7617db, 0xb9e66c34, 0xa9993667, 0x84badedd, 0xc21462bc, 0x1487472c, 0xb20f7a99]
  const W_7: seq<bv32> :=
    [0xef57b9cd, 0xebe6b238, 0x9fe3095e, 0x78bc8d4b, 0xa43fcf15, 0x668b2ff8, 0xeeaba2cc, 0x12b1edeb]

  const V_0: Working :=
    Working(0x6a09e667, 0xbb67ae85, 0x3c6ef372, 0xa54ff53a, 0x510e527f, 0x9b05688c, 0x1f83d9ab, 0x5be0cd19)
  const V_1: Working :=
    Working(0x5d6aebcd, 0x6a09e667, 0xbb67ae85, 0x3c6ef372, 0xfa2a4622, 0x510e527f, 0x9b05688c, 0x1f83d9ab)
  const V_2: Working :=
    Working(0x5a6ad9ad, 0x5d6aebcd, 0x6a09e667, 0xbb67ae85, 0x78ce7989, 0xfa2a4622, 0x510e527f, 0x9b05688c)
  const V_3: Working :=
    Working(0xc8c347a7, 0x5a6ad9ad, 0x5d6aebcd, 0x6a09e667, 0xf92939eb, 0x78ce7989, 0xfa2a4622, 0x510e527f)
  const V_4: Working :=
    Working(0xd550f666, 0xc8c347a7, 0x5a6ad9ad, 0x5d6aebcd, 0x24e00850, 0xf92939eb, 0x78ce7989, 0xfa2a4622)
  const V_5: Working :=
    Working(0x04409a6a, 0xd550f666, 0xc8c347a7, 0x5a6ad9ad, 0x43ada245, 0x24e00850, 0xf92939eb, 0x78ce7989)
  const V_6: Working :=
    Working(0x2b4209f5, 0x04409a6a, 0xd550f666, 0xc8c347a7, 0x714260ad, 0x43ada245, 0x24e00850, 0xf92939eb)
  const V_7: Working :=
    Working(0xe5030380, 0x2b4209f5, 0x04409a6a, 0xd550f666, 0x9b27a401, 0x714260ad, 0x43ada245, 0x24e00850)
  const V_8: Working :=
    Working(0x85a07b5f, 0xe5030380, 0x2b4209f5, 0x04409a6a, 0x0c657a79, 0x9b27a401, 0x714260ad, 0x43ada245)
  const V_9: Working :=
    Working(0x8e04ecb9, 0x85a07b5f, 0xe5030380, 0x2b4209f5, 0x32ca2d8c, 0x0c657a79, 0x9b27a401, 0x714260ad)
  const V_10: Working :=
    Working(0x8c87346b, 0x8e04ecb9, 0x85a07b5f, 0xe5030380, 0x1cc92596, 0x32ca2d8c, 0x0c657a79, 0x9b27a401)
  const V_11: Working :=
    Working(0x4798a3f4, 0x8c87346b, 0x8e04ecb9, 0x85a07b5f, 0x436b23e8, 0x1cc92596, 0x32ca2d8c, 0x0c657a79)
  const V_12: Working :=
    Working(0xf71fc5a9, 0x4798a3f4, 0x8c87346b, 0x8e04ecb9, 0x816fd6e9, 0x436b23e8, 0x1cc92596, 0x32ca2d8c)
  const V_13: Working :=
    Working(0x87912990, 0xf71fc5a9, 0x4798a3f4, 0x8c87346b, 0x1e578218, 0x816fd6e9, 0x436b23e8, 0x1cc92596)
  const V_14: Working :=
    Working(0xd932eb16, 0x87912990, 0xf71fc5a9, 0x4798a3f4, 0x745a48de, 0x1e578218, 0x816fd6e9, 0x436b23e8)
  const V_15: Working :=
    Working(0xc0645fde, 0xd932eb16, 0x87912990, 0xf71fc5a9, 0x0b92f20c, 0x745a48de, 0x1e578218, 0x816fd6e9)
  const V_16: Working :=
    Working(0xb0fa238e, 0xc0645fde, 0xd932eb16, 0x87912990, 0x07590dcd, 0x0b92f20c, 0x745a48de, 0x1e578218)
  const V_17: Working :=
    Working(0x21da9a9b, 0xb0fa238e, 0xc0645fde, 0xd932eb16, 0x8034229c, 0x07590dcd, 0x0b92f20c, 0x745a48de)
  const V_18: Working :=
    Working(0xc2fbd9d1, 0x21da9a9b, 0xb0fa238e, 0xc0645fde, 0x846ee454, 0x8034229c, 0x07590dcd, 0x0b92f20c)
  const V_19: Working :=
    Working(0xfe777bbf, 0xc2fbd9d1, 0x21da9a9b, 0xb0fa238e, 0xcc899961, 0x846ee454, 0x8034229c, 0x07590dcd)
  const V_20: Working :=
    Working(0xe1f20c33, 0xfe777bbf, 0xc2fbd9d1, 0x21da9a9b, 0xb0638179, 0xcc899961, 0x846ee454, 0x8034229c)
  const V_21: Working :=
    Working(0x9dc68b63, 0xe1f20c33, 0xfe777bbf, 0xc2fbd9d1, 0x8ada8930, 0xb0638179, 0xcc899961, 0x846ee454)
  const V_22: Working :=
    Working(0xc2606d6d, 0x9dc68b63, 0xe1f20c33, 0xfe777bbf, 0xe1257970, 0x8ada8930, 0xb0638179, 0xcc899961)
  const V_23: Working :=
    Working(0xa7a3623f, 0xc2606d6d, 0x9dc68b63, 0xe1f20c33, 0x49f5114a, 0xe1257970, 0x8ada8930, 0xb0638179)
  const V_24: Working :=
    Working(0xc5d53d8d, 0xa7a3623f, 0xc2606d6d, 0x9dc68b63, 0xaa47c347, 0x49f5114a, 0xe1257970, 0x8ada8930)
  const V_25: Working :=
    Working(0x1c2c2838, 0xc5d53d8d, 0xa7a3623f, 0xc2606d6d, 0x2823ef91, 0xaa47c347, 0x49f5114a, 0xe1257970)
  const V_26: Working :=
    Working(0xcde8037d, 0x1c2c2838, 0xc5d53d8d, 0xa7a3623f, 0x14383d8e, 0x2823ef91, 0xaa47c347, 0x49f5114a)
  const V_27: Working :=
    Working(0xb62ec4bc, 0xcde8037d, 0x1c2c2838, 0xc5d53d8d, 0xc74c6516, 0x14383d8e, 0x2823ef91, 0xaa47c347)
  const V_28: Working :=
    Working(0x77d37528, 0xb62ec4bc, 0xcde8037d, 0x1c2c2838, 0xedffbff8, 0xc74c6516, 0x14383d8e, 0x2823ef91)
  const V_29: Working :=
    Working(0x363482c9, 0x77d37528, 0xb62ec4bc, 0xcde8037d, 0x6112a3b7, 0xedffbff8, 0xc74c6516, 0x14383d8e)
  const V_30: Working :=
    Working(0xa0060b30, 0x363482c9, 0x77d37528, 0xb62ec4bc, 0xade79437, 0x6112a3b7, 0xedffbff8, 0xc74c6516)
  const V_31: Working :=
    Working(0xea992a22, 0xa0060b30, 0x363482c9, 0x77d37528, 0x0109ab3a, 0xade79437, 0x6112a3b7, 0xedffbff8)
  const V_32: Working :=
    Working(0x73b33bf5, 0xea992a22, 0xa0060b30, 0x363482c9, 0xba591112, 0x0109ab3a, 0xade79437, 0x6112a3b7)
  const V_33: Working :=
    Working(0x98e12507, 0x73b33bf5, 0xea992a22, 0xa0060b30, 0x9cd9f5f6, 0xba591112, 0x0109ab3a, 0xade79437)
  const V_34: Working :=
    Working(0xfe604df5, 0x98e12507, 0x73b33bf5, 0xea992a22, 0x59249dd3, 0x9cd9f5f6, 0xba591112, 0x0109ab3a)
  const V_35: Working :=
    Working(0xa9a7738c, 0xfe604df5, 0x98e12507, 0x73b33bf5, 0x085f3833, 0x59249dd3, 0x9cd9f5f6, 0xba591112)
  const V_36: Working :=
    Working(0x65a0cfe4, 0xa9a7738c, 0xfe604df5, 0x98e12507, 0xf4b002d6, 0x085f3833, 0x59249dd3, 0x9cd9f5f6)
  const V_37: Working :=
    Working(0x41a65cb1, 0x65a0cfe4, 0xa9a7738c, 0xfe604df5, 0x0772a26b, 0xf4b002d6, 0x085f3833, 0x59249dd3)
  const V_38: Working :=
    Working(0x34df1604, 0x41a65cb1, 0x65a0cfe4, 0xa9a7738c, 0xa507a53d, 0x0772a26b, 0xf4b002d6, 0x085f3833)
  const V_39: Working :=
    Working(0x6dc57a8a, 0x34df1604, 0x41a65cb1, 0x65a0cfe4, 0xf0781bc8, 0xa507a53d, 0x0772a26b, 0xf4b002d6)
  const V_40: Working :=
    Working(0x79ea687a, 0x6dc57a8a, 0x34df1604, 0x41a65cb1, 0x1efbc0a0, 0xf0781bc8, 0xa507a53d, 0x0772a26b)
  const V_41: Working :=
    Working(0xd6670766, 0x79ea687a, 0x6dc57a8a, 0x34df1604, 0x26352d63, 0x1efbc0a0, 0xf0781bc8, 0xa507a53d)
  const V_42: Working :=
    Working(0xdf46652f, 0xd6670766, 0x79ea687a, 0x6dc57a8a, 0x838b2711, 0x26352d63, 0x1efbc0a0, 0xf0781bc8)
  const V_43: Working :=
    Working(0x17aa0dfe, 0xdf46652f, 0xd6670766, 0x79ea687a, 0xdecd4715, 0x838b2711, 0x26352d63, 0x1efbc0a0)
  const V_44: Working :=
    Working(0x9d4baf93, 0x17aa0dfe, 0xdf46652f, 0xd6670766, 0xfda24c2e, 0xdecd4715, 0x838b2711, 0x26352d63)
  const V_45: Working :=
    Working(0x26628815, 0x9d4baf93, 0x17aa0dfe, 0xdf46652f, 0xa80f11f0, 0xfda24c2e, 0xdecd4715, 0x838b2711)
  const V_46: Working :=
    Working(0x72ab4b91, 0x26628815, 0x9d4baf93, 0x17aa0dfe, 0xb7755da1, 0xa80f11f0, 0xfda24c2e, 0xdecd4715)
  const V_47: Working :=
    Working(0xa14c14b0, 0x72ab4b91, 0x26628815, 0x9d4baf93, 0xd57b94a9, 0xb7755da1, 0xa80f11f0, 0xfda24c2e)
  const V_48: Working :=
    Working(0x4172328d, 0xa14c14b0, 0x72ab4b91, 0x26628815, 0xfecf0bc6, 0xd57b94a9, 0xb7755da1, 0xa80f11f0)
  const V_49: Working :=
    Working(0x05757ceb, 0x4172328d, 0xa14c14b0, 0x72ab4b91, 0xbd714038, 0xfecf0bc6, 0xd57b94a9, 0xb7755da1)
  const V_50: Working :=
    Working(0xf11bfaa8, 0x05757ceb, 0x4172328d, 0xa14c14b0, 0x6e5c390c, 0xbd714038, 0xfecf0bc6, 0xd57b94a9)
  const V_51: Working :=
    Working(0x7a0508a1, 0xf11bfaa8, 0x05757ceb, 0x4172328d, 0x52f1ccf7, 0x6e5c390c, 0xbd714038, 0xfecf0bc6)
  const V_52: Working :=
    Working(0x886e7a22, 0x7a0508a1, 0xf11bfaa8, 0x05757ceb, 0x49231c1e, 0x52f1ccf7, 0x6e5c390c, 0xbd714038)
  const V_53: Working :=
    Working(0x101fd28f, 0x886e7a22, 0x7a0508a1, 0xf11bfaa8, 0x529e7d00, 0x49231c1e, 0x52f1ccf7, 0x6e5c390c)
  const V_54: Working :=
    Working(0xf5702fdb, 0x101fd28f, 0x886e7a22, 0x7a0508a1, 0x9f4787c3, 0x529e7d00, 0x49231c1e, 0x52f1ccf7)
  const V_55: Working :=
    Working(0x3ec45cdb, 0xf5702fdb, 0x101fd28f, 0x886e7a22, 0xe50e1b4f, 0x9f4787c3, 0x529e7d00, 0x49231c1e)
  const V_56: Working :=
    Working(0x38cc9913, 0x3ec45cdb, 0xf5702fdb, 0x101fd28f, 0x54cb266b, 0xe50e1b4f, 0x9f4787c3, 0x529e7d00)
  const V_57: Working :=
    Working(0xfcd1887b, 0x38cc9913, 0x3ec45cdb, 0xf5702fdb, 0x9b5e906c, 0x54cb266b, 0xe50e1b4f, 0x9f4787c3)
  const V_58: Working :=
    Working(0xc062d46f, 0xfcd1887b, 0x38cc9913, 0x3ec45cdb, 0x7e44008e, 0x9b5e906c, 0x54cb266b, 0xe50e1b4f)
  const V_59: Working :=
    Working(0xffb70472, 0xc062d46f, 0xfcd1887b, 0x38cc9913, 0x6d83bfc6, 0x7e44008e, 0x9b5e906c, 0x54cb266b)
  const V_60: Working :=
    Working(0xb6ae8fff, 0xffb70472, 0xc062d46f, 0xfcd1887b, 0xb21bad3d, 0x6d83bfc6, 0x7e44008e, 0x9b5e906c)
  const V_61: Working :=
    Working(0xb85e2ce9, 0xb6ae8fff, 0xffb70472, 0xc062d46f, 0x961f4894, 0xb21bad3d, 0x6d83bfc6, 0x7e44008e)
  const V_62: Working :=
    Working(0x04d24d6c, 0xb85e2ce9, 0xb6ae8fff, 0xffb70472, 0x948d25b6, 0x961f4894, 0xb21bad3d, 0x6d83bfc6)
  const V_63: Working :=
    Working(0xd39a2165, 0x04d24d6c, 0xb85e2ce9, 0xb6ae8fff, 0xfb121210, 0x948d25b6, 0x961f4894, 0xb21bad3d)
  const V_64: Working :=
    Working(0x506e3058, 0xd39a2165, 0x04d24d6c, 0xb85e2ce9, 0x5ef50f24, 0xfb121210, 0x948d25b6, 0x961f4894)

  function EightRounds(v: Working, k: seq<bv32>, w: seq<bv32>): Working
    requires |k| == |w| == 8
  {
    var v2 := Round(Round(v, k[0], w[0]), k[1], w[1]);
    var v4 := Round(Round(v2, k[2], w[2]), k[3], w[3]);
    var v6 := Round(Round(v4, k[4], w[4]), k[5], w[5]);
    Round(Round(v6, k[6], w[6]), k[7], w[7])
  }

  lemma RoundsByEight(k: seq<bv32>, w: seq<bv32>, v: Working, t: nat)
    requires |k| == |w| == 64 && t + 8 <= 64
    ensures Rounds(k, w, v, t + 8) == EightRounds(Rounds(k, w, v, t), k[t..t + 8], w[t..t + 8])
  {
    hide Round;
    assert Rounds(k, w, v, t + 2) == Round(Rounds(k, w, v, t + 1), k[t + 1], w[t + 1]);
    assert Rounds(k, w, v, t + 4) == Round(Rounds(k, w, v, t + 3), k[t + 3], w[t + 3]);
    assert Rounds(k, w, v, t + 6) == Round(Rounds(k, w, v, t + 5), k[t + 5], w[t + 5]);
  }

  /** Eight more words of a schedule from the sixteen before them. */
  function NextEight(a: seq<bv32>): (w: seq<bv32>)
    requires |a| == 16
    ensures |w| == 8
  {
    var x, y := Expand(a[14], a[9], a[1], a[0]), Expand(a[15], a[10], a[2], a[1]);
    var x2, y2 := Expand(x, a[11], a[3], a[2]), Expand(y, a[12], a[4], a[3]);
    var x4, y4 := Expand(x2, a[13], a[5], a[4]), Expand(y2, a[14], a[6], a[5]);
    [x, y, x2, y2, x4, y4, Expand(x4, a[15], a[7], a[6]), Expand(y4, x, a[8], a[7])]
  }

  predicate Recurs(w: seq<bv32>, t: nat)
    requires 16 <= t < |w|
  {
    w[t] == Expand(w[t - 2], w[t - 7], w[t - 15], w[t - 16])
  }

  lemma RecursByEight(w: seq<bv32>, n: nat)
    requires |w| == n + 8 && n >= 16
    requires Recurs(w, n) && Recurs(w, n + 1) && Recurs(w, n + 2) && Recurs(w, n + 3)
    requires Recurs(w, n + 4) && Recurs(w, n + 5) && Recurs(w, n + 6) && Recurs(w, n + 7)
    ensures w == w[..n] + NextEight(w[n - 16..n])
  {
    hide Expand;
    var a := w[n - 16..n];
    assert a[0] == w[n - 16] && a[1] == w[n - 15] && a[2] == w[n - 14] && a[3] == w[n - 13];
    assert a[4] == w[n - 12] && a[5] == w[n - 11] && a[6] == w[n - 10] && a[7] == w[n - 9];
    assert a[8] == w[n - 8] && a[9] == w[n - 7] && a[10] == w[n - 6] && a[11] == w[n - 5];
    assert a[12] == w[n - 4] && a[13] == w[n - 3] && a[14] == w[n - 2] && a[15] == w[n - 1];
    assert w[n..] == NextEight(a);
  }

  lemma ScheduleRecurs(block: seq<u8>, n: nat, t: nat)
    requires |block| == BLOCK && 16 <= t < n
    ensures Recurs(Schedule(block, n), t)
  {
    hide Schedule, Expand, Word;
    ScheduleAt(block, n, t);
  }

  lemma ScheduleByEight(block: seq<u8>, n: nat)
    requires |block| == BLOCK && n >= 16
    ensures var w := Schedule(block, n); Schedule(block, n + 8) == w + NextEight(w[n - 16..])
  {
    hide Schedule, NextEight, Recurs;
    var w := Schedule(block, n + 8);
    ScheduleRecurs(block, n + 8, n);
    ScheduleRecurs(block, n + 8, n + 1);
    ScheduleRecurs(block, n + 8, n + 2);
    ScheduleRecurs(block, n + 8, n + 3);
    ScheduleRecurs(block, n + 8, n + 4);
    ScheduleRecurs(block, n + 8, n + 5);
    ScheduleRecurs(block, n + 8, n + 6);
    ScheduleRecurs(block, n + 8, n + 7);
    RecursByEight(w, n);
    ScheduleAt(block, n + 8, n);
    assert w[..n][n - 16..] == w[n - 16..n];
  }

  lemma Expansions2a()
    ensures Expand(0x00000000, 0x00000000, 0x00000000, 0x61626380) == 0x61626380
    ensures Expand(0x00000018, 0x00000000, 0x00000000, 0x00000000) == 0x000f0000
    ensures Expand(0x61626380, 0x00000000, 0x00000000, 0x00000000) == 0x7da86405
    ensures Expand(0x000f0000, 0x00000000, 0x00000000, 0x00000000) == 0x600003c6
  {
    assert SmallSigma0(0) == 0 && SmallSigma1(0) == 0 && SmallSigma1(0x18) == 0x000f0000;
    assert SmallSigma1(0x61626380) == 0x7da86405 && SmallSigma1(0x000f0000) == 0x600003c6;
    hide SmallSigma0, SmallSigma1;
  }

  lemma Expansions2b()
    ensures Expand(0x7da86405, 0x00000000, 0x00000000, 0x00000000) == 0x3e9d7b78
    ensures Expand(0x600003c6, 0x00000000, 0x00000000, 0x00000000) == 0x0183fc00
    ensures Expand(0x3e9d7b78, 0x00000018, 0x00000000, 0x00000000) == 0x12dcbfdb
    ensures Expand(0x0183fc00, 0x61626380, 0x00000000, 0x00000000) == 0xe2e2c38e
  {}

  // Each row of the schedule follows from the two before it.

  // Each row of the schedule follows from the two before it.

  lemma Words2()
    ensures NextEight(W_0 + W_1) == W_2
  {
    hide Expand;
    Expansions2a();
    Expansions2b();
  }

  lemma Expansions3a()
    ensures Expand(0x12dcbfdb, 0x000f0000, 0x00000000, 0x00000000) == 0xc8215c1a
    ensures Expand(0xe2e2c38e, 0x7da86405, 0x00000000, 0x00000000) == 0xb73679a2
    ensures Expand(0xc8215c1a, 0x600003c6, 0x00000000, 0x00000000) == 0xe5bc3909
    ensures Expand(0xb73679a2, 0x3e9d7b78, 0x00000000, 0x00000000) == 0x32663c5b
  {}

  lemma Expansions3b()
    ensures Expand(0xe5bc3909, 0x0183fc00, 0x00000000, 0x00000000) == 0x9d209d67
    ensures Expand(0x32663c5b, 0x12dcbfdb, 0x00000000, 0x00000000) == 0xec8726cb
    ensures Expand(0x9d209d67, 0xe2e2c38e, 0x00000018, 0x00000000) == 0x702138a4
    ensures Expand(0xec8726cb, 0xc8215c1a, 0x61626380, 0x00000018) == 0xd3b7973b
  {}

  lemma Words3()
    ensures NextEight(W_1 + W_2) == W_3
  {
    hide Expand;
    Expansions3a();
    Expansions3b();
  }

  lemma Expansions4a()
    ensures Expand(0x702138a4, 0xb73679a2, 0x000f0000, 0x61626380) == 0x93f5997f
    ensures Expand(0xd3b7973b, 0xe5bc3909, 0x7da86405, 0x000f0000) == 0x3b68ba73
    ensures Expand(0x93f5997f, 0x32663c5b, 0x600003c6, 0x7da86405) == 0xaff4ffc1
    ensures Expand(0x3b68ba73, 0x9d209d67, 0x3e9d7b78, 0x600003c6) == 0xf10a5c62
  {}

  lemma Expansions4b()
    ensures Expand(0xaff4ffc1, 0xec8726cb, 0x0183fc00, 0x3e9d7b78) == 0x0a8b3996
    ensures Expand(0xf10a5c62, 0x702138a4, 0x12dcbfdb, 0x0183fc00) == 0x72af830a
    ensures Expand(0x0a8b3996, 0xd3b7973b, 0xe2e2c38e, 0x12dcbfdb) == 0x9409e33e
    ensures Expand(0x72af830a, 0x93f5997f, 0xc8215c1a, 0xe2e2c38e) == 0x24641522
  {}

  lemma Words4()
    ensures NextEight(W_2 + W_3) == W_4
  {
    hide Expand;
    Expansions4a();
    Expansions4b();
  }

  lemma Expansions5a()
    ensures Expand(0x9409e33e, 0x3b68ba73, 0xb73679a2, 0xc8215c1a) == 0x9f47bf94
    ensures Expand(0x24641522, 0xaff4ffc1, 0xe5bc3909, 0xb73679a2) == 0xf0a64f5a
    ensures Expand(0x9f47bf94, 0xf10a5c62, 0x32663c5b, 0xe5bc3909) == 0x3e246a79
    ensures Expand(0xf0a64f5a, 0x0a8b3996, 0x9d209d67, 0x32663c5b) == 0x27333ba3
  {}

  lemma Expansions5b()
    ensures Expand(0x3e246a79, 0x72af830a, 0xec8726cb, 0x9d209d67) == 0x0c4763f2
    ensures Expand(0x27333ba3, 0x9409e33e, 0x702138a4, 0xec8726cb) == 0x840abf27
    ensures Expand(0x0c4763f2, 0x24641522, 0xd3b7973b, 0x702138a4) == 0x7a290d5d
    ensures Expand(0x840abf27, 0x9f47bf94, 0x93f5997f, 0xd3b7973b) == 0x065c43da
  {}

  lemma Words5()
    ensures NextEight(W_3 + W_4) == W_5
  {
    hide Expand;
    Expansions5a();
    Expansions5b();
  }

  lemma Expansions6a()
    ensures Expand(0x7a290d5d, 0xf0a64f5a, 0x3b68ba73, 0x93f5997f) == 0xfb3e89cb
    ensures Expand(0x065c43da, 0x3e246a79, 0xaff4ffc1, 0x3b68ba73) == 0xcc7617db
    ensures Expand(0xfb3e89cb, 0x27333ba3, 0xf10a5c62, 0xaff4ffc1) == 0xb9e66c34
    ensures Expand(0xcc7617db, 0x0c4763f2, 0x0a8b3996, 0xf10a5c62) == 0xa9993667
  {}

  lemma Expansions6b()
    ensures Expand(0xb9e66c34, 0x840abf27, 0x72af830a, 0x0a8b3996) == 0x84badedd
    ensures Expand(0xa9993667, 0x7a290d5d, 0x9409e33e, 0x72af830a) == 0xc21462bc
    ensures Expand(0x84badedd, 0x065c43da, 0x24641522, 0x9409e33e) == 0x1487472c
    ensures Expand(0xc21462bc, 0xfb3e89cb, 0x9f47bf94, 0x24641522) == 0xb20f7a99
  {}

  lemma Words6()
    ensures NextEight(W_4 + W_5) == W_6
  {
    hide Expand;
    Expansions6a();
    Expansions6b();
  }

  lemma Expansions7a()
    ensures Expand(0x1487472c, 0xcc7617db, 0xf0a64f5a, 0x9f47bf94) == 0xef57b9cd
    ensures Expand(0xb20f7a99, 0xb9e66c34, 0x3e246a79, 0xf0a64f5a) == 0xebe6b238
    ensures Expand(0xef57b9cd, 0xa9993667, 0x27333ba3, 0x3e246a79) == 0x9fe3095e
    ensures Expand(0xebe6b238, 0x84badedd, 0x0c4763f2, 0x27333ba3) == 0x78bc8d4b
  {}

  lemma Expansions7b()
    ensures Expand(0x9fe3095e, 0xc21462bc, 0x840abf27, 0x0c4763f2) == 0xa43fcf15
    ensures Expand(0x78bc8d4b, 0x1487472c, 0x7a290d5d, 0x840abf27) == 0x668b2ff8
    ensures Expand(0xa43fcf15, 0xb20f7a99, 0x065c43da, 0x7a290d5d) == 0xeeaba2cc
    ensures Expand(0x668b2ff8, 0xef57b9cd, 0xfb3e89cb, 0x065c43da) == 0x12b1edeb
  {}

  lemma Words7()
    ensures NextEight(W_5 + W_6) == W_7
  {
    hide Expand;
    Expansions7a();
    Expansions7b();
  }

  // Each state follows from the one before it.

  // Each state follows from the one before it.

  lemma Rounds0()
    ensures Round(V_0, 0x428a2f98, 0x61626380) == V_1
    ensures Round(V_1, 0x71374491, 0x00000000) == V_2
    ensures Round(V_2, 0xb5c0fbcf, 0x00000000) == V_3
    ensures Round(V_3, 0xe9b5dba5, 0x00000000) == V_4
  {}

  lemma Rounds1()
    ensures Round(V_4, 0x3956c25b, 0x00000000) == V_5
    ensures Round(V_5, 0x59f111f1, 0x00000000) == V_6
    ensures Round(V_6, 0x923f82a4, 0x00000000) == V_7
    ensures Round(V_7, 0xab1c5ed5, 0x00000000) == V_8
  {}

  lemma Rounds2()
    ensures Round(V_8, 0xd807aa98, 0x00000000) == V_9
    ensures Round(V_9, 0x12835b01, 0x00000000) == V_10
    ensures Round(V_10, 0x243185be, 0x00000000) == V_11
    ensures Round(V_11, 0x550c7dc3, 0x00000000) == V_12
  {}

  lemma Rounds3()
    ensures Round(V_12, 0x72be5d74, 0x00000000) == V_13
    ensures Round(V_13, 0x80deb1fe, 0x00000000) == V_14
    ensures Round(V_14, 0x9bdc06a7, 0x00000000) == V_15
    ensures Round(V_15, 0xc19bf174, 0x00000018) == V_16
  {}

  lemma Rounds4()
    ensures Round(V_16, 0xe49b69c1, 0x61626380) == V_17
    ensures Round(V_17, 0xefbe4786, 0x000f0000) == V_18
    ensures Round(V_18, 0x0fc19dc6, 0x7da86405) == V_19
    ensures Round(V_19, 0x240ca1cc, 0x600003c6) == V_20
  {}

  lemma Rounds5()
    ensures Round(V_20, 0x2de92c6f, 0x3e9d7b78) == V_21
    ensures Round(V_21, 0x4a7484aa, 0x0183fc00) == V_22
    ensures Round(V_22, 0x5cb0a9dc, 0x12dcbfdb) == V_23
    ensures Round(V_23, 0x76f988da, 0xe2e2c38e) == V_24
  {}

  lemma Rounds6()
    ensures Round(V_24, 0x983e5152, 0xc8215c1a) == V_25
    ensures Round(V_25, 0xa831c66d, 0xb73679a2) == V_26
    ensures Round(V_26, 0xb00327c8, 0xe5bc3909) == V_27
    ensures Round(V_27, 0xbf597fc7, 0x32663c5b) == V_28
  {}

  lemma Rounds7()
    ensures Round(V_28, 0xc6e00bf3, 0x9d209d67) == V_29
    ensures Round(V_29, 0xd5a79147, 0xec8726cb) == V_30
    ensures Round(V_30, 0x06ca6351, 0x702138a4) == V_31
    ensures Round(V_31, 0x14292967, 0xd3b7973b) == V_32
  {}

  lemma Rounds8()
    ensures Round(V_32, 0x27b70a85, 0x93f5997f) == V_33
    ensures Round(V_33, 0x2e1b2138, 0x3b68ba73) == V_34
    ensures Round(V_34, 0x4d2c6dfc, 0xaff4ffc1) == V_35
    ensures Round(V_35, 0x53380d13, 0xf10a5c62) == V_36
  {}

  lemma Rounds9()
    ensures Round(V_36, 0x650a7354, 0x0a8b3996) == V_37
    ensures Round(V_37, 0x766a0abb, 0x72af830a) == V_38
    ensures Round(V_38, 0x81c2c92e, 0x9409e33e) == V_39
    ensures Round(V_39, 0x92722c85, 0x24641522) == V_40
  {}

  lemma Rounds10()
    ensures Round(V_40, 0xa2bfe8a1, 0x9f47bf94) == V_41
    ensures Round(V_41, 0xa81a664b, 0xf0a64f5a) == V_42
    ensures Round(V_42, 0xc24b8b70, 0x3e246a79) == V_43
    ensures Round(V_43, 0xc76c51a3, 0x27333ba3) == V_44
  {}

  lemma Rounds11()
    ensures Round(V_44, 0xd192e819, 0x0c4763f2) == V_45
    ensures Round(V_45, 0xd6990624, 0x840abf27) == V_46
    ensures Round(V_46, 0xf40e3585, 0x7a290d5d) == V_47
    ensures Round(V_47, 0x106aa070, 0x065c43da) == V_48
  {}

  lemma Rounds12()
    ensures Round(V_48, 0x19a4c116, 0xfb3e89cb) == V_49
    ensures Round(V_49, 0x1e376c08, 0xcc7617db) == V_50
    ensures Round(V_50, 0x2748774c, 0xb9e66c34) == V_51
    ensures Round(V_51, 0x34b0bcb5, 0xa9993667) == V_52
  {}

  lemma Rounds13()
    ensures Round(V_52, 0x391c0cb3, 0x84badedd) == V_53
    ensures Round(V_53, 0x4ed8aa4a, 0xc21462bc) == V_54
    ensures Round(V_54, 0x5b9cca4f, 0x1487472c) == V_55
    ensures Round(V_55, 0x682e6ff3, 0xb20f7a99) == V_56
  {}

  lemma Rounds14()
    ensures Round(V_56, 0x748f82ee, 0xef57b9cd) == V_57
    ensures Round(V_57, 0x78a5636f, 0xebe6b238) == V_58
    ensures Round(V_58, 0x84c87814, 0x9fe3095e) == V_59
    ensures Round(V_59, 0x8cc70208, 0x78bc8d4b) == V_60
  {}

  lemma Rounds15()
    ensures Round(V_60, 0x90befffa, 0xa43fcf15) == V_61
    ensures Round(V_61, 0xa4506ceb, 0x668b2ff8) == V_62
    ensures Round(V_62, 0xbef9a3f7, 0xeeaba2cc) == V_63
    ensures Round(V_63, 0xc67178f2, 0x12b1edeb) == V_64
  {}

  /** Rows put together are found again. */
  /** Rows put together are found again. */
  lemma RowsOf(a0: seq<bv32>, a1: seq<bv32>, a2: seq<bv32>, a3: seq<bv32>, a4: seq<bv32>,
             a5: seq<bv32>, a6: seq<bv32>, a7: seq<bv32>)
    requires |a0| == |a1| == |a2| == |a3| == |a4| == |a5| == |a6| == |a7| == 8
    ensures var s := a0 + a1 + a2 + a3 + a4 + a5 + a6 + a7;
            && |s| == 64
            && s[0..8] == a0 && s[8..16] == a1 && s[16..24] == a2 && s[24..32] == a3
            && s[32..40] == a4 && s[40..48] == a5 && s[48..56] == a6 && s[56..64] == a7
  {}

  /** "abc", padded to one block. */
  const ABC: seq<u8> := [0x61, 0x62, 0x63]

  const ABC_BLOCK: seq<u8> := [0x61, 0x62, 0x63, 0x80] + Zeros(59) + [0x18]

  lemma {:induction false} BigEndianOfByte(b: u8, l: nat)
    ensures BigEndian(0, l) == Zeros(l)
    ensures BigEndian(b as nat, l + 1) == Zeros(l) + [b]
  {
    if l == 0 {
    } else {
      BigEndianOfByte(b, l - 1);
    }
  }

  lemma PaddedAbc()
    ensures |ABC_BLOCK| == BLOCK && Pad(ABC, BLOCK, LENGTH_FIELD) == ABC_BLOCK
  {
    hide BigEndian;
    PadZeros(3, BLOCK, LENGTH_FIELD);
    BigEndianOfByte(0x18, LENGTH_FIELD - 1);
    assert Padding(3, BLOCK, LENGTH_FIELD, 3) == [0x80] + Zeros(52) + (Zeros(7) + [0x18]);
  }

  lemma WordsOfBlock(t: nat)
    requires t < 16
    ensures |ABC_BLOCK| == BLOCK && var block := ABC_BLOCK;
            Word(block[4 * t], block[4 * t + 1], block[4 * t + 2], block[4 * t + 3])
            == if t == 0 then 0x61626380 else if t == 15 then 0x18 else 0
  {
    hide Word;
    WordLiterals();
  }

  lemma WordLiterals()
    ensures Word(0x61, 0x62, 0x63, 0x80) == 0x61626380
    ensures Word(0, 0, 0, 0) == 0
    ensures Word(0, 0, 0, 0x18) == 0x18
  {
    assert Wide(0) == 0 && Wide(0x61) == 0x61 && Wide(0x62) == 0x62 && Wide(0x63) == 0x63;
    assert Wide(0x80) == 0x80 && Wide(0x18) == 0x18;
    hide Wide;
  }

  lemma FirstWords()
    ensures |ABC_BLOCK| == BLOCK && Schedule(ABC_BLOCK, 16) == W_0 + W_1
  {
    hide Word, Schedule, Expand;
    var w := Schedule(ABC_BLOCK, 16);
    forall t: nat | t < 16
      ensures w[t] == if t == 0 then 0x61626380 else if t == 15 then 0x18 else 0
    {
      ScheduleAt(ABC_BLOCK, 16, t);
      WordsOfBlock(t);
    }
  }

  lemma ExtendByRow(block: seq<u8>, before: seq<bv32>, a: seq<bv32>, b: seq<bv32>)
    requires |block| == BLOCK && |a| == |b| == 8 && Schedule(block, |before| + 16) == before + a + b
    ensures Schedule(block, |before| + 24) == before + a + b + NextEight(a + b)
  {
    hide Schedule, NextEight;
    ScheduleByEight(block, |before| + 16);
    assert (before + a + b)[|before|..] == a + b;
  }

  /** All words of the schedule. */
  /** All words of the schedule. */
  lemma AbcSchedule()
    ensures |ABC_BLOCK| == BLOCK && Schedule(ABC_BLOCK, 64) == W_0 + W_1 + W_2 + W_3 + W_4 + W_5 + W_6 + W_7
  {
    hide Schedule, NextEight;
    var block := ABC_BLOCK;
    FirstWords();
    var before: seq<bv32> := [];
    assert before + W_0 + W_1 == W_0 + W_1;
    Words2();
    ExtendByRow(block, before, W_0, W_1);
    before := before + W_0;
    Words3();
    ExtendByRow(block, before, W_1, W_2);
    before := before + W_1;
    Words4();
    ExtendByRow(block, before, W_2, W_3);
    before := before + W_2;
    Words5();
    ExtendByRow(block, before, W_3, W_4);
    before := before + W_3;
    Words6();
    ExtendByRow(block, before, W_4, W_5);
    before := before + W_4;
    Words7();
    ExtendByRow(block, before, W_5, W_6);
    before := before + W_5;
  }

  lemma AbcRow0(w: seq<bv32>)
    requires |K| == |w| == 64 && K[0..8] == K_0 && w[0..8] == W_0 && Rounds(K, w, V_0, 0) == V_0
    ensures Rounds(K, w, V_0, 8) == V_8
  {
    hide Rounds, Round, K;
    RoundsByEight(K, w, V_0, 0);
    Rounds0();
    Rounds1();
  }

  lemma AbcRow1(w: seq<bv32>)
    requires |K| == |w| == 64 && K[8..16] == K_1 && w[8..16] == W_1 && Rounds(K, w, V_0, 8) == V_8
    ensures Rounds(K, w, V_0, 16) == V_16
  {
    hide Rounds, Round, K;
    RoundsByEight(K, w, V_0, 8);
    Rounds2();
    Rounds3();
  }

  lemma AbcRow2(w: seq<bv32>)
    requires |K| == |w| == 64 && K[16..24] == K_2 && w[16..24] == W_2 && Rounds(K, w, V_0, 16) == V_16
    ensures Rounds(K, w, V_0, 24) == V_24
  {
    hide Rounds, Round, K;
    RoundsByEight(K, w, V_0, 16);
    Rounds4();
    Rounds5();
  }

  lemma AbcRow3(w: seq<bv32>)
    requires |K| == |w| == 64 && K[24..32] == K_3 && w[24..32] == W_3 && Rounds(K, w, V_0, 24) == V_24
    ensures Rounds(K, w, V_0, 32) == V_32
  {
    hide Rounds, Round, K;
    RoundsByEight(K, w, V_0, 24);
    Rounds6();
    Rounds7();
  }

  lemma AbcRow4(w: seq<bv32>)
    requires |K| == |w| == 64 && K[32..40] == K_4 && w[32..40] == W_4 && Rounds(K, w, V_0, 32) == V_32
    ensures Rounds(K, w, V_0, 40) == V_40
  {
    hide Rounds, Round, K;
    RoundsByEight(K, w, V_0, 32);
    Rounds8();
    Rounds9();
  }

  lemma AbcRow5(w: seq<bv32>)
    requires |K| == |w| == 64 && K[40..48] == K_5 && w[40..48] == W_5 && Rounds(K, w, V_0, 40) == V_40
    ensures Rounds(K, w, V_0, 48) == V_48
  {
    hide Rounds, Round, K;
    RoundsByEight(K, w, V_0, 40);
    Rounds10();
    Rounds11();
  }

  lemma AbcRow6(w: seq<bv32>)
    requires |K| == |w| == 64 && K[48..56] == K_6 && w[48..56] == W_6 && Rounds(K, w, V_0, 48) == V_48
    ensures Rounds(K, w, V_0, 56) == V_56
  {
    hide Rounds, Round, K;
    RoundsByEight(K, w, V_0, 48);
    Rounds12();
    Rounds13();
  }

  lemma AbcRow7(w: seq<bv32>)
    requires |K| == |w| == 64 && K[56..64] == K_7 && w[56..64] == W_7 && Rounds(K, w, V_0, 56) == V_56
    ensures Rounds(K, w, V_0, 64) == V_64
  {
    hide Rounds, Round, K;
    RoundsByEight(K, w, V_0, 56);
    Rounds14();
    Rounds15();
  }

  /** All rounds. */
  /** All rounds. */
  lemma AbcRounds(w: seq<bv32>)
    requires w == W_0 + W_1 + W_2 + W_3 + W_4 + W_5 + W_6 + W_7
    ensures |K| == |w| == 64 && Rounds(K, w, V_0, 64) == V_64
  {
    RowsOf(K_0, K_1, K_2, K_3, K_4, K_5, K_6, K_7);
    RowsOf(W_0, W_1, W_2, W_3, W_4, W_5, W_6, W_7);
    assert Rounds(K, w, V_0, 0) == V_0;
    hide Rounds;
    AbcRow0(w);
    AbcRow1(w);
    AbcRow2(w);
    AbcRow3(w);
    AbcRow4(w);
    AbcRow5(w);
    AbcRow6(w);
    AbcRow7(w);
  }

  const STATE_0: seq<bv32> :=
    [0xba7816bf, 0x8f01cfea, 0x414140de, 0x5dae2223]
  const STATE_1: seq<bv32> :=
    [0xb00361a3, 0x96177a9c, 0xb410ff61, 0xf20015ad]

  const ABC_STATE: seq<bv32> := STATE_0 + STATE_1

  lemma AbcCompressed()
    ensures Compress(IV, ABC_BLOCK) == ABC_STATE
  {
    hide Schedule, Rounds;
    AbcSchedule();
    AbcRounds(Schedule(ABC_BLOCK, 64));
    assert Load(IV) == V_0;
    hide AddState;
    FinalSum();
  }

  lemma FinalSum()
    ensures AddState(IV, V_64) == ABC_STATE
  {}

  lemma BytesOfFour(s: seq<bv32>)
    requires |s| == 4
    ensures Bytes(s) == [] + WordBytes(s[0]) + WordBytes(s[1]) + WordBytes(s[2]) + WordBytes(s[3])
  {
    hide WordBytes, Bytes;
    BytesOfNext(s, 0);
    BytesOfNext(s, 1);
    BytesOfNext(s, 2);
    BytesOfNext(s, 3);
    assert s[..4] == s;
  }

  lemma BytesOfNext(s: seq<bv32>, n: nat)
    requires n < |s|
    ensures Bytes(s[..n + 1]) == Bytes(s[..n]) + WordBytes(s[n]) && Bytes(s[..0]) == []
  {
    hide WordBytes;
    assert s[..n + 1][..n] == s[..n];
  }

  lemma {:induction false} BytesConcat(s: seq<bv32>, t: seq<bv32>)
    ensures Bytes(s + t) == Bytes(s) + Bytes(t)
  {
    hide WordBytes;
    if t == [] {
      assert s + t == s;
    } else {
      BytesConcat(s, t[..|t| - 1]);
      assert (s + t)[..|s + t| - 1] == s + t[..|t| - 1];
    }
  }

  lemma StateBytes00()
    ensures WordBytes(0xba7816bf) == [0xba, 0x78, 0x16, 0xbf]
    ensures WordBytes(0x8f01cfea) == [0x8f, 0x01, 0xcf, 0xea]
  {}

  lemma StateBytes01()
    ensures WordBytes(0x414140de) == [0x41, 0x41, 0x40, 0xde]
    ensures WordBytes(0x5dae2223) == [0x5d, 0xae, 0x22, 0x23]
  {}

  lemma StateBytes0()
    ensures Bytes(STATE_0) ==
              [0xba, 0x78, 0x16, 0xbf, 0x8f, 0x01, 0xcf, 0xea, 0x41, 0x41, 0x40, 0xde, 0x5d, 0xae, 0x22, 0x23]
  {
    hide WordBytes, Bytes;
    BytesOfFour(STATE_0);
    StateBytes00();
    StateBytes01();
  }

  lemma StateBytes10()
    ensures WordBytes(0xb00361a3) == [0xb0, 0x03, 0x61, 0xa3]
    ensures WordBytes(0x96177a9c) == [0x96, 0x17, 0x7a, 0x9c]
  {}

  lemma StateBytes11()
    ensures WordBytes(0xb410ff61) == [0xb4, 0x10, 0xff, 0x61]
    ensures WordBytes(0xf20015ad) == [0xf2, 0x00, 0x15, 0xad]
  {}

  lemma StateBytes1()
    ensures Bytes(STATE_1) ==
              [0xb0, 0x03, 0x61, 0xa3, 0x96, 0x17, 0x7a, 0x9c, 0xb4, 0x10, 0xff, 0x61, 0xf2, 0x00, 0x15, 0xad]
  {
    hide WordBytes, Bytes;
    BytesOfFour(STATE_1);
    StateBytes10();
    StateBytes11();
  }

  /** The published digest of "abc". */
  lemma DigestOfAbc()
    ensures Digest(ABC) ==
              [0xba, 0x78, 0x16, 0xbf, 0x8f, 0x01, 0xcf, 0xea, 0x41, 0x41, 0x40, 0xde, 0x5d, 0xae, 0x22, 0x23]
              + [0xb0, 0x03, 0x61, 0xa3, 0x96, 0x17, 0x7a, 0x9c, 0xb4, 0x10, 0xff, 0x61, 0xf2, 0x00, 0x15, 0xad]
  {
    hide Compress, Bytes;
    PaddedAbc();
    AbcCompressed();
    BytesConcat(STATE_0, STATE_1);
    StateBytes0();
    StateBytes1();
    assert [] + ABC_BLOCK == ABC_BLOCK;
    ChainBlock(Compression(), BLOCK, IV, [], ABC_BLOCK);
  }
}
