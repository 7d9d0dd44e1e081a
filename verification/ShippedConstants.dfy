/** What the constants compiled into the sources do and do not satisfy. */
module ShippedConstants {
  import opened MachineInts
  import opened NumberTheory
  import opened Limbs
  import opened FieldOps
  import opened FieldBytes
  import opened Decompression
  import opened Unpackneg

  /** The constant used where RFC 8032 asks for a square root of -1. */
  const I_LIMBS: seq<i64> := [
    0xa0b0, 0x4a0e, 0x1b27, 0x0000, 0xe460, 0x8dbf, 0xa14f, 0x5465,
    0x74e5, 0x49c9, 0x4f6c, 0xa0b0, 0x10cf, 0x5198, 0x7590, 0x2b83]

  const I_VALUE: int := 0x2b837590519810cf_a0b04f6c49c974e5_5465a14f8dbfe460_00001b274a0ea0b0

  /** Limbs weighed from the top, which needs no powers. */
  function Horner(s: seq<i64>, k: nat): int
    requires k <= |s|
    decreases |s| - k
  {
    if k == |s| then 0 else s[k] as int + RADIX * Horner(s, k + 1)
  }

  lemma {:induction false} HornerValue(s: seq<i64>, k: nat)
    requires k <= |s|
    ensures Val(s) == Value(s, k) + Weight(k) * Horner(s, k)
    decreases |s| - k
  {
    if k == |s| {
    } else {
      HornerValue(s, k + 1);
      var w, h := Weight(k), Horner(s, k + 1);
      Distribute(w, s[k] as int, RADIX * h);
      Associate(RADIX, w, h);
    }
  }

  /** Four limbs from position k as one number of 64 bits. */
  function Quad(s: seq<i64>, k: nat): int
    requires k + 4 <= |s|
  {
    s[k] as int + 0x1_0000 * s[k + 1] as int + 0x1_0000_0000 * s[k + 2] as int + 0x1_0000_0000_0000 * s[k + 3] as int
  }

  lemma HornerQuad(s: seq<i64>, k: nat)
    requires k + 4 <= |s|
    ensures Horner(s, k) == Quad(s, k) + TWO_TO_THE_64 * Horner(s, k + 4)
  {
    assert Horner(s, k + 3) == s[k + 3] as int + RADIX * Horner(s, k + 4);
    assert Horner(s, k + 2) == s[k + 2] as int + RADIX * Horner(s, k + 3);
    assert Horner(s, k + 1) == s[k + 1] as int + RADIX * Horner(s, k + 2);
  }

  /** The number whose four 64-bit digits are given, least significant first. */
  function FromDigits(a: int, b: int, c: int, d: int): int {
    a + TWO_TO_THE_64 * (b + TWO_TO_THE_64 * (c + TWO_TO_THE_64 * d))
  }

  lemma ByQuads(s: seq<i64>)
    requires |s| == 16
    ensures Val(s) == FromDigits(Quad(s, 0), Quad(s, 4), Quad(s, 8), Quad(s, 12))
  {
    hide Quad;
    HornerValue(s, 0);
    HornerQuad(s, 0);
    HornerQuad(s, 4);
    HornerQuad(s, 8);
    HornerQuad(s, 12);
  }

  /** Eight bytes from position k as one number of 64 bits. */
  function Octet(b: seq<u8>, k: nat): int
    requires k + 8 <= |b|
  {
    b[k] as int + 0x100 * b[k + 1] as int + 0x1_0000 * b[k + 2] as int + 0x100_0000 * b[k + 3] as int
    + 0x1_0000_0000 * b[k + 4] as int + 0x100_0000_0000 * b[k + 5] as int
    + 0x1_0000_0000_0000 * b[k + 6] as int + 0x100_0000_0000_0000 * b[k + 7] as int
  }

  lemma ByOctets(b: seq<u8>)
    requires |b| == 32
    ensures ByteValue(b, 32) == FromDigits(Octet(b, 0), Octet(b, 8), Octet(b, 16), Octet(b, 24))
  {
    hide FromDigits, Value, ByteValue;
    var s := seq(16, k requires 0 <= k < 16 => (b[2 * k] as int + 0x100 * b[2 * k + 1] as int) as i64);
    SameBytesValue(b, s, 16);
    ByQuads(s);
  }

  /** An encoding by its four 64-bit digits, most significant first. */
  lemma EncodedBy(b: seq<u8>, a3: int, a2: int, a1: int, a0: int)
    requires |b| == 32
    requires Octet(b, 24) == a3 && Octet(b, 16) == a2 && Octet(b, 8) == a1 && Octet(b, 0) == a0
    ensures Encoded(b) == FromDigits(a0, a1, a2, a3) % TWO_TO_THE_255
  {
    ByOctets(b);
  }

  lemma RootConstantValue()
    ensures Val(I_LIMBS) == I_VALUE
  {
    hide Val;
    ByQuads(I_LIMBS);
  }

  lemma RootConstantIsNoRoot()
    ensures !Cong(Val(I_LIMBS) * Val(I_LIMBS), -1, P) && !Cong(Val(I_LIMBS), 0, P)
  {
    RootConstantValue();
  }

  /** The curve constant of the sources. */
  const D_LIMBS: seq<i64> := [
    0x78a3, 0x1359, 0x4dca, 0x75eb, 0xd8ab, 0x4141, 0x0a4d, 0x0070,
    0xe0a0, 0x5297, 0x68db, 0x240e, 0x560e, 0x471d, 0x245b, 0x5203]

  const D_VALUE: int := 0x5203245b471d560e_240e68db5297e0a0_00700a4d4141d8ab_75eb4dca135978a3

  lemma CurveConstantValue()
    ensures Val(D_LIMBS) == D_VALUE
  {
    hide Val;
    ByQuads(D_LIMBS);
  }

  /** The case that uniqueness and the comparison with the standard leave out does not arise. */
  lemma CurveConstantIsNotMinusOne()
    ensures !Cong(Val(D_LIMBS), -1, P)
  {
    CurveConstantValue();
  }

  /** The encoding of y = 0 always takes the path that multiplies by I, so its x is I up to sign. */
  lemma ZeroEncoding(d: int, i: int, sign: int)
    requires sign == 0 || sign == 1
    ensures Decompresses(d, 0) && !Direct(d, 0)
    ensures OnCurve(d, Recovered(d, i, 0, sign), 0) <==> Cong(i * i, -1, P)
  {
    var n, q := Numerator(0), Denominator(d, 0);
    assert n == -1 && q == 1;
    OneToThe(7);
    OneToThe(3);
    MinusOneToThe(Exponent());
    assert Candidate(n, q) == 1;
    CongIntro(1, 1, 0, P);
    DivModUnique(2, 0, 2, P);
    UnsignedSquare(d, i, 0);
    RecoveredSign(d, i, 0, sign);
    OnCurveInvariant(d, Unsigned(d, i, 0), Recovered(d, i, 0, sign), 0);
  }

  lemma {:induction false} OneToThe(e: nat)
    ensures Pow(1, e) == 1
  {
    if e == 0 {
    } else {
      OneToThe(e - 1);
    }
  }

  lemma {:induction false} MinusOneToThe(e: nat)
    ensures Pow(-1, e) == if e % 2 == 0 then 1 else -1
  {
    if e == 0 {
    } else {
      MinusOneToThe(e - 1);
    }
  }

  /** An encoding that the signature check, called on its own, accepts as a point off the curve, whatever
      D is. The appliance calls that check with committee keys only; ShippedCommittee.SecondKeyOffTheCurve
      is the case of one of those. */
  lemma ZeroKeyOffTheCurve(d: int) returns (key: seq<u8>)
    ensures |key| == 32 && Decompresses(d, Encoded(key))
    ensures !OnCurve(d, Recovered(d, Val(I_LIMBS), Encoded(key), 0), Encoded(key))
  {
    key := seq(32, _ => 0 as u8);
    ZeroBytes(key, 32);
    DivModUnique(0, 0, 0, TWO_TO_THE_255);
    RootConstantIsNoRoot();
    ZeroEncoding(d, Val(I_LIMBS), 0);
  }

  // ----- encodings that the standard refuses -----

  lemma SignedOne() returns (key: seq<u8>)
    ensures |key| == 32 && SignBit(key) == 1 && Encoded(key) == 1
  {
    key := seq(32, k => if k == 0 then 1 as u8 else if k == 31 then 0x80 else 0);
    hide Encoded;
    EncodedBy(key, 0x8000_0000_0000_0000, 0, 0, 1);
  }

  /** At y = 1 with the sign bit set the x delivered is zero, so its low bit is not the sign bit. */
  lemma SignBitUnmatched(d: int, i: int) returns (key: seq<u8>)
    requires Prime(P)
    ensures |key| == 32 && Encoded(key) == 1 && SignBit(key) == 1 && Decompresses(d, Encoded(key))
    ensures !Cong(d, -1, P) ==> !StandardAccepts(d, Encoded(key), SignBit(key))
    ensures Recovered(d, i, Encoded(key), SignBit(key)) % 2 == 0
  {
    hide Encoded, SignBit, Decompresses, StandardAccepts, Recovered;
    key := SignedOne();
    AtOne(d, i);
    if !Cong(d, -1, P) { StandardExactly(d, 1, 1); }
  }

  lemma AtOne(d: int, i: int)
    requires Prime(P)
    ensures Decompresses(d, 1) && Cong(1 * 1, 1, P) && Recovered(d, i, 1, 1) % 2 == 0
  {
    CongIntro(1, 1, 0, P);
    OriginAtOne(d);
    hide Direct, Twisted, Recovered, OnCurve;
    Complete(d, 0, 1);
    SignRecovered(d, i, 1, 1);
    ParityOfRest(Recovered(d, i, 1, 1));
  }

  lemma OriginAtOne(d: int)
    ensures OnCurve(d, 0, 1)
  {
    assert (0 * 0) * Denominator(d, 1) == 0 == Numerator(1);
    CongIntro(0, 0, 0, P);
  }

  lemma ParityOfRest(r: int)
    ensures r % 2 == 0 || r % 2 == 1
  {}

  lemma PrimeEncoding() returns (key: seq<u8>)
    ensures |key| == 32 && key[0] != 0 && SignBit(key) == 0 && Encoded(key) == P
  {
    key := seq(32, k => if k == 0 then 0xed as u8 else if k == 31 then 0x7f else 0xff);
    hide Encoded;
    EncodedBy(key, 0x7fff_ffff_ffff_ffff, 0xffff_ffff_ffff_ffff, 0xffff_ffff_ffff_ffff, 0xffff_ffff_ffff_ffed);
  }

  /** The encoding of p itself decodes as that of 0 does, although the two differ and p is no canonical y. */
  lemma PrimeEncodedAsZero(d: int, i: int) returns (key: seq<u8>, zero: seq<u8>)
    ensures |key| == |zero| == 32 && key != zero && SignBit(key) == SignBit(zero) == 0
    ensures Encoded(key) == P && Encoded(zero) == 0 && !StandardAccepts(d, Encoded(key), 0)
    ensures Decompresses(d, Encoded(key)) && Decompresses(d, Encoded(zero))
    ensures Recovered(d, i, Encoded(key), 0) == Recovered(d, i, Encoded(zero), 0)
  {
    key := PrimeEncoding();
    zero := seq(32, _ => 0 as u8);
    ZeroBytes(zero, 32);
    DivModUnique(0, 0, 0, TWO_TO_THE_255);
    ZeroEncoding(d, i, 0);
    CongIntro(P, 0, 1, P);
    SameForCongruent(d, i, P, 0, 0);
  }
}
