/** What the committee keys, the curve constant and the constant I of the sources amount to together. */
module ShippedCommittee {
  import opened MachineInts
  import opened NumberTheory
  import opened Limbs
  import opened FieldBytes
  import opened Decompression
  import opened Unpackneg
  import opened Frames
  import opened Quorum
  import opened ShippedConstants

  const KEY_0: seq<u8> :=
    [0xd0, 0x4a, 0xb2, 0x32, 0x74, 0x2b, 0xb4, 0xab, 0x3a, 0x13, 0x68, 0xbd, 0x46, 0x15, 0xe4, 0xe6,
     0xd0, 0x22, 0x4a, 0xb7, 0x1a, 0x01, 0x6b, 0xaf, 0x85, 0x20, 0xa3, 0x32, 0xc9, 0x77, 0x87, 0x37]

  const KEY_1: seq<u8> :=
    [0xa0, 0x9a, 0xa5, 0xf4, 0x7a, 0x67, 0x59, 0x80, 0x2f, 0xf9, 0x55, 0xf8, 0xdc, 0x2d, 0x2a, 0x14,
     0xa5, 0xc9, 0x9d, 0x23, 0xbe, 0x97, 0xf8, 0x64, 0x12, 0x7f, 0xf9, 0x38, 0x34, 0x55, 0xa4, 0xf0]

  const KEY_2: seq<u8> :=
    [0x17, 0xcb, 0x79, 0xfb, 0x2b, 0x41, 0x20, 0xf2, 0xb1, 0xec, 0x65, 0xe4, 0x19, 0x8d, 0x6e, 0x08,
     0xb2, 0x8e, 0x81, 0x3f, 0xeb, 0x01, 0xe4, 0xa4, 0x00, 0x83, 0x9b, 0x85, 0xe1, 0x80, 0x80, 0xce]

  const KEY_3: seq<u8> :=
    [0xd7, 0x59, 0x79, 0x3b, 0xbc, 0x13, 0xa2, 0x81, 0x9a, 0x82, 0x7c, 0x76, 0xad, 0xb6, 0xfb, 0xa8,
     0xa4, 0x9a, 0xee, 0x00, 0x7f, 0x49, 0xf2, 0xd0, 0x99, 0x2d, 0x99, 0xb8, 0x25, 0xad, 0x2c, 0x48]

  const SOVR_ROOT_PUBKEYS: seq<seq<u8>> := [KEY_0, KEY_1, KEY_2, KEY_3]

  /** The four committee keys are pairwise distinct, as DistinctSigners asks. */
  lemma CommitteeKeysDistinct()
    ensures Committee(SOVR_ROOT_PUBKEYS)
    ensures forall u, v :: 0 <= u < v < 4 ==> SOVR_ROOT_PUBKEYS[u] != SOVR_ROOT_PUBKEYS[v]
  {
    assert KEY_0[0] == 0xd0 && KEY_1[0] == 0xa0 && KEY_2[0] == 0x17 && KEY_3[0] == 0xd7;
  }

  // ----- the y of each key, and a fourth root of num / den up to sign -----

  const Y0: int := 0x378777c932a32085_af6b011ab74a22d0_e6e41546bd68133a_abb42b7432b24ad0
  const T0: int := 0x5972ef8208b026fc_0852da1a08984fe3_6344452224cdb15b_ed64016992c1dfe0
  const Y1: int := 0x70a4553438f97f12_64f897be239dc9a5_142a2ddcf855f92f_8059677af4a59aa0
  const T1: int := 0x6da9ff482f5e94e9_0a547155c273700e_e3fec6e2e31e6232_d5b361b69f118a5d
  const Y2: int := 0x4e8080e1859b8300_a4e401eb3f818eb2_086e8d19e465ecb1_f220412bfb79cb17
  const T2: int := 0x2f9fd40161f55956_629dfb4f181797b1_8a92586844d5a222_a8ada4115e64f79e
  const Y3: int := 0x482cad25b8992d99_d0f2497f00ee9aa4_a8fbb6ad767c829a_81a213bc3b7959d7
  const T3: int := 0x0aa5f368266adb8e_08c6e8930c8a7583_0b64373401ba6e49_3857e8224b664719

  lemma FourthRoot0()
    ensures Quartic(D_VALUE, Y0, T0, 1)
  {
    FourthPowerOf(T0);
    hide Pow;
  }

  lemma FourthRoot1()
    ensures Quartic(D_VALUE, Y1, T1, -1)
    ensures !Cong(Y1 * Y1, 1, P)
  {
    FourthPowerOf(T1);
    hide Pow;
  }

  lemma FourthRoot2()
    ensures Quartic(D_VALUE, Y2, T2, 1)
  {
    FourthPowerOf(T2);
    hide Pow;
  }

  lemma FourthRoot3()
    ensures Quartic(D_VALUE, Y3, T3, 1)
  {
    FourthPowerOf(T3);
    hide Pow;
  }

  lemma FourthPowerOf(t: int)
    ensures Pow(t, 4) == (t * t) * (t * t)
  {
    PowAdd(t, 2, 2);
    PowAdd(t, 1, 1);
    assert Pow(t, 1) == t * Pow(t, 0) == t;
  }

  /** The two paths exclude each other unless y squared is 1. */
  lemma NotBoth(d: int, y: int)
    requires Prime(P) && Twisted(d, y) && !Cong(y * y, 1, P)
    ensures !Direct(d, y)
  {
    var n, c := Numerator(y), Check(Numerator(y), Denominator(d, y));
    if Direct(d, y) {
      CongAdd(c, n, c, -n, P);
      CongSym(0, 2 * n, P);
      DivModUnique(2, 0, 2, P);
      Euclid(2, n, P);
      assert false;
    }
  }

  lemma Key0()
    ensures |KEY_0| == 32 && Encoded(KEY_0) == Y0
  {
    hide Encoded;
    EncodedBy(KEY_0, 0x378777c932a32085, 0xaf6b011ab74a22d0, 0xe6e41546bd68133a, 0xabb42b7432b24ad0);
  }

  lemma Key1()
    ensures |KEY_1| == 32 && Encoded(KEY_1) == Y1
  {
    hide Encoded;
    EncodedBy(KEY_1, 0xf0a4553438f97f12, 0x64f897be239dc9a5, 0x142a2ddcf855f92f, 0x8059677af4a59aa0);
  }

  lemma Key2()
    ensures |KEY_2| == 32 && Encoded(KEY_2) == Y2
  {
    hide Encoded;
    EncodedBy(KEY_2, 0xce8080e1859b8300, 0xa4e401eb3f818eb2, 0x086e8d19e465ecb1, 0xf220412bfb79cb17);
  }

  lemma Key3()
    ensures |KEY_3| == 32 && Encoded(KEY_3) == Y3
  {
    hide Encoded;
    EncodedBy(KEY_3, 0x482cad25b8992d99, 0xd0f2497f00ee9aa4, 0xa8fbb6ad767c829a, 0x81a213bc3b7959d7);
  }

  /** Every committee key decompresses under the shipped D, the second one alone by way of I. */
  lemma CommitteeKeysDecompress()
    requires Prime(P)
    ensures Committee(SOVR_ROOT_PUBKEYS)
    ensures forall b :: 0 <= b < 4 ==>
              Decompresses(Val(D_LIMBS), Encoded(SOVR_ROOT_PUBKEYS[b]))
              && (Direct(Val(D_LIMBS), Encoded(SOVR_ROOT_PUBKEYS[b])) <==> b != 1)
  {
    CommitteeKeysDistinct();
    CurveConstantValue();
    hide Encoded, Direct, Twisted, Val, Cong, Pow, Numerator, Denominator;
    Key0();
    Key1();
    Key2();
    Key3();
    FourthRoot0();
    QuarticPath(D_VALUE, Y0, T0, 1);
    FourthRoot1();
    QuarticPath(D_VALUE, Y1, T1, -1);
    NotBoth(D_VALUE, Y1);
    FourthRoot2();
    QuarticPath(D_VALUE, Y2, T2, 1);
    FourthRoot3();
    QuarticPath(D_VALUE, Y3, T3, 1);
    forall b | 0 <= b < 4
      ensures Decompresses(Val(D_LIMBS), Encoded(SOVR_ROOT_PUBKEYS[b]))
              && (Direct(Val(D_LIMBS), Encoded(SOVR_ROOT_PUBKEYS[b])) <==> b != 1)
    {
      assert b == 0 || b == 1 || b == 2 || b == 3;
    }
  }

  /** The second committee key, with the shipped D and I, decompresses to a point off the curve. */
  lemma SecondKeyOffTheCurve()
    requires Prime(P)
    ensures |SOVR_ROOT_PUBKEYS[1]| == 32
    ensures var key := SOVR_ROOT_PUBKEYS[1];
            !OnCurve(Val(D_LIMBS), Recovered(Val(D_LIMBS), Val(I_LIMBS), Encoded(key), SignBit(key)), Encoded(key))
  {
    CommitteeKeysDecompress();
    RootConstantIsNoRoot();
    var key := SOVR_ROOT_PUBKEYS[1];
    SoundIff(Val(D_LIMBS), Val(I_LIMBS), Encoded(key), SignBit(key));
  }

  /** Acceptance under the shipped constants in closed form: each signing member's key, and three clear bits. */
  lemma ShippedVerdict(f: Frame)
    requires Prime(P)
    ensures Committee(SOVR_ROOT_PUBKEYS)
    ensures Verdict(Val(D_LIMBS), SOVR_ROOT_PUBKEYS, f) == 0 <==>
              GateOpen(f) && forall b :: 0 <= b < 4 && BitSet(Bitmap(f), b) ==>
                var i := Rank(Bitmap(f), b);
                WitnessKey(f, i) == SOVR_ROOT_PUBKEYS[b] && WitnessSignature(f, i)[63] < 0x20
  {
    CommitteeKeysDecompress();
    Accepted(Val(D_LIMBS), SOVR_ROOT_PUBKEYS, f);
    forall b | 0 <= b < 4
      ensures MemberBacked(Val(D_LIMBS), SOVR_ROOT_PUBKEYS, f, b) <==>
                (BitSet(Bitmap(f), b) ==>
                  var i := Rank(Bitmap(f), b);
                  WitnessKey(f, i) == SOVR_ROOT_PUBKEYS[b] && WitnessSignature(f, i)[63] < 0x20)
    {}
  }
}
