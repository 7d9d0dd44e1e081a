/**
 Verification of the signing committee: the popcount gate, then for each member whose bit is set
 the key and the signature of the next witness.
 */
module Quorum {
  import opened MachineInts
  import opened NumberTheory
  import opened Limbs
  import opened FieldOps
  import opened FieldBytes
  import opened Decompression
  import opened Unpackneg
  import opened Frames
  import Sha512Context

  const QUORUM_THRESHOLD: int := 3
  const MAX_QUORUM_SIGNERS: nat := 4

  // ----- bits -----

  predicate BitSet(x: int, b: nat) {
    PowPositive(2, b);
    (x / Pow(2, b)) % 2 == 1
  }

  /** How many of the bits below b are set. */
  function Rank(x: int, b: nat): (r: nat)
    ensures r <= b
  {
    if b == 0 then 0 else Rank(x, b - 1) + if BitSet(x, b - 1) then 1 else 0
  }

  function PopCount(x: nat): nat {
    if x == 0 then 0 else x % 2 + PopCount(x / 2)
  }

  lemma {:induction false} RankHalves(x: nat, b: nat)
    ensures Rank(x, b + 1) == x % 2 + Rank(x / 2, b)
  {
    if b == 0 {
      assert Pow(2, 0) == 1 && Rank(x, 0) == 0;
    } else {
      RankHalves(x, b - 1);
      PowPositive(2, b - 1);
      HalfThenDivide(x, Pow(2, b - 1));
    }
  }

  lemma HalfThenDivide(x: nat, w: nat)
    requires w > 0
    ensures x / 2 / w == x / (2 * w)
  {
    var q, r, s := x / 2 / w, (x / 2) % w, x % 2;
    assert x == 2 * (q * w + r) + s;
    Associate(q, 2, w);
    DivModUnique(x, q, 2 * r + s, 2 * w);
  }

  lemma {:induction false} PopCountIsRank(x: nat, b: nat)
    requires x < Pow(2, b)
    ensures PopCount(x) == Rank(x, b)
  {
    if b == 0 {
    } else {
      RankHalves(x, b - 1);
      PopCountIsRank(x / 2, b - 1);
    }
  }

  lemma {:induction false} RankGrows(x: int, a: nat, b: nat)
    requires a <= b
    ensures Rank(x, a) <= Rank(x, b) <= Rank(x, a) + (b - a)
    ensures a < b && BitSet(x, a) ==> Rank(x, a) < Rank(x, b)
    decreases b
  {
    if a == b {
    } else {
      RankGrows(x, a, b - 1);
    }
  }

  // ----- what the checks decide -----

  /** The signature check: the top three bits of the last byte are clear and the key decompresses. */
  ghost predicate SignatureAccepted(d: int, signature: seq<u8>, key: seq<u8>)
    requires |signature| == 64 && |key| == 32
  {
    signature[63] < 0x20 && Decompresses(d, Encoded(key))
  }

  ghost predicate Committee(keys: seq<seq<u8>>) {
    |keys| == MAX_QUORUM_SIGNERS && forall b :: 0 <= b < |keys| ==> |keys[b]| == 32
  }

  /** The verdict of the loop from bit b on: 0, or the code of the first check that fails. */
  ghost function Scan(d: int, keys: seq<seq<u8>>, f: Frame, b: nat): int
    requires Committee(keys) && b <= 4
    decreases 4 - b
  {
    if b == 4 then 0
    else if !BitSet(Bitmap(f), b) then Scan(d, keys, f, b + 1)
    else
      var i := Rank(Bitmap(f), b);
      if WitnessKey(f, i) != keys[b] then -2
      else if !SignatureAccepted(d, WitnessSignature(f, i), WitnessKey(f, i)) then -3
      else Scan(d, keys, f, b + 1)
  }

  predicate GateOpen(f: Frame) {
    QUORUM_THRESHOLD <= QuorumCount(f) <= MAX_QUORUM_SIGNERS && PopCount(f[BITMAP_AT] as nat) == QuorumCount(f)
  }

  ghost function Verdict(d: int, keys: seq<seq<u8>>, f: Frame): int
    requires Committee(keys)
  {
    if !GateOpen(f) then -1 else Scan(d, keys, f, 0)
  }

  /** Member b, if it signed, is backed by the witness whose index is the number of members before it. */
  ghost predicate MemberBacked(d: int, keys: seq<seq<u8>>, f: Frame, b: nat)
    requires Committee(keys) && b < 4
  {
    BitSet(Bitmap(f), b) ==>
      var i := Rank(Bitmap(f), b);
      WitnessKey(f, i) == keys[b] && SignatureAccepted(d, WitnessSignature(f, i), WitnessKey(f, i))
  }

  lemma {:induction false} ScanAccepts(d: int, keys: seq<seq<u8>>, f: Frame, b: nat)
    requires Committee(keys) && b <= 4
    ensures Scan(d, keys, f, b) == 0 <==> forall c :: b <= c < 4 ==> MemberBacked(d, keys, f, c)
    decreases 4 - b
  {
    if b == 4 {
    } else {
      ScanAccepts(d, keys, f, b + 1);
      assert MemberBacked(d, keys, f, b) || !MemberBacked(d, keys, f, b);
    }
  }

  /** Acceptance in full: the count is 3 or 4 and is the popcount, and every signing member is backed. */
  lemma Accepted(d: int, keys: seq<seq<u8>>, f: Frame)
    requires Committee(keys)
    ensures Verdict(d, keys, f) == 0 <==>
              && (QuorumCount(f) == 3 || QuorumCount(f) == 4)
              && PopCount(f[BITMAP_AT] as nat) == QuorumCount(f)
              && forall b :: 0 <= b < 4 ==> MemberBacked(d, keys, f, b)
  {
    ScanAccepts(d, keys, f, 0);
  }

  /** The refusal codes: -1 when the counts do not fit, and else the fault of the least member that is not
      backed, -2 for a foreign key and -3 for a signature that does not pass. */
  lemma VerdictCodes(d: int, keys: seq<seq<u8>>, f: Frame, b: nat)
    requires Committee(keys)
    ensures Verdict(d, keys, f) == -1 <==>
              !(3 <= QuorumCount(f) <= 4) || PopCount(f[BITMAP_AT] as nat) != QuorumCount(f)
    ensures b < 4 && GateOpen(f) && !MemberBacked(d, keys, f, b)
         && (forall c :: 0 <= c < b ==> MemberBacked(d, keys, f, c))
        ==> Verdict(d, keys, f) == if WitnessKey(f, Rank(Bitmap(f), b)) != keys[b] then -2 else -3
  {
    ScanCodes(d, keys, f, 0, b);
  }

  lemma {:induction false} ScanCodes(d: int, keys: seq<seq<u8>>, f: Frame, a: nat, b: nat)
    requires Committee(keys) && a <= 4
    ensures Scan(d, keys, f, a) != -1
    ensures a <= b < 4 && !MemberBacked(d, keys, f, b) && (forall c :: a <= c < b ==> MemberBacked(d, keys, f, c))
        ==> Scan(d, keys, f, a) == if WitnessKey(f, Rank(Bitmap(f), b)) != keys[b] then -2 else -3
    decreases 4 - a
  {
    if a == 4 {
    } else {
      ScanCodes(d, keys, f, a + 1, b);
      assert MemberBacked(d, keys, f, a) || !MemberBacked(d, keys, f, a);
    }
  }

  /** A witness is always left for a set bit once the gate is open. */
  lemma WitnessLeft(f: Frame, b: nat)
    requires GateOpen(f) && b < 4 && BitSet(Bitmap(f), b)
    ensures Rank(Bitmap(f), b) < QuorumCount(f)
  {
    PopCountIsRank(f[BITMAP_AT] as nat, 8) by { assert Pow(2, 8) == 0x100; }
    RankGrows(Bitmap(f), b, 8);
  }

  /** The loop checks as many witnesses as the quorum counts exactly when no bit above the committee is set. */
  lemma AllCountedAreChecked(f: Frame)
    requires GateOpen(f)
    ensures Rank(Bitmap(f), 4) == QuorumCount(f) <==> Bitmap(f) < 16
  {
    var x := f[BITMAP_AT] as nat;
    PopCountIsRank(x, 8) by { assert Pow(2, 8) == 0x100; }
    if x < 16 {
      PopCountIsRank(x, 4) by { assert Pow(2, 4) == 16; }
    } else {
      HighBits(x);
    }
  }

  lemma HighBits(x: nat)
    requires 16 <= x < 0x100
    ensures Rank(x, 4) < Rank(x, 8)
  {
    assert Pow(2, 4) == 16 && Pow(2, 5) == 32 && Pow(2, 6) == 64 && Pow(2, 7) == 128;
    var b := if x >= 128 then 7 else if x >= 64 then 6 else if x >= 32 then 5 else 4;
    assert BitSet(x, b);
    RankGrows(x, 4, b);
    RankGrows(x, b, 8);
  }

  /** With distinct committee keys the witnesses that acceptance checked, as many as the bitmap has
      member bits, carry pairwise distinct committee keys. */
  lemma DistinctSigners(d: int, keys: seq<seq<u8>>, f: Frame, i: nat, j: nat)
    returns (b: nat, c: nat)
    requires Committee(keys) && (forall u, v :: 0 <= u < v < 4 ==> keys[u] != keys[v])
    requires Verdict(d, keys, f) == 0 && i < j < Rank(Bitmap(f), 4)
    ensures b < c < 4 && WitnessKey(f, i) == keys[b] && WitnessKey(f, j) == keys[c]
    ensures WitnessKey(f, i) != WitnessKey(f, j)
  {
    Accepted(d, keys, f);
    b := BitOfRank(Bitmap(f), 4, i);
    c := BitOfRank(Bitmap(f), 4, j);
    if c <= b { RankGrows(Bitmap(f), c, b); }
    assert MemberBacked(d, keys, f, b) && MemberBacked(d, keys, f, c);
  }

  /** With a bitmap below 16 those are all the witnesses the quorum counts. */
  lemma CountedSignersDistinct(d: int, keys: seq<seq<u8>>, f: Frame, i: nat, j: nat)
    requires Committee(keys) && (forall u, v :: 0 <= u < v < 4 ==> keys[u] != keys[v])
    requires Verdict(d, keys, f) == 0 && Bitmap(f) < 16
    requires i < j < QuorumCount(f)
    ensures WitnessKey(f, i) in keys && WitnessKey(f, j) in keys && WitnessKey(f, i) != WitnessKey(f, j)
  {
    AllCountedAreChecked(f);
    var b, c := DistinctSigners(d, keys, f, i, j);
  }

  lemma {:induction false} BitOfRank(x: int, n: nat, i: nat) returns (b: nat)
    requires i < Rank(x, n)
    ensures b < n && BitSet(x, b) && Rank(x, b) == i
  {
    if i == Rank(x, n - 1) {
      b := n - 1;
    } else {
      b := BitOfRank(x, n - 1, i);
    }
  }

  // ----- who stands behind an accepted frame -----

  function BitsBelow(x: int, n: nat): set<nat> { set b: nat | b < n && BitSet(x, b) }

  lemma {:induction false} RankCounts(x: int, n: nat)
    ensures |BitsBelow(x, n)| == Rank(x, n)
  {
    if n == 0 {
      assert BitsBelow(x, 0) == {};
    } else {
      RankCounts(x, n - 1);
      assert BitsBelow(x, n) == BitsBelow(x, n - 1) + if BitSet(x, n - 1) then {n - 1} else {};
    }
  }

  lemma HalfOfRest(x: nat, p: nat)
    requires p > 0
    ensures (x % (2 * p)) / 2 == (x / 2) % p && (x % (2 * p)) % 2 == x % 2
  {
    var q, r := x / 2 / p, (x / 2) % p;
    assert x == 2 * (q * p + r) + x % 2;
    Associate(q, 2, p);
    DivModUnique(x, q, 2 * r + x % 2, 2 * p);
  }

  lemma {:induction false} LowBits(x: nat, n: nat)
    ensures Pow(2, n) > 0 && Rank(x, n) == PopCount(x % Pow(2, n))
  {
    PowPositive(2, n);
    if n == 0 {
      DivModUnique(x, x, 0, 1);
    } else {
      PowPositive(2, n - 1);
      RankHalves(x, n - 1);
      LowBits(x / 2, n - 1);
      HalfOfRest(x, Pow(2, n - 1));
    }
  }

  /** The members that signed and whose witness passes both checks. */
  ghost function Signers(d: int, keys: seq<seq<u8>>, f: Frame): set<nat>
    requires Committee(keys)
  {
    set b: nat | b < 4 && BitSet(Bitmap(f), b) && MemberBacked(d, keys, f, b)
  }

  /** Acceptance stands on as many members as the low four bits of the bitmap name, so on a quorum of
      members exactly when these bits alone reach the threshold. */
  lemma SignersOfAccepted(d: int, keys: seq<seq<u8>>, f: Frame)
    requires Committee(keys) && Verdict(d, keys, f) == 0
    ensures |Signers(d, keys, f)| == Rank(Bitmap(f), 4) == PopCount((f[BITMAP_AT] % 16) as nat)
    ensures |Signers(d, keys, f)| >= QUORUM_THRESHOLD <==> Rank(Bitmap(f), 4) >= QUORUM_THRESHOLD
  {
    Accepted(d, keys, f);
    RankCounts(Bitmap(f), 4);
    assert Pow(2, 4) == 16;
    LowBits(f[BITMAP_AT] as nat, 4);
    assert Signers(d, keys, f) == BitsBelow(Bitmap(f), 4);
  }

  /** A frame passes under every committee exactly when the gate is open and the bitmap names no member. */
  lemma AcceptedByEveryCommittee(d: int, f: Frame)
    ensures (forall keys :: Committee(keys) ==> Verdict(d, keys, f) == 0) <==> GateOpen(f) && Bitmap(f) % 16 == 0
  {
    NoMemberBit(f[BITMAP_AT] as nat);
    if Bitmap(f) % 16 == 0 {
      forall keys | Committee(keys) && GateOpen(f)
        ensures Verdict(d, keys, f) == 0
      {
        Accepted(d, keys, f);
      }
      var any := seq(4, _ => seq(32, _ => 0 as u8));
      assert Committee(any);
      Accepted(d, any, f);
    } else {
      var b: nat :| b < 4 && BitSet(Bitmap(f), b);
      var other := Foreign(WitnessKey(f, Rank(Bitmap(f), b)));
      var keys := seq(4, _ => other);
      assert Committee(keys);
      Accepted(d, keys, f);
      assert !MemberBacked(d, keys, f, b);
    }
  }

  function Foreign(key: seq<u8>): (other: seq<u8>)
    requires |key| == 32
    ensures |other| == 32 && other != key
  {
    var b: u8 := if key[0] == 0 then 1 else 0;
    [b] + key[1..]
  }

  lemma {:induction false} PopCountZero(x: nat)
    ensures PopCount(x) == 0 <==> x == 0
  {
    if x == 0 {
    } else {
      PopCountZero(x / 2);
    }
  }

  lemma {:induction false} RankZero(x: int, n: nat)
    ensures Rank(x, n) == 0 <==> forall b: nat :: b < n ==> !BitSet(x, b)
  {
    if n == 0 {
    } else {
      RankZero(x, n - 1);
    }
  }

  lemma NoMemberBit(x: nat)
    ensures x % 16 == 0 <==> forall b: nat :: b < 4 ==> !BitSet(x, b)
  {
    assert Pow(2, 4) == 16;
    hide BitSet, PopCount, Rank;
    LowBits(x, 4);
    PopCountZero(x % 16);
    RankZero(x, 4);
  }

  /** A frame that does, made from any frame: bits 4 to 6 and a count of 3. */
  lemma NoMemberNamed(d: int, keys: seq<seq<u8>>, z: Frame)
    requires Committee(keys)
    ensures var f := z[BITMAP_AT := 0x70][BITMAP_AT + 1 := 3];
            Verdict(d, keys, f) == 0 && Signers(d, keys, f) == {}
  {
    var f: Frame := z[BITMAP_AT := 0x70][BITMAP_AT + 1 := 3];
    assert PopCount(7) == 3;
    assert PopCount(0x70) == 3;
    AcceptedByEveryCommittee(d, f);
    NoMemberBit(0x70);
  }

  /** The verdict reads the bitmap, the count and the witnesses, and nothing else of the frame. */
  lemma VerdictReads(d: int, keys: seq<seq<u8>>, f: Frame, g: Frame)
    requires Committee(keys)
    requires f[BITMAP_AT..BITMAP_AT + 2] == g[BITMAP_AT..BITMAP_AT + 2] && f[WITNESSES_AT..] == g[WITNESSES_AT..]
    ensures Verdict(d, keys, f) == Verdict(d, keys, g)
  {
    assert f[BITMAP_AT] == f[BITMAP_AT..BITMAP_AT + 2][0] && f[BITMAP_AT + 1] == f[BITMAP_AT..BITMAP_AT + 2][1];
    assert g[BITMAP_AT] == g[BITMAP_AT..BITMAP_AT + 2][0] && g[BITMAP_AT + 1] == g[BITMAP_AT..BITMAP_AT + 2][1];
    ScanReads(d, keys, f, g, 0);
  }

  lemma {:induction false} ScanReads(d: int, keys: seq<seq<u8>>, f: Frame, g: Frame, b: nat)
    requires Committee(keys) && b <= 4
    requires Bitmap(f) == Bitmap(g) && f[WITNESSES_AT..] == g[WITNESSES_AT..]
    ensures Scan(d, keys, f, b) == Scan(d, keys, g, b)
    decreases 4 - b
  {
    if b == 4 {
    } else {
      ScanReads(d, keys, f, g, b + 1);
      if BitSet(Bitmap(f), b) {
        var start := 96 * Rank(Bitmap(f), b);
        SlicesOfSlice(f, g, WITNESSES_AT, FRAME_SIZE, WITNESSES_AT + start, WITNESSES_AT + start + 32);
        SlicesOfSlice(f, g, WITNESSES_AT, FRAME_SIZE, WITNESSES_AT + start + 32, WITNESSES_AT + start + 96);
      }
    }
  }

  // ----- the code -----

  lemma {:induction false} XorBytes(a: int, b: int, n: nat)
    requires 0 <= a < Pow(2, n) && 0 <= b < Pow(2, n)
    ensures 0 <= Xor(a, b) < Pow(2, n)
    ensures Xor(a, b) == 0 <==> a == b
    decreases n
  {
    if n == 0 || (AllSignBits(a) && AllSignBits(b)) {
    } else {
      XorBytes(a / 2, b / 2, n - 1);
    }
  }

  function XorByte(a: u8, b: u8): (r: u8)
    ensures r == 0 <==> a == b
  {
    assert Pow(2, 8) == 0x100;
    XorBytes(a as int, b as int, 8);
    Xor(a as int, b as int) as u8
  }

  /** Comparison of 32 bytes without early exit. */
  method Verify32(a: seq<u8>, b: seq<u8>) returns (diff: u8)
    requires |a| == |b| == 32
    ensures diff == 0 <==> a == b
  {
    diff := 0;
    for i := 0 to 32
      invariant diff == 0 <==> a[..i] == b[..i]
    {
      diff := OrByte(diff, XorByte(a[i], b[i]));
      assert a[..i + 1] == a[..i] + [a[i]] && b[..i + 1] == b[..i] + [b[i]];
    }
    assert a[..32] == a && b[..32] == b;
  }

  /** The signature check of the sources. It hashes R, A and the message but decides by the two tests alone. */
  method Ed25519Verify(signature: seq<u8>, message: seq<u8>, key: seq<u8>,
                       d: array<i64>, iroot: array<i64>, k: seq<bv64>)
    returns (r: int)
    requires |signature| == 64 && |key| == 32 && |message| < TWO_TO_THE_64 && |k| == 80
    requires Element(d) && Element(iroot)
    ensures r == if signature[63] >= 0x20 then -1 else if !Decompresses(Val(d[..]), Encoded(key)) then -2 else 0
    ensures r == 0 <==> SignatureAccepted(Val(d[..]), signature, key)
  {
    if signature[63] / 0x20 != 0 {
      return -1;
    }
    var rx, ry := new i64[16], new i64[16];
    r := UnpackNeg(rx, ry, key, d, iroot);
    if r != 0 {
      return -2;
    }
    var ctx := new Sha512Context.Context(k);
    ctx.Update(signature[..32]);
    ctx.Update(key);
    ctx.Update(message);
    var digest := ctx.Final();
    return 0;
  }

  method VerifyCommittee(f: Frame, keys: seq<seq<u8>>, d: array<i64>, iroot: array<i64>, k: seq<bv64>) returns (r: int)
    requires Committee(keys) && |k| == 80 && Element(d) && Element(iroot)
    ensures r == Verdict(Val(d[..]), keys, f)
  {
    var quorumCount := QuorumCount(f);
    if quorumCount < QUORUM_THRESHOLD || quorumCount > MAX_QUORUM_SIGNERS {
      return -1;
    }
    var validSigners := PopCount(f[BITMAP_AT] as nat);
    if validSigners < QUORUM_THRESHOLD || validSigners != quorumCount {
      return -1;
    }
    ghost var dv := Val(d[..]);
    var index := 0;
    for bit := 0 to 4
      invariant index == Rank(Bitmap(f), bit)
      invariant Scan(dv, keys, f, 0) == Scan(dv, keys, f, bit)
    {
      if BitSet(Bitmap(f), bit) {
        WitnessLeft(f, bit);
        assert index < quorumCount;  // so the guard on the witness index is never taken
        var diff := Verify32(WitnessKey(f, index), keys[bit]);
        if diff != 0 {
          return -2;
        }
        var verified := Ed25519Verify(WitnessSignature(f, index), f[..320], WitnessKey(f, index), d, iroot, k);
        if verified != 0 {
          return -3;
        }
        index := index + 1;
      }
    }
    return 0;
  }
}
