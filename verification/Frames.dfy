/** The byte layout of the 1152-byte request and the 40-byte response. */
module Frames {
  import opened MachineInts
  import opened NumberTheory
  import opened FieldBytes

  const FRAME_SIZE: nat := 1152
  const RESPONSE_SIZE: nat := 40
  const MAX_NODES: nat := 8
  const NODE_SIZE: nat := 64
  const SOVR_MAGIC: nat := 0x534F5652
  const SOVA_MAGIC: nat := 0x534F5641

  const STATUS_SUCCESS: nat := 0x0000
  const STATUS_ERR_MAGIC: nat := 0xE001
  const STATUS_REJECT_REPLAY: nat := 0xE002
  const STATUS_ERR_BOUNDS: nat := 0xE003
  const STATUS_ERR_QUORUM: nat := 0xE004

  const FLAG_STATUTORY_DUTY: nat := 0x0001
  const FLAG_CORP_DEFENSE_VALID: nat := 0x0002
  const FLAG_CAN_BE_ADMINISTERED: nat := 0x0004
  const FLAG_ANOMALY_DETECTED: nat := 0x0008
  const FLAG_QUORUM_VERIFIED: nat := 0x0010

  type Frame = f: seq<u8> | |f| == FRAME_SIZE witness seq(FRAME_SIZE, _ => 0)

  // Offsets of the packed structure.
  const DUTY_AT: nat := 0x11
  const CLAIMANT_AT: nat := 0x18
  const DOCKETS_AT: nat := 0x58
  const NODES_AT: nat := 0xD8
  const HASH_AT: nat := 0x2D8
  const BITMAP_AT: nat := 0x2F8
  const WITNESSES_AT: nat := 0x300

  function Magic(f: Frame): int { ByteValue(f[0..4], 4) }
  function SequenceId(f: Frame): int { ByteValue(f[8..16], 8) }
  function NodeCount(f: Frame): int { ByteValue(f[0x14..0x18], 4) }
  function Bitmap(f: Frame): int { f[BITMAP_AT] as int }
  function QuorumCount(f: Frame): int { f[BITMAP_AT + 1] as int }

  function Node(f: Frame, n: nat): (r: seq<u8>)
    requires n < MAX_NODES
    ensures |r| == NODE_SIZE
  {
    f[NODES_AT + NODE_SIZE * n..NODES_AT + NODE_SIZE * (n + 1)]
  }

  function TitleType(f: Frame, n: nat): int
    requires n < MAX_NODES
  {
    ByteValue(Node(f, n)[60..64], 4)
  }

  function WitnessKey(f: Frame, i: nat): (k: seq<u8>)
    requires i < 4
    ensures |k| == 32
  {
    f[WITNESSES_AT + 96 * i..WITNESSES_AT + 96 * i + 32]
  }

  function WitnessSignature(f: Frame, i: nat): (s: seq<u8>)
    requires i < 4
    ensures |s| == 64
  {
    f[WITNESSES_AT + 96 * i + 32..WITNESSES_AT + 96 * i + 96]
  }

  /** Strings that agree on a stretch agree on every part of it. */
  lemma SlicesOfSlice(f: seq<u8>, g: seq<u8>, a: nat, b: nat, c: nat, d: nat)
    requires a <= c <= d <= b <= |f| == |g| && f[a..b] == g[a..b]
    ensures f[c..d] == g[c..d]
  {
    forall k | c <= k < d
      ensures f[k] == g[k]
    {
      assert f[a..b][k - a] == f[k] && g[a..b][k - a] == g[k];
    }
  }

  /** Claimant, dockets and the first NodeCount nodes, adjacent in the frame. */
  function Preimage(f: Frame): (p: seq<u8>)
    requires 0 <= NodeCount(f) <= MAX_NODES
    ensures |p| == 192 + NODE_SIZE * NodeCount(f)
  {
    f[CLAIMANT_AT..NODES_AT + NODE_SIZE * NodeCount(f)]
  }

  /** Four and eight bytes as numbers, least significant first. */
  lemma FourByteNumber(b: seq<u8>)
    requires |b| == 4
    ensures ByteValue(b, 4) == b[0] as int + 0x100 * b[1] as int + 0x1_0000 * b[2] as int + 0x100_0000 * b[3] as int
  {
    assert Pow(0x100, 0) == 1 && Pow(0x100, 1) == 0x100 && Pow(0x100, 2) == 0x1_0000 && Pow(0x100, 3) == 0x100_0000;
    assert ByteValue(b, 1) == b[0] as int;
    assert ByteValue(b, 2) == b[0] as int + 0x100 * b[1] as int;
  }

  lemma EightByteNumber(b: seq<u8>)
    requires |b| == 8
    ensures ByteValue(b, 8) == ByteValue(b[..4], 4) + 0x1_0000_0000 * ByteValue(b[4..], 4)
  {
    var w := 0x1_0000_0000;
    assert Pow(0x100, 4) == w && Pow(0x100, 5) == 0x100 * w && Pow(0x100, 6) == 0x1_0000 * w
        && Pow(0x100, 7) == 0x100_0000 * w;
    SameByteValue(b, b[..4], 4);
    FourByteNumber(b[4..]);
    assert ByteValue(b, 6) == ByteValue(b, 4) + b[4] as int * w + b[5] as int * (0x100 * w);
    assert ByteValue(b, 8) == ByteValue(b, 6) + b[6] as int * (0x1_0000 * w) + b[7] as int * (0x100_0000 * w);
  }

  /** The l low bytes of v, least significant first. */
  function LittleEndian(v: nat, l: nat): (b: seq<u8>)
    ensures |b| == l
  {
    if l == 0 then [] else LittleEndian(v, l - 1) + [((v / ByteWeight(l - 1)) % 0x100) as u8]
  }

  function ByteWeight(k: nat): (w: nat)
    ensures w > 0
  {
    PowPositive(0x100, k);
    Pow(0x100, k)
  }

  lemma {:induction false} LittleEndianValue(v: nat, l: nat)
    ensures ByteValue(LittleEndian(v, l), l) == v % ByteWeight(l)
  {
    if l != 0 {
      LittleEndianValue(v, l - 1);
      var b, w := LittleEndian(v, l), ByteWeight(l - 1);
      SameByteValue(b, LittleEndian(v, l - 1), l - 1);
      var q := v / w;
      assert v == q * w + v % w;
      Distribute(w, (q / 0x100) * 0x100, q % 0x100);
      Associate(q / 0x100, 0x100, w);
      Monotone(q % 0x100, 0xff, w);
      DivModUnique(v, q / 0x100, (q % 0x100) * w + v % w, 0x100 * w);
    } else {
      DivModUnique(v, v, 0, 1);
    }
  }

  lemma {:induction false} SameByteValue(a: seq<u8>, b: seq<u8>, n: nat)
    requires n <= |a| && n <= |b| && forall k :: 0 <= k < n ==> a[k] == b[k]
    ensures ByteValue(a, n) == ByteValue(b, n)
  {
    if n == 0 {
    } else {
      SameByteValue(a, b, n - 1);
    }
  }

  /** The packed response structure. */
  function Response(status: nat, flags: nat, rootHash: seq<u8>): (r: seq<u8>)
    requires |rootHash| == 32
    ensures |r| == RESPONSE_SIZE
  {
    LittleEndian(SOVA_MAGIC, 4) + LittleEndian(status, 2) + LittleEndian(flags, 2) + rootHash
  }

  function StatusOf(r: seq<u8>): int
    requires |r| == RESPONSE_SIZE
  {
    ByteValue(r[4..6], 2)
  }

  function FlagsOf(r: seq<u8>): int
    requires |r| == RESPONSE_SIZE
  {
    ByteValue(r[6..8], 2)
  }

  /** A client reading the structure back finds what the server put in. */
  lemma ResponseDecodes(status: nat, flags: nat, rootHash: seq<u8>)
    requires status < 0x1_0000 && flags < 0x1_0000 && |rootHash| == 32
    ensures var r := Response(status, flags, rootHash);
            ByteValue(r[0..4], 4) == SOVA_MAGIC && StatusOf(r) == status && FlagsOf(r) == flags && r[8..40] == rootHash
  {
    hide LittleEndian;
    LittleEndianValue(SOVA_MAGIC, 4);
    LittleEndianValue(status, 2);
    LittleEndianValue(flags, 2);
    FourParts(LittleEndian(SOVA_MAGIC, 4), LittleEndian(status, 2), LittleEndian(flags, 2), rootHash);
    assert ByteWeight(2) == 0x1_0000 && ByteWeight(4) == 0x1_0000_0000;
  }

  /** The 40 bytes on the line. */
  lemma ResponseBytes(status: nat, flags: nat, rootHash: seq<u8>)
    requires status < 0x1_0000 && flags < 0x1_0000 && |rootHash| == 32
    ensures Response(status, flags, rootHash) ==
              [0x41, 0x56, 0x4F, 0x53, (status % 0x100) as u8, (status / 0x100) as u8,
               (flags % 0x100) as u8, (flags / 0x100) as u8] + rootHash
  {
    TwoBytes(status);
    TwoBytes(flags);
    MagicBytes();
    hide LittleEndian;
  }

  lemma TwoBytes(v: nat)
    requires v < 0x1_0000
    ensures LittleEndian(v, 2) == [(v % 0x100) as u8, (v / 0x100) as u8]
  {
    assert ByteWeight(0) == 1 && ByteWeight(1) == 0x100;
    assert LittleEndian(v, 1) == [] + [(v % 0x100) as u8];
  }

  lemma MagicBytes()
    ensures LittleEndian(SOVA_MAGIC, 4) == [0x41, 0x56, 0x4F, 0x53]
  {
    var v := SOVA_MAGIC;
    assert ByteWeight(0) == 1 && ByteWeight(1) == 0x100 && ByteWeight(2) == 0x1_0000 && ByteWeight(3) == 0x100_0000;
    assert LittleEndian(v, 2) == [0x41, 0x56];
  }

  lemma FourParts(a: seq<u8>, b: seq<u8>, c: seq<u8>, d: seq<u8>)
    requires |a| == 4 && |b| == |c| == 2 && |d| == 32
    ensures var r := a + b + c + d; r[0..4] == a && r[4..6] == b && r[6..8] == c && r[8..40] == d
  {}
}
