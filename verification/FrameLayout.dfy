/**
 The packed request frame from the outside: a frame put together field by field, and what every accessor
 and the evaluation then find. Offsets do not occur here, only the order and the sizes of the fields.
 */
module FrameLayout {
  import opened MachineInts
  import opened NumberTheory
  import opened FieldBytes
  import opened Decompression
  import opened Frames
  import opened Quorum
  import opened Ingest
  import Sha256

  /** A witness as the client sends it. */
  datatype Witness = Witness(key: seq<u8>, signature: seq<u8>)

  /** A node: everything before the title type, and the title type. */
  datatype NodeRecord = NodeRecord(details: seq<u8>, title: seq<u8>)

  datatype Request = Request(
    magic: seq<u8>, version: seq<u8>, role: seq<u8>, sequenceId: seq<u8>,
    veteran: u8, duty: u8, defense: u8, administered: u8, nodeCount: seq<u8>,
    claimant: seq<u8>, dockets: seq<u8>, nodes: seq<NodeRecord>, rootHash: seq<u8>,
    bitmap: u8, quorumCount: u8, pad: seq<u8>, witnesses: seq<Witness>)

  predicate Sized(r: Request) {
    && |r.magic| == 4 && |r.version| == |r.role| == 2 && |r.sequenceId| == 8 && |r.nodeCount| == 4
    && |r.claimant| == 64 && |r.dockets| == 128 && |r.rootHash| == 32 && |r.pad| == 6
    && |r.nodes| == 8 && (forall n :: 0 <= n < 8 ==> |r.nodes[n].details| == 60 && |r.nodes[n].title| == 4)
    && |r.witnesses| == 4 && (forall i :: 0 <= i < 4 ==> |r.witnesses[i].key| == 32 && |r.witnesses[i].signature| == 64)
  }

  function NodesPacked(nodes: seq<NodeRecord>): (b: seq<u8>)
    requires forall n :: 0 <= n < |nodes| ==> |nodes[n].details| == 60 && |nodes[n].title| == 4
    ensures |b| == 64 * |nodes|
  {
    if nodes == [] then [] else
      var init, last := nodes[..|nodes| - 1], nodes[|nodes| - 1];
      NodesPacked(init) + last.details + last.title
  }

  function WitnessesPacked(ws: seq<Witness>): (b: seq<u8>)
    requires forall i :: 0 <= i < |ws| ==> |ws[i].key| == 32 && |ws[i].signature| == 64
    ensures |b| == 96 * |ws|
  {
    if ws == [] then [] else
      var init, last := ws[..|ws| - 1], ws[|ws| - 1];
      WitnessesPacked(init) + last.key + last.signature
  }

  /** The 24 bytes before the claimant. */
  function Header(r: Request): (b: seq<u8>)
    requires Sized(r)
    ensures |b| == 24
  {
    r.magic + r.version + r.role + r.sequenceId + [r.veteran, r.duty, r.defense, r.administered] + r.nodeCount
  }

  /** The evidence: claimant, dockets and all eight nodes. */
  function Evidence(r: Request): (b: seq<u8>)
    requires Sized(r)
    ensures |b| == 704
  {
    r.claimant + r.dockets + NodesPacked(r.nodes)
  }

  /** What follows the stored hash. */
  function Signing(r: Request): (b: seq<u8>)
    requires Sized(r)
    ensures |b| == 392
  {
    [r.bitmap, r.quorumCount] + r.pad + WitnessesPacked(r.witnesses)
  }

  function Packed(r: Request): Frame
    requires Sized(r)
  {
    Header(r) + Evidence(r) + r.rootHash + Signing(r)
  }

  lemma Parts(h: seq<u8>, e: seq<u8>, hash: seq<u8>, s: seq<u8>)
    requires |h| == 24 && |e| == 704 && |hash| == 32 && |s| == 392
    ensures var f := h + e + hash + s;
            |f| == 1152 && f[..24] == h && f[24..728] == e && f[728..760] == hash && f[760..] == s
  {}

  lemma {:induction false} NodesPackedAt(nodes: seq<NodeRecord>, n: nat)
    requires n < |nodes| && forall k :: 0 <= k < |nodes| ==> |nodes[k].details| == 60 && |nodes[k].title| == 4
    ensures NodesPacked(nodes)[64 * n..64 * n + 60] == nodes[n].details
    ensures NodesPacked(nodes)[64 * n + 60..64 * n + 64] == nodes[n].title
    ensures NodesPacked(nodes)[..64 * n] == NodesPacked(nodes[..n])
  {
    var init := nodes[..|nodes| - 1];
    if n == |nodes| - 1 {
    } else {
      NodesPackedAt(init, n);
      assert init[..n] == nodes[..n];
      var b := NodesPacked(nodes);
      SliceOfPrefix(b, NodesPacked(init), 64 * n, 64 * n + 60);
      SliceOfPrefix(b, NodesPacked(init), 64 * n + 60, 64 * n + 64);
      SliceOfPrefix(b, NodesPacked(init), 0, 64 * n);
    }
  }

  lemma SliceOfPrefix(b: seq<u8>, init: seq<u8>, c: nat, d: nat)
    requires c <= d <= |init| <= |b| && b[..|init|] == init
    ensures b[c..d] == init[c..d]
  {
    assert b[..|init|][c..d] == b[c..d];
  }

  lemma {:induction false} WitnessesPackedAt(ws: seq<Witness>, i: nat)
    requires i < |ws| && forall k :: 0 <= k < |ws| ==> |ws[k].key| == 32 && |ws[k].signature| == 64
    ensures WitnessesPacked(ws)[96 * i..96 * i + 32] == ws[i].key
    ensures WitnessesPacked(ws)[96 * i + 32..96 * i + 96] == ws[i].signature
  {
    var init := ws[..|ws| - 1];
    if i == |ws| - 1 {
    } else {
      WitnessesPackedAt(init, i);
      SliceOfPrefix(WitnessesPacked(ws), WitnessesPacked(init), 96 * i, 96 * i + 32);
      SliceOfPrefix(WitnessesPacked(ws), WitnessesPacked(init), 96 * i + 32, 96 * i + 96);
    }
  }

  /** A stretch of a stretch. */
  lemma SliceAt(f: seq<u8>, at: nat, part: seq<u8>, c: nat, d: nat)
    requires at + |part| <= |f| && f[at..at + |part|] == part && c <= d <= |part|
    ensures f[at + c..at + d] == part[c..d]
  {
    forall k | c <= k < d
      ensures f[at + k] == part[k]
    {
      assert f[at..at + |part|][k] == f[at + k];
    }
    assert f[at + c..at + d] == part[c..d];
  }

  /** Header and signer fields are read back. */
  lemma HeaderRead(r: Request)
    requires Sized(r)
    ensures var f := Packed(r);
            && Magic(f) == ByteValue(r.magic, 4) && SequenceId(f) == ByteValue(r.sequenceId, 8)
            && NodeCount(f) == ByteValue(r.nodeCount, 4)
            && Bitmap(f) == r.bitmap as int && QuorumCount(f) == r.quorumCount as int
            && f[DOCKETS_AT] == r.dockets[0]
  {
    hide NodesPacked, WitnessesPacked, ByteValue;
    var f := Packed(r);
    Parts(Header(r), Evidence(r), r.rootHash, Signing(r));
    SliceAt(f, 0, Header(r), 0, 4);
    SliceAt(f, 0, Header(r), 8, 16);
    SliceAt(f, 0, Header(r), 20, 24);
    assert Header(r)[0..4] == r.magic && Header(r)[8..16] == r.sequenceId && Header(r)[20..24] == r.nodeCount;
    assert f[760..][0] == f[760] && f[760..][1] == f[761];
    assert f[24..728][64] == f[88];
  }

  /** Nodes, title types and witnesses are read back, each from its place. */
  lemma RecordsRead(r: Request)
    requires Sized(r)
    ensures forall n: nat :: n < 8 ==> Node(Packed(r), n) == r.nodes[n].details + r.nodes[n].title
    ensures forall n: nat :: n < 8 ==> TitleType(Packed(r), n) == ByteValue(r.nodes[n].title, 4)
    ensures forall i: nat :: i < 4 ==> WitnessKey(Packed(r), i) == r.witnesses[i].key
    ensures forall i: nat :: i < 4 ==> WitnessSignature(Packed(r), i) == r.witnesses[i].signature
  {
    hide ByteValue;
    var f := Packed(r);
    Parts(Header(r), Evidence(r), r.rootHash, Signing(r));
    forall n: nat | n < 8
      ensures Node(f, n) == r.nodes[n].details + r.nodes[n].title
      ensures TitleType(f, n) == ByteValue(r.nodes[n].title, 4)
    {
      NodeRead(f, r, n);
    }
    forall i: nat | i < 4
      ensures WitnessKey(f, i) == r.witnesses[i].key && WitnessSignature(f, i) == r.witnesses[i].signature
    {
      WitnessRead(f, r, i);
    }
  }

  lemma NodeRead(f: Frame, r: Request, n: nat)
    requires Sized(r) && n < 8 && f[24..728] == Evidence(r)
    ensures Node(f, n) == r.nodes[n].details + r.nodes[n].title
    ensures Node(f, n)[60..64] == r.nodes[n].title
  {
    hide NodesPacked;
    var ns := NodesPacked(r.nodes);
    NodesPackedAt(r.nodes, n);
    assert Evidence(r)[192..704] == ns;
    SliceAt(f, 24, Evidence(r), 192, 704);
    SliceAt(f, 216, ns, 64 * n, 64 * n + 64);
    assert ns[64 * n..64 * n + 64] == ns[64 * n..64 * n + 60] + ns[64 * n + 60..64 * n + 64];
  }

  lemma WitnessRead(f: Frame, r: Request, i: nat)
    requires Sized(r) && i < 4 && f[760..] == Signing(r)
    ensures WitnessKey(f, i) == r.witnesses[i].key && WitnessSignature(f, i) == r.witnesses[i].signature
  {
    hide WitnessesPacked;
    var ws := WitnessesPacked(r.witnesses);
    WitnessesPackedAt(r.witnesses, i);
    assert Signing(r)[8..392] == ws;
    assert f[760..1152] == f[760..];
    SliceAt(f, 760, Signing(r), 8, 392);
    SliceAt(f, 768, ws, 96 * i, 96 * i + 32);
    SliceAt(f, 768, ws, 96 * i + 32, 96 * i + 96);
  }

  /** The quorum as a client meets it: which requests the committee check passes, in terms of the fields
      that are sent. The witnesses stand in the order of the bits that are set. */
  lemma AcceptedRequest(d: int, keys: seq<seq<u8>>, r: Request)
    requires Sized(r) && Committee(keys)
    ensures Verdict(d, keys, Packed(r)) == 0 <==>
              && (r.quorumCount == 3 || r.quorumCount == 4)
              && PopCount(r.bitmap as nat) == r.quorumCount as nat
              && forall b: nat :: b < 4 && BitSet(r.bitmap as int, b) ==>
                   var w := r.witnesses[Rank(r.bitmap as int, b)];
                   w.key == keys[b] && w.signature[63] < 0x20 && Decompresses(d, Encoded(keys[b]))
  {
    hide Packed, PopCount;
    var f := Packed(r);
    HeaderRead(r);
    RecordsRead(r);
    Accepted(d, keys, f);
    forall b: nat | b < 4
      ensures MemberBacked(d, keys, f, b) <==>
                (BitSet(r.bitmap as int, b) ==>
                   var w := r.witnesses[Rank(r.bitmap as int, b)];
                   w.key == keys[b] && w.signature[63] < 0x20 && Decompresses(d, Encoded(keys[b])))
    {}
  }

  /** The first three members, each with the witness of its own number. */
  lemma TriadAccepted(d: int, keys: seq<seq<u8>>, r: Request)
    requires Sized(r) && Committee(keys) && r.bitmap == 0x07 && r.quorumCount == 3
    requires forall b :: 0 <= b < 3 ==>
               r.witnesses[b].key == keys[b] && r.witnesses[b].signature[63] < 0x20 && Decompresses(d, Encoded(keys[b]))
    ensures Verdict(d, keys, Packed(r)) == 0
  {
    FirstBits();
    hide BitSet, Rank, PopCount, Verdict;
    AcceptedRequest(d, keys, r);
  }

  /** The last three members, whose witnesses still start at number 0. */
  lemma LastTriadAccepted(d: int, keys: seq<seq<u8>>, r: Request)
    requires Sized(r) && Committee(keys) && r.bitmap == 0x0E && r.quorumCount == 3
    requires forall b :: 0 <= b < 3 ==>
               && r.witnesses[b].key == keys[b + 1] && r.witnesses[b].signature[63] < 0x20
               && Decompresses(d, Encoded(keys[b + 1]))
    ensures Verdict(d, keys, Packed(r)) == 0
  {
    LastBits();
    hide BitSet, Rank, PopCount, Verdict;
    AcceptedRequest(d, keys, r);
  }

  lemma FirstBits()
    ensures PopCount(7) == 3 && !BitSet(7, 3) && forall b: nat :: b < 3 ==> Rank(7, b) == b
  {
    assert Pow(2, 0) == 1 && Pow(2, 1) == 2 && Pow(2, 2) == 4 && Pow(2, 3) == 8;
    assert Rank(7, 0) == 0 && Rank(7, 1) == 1 && Rank(7, 2) == 2;
  }

  lemma LastBits()
    ensures PopCount(14) == 3 && !BitSet(14, 0) && forall b: nat :: 1 <= b < 4 ==> Rank(14, b) == b - 1
  {
    assert Pow(2, 0) == 1 && Pow(2, 1) == 2 && Pow(2, 2) == 4 && Pow(2, 3) == 8;
    assert Rank(14, 1) == 0 && Rank(14, 2) == 1 && Rank(14, 3) == 2;
    assert PopCount(7) == 3;
  }

  /** What is hashed: claimant, dockets and the counted nodes, as the client sent them. */
  lemma HashedBytes(r: Request)
    requires Sized(r) && ByteValue(r.nodeCount, 4) <= 8
    ensures var f := Packed(r); var count := ByteValue(r.nodeCount, 4);
            && 0 <= count && NodeCount(f) == count
            && Preimage(f) == r.claimant + r.dockets + NodesPacked(r.nodes[..count])
            && RootHash(f) == Sha256.Digest(r.claimant + r.dockets + NodesPacked(r.nodes[..count]))
  {
    hide NodesPacked, WitnessesPacked, Sha256.Digest;
    var f, count := Packed(r), ByteValue(r.nodeCount, 4);
    HeaderRead(r);
    ByteValueRange(r.nodeCount, 4);
    hide ByteValue;
    Parts(Header(r), Evidence(r), r.rootHash, Signing(r));
    SliceAt(f, 24, Evidence(r), 0, 192 + 64 * count);
    CountedNodes(r.nodes, count);
    assert Evidence(r)[0..192 + 64 * count] == r.claimant + r.dockets + NodesPacked(r.nodes)[..64 * count];
  }

  lemma CountedNodes(nodes: seq<NodeRecord>, n: nat)
    requires n <= |nodes| && forall k :: 0 <= k < |nodes| ==> |nodes[k].details| == 60 && |nodes[k].title| == 4
    ensures NodesPacked(nodes)[..64 * n] == NodesPacked(nodes[..n])
  {
    if n < |nodes| {
      NodesPackedAt(nodes, n);
    } else {
      assert nodes[..n] == nodes && NodesPacked(nodes)[..64 * n] == NodesPacked(nodes);
    }
  }

  /** Evaluation rewrites four fields, the three verdict bytes and the hash, and keeps all others. */
  lemma EvaluatedRequest(r: Request)
    requires Sized(r) && ByteValue(r.nodeCount, 4) <= 8
    ensures NodeCount(Packed(r)) == ByteValue(r.nodeCount, 4) >= 0
    ensures var v := VerdictBytes(Packed(r));
            var e := r.(duty := v[0], defense := v[1], administered := v[2], rootHash := RootHash(Packed(r)));
            Sized(e) && Evaluated(Packed(r)) == Packed(e)
  {
    hide NodesPacked, WitnessesPacked, RootHash, VerdictBytes;
    HeaderRead(r);
    ByteValueRange(r.nodeCount, 4);
    hide ByteValue;
    var f := Packed(r);
    var v, hash := VerdictBytes(f), RootHash(f);
    var e := r.(duty := v[0], defense := v[1], administered := v[2], rootHash := hash);
    Parts(Header(r), Evidence(r), r.rootHash, Signing(r));
    assert Evidence(e) == Evidence(r) && Signing(e) == Signing(r);
    assert Header(e) == Header(r)[..17] + v + Header(r)[20..];
    assert f[..17] == Header(r)[..17] && f[20..728] == Header(r)[20..] + Evidence(r);
  }

  /** The frames are exactly the packed requests. */
  lemma EveryFramePacked(f: Frame) returns (r: Request)
    ensures Sized(r) && Packed(r) == f
  {
    var nodes := seq(8, n requires 0 <= n < 8 =>
      NodeRecord(f[216 + 64 * n..276 + 64 * n], f[276 + 64 * n..280 + 64 * n]));
    var witnesses := seq(4, i requires 0 <= i < 4 =>
      Witness(f[768 + 96 * i..800 + 96 * i], f[800 + 96 * i..864 + 96 * i]));
    r := Request(f[0..4], f[4..6], f[6..8], f[8..16], f[16], f[17], f[18], f[19], f[20..24],
                 f[24..88], f[88..216], nodes, f[728..760], f[760], f[761], f[762..768], witnesses);
    hide NodesPacked, WitnessesPacked;
    NodesOfFrame(f, nodes, 8);
    WitnessesOfFrame(f, witnesses, 4);
    assert nodes[..8] == nodes && witnesses[..4] == witnesses;
    Pieces(f);
  }

  lemma Pieces(f: Frame)
    ensures f[0..24] == f[0..4] + f[4..6] + f[6..8] + f[8..16] + [f[16], f[17], f[18], f[19]] + f[20..24]
    ensures f[24..728] == f[24..88] + f[88..216] + f[216..728]
    ensures f[760..] == [f[760], f[761]] + f[762..768] + f[768..1152]
    ensures f == f[0..24] + f[24..728] + f[728..760] + f[760..]
  {}

  lemma {:induction false} NodesOfFrame(f: Frame, nodes: seq<NodeRecord>, k: nat)
    requires |nodes| == 8 && k <= 8
    requires forall n :: 0 <= n < 8 ==>
               nodes[n] == NodeRecord(f[216 + 64 * n..276 + 64 * n], f[276 + 64 * n..280 + 64 * n])
    ensures NodesPacked(nodes[..k]) == f[216..216 + 64 * k]
  {
    if k == 0 {
    } else {
      NodesOfFrame(f, nodes, k - 1);
      assert nodes[..k][..k - 1] == nodes[..k - 1];
      var at := 216 + 64 * (k - 1);
      assert f[216..at + 64] == f[216..at] + f[at..at + 60] + f[at + 60..at + 64];
    }
  }

  lemma {:induction false} WitnessesOfFrame(f: Frame, ws: seq<Witness>, k: nat)
    requires |ws| == 4 && k <= 4
    requires forall i :: 0 <= i < 4 ==> ws[i] == Witness(f[768 + 96 * i..800 + 96 * i], f[800 + 96 * i..864 + 96 * i])
    ensures WitnessesPacked(ws[..k]) == f[768..768 + 96 * k]
  {
    if k == 0 {
    } else {
      WitnessesOfFrame(f, ws, k - 1);
      assert ws[..k][..k - 1] == ws[..k - 1];
      var at := 768 + 96 * (k - 1);
      assert f[768..at + 96] == f[768..at] + f[at..at + 32] + f[at + 32..at + 96];
    }
  }
}
