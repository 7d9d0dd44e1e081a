/** What an accepted response tells its reader about the frame it answers. */
module Certificates {
  import opened MachineInts
  import opened NumberTheory
  import opened FieldBytes
  import opened MerkleDamgard
  import opened Frames
  import opened Quorum
  import opened Ingest
  import Inference
  import Sha256
  import Sha256Context

  /** An answer of success means all of this about the frame, and nothing less brings it. */
  lemma AcceptanceMeans(c: Tables, last: nat, f: Frame)
    requires Wellformed(c)
    ensures StatusOf(Answer(c, last, f)) == STATUS_SUCCESS <==>
              && Magic(f) == SOVR_MAGIC && SequenceId(f) > last && NodeCount(f) <= MAX_NODES
              && (QuorumCount(f) == 3 || QuorumCount(f) == 4)
              && PopCount(f[BITMAP_AT] as nat) == QuorumCount(f)
              && forall b :: 0 <= b < 4 ==> MemberBacked(c.d, c.keys, f, b)
  {
    AnswerDecodes(c, last, f);
    Accepted(c.d, c.keys, f);
  }

  /** Which code a frame gets, in the order of the tests: magic, id, node count, committee. */
  lemma StatusCodes(c: Tables, last: nat, f: Frame)
    requires Wellformed(c)
    ensures var status := StatusOf(Answer(c, last, f));
            && (status == 0xE001 <==> f[..4] != [0x52, 0x56, 0x4F, 0x53])
            && (status == 0xE002 <==> f[..4] == [0x52, 0x56, 0x4F, 0x53] && SequenceId(f) <= last)
            && (status == 0xE003 <==>
                  f[..4] == [0x52, 0x56, 0x4F, 0x53] && SequenceId(f) > last && NodeCount(f) > 8)
            && (status == 0xE004 <==>
                  f[..4] == [0x52, 0x56, 0x4F, 0x53] && SequenceId(f) > last && NodeCount(f) <= 8
                  && Verdict(c.d, c.keys, f) != 0)
            && (status == 0x0000 <==>
                  f[..4] == [0x52, 0x56, 0x4F, 0x53] && SequenceId(f) > last && NodeCount(f) <= 8
                  && Verdict(c.d, c.keys, f) == 0)
  {
    AnswerDecodes(c, last, f);
    MagicInBytes(f);
  }

  lemma MagicInBytes(f: Frame)
    ensures Magic(f) == SOVR_MAGIC <==> f[..4] == [0x52, 0x56, 0x4F, 0x53]
  {
    var m, want: seq<u8> := f[0..4], [0x52, 0x56, 0x4F, 0x53];
    FourByteNumber(m);
    FourByteNumber(want);
    if ByteValue(m, 4) == ByteValue(want, 4) { ByteValueInjective(m, want, 4); }
    assert m[..4] == m == f[..4] && want[..4] == want;
  }

  /** Bitmap, quorum count and witnesses are those of the other frame. */
  predicate SameWitnesses(f: Frame, g: Frame) {
    f[BITMAP_AT..BITMAP_AT + 2] == g[BITMAP_AT..BITMAP_AT + 2] && f[WITNESSES_AT..] == g[WITNESSES_AT..]
  }

  /** The status is a matter of magic, sequence id, node count and witnesses. It reads nothing else:
      not version, role, verdict, claimant, dockets, nodes or stored hash. */
  lemma StatusReads(c: Tables, last: nat, f: Frame, g: Frame)
    requires Wellformed(c) && SameWitnesses(f, g)
    requires Magic(f) == Magic(g) && SequenceId(f) == SequenceId(g) && NodeCount(f) == NodeCount(g)
    ensures StatusOf(Answer(c, last, f)) == StatusOf(Answer(c, last, g))
  {
    VerdictReads(c.d, c.keys, f, g);
    AnswerDecodes(c, last, f);
    AnswerDecodes(c, last, g);
  }

  /** Witnesses accepted once pass again: under them a frame of the right magic is accepted exactly
      when its id is new and its node count in bounds, whatever it says. */
  lemma WitnessesPassAgain(c: Tables, last: nat, f: Frame, later: nat, g: Frame)
    requires Wellformed(c) && Accepts(c, last, f) && SameWitnesses(f, g) && Magic(g) == SOVR_MAGIC
    ensures StatusOf(Answer(c, later, g)) == STATUS_SUCCESS <==> SequenceId(g) > later && NodeCount(g) <= MAX_NODES
  {
    VerdictReads(c.d, c.keys, f, g);
    AnswerDecodes(c, later, g);
  }

  /** Success does not imply a signer: with bits 4 to 6 and a count of 3, a fresh frame in bounds is
      answered with success and no member stands behind it. */
  lemma SuccessWithoutMember(c: Tables, last: nat, z: Frame)
    requires Wellformed(c) && Magic(z) == SOVR_MAGIC && SequenceId(z) > last && NodeCount(z) <= MAX_NODES
    ensures var f := z[BITMAP_AT := 0x70][BITMAP_AT + 1 := 3];
            StatusOf(Answer(c, last, f)) == STATUS_SUCCESS && Signers(c.d, c.keys, f) == {}
  {
    var f: Frame := z[BITMAP_AT := 0x70][BITMAP_AT + 1 := 3];
    assert f[0..4] == z[0..4] && f[8..16] == z[8..16] && f[0x14..0x18] == z[0x14..0x18];
    NoMemberNamed(c.d, c.keys, z);
    AnswerDecodes(c, last, f);
  }

  /** A frame with the given magic and sequence id and no nodes, zero elsewhere. */
  function EmptyFrame(magic: seq<u8>, id: seq<u8>): Frame
    requires |magic| == 4 && |id| == 8
  {
    magic + seq(4, _ => 0 as u8) + id + seq(1136, _ => 0 as u8)
  }

  /** There is such a frame for every server that can still accept one. */
  lemma EmptyFrameWithoutMember(c: Tables, last: nat)
    requires Wellformed(c) && last + 1 < TWO_TO_THE_64
    ensures var z := EmptyFrame(LittleEndian(SOVR_MAGIC, 4), LittleEndian(last + 1, 8));
            var f := z[BITMAP_AT := 0x70][BITMAP_AT + 1 := 3];
            StatusOf(Answer(c, last, f)) == STATUS_SUCCESS && Signers(c.d, c.keys, f) == {}
  {
    hide LittleEndian, EmptyFrame;
    EmptyFrameFields(last + 1);
    SuccessWithoutMember(c, last, EmptyFrame(LittleEndian(SOVR_MAGIC, 4), LittleEndian(last + 1, 8)));
  }

  lemma EmptyFrameFields(id: nat)
    requires id < TWO_TO_THE_64
    ensures var z := EmptyFrame(LittleEndian(SOVR_MAGIC, 4), LittleEndian(id, 8));
            Magic(z) == SOVR_MAGIC && SequenceId(z) == id && NodeCount(z) == 0
  {
    hide LittleEndian;
    var z := EmptyFrame(LittleEndian(SOVR_MAGIC, 4), LittleEndian(id, 8));
    LittleEndianValue(SOVR_MAGIC, 4);
    LittleEndianValue(id, 8);
    ZeroBytes(z[0x14..0x18], 4);
    assert z[0..4] == LittleEndian(SOVR_MAGIC, 4);
    assert z[8..16] == LittleEndian(id, 8);
    assert ByteWeight(4) == 0x1_0000_0000 && ByteWeight(8) == TWO_TO_THE_64;
  }

  /** The first n nodes one after the other. */
  function NodeBytes(f: Frame, n: nat): seq<u8>
    requires n <= MAX_NODES
  {
    if n == 0 then [] else NodeBytes(f, n - 1) + Node(f, n - 1)
  }

  /** What is hashed is claimant, dockets and the counted nodes, in this order. */
  lemma PreimageParts(f: Frame)
    requires 0 <= NodeCount(f) <= MAX_NODES
    ensures Preimage(f) == f[CLAIMANT_AT..DOCKETS_AT] + f[DOCKETS_AT..NODES_AT] + NodeBytes(f, NodeCount(f))
  {
    NodesAdjacent(f, NodeCount(f));
  }

  lemma {:induction false} NodesAdjacent(f: Frame, n: nat)
    requires n <= MAX_NODES
    ensures NodeBytes(f, n) == f[NODES_AT..NODES_AT + NODE_SIZE * n]
  {
    if n == 0 {
    } else {
      NodesAdjacent(f, n - 1);
      var end := NODES_AT + NODE_SIZE * (n - 1);
      assert f[NODES_AT..end + NODE_SIZE] == f[NODES_AT..end] + f[end..end + NODE_SIZE];
    }
  }

  /** Neither the hash nor the verdict depends on the fields that evaluation writes. */
  lemma EvaluationIdempotent(f: Frame)
    requires 0 <= NodeCount(f) <= MAX_NODES
    ensures NodeCount(Evaluated(f)) == NodeCount(f)
    ensures RootHash(Evaluated(f)) == RootHash(f) && VerdictBytes(Evaluated(f)) == VerdictBytes(f)
    ensures Evaluated(Evaluated(f)) == Evaluated(f)
  {
    hide RootHash, Evaluated;
    var g := Evaluated(f);
    EvaluatedFields(f);
    PreimageParts(f);
    PreimageParts(g);
    NodesAgree(f, g, NodeCount(f));
    UntouchedBytes(f);
    assert g[CLAIMANT_AT..DOCKETS_AT] == f[CLAIMANT_AT..DOCKETS_AT];
    assert g[DOCKETS_AT..NODES_AT] == f[DOCKETS_AT..NODES_AT];
    SameEvaluation(f, g);
  }

  lemma {:induction false} NodesAgree(f: Frame, g: Frame, n: nat)
    requires n <= MAX_NODES && forall i: nat :: i < MAX_NODES ==> Node(g, i) == Node(f, i)
    ensures NodeBytes(g, n) == NodeBytes(f, n)
  {
    if n == 0 {
    } else {
      NodesAgree(f, g, n - 1);
    }
  }

  lemma SameEvaluation(f: Frame, g: Frame)
    requires 0 <= NodeCount(f) <= MAX_NODES && g == Evaluated(f)
    requires NodeCount(g) == NodeCount(f) && Preimage(g) == Preimage(f)
    requires f[DOCKETS_AT..NODES_AT] == g[DOCKETS_AT..NODES_AT]
    requires forall i: nat :: i < MAX_NODES ==> Node(g, i) == Node(f, i)
    ensures RootHash(g) == RootHash(f) && VerdictBytes(g) == VerdictBytes(f) && Evaluated(g) == g
  {
    hide Sha256.Digest, Evaluated, Preimage;
    assert forall i: nat :: i < MAX_NODES ==> TitleType(g, i) == TitleType(f, i);
    assert g[DOCKETS_AT] == g[DOCKETS_AT..NODES_AT][0] && f[DOCKETS_AT] == f[DOCKETS_AT..NODES_AT][0];
    assert VerdictBytes(g) == VerdictBytes(f);
    SameFrame(g, Evaluated(g)) by { EvaluatedFields(f); EvaluatedFields(g); UntouchedBytes(g); }
  }

  lemma UntouchedBytes(f: Frame)
    requires 0 <= NodeCount(f) <= MAX_NODES
    ensures forall k :: 0 <= k < FRAME_SIZE && !(DUTY_AT <= k < DUTY_AT + 3) && !(HASH_AT <= k < HASH_AT + 32)
              ==> Evaluated(f)[k] == f[k]
  {
    hide Evaluated;
    forall k | 0 <= k < FRAME_SIZE && !(DUTY_AT <= k < DUTY_AT + 3) && !(HASH_AT <= k < HASH_AT + 32)
      ensures Evaluated(f)[k] == f[k]
    {
      EvaluationElsewhere(f, k);
    }
  }

  lemma SameFrame(g: Frame, h: Frame)
    requires g[DUTY_AT..DUTY_AT + 3] == h[DUTY_AT..DUTY_AT + 3] && g[HASH_AT..HASH_AT + 32] == h[HASH_AT..HASH_AT + 32]
    requires forall k :: 0 <= k < FRAME_SIZE && !(DUTY_AT <= k < DUTY_AT + 3) && !(HASH_AT <= k < HASH_AT + 32)
               ==> h[k] == g[k]
    ensures h == g
  {
    forall k | 0 <= k < FRAME_SIZE
      ensures h[k] == g[k]
    {
      if DUTY_AT <= k < DUTY_AT + 3 {
        assert g[DUTY_AT..DUTY_AT + 3][k - DUTY_AT] == h[DUTY_AT..DUTY_AT + 3][k - DUTY_AT];
      } else if HASH_AT <= k < HASH_AT + 32 {
        assert g[HASH_AT..HASH_AT + 32][k - HASH_AT] == h[HASH_AT..HASH_AT + 32][k - HASH_AT];
      }
    }
  }

  /** The root hash costs NodeCount + 4 compressions. */
  lemma RootHashBlocks(f: Frame)
    requires 0 <= NodeCount(f) <= MAX_NODES
    ensures |Pad(Preimage(f), Sha256.BLOCK, Sha256.LENGTH_FIELD)| == Sha256.BLOCK * (NodeCount(f) + 4)
  {
    var len := |Preimage(f)|;
    var z := ZeroCount(len, Sha256.BLOCK, Sha256.LENGTH_FIELD);
    DivModUnique(len + 1 + z + 8, NodeCount(f) + 3 + if z < 55 then 0 else 1, if z < 55 then z + 9 else z - 55, 64);
  }

  /** The hashed bytes determine the claimant, the dockets, the node count and the counted nodes. */
  lemma PreimageDetermines(f: Frame, g: Frame)
    requires 0 <= NodeCount(f) <= MAX_NODES && 0 <= NodeCount(g) <= MAX_NODES && Preimage(f) == Preimage(g)
    ensures SameEvidence(f, g)
  {
    assert |Preimage(f)| == |Preimage(g)|;
    var end := NODES_AT + NODE_SIZE * NodeCount(f);
    SlicesOfSlice(f, g, CLAIMANT_AT, end, CLAIMANT_AT, DOCKETS_AT);
    SlicesOfSlice(f, g, CLAIMANT_AT, end, DOCKETS_AT, NODES_AT);
    forall n: nat | n < NodeCount(f)
      ensures Node(f, n) == Node(g, n)
    {
      SlicesOfSlice(f, g, CLAIMANT_AT, end, NODES_AT + NODE_SIZE * n, NODES_AT + NODE_SIZE * (n + 1));
    }
  }

  predicate SameEvidence(f: Frame, g: Frame)
    requires NodeCount(f) <= MAX_NODES && NodeCount(g) <= MAX_NODES
  {
    && NodeCount(f) == NodeCount(g)
    && f[CLAIMANT_AT..DOCKETS_AT] == g[CLAIMANT_AT..DOCKETS_AT]
    && f[DOCKETS_AT..NODES_AT] == g[DOCKETS_AT..NODES_AT]
    && forall n: nat :: n < NodeCount(f) ==> Node(f, n) == Node(g, n)
  }

  /** Step i of hashing m with SHA-256. */
  ghost predicate OnHashChain(m: seq<u8>, i: nat, s: seq<bv32>, block: seq<u8>) {
    OnChain(Sha256.Compression(), Sha256.BLOCK, Sha256.IV, Pad(m, Sha256.BLOCK, Sha256.LENGTH_FIELD), i, s, block)
  }

  /** Equal root hashes certify equal evidence, or else the two hash computations run into a
      collision of the compression function. */
  lemma RootHashBinding(f: Frame, g: Frame)
    returns (i: nat, j: nat, s: seq<bv32>, a: seq<u8>, t: seq<bv32>, b: seq<u8>)
    requires 0 <= NodeCount(f) <= MAX_NODES && 0 <= NodeCount(g) <= MAX_NODES && RootHash(f) == RootHash(g)
    ensures SameEvidence(f, g)
         || (&& OnHashChain(Preimage(f), i, s, a)
             && OnHashChain(Preimage(g), j, t, b)
             && (s, a) != (t, b) && Sha256.Compress(s, a) == Sha256.Compress(t, b))
  {
    hide Sha256.Compress;
    if Preimage(f) == Preimage(g) {
      PreimageDetermines(f, g);
      i, j, s, a, t, b := 0, 0, [], [], [], [];
    } else {
      i, j, s, a, t, b := Sha256Context.DigestBinding(Preimage(f), Preimage(g));
    }
  }

  /** The flags of an accepted response, bit by bit. */
  lemma AcceptedFlags(c: Tables, last: nat, f: Frame)
    requires Wellformed(c) && Accepts(c, last, f)
    ensures var flags := FlagsOf(Answer(c, last, f));
            var title := exists n: nat :: n < 8 && n < NodeCount(f) && f[276 + 64 * n..280 + 64 * n] == [1, 0, 0, 0];
            var duty := f[0x58] != 0 && title;
            && (flags % 2 == 1 <==> duty)
            && ((flags / 2) % 2 == 1 <==> !duty)
            && ((flags / 4) % 2 == 1 <==> !duty)
            && ((flags / 8) % 2 == 1 <==> Anomalous(c.model, f))
            && (flags / 16) == 1
  {
    VerdictInBytes(f);
    AnswerDecodes(c, last, f);
    FlagBits(StatutoryDuty(f), Anomalous(c.model, f), Flags(c, f));
  }

  lemma FlagBits(duty: bool, anomaly: bool, flags: int)
    requires flags == (if duty then 1 else 2 + 4) + (if anomaly then 8 else 0) + 16
    ensures flags % 2 == 1 <==> duty
    ensures (flags / 2) % 2 == 1 <==> !duty
    ensures (flags / 4) % 2 == 1 <==> !duty
    ensures (flags / 8) % 2 == 1 <==> anomaly
    ensures flags / 16 == 1
  {}

  /** The sum of the first n bytes as two's complement numbers. */
  function SignedSum(b: seq<u8>, n: nat): int
    requires n <= |b|
  {
    if n == 0 then 0 else SignedSum(b, n - 1) + (b[n - 1] as int + 0x80) % 0x100 - 0x80
  }

  lemma {:induction false} SumOfFeatures(b: seq<u8>, n: nat)
    requires n <= |b|
    ensures Inference.Sum(Inference.Features(b), n) == SignedSum(b, n)
  {
    if n == 0 {
    } else {
      SumOfFeatures(b, n - 1);
    }
  }

  /** The sum of the 64 bytes of a node read as signed characters. */
  function NodeSum(f: Frame, n: nat): int
    requires n < MAX_NODES
  {
    SignedSum(Node(f, n), 64)
  }

  lemma {:induction false} PaddedSum(x: seq<int>, y: seq<int>, n: nat)
    requires |y| <= n <= |x| && (forall j :: 0 <= j < |x| ==> x[j] == if j < |y| then y[j] else 0)
    ensures Inference.Sum(x, n) == Inference.Sum(y, |y|)
  {
    if n == |y| {
      SumPrefix(x, y, n);
    } else {
      PaddedSum(x, y, n - 1);
    }
  }

  lemma {:induction false} SumPrefix(x: seq<int>, y: seq<int>, n: nat)
    requires n <= |x| && n <= |y| && forall j :: 0 <= j < n ==> x[j] == y[j]
    ensures Inference.Sum(x, n) == Inference.Sum(y, n)
  {
    if n == 0 {
    } else {
      SumPrefix(x, y, n - 1);
    }
  }

  /** With the shipped tables the anomaly flag reports a counted node whose signed bytes sum to 3328 or more. */
  lemma ShippedAnomaly(c: Tables, last: nat, f: Frame)
    requires Wellformed(c) && c.model == Inference.SHIPPED && Accepts(c, last, f)
    ensures (FlagsOf(Answer(c, last, f)) / 8) % 2 == 1 <==>
              exists n: nat :: n < MAX_NODES && n < NodeCount(f) && NodeSum(f, n) >= 3328
  {
    AcceptedFlags(c, last, f);
    forall n: nat | n < MAX_NODES
      ensures Inference.Class(c.model, FeatureVector(f, n)) != 0 <==> NodeSum(f, n) >= 3328
    {
      var x, y := FeatureVector(f, n), Inference.Features(Node(f, n));
      PaddedSum(x, y, Inference.INPUT_DIM);
      SumOfFeatures(Node(f, n), 64);
      Inference.ShippedClass(x);
    }
  }
}
