/**
 The rootserver's serial ingestion: bytes accumulate into a frame buffer, each full buffer is
 judged and answered. The object is proved to be the byte machine of module Ingest.
 */
module RootServer {
  import opened MachineInts
  import opened NumberTheory
  import opened Limbs
  import opened FieldOps
  import opened FieldBytes
  import opened Memory
  import opened Streaming
  import opened Frames
  import opened Quorum
  import opened Ingest
  import Inference
  import Sha256
  import Sha256Context

  /** The hashing half of the evaluation. */
  method StoreRootHash(audit: array<u8>)
    requires audit.Length == FRAME_SIZE && 0 <= NodeCount(audit[..]) <= MAX_NODES
    modifies audit
    ensures audit[..] == old(audit[..HASH_AT]) + RootHash(old(audit[..])) + old(audit[HASH_AT + 32..])
  {
    hide Sha256.Digest, ByteValue;
    ghost var f: Frame := audit[..];
    var count := NodeCount(audit[..]);
    var ctx := new Sha256Context.Context();
    ctx.Update(audit[CLAIMANT_AT..DOCKETS_AT]);
    ctx.Update(audit[DOCKETS_AT..NODES_AT]);
    ctx.Update(audit[NODES_AT..NODES_AT + NODE_SIZE * count]);
    Adjacent(f, CLAIMANT_AT, DOCKETS_AT, NODES_AT, NODES_AT + NODE_SIZE * count);
    var digest := ctx.Final();
    CopyBytes(audit, HASH_AT, digest);
  }

  lemma Adjacent(f: seq<u8>, a: nat, b: nat, c: nat, d: nat)
    requires a <= b <= c <= d <= |f|
    ensures [] + f[a..b] + f[b..c] + f[c..d] == f[a..d]
  {}

  /** Fills in the root hash and the verdict of the frame in the audit page. */
  method EvaluateAndHash(audit: array<u8>)
    requires audit.Length == FRAME_SIZE && 0 <= NodeCount(audit[..]) <= MAX_NODES
    modifies audit
    ensures audit[..] == Evaluated(old(audit[..]))
    ensures var f := old(audit[..]);
            audit[0x2D8..0x2F8] == Sha256.Digest(f[0x18..0xD8 + 64 * NodeCount(f)])
    ensures var f := old(audit[..]);
            var title := exists n: nat :: n < 8 && n < NodeCount(f) && f[276 + 64 * n..280 + 64 * n] == [1, 0, 0, 0];
            audit[0x11..0x14] == if f[0x58] != 0 && title then [1, 0, 0] else [0, 1, 1]
  {
    VerdictInBytes(audit[..]);
    EvaluatedFields(audit[..]);
    hide RootHash;
    ghost var f: Frame := audit[..];
    StoreRootHash(audit);
    ghost var g: Frame := audit[..];
    assert f[0..HASH_AT] == g[0..HASH_AT];
    HashLeavesEvidence(f, g);
    var hasTitle := FindTitle(audit[..]);
    var hasOrders := audit[DOCKETS_AT] != 0;
    StoreVerdict(audit, hasTitle && hasOrders);
    Assembled(f, RootHash(f), g, VerdictBytes(f), audit[..]);
  }

  lemma Assembled(f: Frame, rootHash: seq<u8>, g: seq<u8>, verdict: seq<u8>, h: seq<u8>)
    requires |rootHash| == 32 && |verdict| == 3
    requires g == f[..HASH_AT] + rootHash + f[HASH_AT + 32..]
    requires h == g[..DUTY_AT] + verdict + g[DUTY_AT + 3..]
    ensures h == f[..DUTY_AT] + verdict + f[DUTY_AT + 3..HASH_AT] + rootHash + f[HASH_AT + 32..]
  {}

  method StoreVerdict(audit: array<u8>, duty: bool)
    requires audit.Length == FRAME_SIZE
    modifies audit
    ensures audit[..] == old(audit[..DUTY_AT]) + (if duty then [1, 0, 0] else [0, 1, 1]) + old(audit[DUTY_AT + 3..])
  {
    if duty {
      audit[DUTY_AT] := 1;
      audit[DUTY_AT + 1] := 0;
      audit[DUTY_AT + 2] := 0;
    } else {
      audit[DUTY_AT] := 0;
      audit[DUTY_AT + 1] := 1;
      audit[DUTY_AT + 2] := 1;
    }
  }

  /** Storing the hash changes nothing the verdict reads. */
  lemma HashLeavesEvidence(f: Frame, g: Frame)
    requires f[0..HASH_AT] == g[0..HASH_AT]
    ensures NodeCount(f) == NodeCount(g) && f[DOCKETS_AT] == g[DOCKETS_AT]
    ensures forall n: nat :: n < MAX_NODES ==> Node(f, n) == Node(g, n)
    ensures StatutoryDuty(f) == StatutoryDuty(g)
  {
    SlicesOfSlice(f, g, 0, HASH_AT, 0x14, 0x18);
    forall n: nat | n < MAX_NODES
      ensures Node(f, n) == Node(g, n)
    {
      SlicesOfSlice(f, g, 0, HASH_AT, NODES_AT + NODE_SIZE * n, NODES_AT + NODE_SIZE * (n + 1));
    }
    assert f[DOCKETS_AT] == f[0..HASH_AT][DOCKETS_AT];
    assert forall n: nat :: n < MAX_NODES ==> TitleType(f, n) == TitleType(g, n);
  }

  method FindTitle(f: Frame) returns (found: bool)
    requires 0 <= NodeCount(f)
    ensures found <==> HasOriginalTitle(f)
  {
    found := false;
    var i := 0;
    while i < NodeCount(f) && i < MAX_NODES
      invariant 0 <= i <= MAX_NODES && i <= NodeCount(f)
      invariant !found && forall n :: 0 <= n < i ==> TitleType(f, n) != TITLE_ABORIGINAL_SOVEREIGN
      decreases MAX_NODES - i
    {
      if TitleType(f, i) == TITLE_ABORIGINAL_SOVEREIGN {
        found := true;
        break;
      }
      i := i + 1;
    }
  }

  /** Runs the classifier over the counted nodes. */
  method Sweep(f: Frame, model: Inference.Model) returns (anomaly: bool)
    requires Inference.Safe(model) && 0 <= NodeCount(f)
    ensures anomaly <==> Anomalous(model, f)
  {
    anomaly := false;
    var n := 0;
    while n < NodeCount(f) && n < MAX_NODES
      invariant 0 <= n <= MAX_NODES && n <= NodeCount(f)
      invariant anomaly ==> Anomalous(model, f)
      invariant !anomaly ==> forall i :: 0 <= i < n ==> Inference.Class(model, FeatureVector(f, i)) == 0
      decreases MAX_NODES - n
    {
      var features := new u8[Inference.INPUT_DIM](_ => 0);
      CopyBytes(features, 0, Node(f, n));
      assert features[..] == Node(f, n) + seq(64, _ => 0 as u8);
      var cls, confidence := Inference.Infer(model, features[..]);
      assert cls as int == Inference.Class(model, FeatureVector(f, n));
      if cls != 0 {
        anomaly := true;
      }
      n := n + 1;
    }
  }

  class Server {
    const d: array<i64>
    const iroot: array<i64>
    const k512: seq<bv64>
    const keys: seq<seq<u8>>
    const model: Inference.Model
    const rxBuffer: array<u8>
    var rxIndex: nat
    const audit: array<u8>
    var lastSequenceId: u64
    var sent: seq<u8>

    ghost function Constants(): Tables
      reads d
    {
      Tables(Val(d[..]), keys, model)
    }

    ghost predicate Valid()
      reads this, d, iroot, rxBuffer, audit
    {
      && Element(d) && Element(iroot) && |k512| == 80 && Wellformed(Constants())
      && rxBuffer.Length == audit.Length == FRAME_SIZE && rxBuffer != audit
      && rxIndex < FRAME_SIZE
    }

    /** The abstract machine this object is. */
    ghost function State(): Machine
      requires Valid()
      reads this, d, iroot, rxBuffer, audit
    {
      Machine(rxBuffer[..rxIndex], Ingest.Server(lastSequenceId as nat, audit[..]), sent)
    }

    constructor (d: array<i64>, iroot: array<i64>, k512: seq<bv64>, keys: seq<seq<u8>>, model: Inference.Model)
      requires Element(d) && Element(iroot) && |k512| == 80 && Committee(keys) && Inference.Safe(model)
      ensures Valid() && fresh(rxBuffer) && fresh(audit)
      ensures Constants() == Tables(Val(d[..]), keys, model)
      ensures State().pending == [] && State().server.last == 0 && State().sent == []
    {
      this.d, this.iroot, this.k512, this.keys, this.model := d, iroot, k512, keys, model;
      rxBuffer := new u8[FRAME_SIZE](_ => 0);
      audit := new u8[FRAME_SIZE](_ => 0);
      rxIndex, lastSequenceId, sent := 0, 0, [];
    }

    /** The priority chain over a full buffer, and the response. */
    method ProcessFrame() returns (resp: seq<u8>)
      requires Valid()
      modifies this`lastSequenceId, audit
      ensures Valid() && Constants() == old(Constants())
      ensures resp == Answer(Constants(), old(lastSequenceId) as nat, rxBuffer[..])
      ensures State().server == Next(Constants(), old(State().server), rxBuffer[..])
    {
      var f: Frame := rxBuffer[..];
      NodeCountIsNat(f);
      ByteValueRange(f[8..16], 8);
      assert Pow(0x100, 8) == TWO_TO_THE_64;
      var status, flags := 0, 0;
      var rootHash := seq(32, _ => 0 as u8);
      if Magic(f) != SOVR_MAGIC {
        status := STATUS_ERR_MAGIC;
      } else if SequenceId(f) <= lastSequenceId as int {
        status := STATUS_REJECT_REPLAY;
      } else if NodeCount(f) > MAX_NODES {
        status := STATUS_ERR_BOUNDS;
      } else {
        var verdict := VerifyCommittee(f, keys, d, iroot, k512);
        if verdict != 0 {
          status := STATUS_ERR_QUORUM;
        } else {
          flags, rootHash := Commit(f);
        }
      }
      resp := Response(status, flags, rootHash);
    }

    /** The accepting branch: copy, remember the id, evaluate, sweep, collect the flags. */
    method Commit(f: Frame) returns (flags: nat, rootHash: seq<u8>)
      requires Valid() && 0 <= NodeCount(f) <= MAX_NODES && 0 <= SequenceId(f) < TWO_TO_THE_64
      modifies this`lastSequenceId, audit
      ensures Valid() && lastSequenceId as nat == SequenceId(f) && audit[..] == Evaluated(f)
      ensures flags == Flags(Constants(), f) && rootHash == RootHash(f)
    {
      hide Evaluated, RootHash, Flags;
      CopyBytes(audit, 0, f);
      assert audit[..] == f;
      lastSequenceId := SequenceId(f) as u64;
      EvaluateAndHash(audit);
      EvaluatedFields(f);
      var committed: Frame := audit[..];
      var anomaly := Sweep(committed, model);
      SameAnomaly(model, f, committed);
      flags := CollectFlags(anomaly);
      FlagsOfVerdict(Constants(), f);
      rootHash := audit[HASH_AT..HASH_AT + 32];
    }

    /** The response flags, read off the verdict bytes of the audit page. */
    method CollectFlags(anomaly: bool) returns (flags: nat)
      requires audit.Length == FRAME_SIZE
      ensures flags == FlagSum(audit[DUTY_AT..DUTY_AT + 3], anomaly)
    {
      flags := if anomaly then FLAG_ANOMALY_DETECTED else 0;
      if audit[DUTY_AT] != 0 { flags := flags + FLAG_STATUTORY_DUTY; }
      if audit[DUTY_AT + 1] != 0 { flags := flags + FLAG_CORP_DEFENSE_VALID; }
      if audit[DUTY_AT + 2] != 0 { flags := flags + FLAG_CAN_BE_ADMINISTERED; }
      flags := flags + FLAG_QUORUM_VERIFIED;
    }

    /** One byte from the line. */
    method ReceiveByte(b: u8)
      requires Valid()
      modifies this, rxBuffer, audit
      ensures Valid() && Constants() == old(Constants())
      ensures State() == Receive(Constants(), old(State()), b)
    {
      ghost var pending := rxBuffer[..rxIndex];
      rxBuffer[rxIndex] := b;
      assert rxBuffer[..rxIndex + 1] == pending + [b];
      if rxIndex + 1 == FRAME_SIZE {
        assert rxBuffer[..] == pending + [b];
        rxIndex := 0;
        var resp := ProcessFrame();
        sent := sent + resp;
      } else {
        rxIndex := rxIndex + 1;
      }
    }

    /** Drains what one poll found on the line. */
    method Drain(bytes: seq<u8>)
      requires Valid()
      modifies this, rxBuffer, audit
      ensures Valid() && Constants() == old(Constants())
      ensures State() == ReceiveAll(Constants(), old(State()), bytes)
    {
      ghost var m := State();
      for i := 0 to |bytes|
        invariant Valid() && Constants() == old(Constants())
        invariant State() == ReceiveAll(Constants(), m, bytes[..i])
      {
        ReceiveByte(bytes[i]);
        assert bytes[..i + 1][..i] == bytes[..i];
      }
      assert bytes[..|bytes|] == bytes;
    }

    /** A run of the event loop over any sequence of polls: the outcome is that of the concatenated bytes. */
    method Serve(polls: seq<seq<u8>>)
      requires Valid()
      modifies this, rxBuffer, audit
      ensures Valid() && Constants() == old(Constants())
      ensures State() == ReceiveAll(Constants(), old(State()), Flatten(polls))
    {
      ghost var m := State();
      for i := 0 to |polls|
        invariant Valid() && Constants() == old(Constants())
        invariant State() == ReceiveAll(Constants(), m, Flatten(polls[..i]))
      {
        Drain(polls[i]);
        assert polls[..i + 1][..i] == polls[..i];
        ReceiveConcat(Constants(), m, Flatten(polls[..i]), polls[i]);
      }
      assert polls[..|polls|] == polls;
    }
  }

  /** The flags as distinct bits, one for each verdict byte that is set. */
  function FlagSum(verdict: seq<u8>, anomaly: bool): nat
    requires |verdict| == 3
  {
    (if verdict[0] != 0 then FLAG_STATUTORY_DUTY else 0) + (if verdict[1] != 0 then FLAG_CORP_DEFENSE_VALID else 0)
    + (if verdict[2] != 0 then FLAG_CAN_BE_ADMINISTERED else 0) + (if anomaly then FLAG_ANOMALY_DETECTED else 0)
    + FLAG_QUORUM_VERIFIED
  }

  lemma FlagsOfVerdict(c: Tables, f: Frame)
    requires Wellformed(c)
    ensures Flags(c, f) == FlagSum(VerdictBytes(f), Anomalous(c.model, f))
  {}

  lemma SameAnomaly(m: Inference.Model, f: Frame, g: Frame)
    requires Inference.Safe(m) && NodeCount(g) == NodeCount(f)
    requires forall n: nat :: n < MAX_NODES ==> Node(g, n) == Node(f, n)
    ensures Anomalous(m, g) <==> Anomalous(m, f)
  {
    assert forall n: nat :: n < MAX_NODES ==> FeatureVector(g, n) == FeatureVector(f, n);
  }
}
