/**
 What the appliance does with a stream of bytes, as functions: one frame against a server state,
 a run over many frames, and the byte-by-byte machine. The laws of whole runs are proved here.
 */
module Ingest {
  import opened MachineInts
  import opened FieldBytes
  import opened Frames
  import opened Quorum
  import Inference
  import Sha256

  const TITLE_ABORIGINAL_SOVEREIGN: int := 1

  /** The constant tables: the curve constant, the committee keys and the classifier. */
  datatype Tables = Tables(d: int, keys: seq<seq<u8>>, model: Inference.Model)

  ghost predicate Wellformed(c: Tables) { Committee(c.keys) && Inference.Safe(c.model) }

  /** The last accepted sequence id and the audit frame. */
  datatype Server = Server(last: nat, audit: Frame)

  // ----- one frame -----

  ghost function Status(c: Tables, last: nat, f: Frame): nat
    requires Wellformed(c)
  {
    if Magic(f) != SOVR_MAGIC then STATUS_ERR_MAGIC
    else if SequenceId(f) <= last then STATUS_REJECT_REPLAY
    else if NodeCount(f) > MAX_NODES then STATUS_ERR_BOUNDS
    else if Verdict(c.d, c.keys, f) != 0 then STATUS_ERR_QUORUM
    else STATUS_SUCCESS
  }

  ghost predicate Accepts(c: Tables, last: nat, f: Frame)
    requires Wellformed(c)
  {
    Status(c, last, f) == STATUS_SUCCESS
  }

  predicate HasOriginalTitle(f: Frame) {
    exists n :: 0 <= n < MAX_NODES && n < NodeCount(f) && TitleType(f, n) == TITLE_ABORIGINAL_SOVEREIGN
  }

  predicate HasJudicialOrders(f: Frame) { f[DOCKETS_AT] != 0 }

  predicate StatutoryDuty(f: Frame) { HasOriginalTitle(f) && HasJudicialOrders(f) }

  /** The verdict bytes: statutory duty, corporate defence valid, can be administered away. */
  function VerdictBytes(f: Frame): (v: seq<u8>)
    ensures |v| == 3
  {
    if StatutoryDuty(f) then [1, 0, 0] else [0, 1, 1]
  }

  /** The verdict in bytes: a first docket byte, and a counted node whose last four bytes are 1, 0, 0, 0. */
  lemma VerdictInBytes(f: Frame)
    ensures var title := exists n: nat :: n < 8 && n < NodeCount(f) && f[276 + 64 * n..280 + 64 * n] == [1, 0, 0, 0];
            VerdictBytes(f) == if f[0x58] != 0 && title then [1, 0, 0] else [0, 1, 1]
  {
    hide TitleType;
    forall n: nat | n < 8
      ensures TitleType(f, n) == 1 <==> f[276 + 64 * n..280 + 64 * n] == [1, 0, 0, 0]
    {
      TitleInBytes(f, n);
    }
    if HasOriginalTitle(f) {
      var n: nat :| n < 8 && n < NodeCount(f) && TitleType(f, n) == 1;
      assert f[276 + 64 * n..280 + 64 * n] == [1, 0, 0, 0];
    }
    if n: nat :| n < 8 && n < NodeCount(f) && f[276 + 64 * n..280 + 64 * n] == [1, 0, 0, 0] {
      assert TitleType(f, n) == 1;
    }
  }

  lemma TitleInBytes(f: Frame, n: nat)
    requires n < 8
    ensures TitleType(f, n) == 1 <==> f[276 + 64 * n..280 + 64 * n] == [1, 0, 0, 0]
  {
    var t, want: seq<u8> := Node(f, n)[60..64], [1, 0, 0, 0];
    assert t == f[276 + 64 * n..280 + 64 * n];
    FourByteNumber(t);
    FourByteNumber(want);
    if ByteValue(t, 4) == ByteValue(want, 4) { ByteValueInjective(t, want, 4); }
    assert t[..4] == t && want[..4] == want;
  }

  function RootHash(f: Frame): (h: seq<u8>)
    requires 0 <= NodeCount(f) <= MAX_NODES
    ensures |h| == 32
  {
    Sha256.Digest(Preimage(f))
  }

  /** The frame with its verdict and its root hash filled in. */
  function Evaluated(f: Frame): Frame
    requires 0 <= NodeCount(f) <= MAX_NODES
  {
    f[..DUTY_AT] + VerdictBytes(f) + f[DUTY_AT + 3..HASH_AT] + RootHash(f) + f[HASH_AT + 32..]
  }

  /** Where evaluation puts the verdict and the hash, and that it leaves count and nodes alone. */
  lemma EvaluatedFields(f: Frame)
    requires 0 <= NodeCount(f) <= MAX_NODES
    ensures var g := Evaluated(f);
            && NodeCount(g) == NodeCount(f) && (forall n: nat :: n < MAX_NODES ==> Node(g, n) == Node(f, n))
            && g[DUTY_AT..DUTY_AT + 3] == VerdictBytes(f)
            && g[HASH_AT..HASH_AT + 32] == RootHash(f)
  {
    hide RootHash;
    var g := Evaluated(f);
    assert forall k :: DUTY_AT + 3 <= k < HASH_AT ==> g[k] == f[k];
    assert g[0x14..0x18] == f[0x14..0x18];
  }

  lemma EvaluationElsewhere(f: Frame, k: nat)
    requires 0 <= NodeCount(f) <= MAX_NODES && k < FRAME_SIZE
    requires !(DUTY_AT <= k < DUTY_AT + 3) && !(HASH_AT <= k < HASH_AT + 32)
    ensures Evaluated(f)[k] == f[k]
  {
    hide RootHash, VerdictBytes;
  }

  function FeatureVector(f: Frame, n: nat): (x: seq<int>)
    requires n < MAX_NODES
    ensures |x| == Inference.INPUT_DIM && forall j :: 0 <= j < |x| ==> -0x80 <= x[j] < 0x80
  {
    Inference.Features(Node(f, n) + seq(64, _ => 0 as u8))
  }

  ghost predicate Anomalous(m: Inference.Model, f: Frame)
    requires Inference.Safe(m)
  {
    exists n :: 0 <= n < MAX_NODES && n < NodeCount(f) && Inference.Class(m, FeatureVector(f, n)) != 0
  }

  ghost function Flags(c: Tables, f: Frame): nat
    requires Wellformed(c)
  {
    (if StatutoryDuty(f) then FLAG_STATUTORY_DUTY else FLAG_CORP_DEFENSE_VALID + FLAG_CAN_BE_ADMINISTERED)
    + (if Anomalous(c.model, f) then FLAG_ANOMALY_DETECTED else 0) + FLAG_QUORUM_VERIFIED
  }

  lemma NodeCountIsNat(f: Frame)
    ensures NodeCount(f) >= 0 && SequenceId(f) >= 0
  {
    ByteValueRange(f[0x14..0x18], 4);
    ByteValueRange(f[8..16], 8);
  }

  ghost function Answer(c: Tables, last: nat, f: Frame): (r: seq<u8>)
    requires Wellformed(c)
    ensures |r| == RESPONSE_SIZE
  {
    NodeCountIsNat(f);
    if Accepts(c, last, f) then Response(STATUS_SUCCESS, Flags(c, f), RootHash(f))
    else Response(Status(c, last, f), 0, seq(32, _ => 0 as u8))
  }

  ghost function Next(c: Tables, s: Server, f: Frame): Server
    requires Wellformed(c)
  {
    NodeCountIsNat(f);
    if Accepts(c, s.last, f) then Server(SequenceId(f), Evaluated(f)) else s
  }

  /** A client reads back the status; the flags of a refusal are clear and its hash is zero. */
  lemma AnswerDecodes(c: Tables, last: nat, f: Frame)
    requires Wellformed(c)
    ensures var r := Answer(c, last, f);
            && StatusOf(r) == Status(c, last, f)
            && (Accepts(c, last, f) ==>
                  0 <= NodeCount(f) <= MAX_NODES && FlagsOf(r) == Flags(c, f) && r[8..40] == RootHash(f))
            && (!Accepts(c, last, f) ==> FlagsOf(r) == 0 && r[8..40] == seq(32, _ => 0 as u8))
  {
    NodeCountIsNat(f);
    if Accepts(c, last, f) {
      ResponseDecodes(STATUS_SUCCESS, Flags(c, f), RootHash(f));
    } else {
      ResponseDecodes(Status(c, last, f), 0, seq(32, _ => 0 as u8));
    }
  }

  // ----- runs over frames -----

  ghost function Run(c: Tables, s: Server, fs: seq<Frame>): Server
    requires Wellformed(c)
  {
    if fs == [] then s else Next(c, Run(c, s, fs[..|fs| - 1]), fs[|fs| - 1])
  }

  ghost function Answers(c: Tables, s: Server, fs: seq<Frame>): (r: seq<u8>)
    requires Wellformed(c)
    ensures |r| == RESPONSE_SIZE * |fs|
  {
    if fs == [] then []
    else Answers(c, s, fs[..|fs| - 1]) + Answer(c, Run(c, s, fs[..|fs| - 1]).last, fs[|fs| - 1])
  }

  /** The frames accepted along a run, in order. */
  ghost function AcceptedFrames(c: Tables, s: Server, fs: seq<Frame>): seq<Frame>
    requires Wellformed(c)
  {
    if fs == [] then [] else
      var before, f := fs[..|fs| - 1], fs[|fs| - 1];
      AcceptedFrames(c, s, before) + if Accepts(c, Run(c, s, before).last, f) then [f] else []
  }

  /** The ids strictly increase, from above last, and the node counts are in bounds. */
  predicate Increasing(last: nat, acc: seq<Frame>) {
    && (forall i, j :: 0 <= i < j < |acc| ==> SequenceId(acc[i]) < SequenceId(acc[j]))
    && (forall i :: 0 <= i < |acc| ==> last < SequenceId(acc[i]) && NodeCount(acc[i]) <= MAX_NODES)
  }

  /** The state the last of the accepted frames leaves. */
  function StateAfter(s: Server, acc: seq<Frame>): Server
    requires Increasing(s.last, acc)
  {
    if acc == [] then s else
      var f := acc[|acc| - 1];
      NodeCountIsNat(f);
      Server(SequenceId(f), Evaluated(f))
  }

  lemma OneMoreId(s: Server, acc: seq<Frame>, f: Frame)
    requires Increasing(s.last, acc) && SequenceId(f) > StateAfter(s, acc).last && NodeCount(f) <= MAX_NODES
    ensures Increasing(s.last, acc + [f])
    ensures 0 <= NodeCount(f) && StateAfter(s, acc + [f]) == Server(SequenceId(f), Evaluated(f))
  {
    hide Evaluated, SequenceId, NodeCount;
    NodeCountIsNat(f);
  }

  /** Accepted ids strictly increase, from above the initial one; the state after the run is that of
      the last accepted frame, its id and its evaluation, or the initial one if none was accepted. */
  lemma {:induction false} IdsIncrease(c: Tables, s: Server, fs: seq<Frame>)
    requires Wellformed(c)
    ensures Increasing(s.last, AcceptedFrames(c, s, fs))
    ensures Run(c, s, fs) == StateAfter(s, AcceptedFrames(c, s, fs))
  {
    if fs == [] {
    } else {
      var before, f := fs[..|fs| - 1], fs[|fs| - 1];
      hide Increasing, StateAfter, Evaluated, Verdict, SequenceId, NodeCount, Magic;
      IdsIncrease(c, s, before);
      if Accepts(c, Run(c, s, before).last, f) {
        OneMoreId(s, AcceptedFrames(c, s, before), f);
      } else {
        assert AcceptedFrames(c, s, fs) == AcceptedFrames(c, s, before);
      }
    }
  }

  lemma {:induction false} LastNeverFalls(c: Tables, s: Server, fs: seq<Frame>, k: nat)
    requires Wellformed(c) && k <= |fs|
    ensures Run(c, s, fs[..k]).last <= Run(c, s, fs).last
    decreases |fs|
  {
    if k < |fs| {
      LastNeverFalls(c, s, fs[..|fs| - 1], k);
      assert fs[..|fs| - 1][..k] == fs[..k];
    } else {
      assert fs[..k] == fs;
    }
  }

  /** A frame accepted anywhere in a run is answered with the replay status whenever it comes again. */
  lemma ReplayRefused(c: Tables, s: Server, fs: seq<Frame>, k: nat)
    requires Wellformed(c) && k < |fs| && Accepts(c, Run(c, s, fs[..k]).last, fs[k])
    ensures Status(c, Run(c, s, fs).last, fs[k]) == STATUS_REJECT_REPLAY
    ensures StatusOf(Answer(c, Run(c, s, fs).last, fs[k])) == STATUS_REJECT_REPLAY
    ensures Next(c, Run(c, s, fs), fs[k]) == Run(c, s, fs)
  {
    var upTo := fs[..k + 1];
    assert upTo[..|upTo| - 1] == fs[..k];
    LastNeverFalls(c, s, fs, k + 1);
    AnswerDecodes(c, Run(c, s, fs).last, fs[k]);
  }

  /** Refused frames leave no trace: the accepted frames alone take the server to the same state,
      and in a run over them none is refused. */
  lemma {:induction false} RefusedLeaveNoTrace(c: Tables, s: Server, fs: seq<Frame>)
    requires Wellformed(c)
    ensures var acc := AcceptedFrames(c, s, fs);
            Run(c, s, acc) == Run(c, s, fs) && AcceptedFrames(c, s, acc) == acc
  {
    if fs == [] {
    } else {
      var before, f := fs[..|fs| - 1], fs[|fs| - 1];
      var was := AcceptedFrames(c, s, before);
      RefusedLeaveNoTrace(c, s, before);
      if Accepts(c, Run(c, s, before).last, f) {
        assert (was + [f])[..|was + [f]| - 1] == was;
      } else {
        assert AcceptedFrames(c, s, fs) == was;
      }
    }
  }

  // ----- the byte machine -----

  /** The bytes of a frame in progress, the server, and everything sent so far. */
  datatype Machine = Machine(pending: seq<u8>, server: Server, sent: seq<u8>)

  ghost function Receive(c: Tables, m: Machine, b: u8): Machine
    requires Wellformed(c)
  {
    var p := m.pending + [b];
    if |p| == FRAME_SIZE then Machine([], Next(c, m.server, p), m.sent + Answer(c, m.server.last, p))
    else m.(pending := p)
  }

  ghost function ReceiveAll(c: Tables, m: Machine, bytes: seq<u8>): Machine
    requires Wellformed(c)
  {
    if bytes == [] then m else Receive(c, ReceiveAll(c, m, bytes[..|bytes| - 1]), bytes[|bytes| - 1])
  }

  /** Only the bytes matter, not how polls cut them. */
  lemma {:induction false} ReceiveConcat(c: Tables, m: Machine, a: seq<u8>, b: seq<u8>)
    requires Wellformed(c)
    ensures ReceiveAll(c, m, a + b) == ReceiveAll(c, ReceiveAll(c, m, a), b)
    decreases |b|
  {
    if b == [] {
      assert a + b == a;
    } else {
      ReceiveConcat(c, m, a, b[..|b| - 1]);
      assert (a + b)[..|a + b| - 1] == a + b[..|b| - 1];
    }
  }

  /** The first n frames of a stream. */
  function Cut(bytes: seq<u8>, n: nat): (fs: seq<Frame>)
    requires FRAME_SIZE * n <= |bytes|
    ensures |fs| == n
  {
    if n == 0 then [] else Cut(bytes, n - 1) + [bytes[FRAME_SIZE * (n - 1)..FRAME_SIZE * n]]
  }

  lemma {:induction false} CutPrefix(bytes: seq<u8>, more: seq<u8>, n: nat)
    requires FRAME_SIZE * n <= |bytes|
    ensures Cut(bytes + more, n) == Cut(bytes, n)
  {
    if n == 0 {
    } else {
      CutPrefix(bytes, more, n - 1);
      assert (bytes + more)[FRAME_SIZE * (n - 1)..FRAME_SIZE * n] == bytes[FRAME_SIZE * (n - 1)..FRAME_SIZE * n];
    }
  }

  /** What a machine that started empty must look like after reading bytes. */
  ghost predicate Cutting(c: Tables, s: Server, bytes: seq<u8>, n: nat, m: Machine)
    requires Wellformed(c) && FRAME_SIZE * n <= |bytes|
  {
    && m.pending == bytes[FRAME_SIZE * n..] && |m.pending| < FRAME_SIZE
    && m.server == Run(c, s, Cut(bytes, n))
    && m.sent == Answers(c, s, Cut(bytes, n))
  }

  /** Byte by byte is frame by frame: after any stream the machine holds the bytes short of a frame, the
      state of a run over the whole frames, and one response of 40 bytes for each. */
  lemma {:induction false} StreamIsFrames(c: Tables, s: Server, bytes: seq<u8>)
    requires Wellformed(c)
    ensures var n := |bytes| / FRAME_SIZE; var m := ReceiveAll(c, Machine([], s, []), bytes);
            FRAME_SIZE * n <= |bytes| && Cutting(c, s, bytes, n, m) && |m.sent| == RESPONSE_SIZE * n
  {
    hide Receive, Answer, Next;
    if bytes == [] {
      assert Cut(bytes, 0) == [];
    } else {
      hide Run, Answers, Cut;
      var init, b := bytes[..|bytes| - 1], bytes[|bytes| - 1];
      StreamIsFrames(c, s, init);
      assert bytes == init + [b];
      CuttingStep(c, s, init, b, |init| / FRAME_SIZE, ReceiveAll(c, Machine([], s, []), init));
    }
  }

  lemma CuttingStep(c: Tables, s: Server, init: seq<u8>, b: u8, n: nat, m: Machine)
    requires Wellformed(c) && n == |init| / FRAME_SIZE && FRAME_SIZE * n <= |init| && Cutting(c, s, init, n, m)
    ensures var bytes := init + [b]; var n' := |bytes| / FRAME_SIZE;
            FRAME_SIZE * n' <= |bytes| && Cutting(c, s, bytes, n', Receive(c, m, b))
  {
    hide Answer, Next, Run, Answers, Cut;
    var bytes := init + [b];
    var p := m.pending + [b];
    CutPrefix(init, [b], n);
    assert bytes[FRAME_SIZE * n..] == p;
    assert |bytes| == FRAME_SIZE * n + |p|;
    if |p| == FRAME_SIZE {
      assert |bytes| / FRAME_SIZE == n + 1;
      CutOneMore(c, s, bytes, n);
    } else {
      assert |bytes| / FRAME_SIZE == n;
    }
  }

  lemma CutOneMore(c: Tables, s: Server, bytes: seq<u8>, n: nat)
    requires Wellformed(c) && |bytes| == FRAME_SIZE * (n + 1)
    ensures var f: Frame, fs := bytes[FRAME_SIZE * n..], Cut(bytes, n);
            && Run(c, s, Cut(bytes, n + 1)) == Next(c, Run(c, s, fs), f)
            && Answers(c, s, Cut(bytes, n + 1)) == Answers(c, s, fs) + Answer(c, Run(c, s, fs).last, f)
  {
    var fs, all := Cut(bytes, n), Cut(bytes, n + 1);
    assert bytes[FRAME_SIZE * n..FRAME_SIZE * (n + 1)] == bytes[FRAME_SIZE * n..];
    assert all[..|all| - 1] == fs && all[|all| - 1] == bytes[FRAME_SIZE * n..];
  }
}
