/** What an observer of the serial line can conclude from the bytes in and the bytes out. */
module Wire {
  import opened MachineInts
  import opened Frames
  import opened Ingest

  /** Frame k of a byte stream. */
  function FrameOnWire(bytes: seq<u8>, k: nat): Frame
    requires FRAME_SIZE * (k + 1) <= |bytes|
  {
    bytes[FRAME_SIZE * k..FRAME_SIZE * (k + 1)]
  }

  /** Response k among the bytes sent. */
  function AnswerOnWire(sent: seq<u8>, k: nat): (r: seq<u8>)
    requires RESPONSE_SIZE * (k + 1) <= |sent|
    ensures |r| == RESPONSE_SIZE
  {
    sent[RESPONSE_SIZE * k..RESPONSE_SIZE * (k + 1)]
  }

  lemma {:induction false} AnswerAt(c: Tables, s: Server, fs: seq<Frame>, k: nat)
    requires Wellformed(c) && k < |fs|
    ensures AnswerOnWire(Answers(c, s, fs), k) == Answer(c, Run(c, s, fs[..k]).last, fs[k])
    decreases |fs|
  {
    hide Answer, Next;
    var before := fs[..|fs| - 1];
    if k == |before| {
    } else {
      AnswerAt(c, s, before, k);
      assert before[..k] == fs[..k];
    }
  }

  lemma {:induction false} CutAt(bytes: seq<u8>, n: nat, k: nat)
    requires FRAME_SIZE * n <= |bytes| && k < n
    ensures Cut(bytes, n)[k] == FrameOnWire(bytes, k)
  {
    if k == n - 1 {
    } else {
      CutAt(bytes, n - 1, k);
    }
  }

  /** Response k on the line answers frame k of the stream in the state the earlier frames left. */
  lemma WireAnswer(c: Tables, s: Server, bytes: seq<u8>, k: nat)
    requires Wellformed(c) && FRAME_SIZE * (k + 1) <= |bytes|
    ensures var sent := ReceiveAll(c, Machine([], s, []), bytes).sent;
            && RESPONSE_SIZE * (k + 1) <= |sent|
            && AnswerOnWire(sent, k) == Answer(c, Run(c, s, Cut(bytes, k)).last, FrameOnWire(bytes, k))
  {
    hide Answer, Next, Receive;
    var n := |bytes| / FRAME_SIZE;
    StreamIsFrames(c, s, bytes);
    AnswerAt(c, s, Cut(bytes, n), k);
    CutAt(bytes, n, k);
    CutTake(bytes, n, k);
  }

  lemma {:induction false} CutTake(bytes: seq<u8>, n: nat, k: nat)
    requires FRAME_SIZE * n <= |bytes| && k <= n
    ensures Cut(bytes, n)[..k] == Cut(bytes, k)
  {
    if k == n {
    } else {
      CutTake(bytes, n - 1, k);
    }
  }

  /** Whatever bytes come in: of two frames answered with success the later one has the greater id. */
  lemma WireOrder(c: Tables, s: Server, bytes: seq<u8>, i: nat, j: nat)
    requires Wellformed(c) && i < j && FRAME_SIZE * (j + 1) <= |bytes|
    ensures var sent := ReceiveAll(c, Machine([], s, []), bytes).sent;
            && RESPONSE_SIZE * (i + 1) <= |sent| && RESPONSE_SIZE * (j + 1) <= |sent|
            && (StatusOf(AnswerOnWire(sent, i)) == STATUS_SUCCESS && StatusOf(AnswerOnWire(sent, j)) == STATUS_SUCCESS
                ==> SequenceId(FrameOnWire(bytes, i)) < SequenceId(FrameOnWire(bytes, j)))
  {
    hide Answer, Receive;
    var f, g := FrameOnWire(bytes, i), FrameOnWire(bytes, j);
    WireAnswer(c, s, bytes, i);
    WireAnswer(c, s, bytes, j);
    AnswerDecodes(c, Run(c, s, Cut(bytes, i)).last, f);
    AnswerDecodes(c, Run(c, s, Cut(bytes, j)).last, g);
    RemembersAccepted(c, s, bytes, i, j);
  }

  /** Whatever bytes come in: a frame once answered with success gets 0xE002 whenever it is sent again. */
  lemma WireReplay(c: Tables, s: Server, bytes: seq<u8>, i: nat, j: nat)
    requires Wellformed(c) && i < j && FRAME_SIZE * (j + 1) <= |bytes|
    requires FrameOnWire(bytes, i) == FrameOnWire(bytes, j)
    ensures var sent := ReceiveAll(c, Machine([], s, []), bytes).sent;
            && RESPONSE_SIZE * (i + 1) <= |sent| && RESPONSE_SIZE * (j + 1) <= |sent|
            && (StatusOf(AnswerOnWire(sent, i)) == STATUS_SUCCESS
                ==> StatusOf(AnswerOnWire(sent, j)) == STATUS_REJECT_REPLAY)
  {
    hide Answer, Receive;
    var f := FrameOnWire(bytes, i);
    WireAnswer(c, s, bytes, i);
    WireAnswer(c, s, bytes, j);
    AnswerDecodes(c, Run(c, s, Cut(bytes, i)).last, f);
    AnswerDecodes(c, Run(c, s, Cut(bytes, j)).last, f);
    RemembersAccepted(c, s, bytes, i, j);
  }

  /** An id accepted at frame i is still covered by the last id when frame j comes. */
  lemma RemembersAccepted(c: Tables, s: Server, bytes: seq<u8>, i: nat, j: nat)
    requires Wellformed(c) && i < j && FRAME_SIZE * (j + 1) <= |bytes|
    ensures Accepts(c, Run(c, s, Cut(bytes, i)).last, FrameOnWire(bytes, i))
        ==> SequenceId(FrameOnWire(bytes, i)) <= Run(c, s, Cut(bytes, j)).last
  {
    hide Evaluated, Status;
    var fs := Cut(bytes, j);
    CutTake(bytes, j, i + 1);
    CutTake(bytes, i + 1, i);
    CutAt(bytes, i + 1, i);
    LastNeverFalls(c, s, fs, i + 1);
  }
}
