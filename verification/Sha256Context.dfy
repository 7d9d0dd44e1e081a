/** The streaming SHA-256 context. */
module Sha256Context {
  import opened MachineInts
  import opened NumberTheory
  import opened MerkleDamgard
  import opened Memory
  import opened Streaming
  import opened Sha256

  class Context {
    const state: array<bv32>
    var count: u64
    const buffer: array<u8>
    /** Everything fed to the context since it was created. */
    ghost var message: seq<u8>

    ghost predicate Valid()
      reads this, state, buffer
    {
      && state.Length == 8 && buffer.Length == BLOCK
      && count as int == |message| % TWO_TO_THE_64
      && state[..] == Chain(Compression(), BLOCK, IV, message)
      && buffer[..|message| % BLOCK] == Tail(message, BLOCK)
    }

    constructor ()
      ensures Valid() && fresh(state) && fresh(buffer) && message == []
    {
      state := new bv32[8](i requires 0 <= i < 8 => IV[i]);
      buffer := new u8[BLOCK](_ => 0);
      count := 0;
      message := [];
      new;
      assert state[..] == IV;
    }

    /** The block transformation is the compression function. */
    method Transform(data: seq<u8>)
      requires state.Length == 8 && |data| == BLOCK
      modifies state
      ensures state[..] == Compress(old(state[..]), data)
    {
      var w := new bv32[64];
      FillSchedule(w, data);
      var v := RunRounds(K, w[..], Load(state[..]));
      AddWorking(state, v);
    }

    /** Feeding data appends it to the message, however the calls cut it. */
    method Update(data: seq<u8>)
      requires Valid()
      modifies this, state, buffer
      ensures Valid() && message == old(message) + data
    {
      hide Compress;
      ghost var m := message;
      var index := count as nat % BLOCK;
      CountModBlock(|m|);
      ModOfSum(|m|, |data|, TWO_TO_THE_64);
      count := ((count as int + |data|) % TWO_TO_THE_64) as u64;
      message := message + data;
      var pos := 0;
      if index > 0 {
        var left := BLOCK - index;
        if |data| < left {
          ShortUpdate(Compression(), BLOCK, IV, m, data);
          CopyBytes(buffer, index, data);
          return;
        }
        FillBlock(Compression(), BLOCK, IV, m, data[..left]);
        CopyBytes(buffer, index, data[..left]);
        assert buffer[..] == Tail(m, BLOCK) + data[..left];
        Transform(buffer[..]);
        pos := left;
      } else {
        assert m + data[..pos] == m;
      }
      Blocks(m, data, pos);
    }

    /** The block loop of an update, and the copy of what is left after it. */
    method Blocks(ghost m: seq<u8>, data: seq<u8>, start: nat)
      requires state.Length == 8 && buffer.Length == BLOCK && start <= |data|
      requires (|m| + start) % BLOCK == 0 && state[..] == Chain(Compression(), BLOCK, IV, m + data[..start])
      modifies state, buffer
      ensures state[..] == Chain(Compression(), BLOCK, IV, m + data)
      ensures buffer[..|m + data| % BLOCK] == Tail(m + data, BLOCK)
    {
      hide Compress;
      var pos := start;
      while |data| - pos >= BLOCK
        invariant pos <= |data| && (|m| + pos) % BLOCK == 0
        invariant state[..] == Chain(Compression(), BLOCK, IV, m + data[..pos])
        modifies state
      {
        NextBlock(Compression(), BLOCK, IV, m, data, pos);
        Transform(data[pos..pos + BLOCK]);
        pos := pos + BLOCK;
      }
      Remainder(Compression(), BLOCK, IV, m, data, pos);
      if |data| - pos > 0 {
        CopyBytes(buffer, 0, data[pos..]);
      }
    }

    /** The marker and the zeros, in a block of their own when the length field does not fit behind them. */
    method PadTail()
      requires Valid()
      modifies state, buffer
      ensures var t := Tail(message, BLOCK) + [0x80];
              if |t| > 56 then buffer[..56] == Zeros(56) && state[..] == Compress(old(state[..]), t + Zeros(64 - |t|))
              else buffer[..56] == t + Zeros(56 - |t|) && state[..] == old(state[..])
    {
      hide Compress;
      var index := count as nat % BLOCK;
      CountModBlock(|message|);
      buffer[index] := 0x80;
      index := index + 1;
      ghost var tail := Tail(message, BLOCK) + [0x80];
      assert buffer[..index] == tail;
      if index > 56 {
        ClearBytes(buffer, index, 64 - index);
        assert buffer[..] == tail + Zeros(64 - index);
        Transform(buffer[..]);
        index := 0;
      }
      ClearBytes(buffer, index, 56 - index);
    }

    /** The digest of the whole message. */
    method Final() returns (digest: seq<u8>)
      requires Valid()
      modifies state, buffer
      ensures digest == Digest(message)
    {
      hide Compress;
      FinalBlocks(Compression(), BLOCK, LENGTH_FIELD, IV, message, |message|);
      PadTail();
      var totalBits := (count as int * 8) % TWO_TO_THE_64;
      LengthField(|message|, count);
      WriteLength(totalBits as u64);
      Transform(buffer[..]);
      digest := Output();
    }

    method WriteLength(totalBits: u64)
      requires buffer.Length == BLOCK
      modifies buffer
      ensures buffer[..] == old(buffer[..56]) + BigEndian(totalBits as nat, 8)
    {
      hide BigEndian;
      var i := 7;
      while i >= 0
        invariant -1 <= i <= 7
        invariant buffer[..56] == old(buffer[..56])
        invariant forall k :: 56 <= k < 63 - i ==> buffer[k] == BigEndian(totalBits as nat, 8)[k - 56]
      {
        BigEndianAt(totalBits as nat, 8, 7 - i);
        buffer[56 + (7 - i)] := ((totalBits as int / Pow(0x100, i)) % 0x100) as u8;
        i := i - 1;
      }
    }

    method Output() returns (digest: seq<u8>)
      requires state.Length == 8
      ensures digest == Bytes(state[..])
    {
      digest := [];
      for i := 0 to 8
        invariant digest == Bytes(state[..i])
      {
        assert state[..i + 1][..i] == state[..i];
        digest := digest + WordBytes(state[i]);
      }
      assert state[..8] == state[..];
    }
  }

  method FillSchedule(w: array<bv32>, data: seq<u8>)
    requires w.Length == 64 && |data| == BLOCK
    modifies w
    ensures w[..] == Schedule(data, 64)
  {
    hide Schedule, Add, Xor, Rotr, Shr, Word;
    ScheduleStep(data, 0);
    for i := 0 to 16
      invariant w[..i] == Schedule(data, i)
    {
      ScheduleStep(data, i);
      w[i] := Word(data[i * 4], data[i * 4 + 1], data[i * 4 + 2], data[i * 4 + 3]);
      assert w[..i + 1] == w[..i] + [w[i]];
    }
    for i := 16 to 64
      invariant w[..i] == Schedule(data, i)
    {
      ScheduleStep(data, i);
      ghost var s := w[..i];
      var s0 := Xor(Xor(Rotr(w[i - 15], 7), Rotr(w[i - 15], 18)), Shr(w[i - 15], 3));
      var s1 := Xor(Xor(Rotr(w[i - 2], 17), Rotr(w[i - 2], 19)), Shr(w[i - 2], 10));
      w[i] := Add(Add(Add(w[i - 16], s0), w[i - 7]), s1);
      assert w[..i + 1] == s + [w[i]];
    }
    assert w[..64] == w[..];
  }

  method RunRounds(k: seq<bv32>, w: seq<bv32>, start: Working) returns (v: Working)
    requires |k| == |w| == 64
    ensures v == Rounds(k, w, start, 64)
  {
    var a, b, c, d := start.a, start.b, start.c, start.d;
    var e, f, g, h := start.e, start.f, start.g, start.h;
    for i := 0 to 64
      invariant Working(a, b, c, d, e, f, g, h) == Rounds(k, w, start, i)
    {
      var sum1 := Xor(Xor(Rotr(e, 6), Rotr(e, 11)), Rotr(e, 25));
      var ch := Xor(And(e, f), And(Not(e), g));
      var temp1 := Add(Add(Add(Add(h, sum1), ch), k[i]), w[i]);
      var sum0 := Xor(Xor(Rotr(a, 2), Rotr(a, 13)), Rotr(a, 22));
      var maj := Xor(Xor(And(a, b), And(a, c)), And(b, c));
      var temp2 := Add(sum0, maj);
      h := g;
      g := f;
      f := e;
      e := Add(d, temp1);
      d := c;
      c := b;
      b := a;
      a := Add(temp1, temp2);
    }
    v := Working(a, b, c, d, e, f, g, h);
  }

  method AddWorking(state: array<bv32>, v: Working)
    requires state.Length == 8
    modifies state
    ensures state[..] == AddState(old(state[..]), v)
  {
    hide Add;
    var w := Words(v);
    for i := 0 to 8
      invariant forall j :: 0 <= j < 8 ==> state[j] == if j < i then Add(old(state[j]), w[j]) else old(state[j])
    {
      state[i] := Add(state[i], w[i]);
    }
  }

  /** The counter modulo 64 is the fill of the buffer even after the counter has wrapped. */
  lemma CountModBlock(len: nat)
    ensures (len % TWO_TO_THE_64) % BLOCK == len % BLOCK
  {
    ModOfMultiple(len, TWO_TO_THE_64 / BLOCK, BLOCK);
  }

  /** The bit count taken from the wrapped byte counter is the length field of the padding. */
  lemma LengthField(len: nat, count: u64)
    requires count as int == len % TWO_TO_THE_64
    ensures BigEndian((count as int * 8) % TWO_TO_THE_64, 8) == BigEndian(8 * len, 8)
  {
    BigEndianMod(8 * len, 8);
    assert Pow(0x100, 8) == TWO_TO_THE_64;
    var q := len / TWO_TO_THE_64;
    assert 8 * len == (8 * q) * TWO_TO_THE_64 + count as int * 8;
    CongIntro(8 * len, count as int * 8, 8 * q, TWO_TO_THE_64);
    CongMod(8 * len, count as int * 8, TWO_TO_THE_64);
  }

  /** Streaming equals one-shot: any division of a message into updates gives the digest of the message. */
  method HashChunks(chunks: seq<seq<u8>>) returns (digest: seq<u8>)
    ensures digest == Digest(Flatten(chunks))
  {
    var ctx := new Context();
    for i := 0 to |chunks|
      invariant ctx.Valid() && fresh(ctx) && fresh(ctx.state) && fresh(ctx.buffer)
      invariant ctx.message == Flatten(chunks[..i])
    {
      ctx.Update(chunks[i]);
      assert chunks[..i + 1][..i] == chunks[..i];
    }
    assert chunks[..|chunks|] == chunks;
    digest := ctx.Final();
  }

  /** Two messages below 2^61 bytes with one digest expose a collision of the compression function. */
  lemma DigestBinding(m: seq<u8>, m': seq<u8>)
    returns (i: nat, j: nat, s: seq<bv32>, a: seq<u8>, t: seq<bv32>, b: seq<u8>)
    requires |m| < TWO_TO_THE_61 && |m'| < TWO_TO_THE_61 && m != m' && Digest(m) == Digest(m')
    ensures OnChain(Compression(), BLOCK, IV, Pad(m, BLOCK, LENGTH_FIELD), i, s, a)
    ensures OnChain(Compression(), BLOCK, IV, Pad(m', BLOCK, LENGTH_FIELD), j, t, b)
    ensures (s, a) != (t, b) && Compress(s, a) == Compress(t, b)
  {
    ChainLength(IV, Pad(m, BLOCK, LENGTH_FIELD));
    ChainLength(IV, Pad(m', BLOCK, LENGTH_FIELD));
    BytesInjective(Hash(Compression(), BLOCK, LENGTH_FIELD, IV, m), Hash(Compression(), BLOCK, LENGTH_FIELD, IV, m'));
    assert Pow(0x100, LENGTH_FIELD) == TWO_TO_THE_64;
    i, j, s, a, t, b := Collision(Compression(), BLOCK, LENGTH_FIELD, IV, m, m');
  }
}
