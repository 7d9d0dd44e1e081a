/** The streaming SHA-512 context. */
module Sha512Context {
  import opened MachineInts
  import opened NumberTheory
  import opened MerkleDamgard
  import opened Memory
  import opened Streaming
  import opened Sha512

  class Context {
    const k: seq<bv64>
    const state: array<bv64>
    var count0: u64
    var count1: u64
    const buffer: array<u8>
    /** Everything fed to the context since it was created. */
    ghost var message: seq<u8>
    /** What long calls added to the high counter word beyond the bytes they brought. */
    ghost var excess: nat

    ghost predicate Valid()
      reads this, state, buffer
    {
      && |k| == 80 && state.Length == 8 && buffer.Length == BLOCK
      && state[..] == Chain(Compression(k), BLOCK, IV, message)
      && buffer[..|message| % BLOCK] == Tail(message, BLOCK)
      && Count(count0, count1) == Counted() % TWO_TO_THE_128
    }

    /** The number of bytes the counter stands for. */
    ghost function Counted(): nat
      reads this
    {
      |message| + TWO_TO_THE_64 * excess
    }

    constructor (k: seq<bv64>)
      requires |k| == 80
      ensures Valid() && fresh(state) && fresh(buffer) && message == [] && excess == 0 && this.k == k
    {
      this.k := k;
      state := new bv64[8](i requires 0 <= i < 8 => IV[i]);
      buffer := new u8[BLOCK](_ => 0);
      count0, count1 := 0, 0;
      message, excess := [], 0;
      new;
      hide Compress;
      assert state[..] == IV;
      assert Count(0, 0) == 0 == Counted();
    }

    /** The block transformation is the compression function. */
    method Transform(data: seq<u8>)
      requires |k| == 80 && state.Length == 8 && |data| == BLOCK
      modifies state
      ensures state[..] == Compress(k, old(state[..]), data)
    {
      var w := new bv64[80];
      FillSchedule(w, data);
      var v := RunRounds(k, w[..], Load(state[..]));
      AddWorking(state, v);
    }

    /** Feeding data appends it to the message. A call of 2^61 bytes or more also inflates the counter,
        by its top three bits in the high word. */
    method Update(data: seq<u8>)
      requires Valid() && |data| < TWO_TO_THE_64
      modifies this, state, buffer
      ensures Valid() && message == old(message) + data
      ensures excess == old(excess) + |data| / TWO_TO_THE_61
    {
      hide Compress, Chain, Tail, Count;
      ghost var m := message;
      var index := count0 as nat % BLOCK;
      CountModBlock(|m|, excess, count0, count1);
      Advanced(Counted(), count0, count1, |data|);
      AddToCount(|data| as u64);
      message, excess := message + data, excess + |data| / TWO_TO_THE_61;
      Absorb(m, index, data);
    }

    method Absorb(ghost m: seq<u8>, index: nat, data: seq<u8>)
      requires |k| == 80 && state.Length == 8 && buffer.Length == BLOCK && index == |m| % BLOCK
      requires state[..] == Chain(Compression(k), BLOCK, IV, m) && buffer[..index] == Tail(m, BLOCK)
      modifies state, buffer
      ensures state[..] == Chain(Compression(k), BLOCK, IV, m + data)
      ensures buffer[..|m + data| % BLOCK] == Tail(m + data, BLOCK)
    {
      hide Compress, Chain, Tail;
      var pos := 0;
      if index > 0 {
        var left := BLOCK - index;
        if |data| >= left {
          FillBlock(Compression(k), BLOCK, IV, m, data[..left]);
          CopyBytes(buffer, index, data[..left]);
          assert buffer[..] == Tail(m, BLOCK) + data[..left];
          Transform(buffer[..]);
          pos := left;
        } else {
          ShortUpdate(Compression(k), BLOCK, IV, m, data);
          CopyBytes(buffer, index, data);
          return;
        }
      } else {
        assert m + data[..pos] == m;
      }
      Blocks(m, data, pos);
    }

    method AddToCount(len: u64)
      modifies this`count0, this`count1
      ensures (count0, count1) == Advance(old(count0), old(count1), len as nat)
    {
      count0 := ((count0 as int + len as int) % TWO_TO_THE_64) as u64;
      if count0 < len {
        count1 := ((count1 as int + 1) % TWO_TO_THE_64) as u64;
      }
      count1 := ((count1 as int + (len / 0x2000_0000_0000_0000) as int) % TWO_TO_THE_64) as u64;
    }

    /** The block loop of an update, and the copy of what is left after it. */
    method Blocks(ghost m: seq<u8>, data: seq<u8>, start: nat)
      requires |k| == 80 && state.Length == 8 && buffer.Length == BLOCK && start <= |data|
      requires (|m| + start) % BLOCK == 0 && state[..] == Chain(Compression(k), BLOCK, IV, m + data[..start])
      modifies state, buffer
      ensures state[..] == Chain(Compression(k), BLOCK, IV, m + data)
      ensures buffer[..|m + data| % BLOCK] == Tail(m + data, BLOCK)
    {
      hide Compress;
      var pos := start;
      while |data| - pos >= BLOCK
        invariant pos <= |data| && (|m| + pos) % BLOCK == 0
        invariant state[..] == Chain(Compression(k), BLOCK, IV, m + data[..pos])
        modifies state
      {
        NextBlock(Compression(k), BLOCK, IV, m, data, pos);
        Transform(data[pos..pos + BLOCK]);
        pos := pos + BLOCK;
      }
      Remainder(Compression(k), BLOCK, IV, m, data, pos);
      if |data| - pos > 0 {
        CopyBytes(buffer, 0, data[pos..]);
      }
    }

    /** The marker and the zeros, in a block of their own when the length field does not fit behind them. */
    method PadTail()
      requires Valid()
      modifies state, buffer
      ensures var t := Tail(message, BLOCK) + [0x80];
              if |t| > 112 then
                buffer[..112] == Zeros(112) && state[..] == Compress(k, old(state[..]), t + Zeros(128 - |t|))
              else buffer[..112] == t + Zeros(112 - |t|) && state[..] == old(state[..])
    {
      hide Compress;
      var index := count0 as nat % BLOCK;
      CountModBlock(|message|, excess, count0, count1);
      buffer[index] := 0x80;
      index := index + 1;
      ghost var tail := Tail(message, BLOCK) + [0x80];
      assert buffer[..index] == tail;
      if index > 112 {
        ClearBytes(buffer, index, 128 - index);
        assert buffer[..] == tail + Zeros(128 - index);
        Transform(buffer[..]);
        index := 0;
      }
      ClearBytes(buffer, index, 112 - index);
    }

    /** The digest of the whole message, with the counter in the length field. */
    method Final() returns (digest: seq<u8>)
      requires Valid()
      modifies state, buffer
      ensures digest == CountedDigest(k, message, Counted())
      ensures excess % TWO_TO_THE_61 == 0 ==> digest == Digest(k, message)
    {
      hide CountedDigest, Digest, Compress, Chain, Bytes, BigEndian, Count;
      if excess % TWO_TO_THE_61 == 0 { ExactDigest(k, message, excess); }
      ghost var start := state[..];
      PadTail();
      ghost var padded := state[..];
      ghost var front := buffer[..112];
      WriteLength();
      LastBlock(k, message, Counted(), start, padded, front);
      Transform(buffer[..]);
      digest := Output();
    }

    /** The counted bit length in the last 16 bytes of the buffer. */
    method WriteLength()
      requires buffer.Length == BLOCK && Count(count0, count1) == Counted() % TWO_TO_THE_128
      modifies buffer
      ensures buffer[..] == old(buffer[..112]) + BigEndian(8 * Counted(), 16)
    {
      hide BigEndian, Count;
      LengthField(Counted(), count0, count1);
      // The low three bits of the shifted high word are free, so the bitwise or is a sum.
      WriteWords((count1 as int * 8) % TWO_TO_THE_64 + count0 as int / TWO_TO_THE_61,
                 (count0 as int * 8) % TWO_TO_THE_64);
    }

    method WriteWords(highBits: nat, lowBits: nat)
      requires buffer.Length == BLOCK
      modifies buffer
      ensures buffer[..] == old(buffer[..112]) + (BigEndian(highBits, 8) + BigEndian(lowBits, 8))
    {
      hide BigEndian;
      for i := 0 to 8
        invariant buffer[..112] == old(buffer[..112])
        invariant forall j :: 112 <= j < 112 + i ==> buffer[j] == BigEndian(highBits, 8)[j - 112]
        invariant forall j :: 120 <= j < 120 + i ==> buffer[j] == BigEndian(lowBits, 8)[j - 120]
      {
        BigEndianAt(highBits, 8, i);
        BigEndianAt(lowBits, 8, i);
        buffer[112 + i] := ((highBits / Pow(0x100, 7 - i)) % 0x100) as u8;
        buffer[120 + i] := ((lowBits / Pow(0x100, 7 - i)) % 0x100) as u8;
      }
    }

    method Output() returns (digest: seq<u8>)
      requires state.Length == 8
      ensures digest == Bytes(state[..])
    {
      digest := [];
      for i := 0 to 8
        invariant digest == Bytes(state[..i])
      {
        assert state[..i + 1][..i] == state[..i];
        digest := digest + WordBytes(state[i]);
      }
      assert state[..8] == state[..];
    }
  }

  /** What padding left in the buffer, completed by the length field, ends the hash. */
  lemma LastBlock(k: seq<bv64>, m: seq<u8>, total: nat, start: seq<bv64>, padded: seq<bv64>, front: seq<u8>)
    requires start == Chain(Compression(k), BLOCK, IV, m)
    requires var t := Tail(m, BLOCK) + [0x80];
             if |t| > 112 then front == Zeros(112) && padded == Compress(k, start, t + Zeros(128 - |t|))
             else front == t + Zeros(112 - |t|) && padded == start
    ensures Bytes(Compress(k, padded, front + BigEndian(8 * total, 16))) == CountedDigest(k, m, total)
  {
    hide Compress, Chain, Padding, Bytes, BigEndian, Zeros, Tail;
    FinalBlocks(Compression(k), BLOCK, LENGTH_FIELD, IV, m, total);
  }

  method FillSchedule(w: array<bv64>, data: seq<u8>)
    requires w.Length == 80 && |data| == BLOCK
    modifies w
    ensures w[..] == Schedule(data, 80)
  {
    hide Schedule, Add, Xor, Rotr, Shr, Word;
    ScheduleStep(data, 0);
    for t := 0 to 16
      invariant w[..t] == Schedule(data, t)
    {
      ScheduleStep(data, t);
      w[t] := Word(data[8 * t..8 * t + 8]);
      assert w[..t + 1] == w[..t] + [w[t]];
    }
    for t := 16 to 80
      invariant w[..t] == Schedule(data, t)
    {
      ScheduleStep(data, t);
      ghost var s := w[..t];
      w[t] := Add(Add(Add(SmallSigma1(w[t - 2]), w[t - 7]), SmallSigma0(w[t - 15])), w[t - 16]);
      assert w[..t + 1] == s + [w[t]];
    }
    assert w[..80] == w[..];
  }

  method RunRounds(k: seq<bv64>, w: seq<bv64>, start: Working) returns (v: Working)
    requires |k| == |w| == 80
    ensures v == Rounds(k, w, start, 80)
  {
    var a, b, c, d := start.a, start.b, start.c, start.d;
    var e, f, g, h := start.e, start.f, start.g, start.h;
    for i := 0 to 80
      invariant Working(a, b, c, d, e, f, g, h) == Rounds(k, w, start, i)
    {
      var t1 := Add(Add(Add(Add(h, BigSigma1(e)), Ch(e, f, g)), k[i]), w[i]);
      var t2 := Add(BigSigma0(a), Maj(a, b, c));
      h := g;
      g := f;
      f := e;
      e := Add(d, t1);
      d := c;
      c := b;
      b := a;
      a := Add(t1, t2);
    }
    v := Working(a, b, c, d, e, f, g, h);
  }

  method AddWorking(state: array<bv64>, v: Working)
    requires state.Length == 8
    modifies state
    ensures state[..] == AddState(old(state[..]), v)
  {
    hide Add;
    var w := Words(v);
    for i := 0 to 8
      invariant forall j :: 0 <= j < 8 ==> state[j] == if j < i then Add(old(state[j]), w[j]) else old(state[j])
    {
      state[i] := Add(state[i], w[i]);
    }
  }

  /** What a sequence of updates adds to the high counter word beyond the bytes they bring. */
  function Excess(chunks: seq<seq<u8>>): nat {
    if chunks == [] then 0 else Excess(chunks[..|chunks| - 1]) + |chunks[|chunks| - 1]| / TWO_TO_THE_61
  }

  /** Streaming over any division into updates: the digest of the concatenation, its length field off by
      the excess. Updates below 2^61 bytes each bring none, and streaming equals one-shot. */
  method HashChunks(k: seq<bv64>, chunks: seq<seq<u8>>) returns (digest: seq<u8>)
    requires |k| == 80 && forall i :: 0 <= i < |chunks| ==> |chunks[i]| < TWO_TO_THE_64
    ensures var m := Flatten(chunks); digest == CountedDigest(k, m, |m| + TWO_TO_THE_64 * Excess(chunks))
    ensures (forall i :: 0 <= i < |chunks| ==> |chunks[i]| < TWO_TO_THE_61) ==> digest == Digest(k, Flatten(chunks))
  {
    hide CountedDigest, Digest, Compress, Chain, Tail, Count;
    var ctx := new Context(k);
    for i := 0 to |chunks|
      invariant ctx.Valid() && fresh(ctx) && fresh(ctx.state) && fresh(ctx.buffer)
      invariant ctx.k == k && ctx.message == Flatten(chunks[..i]) && ctx.excess == Excess(chunks[..i])
      invariant (forall j :: 0 <= j < i ==> |chunks[j]| < TWO_TO_THE_61) ==> ctx.excess == 0
    {
      ctx.Update(chunks[i]);
      assert chunks[..i + 1][..i] == chunks[..i];
    }
    assert chunks[..|chunks|] == chunks;
    digest := ctx.Final();
  }

  const TWO_TO_THE_128: int := 0x1_0000000000000000_0000000000000000

  /** The 128-bit number in the two counter words. */
  function Count(count0: u64, count1: u64): nat { count0 as nat + TWO_TO_THE_64 * count1 as nat }

  /** The words an update leaves, in the arithmetic of the sources. */
  function Advance(count0: u64, count1: u64, len: nat): (u64, u64)
    requires len < TWO_TO_THE_64
  {
    var c0 := (count0 as int + len) % TWO_TO_THE_64;
    var c1 := (count1 as int + if c0 < len then 1 else 0) % TWO_TO_THE_64;
    (c0 as u64, ((c1 + len / TWO_TO_THE_61) % TWO_TO_THE_64) as u64)
  }

  /** An update counts its bytes, and its top three length bits once more in the high word. */
  lemma Advanced(total: nat, count0: u64, count1: u64, len: nat)
    requires Count(count0, count1) == total % TWO_TO_THE_128 && len < TWO_TO_THE_64
    ensures var (c0, c1) := Advance(count0, count1, len);
            Count(c0, c1) == (total + len + TWO_TO_THE_64 * (len / TWO_TO_THE_61)) % TWO_TO_THE_128
  {
    ModOfSum(total, len + TWO_TO_THE_64 * (len / TWO_TO_THE_61), TWO_TO_THE_128);
    AdvancedCount(count0 as int, count1 as int, len, len / TWO_TO_THE_61);
  }

  lemma AdvancedCount(c0: int, c1: int, len: int, extra: int)
    requires 0 <= c0 < TWO_TO_THE_64 && 0 <= c1 < TWO_TO_THE_64 && 0 <= len < TWO_TO_THE_64 && 0 <= extra < 8
    ensures var low := (c0 + len) % TWO_TO_THE_64;
            var high := (c1 + if low < len then 1 else 0) % TWO_TO_THE_64;
            low + TWO_TO_THE_64 * ((high + extra) % TWO_TO_THE_64)
            == (c0 + TWO_TO_THE_64 * c1 + (len + TWO_TO_THE_64 * extra)) % TWO_TO_THE_128
  {
    var carry := (c0 + len) / TWO_TO_THE_64;
    var low := (c0 + len) % TWO_TO_THE_64;
    ModOfSum(c1 + carry, extra, TWO_TO_THE_64);
    var high := c1 + carry + extra;
    var sum := c0 + TWO_TO_THE_64 * c1 + (len + TWO_TO_THE_64 * extra);
    DivModUnique(sum, high / TWO_TO_THE_64, low + TWO_TO_THE_64 * (high % TWO_TO_THE_64), TWO_TO_THE_128);
  }

  /** So the counter stays the exact byte count modulo 2^128 in just the calls below 2^61 bytes. */
  lemma CounterExactIff(total: nat, count0: u64, count1: u64, len: nat)
    requires Count(count0, count1) == total % TWO_TO_THE_128 && len < TWO_TO_THE_64
    ensures var (c0, c1) := Advance(count0, count1, len);
            Count(c0, c1) == (total + len) % TWO_TO_THE_128 <==> len < TWO_TO_THE_61
  {
    hide Advance, Count;
    Advanced(total, count0, count1, len);
    ShiftedResidue(total + len, len / TWO_TO_THE_61);
  }

  lemma ShiftedResidue(x: nat, extra: nat)
    requires extra < 8
    ensures (x + TWO_TO_THE_64 * extra) % TWO_TO_THE_128 == x % TWO_TO_THE_128 <==> extra == 0
  {
    var shift := TWO_TO_THE_64 * extra;
    var q, r := x / TWO_TO_THE_128, x % TWO_TO_THE_128;
    if r + shift < TWO_TO_THE_128 {
      DivModUnique(x + shift, q, r + shift, TWO_TO_THE_128);
    } else {
      DivModUnique(x + shift, q + 1, r + shift - TWO_TO_THE_128, TWO_TO_THE_128);
    }
  }

  /** The padded message is the standard one exactly when the excess is a multiple of 2^61. */
  lemma PaddingExactIff(m: seq<u8>, excess: nat)
    ensures Padding(|m|, BLOCK, LENGTH_FIELD, |m| + TWO_TO_THE_64 * excess) == Padding(|m|, BLOCK, LENGTH_FIELD, |m|)
            <==> excess % TWO_TO_THE_61 == 0
  {
    var v, w := 8 * (|m| + TWO_TO_THE_64 * excess), 8 * |m|;
    PowAdd(0x100, 8, 8);
    assert Pow(0x100, 8) == TWO_TO_THE_64;
    assert Pow(0x100, 16) == TWO_TO_THE_64 * TWO_TO_THE_64 == TWO_TO_THE_128;
    BigEndianMod(v, 16);
    BigEndianMod(w, 16);
    if BigEndian(v, 16) == BigEndian(w, 16) {
      BigEndianInjective(v % TWO_TO_THE_128, w % TWO_TO_THE_128, 16);
    }
    ExcessVanishes(w, excess);
    var p, q := Padding(|m|, BLOCK, LENGTH_FIELD, |m| + TWO_TO_THE_64 * excess), Padding(|m|, BLOCK, LENGTH_FIELD, |m|);
    assert p[|p| - 16..] == BigEndian(v, 16) && q[|q| - 16..] == BigEndian(w, 16);
  }

  lemma ExactDigest(k: seq<bv64>, m: seq<u8>, excess: nat)
    requires excess % TWO_TO_THE_61 == 0
    ensures CountedDigest(k, m, |m| + TWO_TO_THE_64 * excess) == Digest(k, m)
  {
    hide Padding, Chain, Compress, Bytes;
    PaddingExactIff(m, excess);
  }

  lemma ExcessVanishes(w: nat, excess: nat)
    ensures (w + 8 * TWO_TO_THE_64 * excess) % TWO_TO_THE_128 == w % TWO_TO_THE_128 <==> excess % TWO_TO_THE_61 == 0
  {
    var q, r := excess / TWO_TO_THE_61, excess % TWO_TO_THE_61;
    var a, b := w / TWO_TO_THE_128, w % TWO_TO_THE_128;
    var shift := 8 * TWO_TO_THE_64 * r;
    var x := w + 8 * TWO_TO_THE_64 * excess;
    assert x == (a + q) * TWO_TO_THE_128 + b + shift;
    if b + shift < TWO_TO_THE_128 {
      DivModUnique(x, a + q, b + shift, TWO_TO_THE_128);
    } else {
      DivModUnique(x, a + q + 1, b + shift - TWO_TO_THE_128, TWO_TO_THE_128);
    }
  }

  /** The low counter word still tells how full the buffer is. */
  lemma CountModBlock(len: nat, excess: nat, count0: u64, count1: u64)
    requires Count(count0, count1) == (len + TWO_TO_THE_64 * excess) % TWO_TO_THE_128
    ensures count0 as nat % BLOCK == len % BLOCK
  {
    var total := len + TWO_TO_THE_64 * excess;
    var high := TWO_TO_THE_64 * count1 as nat;
    ModOfMultiple(total, TWO_TO_THE_128 / BLOCK, BLOCK);
    ModOfSum(high, count0 as nat, BLOCK);
    DivModUnique(high, (TWO_TO_THE_64 / BLOCK) * count1 as nat, 0, BLOCK);
    ModOfSum(TWO_TO_THE_64 * excess, len, BLOCK);
    DivModUnique(TWO_TO_THE_64 * excess, (TWO_TO_THE_64 / BLOCK) * excess, 0, BLOCK);
  }

  /** The two shifted words are the 16 bytes of the bit length. */
  lemma LengthField(total: nat, count0: u64, count1: u64)
    requires Count(count0, count1) == total % TWO_TO_THE_128
    ensures (count1 as int * 8) % TWO_TO_THE_64 + count0 as int / TWO_TO_THE_61 < TWO_TO_THE_64
    ensures BigEndian((count1 as int * 8) % TWO_TO_THE_64 + count0 as int / TWO_TO_THE_61, 8)
            + BigEndian((count0 as int * 8) % TWO_TO_THE_64, 8) == BigEndian(8 * total, 16)
  {
    var v := 8 * total;
    assert Pow(0x100, 8) == TWO_TO_THE_64;
    BigEndianSplit(v, 8, 8);
    BigEndianMod(v, 8);
    BigEndianMod(v / TWO_TO_THE_64, 8);
    ShiftedCount(total / TWO_TO_THE_128, count0 as int, count1 as int, v);
  }

  lemma ShiftedCount(q: int, c0: int, c1: int, v: int)
    requires 0 <= c0 < TWO_TO_THE_64 && 0 <= c1 < TWO_TO_THE_64
    requires v == 8 * (q * TWO_TO_THE_128 + c0 + TWO_TO_THE_64 * c1)
    ensures v % TWO_TO_THE_64 == (c0 * 8) % TWO_TO_THE_64
    ensures (v / TWO_TO_THE_64) % TWO_TO_THE_64 == (c1 * 8) % TWO_TO_THE_64 + c0 / TWO_TO_THE_61 < TWO_TO_THE_64
  {
    var spill, low := c0 / TWO_TO_THE_61, (c0 * 8) % TWO_TO_THE_64;
    var top, high := (c1 * 8) / TWO_TO_THE_64, (c1 * 8) % TWO_TO_THE_64;
    assert c0 * 8 == spill * TWO_TO_THE_64 + low;
    assert c1 * 8 == top * TWO_TO_THE_64 + high;
    DivModUnique(v, (8 * q + top) * TWO_TO_THE_64 + high + spill, low, TWO_TO_THE_64);
    DivModUnique(v / TWO_TO_THE_64, 8 * q + top, high + spill, TWO_TO_THE_64);
  }
}
