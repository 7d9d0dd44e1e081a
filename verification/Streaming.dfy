/**
 What a hash context that buffers a partial block relies on. A context has read the message m,
 holds the chaining state after its whole blocks and keeps the bytes left over, Tail(m).
 */
module Streaming {
  import opened MachineInts
  import opened NumberTheory
  import opened MerkleDamgard

  lemma SumWithin(a: nat, b: nat, n: nat)
    requires n > 0 && a % n + b < n
    ensures (a + b) % n == a % n + b
  {
    DivModUnique(a + b, a / n, a % n + b, n);
  }

  lemma SumComplete(a: nat, b: nat, n: nat)
    requires n > 0 && a % n + b == n
    ensures (a + b) % n == 0
  {
    Distribute(n, a / n, 1);
    DivModUnique(a + b, a / n + 1, 0, n);
  }

  lemma ModAtMost(a: nat, n: nat)
    requires n > 0
    ensures 0 <= a % n <= a && a % n < n && (a - a % n) % n == 0
  {
    DivModUnique(a - a % n, a / n, 0, n);
    Monotone(0, a / n, n);
  }

  function Tail(m: seq<u8>, n: nat): (t: seq<u8>)
    requires n > 0
    ensures |t| == |m| % n < n
  {
    ModAtMost(|m|, n);
    m[|m| - |m| % n..]
  }

  function Whole(m: seq<u8>, n: nat): (w: seq<u8>)
    requires n > 0
    ensures |w| % n == 0 && |w| == |m| - |m| % n && m == w + Tail(m, n)
  {
    ModAtMost(|m|, n);
    m[..|m| - |m| % n]
  }

  /** Pieces of a byte string put together again. */
  function Flatten(chunks: seq<seq<u8>>): seq<u8> {
    if chunks == [] then [] else Flatten(chunks[..|chunks| - 1]) + chunks[|chunks| - 1]
  }

  lemma ModOfSum(a: nat, b: nat, n: nat)
    requires n > 0
    ensures (a % n + b) % n == (a + b) % n
  {
    Distribute(n, a / n, (a % n + b) / n);
    DivModUnique(a + b, a / n + (a % n + b) / n, (a % n + b) % n, n);
  }

  /** A counter kept modulo a multiple of n still tells the length modulo n. */
  lemma ModOfMultiple(a: nat, k: nat, n: nat)
    requires k > 0 && n > 0
    ensures k * n > 0 && (a % (k * n)) % n == a % n
  {
    var q := a / (k * n);
    assert a == q * (k * n) + a % (k * n);
    Associate(q, k, n);
    DivModUnique(a, q * k + (a % (k * n)) / n, (a % (k * n)) % n, n) by {
      Distribute(n, q * k, (a % (k * n)) / n);
    }
  }

  lemma TailGrows(m: seq<u8>, data: seq<u8>, n: nat)
    requires n > 0 && |m| % n + |data| < n
    ensures Tail(m + data, n) == Tail(m, n) + data
  {
    SumWithin(|m|, |data|, n);
    assert |m + data| - |m + data| % n == |m| - |m| % n;
  }

  /** Data that does not complete the buffered block changes only the tail. */
  lemma ShortUpdate<S>(f: (S, seq<u8>) -> S, n: nat, iv: S, m: seq<u8>, data: seq<u8>)
    requires n > 0 && |m| % n + |data| < n
    ensures Tail(m + data, n) == Tail(m, n) + data
    ensures Chain(f, n, iv, m + data) == Chain(f, n, iv, m)
  {
    TailGrows(m, data, n);
    var whole := Whole(m, n);
    assert m + data == whole + (Tail(m, n) + data);
    ChainTail(f, n, iv, whole, Tail(m, n));
    ChainTail(f, n, iv, whole, Tail(m, n) + data);
  }

  /** Data that completes the buffered block. */
  lemma FillBlock<S>(f: (S, seq<u8>) -> S, n: nat, iv: S, m: seq<u8>, data: seq<u8>)
    requires n > 0 && |m| % n + |data| == n
    ensures (|m| + |data|) % n == 0
    ensures f(Chain(f, n, iv, m), Tail(m, n) + data) == Chain(f, n, iv, m + data)
  {
    SumComplete(|m|, |data|, n);
    var whole := Whole(m, n);
    var tail := Tail(m, n);
    assert m == whole + tail;
    assert m + data == whole + (tail + data);
    ChainTail(f, n, iv, whole, tail);
    ChainBlock(f, n, iv, whole, tail + data);
  }

  /** One more whole block of the data. */
  lemma NextBlock<S>(f: (S, seq<u8>) -> S, n: nat, iv: S, m: seq<u8>, data: seq<u8>, pos: nat)
    requires n > 0 && pos + n <= |data| && (|m| + pos) % n == 0
    ensures (|m| + pos + n) % n == 0
    ensures f(Chain(f, n, iv, m + data[..pos]), data[pos..pos + n]) == Chain(f, n, iv, m + data[..pos + n])
  {
    ModOfSum(|m| + pos, n, n);
    DivModUnique(n, 1, 0, n);
    assert m + data[..pos + n] == (m + data[..pos]) + data[pos..pos + n];
    ChainBlock(f, n, iv, m + data[..pos], data[pos..pos + n]);
  }

  /** The bytes after the last whole block. */
  lemma Remainder<S>(f: (S, seq<u8>) -> S, n: nat, iv: S, m: seq<u8>, data: seq<u8>, pos: nat)
    requires n > 0 && pos <= |data| < pos + n && (|m| + pos) % n == 0
    ensures Tail(m + data, n) == data[pos..]
    ensures Chain(f, n, iv, m + data[..pos]) == Chain(f, n, iv, m + data)
  {
    ModOfSum(|m| + pos, |data| - pos, n);
    DivModUnique(|data| - pos, 0, |data| - pos, n);
    assert m + data == (m + data[..pos]) + data[pos..];
    ChainTail(f, n, iv, m + data[..pos], data[pos..]);
  }

  /** Padding takes one block after the whole ones, or two when the length field no longer fits. */
  lemma FinalBlocks<S>(f: (S, seq<u8>) -> S, n: nat, l: nat, iv: S, m: seq<u8>, total: nat)
    requires 0 < l < n
    ensures var t := Tail(m, n) + [0x80]; var length := BigEndian(8 * total, l); var s := Chain(f, n, iv, m);
            Chain(f, n, iv, m + Padding(|m|, n, l, total)) ==
              if |t| > n - l then f(f(s, t + Zeros(n - |t|)), Zeros(n - l) + length)
              else f(s, t + Zeros(n - l - |t|) + length)
  {
    var t, length := Tail(m, n) + [0x80], BigEndian(8 * total, l);
    var whole := Whole(m, n);
    var z := ZeroCount(|m|, n, l);
    ChainTail(f, n, iv, whole, Tail(m, n));
    PadZeros(|m|, n, l);
    assert m + Padding(|m|, n, l, total) == whole + (t + Zeros(z) + length);
    if |t| > n - l {
      var first := t + Zeros(n - |t|);
      var second := Zeros(n - l) + length;
      assert t + Zeros(z) + length == first + second;
      assert whole + (first + second) == (whole + first) + second;
      ChainBlock(f, n, iv, whole, first);
      ModOfSum(|whole|, n, n);
      DivModUnique(n, 1, 0, n);
      ChainBlock(f, n, iv, whole + first, second);
    } else {
      ChainBlock(f, n, iv, whole, t + Zeros(z) + length);
    }
  }

  lemma PadZeros(len: nat, n: nat, l: nat)
    requires 0 < l < n
    ensures ZeroCount(len, n, l) == var t := len % n + 1; if t > n - l then 2 * n - l - t else n - l - t
  {
    var z, r := ZeroCount(len, n, l), len % n;
    ModOfSum(len, 1 + z + l, n);
    var s := r + 1 + z + l;
    if s == n { return; }
    if s == 2 * n { return; }
    if s < n { DivModUnique(s, 0, s, n); }
    else if s < 2 * n { DivModUnique(s, 1, s - n, n); }
    else { DivModUnique(s, 2, s - 2 * n, n); }
  }
}
