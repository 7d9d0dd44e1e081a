/**
 Iterated hashing as FIPS 180-4 defines it (sections 5.1 and 6): the message is padded to
 whole blocks ending in its bit length, and a compression function is folded over the blocks.
 Stated for any compression function, block length n and length field of l bytes.
 */
module MerkleDamgard {
  import opened MachineInts
  import opened NumberTheory

  /** Folds f over the whole blocks of data; bytes short of a block at the end are ignored. */
  function Chain<S>(f: (S, seq<u8>) -> S, n: nat, s: S, data: seq<u8>): S
    requires n > 0
    decreases |data|
  {
    if |data| < n then s else Chain(f, n, f(s, data[..n]), data[n..])
  }

  /** The l low bytes of v, most significant first. */
  function BigEndian(v: nat, l: nat): (b: seq<u8>)
    ensures |b| == l
  {
    if l == 0 then [] else BigEndian(v / 0x100, l - 1) + [(v % 0x100) as u8]
  }

  function Zeros(k: nat): seq<u8> { seq(k, _ => 0 as u8) }

  /** The least number of zeros that completes the last block. */
  function ZeroCount(len: nat, n: nat, l: nat): (k: nat)
    requires n > 0
    ensures k < n && (len + 1 + k + l) % n == 0
  {
    var r := (len + 1 + l) % n;
    var k := if r == 0 then 0 else n - r;
    var q := (len + 1 + l) / n;
    assert len + 1 + l == q * n + r;
    Distribute(n, q, 1);
    DivModUnique(len + 1 + k + l, if r == 0 then q else q + 1, 0, n);
    k
  }

  /** The marker, the zeros and a length field that claims total bytes. */
  function Padding(len: nat, n: nat, l: nat, total: nat): seq<u8>
    requires n > 0
  {
    [0x80] + Zeros(ZeroCount(len, n, l)) + BigEndian(8 * total, l)
  }

  function Pad(m: seq<u8>, n: nat, l: nat): (p: seq<u8>)
    requires n > 0
    ensures |p| % n == 0
  {
    m + Padding(|m|, n, l, |m|)
  }

  function Hash<S>(f: (S, seq<u8>) -> S, n: nat, l: nat, iv: S, m: seq<u8>): S
    requires n > 0
  {
    Chain(f, n, iv, Pad(m, n, l))
  }

  // ----- chaining -----

  lemma LessOneBlock(len: int, n: nat)
    requires n > 0 && len >= n
    ensures (len - n) % n == len % n && (len - n) / n == len / n - 1
  {
    Distribute(n, len / n, 1);
    DivModUnique(len - n, len / n - 1, len % n, n);
  }

  lemma {:induction false} ChainConcat<S>(f: (S, seq<u8>) -> S, n: nat, s: S, a: seq<u8>, b: seq<u8>)
    requires n > 0 && |a| % n == 0
    ensures Chain(f, n, s, a + b) == Chain(f, n, Chain(f, n, s, a), b)
    decreases |a|
  {
    if |a| < n {
      DivModUnique(|a|, 0, |a|, n);
      assert a + b == b;
    } else {
      LessOneBlock(|a|, n);
      assert (a + b)[..n] == a[..n] && (a + b)[n..] == a[n..] + b;
      ChainConcat(f, n, f(s, a[..n]), a[n..], b);
    }
  }

  lemma ChainBlock<S>(f: (S, seq<u8>) -> S, n: nat, s: S, a: seq<u8>, b: seq<u8>)
    requires n > 0 && |a| % n == 0 && |b| == n
    ensures Chain(f, n, s, a + b) == f(Chain(f, n, s, a), b)
  {
    ChainConcat(f, n, s, a, b);
    assert b[..n] == b;
    assert Chain(f, n, f(Chain(f, n, s, a), b), b[n..]) == f(Chain(f, n, s, a), b);
  }

  lemma {:induction false} ChainTail<S>(f: (S, seq<u8>) -> S, n: nat, s: S, a: seq<u8>, b: seq<u8>)
    requires n > 0 && |a| % n == 0 && |b| < n
    ensures Chain(f, n, s, a + b) == Chain(f, n, s, a)
  {
    ChainConcat(f, n, s, a, b);
  }

  // ----- the length field -----

  lemma {:induction false} BigEndianAt(v: nat, l: nat, i: nat)
    requires i < l
    ensures Pow(0x100, l - 1 - i) > 0
    ensures BigEndian(v, l)[i] as int == (v / Pow(0x100, l - 1 - i)) % 0x100
  {
    PowPositive(0x100, l - 1 - i);
    if i == l - 1 {
    } else {
      BigEndianAt(v / 0x100, l - 1, i);
      DivTwice(v, 0x100, Pow(0x100, l - 2 - i));
    }
  }

  lemma DivTwice(v: nat, a: nat, b: nat)
    requires a > 0 && b > 0
    ensures a * b > 0 && v / a / b == v / (a * b)
  {
    var q, r := v / a, v % a;
    var t, u := q / b, q % b;
    assert v == q * a + r && q == t * b + u;
    Distribute(a, t * b, u);
    Associate(t, b, a);
    Monotone(u, b - 1, a);
    Distribute(a, b, 1);
    DivModUnique(v, t, u * a + r, a * b);
  }

  /** Only the residue of v modulo 256^l shows. */
  lemma {:induction false} BigEndianMod(v: nat, l: nat)
    ensures Pow(0x100, l) > 0 && BigEndian(v % Pow(0x100, l), l) == BigEndian(v, l)
  {
    PowPositive(0x100, l);
    if l == 0 {
    } else {
      BigEndianMod(v / 0x100, l - 1);
      LowAndHigh(v, Pow(0x100, l - 1));
    }
  }

  lemma LowAndHigh(v: nat, p: nat)
    requires p > 0
    ensures (v % (0x100 * p)) / 0x100 == (v / 0x100) % p && (v % (0x100 * p)) % 0x100 == v % 0x100
  {
    var w, d := v / 0x100, v % 0x100;
    var q, r := w / p, w % p;
    assert v == w * 0x100 + d && w == q * p + r;
    Associate(q, 0x100, p);
    DivModUnique(v, q, r * 0x100 + d, 0x100 * p);
    DivModUnique(r * 0x100 + d, r, d, 0x100);
  }

  lemma {:induction false} BigEndianSplit(v: nat, a: nat, b: nat)
    ensures Pow(0x100, b) > 0 && BigEndian(v, a + b) == BigEndian(v / Pow(0x100, b), a) + BigEndian(v, b)
    decreases b
  {
    PowPositive(0x100, b);
    if b == 0 {
    } else {
      BigEndianSplit(v / 0x100, a, b - 1);
      DivTwice(v, 0x100, Pow(0x100, b - 1));
    }
  }

  lemma {:induction false} BigEndianInjective(v: nat, w: nat, l: nat)
    requires v < Pow(0x100, l) && w < Pow(0x100, l) && BigEndian(v, l) == BigEndian(w, l)
    ensures v == w
  {
    if l == 0 {
    } else {
      var b, c := BigEndian(v, l), BigEndian(w, l);
      assert b[..l - 1] == BigEndian(v / 0x100, l - 1) && c[..l - 1] == BigEndian(w / 0x100, l - 1);
      assert b[l - 1] as int == v % 0x100 && c[l - 1] as int == w % 0x100;
      BigEndianInjective(v / 0x100, w / 0x100, l - 1);
    }
  }

  // ----- padding is injective and the chain is binding -----

  lemma PadEnd(m: seq<u8>, n: nat, l: nat)
    requires 0 < l <= n
    ensures |Pad(m, n, l)| >= n && Pad(m, n, l)[|Pad(m, n, l)| - l..] == BigEndian(8 * |m|, l)
  {
    var p := Pad(m, n, l);
    if |p| < n { DivModUnique(|p|, 0, |p|, n); }
  }

  lemma PadInjective(a: seq<u8>, b: seq<u8>, n: nat, l: nat)
    requires 0 < l <= n && 8 * |a| < Pow(0x100, l) && 8 * |b| < Pow(0x100, l)
    requires Pad(a, n, l) == Pad(b, n, l)
    ensures a == b
  {
    PadEnd(a, n, l);
    PadEnd(b, n, l);
    BigEndianInjective(8 * |a|, 8 * |b|, l);
    assert a == Pad(a, n, l)[..|a|] && b == Pad(b, n, l)[..|b|];
  }

  /** Step i of hashing p: the state before block i and that block. */
  ghost predicate OnChain<S>(f: (S, seq<u8>) -> S, n: nat, iv: S, p: seq<u8>, i: nat, s: S, block: seq<u8>)
    requires n > 0
  {
    var start := i * n;
    0 <= start && start + n <= |p| && block == p[start..start + n] && s == Chain(f, n, iv, p[..start])
  }

  /** Two equally long block strings with one final state: walking back finds where the inputs part. */
  lemma {:induction false} WalkBack<S>(f: (S, seq<u8>) -> S, n: nat, iv: S, p: seq<u8>, q: seq<u8>, k: nat)
    returns (i: nat, s: S, a: seq<u8>, t: S, b: seq<u8>)
    requires n > 0 && |p| == |q| == k * n && p != q
    requires Chain(f, n, iv, p) == Chain(f, n, iv, q)
    ensures OnChain(f, n, iv, p, i, s, a) && OnChain(f, n, iv, q, i, t, b)
    ensures (s, a) != (t, b) && f(s, a) == f(t, b)
    decreases k
  {
    assert k == 0 ==> |p| == |q| == 0;
    i := k - 1;
    var start := i * n;
    Distribute(n, k, 1);
    Monotone(0, i, n);
    DivModUnique(start, i, 0, n);
    a, b := p[start..], q[start..];
    s, t := Chain(f, n, iv, p[..start]), Chain(f, n, iv, q[..start]);
    assert p == p[..start] + a && q == q[..start] + b;
    ChainBlock(f, n, iv, p[..start], a);
    ChainBlock(f, n, iv, q[..start], b);
    if s == t && a == b {
      i, s, a, t, b := WalkBack(f, n, iv, p[..start], q[..start], k - 1);
      StillOnChain(f, n, iv, p, start, i, s, a);
      StillOnChain(f, n, iv, q, start, i, t, b);
    }
  }

  lemma StillOnChain<S>(f: (S, seq<u8>) -> S, n: nat, iv: S, p: seq<u8>, cut: nat, i: nat, s: S, block: seq<u8>)
    requires n > 0 && cut <= |p| && OnChain(f, n, iv, p[..cut], i, s, block)
    ensures OnChain(f, n, iv, p, i, s, block)
  {
    var start := i * n;
    assert p[..cut][start..start + n] == p[start..start + n] && p[..cut][..start] == p[..start];
  }

  /** Merkle-Damgard: distinct messages with one hash hand over two distinct inputs, each on the
      path of its own message, that the compression function maps to the same state. */
  lemma Collision<S>(f: (S, seq<u8>) -> S, n: nat, l: nat, iv: S, m: seq<u8>, m': seq<u8>)
    returns (i: nat, j: nat, s: S, a: seq<u8>, t: S, b: seq<u8>)
    requires 0 < l <= n && 8 * |m| < Pow(0x100, l) && 8 * |m'| < Pow(0x100, l)
    requires m != m' && Hash(f, n, l, iv, m) == Hash(f, n, l, iv, m')
    ensures OnChain(f, n, iv, Pad(m, n, l), i, s, a) && OnChain(f, n, iv, Pad(m', n, l), j, t, b)
    ensures (s, a) != (t, b) && f(s, a) == f(t, b)
  {
    hide Pad, Chain;
    var p, q := Pad(m, n, l), Pad(m', n, l);
    if |m| == |m'| {
      var k := SameLengthPads(m, m', n, l);
      i, s, a, t, b := WalkBack(f, n, iv, p, q, k);
      j := i;
    } else {
      LastBlocksDiffer(m, m', n, l);
      i, s, a := LastStep(f, n, iv, p);
      j, t, b := LastStep(f, n, iv, q);
    }
  }

  lemma ExactQuotient(x: nat, n: nat) returns (k: nat)
    requires n > 0 && x % n == 0
    ensures x == k * n
  {
    k := x / n;
  }

  lemma SameLengthPads(m: seq<u8>, m': seq<u8>, n: nat, l: nat) returns (k: nat)
    requires n > 0 && |m| == |m'| && m != m'
    ensures |Pad(m, n, l)| == |Pad(m', n, l)| == k * n && Pad(m, n, l) != Pad(m', n, l)
  {
    hide Padding;
    var p, q := Pad(m, n, l), Pad(m', n, l);
    k := ExactQuotient(|p|, n);
    assert p[..|m|] == m && q[..|m|] == m';
  }

  lemma LastBlocksDiffer(m: seq<u8>, m': seq<u8>, n: nat, l: nat)
    requires 0 < l <= n && 8 * |m| < Pow(0x100, l) && 8 * |m'| < Pow(0x100, l) && |m| != |m'|
    ensures |Pad(m, n, l)| >= n && |Pad(m', n, l)| >= n
    ensures Pad(m, n, l)[|Pad(m, n, l)| - n..] != Pad(m', n, l)[|Pad(m', n, l)| - n..]
  {
    PadEnd(m, n, l);
    PadEnd(m', n, l);
    var p, q := Pad(m, n, l), Pad(m', n, l);
    assert p[|p| - n..][n - l..] == p[|p| - l..] && q[|q| - n..][n - l..] == q[|q| - l..];
    if BigEndian(8 * |m|, l) == BigEndian(8 * |m'|, l) { BigEndianInjective(8 * |m|, 8 * |m'|, l); }
  }

  lemma LastStep<S>(f: (S, seq<u8>) -> S, n: nat, iv: S, p: seq<u8>) returns (i: nat, s: S, a: seq<u8>)
    requires n > 0 && |p| >= n && |p| % n == 0
    ensures OnChain(f, n, iv, p, i, s, a) && f(s, a) == Chain(f, n, iv, p) && a == p[|p| - n..]
  {
    i := |p| / n - 1;
    LessOneBlock(|p|, n);
    var start := |p| - n;
    assert start == i * n;
    s, a := Chain(f, n, iv, p[..start]), p[start..];
    assert p == p[..start] + a;
    ChainBlock(f, n, iv, p[..start], a);
  }
}
