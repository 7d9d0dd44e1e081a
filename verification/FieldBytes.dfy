/**
 Field elements as 32 little-endian bytes: loading, and reduction to the one
 representative below p by masked conditional subtraction.
 */
module FieldBytes {
  import opened MachineInts
  import opened NumberTheory
  import opened Limbs
  import opened FieldOps

  const TWO_TO_THE_255: int := P + 19

  /** The little-endian value of the first n bytes. */
  function ByteValue(b: seq<u8>, n: nat): int
    requires n <= |b|
  {
    if n == 0 then 0 else ByteValue(b, n - 1) + b[n - 1] as int * Pow(0x100, n - 1)
  }

  /** Bytes and limbs agree when each limb holds two bytes. */
  predicate SameBytes(b: seq<u8>, s: seq<i64>) {
    |b| == 32 && |s| == 16 && forall k :: 0 <= k < 16 ==> s[k] as int == b[2 * k] as int + 0x100 * b[2 * k + 1] as int
  }

  lemma {:induction false} SameBytesValue(b: seq<u8>, s: seq<i64>, n: nat)
    requires SameBytes(b, s) && n <= 16
    ensures ByteValue(b, 2 * n) == Value(s, n)
  {
    if n == 0 {
    } else {
      SameBytesValue(b, s, n - 1);
      PowPow(0x100, 2, n - 1);
      assert Pow(0x100, 2) == RADIX;
      var x, y, w := b[2 * n - 2] as int, b[2 * n - 1] as int, Weight(n - 1);
      assert ByteValue(b, 2 * n - 1) == ByteValue(b, 2 * n - 2) + x * w;
      assert Pow(0x100, 2 * n - 1) == 0x100 * w;
      Associate(0x100, y, w);
      Associate(y, 0x100, w);
      Distribute(w, x, 0x100 * y);
    }
  }

  lemma {:induction false} ByteValueInjective(a: seq<u8>, b: seq<u8>, n: nat)
    requires n <= |a| && n <= |b| && ByteValue(a, n) == ByteValue(b, n)
    ensures a[..n] == b[..n]
  {
    if n == 0 {
    } else {
      ByteValueRange(a, n - 1);
      ByteValueRange(b, n - 1);
      var w := Pow(0x100, n - 1);
      DivModUnique(ByteValue(a, n), a[n - 1] as int, ByteValue(a, n - 1), w);
      DivModUnique(ByteValue(b, n), b[n - 1] as int, ByteValue(b, n - 1), w);
      ByteValueInjective(a, b, n - 1);
      assert a[..n] == a[..n - 1] + [a[n - 1]] && b[..n] == b[..n - 1] + [b[n - 1]];
    }
  }

  lemma {:induction false} ByteValueRange(b: seq<u8>, n: nat)
    requires n <= |b|
    ensures 0 <= ByteValue(b, n) < Pow(0x100, n)
  {
    if n == 0 {
    } else {
      ByteValueRange(b, n - 1);
      Monotone(b[n - 1] as int, 0xff, Pow(0x100, n - 1));
    }
  }

  /** The number a 32-byte string encodes when its top bit is set aside. */
  function Encoded(b: seq<u8>): int
    requires |b| == 32
  {
    ByteValue(b, 32) % TWO_TO_THE_255
  }

  method Unpack(o: array<i64>, n: seq<u8>)
    requires o.Length == 16 && |n| == 32
    modifies o
    ensures Digits(o[..]) && Element(o)
    ensures Val(o[..]) == Encoded(n)
  {
    for i := 0 to 16
      invariant forall k :: 0 <= k < i ==> o[k] as int == n[2 * k] as int + 0x100 * n[2 * k + 1] as int
    {
      o[i] := n[2 * i] as i64 + n[2 * i + 1] as i64 * 0x100;
    }
    ghost var s := o[..];
    o[15] := o[15] % 0x8000;
    TopBitCleared(n, s, o[..]);
  }

  lemma TopBitCleared(n: seq<u8>, s: seq<i64>, t: seq<i64>)
    requires SameBytes(n, s) && t == s[15 := s[15] % 0x8000]
    ensures Val(t) == Encoded(n)
    ensures n[31] < 0x80 <==> ByteValue(n, 32) < TWO_TO_THE_255
  {
    SameBytesValue(n, s, 16);
    ValueUpdate(s, 15, t[15], 16);
    DigitsValue(t, 15);
    Weight16();
    var w, q, r := Weight(15), s[15] as int / 0x8000, s[15] as int % 0x8000;
    assert RADIX * w == TWO_TO_THE_256;
    assert 0x8000 * w == TWO_TO_THE_255;
    Associate(q, 0x8000, w);
    Distribute(w, 0x8000 * q, r);
    Distribute(w, r, s[15] as int);
    ValuePrefix(s, t, 15);
    Monotone(r, 0x7fff, w);
    Distribute(w, 0x7fff, 1);
    DivModUnique(ByteValue(n, 32), q, Val(t), TWO_TO_THE_255);
    Monotone(q, 1, TWO_TO_THE_255);
  }

  // ----- reduction below p -----

  const PRIME_LIMBS: seq<i64> :=
    [0xffed, 0xffff, 0xffff, 0xffff, 0xffff, 0xffff, 0xffff, 0xffff,
     0xffff, 0xffff, 0xffff, 0xffff, 0xffff, 0xffff, 0xffff, 0x7fff]

  lemma {:induction false} AllOnes(s: seq<i64>, n: nat)
    requires n <= |s| && forall k :: 0 <= k < n ==> s[k] == 0xffff
    ensures Value(s, n) == Weight(n) - 1
  {
    if n == 0 {
    } else {
      AllOnes(s, n - 1);
    }
  }

  lemma PrimeLimbsValue()
    ensures Val(PRIME_LIMBS) == P
  {
    var ones := seq(16, _ => 0xffff as i64);
    var low := ones[0 := 0xffed];
    AllOnes(ones, 16);
    ValueUpdate(ones, 0, 0xffed, 16);
    ValueUpdate(low, 15, 0x7fff, 16);
    assert PRIME_LIMBS == low[15 := 0x7fff];
    TopLimbs(Weight(0), Weight(15), Weight(16)) by { Weight16(); }
  }

  lemma TopLimbs(w0: int, w15: int, w16: int)
    requires w0 == 1 && w16 == RADIX * w15 && w16 == TWO_TO_THE_256
    ensures w16 - 1 + (0xffed - 0xffff) * w0 + (0x7fff - 0xffff) * w15 == P
  {}

  /** Limb by limb difference with p, before borrows. */
  ghost function MinusPrime(t: seq<i64>): (d: seq<i64>)
    requires |t| == 16 && Digits(t)
    ensures |d| == 16
  {
    seq(16, i requires 0 <= i < 16 => t[i] - PRIME_LIMBS[i])
  }

  lemma MinusPrimeAt(t: seq<i64>, i: nat)
    requires |t| == 16 && Digits(t) && i < 16
    ensures MinusPrime(t)[i] == t[i] - if i == 0 then 0xffed else if i == 15 then 0x7fff else 0xffff
  {}

  lemma {:induction false} BorrowIsOneBit(t: seq<i64>, i: nat)
    requires |t| == 16 && Digits(t) && i <= 16
    ensures -1 <= CarryInto(MinusPrime(t), i) <= 0
  {
    if i == 0 {
    } else {
      BorrowIsOneBit(t, i - 1);
    }
  }

  /** The borrow out of the top limb tells whether t is below p; if not, the digits are those of t - p. */
  lemma BorrowOut(t: seq<i64>, m: seq<i64>)
    requires |t| == |m| == 16 && Digits(t) && forall k :: 0 <= k < 16 ==> m[k] == Digit(MinusPrime(t), k)
    ensures CarryInto(MinusPrime(t), 16) == if Val(t) < P then -1 else 0
    ensures Val(t) >= P ==> Val(m) == Val(t) - P
  {
    var d := MinusPrime(t);
    CarryValue(d, m, 16);
    PrimeLimbsValue();
    ValueLinear(d, t, -1, PRIME_LIMBS, 16);
    BorrowIsOneBit(t, 16);
    DigitsValue(t, 16);
    Weight16();
  }

  // ----- bitwise operators on two's complement, bit by bit from the lowest -----

  predicate AllSignBits(x: int) { x == 0 || x == -1 }

  function Xor(a: int, b: int): int
    decreases Abs(a) + Abs(b)
  {
    if AllSignBits(a) && AllSignBits(b) then (if a == b then 0 else -1)
    else 2 * Xor(a / 2, b / 2) + if a % 2 == b % 2 then 0 else 1
  }

  function And(a: int, b: int): int
    decreases Abs(a) + Abs(b)
  {
    if AllSignBits(a) && AllSignBits(b) then (if a == b then a else 0)
    else 2 * And(a / 2, b / 2) + if a % 2 == 1 && b % 2 == 1 then 1 else 0
  }

  lemma {:induction false} XorCancels(x: int, y: int)
    ensures Xor(x, Xor(x, y)) == y && Xor(x, 0) == x
    decreases Abs(x) + Abs(y)
  {
    if AllSignBits(x) && AllSignBits(y) {
    } else {
      XorCancels(x / 2, y / 2);
      assert Xor(x, y) / 2 == Xor(x / 2, y / 2);
    }
  }

  lemma {:induction false} AndMask(x: int)
    ensures And(-1, x) == x && And(0, x) == 0
    decreases Abs(x)
  {
    if AllSignBits(x) {
    } else {
      AndMask(x / 2);
    }
  }

  /** t ^ (mask & (t ^ m)): with mask 0 this keeps t, with mask -1 it takes m. */
  function MaskedSwap(t: i64, mask: i64, m: i64): (r: i64)
    requires mask == 0 || mask == -1
    ensures r == if mask == 0 then t else m
  {
    AndMask(Xor(t as int, m as int));
    XorCancels(t as int, m as int);
    Xor(t as int, And(mask as int, Xor(t as int, m as int))) as i64
  }

  /** m := t - p by borrowing; the mask is 0 exactly when that borrows out of the top limb. */
  method BorrowChain(m: array<i64>, t: array<i64>) returns (mask: i64)
    requires t.Length == m.Length == 16 && t != m && Digits(t[..])
    modifies m
    ensures mask == if Val(t[..]) < P then 0 else -1
    ensures mask == -1 ==> Digits(m[..]) && Val(m[..]) == Val(t[..]) - P
  {
    ghost var s := t[..];
    ghost var d := MinusPrime(s);
    hide MinusPrime, Val, CarryInto;
    MinusPrimeAt(s, 0);
    m[0] := t[0] - 0xffed;
    for i := 1 to 15
      invariant t[..] == s
      invariant forall k :: 0 <= k < i - 1 ==> m[k] == Digit(d, k)
      invariant m[i - 1] as int == d[i - 1] as int + CarryInto(d, i - 1)
    {
      BorrowBit(s, i - 1, m[i - 1]);
      MinusPrimeAt(s, i);
      assert t[i] == s[i];
      m[i] := t[i] - 0xffff - (m[i - 1] / 0x1_0000) % 2;
      m[i - 1] := m[i - 1] % 0x1_0000;
    }
    BorrowBit(s, 14, m[14]);
    MinusPrimeAt(s, 15);
    assert t[15] == s[15];
    m[15] := t[15] - 0x7fff - (m[14] / 0x1_0000) % 2;
    BorrowBit(s, 15, m[15]);
    var b := (m[15] / 0x1_0000) % 2;
    m[14] := m[14] % 0x1_0000;
    mask := b - 1;
    ghost var digits := m[..][15 := Digit(d, 15)];
    BorrowOut(s, digits);
    assert mask == -1 ==> m[..] == digits;
  }

  method SelectByMask(t: array<i64>, mask: i64, m: array<i64>)
    requires t.Length == m.Length == 16 && t != m && (mask == 0 || mask == -1)
    modifies t
    ensures t[..] == if mask == 0 then old(t[..]) else m[..]
  {
    for i := 0 to 16
      invariant forall k :: 0 <= k < i ==> t[k] == if mask == 0 then old(t[k]) else m[k]
      invariant forall k :: i <= k < 16 ==> t[k] == old(t[k])
    {
      t[i] := MaskedSwap(t[i], mask, m[i]);
    }
  }

  /** What the loop reads off an unmasked limb: its low 16 bits, and the borrow in bit 16. */
  lemma BorrowBit(t: seq<i64>, i: nat, raw: i64)
    requires |t| == 16 && Digits(t) && i < 16
    requires raw as int == MinusPrime(t)[i] as int + CarryInto(MinusPrime(t), i)
    ensures raw % 0x1_0000 == Digit(MinusPrime(t), i)
    ensures ((raw / 0x1_0000) % 2) as int == -CarryInto(MinusPrime(t), i + 1)
    ensures -0x1_0000 <= raw < 0x1_0000 && (i == 15 && raw >= 0 ==> raw <= 0x8000)
  {
    BorrowIsOneBit(t, i);
    BorrowIsOneBit(t, i + 1);
  }

  /** The packed form of v: its least non-negative residue, little-endian. */
  predicate Packs(b: seq<u8>, v: int) {
    |b| == 32 && ByteValue(b, 32) == v % P
  }

  method Pack(o: array<u8>, n: array<i64>)
    requires o.Length == 32 && n.Length == 16 && Bounded(n[..], CARRY_BOUND)
    modifies o
    ensures Packs(o[..], Val(n[..]))
  {
    var m, t := new i64[16], new i64[16];
    Set(t, n);
    ghost var s := n[..];
    CarriedThrice(s);
    Car25519(t);
    Car25519(t);
    Car25519(t);
    ghost var v := Val(t[..]);
    DigitsValue(t[..], 16);
    Weight16();
    for j := 0 to 2
      invariant Digits(t[..])
      invariant Val(t[..]) == if j > 0 && v >= P then (if j > 1 && v - P >= P then v - 2 * P else v - P) else v
      modifies t, m
    {
      var mask := BorrowChain(m, t);
      SelectByMask(t, mask, m);
    }
    StoreBytes(o, t);
    SameBytesValue(o[..], t[..], 16);
    Canonical(v, Val(t[..]), Val(s));
  }

  function ByteOf(s: seq<i64>, q: nat): u8
    requires |s| == 16 && Digits(s) && q < 32
  {
    (if q % 2 == 0 then s[q / 2] % 0x100 else s[q / 2] / 0x100) as u8
  }

  method StoreBytes(o: array<u8>, t: array<i64>)
    requires o.Length == 32 && t.Length == 16 && Digits(t[..])
    modifies o
    ensures SameBytes(o[..], t[..])
  {
    ghost var s := t[..];
    for i := 0 to 16
      invariant t[..] == s
      invariant forall q :: 0 <= q < 2 * i ==> o[q] == ByteOf(s, q)
      modifies o
    {
      assert t[i] == s[i];
      o[2 * i] := (t[i] % 0x100) as u8;
      o[2 * i + 1] := (t[i] / 0x100) as u8;
    }
    forall k | 0 <= k < 16
      ensures s[k] as int == o[2 * k] as int + 0x100 * o[2 * k + 1] as int
    {
      assert o[2 * k] == ByteOf(s, 2 * k) && o[2 * k + 1] == ByteOf(s, 2 * k + 1);
    }
  }

  /** Packing is canonical: equal bytes exactly for congruent elements. */
  lemma PackCanonical(a: seq<u8>, v: int, b: seq<u8>, w: int)
    requires Packs(a, v) && Packs(b, w)
    ensures a == b <==> Cong(v, w, P)
  {
    CongMod(v, w, P);
    if Cong(v, w, P) {
      ByteValueInjective(a, b, 32);
      assert a == a[..32] && b == b[..32];
    }
  }

  /** Unpacking what was packed returns the same element, now in canonical form. */
  lemma UnpackOfPack(b: seq<u8>, v: int)
    requires Packs(b, v)
    ensures Encoded(b) == v % P && Cong(Encoded(b), v, P)
  {
    DivModUnique(ByteValue(b, 32), 0, v % P, TWO_TO_THE_255);
    CongMod(v, v, P);
    CongSym(v, v % P, P);
  }

  lemma TopByteCleared(low: int, high: int)
    requires 0 <= low < 0x100 && 0 <= high < 0x100
    ensures (low + 0x100 * high) % 0x8000 == low + 0x100 * (high % 0x80)
  {
    DivModUnique(low + 0x100 * high, high / 0x80, low + 0x100 * (high % 0x80), 0x8000);
  }

  /** Packing what was unpacked clears the top bit, and reduces the 19 encodings that are not below p. */
  lemma PackOfUnpack(b: seq<u8>, c: seq<u8>)
    requires |b| == 32 && Packs(c, Encoded(b))
    ensures Encoded(b) < P ==> c == b[31 := b[31] % 0x80]
    ensures Encoded(b) >= P ==> ByteValue(c, 32) == Encoded(b) - P < 19
  {
    var s := seq(16, k requires 0 <= k < 16 => (b[2 * k] as int + 0x100 * b[2 * k + 1] as int) as i64);
    var t := s[15 := s[15] % 0x8000];
    var e := b[31 := b[31] % 0x80];
    assert SameBytes(b, s);
    TopBitCleared(b, s, t);
    TopByteCleared(b[30] as int, b[31] as int);
    assert SameBytes(e, t);
    SameBytesValue(e, t, 16);
    if Encoded(b) < P {
      DivModUnique(Encoded(b), 0, Encoded(b), P);
      ByteValueInjective(c, e, 32);
      assert c == c[..32] && e == e[..32];
    } else {
      DivModUnique(Encoded(b), 1, Encoded(b) - P, P);
    }
  }

  lemma Canonical(v: int, r: int, x: int)
    requires 0 <= v < TWO_TO_THE_256 && Cong(v, x, P)
    requires r == if v < P then v else if v < 2 * P then v - P else v - 2 * P
    ensures r == x % P
  {
    CongMod(v, x, P);
    DivModUnique(v, if v < P then 0 else if v < 2 * P then 1 else 2, r, P);
  }

  lemma {:induction false} ZeroBytes(b: seq<u8>, n: nat)
    requires n <= |b|
    ensures ByteValue(b, n) == 0 <==> forall k :: 0 <= k < n ==> b[k] == 0
  {
    if n == 0 {
    } else {
      ZeroBytes(b, n - 1);
      ByteValueRange(b, n - 1);
      PowPositive(0x100, n - 1);
      var x, w := b[n - 1] as int, Pow(0x100, n - 1);
      if x == 0 { assert x * w == 0; } else { Monotone(1, x, w); }
    }
  }

  function Or(a: int, b: int): int
    requires a >= 0 && b >= 0
    decreases a + b
  {
    if a == 0 && b == 0 then 0
    else 2 * Or(a / 2, b / 2) + if a % 2 == 1 || b % 2 == 1 then 1 else 0
  }

  lemma {:induction false} OrRange(a: int, b: int, n: nat)
    requires 0 <= a < Pow(2, n) && 0 <= b < Pow(2, n)
    ensures 0 <= Or(a, b) < Pow(2, n)
    ensures Or(a, b) == 0 <==> a == 0 && b == 0
    decreases n
  {
    if n == 0 {
    } else {
      OrRange(a / 2, b / 2, n - 1);
    }
  }

  function OrByte(a: u8, b: u8): (r: u8)
    ensures r == 0 <==> a == 0 && b == 0
  {
    assert Pow(2, 8) == 0x100;
    OrRange(a as int, b as int, 8);
    Or(a as int, b as int) as u8
  }

  method IsNonzero(a: array<i64>) returns (r: bool)
    requires a.Length == 16 && Bounded(a[..], CARRY_BOUND)
    ensures r <==> !Cong(Val(a[..]), 0, P)
  {
    var b := new u8[32];
    Pack(b, a);
    var diff := 0;
    for i := 0 to 32
      invariant diff == 0 <==> forall k :: 0 <= k < i ==> b[k] == 0
    {
      diff := OrByte(diff, b[i]);
    }
    CongMod(Val(a[..]), 0, P);
    ZeroBytes(b[..], 32);
    return diff != 0;
  }
}
