/**
 Arithmetic modulo p = 2^255 - 19 on arrays of 16 limbs, updated in place.
 Every operation may be called with its output aliasing an input.
 */
module FieldOps {
  import opened MachineInts
  import opened NumberTheory
  import opened Limbs

  /** The largest limb the multiplier accepts. */
  const MUL_BOUND: int := 0x400_0000  // 2^26

  predicate Element(a: array<i64>)
    reads a
  {
    a.Length == 16 && Bounded(a[..], MUL_BOUND)
  }

  method Set(o: array<i64>, a: array<i64>)
    requires o.Length == a.Length == 16
    modifies o
    ensures o[..] == old(a[..])
  {
    for i := 0 to 16
      invariant forall k :: 0 <= k < i ==> o[k] == old(a[k])
      invariant forall k :: i <= k < 16 ==> a[k] == old(a[k])
    {
      o[i] := a[i];
    }
  }

  method Car25519(o: array<i64>)
    requires o.Length == 16 && Bounded(o[..], CARRY_BOUND)
    modifies o
    ensures o[..] == Carried(old(o[..]))
  {
    ghost var s := o[..];
    for i := 0 to 16
      invariant i > 0 ==> o[0] as int == Digit(s, 0) as int + if i == 16 then 38 * CarryInto(s, 16) else 0
      invariant forall k :: 1 <= k < i ==> o[k] == Digit(s, k)
      invariant i < 16 ==> o[i] as int == s[i] as int + CarryInto(s, i)
      invariant forall k :: i < k < 16 ==> o[k] == s[k]
    {
      SweepStep(s, i);
      assert o[i] as int == s[i] as int + CarryInto(s, i);
      o[i] := o[i] + 0x1_0000;
      var c := o[i] / 0x1_0000;
      assert c as int == CarryInto(s, i + 1) + 1;
      ghost var digit := o[i] - c * 0x1_0000;
      assert digit == Digit(s, i);
      if i < 15 {
        o[i + 1] := o[i + 1] + (c - 1);
      } else {
        o[0] := o[0] + (c - 1 + 37 * (c - 1));
      }
      o[i] := o[i] - c * 0x1_0000;
    }
    CarriedAre(s, o[..]);
  }

  lemma CarriedAre(s: seq<i64>, r: seq<i64>)
    requires |s| == |r| == 16 && Bounded(s, CARRY_BOUND)
    requires r[0] as int == Digit(s, 0) as int + 38 * CarryInto(s, 16)
    requires forall k :: 1 <= k < 16 ==> r[k] == Digit(s, k)
    ensures r == Carried(s)
  {
    hide CarryInto;
  }

  lemma SweepStep(s: seq<i64>, i: nat)
    requires |s| == 16 && Bounded(s, CARRY_BOUND) && i < 16
    ensures -0x8000_0000_0000 <= CarryInto(s, i) <= 0x8000_0000_0000
    ensures -0x8000_0000_0000 <= CarryInto(s, i + 1) <= 0x8000_0000_0000
    ensures s[i] as int + CarryInto(s, i) == CarryInto(s, i + 1) * RADIX + Digit(s, i) as int
    ensures 0 <= Digit(s, i) as int < RADIX
  {
    CarryBound(s, 0x4000_0000_0000, i);
    CarryBound(s, 0x4000_0000_0000, i + 1);
  }

  /** A result within 64 bits. */
  predicate Fits(x: int) { -0x8000_0000_0000_0000 <= x < 0x8000_0000_0000_0000 }

  method Add(o: array<i64>, a: array<i64>, b: array<i64>)
    requires o.Length == a.Length == b.Length == 16
    requires forall k :: 0 <= k < 16 ==> Fits(a[k] as int + b[k] as int)
    modifies o
    ensures forall k :: 0 <= k < 16 ==> o[k] as int == old(a[k]) as int + old(b[k]) as int
    ensures Val(o[..]) == old(Val(a[..])) + old(Val(b[..]))
  {
    for i := 0 to 16
      invariant forall k :: 0 <= k < i ==> o[k] as int == old(a[k]) as int + old(b[k]) as int
      invariant forall k :: i <= k < 16 ==> a[k] == old(a[k]) && b[k] == old(b[k])
    {
      o[i] := a[i] + b[i];
    }
    ValueLinear(o[..], old(a[..]), 1, old(b[..]), 16);
  }

  method Sub(o: array<i64>, a: array<i64>, b: array<i64>)
    requires o.Length == a.Length == b.Length == 16
    requires forall k :: 0 <= k < 16 ==> Fits(a[k] as int - b[k] as int)
    modifies o
    ensures forall k :: 0 <= k < 16 ==> o[k] as int == old(a[k]) as int - old(b[k]) as int
    ensures Val(o[..]) == old(Val(a[..])) - old(Val(b[..]))
  {
    for i := 0 to 16
      invariant forall k :: 0 <= k < i ==> o[k] as int == old(a[k]) as int - old(b[k]) as int
      invariant forall k :: i <= k < 16 ==> a[k] == old(a[k]) && b[k] == old(b[k])
    {
      o[i] := a[i] - b[i];
    }
    ValueLinear(o[..], old(a[..]), -1, old(b[..]), 16);
  }

  // ----- multiplication -----

  /** The part of the product summed when row i has been taken up to column j. */
  ghost function PartialProduct(a: seq<i64>, b: seq<i64>, i: nat, j: nat): int
    requires |a| == |b| == 16 && i < 16 && j <= 16
  {
    Value(a, i) * Val(b) + (a[i] as int * Weight(i)) * Value(b, j)
  }

  lemma PartialProductStep(a: seq<i64>, b: seq<i64>, i: nat, j: nat)
    requires |a| == |b| == 16 && i < 16 && j < 16
    ensures PartialProduct(a, b, i, j + 1)
         == PartialProduct(a, b, i, j) + (a[i] as int * b[j] as int) * Weight(i + j)
  {
    var x, y, u, v := a[i] as int, b[j] as int, Weight(i), Weight(j);
    PowAdd(RADIX, i, j);
    Distribute(x * u, Value(b, j), y * v);
    calc {
      (x * u) * (y * v);
      { Associate(x, u, y * v); Associate(u, y, v); }
      x * (y * (u * v));
      { Associate(x, y, u * v); }
      (x * y) * (u * v);
    }
  }

  lemma PartialProductRow(a: seq<i64>, b: seq<i64>, i: nat)
    requires |a| == |b| == 16 && i < 16
    ensures PartialProduct(a, b, i, 0) == Value(a, i) * Val(b)
    ensures PartialProduct(a, b, i, 16) == Value(a, i + 1) * Val(b)
  {
    assert (a[i] as int * Weight(i)) * Value(b, 0) == 0;
    Distribute(Val(b), Value(a, i), a[i] as int * Weight(i));
  }

  lemma LimbProduct(x: int, y: int)
    requires -MUL_BOUND <= x <= MUL_BOUND && -MUL_BOUND <= y <= MUL_BOUND
    ensures -0x10_0000_0000_0000 <= x * y <= 0x10_0000_0000_0000
  {
    ProductBound(x, y, MUL_BOUND, MUL_BOUND);
  }

  /** All 256 partial products, into 31 columns. */
  method Convolve(p: array<i64>, a: array<i64>, b: array<i64>)
    requires p.Length == 31 && p != a && p != b && Element(a) && Element(b)
    requires forall k :: 0 <= k < 31 ==> p[k] == 0
    modifies p
    ensures Val(p[..]) == Val(a[..]) * Val(b[..])
    ensures Bounded(p[..], 16 * 0x10_0000_0000_0000)
  {
    ghost var va, vb := a[..], b[..];
    ZeroValue(p[..], 31);
    assert Value(va, 0) * Val(vb) == 0;
    hide Value, Weight, PartialProduct;
    for i := 0 to 16
      invariant Val(p[..]) == Value(va, i) * Val(vb)
      invariant Bounded(p[..], i * 0x10_0000_0000_0000)
    {
      PartialProductRow(va, vb, i);
      for j := 0 to 16
        invariant Val(p[..]) == PartialProduct(va, vb, i, j)
        invariant Bounded(p[..], (i + 1) * 0x10_0000_0000_0000)
        invariant forall k :: i + j <= k < 31 ==> -i * 0x10_0000_0000_0000 <= p[k] as int <= i * 0x10_0000_0000_0000
      {
        assert va[i] == a[i] && vb[j] == b[j];
        LimbProduct(a[i] as int, b[j] as int);
        PartialProductStep(va, vb, i, j);
        ghost var was := p[..];
        p[i + j] := p[i + j] + a[i] * b[j];
        assert p[i + j] as int - was[i + j] as int == va[i] as int * vb[j] as int;
        assert p[..] == was[i + j := p[i + j]];
        ValueUpdate(was, i + j, p[i + j], 31);
      }
    }
  }

  lemma {:induction false} ZeroValue(s: seq<i64>, n: nat)
    requires n <= |s| && forall k :: 0 <= k < |s| ==> s[k] == 0
    ensures Value(s, n) == 0
  {
    if n == 0 {
    } else {
      ZeroValue(s, n - 1);
    }
  }

  /** Folding the upper 15 columns down with factor 38 keeps the residue. */
  lemma FoldValue(p: seq<i64>, q: seq<i64>)
    requires |p| == 31 && |q| == 16 && q[15] == p[15]
    requires forall k :: 0 <= k < 15 ==> q[k] as int == p[k] as int + 38 * p[k + 16] as int
    ensures Cong(Val(q), Val(p), P)
  {
    var high := p[16..];
    ValueSplit(p, 16, 15);
    ValueLinear(q, p, 38, high, 15);
    Weight16();
    var h := Value(high, 15);
    assert Val(q) == Value(p, 16) + 38 * h;
    CongIntro(Val(q), Val(p), -2 * h, P);
  }

  /** The fold in place. */
  method FoldColumns(p: array<i64>)
    requires p.Length == 31 && Bounded(p[..], 16 * 0x10_0000_0000_0000)
    modifies p
    ensures Bounded(p[..], 39 * 16 * 0x10_0000_0000_0000) && p[15] == old(p[15])
    ensures forall k :: 0 <= k < 15 ==> p[k] as int == old(p[k]) as int + 38 * old(p[k + 16]) as int
  {
    for i := 0 to 15
      invariant forall k :: 0 <= k < i ==> p[k] as int == old(p[k]) as int + 38 * old(p[k + 16]) as int
      invariant forall k :: i <= k < 31 ==> p[k] == old(p[k])
      invariant Bounded(p[..], 39 * 16 * 0x10_0000_0000_0000)
    {
      p[i] := p[i] + 38 * p[i + 16];
    }
  }

  method Mul(o: array<i64>, a: array<i64>, b: array<i64>)
    requires o.Length == 16 && Element(a) && Element(b)
    modifies o
    ensures Reduced(o[..]) && Element(o)
    ensures Cong(Val(o[..]), old(Val(a[..])) * old(Val(b[..])), P)
  {
    hide Val;
    var p := new i64[31](_ => 0);
    Convolve(p, a, b);
    ghost var s := p[..];
    FoldColumns(p);
    for i := 0 to 16
      invariant forall k :: 0 <= k < i ==> o[k] == p[k]
      modifies o
    {
      o[i] := p[i];
    }
    ghost var q := o[..];
    FoldValue(s, q);
    CarriedTwice(q);
    Car25519(o);
    Car25519(o);
    CongTrans(Val(o[..]), Val(q), Val(s), P);
  }

  method Sq(o: array<i64>, a: array<i64>)
    requires o.Length == 16 && Element(a)
    modifies o
    ensures Reduced(o[..]) && Element(o)
    ensures Cong(Val(o[..]), old(Val(a[..])) * old(Val(a[..])), P)
  {
    Mul(o, a, a);
  }

  // ----- the fixed power -----

  /** (p - 5) / 8, which is 2^252 - 3. */
  ghost function Exponent(): (e: nat)
    ensures 8 * e + 5 == P
  {
    assert 8 * ((P - 5) / 8) + 5 == P;
    var e: nat :| 8 * e + 5 == P;
    e
  }

  /** The exponent reached after k turns. Turn k runs with a == 251 - k and multiplies unless a is 1. */
  ghost function LadderExponent(k: nat): nat {
    if k == 0 then 1 else 2 * LadderExponent(k - 1) + if 251 - k == 1 then 0 else 1
  }

  lemma {:induction false} LadderPrefix(k: nat)
    requires k < 250
    ensures LadderExponent(k) == Pow(2, k + 1) - 1
  {
    if k == 0 {
    } else {
      LadderPrefix(k - 1);
    }
  }

  // Turn 251 is written 2 * k == 502: with the number 251 itself in sight the verifier would unroll
  // the recursion over all turns.

  lemma LadderEnd(k: nat)
    requires 2 * k == 502
    ensures LadderExponent(k) == Exponent()
  {
    LadderPrefix(k - 2);
    LadderTail(k, Pow(2, k - 1));
    TwoToThe250(k - 1);
  }

  lemma LadderTail(k: nat, w: int)
    requires 2 * k == 502 && LadderExponent(k - 2) == w - 1
    ensures LadderExponent(k) == 4 * w - 3
  {
    assert LadderExponent(k - 1) == 2 * LadderExponent(k - 2);
  }

  lemma TwoToThe250(n: nat)
    requires 2 * n == 500
    ensures 64 * Pow(2, n) == TWO_TO_THE_256
  {
    PowAdd(2, n, 6);
    TwoToThe256();
  }

  lemma TwoToThe256()
    ensures Pow(2, 256) == TWO_TO_THE_256 && Pow(2, 6) == 64
  {
    PowPow(2, 4, 4);
    PowPow(2, 16, 16);
    Weight16();
  }

  lemma LadderSquare(x: int, was: int, v: int, e: nat)
    requires Cong(was, Pow(v, e), P) && Cong(x, was * was, P)
    ensures Cong(x, Pow(v, 2 * e), P)
  {
    CongMul(was, Pow(v, e), was, Pow(v, e), P);
    PowAdd(v, e, e);
    CongTrans(x, was * was, Pow(v, 2 * e), P);
  }

  lemma LadderMultiply(x: int, was: int, v: int, e: nat)
    requires Cong(was, Pow(v, e), P) && Cong(x, was * v, P)
    ensures Cong(x, Pow(v, e + 1), P)
  {
    CongIntro(v, v, 0, P);
    CongMul(v, v, was, Pow(v, e), P);
    CongTrans(x, was * v, Pow(v, e + 1), P);
  }

  /** One turn of the ladder: square, then multiply by the base except at a == 1. */
  method LadderTurn(c: array<i64>, i: array<i64>, a: int, ghost v: int, ghost e: nat)
    requires c != i && Element(c) && Element(i) && v == Val(i[..]) && Cong(Val(c[..]), Pow(v, e), P)
    modifies c
    ensures Element(c) && Reduced(c[..])
    ensures Cong(Val(c[..]), Pow(v, 2 * e + if a == 1 then 0 else 1), P)
  {
    ghost var was := Val(c[..]);
    Sq(c, c);
    LadderSquare(Val(c[..]), was, v, e);
    if a != 1 {
      was := Val(c[..]);
      Mul(c, c, i);
      LadderMultiply(Val(c[..]), was, v, 2 * e);
    }
  }

  method Pow2523(o: array<i64>, i: array<i64>)
    requires o.Length == 16 && Element(i)
    modifies o
    ensures Reduced(o[..]) && Element(o)
    ensures Cong(Val(o[..]), Pow(old(Val(i[..])), Exponent()), P)
  {
    hide Val, Pow;
    var c := new i64[16];
    Set(c, i);
    ghost var base := i[..];
    ghost var v := Val(base);
    LadderStart(v, Val(c[..]));
    ghost var k := 0;
    var a := 250;
    while a >= 0
      invariant k + a == 250 && a >= -1 && k >= 0
      invariant i[..] == base
      invariant Element(c) && Cong(Val(c[..]), Pow(v, LadderExponent(k)), P)
      invariant k > 0 ==> Reduced(c[..])
      modifies c
    {
      LadderTurn(c, i, a, v, LadderExponent(k));
      k := k + 1;
      a := a - 1;
    }
    LadderEnd(k);
    Set(o, c);
  }

  lemma LadderStart(v: int, x: int)
    requires x == v
    ensures Cong(x, Pow(v, LadderExponent(0)), P)
  {
    var e := LadderExponent(0);
    assert Pow(v, e) == v * Pow(v, e - 1) == v;
    CongIntro(v, Pow(v, e), 0, P);
  }
}
