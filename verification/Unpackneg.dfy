/**
 The decompression routine over limb arrays, proved to compute the residues of module Decompression.
 */
module Unpackneg {
  import opened MachineInts
  import opened NumberTheory
  import opened Limbs
  import opened FieldOps
  import opened FieldBytes
  import opened Decompression

  /** Limbs a few additions away from a product: far below what the multiplier accepts. */
  predicate Small(a: array<i64>)
    reads a
  {
    a.Length == 16 && Bounded(a[..], 0x4_0000)
  }

  /** vo holds the product of numbers congruent to a and b. */
  lemma Product(vo: int, va: int, a: int, vb: int, b: int)
    requires Cong(vo, va * vb, P) && Cong(va, a, P) && Cong(vb, b, P)
    ensures Cong(vo, a * b, P)
  {
    CongMul(va, a, vb, b, P);
    CongTrans(vo, va * vb, a * b, P);
  }

  lemma {:induction false} UnitValue(s: seq<i64>, n: nat)
    requires 1 <= n <= |s| && forall k :: 1 <= k < |s| ==> s[k] == 0
    ensures Value(s, n) == s[0] as int
  {
    if n == 1 {
      assert Value(s, 0) == 0;
    } else {
      UnitValue(s, n - 1);
    }
  }

  /** num = y^2 - 1 and den = 1 + D y^2. */
  method Fraction(num: array<i64>, den: array<i64>, ry: array<i64>, d: array<i64>)
    requires num.Length == den.Length == 16 && num != den && num != ry && den != ry && num != d && den != d
    requires Element(ry) && Element(d)
    modifies num, den
    ensures Small(num) && Small(den)
    ensures Cong(Val(num[..]), Numerator(Val(ry[..])), P)
    ensures Cong(Val(den[..]), Denominator(Val(d[..]), Val(ry[..])), P)
  {
    var one := new i64[16](k => if k == 0 then 1 else 0);
    UnitValue(one[..], 16);
    ghost var y, c := Val(ry[..]), Val(d[..]);
    Sq(num, ry);
    ghost var square := Val(num[..]);
    Mul(den, num, d);
    CongIntro(c, c, 0, P);
    Product(Val(den[..]), square, y * y, c, c);
    ghost var product := Val(den[..]);
    Sub(num, num, one);
    Add(den, one, den);
    CongIntro(1, 1, 0, P);
    CongAdd(square, y * y, 1, 1, P);
    CongAdd(product, (y * y) * c, 1, 1, P);
  }

  /** The even powers of the denominator. */
  method DenominatorPowers(den6: array<i64>, den: array<i64>)
    requires den6.Length == 16 && Small(den) && den != den6
    modifies den6
    ensures Reduced(den6[..]) && Cong(Val(den6[..]), Pow(Val(den[..]), 6), P)
  {
    var den2, den4 := new i64[16], new i64[16];
    ghost var q := Val(den[..]);
    Sq(den2, den);
    Sq(den4, den2);
    Product(Val(den4[..]), Val(den2[..]), q * q, Val(den2[..]), q * q);
    Mul(den6, den4, den2);
    Product(Val(den6[..]), Val(den4[..]), (q * q) * (q * q), Val(den2[..]), q * q);
    PowAdd(q, 1, 1);
    PowAdd(q, 2, 2);
    PowAdd(q, 4, 2);
    assert Pow(q, 1) == q * Pow(q, 0) == q;
  }

  /** rx = num den^3 (num den^7)^((p-5)/8). */
  method CandidateRoot(rx: array<i64>, num: array<i64>, den: array<i64>)
    requires rx.Length == 16 && Small(num) && Small(den) && rx != num && rx != den && num != den
    modifies rx
    ensures Reduced(rx[..])
    ensures Cong(Val(rx[..]), Candidate(Val(num[..]), Val(den[..])), P)
  {
    var den6, t := new i64[16], new i64[16];
    ghost var n, q := Val(num[..]), Val(den[..]);
    CongIntro(n, n, 0, P);
    CongIntro(q, q, 0, P);
    DenominatorPowers(den6, den);
    Mul(t, den6, num);
    Product(Val(t[..]), Val(den6[..]), Pow(q, 6), n, n);
    ghost var was := Val(t[..]);
    Mul(t, t, den);
    Product(Val(t[..]), was, Pow(q, 6) * n, q, q);
    RadicandShape(n, q);
    ghost var u := Val(t[..]);
    Pow2523(t, t);
    CongPow(u, n * Pow(q, 7), Exponent(), P);
    ghost var w := Pow(n * Pow(q, 7), Exponent());
    CongTrans(Val(t[..]), Pow(u, Exponent()), w, P);
    was := Val(t[..]);
    Mul(t, t, num);
    Product(Val(t[..]), was, w, n, n);
    was := Val(t[..]);
    Mul(t, t, den);
    Product(Val(t[..]), was, w * n, q, q);
    was := Val(t[..]);
    Mul(t, t, den);
    Product(Val(t[..]), was, w * n * q, q, q);
    Mul(rx, t, den);
    Product(Val(rx[..]), Val(t[..]), w * n * q * q, q, q);
    CandidateShape(w, n, q);
  }

  lemma RadicandShape(n: int, q: int)
    ensures Pow(q, 6) * n * q == n * Pow(q, 7)
  {
    PowAdd(q, 6, 1);
    assert Pow(q, 1) == q * Pow(q, 0) == q;
    Associate(n, Pow(q, 6), q);
  }

  lemma CandidateShape(w: int, n: int, q: int)
    ensures w * n * q * q * q == w * (n * Pow(q, 3))
  {
    assert Pow(q, 3) == q * (q * q) by {
      PowAdd(q, 1, 2);
      PowAdd(q, 1, 1);
      assert Pow(q, 1) == q * Pow(q, 0) == q;
    }
    Associate(w * n * q, q, q);
    Associate(w * n, q, q * q);
    Associate(w, n, q * (q * q));
  }

  /** Tests the candidate against num and -num, multiplying by I in the second case. */
  method CheckRoot(rx: array<i64>, num: array<i64>, den: array<i64>, iroot: array<i64>, ghost d: int, ghost y: int)
    returns (r: int)
    requires Reduced(rx[..]) && Small(num) && Small(den) && Element(iroot)
    requires rx.Length == 16 && rx != num && rx != den && rx != iroot
    requires Cong(Val(num[..]), Numerator(y), P) && Cong(Val(den[..]), Denominator(d, y), P)
    requires Cong(Val(rx[..]), Candidate(Numerator(y), Denominator(d, y)), P)
    modifies rx
    ensures Reduced(rx[..])
    ensures r == if Decompresses(d, y) then 0 else -1
    ensures r == 0 ==> Cong(Val(rx[..]), Unsigned(d, Val(iroot[..]), y), P)
  {
    var chk, diff := new i64[16], new i64[16];
    ghost var n, q, x := Numerator(y), Denominator(d, y), Candidate(Numerator(y), Denominator(d, y));
    Sq(chk, rx);
    Product(Val(chk[..]), Val(rx[..]), x, Val(rx[..]), x);
    ghost var was := Val(chk[..]);
    Mul(chk, chk, den);
    Product(Val(chk[..]), was, x * x, Val(den[..]), q);
    ghost var vc, vn, vx := Val(chk[..]), Val(num[..]), Val(rx[..]);
    Sub(diff, chk, num);
    DifferenceTest(Val(diff[..]), vc, Check(n, q), vn, n);
    var different := IsNonzero(diff);
    if different {
      Add(diff, chk, num);
      SumTest(Val(diff[..]), vc, Check(n, q), vn, n);
      different := IsNonzero(diff);
      if different {
        return -1;
      }
      ghost var i := Val(iroot[..]);
      Mul(rx, rx, iroot);
      CongIntro(i, i, 0, P);
      Product(Val(rx[..]), vx, x, i, i);
    }
    return 0;
  }

  lemma DifferenceTest(v: int, vc: int, c: int, vn: int, n: int)
    requires v == vc - vn && Cong(vc, c, P) && Cong(vn, n, P)
    ensures Cong(v, 0, P) <==> Cong(c, n, P)
  {
    CongAdd(vc, c, vn, n, P);
    CongMod(v, c - n, P);
    CongMod(v, 0, P);
    CongMod(c - n, 0, P);
  }

  lemma SumTest(v: int, vc: int, c: int, vn: int, n: int)
    requires v == vc + vn && Cong(vc, c, P) && Cong(vn, n, P)
    ensures Cong(v, 0, P) <==> Cong(c, -n, P)
  {
    CongAdd(vn, n, vn, n, P);
    DifferenceTest(v, vc, c, -vn, -n);
  }

  /** The bit an encoding carries above y: the 32 bytes are the number y + 2^255 sign. */
  function SignBit(p: seq<u8>): (sign: int)
    requires |p| == 32
    ensures sign == 0 || sign == 1
    ensures ByteValue(p, 32) == Encoded(p) + sign * TWO_TO_THE_255 && 0 <= Encoded(p) < TWO_TO_THE_255
  {
    TopBitOfEncoding(p);
    p[31] as int / 0x80
  }

  lemma TopBitOfEncoding(p: seq<u8>)
    requires |p| == 32
    ensures ByteValue(p, 32) == Encoded(p) + (p[31] as int / 0x80) * TWO_TO_THE_255
    ensures 0 <= Encoded(p) < TWO_TO_THE_255
  {
    var w, sign, rest := Pow(0x100, 31), p[31] as int / 0x80, p[31] as int % 0x80;
    assert 0x80 * w == TWO_TO_THE_255 by { PowOf31(); }
    ByteValueRange(p, 31);
    assert ByteValue(p, 32) == ByteValue(p, 31) + p[31] as int * w;
    Distribute(w, 0x80 * sign, rest);
    Associate(sign, 0x80, w);
    Monotone(rest, 0x7f, w);
    DivModUnique(ByteValue(p, 32), sign, ByteValue(p, 31) + rest * w, TWO_TO_THE_255);
  }

  lemma PowOf31()
    ensures 0x80 * Pow(0x100, 31) == TWO_TO_THE_255
  {
    PowPow(0x100, 2, 16);
    assert Pow(0x100, 2) == RADIX;
    Weight16();
    assert Pow(0x100, 32) == 0x100 * Pow(0x100, 31);
  }

  /** The whole routine: 0 and a residue for x, or -1 when y is rejected. */
  method UnpackNeg(rx: array<i64>, ry: array<i64>, p: seq<u8>, d: array<i64>, iroot: array<i64>) returns (r: int)
    requires rx.Length == ry.Length == 16 && |p| == 32 && rx != ry
    requires Element(d) && Element(iroot) && rx != d && rx != iroot && ry != d && ry != iroot
    modifies rx, ry
    ensures Val(ry[..]) == Encoded(p) && Digits(ry[..])
    ensures r == if Decompresses(Val(d[..]), Encoded(p)) then 0 else -1
    ensures r == 0 ==>
              Val(rx[..]) % P == Recovered(Val(d[..]), Val(iroot[..]), Encoded(p), ByteValue(p, 32) / TWO_TO_THE_255)
    ensures Small(rx)
  {
    DivModUnique(ByteValue(p, 32), SignBit(p), Encoded(p), TWO_TO_THE_255);
    var num, den := new i64[16], new i64[16];
    Unpack(ry, p);
    ghost var y, dv, iv := Encoded(p), Val(d[..]), Val(iroot[..]);
    Fraction(num, den, ry, d);
    CandidateRoot(rx, num, den);
    CandidateCong(Val(num[..]), Numerator(y), Val(den[..]), Denominator(dv, y));
    CongTrans(Val(rx[..]), Candidate(Val(num[..]), Val(den[..])), Candidate(Numerator(y), Denominator(dv, y)), P);
    r := CheckRoot(rx, num, den, iroot, dv, y);
    if r == 0 {
      ApplySign(rx, p, Unsigned(dv, iv, y));
    }
  }

  /** Negates rx when the low bit of its packed form is not the top bit of the input. */
  method ApplySign(rx: array<i64>, p: seq<u8>, ghost u: int)
    requires Reduced(rx[..]) && rx.Length == 16 && |p| == 32 && Cong(Val(rx[..]), u, P)
    modifies rx
    ensures Small(rx)
    ensures Val(rx[..]) % P == if (u % P) % 2 == SignBit(p) then u % P else (-u) % P
  {
    var rxBytes := new u8[32];
    Pack(rxBytes, rx);
    ghost var x := Val(rx[..]);
    CongMod(x, u, P);
    LowBit(rxBytes[..], 32);
    if rxBytes[0] % 2 != p[31] / 0x80 {
      var zero := new i64[16](_ => 0);
      ZeroValue(zero[..], 16);
      Sub(rx, zero, rx);
      CongAdd(x, u, x, u, P);
      CongMod(-x, -u, P);
    }
  }

  lemma {:induction false} LowBit(b: seq<u8>, n: nat)
    requires 1 <= n <= |b|
    ensures ByteValue(b, n) % 2 == b[0] as int % 2
  {
    if n == 1 {
      assert ByteValue(b, 0) == 0 && Pow(0x100, 0) == 1;
    } else {
      LowBit(b, n - 1);
      var w := b[n - 1] as int * Pow(0x100, n - 2);
      Associate(b[n - 1] as int, 0x100, Pow(0x100, n - 2));
      assert ByteValue(b, n) == ByteValue(b, n - 1) + 0x100 * w;
    }
  }

  /** The encoding of section 5.1.2 of RFC 8032, y with the low bit of x on top, comes back as x in just
      the cases in which decompression lands on the curve. */
  lemma EncodedPointReturns(d: int, i: int, x: int, y: int, p: seq<u8>)
    requires Prime(P) && !(Cong(d, -1, P) && Cong(y * y, 1, P))
    requires 0 <= x < P && 0 <= y < P && OnCurve(d, x, y)
    requires |p| == 32 && ByteValue(p, 32) == y + (x % 2) * TWO_TO_THE_255
    ensures Encoded(p) == y && SignBit(p) == x % 2 && Decompresses(d, Encoded(p))
    ensures Recovered(d, i, Encoded(p), SignBit(p)) == x <==> Direct(d, y) || Cong(i * i, -1, P)
  {
    DivModUnique(ByteValue(p, 32), x % 2, y, TWO_TO_THE_255);
    DivModUnique(ByteValue(p, 32), SignBit(p), Encoded(p), TWO_TO_THE_255);
    InvertsCompression(d, i, x, y);
  }
}
