/**
 Point decompression: from the 32-byte encoding of y and a sign bit to x with
 x^2 (D y^2 + 1) = y^2 - 1 modulo p, following section 5.1.3 of RFC 8032.
 The curve constant D and the constant I that stands for a square root of -1 are parameters.
 */
module Decompression {
  import opened NumberTheory
  import opened Limbs
  import opened FieldOps

  function Numerator(y: int): int { y * y - 1 }

  function Denominator(d: int, y: int): int { (y * y) * d + 1 }

  /** (x, y) satisfies the curve equation with constant d, written without division. */
  predicate OnCurve(d: int, x: int, y: int) {
    Cong((x * x) * Denominator(d, y), Numerator(y), P)
  }

  /** That equation is the one of section 5.1 of RFC 8032, -x^2 + y^2 = 1 + d x^2 y^2. */
  lemma CurveEquation(d: int, x: int, y: int)
    ensures OnCurve(d, x, y) <==> Cong(-x * x + y * y, 1 + d * x * x * y * y, P)
  {
    var a, b := x * x, y * y;
    Distribute(a, b * d, 1);
    Associate(a, b, d);
    Associate(d, x, x);
    Associate(d * x * x, y, y);
    assert d * x * x * y * y == (a * b) * d by { Associate(d, a, b); }
    assert a * Denominator(d, y) - Numerator(y) == -((-x * x + y * y) - (1 + d * x * x * y * y));
    NegatedMultiple((-x * x + y * y) - (1 + d * x * x * y * y), P);
  }

  lemma NegatedMultiple(x: int, m: int)
    requires m > 0
    ensures (-x) % m == 0 <==> x % m == 0
  {
    NegatedResidue(x, m);
  }

  /** num den^3 (num den^7)^((p-5)/8), the candidate root of the standard. */
  ghost function Candidate(n: int, q: int): int {
    Pow(n * Pow(q, 7), Exponent()) * (n * Pow(q, 3))
  }

  ghost function Check(n: int, q: int): int {
    Candidate(n, q) * Candidate(n, q) * q
  }

  /** The candidate is itself a root. */
  ghost predicate Direct(d: int, y: int) {
    Cong(Check(Numerator(y), Denominator(d, y)), Numerator(y), P)
  }

  /** The candidate is a root up to a factor -1, the other case the code accepts. */
  ghost predicate Twisted(d: int, y: int) {
    Cong(Check(Numerator(y), Denominator(d, y)), -Numerator(y), P)
  }

  ghost predicate Decompresses(d: int, y: int) { Direct(d, y) || Twisted(d, y) }

  /** The x before its sign is chosen. */
  ghost function Unsigned(d: int, i: int, y: int): int {
    var x := Candidate(Numerator(y), Denominator(d, y));
    if Direct(d, y) then x else x * i
  }

  /** The residue delivered: negated when the low bit of the canonical form differs from the sign. */
  ghost function Recovered(d: int, i: int, y: int, sign: int): int {
    var x := Unsigned(d, i, y);
    if (x % P) % 2 == sign then x % P else (-x) % P
  }

  // ----- the algebra of the candidate -----

  /** chk = num u^((p-1)/4) with u = num den^7, an equality of integers. */
  lemma CheckIsPower(n: int, q: int)
    ensures 4 * (2 * Exponent() + 1) == P - 1
    ensures Check(n, q) == n * Pow(n * Pow(q, 7), 2 * Exponent() + 1)
  {
    var e, c, t := Exponent(), Pow(q, 3), n * Pow(q, 7);
    var w := Pow(t, e);
    PowAdd(q, 3, 3);
    PowAdd(q, 6, 1);
    PowAdd(t, e, e);
    assert Pow(q, 1) == q * Pow(q, 0) == q;
    assert Pow(t, 2 * e + 1) == t * Pow(t, 2 * e);
    SquareShape(w, n, c, q);
  }

  lemma SquareShape(w: int, n: int, c: int, q: int)
    ensures (w * (n * c)) * (w * (n * c)) * q == n * ((n * ((c * c) * q)) * (w * w))
  {
    var m := n * c;
    calc {
      (w * m) * (w * m) * q;
      { Associate(w, m, w * m); Associate(w, w, m); Associate(m, w, m); }
      ((w * w) * (m * m)) * q;
      { Associate(w * w, m * m, q); }
      (w * w) * ((m * m) * q);
      { Associate(n, c, m); Associate(n, c, c); Associate(n, n, c * c); Associate(n, n * (c * c), q); }
      (w * w) * (n * ((n * (c * c)) * q));
      { Associate(n, c * c, q); }
      (w * w) * (n * (n * ((c * c) * q)));
      { Associate(w * w, n, n * ((c * c) * q)); Associate(n, w * w, n * ((c * c) * q)); }
      n * ((n * ((c * c) * q)) * (w * w));
    }
  }

  /** Every square root of num / den, should there be one, makes the check succeed up to sign. */
  lemma Complete(d: int, s: int, y: int)
    requires Prime(P) && OnCurve(d, s, y)
    ensures Decompresses(d, y)
  {
    var n, q := Numerator(y), Denominator(d, y);
    var e := 2 * Exponent() + 1;
    CheckIsPower(n, q);
    var v := s * Pow(q, 4);
    var h := Pow(v, 2 * e);
    SquareOfRoot(n, q, s);
    PowAdd(v, e, e);
    PowTimes(v, v, e);
    CongPow(n * Pow(q, 7), v * v, e, P);
    CongIntro(n, n, 0, P);
    CongMul(n, n, Pow(n * Pow(q, 7), e), h, P);
    if Cong(v, 0, P) {
      ZeroNumerator(n, q, s);
      CongMul(n, 0, h, h, P) by { CongIntro(h, h, 0, P); }
      CongTrans(Check(n, q), n * h, 0, P);
      CongSym(n, 0, P);
      CongTrans(Check(n, q), 0, n, P);
    } else {
      Fermat(v, P);
      PowAdd(v, 2 * e, 2 * e);
      SquareRootOfOne(h, P);
      var sign := if Cong(h, 1, P) then 1 else -1;
      CongMul(n, n, h, sign, P);
      CongTrans(Check(n, q), n * h, n * sign, P);
    }
  }

  /** s^2 den = num makes u = num den^7 the square of s den^4. */
  lemma SquareOfRoot(n: int, q: int, s: int)
    requires Cong((s * s) * q, n, P)
    ensures Cong(n * Pow(q, 7), (s * Pow(q, 4)) * (s * Pow(q, 4)), P)
  {
    var f, g := Pow(q, 4), Pow(q, 7);
    PowAdd(q, 4, 4);
    PowAdd(q, 1, 7);
    assert Pow(q, 1) == q * Pow(q, 0) == q;
    CongIntro(g, g, 0, P);
    CongMul((s * s) * q, n, g, g, P);
    calc {
      (s * s) * q * g;
      { Associate(s * s, q, g); }
      (s * s) * (f * f);
      { Associate(s, s, f * f); Associate(s, f, f); Associate(s, f, s * f); }
      (s * f) * (s * f);
    }
    CongSym((s * s) * q * g, n * g, P);
  }

  lemma ZeroNumerator(n: int, q: int, s: int)
    requires Prime(P) && Cong((s * s) * q, n, P) && Cong(s * Pow(q, 4), 0, P)
    ensures Cong(n, 0, P)
  {
    Euclid(s, Pow(q, 4), P);
    if !Cong(s, 0, P) {
      ZeroPower(q, 4);
      CongIntro(s * s, s * s, 0, P);
      CongMul(s * s, s * s, q, 0, P);
    } else {
      CongMul(s, 0, s, 0, P);
      CongIntro(q, q, 0, P);
      CongMul(s * s, 0, q, q, P);
    }
    CongSym((s * s) * q, n, P);
    CongTrans(n, (s * s) * q, 0, P);
  }

  lemma {:induction false} ZeroPower(q: int, k: nat)
    requires Prime(P) && Cong(Pow(q, k), 0, P)
    ensures Cong(q, 0, P)
  {
    if k == 0 {
      CongMod(1, 0, P);
    } else {
      Euclid(q, Pow(q, k - 1), P);
      if !Cong(q, 0, P) { ZeroPower(q, k - 1); }
    }
  }

  // ----- soundness -----

  lemma UnsignedSquare(d: int, i: int, y: int)
    ensures var c := Check(Numerator(y), Denominator(d, y)); var x := Unsigned(d, i, y);
            (x * x) * Denominator(d, y) == if Direct(d, y) then c else c * (i * i)
  {
    var q, x := Denominator(d, y), Candidate(Numerator(y), Denominator(d, y));
    calc {
      ((x * i) * (x * i)) * q;
      { Associate(x, i, x * i); Associate(i, x, i); Associate(x, x, i * i); }
      ((x * x) * (i * i)) * q;
      { Associate(x * x, i * i, q); Associate(x * x, q, i * i); }
      ((x * x) * q) * (i * i);
    }
  }

  /** A change of sign or of representative keeps a point on the curve. */
  lemma OnCurveInvariant(d: int, x: int, z: int, y: int)
    requires Cong(z, x, P) || Cong(z, -x, P)
    ensures OnCurve(d, z, y) <==> OnCurve(d, x, y)
  {
    var q, n := Denominator(d, y), Numerator(y);
    var w := if Cong(z, x, P) then x else -x;
    CongMul(z, w, z, w, P);
    assert w * w == x * x;
    CongIntro(q, q, 0, P);
    CongMul(z * z, x * x, q, q, P);
    CongMod((z * z) * q, (x * x) * q, P);
    CongMod((z * z) * q, n, P);
    CongMod((x * x) * q, n, P);
  }

  lemma RecoveredSign(d: int, i: int, y: int, sign: int)
    ensures var r := Recovered(d, i, y, sign); var x := Unsigned(d, i, y);
            0 <= r < P && (Cong(r, x, P) || Cong(r, -x, P))
  {
    var x := Unsigned(d, i, y);
    CongMod(x, x, P);
    CongMod(-x, -x, P);
    CongSym(x, x % P, P);
    CongSym(-x, (-x) % P, P);
  }

  /** Soundness: on the direct path for any I, on the twisted path when I is a square root of -1. */
  lemma Sound(d: int, i: int, y: int, sign: int)
    requires Direct(d, y) || (Twisted(d, y) && Cong(i * i, -1, P))
    ensures OnCurve(d, Recovered(d, i, y, sign), y)
  {
    var n, q := Numerator(y), Denominator(d, y);
    UnsignedSquare(d, i, y);
    RecoveredSign(d, i, y, sign);
    OnCurveInvariant(d, Unsigned(d, i, y), Recovered(d, i, y, sign), y);
    if !Direct(d, y) { CongMul(Check(n, q), -n, i * i, -1, P); }
  }

  /** Exactly when an accepted encoding yields a point of the curve. */
  lemma SoundIff(d: int, i: int, y: int, sign: int)
    requires Prime(P) && Decompresses(d, y)
    ensures OnCurve(d, Recovered(d, i, y, sign), y) <==> Direct(d, y) || Cong(i * i, -1, P)
  {
    if Direct(d, y) || Cong(i * i, -1, P) {
      Sound(d, i, y, sign);
    } else if OnCurve(d, Recovered(d, i, y, sign), y) {
      var n, q := Numerator(y), Denominator(d, y);
      var c := Check(n, q);
      UnsignedSquare(d, i, y);
      RecoveredSign(d, i, y, sign);
      OnCurveInvariant(d, Unsigned(d, i, y), Recovered(d, i, y, sign), y);
      CongIntro(i * i, i * i, 0, P);
      CongMul(c, -n, i * i, i * i, P);
      CongSym(c * (i * i), n, P);
      CongTrans(n, c * (i * i), -n * (i * i), P);
      assert n - (-n * (i * i)) == n * (i * i + 1);
      Euclid(n, i * i + 1, P);
      CongAdd(n, 0, n, 0, P);
      CongTrans(c, -n, 0, P);
      CongSym(n, 0, P);
      CongTrans(c, 0, n, P);
      assert false;
    }
  }

  /** A square root of -1 modulo p. */
  const ROOT: int := 0x2b8324804fc1df0b_2b4d00993dfbd7a7_2f431806ad2fe478_c4ee1b274a0ea0b0

  lemma RootSquared()
    ensures Cong(ROOT * ROOT, -1, P) && !Cong(ROOT, 0, P)
  {}

  /** Decompression accepts y exactly when some point of the curve has that y. */
  lemma AcceptsExactlyTheCurve(d: int, y: int)
    requires Prime(P)
    ensures Decompresses(d, y) <==> exists x :: OnCurve(d, x, y)
  {
    if Decompresses(d, y) {
      RootSquared();
      Sound(d, ROOT, y, 0);
    }
    if x :| OnCurve(d, x, y) {
      Complete(d, x, y);
    }
  }

  /** For which accepted y the x comes out as zero: y squared is 1, or I itself is zero and was used. */
  lemma ZeroExactlyAt(d: int, i: int, y: int)
    requires Prime(P) && Decompresses(d, y)
    ensures Cong(Unsigned(d, i, y), 0, P) <==> Cong(y * y, 1, P) || (Cong(i, 0, P) && !Direct(d, y))
  {
    var n, q := Numerator(y), Denominator(d, y);
    var x, u := Candidate(n, q), Unsigned(d, i, y);
    assert Cong(y * y, 1, P) <==> Cong(n, 0, P);
    if Cong(n, 0, P) {
      var w := Pow(n * Pow(q, 7), Exponent());
      ZeroTimes(n, Pow(q, 3));
      ZeroTimes(n * Pow(q, 3), w);
      ZeroTimes(x, i);
    } else if Cong(i, 0, P) && !Direct(d, y) {
      ZeroTimes(i, x);
    } else if Cong(u, 0, P) {
      if !Direct(d, y) { Euclid(x, i, P); }
      ZeroTimes(x, x);
      ZeroTimes(x * x, q);
      var c := Check(n, q);
      CongSym(c, 0, P);
      CongTrans(0, c, if Direct(d, y) then n else -n, P);
      CongSym(0, if Direct(d, y) then n else -n, P);
      CongAdd(-n, 0, -n, 0, P) by { if Direct(d, y) { CongAdd(n, 0, n, 0, P); } }
      assert false;
    }
  }

  lemma ZeroTimes(a: int, b: int)
    requires Cong(a, 0, P)
    ensures Cong(a * b, 0, P) && Cong(b * a, 0, P)
  {
    CongIntro(b, b, 0, P);
    CongMul(a, 0, b, b, P);
  }

  lemma NegatedResidue(x: int, m: int)
    requires m > 0
    ensures (-x) % m == if x % m == 0 then 0 else m - x % m
  {
    var k := x / m;
    if x % m == 0 {
      DivModUnique(-x, -k, 0, m);
    } else {
      Distribute(m, -k, 1);
      DivModUnique(-x, -k - 1, m - x % m, m);
    }
  }

  lemma ParityAfterNegation(x: int, sign: int, m: int)
    requires m > 0 && m % 2 == 1 && (sign == 0 || sign == 1)
    ensures (if (x % m) % 2 == sign then x % m else (-x) % m) % 2 == sign <==> !(x % m == 0 && sign == 1)
  {
    NegatedResidue(x, m);
  }

  /** p is odd, so negation flips the low bit of the canonical form of every nonzero residue. */
  lemma SignOfResidue(d: int, i: int, y: int, sign: int)
    requires sign == 0 || sign == 1
    ensures Recovered(d, i, y, sign) % 2 == sign <==> !(Cong(Unsigned(d, i, y), 0, P) && sign == 1)
  {
    var x := Unsigned(d, i, y);
    DivModUnique(0, 0, 0, P);
    CongMod(x, 0, P);
    ParityAfterNegation(x, sign, P);
  }

  /** The requested sign is delivered but for sign 1 at y squared equal to 1, where x is zero, or
      when x is zero because I is. */
  lemma SignRecovered(d: int, i: int, y: int, sign: int)
    requires Prime(P) && Decompresses(d, y) && (sign == 0 || sign == 1)
    ensures Recovered(d, i, y, sign) % 2 == sign
       <==> !(sign == 1 && (Cong(y * y, 1, P) || (Cong(i, 0, P) && !Direct(d, y))))
  {
    SignOfResidue(d, i, y, sign);
    ZeroExactlyAt(d, i, y);
  }

  // ----- encodings of y that are not canonical -----

  lemma CandidateCong(n: int, n': int, q: int, q': int)
    requires Cong(n, n', P) && Cong(q, q', P)
    ensures Cong(Candidate(n, q), Candidate(n', q'), P)
  {
    CongPow(q, q', 7, P);
    CongPow(q, q', 3, P);
    CongMul(n, n', Pow(q, 7), Pow(q', 7), P);
    CongMul(n, n', Pow(q, 3), Pow(q', 3), P);
    CongPow(n * Pow(q, 7), n' * Pow(q', 7), Exponent(), P);
    CongMul(Pow(n * Pow(q, 7), Exponent()), Pow(n' * Pow(q', 7), Exponent()), n * Pow(q, 3), n' * Pow(q', 3), P);
  }

  /** Everything depends on y modulo p alone: congruent y are accepted alike and deliver one x. */
  lemma SameForCongruent(d: int, i: int, y: int, z: int, sign: int)
    requires Cong(y, z, P)
    ensures Direct(d, y) == Direct(d, z) && Twisted(d, y) == Twisted(d, z)
    ensures Recovered(d, i, y, sign) == Recovered(d, i, z, sign)
  {
    var n, n', q, q' := Numerator(y), Numerator(z), Denominator(d, y), Denominator(d, z);
    CongMul(y, z, y, z, P);
    CongIntro(d, d, 0, P);
    CongIntro(1, 1, 0, P);
    CongAdd(y * y, z * z, 1, 1, P);
    CongMul(y * y, z * z, d, d, P);
    CongAdd((y * y) * d, (z * z) * d, 1, 1, P);
    CandidateCong(n, n', q, q');
    var x, x' := Candidate(n, q), Candidate(n', q');
    CongMul(x, x', x, x', P);
    CongMul(x * x, x' * x', q, q', P);
    CongAdd(n, n', n, n', P);
    SameClass(Check(n, q), Check(n', q'), n, n');
    SameClass(Check(n, q), Check(n', q'), -n, -n');
    CongIntro(i, i, 0, P);
    CongMul(x, x', i, i, P);
    var u, u' := Unsigned(d, i, y), Unsigned(d, i, z);
    assert Cong(u, u', P);
    CongAdd(u, u', u, u', P);
    CongMod(u, u', P);
    CongMod(-u, -u', P);
  }

  lemma SameClass(a: int, a': int, b: int, b': int)
    requires Cong(a, a', P) && Cong(b, b', P)
    ensures Cong(a, b, P) <==> Cong(a', b', P)
  {
    CongMod(a, a', P);
    CongMod(b, b', P);
    CongMod(a, b, P);
    CongMod(a', b', P);
  }

  // ----- uniqueness -----

  /** On a point of the curve the denominator vanishes in one case, which D = -1 alone makes possible. */
  lemma DenominatorVanishes(d: int, x: int, y: int)
    requires OnCurve(d, x, y)
    ensures Cong(Denominator(d, y), 0, P) <==> Cong(d, -1, P) && Cong(y * y, 1, P)
  {
    var q, n := Denominator(d, y), Numerator(y);
    CongIntro(d, d, 0, P);
    if Cong(q, 0, P) {
      ZeroTimes(q, x * x);
      SameClass((x * x) * q, 0, n, n) by { CongIntro(n, n, 0, P); }
      CongSym(0, n, P);
      assert Cong(y * y, 1, P);
    }
    if Cong(y * y, 1, P) {
      CongMul(y * y, 1, d, d, P);
      CongIntro(1, 1, 0, P);
      CongAdd((y * y) * d, d, 1, 1, P);
      CongIntro(0, 0, 0, P);
      SameClass(q, d + 1, 0, 0);
      assert Cong(d + 1, 0, P) <==> Cong(d, -1, P);
    }
  }

  /** Up to sign there is one x for y, unless D is -1 and y squared is 1. */
  lemma UniqueUpToSign(d: int, x: int, z: int, y: int)
    requires Prime(P) && OnCurve(d, x, y) && OnCurve(d, z, y) && !(Cong(d, -1, P) && Cong(y * y, 1, P))
    ensures Cong(x, z, P) || Cong(x, -z, P)
  {
    var q, n := Denominator(d, y), Numerator(y);
    DenominatorVanishes(d, x, y);
    CongAdd((x * x) * q, n, (z * z) * q, n, P);
    Distribute(q, x * x, z * z);
    Distribute(x + z, x, z);
    Distribute(x, x, z);
    Distribute(z, x, z);
    assert q * ((x - z) * (x + z)) == (x * x) * q - (z * z) * q;
    Euclid(q, (x - z) * (x + z), P);
    Euclid(x - z, x + z, P);
  }

  /** Decompression inverts compression, recovering x from y and the low bit of a canonical x of the curve,
      in just the cases in which it lands on the curve at all. */
  lemma InvertsCompression(d: int, i: int, x: int, y: int)
    requires Prime(P) && !(Cong(d, -1, P) && Cong(y * y, 1, P))
    requires 0 <= x < P && OnCurve(d, x, y)
    ensures Decompresses(d, y)
    ensures Recovered(d, i, y, x % 2) == x <==> Direct(d, y) || Cong(i * i, -1, P)
  {
    var u := Unsigned(d, i, y);
    var r := Recovered(d, i, y, x % 2);
    Complete(d, x, y);
    SoundIff(d, i, y, x % 2);
    if Direct(d, y) || Cong(i * i, -1, P) {
      RecoveredSign(d, i, y, x % 2);
      OnCurveInvariant(d, u, r, y);
      UniqueUpToSign(d, u, x, y);
      CongMod(u, x, P);
      CongMod(u, -x, P);
      DivModUnique(x, 0, x, P);
      SelectsByParity(u, x, P);
    }
  }

  lemma SelectsByParity(u: int, x: int, m: int)
    requires m > 0 && m % 2 == 1 && 0 <= x < m && x % m == x
    requires u % m == x || u % m == (-x) % m
    ensures (if (u % m) % 2 == x % 2 then u % m else (-u) % m) == x
  {
    NegatedResidue(x, m);
    NegatedResidue(u, m);
  }

  // ----- comparison with the standard -----

  /** Section 5.1.3 of RFC 8032: y is canonical and a canonical x of the requested sign exists. */
  ghost predicate StandardAccepts(d: int, y: int, sign: int) {
    0 <= y < P && exists x :: 0 <= x < P && x % 2 == sign && OnCurve(d, x, y)
  }

  /** The encodings accepted here are those of the standard and two families more: y not below p,
      and sign 1 at y squared equal to 1. */
  lemma StandardExactly(d: int, y: int, sign: int)
    requires Prime(P) && !Cong(d, -1, P) && y >= 0 && (sign == 0 || sign == 1)
    ensures StandardAccepts(d, y, sign)
       <==> Decompresses(d, y) && y < P && !(sign == 1 && Cong(y * y, 1, P))
  {
    if StandardAccepts(d, y, sign) {
      var x :| 0 <= x < P && x % 2 == sign && OnCurve(d, x, y);
      Complete(d, x, y);
      if Cong(y * y, 1, P) {
        ZeroOnly(d, x, y);
        CongMod(x, 0, P);
        DivModUnique(x, 0, x, P);
        DivModUnique(0, 0, 0, P);
      }
    }
    if Decompresses(d, y) && y < P && !(sign == 1 && Cong(y * y, 1, P)) {
      RootSquared();
      var r := Recovered(d, ROOT, y, sign);
      Sound(d, ROOT, y, sign);
      RecoveredSign(d, ROOT, y, sign);
      SignRecovered(d, ROOT, y, sign);
      assert 0 <= r < P && r % 2 == sign && OnCurve(d, r, y);
    }
  }

  /** At y squared equal to 1 the curve has x = 0 alone. */
  lemma ZeroOnly(d: int, x: int, y: int)
    requires Prime(P) && !Cong(d, -1, P) && OnCurve(d, x, y) && Cong(y * y, 1, P)
    ensures Cong(x, 0, P)
  {
    var q, n := Denominator(d, y), Numerator(y);
    DenominatorVanishes(d, x, y);
    CongTrans((x * x) * q, n, 0, P);
    Euclid(x * x, q, P);
    Euclid(x, x, P);
  }

  // ----- which path is taken -----

  /** num / den is the fourth power of t, up to the sign. */
  predicate Quartic(d: int, y: int, t: int, sign: int) {
    Cong(Numerator(y), sign * (Pow(t, 4) * Denominator(d, y)), P)
  }

  /** num = t^4 den puts y on the direct path, num = -t^4 den on the other; in both cases t certifies y. */
  lemma QuarticPath(d: int, y: int, t: int, sign: int)
    requires Prime(P) && (sign == 1 || sign == -1) && Quartic(d, y, t, sign)
    ensures if sign == 1 then Direct(d, y) else Twisted(d, y)
  {
    var n, q := Numerator(y), Denominator(d, y);
    var e := 2 * Exponent() + 1;
    var v, u := t * Pow(q, 2), n * Pow(q, 7);
    CheckIsPower(n, q);
    FourthPower(n, q, t, sign);
    CongPow(u, sign * Pow(v, 4), e, P);
    PowTimes(sign, Pow(v, 4), e);
    PowPow(v, 4, e);
    SignToOdd(sign, e);
    var h := Pow(v, 4 * e);
    CongIntro(n, n, 0, P);
    CongMul(n, n, Pow(u, e), sign * h, P);
    if Cong(v, 0, P) {
      VanishingNumerator(n, q, t, sign);
      ZeroTimes(n, Pow(u, e));
      ZeroTimes(n, sign);
      CongSym(n * sign, 0, P);
      CongTrans(Check(n, q), 0, n * sign, P);
    } else {
      Fermat(v, P);
      CongIntro(sign, sign, 0, P);
      CongMul(sign, sign, h, 1, P);
      CongMul(n, n, sign * h, sign, P);
      CongTrans(Check(n, q), n * (sign * h), n * sign, P);
    }
  }

  /** u = num den^7 is then plus or minus the fourth power of t den^2. */
  lemma FourthPower(n: int, q: int, t: int, sign: int)
    requires Cong(n, sign * (Pow(t, 4) * q), P)
    ensures Cong(n * Pow(q, 7), sign * Pow(t * Pow(q, 2), 4), P)
  {
    var f, g := Pow(t, 4), Pow(q, 7);
    CongIntro(g, g, 0, P);
    CongMul(n, sign * (f * q), g, g, P);
    PowTimes(t, Pow(q, 2), 4);
    PowPow(q, 2, 4);
    PowAdd(q, 1, 7);
    assert Pow(q, 1) == q * Pow(q, 0) == q;
    Associate(sign, f * q, g);
    Associate(f, q, g);
  }

  lemma {:induction false} SignToOdd(sign: int, e: nat)
    requires (sign == 1 || sign == -1) && e % 2 == 1
    ensures Pow(sign, e) == sign
  {
    if e == 1 {
      assert Pow(sign, 1) == sign * Pow(sign, 0) == sign;
    } else {
      SignToOdd(sign, e - 2);
      assert Pow(sign, e) == sign * (sign * Pow(sign, e - 2));
    }
  }

  lemma VanishingNumerator(n: int, q: int, t: int, sign: int)
    requires Prime(P) && Cong(n, sign * (Pow(t, 4) * q), P) && Cong(t * Pow(q, 2), 0, P)
    ensures Cong(n, 0, P)
  {
    Euclid(t, Pow(q, 2), P);
    if Cong(t, 0, P) {
      ZeroTimes(t, Pow(t, 3));
      assert Pow(t, 4) == t * Pow(t, 3);
      ZeroTimes(Pow(t, 4), q);
    } else {
      ZeroPower(q, 2);
      ZeroTimes(q, Pow(t, 4));
    }
    ZeroTimes(Pow(t, 4) * q, sign);
    CongTrans(n, sign * (Pow(t, 4) * q), 0, P);
  }

  /** (p - 1) / 4 is 3 modulo 4, so where u^((p-1)/4) is plus or minus 1 a power of u is a fourth root of
      plus or minus u; dividing by den^2 turns it into one of num / den. */
  lemma FourthRoot(n: int, q: int, sign: int) returns (t: int)
    requires Prime(P) && (sign == 1 || sign == -1) && Cong(Check(n, q), sign * n, P)
    ensures Cong(n, sign * (Pow(t, 4) * q), P)
  {
    if Cong(n, 0, P) {
      t := 0;
      assert Pow(0, 4) == 0 * Pow(0, 3) == 0;
    } else {
      var e := 2 * Exponent() + 1;
      var u := n * Pow(q, 7);
      PowerIsSign(n, q, sign);
      var v := FourthRootOfOnesPower(u, sign, e);
      t := v * Pow(q, e - 2);
      DividedRoot(n, q, v, sign, e);
    }
  }

  /** u^((p-1)/4) is the sign, and den is not zero. */
  lemma PowerIsSign(n: int, q: int, sign: int)
    requires Prime(P) && (sign == 1 || sign == -1) && Cong(Check(n, q), sign * n, P) && !Cong(n, 0, P)
    ensures 4 * (2 * Exponent() + 1) == P - 1
    ensures Cong(Pow(n * Pow(q, 7), 2 * Exponent() + 1), sign, P) && !Cong(q, 0, P)
  {
    var e, u := 2 * Exponent() + 1, n * Pow(q, 7);
    CheckIsPower(n, q);
    CongIntro(sign * n, sign * n, 0, P);
    CongAdd(n * Pow(u, e), sign * n, sign * n, sign * n, P);
    Distribute(n, Pow(u, e), sign);
    Euclid(n, Pow(u, e) - sign, P);
    if Cong(q, 0, P) {
      ZeroTimes(q, Pow(q, 6));
      ZeroTimes(Pow(q, 7), n);
      ZeroTimes(u, Pow(u, e - 1));
      CongSym(Pow(u, e), sign, P);
      CongTrans(sign, Pow(u, e), 0, P);
      assert false;
    }
  }

  lemma FourthRootOfOnesPower(u: int, sign: int, e: nat) returns (v: int)
    requires (sign == 1 || sign == -1) && Cong(Pow(u, e), sign, P) && 4 * e == P - 1
    ensures Cong(Pow(v, 4), sign * u, P)
  {
    var w, h := sign * u, (e + 1) / 4;
    assert 4 * h == e + 1;
    v := Pow(w, h);
    PowPow(w, h, 4);
    PowTimes(sign, u, e);
    SignToOdd(sign, e);
    CongIntro(sign, sign, 0, P);
    CongMul(sign, sign, Pow(u, e), sign, P);
    CongIntro(w, w, 0, P);
    CongMul(w, w, Pow(w, e), 1, P);
  }

  lemma DividedRoot(n: int, q: int, v: int, sign: int, e: nat)
    requires Prime(P) && (sign == 1 || sign == -1) && 4 * e == P - 1 && !Cong(q, 0, P)
    requires Cong(Pow(v, 4), sign * (n * Pow(q, 7)), P)
    ensures Cong(n, sign * (Pow(v * Pow(q, e - 2), 4) * q), P)
  {
    var f, g, k := Pow(v, 4), Pow(q, 4 * e - 8), Pow(q, 7);
    PowTimes(v, Pow(q, e - 2), 4);
    PowPow(q, e - 2, 4);
    PowAdd(q, 7, 4 * e - 8);
    assert Pow(q, 4 * e) == q * Pow(q, 4 * e - 1);
    var w := g * q;
    CongIntro(w, w, 0, P);
    CongMul(f, sign * (n * k), w, w, P);
    CongIntro(sign, sign, 0, P);
    CongMul(sign, sign, f * w, (sign * (n * k)) * w, P);
    calc {
      sign * ((sign * (n * k)) * w);
      { Associate(sign, n * k, w); Associate(sign, sign, (n * k) * w); }
      (n * k) * w;
      { Associate(n, k, w); Associate(k, g, q); }
      n * ((k * g) * q);
    }
    Fermat(q, P);
    CongIntro(n, n, 0, P);
    CongMul(n, n, Pow(q, 4 * e), 1, P);
    Associate(f, g, q);
    CongTrans(sign * (f * w), n * Pow(q, 4 * e), n, P);
    CongSym(n, sign * (f * w), P);
  }

  /** Which path is taken says whether num / den is a fourth power or the opposite of one. */
  lemma PathsAreQuartic(d: int, y: int)
    requires Prime(P)
    ensures Direct(d, y) <==> exists t :: Quartic(d, y, t, 1)
    ensures Twisted(d, y) <==> exists t :: Quartic(d, y, t, -1)
  {
    hide Quartic, Direct, Twisted;
    forall t, sign | Quartic(d, y, t, sign) && (sign == 1 || sign == -1)
      ensures if sign == 1 then Direct(d, y) else Twisted(d, y)
    {
      QuarticPath(d, y, t, sign);
    }
    if Direct(d, y) { QuarticRoot(d, y, 1); }
    if Twisted(d, y) { QuarticRoot(d, y, -1); }
  }

  lemma QuarticRoot(d: int, y: int, sign: int)
    requires Prime(P) && ((sign == 1 && Direct(d, y)) || (sign == -1 && Twisted(d, y)))
    ensures exists t :: Quartic(d, y, t, sign)
  {
    var t := FourthRoot(Numerator(y), Denominator(d, y), sign);
    assert Quartic(d, y, t, sign);
  }

  /** So an accepted encoding yields a point of the curve exactly when num / den is a fourth power or
      I is a square root of -1: a condition on D, y and I that mentions no candidate. */
  lemma OnCurveExactly(d: int, i: int, y: int, sign: int)
    requires Prime(P) && Decompresses(d, y)
    ensures OnCurve(d, Recovered(d, i, y, sign), y) <==> (exists t :: Quartic(d, y, t, 1)) || Cong(i * i, -1, P)
  {
    PathsAreQuartic(d, y);
    SoundIff(d, i, y, sign);
  }
}
