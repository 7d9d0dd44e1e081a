/**
 Powers, congruences, Euclid's lemma and Fermat's little theorem, all for an arbitrary modulus.
 The field proofs instantiate them at p = 2^255 - 19.
 */
module NumberTheory {

  function Pow(b: int, e: nat): int {
    if e == 0 then 1 else b * Pow(b, e - 1)
  }

  lemma {:induction false} PowAdd(b: int, d: nat, e: nat)
    ensures Pow(b, d + e) == Pow(b, d) * Pow(b, e)
    decreases d
  {
    if d == 0 {
    } else {
      PowAdd(b, d - 1, e);
      assert b * (Pow(b, d - 1) * Pow(b, e)) == (b * Pow(b, d - 1)) * Pow(b, e);
    }
  }

  lemma {:induction false} PowPow(b: int, d: nat, e: nat)
    ensures d * e >= 0 && Pow(Pow(b, d), e) == Pow(b, d * e)
    decreases e
  {
    if e == 0 {
    } else {
      PowPow(b, d, e - 1);
      assert d * e == d + d * (e - 1);
      PowAdd(b, d, d * (e - 1));
    }
  }

  lemma {:induction false} PowTimes(a: int, b: int, e: nat)
    ensures Pow(a * b, e) == Pow(a, e) * Pow(b, e)
  {
    if e == 0 {
    } else {
      PowTimes(a, b, e - 1);
      var x, y := Pow(a, e - 1), Pow(b, e - 1);
      assert (a * b) * (x * y) == (a * x) * (b * y) by {
        assert (a * b) * (x * y) == a * (b * (x * y));
        assert b * (x * y) == x * (b * y);
        assert a * (x * (b * y)) == (a * x) * (b * y);
      }
    }
  }

  lemma {:induction false} PowPositive(b: int, e: nat)
    requires b > 0
    ensures Pow(b, e) > 0
  {
    if e == 0 {
    } else {
      PowPositive(b, e - 1);
    }
  }

  // ----- products, kept apart so that proofs use them one at a time -----

  lemma Distribute(a: int, b: int, c: int)
    ensures a * (b + c) == a * b + a * c
    ensures (b + c) * a == b * a + c * a
    ensures a * (b - c) == a * b - a * c
    ensures (b - c) * a == b * a - c * a
  {}

  lemma Associate(a: int, b: int, c: int)
    ensures (a * b) * c == a * (b * c) == b * (a * c)
  {}

  lemma Monotone(x: int, y: int, w: int)
    requires 0 <= x <= y && w >= 0
    ensures 0 <= x * w <= y * w
  {
    Distribute(w, y, x);
    assert (y - x) * w >= 0;
  }

  function Abs(x: int): nat { if x < 0 then -x else x }

  lemma ProductBound(x: int, y: int, a: int, b: int)
    requires -a <= x <= a && -b <= y <= b
    ensures -(a * b) <= x * y <= a * b
  {
    Monotone(Abs(x), a, Abs(y));
    Monotone(Abs(y), b, a);
    assert x * y == Abs(x) * Abs(y) || x * y == -(Abs(x) * Abs(y));
  }

  // ----- division and congruence -----

  lemma DivModUnique(x: int, q: int, r: int, m: int)
    requires m > 0 && x == q * m + r && 0 <= r < m
    ensures x / m == q && x % m == r
  {
    var d := x / m - q;
    assert x == (x / m) * m + x % m;
    assert d * m == r - x % m by { assert d * m == (x / m) * m - q * m; }
    assert d >= 1 ==> d * m >= m;
    assert d <= -1 ==> d * m <= -m;
  }

  predicate Cong(a: int, b: int, m: int)
    requires m > 0
  {
    (a - b) % m == 0
  }

  lemma CongIntro(a: int, b: int, k: int, m: int)
    requires m > 0 && a == b + k * m
    ensures Cong(a, b, m)
  {
    DivModUnique(a - b, k, 0, m);
  }

  lemma CongElim(a: int, b: int, m: int) returns (k: int)
    requires m > 0 && Cong(a, b, m)
    ensures a == b + k * m
  {
    k := (a - b) / m;
  }

  lemma CongMod(a: int, b: int, m: int)
    requires m > 0
    ensures Cong(a, b, m) <==> a % m == b % m
    ensures Cong(a, a % m, m)
  {
    var qa, qb := a / m, b / m;
    assert a == qa * m + a % m && b == qb * m + b % m;
    CongIntro(a, a % m, qa, m);
    if a % m == b % m {
      assert (qa - qb) * m == qa * m - qb * m;
      CongIntro(a, b, qa - qb, m);
    }
    if Cong(a, b, m) {
      var k := CongElim(a, b, m);
      assert (qb + k) * m == qb * m + k * m;
      DivModUnique(a, qb + k, b % m, m);
    }
  }

  lemma CongTrans(a: int, b: int, c: int, m: int)
    requires m > 0 && Cong(a, b, m) && Cong(b, c, m)
    ensures Cong(a, c, m)
  {
    CongMod(a, b, m); CongMod(b, c, m); CongMod(a, c, m);
  }

  lemma CongSym(a: int, b: int, m: int)
    requires m > 0
    ensures Cong(a, b, m) <==> Cong(b, a, m)
  {
    CongMod(a, b, m); CongMod(b, a, m);
  }

  lemma CongAdd(a: int, b: int, c: int, d: int, m: int)
    requires m > 0 && Cong(a, b, m) && Cong(c, d, m)
    ensures Cong(a + c, b + d, m) && Cong(a - c, b - d, m) && Cong(-a, -b, m)
  {
    var k := CongElim(a, b, m);
    var l := CongElim(c, d, m);
    assert (k + l) * m == k * m + l * m && (k - l) * m == k * m - l * m && (-k) * m == -(k * m);
    CongIntro(a + c, b + d, k + l, m);
    CongIntro(a - c, b - d, k - l, m);
    CongIntro(-a, -b, -k, m);
  }

  lemma CongMul(a: int, b: int, c: int, d: int, m: int)
    requires m > 0 && Cong(a, b, m) && Cong(c, d, m)
    ensures Cong(a * c, b * d, m)
  {
    var k := CongElim(a, b, m);
    var l := CongElim(c, d, m);
    assert a * c == b * c + (k * c) * m by {
      assert a * c == (b + k * m) * c == b * c + (k * m) * c;
      assert (k * m) * c == (k * c) * m;
    }
    assert b * c == b * d + (b * l) * m by {
      assert b * c == b * (d + l * m) == b * d + b * (l * m);
    }
    assert (k * c + b * l) * m == (k * c) * m + (b * l) * m;
    CongIntro(a * c, b * d, k * c + b * l, m);
  }

  lemma {:induction false} CongPow(a: int, b: int, e: nat, m: int)
    requires m > 0 && Cong(a, b, m)
    ensures Cong(Pow(a, e), Pow(b, e), m)
  {
    if e == 0 {
      CongIntro(1, 1, 0, m);
    } else {
      CongPow(a, b, e - 1, m);
      CongMul(a, b, Pow(a, e - 1), Pow(b, e - 1), m);
    }
  }

  // ----- primes -----

  ghost predicate Prime(p: int) {
    p > 1 && forall d :: 1 < d < p ==> p % d != 0
  }

  /** Euclid's lemma for 0 < a < p, by the division p == q * a + r. */
  lemma {:induction false} EuclidSmall(a: int, b: int, p: int)
    requires Prime(p) && 0 < a < p && Cong(a * b, 0, p)
    ensures Cong(b, 0, p)
    decreases a
  {
    if a == 1 {
    } else {
      var q, r := p / a, p % a;
      assert p == q * a + r;
      var k := CongElim(a * b, 0, p);
      EuclidStep(a, b, p, q, r, k);
      CongIntro(r * b, 0, b - q * k, p);
      EuclidSmall(r, b, p);
    }
  }

  lemma EuclidStep(a: int, b: int, p: int, q: int, r: int, k: int)
    requires p == q * a + r && a * b == k * p
    ensures r * b == (b - q * k) * p
  {
    Distribute(b, q * a, r);
    Associate(q, a, b);
    Associate(q, k, p);
    Distribute(p, b, q * k);
  }

  lemma Euclid(a: int, b: int, p: int)
    requires Prime(p) && Cong(a * b, 0, p)
    ensures Cong(a, 0, p) || Cong(b, 0, p)
  {
    CongMod(a, 0, p);
    DivModUnique(0, 0, 0, p);
    if a % p != 0 {
      CongSym(a, a % p, p);
      CongIntro(b, b, 0, p);
      CongMul(a % p, a, b, b, p);
      CongTrans((a % p) * b, a * b, 0, p);
      EuclidSmall(a % p, b, p);
    }
  }

  // ----- Fermat's little theorem by the binomial theorem -----

  function Choose(n: nat, k: nat): nat {
    if k == 0 then 1 else if n == 0 then 0 else Choose(n - 1, k - 1) + Choose(n - 1, k)
  }

  lemma {:induction false} ChooseAbove(n: nat, k: nat)
    requires k > n
    ensures Choose(n, k) == 0
  {
    if n == 0 {
    } else {
      ChooseAbove(n - 1, k - 1);
      ChooseAbove(n - 1, k);
    }
  }

  lemma {:induction false} ChooseSelf(n: nat)
    ensures Choose(n, n) == 1
  {
    if n == 0 {
    } else {
      ChooseSelf(n - 1);
      ChooseAbove(n - 1, n);
    }
  }

  lemma {:induction false} Absorption(n: nat, k: nat)
    requires n > 0 && k > 0
    ensures k * Choose(n, k) == n * Choose(n - 1, k - 1)
  {
    if n == 1 {
      if k > 1 { ChooseAbove(1, k); ChooseAbove(0, k - 1); }
    } else if k == 1 {
      Absorption(n - 1, 1);
    } else {
      Absorption(n - 1, k - 1);
      Absorption(n - 1, k);
      AbsorptionStep(n, k, Choose(n - 1, k - 1), Choose(n - 1, k), Choose(n - 2, k - 2), Choose(n - 2, k - 1));
    }
  }

  lemma AbsorptionStep(n: int, k: int, x: int, y: int, u: int, v: int)
    requires (k - 1) * x == (n - 1) * u && k * y == (n - 1) * v && x == u + v
    ensures k * (x + y) == n * x
  {
    calc {
      k * (x + y);
      (k - 1) * x + x + k * y;
      (n - 1) * u + (n - 1) * v + x;
      (n - 1) * (u + v) + x;
      n * x;
    }
  }

  /** The first m + 1 terms of the expansion of (a + 1)^n. */
  function Expansion(a: int, n: nat, m: nat): int {
    Choose(n, m) * Pow(a, m) + if m == 0 then 0 else Expansion(a, n, m - 1)
  }

  lemma {:induction false} ExpansionStep(a: int, n: nat, m: nat)
    requires m > 0
    ensures Expansion(a, n + 1, m) == Expansion(a, n, m) + a * Expansion(a, n, m - 1)
  {
    var x, y, z := Choose(n, m - 1), Choose(n, m), Pow(a, m - 1);
    assert (x + y) * (a * z) == a * (x * z) + y * (a * z) by {
      assert (x + y) * (a * z) == x * (a * z) + y * (a * z);
      assert x * (a * z) == a * (x * z);
    }
    if m == 1 {
    } else {
      ExpansionStep(a, n, m - 1);
      assert a * (x * z + Expansion(a, n, m - 2)) == a * (x * z) + a * Expansion(a, n, m - 2);
    }
  }

  lemma {:induction false} Binomial(a: int, n: nat)
    ensures Expansion(a, n, n) == Pow(a + 1, n)
  {
    if n == 0 {
    } else {
      Binomial(a, n - 1);
      ExpansionStep(a, n - 1, n);
      ChooseAbove(n - 1, n);
      var e := Pow(a + 1, n - 1);
      assert Expansion(a, n - 1, n) == 0 * Pow(a, n) + e;
      Distribute(e, a, 1);
    }
  }

  lemma {:induction false} ExpansionModPrime(a: int, p: nat, m: nat)
    requires Prime(p) && m < p
    ensures Cong(Expansion(a, p, m), 1, p)
  {
    if m == 0 {
      CongIntro(1, 1, 0, p);
    } else {
      ExpansionModPrime(a, p, m - 1);
      Absorption(p, m);
      CongIntro(m * Choose(p, m), 0, Choose(p - 1, m - 1), p);
      EuclidSmall(m, Choose(p, m), p);
      CongIntro(Pow(a, m), Pow(a, m), 0, p);
      CongMul(Choose(p, m), 0, Pow(a, m), Pow(a, m), p);
      CongAdd(Choose(p, m) * Pow(a, m), 0, Expansion(a, p, m - 1), 1, p);
    }
  }

  lemma {:induction false} FermatNat(a: nat, p: nat)
    requires Prime(p)
    ensures Cong(Pow(a, p), a, p)
  {
    if a == 0 {
      CongIntro(0, 0, 0, p);
    } else {
      FermatNat(a - 1, p);
      Binomial(a - 1, p);
      ChooseSelf(p);
      ExpansionModPrime(a - 1, p, p - 1);
      CongAdd(Pow(a - 1, p), a - 1, Expansion(a - 1, p, p - 1), 1, p);
    }
  }

  /** Fermat's little theorem: a^(p-1) is 1 modulo p unless p divides a. */
  lemma Fermat(a: int, p: nat)
    requires Prime(p) && !Cong(a, 0, p)
    ensures Cong(Pow(a, p - 1), 1, p)
  {
    var r := a % p;
    CongMod(a, r, p);
    CongPow(a, r, p, p);
    FermatNat(r, p);
    CongSym(a, r, p);
    CongTrans(Pow(a, p), Pow(r, p), r, p);
    CongTrans(Pow(a, p), r, a, p);
    var c := Pow(a, p - 1);
    CongIntro(a, a, 0, p);
    CongAdd(Pow(a, p), a, a, a, p);
    assert a * (c - 1) == a * c - a;
    Euclid(a, c - 1, p);
  }

  /** Modulo a prime a square root of 1 is 1 or -1. */
  lemma SquareRootOfOne(h: int, p: int)
    requires Prime(p) && Cong(h * h, 1, p)
    ensures Cong(h, 1, p) || Cong(h, -1, p)
  {
    assert (h - 1) * (h + 1) == h * h - 1;
    Euclid(h - 1, h + 1, p);
  }
}
