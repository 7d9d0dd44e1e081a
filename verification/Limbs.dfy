/**
 The value of a number held in limbs of 16 bits, least significant first, and what one
 carry sweep over the limbs does to it. Everything here is stated on sequences.
 */
module Limbs {
  import opened MachineInts
  import opened NumberTheory

  const RADIX: int := 0x1_0000
  const TWO_TO_THE_256: int := 0x1_0000000000000000_0000000000000000_0000000000000000_0000000000000000
  /** The field prime 2^255 - 19. */
  const P: int := 0x7fffffffffffffff_ffffffffffffffff_ffffffffffffffff_ffffffffffffffed

  function Weight(k: nat): int { Pow(RADIX, k) }

  /** The value of the first n limbs. */
  function Value(s: seq<i64>, n: nat): int
    requires n <= |s|
  {
    if n == 0 then 0 else Value(s, n - 1) + s[n - 1] as int * Weight(n - 1)
  }

  function Val(s: seq<i64>): int { Value(s, |s|) }

  /** All limbs lie in [-bound, bound]. */
  predicate Bounded(s: seq<i64>, bound: int) {
    forall k :: 0 <= k < |s| ==> -bound <= s[k] as int <= bound
  }

  /** All limbs are proper 16-bit digits. */
  predicate Digits(s: seq<i64>) {
    forall k :: 0 <= k < |s| ==> 0 <= s[k] as int < RADIX
  }

  /** What two carry sweeps guarantee: digits, except for a small excess in limb 0. */
  predicate Reduced(s: seq<i64>) {
    |s| == 16 && -38 <= s[0] as int <= 65573 && forall k :: 1 <= k < 16 ==> 0 <= s[k] as int < RADIX
  }

  lemma Weight16()
    ensures Weight(16) == TWO_TO_THE_256 == 2 * P + 38
  {
    PowAdd(RADIX, 2, 2);
    PowAdd(RADIX, 4, 4);
    PowAdd(RADIX, 8, 8);
    assert Pow(RADIX, 1) == RADIX;
    assert Pow(RADIX, 2) == 0x1_0000_0000;
    assert Pow(RADIX, 4) == 0x1_0000000000000000;
    assert Pow(RADIX, 8) == 0x1_0000000000000000_0000000000000000;
  }

  lemma PrimeShape()
    ensures P == Pow(2, 255) - 19
  {
    PowPow(2, 4, 4);
    PowPow(2, 16, 16);
    Weight16();
    assert Pow(2, 4) == 16 && Pow(16, 4) == RADIX;
    assert Pow(2, 256) == 2 * Pow(2, 255);
  }

  lemma {:induction false} ValueUpdate(s: seq<i64>, k: nat, x: i64, n: nat)
    requires k < n <= |s|
    ensures Value(s[k := x], n) == Value(s, n) + (x as int - s[k] as int) * Weight(k)
  {
    if k == n - 1 {
      ValuePrefix(s[k := x], s, n - 1);
      var w := Weight(k);
      Distribute(w, x as int, s[k] as int);
    } else {
      ValueUpdate(s, k, x, n - 1);
    }
  }

  lemma {:induction false} ValuePrefix(s: seq<i64>, t: seq<i64>, n: nat)
    requires n <= |s| && n <= |t| && forall k :: 0 <= k < n ==> s[k] == t[k]
    ensures Value(s, n) == Value(t, n)
  {
    if n == 0 {
    } else {
      ValuePrefix(s, t, n - 1);
    }
  }

  /** Value is linear in the limbs. */
  lemma {:induction false} ValueLinear(c: seq<i64>, a: seq<i64>, f: int, b: seq<i64>, n: nat)
    requires n <= |a| && n <= |b| && n <= |c|
    requires forall k :: 0 <= k < n ==> c[k] as int == a[k] as int + f * b[k] as int
    ensures Value(c, n) == Value(a, n) + f * Value(b, n)
  {
    if n == 0 {
    } else {
      ValueLinear(c, a, f, b, n - 1);
      var x, y, w, v := a[n - 1] as int, b[n - 1] as int, Weight(n - 1), Value(b, n - 1);
      assert c[n - 1] as int == x + f * y;
      Distribute(w, x, f * y);
      Associate(f, y, w);
      Distribute(f, v, y * w);
    }
  }

  lemma {:induction false} ValueSplit(s: seq<i64>, m: nat, n: nat)
    requires m + n <= |s|
    ensures Value(s, m + n) == Value(s, m) + Weight(m) * Value(s[m..], n)
    decreases n
  {
    if n == 0 {
    } else {
      ValueSplit(s, m, n - 1);
      PowAdd(RADIX, m, n - 1);
      var x, u, v, w := s[m + n - 1] as int, Weight(m), Value(s[m..], n - 1), Weight(n - 1);
      Associate(u, x, w);
      Distribute(u, v, x * w);
      assert s[m..][n - 1] == s[m + n - 1];
    }
  }

  lemma {:induction false} DigitsValue(s: seq<i64>, n: nat)
    requires n <= |s| && forall k :: 0 <= k < n ==> 0 <= s[k] as int < RADIX
    ensures 0 <= Value(s, n) < Weight(n)
  {
    if n == 0 {
    } else {
      DigitsValue(s, n - 1);
      var x, w := s[n - 1] as int, Weight(n - 1);
      Monotone(x, RADIX - 1, w);
    }
  }

  // ----- one carry sweep -----

  /** The carry that enters limb i when limbs below i are reduced to digits. */
  function CarryInto(s: seq<i64>, i: nat): int
    requires i <= |s|
  {
    if i == 0 then 0 else (s[i - 1] as int + CarryInto(s, i - 1)) / RADIX
  }

  function Digit(s: seq<i64>, i: nat): i64
    requires i < |s|
  {
    ((s[i] as int + CarryInto(s, i)) % RADIX) as i64
  }

  lemma {:induction false} CarryBound(s: seq<i64>, bound: nat, i: nat)
    requires i <= |s| && Bounded(s, bound * RADIX) && bound >= 1
    ensures -2 * bound <= CarryInto(s, i) <= 2 * bound
  {
    if i == 0 {
    } else {
      CarryBound(s, bound, i - 1);
    }
  }

  /** Carrying splits the value into digits and an overflow at weight 2^(16n). */
  lemma {:induction false} CarryValue(s: seq<i64>, d: seq<i64>, n: nat)
    requires n <= |s| && n <= |d| && forall k :: 0 <= k < n ==> d[k] == Digit(s, k)
    ensures Value(s, n) == Value(d, n) + CarryInto(s, n) * Weight(n)
    ensures 0 <= Value(d, n) < Weight(n)
  {
    DigitsValue(d, n);
    if n == 0 {
    } else {
      CarryValue(s, d, n - 1);
      var x, c, w := s[n - 1] as int, CarryInto(s, n - 1), Weight(n - 1);
      var q, r := (x + c) / RADIX, (x + c) % RADIX;
      assert x + c == q * RADIX + r;
      Distribute(w, x, c);
      Distribute(w, q * RADIX, r);
      Associate(q, RADIX, w);
    }
  }

  const CARRY_BOUND: int := 0x4000_0000_0000_0000  // 2^62

  /** The 16 limbs after a whole sweep, the overflow folded into limb 0 since 2^256 = 2p + 38. */
  function Carried(s: seq<i64>): (r: seq<i64>)
    requires |s| == 16 && Bounded(s, CARRY_BOUND)
    ensures |r| == 16 && forall k :: 1 <= k < 16 ==> 0 <= r[k] as int < RADIX
  {
    CarryBound(s, 0x4000_0000_0000, 16);
    seq(16, i requires 0 <= i < 16 => if i == 0 then Digit(s, 0) + 38 * (CarryInto(s, 16) as i64) else Digit(s, i))
  }

  /** A sweep removes a multiple of 2p from the value: the carry out, which is the value over 2^256. */
  lemma CarriedValue(s: seq<i64>)
    requires |s| == 16 && Bounded(s, CARRY_BOUND)
    ensures Val(Carried(s)) == Val(s) - CarryInto(s, 16) * (2 * P)
    ensures CarryInto(s, 16) == Val(s) / TWO_TO_THE_256
    ensures Val(Carried(s)) == Val(s) % TWO_TO_THE_256 + 38 * CarryInto(s, 16)
    ensures -38 * 0x8000_0000_0000 <= Carried(s)[0] as int <= 65535 + 38 * 0x8000_0000_0000
  {
    var d := seq(16, i requires 0 <= i < 16 => Digit(s, i));
    CarryBound(s, 0x4000_0000_0000, 16);
    CarryValue(s, d, 16);
    Weight16();
    ValueUpdate(d, 0, Carried(s)[0], 16);
    assert Carried(s) == d[0 := Carried(s)[0]];
    DivModUnique(Val(s), CarryInto(s, 16), Val(d), TWO_TO_THE_256);
  }

  lemma CarriedTwice(s: seq<i64>)
    requires |s| == 16 && Bounded(s, CARRY_BOUND)
    ensures Bounded(Carried(s), CARRY_BOUND)
    ensures -1 <= CarryInto(Carried(s), 16) <= 1
    ensures Reduced(Carried(Carried(s)))
    ensures Cong(Val(Carried(Carried(s))), Val(s), P)
  {
    var t := Carried(s);
    CarriedValue(s);
    CarriedValue(t);
    CarryBound(s, 0x4000_0000_0000, 16);
    CongIntro(Val(t), Val(s), -2 * CarryInto(s, 16), P);
    CongIntro(Val(Carried(t)), Val(t), -2 * CarryInto(t, 16), P);
    CongTrans(Val(Carried(t)), Val(t), Val(s), P);
  }

  /** Three sweeps always reach proper digits. */
  lemma CarriedThrice(s: seq<i64>)
    requires |s| == 16 && Bounded(s, CARRY_BOUND)
    ensures Bounded(Carried(s), CARRY_BOUND) && Bounded(Carried(Carried(s)), CARRY_BOUND)
    ensures Digits(Carried(Carried(Carried(s))))
    ensures Cong(Val(Carried(Carried(Carried(s)))), Val(s), P)
  {
    CarriedTwice(s);
    var u := Carried(Carried(s));
    ReducedIsBounded(u);
    NothingLeftToCarry(s);
    CarriedValue(u);
    CongIntro(Val(u), Val(u), 0, P);
    CongTrans(Val(Carried(u)), Val(u), Val(s), P);
  }

  lemma ReducedIsBounded(s: seq<i64>)
    requires Reduced(s)
    ensures Bounded(s, CARRY_BOUND)
  {}

  lemma NothingLeftToCarry(s: seq<i64>)
    requires |s| == 16 && Bounded(s, CARRY_BOUND)
    requires Bounded(Carried(s), CARRY_BOUND) && Bounded(Carried(Carried(s)), CARRY_BOUND)
    ensures CarryInto(Carried(Carried(s)), 16) == 0
  {
    CarriedValue(s);
    CarriedValue(Carried(s));
    CarriedValue(Carried(Carried(s)));
    CarryBound(s, 0x4000_0000_0000, 16);
    NoThirdCarry(Val(s) % TWO_TO_THE_256, CarryInto(s, 16));
  }

  /** After the second sweep the value lies in [0, 2^256), so the third carries nothing out. */
  lemma NoThirdCarry(d: int, q: int)
    requires 0 <= d < TWO_TO_THE_256 && -0x8000_0000_0000 <= q <= 0x8000_0000_0000
    ensures var v := d + 38 * q; (v % TWO_TO_THE_256 + 38 * (v / TWO_TO_THE_256)) / TWO_TO_THE_256 == 0
  {
    var v, m := d + 38 * q, TWO_TO_THE_256;
    if v < 0 { DivModUnique(v, -1, v + m, m); }
    else if v < m { DivModUnique(v, 0, v, m); }
    else { DivModUnique(v, 1, v - m, m); }
    var w := v % m + 38 * (v / m);
    DivModUnique(w, 0, w, m);
  }
}
