/**
 The two-layer fixed-point classifier: 128 signed bytes, 16 hidden units, 2 outputs.
 Sums are 32-bit; shifts right are divisions rounding down.
 */
module Inference {
  import opened MachineInts
  import opened NumberTheory

  const INPUT_DIM: nat := 128
  const HIDDEN_DIM: nat := 16

  /** The constant tables of the classifier. */
  datatype Model = Model(w1: seq<seq<i16>>, b1: seq<i16>, w2: seq<seq<i16>>, b2: seq<i16>)

  predicate Shaped(m: Model) {
    && |m.w1| == |m.b1| == HIDDEN_DIM && (forall i :: 0 <= i < HIDDEN_DIM ==> |m.w1[i]| == INPUT_DIM)
    && |m.w2| == |m.b2| == 2 && (forall i :: 0 <= i < 2 ==> |m.w2[i]| == HIDDEN_DIM)
  }

  function AbsSum(row: seq<i16>, n: nat): nat
    requires n <= |row|
  {
    if n == 0 then 0 else AbsSum(row, n - 1) + Abs(row[n - 1] as int)
  }

  /** The largest absolute row sum of output weights for which no 32-bit sum can overflow. */
  const ROW_BOUND: nat := 1004

  predicate Safe(m: Model) {
    Shaped(m) && forall i :: 0 <= i < 2 ==> AbsSum(m.w2[i], HIDDEN_DIM) <= ROW_BOUND
  }

  /** The byte read as a signed char. */
  function Signed(b: u8): int { if b < 0x80 then b as int else b as int - 0x100 }

  /** Two's complement: the only number from -128 to 127 congruent to the byte modulo 256. */
  function Features(input: seq<u8>): (x: seq<int>)
    ensures |x| == |input|
    ensures forall j :: 0 <= j < |x| ==> x[j] == (input[j] as int + 0x80) % 0x100 - 0x80
  {
    seq(|input|, j requires 0 <= j < |input| => Signed(input[j]))
  }

  function Dot(x: seq<int>, row: seq<i16>, n: nat): int
    requires n <= |x| && n <= |row|
  {
    if n == 0 then 0 else Dot(x, row, n - 1) + x[n - 1] * row[n - 1] as int
  }

  function Max0(x: int): nat { if x > 0 then x else 0 }

  /** Hidden unit i on exact integers. */
  function Hidden(m: Model, x: seq<int>, i: nat): nat
    requires Shaped(m) && |x| == INPUT_DIM && i < HIDDEN_DIM
  {
    Max0((m.b1[i] as int * 0x100 + Dot(x, m.w1[i], INPUT_DIM)) / 0x100)
  }

  function HiddenLayer(m: Model, x: seq<int>): (h: seq<int>)
    requires Shaped(m) && |x| == INPUT_DIM
    ensures |h| == HIDDEN_DIM
  {
    seq(HIDDEN_DIM, i requires 0 <= i < HIDDEN_DIM => Hidden(m, x, i))
  }

  /** Output i on exact integers. */
  function Output(m: Model, x: seq<int>, i: nat): int
    requires Shaped(m) && |x| == INPUT_DIM && i < 2
  {
    (m.b2[i] as int * 0x100 + Dot(HiddenLayer(m, x), m.w2[i], HIDDEN_DIM)) / 0x100
  }

  function Class(m: Model, x: seq<int>): int
    requires Shaped(m) && |x| == INPUT_DIM
  {
    if Output(m, x, 0) >= Output(m, x, 1) then 0 else 1
  }

  /** The margin between the outputs, saturated at 65535. */
  function Confidence(m: Model, x: seq<int>): int
    requires Shaped(m) && |x| == INPUT_DIM
  {
    var diff := Abs(Output(m, x, 0) - Output(m, x, 1));
    if diff > 65535 then 65535 else diff
  }

  /** The reported confidence is the size of the margin, up to saturation, and the class its sign; no
      margin means class 0. */
  lemma ClassAndMargin(m: Model, x: seq<int>)
    requires Shaped(m) && |x| == INPUT_DIM
    ensures var margin := Output(m, x, 1) - Output(m, x, 0); var c := Confidence(m, x);
            && 0 <= c <= 65535
            && (Class(m, x) == 0 || Class(m, x) == 1)
            && (Class(m, x) == 1 <==> margin > 0)
            && (-65535 <= margin <= 65535 ==> margin == if Class(m, x) == 1 then c else -c)
            && (margin > 65535 || margin < -65535 ==> c == 65535)
  {}

  // ----- what each weight does -----

  lemma {:induction false} DotImpulse(x: seq<int>, row: seq<i16>, j: nat, n: nat)
    requires n <= |x| && n <= |row| && j < |x| && j < |row|
    requires forall k :: 0 <= k < |x| && k != j ==> x[k] == 0
    ensures Dot(x, row, n) == if j < n then x[j] * row[j] as int else 0
  {
    if n == 0 {
    } else {
      DotImpulse(x, row, j, n - 1);
    }
  }

  /** An input that is zero but at j reads off the weight of j: every hidden unit answers with its own
      bias and its own weight, rounded down and cut at 0. */
  lemma HiddenImpulse(m: Model, x: seq<int>, j: nat, i: nat)
    requires Shaped(m) && |x| == INPUT_DIM && j < INPUT_DIM && i < HIDDEN_DIM
    requires forall k :: 0 <= k < INPUT_DIM && k != j ==> x[k] == 0
    ensures var sum := 256 * m.b1[i] as int + x[j] * m.w1[i][j] as int;
            Hidden(m, x, i) == if sum < 0 then 0 else sum / 256
  {
    DotImpulse(x, m.w1[i], j, INPUT_DIM);
  }

  /** The same for the second layer, without the cut. */
  lemma OutputImpulse(m: Model, x: seq<int>, j: nat, i: nat)
    requires Shaped(m) && |x| == INPUT_DIM && j < HIDDEN_DIM && i < 2
    requires forall k :: 0 <= k < HIDDEN_DIM && k != j ==> Hidden(m, x, k) == 0
    ensures Output(m, x, i) == (256 * m.b2[i] as int + Hidden(m, x, j) * m.w2[i][j] as int) / 256
  {
    DotImpulse(HiddenLayer(m, x), m.w2[i], j, HIDDEN_DIM);
  }

  // ----- bounds -----

  lemma {:induction false} InputDotBound(x: seq<int>, row: seq<i16>, n: nat)
    requires n <= |x| && n <= |row| && forall j :: 0 <= j < |x| ==> -0x80 <= x[j] < 0x80
    ensures -(n * 0x40_0000) <= Dot(x, row, n) <= n * 0x40_0000
  {
    if n == 0 {
    } else {
      InputDotBound(x, row, n - 1);
      ProductBound(x[n - 1], row[n - 1] as int, 0x80, 0x8000);
    }
  }

  const HIDDEN_MAX: int := 2129920

  lemma {:induction false} HiddenDotBound(h: seq<int>, row: seq<i16>, n: nat)
    requires n <= |h| && n <= |row| && forall j :: 0 <= j < |h| ==> 0 <= h[j] <= HIDDEN_MAX
    ensures -(HIDDEN_MAX * AbsSum(row, n)) <= Dot(h, row, n) <= HIDDEN_MAX * AbsSum(row, n)
  {
    if n == 0 {
    } else {
      HiddenDotBound(h, row, n - 1);
      ProductBound(h[n - 1], row[n - 1] as int, HIDDEN_MAX, Abs(row[n - 1] as int));
      Distribute(HIDDEN_MAX, AbsSum(row, n - 1), Abs(row[n - 1] as int));
    }
  }

  lemma {:induction false} AbsSumGrows(row: seq<i16>, k: nat, n: nat)
    requires k <= n <= |row|
    ensures AbsSum(row, k) <= AbsSum(row, n)
    ensures k < n ==> Abs(row[k] as int) <= AbsSum(row, n)
  {
    if k == n {
    } else {
      AbsSumGrows(row, k, n - 1);
    }
  }

  lemma HiddenBound(m: Model, x: seq<int>, i: nat)
    requires Shaped(m) && |x| == INPUT_DIM && i < HIDDEN_DIM
    requires forall j :: 0 <= j < |x| ==> -0x80 <= x[j] < 0x80
    ensures 0 <= Hidden(m, x, i) <= HIDDEN_MAX
  {
    InputDotBound(x, m.w1[i], INPUT_DIM);
  }

  // ----- the loops -----

  function Relu(x: i32): i32 { if x > 0 then x else 0 }

  /** One hidden unit; the sum stays within 32 bits for every table and every input. */
  method HiddenUnit(m: Model, input: seq<u8>, i: nat) returns (h: i32)
    requires Shaped(m) && |input| == INPUT_DIM && i < HIDDEN_DIM
    ensures h as int == Hidden(m, Features(input), i)
  {
    ghost var x := Features(input);
    var acc: i32 := m.b1[i] as i32 * 0x100;
    for j := 0 to INPUT_DIM
      invariant acc as int == m.b1[i] as int * 0x100 + Dot(x, m.w1[i], j)
    {
      InputDotBound(x, m.w1[i], j);
      InputDotBound(x, m.w1[i], j + 1);
      ProductBound(x[j], m.w1[i][j] as int, 0x80, 0x8000);
      acc := acc + (Signed(input[j]) as i32) * (m.w1[i][j] as i32);
    }
    h := Relu(acc / 0x100);
  }

  /** One output; the row bound keeps its sum within 32 bits. */
  method OutputUnit(m: Model, hidden: seq<i32>, i: nat, ghost h: seq<int>) returns (o: i32)
    requires Safe(m) && |hidden| == |h| == HIDDEN_DIM && i < 2
    requires forall j :: 0 <= j < HIDDEN_DIM ==> hidden[j] as int == h[j] && 0 <= h[j] <= HIDDEN_MAX
    ensures o as int == (m.b2[i] as int * 0x100 + Dot(h, m.w2[i], HIDDEN_DIM)) / 0x100
  {
    var acc: i32 := m.b2[i] as i32 * 0x100;
    for j := 0 to HIDDEN_DIM
      invariant acc as int == m.b2[i] as int * 0x100 + Dot(h, m.w2[i], j)
    {
      RowSumsFit(m, h, i, j);
      RowSumsFit(m, h, i, j + 1);
      acc := acc + hidden[j] * (m.w2[i][j] as i32);
    }
    RowSumsFit(m, h, i, HIDDEN_DIM);
    o := acc / 0x100;
  }

  lemma RowSumsFit(m: Model, h: seq<int>, i: nat, j: nat)
    requires Safe(m) && |h| == HIDDEN_DIM && i < 2 && j <= HIDDEN_DIM
    requires forall k :: 0 <= k < HIDDEN_DIM ==> 0 <= h[k] <= HIDDEN_MAX
    ensures -2146828288 <= m.b2[i] as int * 0x100 + Dot(h, m.w2[i], j) <= 2146828288
    ensures j < HIDDEN_DIM ==> -2138439680 <= h[j] * m.w2[i][j] as int <= 2138439680
  {
    RowDotFits(h, m.w2[i], j);
  }

  lemma RowDotFits(h: seq<int>, row: seq<i16>, j: nat)
    requires |h| == |row| == HIDDEN_DIM && j <= HIDDEN_DIM && AbsSum(row, HIDDEN_DIM) <= ROW_BOUND
    requires forall k :: 0 <= k < HIDDEN_DIM ==> 0 <= h[k] <= HIDDEN_MAX
    ensures -2138439680 <= Dot(h, row, j) <= 2138439680
    ensures j < HIDDEN_DIM ==> -2138439680 <= h[j] * row[j] as int <= 2138439680
  {
    HiddenDotBound(h, row, j);
    AbsSumGrows(row, j, HIDDEN_DIM);
    Monotone(AbsSum(row, j), ROW_BOUND, HIDDEN_MAX);
    if j < HIDDEN_DIM {
      ProductBound(h[j], row[j] as int, HIDDEN_MAX, ROW_BOUND);
    }
  }

  lemma {:induction false} DotFirst(x: seq<int>, row: seq<i16>, n: nat)
    requires 1 <= n <= |x| && n <= |row| && forall j :: 1 <= j < |row| ==> row[j] == 0
    ensures Dot(x, row, n) == x[0] * row[0] as int
    ensures AbsSum(row, n) == Abs(row[0] as int)
  {
    if n == 1 {
      assert Dot(x, row, 0) == 0 && AbsSum(row, 0) == 0;
    } else {
      DotFirst(x, row, n - 1);
    }
  }

  /** The bound is exact: tables with a row sum of 1005 and an input whose sum leaves 32 bits. */
  lemma RowBoundIsExact() returns (m: Model, x: seq<int>)
    ensures Shaped(m) && AbsSum(m.w2[0], HIDDEN_DIM) == ROW_BOUND + 1
    ensures |x| == INPUT_DIM && forall j :: 0 <= j < |x| ==> -0x80 <= x[j] < 0x80
    ensures m.b2[0] as int * 0x100 + Dot(HiddenLayer(m, x), m.w2[0], HIDDEN_DIM) > 0x7fff_ffff
  {
    var row := seq(HIDDEN_DIM, k => if k == 0 then 1005 as i16 else 0);
    m := Model(seq(HIDDEN_DIM, _ => seq(INPUT_DIM, _ => -0x8000 as i16)), seq(HIDDEN_DIM, _ => 0x7fff as i16),
               [row, row], [0x7fff, 0x7fff]);
    x := seq(INPUT_DIM, _ => -0x80);
    SumConstant(x, -0x80, INPUT_DIM);
    DotConstant(x, m.w1[0], -0x8000, INPUT_DIM);
    DotFirst(HiddenLayer(m, x), row, HIDDEN_DIM);
  }

  method Infer(m: Model, input: seq<u8>) returns (cls: i32, confidence: u32)
    requires Safe(m) && |input| == INPUT_DIM
    ensures cls as int == Class(m, Features(input))
    ensures confidence as int == Confidence(m, Features(input))
  {
    ghost var x := Features(input);
    var hidden := new i32[HIDDEN_DIM];
    for i := 0 to HIDDEN_DIM
      invariant forall k :: 0 <= k < i ==> hidden[k] as int == Hidden(m, x, k)
    {
      hidden[i] := HiddenUnit(m, input, i);
    }
    forall k | 0 <= k < HIDDEN_DIM ensures Hidden(m, x, k) <= HIDDEN_MAX { HiddenBound(m, x, k); }
    var output := new i32[2];
    for i := 0 to 2
      invariant forall k :: 0 <= k < i ==> output[k] as int == Output(m, x, k)
      invariant forall k :: 0 <= k < HIDDEN_DIM ==> hidden[k] as int == Hidden(m, x, k)
    {
      output[i] := OutputUnit(m, hidden[..], i, HiddenLayer(m, x));
    }
    OutputRange(m, x, 0);
    OutputRange(m, x, 1);
    if output[0] >= output[1] {
      cls := 0;
      var diff := output[0] - output[1];
      confidence := if diff > 65535 then 65535 else diff as u32;
    } else {
      cls := 1;
      var diff := output[1] - output[0];
      confidence := if diff > 65535 then 65535 else diff as u32;
    }
  }

  lemma OutputRange(m: Model, x: seq<int>, i: nat)
    requires Safe(m) && |x| == INPUT_DIM && i < 2 && forall j :: 0 <= j < |x| ==> -0x80 <= x[j] < 0x80
    ensures -0x80_0000 <= Output(m, x, i) <= 0x80_0000
  {
    forall k | 0 <= k < HIDDEN_DIM ensures Hidden(m, x, k) <= HIDDEN_MAX { HiddenBound(m, x, k); }
    RowSumsFit(m, HiddenLayer(m, x), i, HIDDEN_DIM);
  }

  // ----- the shipped tables -----

  const SHIPPED: Model := Model(
    seq(HIDDEN_DIM, _ => seq(INPUT_DIM, _ => 1 as i16)),
    seq(HIDDEN_DIM, _ => 0 as i16),
    [seq(HIDDEN_DIM, _ => -8 as i16), seq(HIDDEN_DIM, _ => 32 as i16)],
    [16, -16])

  function Sum(x: seq<int>, n: nat): int
    requires n <= |x|
  {
    if n == 0 then 0 else Sum(x, n - 1) + x[n - 1]
  }

  lemma {:induction false} DotConstant(x: seq<int>, row: seq<i16>, c: i16, n: nat)
    requires n <= |x| && n <= |row| && forall j :: 0 <= j < |row| ==> row[j] == c
    ensures Dot(x, row, n) == c as int * Sum(x, n)
  {
    if n == 0 {
    } else {
      DotConstant(x, row, c, n - 1);
      Distribute(c as int, Sum(x, n - 1), x[n - 1]);
    }
  }

  lemma {:induction false} SumConstant(x: seq<int>, c: int, n: nat)
    requires n <= |x| && forall j :: 0 <= j < |x| ==> x[j] == c
    ensures Sum(x, n) == n * c
  {
    if n == 0 {
    } else {
      SumConstant(x, c, n - 1);
      Distribute(c, n - 1, 1);
    }
  }

  lemma {:induction false} AbsSumConstant(row: seq<i16>, c: i16, n: nat)
    requires n <= |row| && forall j :: 0 <= j < |row| ==> row[j] == c
    ensures AbsSum(row, n) == n * Abs(c as int)
  {
    if n == 0 {
    } else {
      AbsSumConstant(row, c, n - 1);
      Distribute(Abs(c as int), n - 1, 1);
    }
  }

  lemma ShippedIsSafe()
    ensures Safe(SHIPPED)
    ensures AbsSum(SHIPPED.w2[0], HIDDEN_DIM) == 128 && AbsSum(SHIPPED.w2[1], HIDDEN_DIM) == 512
  {
    AbsSumConstant(SHIPPED.w2[0], -8, HIDDEN_DIM);
    AbsSumConstant(SHIPPED.w2[1], 32, HIDDEN_DIM);
  }

  /** Under the shipped tables both outputs are functions of the sum of the inputs. */
  lemma ShippedOutputs(x: seq<int>)
    requires |x| == INPUT_DIM
    ensures Shaped(SHIPPED)
    ensures var s := Sum(x, INPUT_DIM); var h := if s < 0 then 0 else s / 256;
            Output(SHIPPED, x, 0) == 16 - (h + 1) / 2 && Output(SHIPPED, x, 1) == 2 * h - 16
  {
    var m, s := SHIPPED, Sum(x, INPUT_DIM);
    var h := Max0(s / 0x100);
    forall i | 0 <= i < HIDDEN_DIM
      ensures HiddenLayer(m, x)[i] == h
    {
      DotConstant(x, m.w1[i], 1, INPUT_DIM);
    }
    SumConstant(HiddenLayer(m, x), h, HIDDEN_DIM);
    DotConstant(HiddenLayer(m, x), m.w2[0], -8, HIDDEN_DIM);
    DotConstant(HiddenLayer(m, x), m.w2[1], 32, HIDDEN_DIM);
  }

  /** The classifier as shipped: class 1 exactly from a sum of 3328 on. */
  lemma ShippedClass(x: seq<int>)
    requires |x| == INPUT_DIM
    ensures Shaped(SHIPPED)
    ensures Class(SHIPPED, x) == if Sum(x, INPUT_DIM) >= 3328 then 1 else 0
  {
    ShippedOutputs(x);
  }

  lemma {:induction false} SumRange(x: seq<int>, n: nat)
    requires n <= |x| && forall j :: 0 <= j < |x| ==> -0x80 <= x[j] < 0x80
    ensures -0x80 * n <= Sum(x, n) <= 0x7f * n
  {
    if n == 0 {
    } else {
      SumRange(x, n - 1);
    }
  }

  /** The confidence in closed form for every sum. It never exceeds 126, and that is attained. */
  lemma ShippedConfidence(x: seq<int>)
    requires |x| == INPUT_DIM && forall j :: 0 <= j < |x| ==> -0x80 <= x[j] < 0x80
    ensures Shaped(SHIPPED)
    ensures var s := Sum(x, INPUT_DIM); var h := if s < 0 then 0 else s / 256;
            Confidence(SHIPPED, x) == if s >= 3328 then 2 * h - 32 + (h + 1) / 2 else 32 - 2 * h - (h + 1) / 2
    ensures Confidence(SHIPPED, x) <= 126
    ensures Sum(x, INPUT_DIM) >= 63 * 0x100 ==> Confidence(SHIPPED, x) == 126
  {
    ShippedOutputs(x);
    SumRange(x, INPUT_DIM);
  }
}
