/** The traffic sensor (sensor_struct.c, measurement.c): a window of samples, a weighted
    prediction, and an alert that is raised and cancelled. */
module Sensor {

  const WINDOW_SIZE: nat := 100
  const COUNT_INTERVAL: nat := 10
  const TWO64: nat := 0x1_0000_0000_0000_0000
  const TWO32: nat := 0x1_0000_0000

  type Counter = c: int | 0 <= c < TWO64

  // Counters

  /** How far a counter has moved between two readings, as `read_counters` computes it. */
  function Moved(first: Counter, second: Counter): Counter {
    if second < first then (second + (TWO64 - 1 - first)) % TWO64 else second - first
  }

  /** It is the distance that the counter has gone if and only if it has not wrapped;
      after a wrap it is one short. */
  lemma MovedExact(first: Counter, distance: nat)
    requires distance < TWO64
    ensures var second := (first + distance) % TWO64;
            && (Moved(first, second) == distance <==> first + distance < TWO64)
            && (first + distance >= TWO64 ==> Moved(first, second) == distance - 1)
  {
  }

  datatype Reading = Reading(inPkt: Counter, outPkt: Counter, inByte: Counter, outByte: Counter)

  /** `read_counters`. The branch for the outgoing bytes tests the outgoing packets. */
  function Counted(a: Reading, b: Reading): Reading {
    Reading(Moved(a.inPkt, b.inPkt), Moved(a.outPkt, b.outPkt), Moved(a.inByte, b.inByte),
            if b.outPkt < a.outPkt then (b.outByte + (TWO64 - 1 - a.outByte)) % TWO64
            else (b.outByte - a.outByte) % TWO64)
  }

  /** The reading after these distances. */
  function Gone(a: Reading, d: Reading): Reading {
    Reading((a.inPkt + d.inPkt) % TWO64, (a.outPkt + d.outPkt) % TWO64,
            (a.inByte + d.inByte) % TWO64, (a.outByte + d.outByte) % TWO64)
  }

  /** Each counter but that of the outgoing bytes is counted exactly if and only if it has
      not wrapped, and is otherwise one short. */
  lemma CountedExact(a: Reading, d: Reading)
    ensures var c := Counted(a, Gone(a, d));
            && c.inPkt == (if a.inPkt + d.inPkt < TWO64 then d.inPkt else d.inPkt - 1)
            && c.outPkt == (if a.outPkt + d.outPkt < TWO64 then d.outPkt else d.outPkt - 1)
            && c.inByte == (if a.inByte + d.inByte < TWO64 then d.inByte else d.inByte - 1)
  {
    hide Moved;
    MovedExact(a.inPkt, d.inPkt);
    MovedExact(a.outPkt, d.outPkt);
    MovedExact(a.inByte, d.inByte);
  }

  /** A counter is behind its last reading if and only if it has wrapped. */
  lemma Behind(a: Counter, distance: Counter)
    ensures (a + distance) % TWO64 < a <==> a + distance >= TWO64
  {
    assert (a + distance) % TWO64 == if a + distance < TWO64 then a + distance else a + distance - TWO64;
  }

  /** The outgoing bytes are exact if and only if the packet counter has not wrapped,
      whatever the byte counter did; otherwise they are one short. */
  lemma OutBytesExact(a: Reading, d: Reading)
    ensures Counted(a, Gone(a, d)).outByte == if a.outPkt + d.outPkt < TWO64 then d.outByte else (d.outByte - 1) % TWO64
  {
    Around(a.outByte, Gone(a, d).outByte, d.outByte);
    Behind(a.outPkt, d.outPkt);
  }

  lemma Around(a: Counter, b: Counter, distance: nat)
    requires distance < TWO64 && b == (a + distance) % TWO64
    ensures (b - a) % TWO64 == distance && (b + (TWO64 - 1 - a)) % TWO64 == (distance - 1) % TWO64
  {
    assert b == if a + distance < TWO64 then a + distance else a + distance - TWO64;
  }

  /** `calculate_drop_packets`, cut to 32 bits. */
  function DropPackets(start: Counter, end: Counter): nat {
    Moved(start, end) % TWO32
  }

  /** What a cancel message says is exact if and only if the counter has not wrapped and
      the number has 32 bits. */
  lemma DropPacketsExact(start: Counter, distance: nat)
    requires distance < TWO64
    ensures DropPackets(start, (start + distance) % TWO64) == distance <==>
            start + distance < TWO64 && distance < TWO32
  {
    MovedExact(start, distance);
    if distance > 0 { OneShort(distance); }
  }

  lemma OneShort(distance: nat)
    requires distance > 0
    ensures (distance - 1) % TWO32 != distance
  {
  }

  // Samples

  datatype Vector = Vector(bytePs: real, pktPs: real, asyByte: real, asyPkt: real)

  const ZERO: Vector := Vector(0.0, 0.0, 0.0, 0.0)

  function Add(a: Vector, b: Vector): Vector {
    Vector(a.bytePs + b.bytePs, a.pktPs + b.pktPs, a.asyByte + b.asyByte, a.asyPkt + b.asyPkt)
  }

  function Scale(k: real, a: Vector): Vector {
    Vector(k * a.bytePs, k * a.pktPs, k * a.asyByte, k * a.asyPkt)
  }

  function Divide(a: Vector, k: real): Vector
    requires k != 0.0
  {
    Vector(a.bytePs / k, a.pktPs / k, a.asyByte / k, a.asyPkt / k)
  }

  predicate AtMost(a: Vector, b: Vector) {
    a.bytePs <= b.bytePs && a.pktPs <= b.pktPs && a.asyByte <= b.asyByte && a.asyPkt <= b.asyPkt
  }

  function Rate(a: Counter, b: Counter): real {
    ((a + b) % TWO64 / COUNT_INTERVAL) as real
  }

  /** `caculate_data_vector`: rates are divided as integers, and a zero divisor is one. */
  function DataVector(c: Reading): Vector {
    Vector(Rate(c.inByte, c.outByte), Rate(c.inPkt, c.outPkt),
           c.inByte as real / (if c.outByte == 0 then 1 else c.outByte) as real,
           c.inPkt as real / (if c.outPkt == 0 then 1 else c.outPkt) as real)
  }

  /** The sum of two counts that 64 bits hold. */
  function Wrapped(a: Counter, b: Counter): nat {
    if a + b < TWO64 then a + b else a + b - TWO64
  }

  /** A rate is the whole part of a tenth of what was counted, as far as 64 bits hold it,
      and a ratio times its divisor is what it divides; without outgoing traffic it is the
      incoming count itself. */
  lemma DataVectorMeans(c: Reading)
    ensures var d := DataVector(c);
            && 10.0 * d.bytePs <= Wrapped(c.inByte, c.outByte) as real < 10.0 * (d.bytePs + 1.0)
            && 10.0 * d.pktPs <= Wrapped(c.inPkt, c.outPkt) as real < 10.0 * (d.pktPs + 1.0)
            && d.bytePs.Floor as real == d.bytePs && d.pktPs.Floor as real == d.pktPs
            && (c.outByte > 0 ==> d.asyByte * c.outByte as real == c.inByte as real)
            && (c.outPkt > 0 ==> d.asyPkt * c.outPkt as real == c.inPkt as real)
            && (c.outByte == 0 ==> d.asyByte == c.inByte as real)
            && (c.outPkt == 0 ==> d.asyPkt == c.inPkt as real)
  {
    hide Rate, Wrapped;
    RateMeans(c.inByte, c.outByte);
    RateMeans(c.inPkt, c.outPkt);
    if c.outByte > 0 { Ratio(c.inByte as real, c.outByte as real); }
    if c.outPkt > 0 { Ratio(c.inPkt as real, c.outPkt as real); }
  }

  lemma Ratio(a: real, b: real)
    requires b > 0.0
    ensures a / b * b == a
  {
  }

  lemma RateMeans(a: Counter, b: Counter)
    ensures 10.0 * Rate(a, b) <= Wrapped(a, b) as real < 10.0 * (Rate(a, b) + 1.0)
    ensures Rate(a, b).Floor as real == Rate(a, b)
  {
    assert (a + b) % TWO64 == Wrapped(a, b);
    Tenth(Wrapped(a, b));
  }

  lemma Tenth(n: nat)
    ensures 10.0 * (n / COUNT_INTERVAL) as real <= n as real < 10.0 * ((n / COUNT_INTERVAL) as real + 1.0)
  {
    var q := n / COUNT_INTERVAL;
    assert 10 * q <= n < 10 * (q + 1);
    assert 10.0 * q as real == (10 * q) as real;
  }

  // Prediction

  /** The first `i` samples, newest first, with weights `n`, `n` - 1 and so on. */
  function WeightedSum(w: seq<Vector>, n: nat, i: nat): Vector
    requires i <= |w|
  {
    if i == 0 then ZERO else Add(WeightedSum(w, n, i - 1), Scale((n - (i - 1)) as real, w[i - 1]))
  }

  /** The sum of the first `i` weights. */
  function WeightTotal(n: nat, i: nat): int {
    if i == 0 then 0 else WeightTotal(n, i - 1) + (n - (i - 1))
  }

  lemma {:induction false} WeightTotalIs(n: nat, i: nat)
    requires i <= n
    ensures 2 * WeightTotal(n, i) == i * (2 * n - i + 1)
    decreases i
  {
    if i > 0 {
      WeightTotalIs(n, i - 1);
      assert (i - 1) * (2 * n - (i - 1) + 1) == i * (2 * n - i + 1) - 2 * (n - (i - 1));
    }
  }

  /** The weights add up to n(n + 1) / 2. */
  lemma TotalWeight(n: nat)
    requires n > 0
    ensures WeightTotal(n, n) == n * (n + 1) / 2 && WeightTotal(n, n) > 0
  {
    WeightTotalIs(n, n);
    assert n * (2 * n - n + 1) == n * (n + 1);
    assert n * (n + 1) >= 2;
  }

  function Predicted(w: seq<Vector>): Vector
    requires w != []
  {
    TotalWeight(|w|);
    Divide(WeightedSum(w, |w|, |w|), WeightTotal(|w|, |w|) as real)
  }

  predicate AllBetween(w: seq<Vector>, lo: Vector, hi: Vector) {
    forall i :: 0 <= i < |w| ==> AtMost(lo, w[i]) && AtMost(w[i], hi)
  }

  lemma ScaleMonotone(k: real, a: Vector, b: Vector)
    requires k >= 0.0 && AtMost(a, b)
    ensures AtMost(Scale(k, a), Scale(k, b))
  {
    Multiply(k, a.bytePs, b.bytePs);
    Multiply(k, a.pktPs, b.pktPs);
    Multiply(k, a.asyByte, b.asyByte);
    Multiply(k, a.asyPkt, b.asyPkt);
  }

  lemma Multiply(k: real, a: real, b: real)
    requires k >= 0.0 && a <= b
    ensures k * a <= k * b
  {
    assert k * (b - a) >= 0.0;
  }

  lemma ScaleAdd(k: real, l: real, a: Vector)
    ensures Add(Scale(k, a), Scale(l, a)) == Scale(k + l, a)
  {
  }

  lemma {:induction false} SumBetween(w: seq<Vector>, n: nat, i: nat, lo: Vector, hi: Vector)
    requires i <= |w| <= n && AllBetween(w, lo, hi)
    ensures AtMost(Scale(WeightTotal(n, i) as real, lo), WeightedSum(w, n, i))
    ensures AtMost(WeightedSum(w, n, i), Scale(WeightTotal(n, i) as real, hi))
    decreases i
  {
    if i > 0 {
      hide Scale;
      SumBetween(w, n, i - 1, lo, hi);
      var k := (n - (i - 1)) as real;
      ScaleMonotone(k, lo, w[i - 1]);
      ScaleMonotone(k, w[i - 1], hi);
      ScaleAdd(WeightTotal(n, i - 1) as real, k, lo);
      ScaleAdd(WeightTotal(n, i - 1) as real, k, hi);
    } else {
      NoWeight(lo);
      NoWeight(hi);
    }
  }

  lemma NoWeight(v: Vector)
    ensures Scale(0.0, v) == ZERO
  {
  }

  lemma DivideBetween(t: real, lo: Vector, v: Vector, hi: Vector)
    requires t > 0.0 && AtMost(Scale(t, lo), v) && AtMost(v, Scale(t, hi))
    ensures AtMost(lo, Divide(v, t)) && AtMost(Divide(v, t), hi)
  {
    Quotient(t, lo.bytePs, v.bytePs, hi.bytePs);
    Quotient(t, lo.pktPs, v.pktPs, hi.pktPs);
    Quotient(t, lo.asyByte, v.asyByte, hi.asyByte);
    Quotient(t, lo.asyPkt, v.asyPkt, hi.asyPkt);
  }

  lemma Quotient(t: real, lo: real, v: real, hi: real)
    requires t > 0.0 && t * lo <= v <= t * hi
    ensures lo <= v / t <= hi
  {
    Cancel(t, lo, v / t);
    Cancel(t, v / t, hi);
  }

  lemma Cancel(t: real, a: real, b: real)
    requires t > 0.0 && t * a <= t * b
    ensures a <= b
  {
    if a > b { Positive(t, a - b); }
  }

  lemma Positive(a: real, b: real)
    requires a > 0.0 && b > 0.0
    ensures a * b > 0.0
  {
  }

  /** The prediction lies between any bounds of the window, component by component. */
  lemma PredictionBetween(w: seq<Vector>, lo: Vector, hi: Vector)
    requires w != [] && AllBetween(w, lo, hi)
    ensures AtMost(lo, Predicted(w)) && AtMost(Predicted(w), hi)
  {
    TotalWeight(|w|);
    SumBetween(w, |w|, |w|, lo, hi);
    DivideBetween(WeightTotal(|w|, |w|) as real, lo, WeightedSum(w, |w|, |w|), hi);
  }

  // Mean and deviation

  function Sum(w: seq<Vector>, i: nat): Vector
    requires i <= |w|
  {
    if i == 0 then ZERO else Add(Sum(w, i - 1), w[i - 1])
  }

  function Mean(w: seq<Vector>): Vector
    requires w != []
  {
    Divide(Sum(w, |w|), |w| as real)
  }

  function Square(a: Vector, mean: Vector): Vector {
    Vector((a.bytePs - mean.bytePs) * (a.bytePs - mean.bytePs),
           (a.pktPs - mean.pktPs) * (a.pktPs - mean.pktPs),
           (a.asyByte - mean.asyByte) * (a.asyByte - mean.asyByte),
           (a.asyPkt - mean.asyPkt) * (a.asyPkt - mean.asyPkt))
  }

  function SquareSum(w: seq<Vector>, mean: Vector, i: nat): Vector
    requires i <= |w|
  {
    if i == 0 then ZERO else Add(SquareSum(w, mean, i - 1), Square(w[i - 1], mean))
  }

  function Variance(w: seq<Vector>): Vector
    requires w != []
  {
    Divide(SquareSum(w, Mean(w), |w|), |w| as real)
  }

  /** `sqrt`, of which only this is assumed. */
  type Root = real -> real

  ghost predicate IsRoot(root: Root) {
    forall x :: x >= 0.0 ==> root(x) >= 0.0
  }

  /** `caculate_std`. */
  function Deviation(root: Root, w: seq<Vector>): Vector
    requires w != []
  {
    var v := Variance(w);
    Vector(root(v.bytePs), root(v.pktPs), root(v.asyByte), root(v.asyPkt))
  }

  lemma SquareNonNegative(a: Vector, mean: Vector)
    ensures AtMost(ZERO, Square(a, mean))
  {
    NonNegative(a.bytePs - mean.bytePs);
    NonNegative(a.pktPs - mean.pktPs);
    NonNegative(a.asyByte - mean.asyByte);
    NonNegative(a.asyPkt - mean.asyPkt);
  }

  lemma NonNegative(x: real)
    ensures x * x >= 0.0
  {
    if x > 0.0 {
      Positive(x, x);
    } else if x < 0.0 {
      Positive(-x, -x);
      assert x * x == (-x) * (-x);
    }
  }

  lemma {:induction false} SquareSumNonNegative(w: seq<Vector>, mean: Vector, i: nat)
    requires i <= |w|
    ensures AtMost(ZERO, SquareSum(w, mean, i))
    decreases i
  {
    if i > 0 {
      SquareSumNonNegative(w, mean, i - 1);
      SquareNonNegative(w[i - 1], mean);
    }
  }

  /** No square root of a negative number is ever taken. */
  lemma VarianceNonNegative(w: seq<Vector>)
    requires w != []
    ensures AtMost(ZERO, Variance(w))
  {
    var s := SquareSum(w, Mean(w), |w|);
    SquareSumNonNegative(w, Mean(w), |w|);
    var n := |w| as real;
    Quotient(n, 0.0, s.bytePs, s.bytePs / n);
    Quotient(n, 0.0, s.pktPs, s.pktPs / n);
    Quotient(n, 0.0, s.asyByte, s.asyByte / n);
    Quotient(n, 0.0, s.asyPkt, s.asyPkt / n);
  }

  lemma {:induction false} PlainSumBetween(w: seq<Vector>, i: nat, lo: Vector, hi: Vector)
    requires i <= |w| && AllBetween(w, lo, hi)
    ensures AtMost(Scale(i as real, lo), Sum(w, i)) && AtMost(Sum(w, i), Scale(i as real, hi))
    decreases i
  {
    if i > 0 {
      hide Scale;
      PlainSumBetween(w, i - 1, lo, hi);
      assert AtMost(lo, w[i - 1]) && AtMost(w[i - 1], hi);
      OneMore((i - 1) as real, lo);
      OneMore((i - 1) as real, hi);
    } else {
      NoWeight(lo);
      NoWeight(hi);
    }
  }

  lemma OneMore(k: real, a: Vector)
    ensures Scale(k + 1.0, a) == Add(Scale(k, a), a)
  {
    ScaleAdd(k, 1.0, a);
  }

  /** The mean lies between any bounds of the window. */
  lemma MeanBetween(w: seq<Vector>, lo: Vector, hi: Vector)
    requires w != [] && AllBetween(w, lo, hi)
    ensures AtMost(lo, Mean(w)) && AtMost(Mean(w), hi)
  {
    PlainSumBetween(w, |w|, lo, hi);
    DivideBetween(|w| as real, lo, Sum(w, |w|), hi);
  }

  lemma {:induction false} SteadySquares(w: seq<Vector>, v: Vector, i: nat)
    requires i <= |w| && AllBetween(w, v, v)
    ensures SquareSum(w, v, i) == ZERO
    decreases i
  {
    if i > 0 {
      SteadySquares(w, v, i - 1);
      assert w[i - 1] == v;
      assert Square(v, v) == ZERO;
    }
  }

  /** Equal samples do not vary. */
  lemma SteadyVariance(w: seq<Vector>, v: Vector)
    requires w != [] && AllBetween(w, v, v)
    ensures Mean(w) == v && Variance(w) == ZERO
  {
    hide Mean;
    MeanBetween(w, v, v);
    SteadySquares(w, v, |w|);
  }

  // How each sample weighs

  function Minus(a: Vector, b: Vector): Vector {
    Vector(a.bytePs - b.bytePs, a.pktPs - b.pktPs, a.asyByte - b.asyByte, a.asyPkt - b.asyPkt)
  }

  lemma Distribute(k: real, a: real, b: real)
    ensures k * a == k * b + k * (a - b)
  {
  }

  lemma ScaleMinus(k: real, a: Vector, b: Vector)
    ensures Scale(k, a) == Add(Scale(k, b), Scale(k, Minus(a, b)))
  {
    Distribute(k, a.bytePs, b.bytePs);
    Distribute(k, a.pktPs, b.pktPs);
    Distribute(k, a.asyByte, b.asyByte);
    Distribute(k, a.asyPkt, b.asyPkt);
  }

  lemma {:induction false} SumMoves(w: seq<Vector>, n: nat, i: nat, v: Vector, k: nat)
    requires i < |w| && k <= |w|
    ensures WeightedSum(w[i := v], n, k) ==
            if k <= i then WeightedSum(w, n, k)
            else Add(WeightedSum(w, n, k), Scale((n - i) as real, Minus(v, w[i])))
    decreases k
  {
    hide Scale;
    if k > 0 {
      SumMoves(w, n, i, v, k - 1);
      if k - 1 == i { ScaleMinus((n - i) as real, v, w[i]); }
    }
  }

  lemma DivideSum(a: real, c: real, d: real, t: real)
    requires t > 0.0
    ensures (a + c * d) / t == a / t + c / t * d
  {
    assert c * d / t == c / t * d;
  }

  /** How much each sample weighs: when the one at `i` changes, the prediction changes by
      (n - i) parts of n(n + 1) / 2, so the newest weighs most and the oldest least. */
  lemma PredictionMoves(w: seq<Vector>, i: nat, v: Vector)
    requires i < |w|
    ensures var n := |w|;
            var part := (n - i) as real / (n * (n + 1) / 2) as real;
            Predicted(w[i := v]) == Add(Predicted(w), Scale(part, Minus(v, w[i])))
  {
    var n := |w|;
    TotalWeight(n);
    SumMoves(w, n, i, v, n);
    hide WeightedSum, WeightTotal, Minus, Divide, Scale, Add;
    DivideSums(WeightedSum(w, n, n), (n - i) as real, Minus(v, w[i]), WeightTotal(n, n) as real);
  }

  lemma DivideSums(a: Vector, c: real, d: Vector, t: real)
    requires t > 0.0
    ensures Divide(Add(a, Scale(c, d)), t) == Add(Divide(a, t), Scale(c / t, d))
  {
    DivideSum(a.bytePs, c, d.bytePs, t);
    DivideSum(a.pktPs, c, d.pktPs, t);
    DivideSum(a.asyByte, c, d.asyByte, t);
    DivideSum(a.asyPkt, c, d.asyPkt, t);
  }

  // The deviation, one component at a time

  datatype Part = BytePs | PktPs | AsyByte | AsyPkt

  function Get(v: Vector, part: Part): real {
    match part
    case BytePs => v.bytePs
    case PktPs => v.pktPs
    case AsyByte => v.asyByte
    case AsyPkt => v.asyPkt
  }

  function Column(w: seq<Vector>, part: Part): seq<real> {
    seq(|w|, i requires 0 <= i < |w| => Get(w[i], part))
  }

  function Total(xs: seq<real>): real {
    if xs == [] then 0.0 else Total(xs[..|xs| - 1]) + xs[|xs| - 1]
  }

  function Squared(x: real): real {
    x * x
  }

  function SquareTotal(xs: seq<real>): real {
    if xs == [] then 0.0 else SquareTotal(xs[..|xs| - 1]) + Squared(xs[|xs| - 1])
  }

  /** n times the sum of the squares, less the square of the sum. */
  function Spread(xs: seq<real>): real {
    |xs| as real * SquareTotal(xs) - Total(xs) * Total(xs)
  }

  lemma ColumnSnoc(w: seq<Vector>, part: Part, i: nat)
    requires 0 < i <= |w|
    ensures var xs := Column(w[..i], part);
            xs[..|xs| - 1] == Column(w[..i - 1], part) && xs[|xs| - 1] == Get(w[i - 1], part)
  {
    assert w[..i][..i - 1] == w[..i - 1];
  }

  lemma {:induction false} SumIs(w: seq<Vector>, i: nat, part: Part)
    requires i <= |w|
    ensures Get(Sum(w, i), part) == Total(Column(w[..i], part))
    decreases i
  {
    if i > 0 {
      hide Column;
      SumIs(w, i - 1, part);
      ColumnSnoc(w, part, i);
      NotEmpty(w, i, part);
    } else {
      assert w[..0] == [];
    }
  }

  lemma NotEmpty(w: seq<Vector>, i: nat, part: Part)
    requires 0 < i <= |w|
    ensures |Column(w[..i], part)| == i
  {
  }

  /** The squares of the distances from `m`, added up. */
  function DistanceTotal(xs: seq<real>, m: real): real {
    if xs == [] then 0.0
    else DistanceTotal(xs[..|xs| - 1], m) + Squared(xs[|xs| - 1] - m)
  }

  lemma {:induction false} DistanceTotalIs(xs: seq<real>, m: real)
    ensures DistanceTotal(xs, m) == SquareTotal(xs) - 2.0 * m * Total(xs) + |xs| as real * m * m
    decreases |xs|
  {
    if xs != [] {
      var k := |xs| - 1;
      hide Squared, Total, SquareTotal;
      DistanceTotalIs(xs[..k], m);
      var x, s, q, n := xs[k], Total(xs[..k]), SquareTotal(xs[..k]), k as real;
      assert Total(xs) == s + x by { LastTotal(xs); }
      assert SquareTotal(xs) == q + Squared(x) by { LastTotal(xs); }
      SquareOfMinus(x, m);
      OneMoreTerm(q, m, s, n, x, Squared(x));
    }
  }

  lemma LastTotal(xs: seq<real>)
    requires xs != []
    ensures Total(xs) == Total(xs[..|xs| - 1]) + xs[|xs| - 1]
    ensures SquareTotal(xs) == SquareTotal(xs[..|xs| - 1]) + Squared(xs[|xs| - 1])
  {
  }

  lemma OneMoreTerm(q: real, m: real, s: real, n: real, x: real, y: real)
    ensures (q - 2.0 * m * s + n * m * m) + (y - 2.0 * m * x + m * m)
         == (q + y) - 2.0 * m * (s + x) + (n + 1.0) * m * m
  {
    assert 2.0 * m * (s + x) == 2.0 * m * s + 2.0 * m * x;
    OneMoreTimes(n, m);
  }

  lemma SquareOfMinus(x: real, m: real)
    ensures Squared(x - m) == Squared(x) - 2.0 * m * x + m * m
  {
  }

  lemma OneMoreTimes(n: real, m: real)
    ensures (n + 1.0) * m * m == n * m * m + m * m
  {
    assert (n + 1.0) * m == n * m + m;
  }

  lemma {:induction false} SquaresAre(w: seq<Vector>, m: Vector, i: nat, part: Part)
    requires i <= |w|
    ensures Get(SquareSum(w, m, i), part) == DistanceTotal(Column(w[..i], part), Get(m, part))
    decreases i
  {
    if i > 0 {
      hide Column, Square, Add, Get, Squared;
      SquaresAre(w, m, i - 1, part);
      ColumnSnoc(w, part, i);
      NotEmpty(w, i, part);
      PartOfAdd(SquareSum(w, m, i - 1), Square(w[i - 1], m), part);
      PartOfSquare(w[i - 1], m, part);
    } else {
      assert w[..0] == [];
    }
  }

  lemma PartOfAdd(a: Vector, b: Vector, part: Part)
    ensures Get(Add(a, b), part) == Get(a, part) + Get(b, part)
  {
  }

  lemma PartOfSquare(a: Vector, m: Vector, part: Part)
    ensures Get(Square(a, m), part) == Squared(Get(a, part) - Get(m, part))
  {
  }

  /** With the mean as `m`, n squared times the variance is the spread. */
  lemma SpreadIs(xs: seq<real>, m: real, v: real)
    requires xs != [] && m == Total(xs) / |xs| as real && v == DistanceTotal(xs, m) / |xs| as real
    ensures |xs| as real * |xs| as real * v == Spread(xs)
  {
    hide Total, SquareTotal, DistanceTotal;
    DistanceTotalIs(xs, m);
    Quotients(|xs| as real, Total(xs), SquareTotal(xs), m, v);
  }

  lemma Quotients(n: real, s: real, q: real, m: real, v: real)
    requires n > 0.0 && m == s / n && v == (q - 2.0 * m * s + n * m * m) / n
    ensures n * n * v == n * q - s * s
  {
    var d := q - 2.0 * m * s + n * m * m;
    Undivide(n, s, m);
    Undivide(n, d, v);
    assert n * m * m == s * m;
    assert d == q - m * s;
    TimesTimes(n, v, d);
    assert n * (q - m * s) == n * q - n * (m * s);
    TimesTimes(n, m, s);
    Rotate(n, m, s);
  }

  lemma Undivide(n: real, a: real, x: real)
    requires n > 0.0 && x == a / n
    ensures n * x == a
  {
  }

  lemma TimesTimes(n: real, v: real, d: real)
    requires n * v == d
    ensures n * n * v == n * d
  {
    assert n * n * v == n * (n * v);
  }

  lemma Rotate(n: real, m: real, s: real)
    requires n * m == s
    ensures n * (m * s) == s * s
  {
    assert n * (m * s) == n * m * s;
  }

  lemma VarianceSpread(w: seq<Vector>, part: Part)
    requires w != []
    ensures |w| as real * |w| as real * Get(Variance(w), part) == Spread(Column(w, part))
  {
    hide Column, SquareSum, Sum, Spread, Total, DistanceTotal;
    assert w[..|w|] == w;
    NotEmpty(w, |w|, part);
    SumIs(w, |w|, part);
    SquaresAre(w, Mean(w), |w|, part);
    PartOfDivide(Sum(w, |w|), |w| as real, part);
    PartOfDivide(SquareSum(w, Mean(w), |w|), |w| as real, part);
    SpreadIs(Column(w, part), Get(Mean(w), part), Get(Variance(w), part));
  }

  lemma PartOfDivide(a: Vector, k: real, part: Part)
    requires k != 0.0
    ensures Get(Divide(a, k), part) == Get(a, part) / k
  {
  }

  ghost predicate IsSquareRoot(root: Root) {
    forall x :: x >= 0.0 ==> root(x) >= 0.0 && root(x) * root(x) == x
  }

  /** The standard deviation of some numbers, free of division. */
  predicate IsDeviation(d: real, xs: seq<real>) {
    d >= 0.0 && |xs| as real * |xs| as real * (d * d) == Spread(xs)
  }

  /** With an exact root, the deviation of every component is the standard deviation of
      that component. */
  lemma DeviationIsStandard(root: Root, w: seq<Vector>, part: Part)
    requires IsSquareRoot(root) && w != []
    ensures IsDeviation(Get(Deviation(root, w), part), Column(w, part))
  {
    hide Variance, Spread, Column;
    VarianceNonNegative(w);
    VarianceSpread(w, part);
    NotEmpty(w, |w|, part);
    assert w[..|w|] == w;
  }

  /** More than three standard deviations of `xs` above `predicted`, without a root. */
  predicate Exceeds(x: real, predicted: real, xs: seq<real>) {
    x > predicted && |xs| as real * |xs| as real * ((x - predicted) * (x - predicted)) > 9.0 * Spread(xs)
  }

  lemma ExceedsExactly(x: real, p: real, d: real, xs: seq<real>)
    requires IsDeviation(d, xs) && xs != []
    ensures x > p + 3.0 * d <==> Exceeds(x, p, xs)
  {
    hide Spread;
    var n, y := |xs| as real, x - p;
    Positive(n, n);
    if y > 0.0 {
      SquaresOrder(y, 3.0 * d);
      assert 3.0 * d * (3.0 * d) == 9.0 * (d * d);
      ScaledOrder(n * n, y * y, 9.0 * (d * d));
      assert n * n * (9.0 * (d * d)) == 9.0 * (n * n * (d * d));
    }
  }

  lemma SquaresOrder(y: real, z: real)
    requires y > 0.0 && z >= 0.0
    ensures y > z <==> y * y > z * z
  {
    if y > z {
      Positive(y - z, y);
      NotNegative(y - z, z);
      assert y * y - z * z == (y - z) * y + (y - z) * z;
    } else {
      NotNegative(z - y, y);
      NotNegative(z - y, z);
      assert z * z - y * y == (z - y) * y + (z - y) * z;
    }
  }

  lemma NotNegative(a: real, b: real)
    requires a >= 0.0 && b >= 0.0
    ensures a * b >= 0.0
  {
  }

  lemma ScaledOrder(k: real, a: real, b: real)
    requires k > 0.0
    ensures k * a > k * b <==> a > b
  {
    if a > b { Positive(k, a - b); } else { NotNegative(k, b - a); }
  }

  /** The test for an attack is the three-sigma rule: the byte rate or the packet rate
      exceeds its prediction by more than three of its standard deviations. */
  lemma AttackExactly(root: Root, w: seq<Vector>, v: Vector)
    requires IsSquareRoot(root) && w != []
    ensures Attack(v, Predicted(w), Deviation(root, w)) <==>
            || Exceeds(v.bytePs, Predicted(w).bytePs, Column(w, BytePs))
            || Exceeds(v.pktPs, Predicted(w).pktPs, Column(w, PktPs))
  {
    hide Deviation, IsDeviation, Exceeds, Column, Predicted;
    DeviationIsStandard(root, w, BytePs);
    DeviationIsStandard(root, w, PktPs);
    NotEmpty(w, |w|, BytePs);
    NotEmpty(w, |w|, PktPs);
    assert w[..|w|] == w;
    var p, d := Predicted(w), Deviation(root, w);
    ExceedsExactly(v.bytePs, p.bytePs, d.bytePs, Column(w, BytePs));
    ExceedsExactly(v.pktPs, p.pktPs, d.pktPs, Column(w, PktPs));
  }

  // The loop

  /** `attack_check`: the sample exceeds the prediction by more than three deviations. */
  predicate Attack(actual: Vector, predicted: Vector, deviation: Vector) {
    || actual.bytePs > predicted.bytePs + 3.0 * deviation.bytePs
    || actual.pktPs > predicted.pktPs + 3.0 * deviation.pktPs
  }

  /** The sequence after one more sample, newest first. */
  function Admit(w: seq<Vector>, v: Vector): (r: seq<Vector>)
    requires |w| <= WINDOW_SIZE
    ensures 0 < |r| <= WINDOW_SIZE
  {
    [v] + (if |w| == WINDOW_SIZE then w[..WINDOW_SIZE - 1] else w)
  }

  /** What one iteration reads: a sample, and the counter of dropped packets. */
  datatype Input = Input(sample: Vector, drops: Counter)

  datatype State = State(window: seq<Vector>, alert: bool, copyOn: bool, startDrops: Counter, cancels: seq<nat>)

  predicate Legal(s: State) {
    0 < |s.window| <= WINDOW_SIZE
  }

  function Start(first: Vector): (s: State)
    ensures Legal(s)
  {
    State([first], false, false, 0, [])
  }

  /** One iteration of the loop in `main`. */
  function Step(root: Root, s: State, input: Input): (r: State)
    requires Legal(s)
    ensures Legal(r)
  {
    var window := if s.alert then s.window else Admit(s.window, input.sample);
    if Attack(input.sample, Predicted(s.window), Deviation(root, s.window)) then
      if s.alert then s.(window := window)
      else s.(window := window, alert := true, copyOn := true, startDrops := input.drops)
    else if s.alert then
      s.(window := window, alert := false, copyOn := false,
         cancels := s.cancels + [DropPackets(s.startDrops, input.drops)])
    else s.(window := window)
  }

  /** The state after the first `n` iterations. */
  function After(root: Root, first: Vector, inputs: seq<Input>, n: nat): (s: State)
    requires n <= |inputs|
    ensures Legal(s)
  {
    if n == 0 then Start(first) else Step(root, After(root, first, inputs, n - 1), inputs[n - 1])
  }

  /** The samples of those iterations that began without an alert, newest first. */
  function Admitted(root: Root, first: Vector, inputs: seq<Input>, n: nat): seq<Vector>
    requires n <= |inputs|
  {
    if n == 0 then [first]
    else
      (if After(root, first, inputs, n - 1).alert then [] else [inputs[n - 1].sample])
      + Admitted(root, first, inputs, n - 1)
  }

  function Latest(w: seq<Vector>): seq<Vector> {
    if |w| <= 100 then w else w[..100]
  }

  /** In every run, the window holds the latest 100 admitted samples, newest first. */
  lemma {:induction false} WindowIsLatest(root: Root, first: Vector, inputs: seq<Input>, n: nat)
    requires n <= |inputs|
    ensures After(root, first, inputs, n).window == Latest(Admitted(root, first, inputs, n))
    ensures Admitted(root, first, inputs, n) != []
    decreases n
  {
    hide Step, Latest, Admit;
    if n == 0 {
      assert Latest([first]) == [first] by { FirstLatest(first); }
    } else {
      WindowIsLatest(root, first, inputs, n - 1);
      StepWindow(root, After(root, first, inputs, n - 1), inputs[n - 1]);
      LatestCons(inputs[n - 1].sample, Admitted(root, first, inputs, n - 1));
      assert [] + Admitted(root, first, inputs, n - 1) == Admitted(root, first, inputs, n - 1);
    }
  }

  lemma FirstLatest(first: Vector)
    ensures Latest([first]) == [first]
  {
  }

  /** A sample enters the window unless an alert is on. */
  lemma StepWindow(root: Root, s: State, input: Input)
    requires Legal(s)
    ensures Step(root, s, input).window == if s.alert then s.window else Admit(s.window, input.sample)
  {
    hide Attack, Predicted, Deviation, Admit;
  }

  lemma LatestCons(v: Vector, w: seq<Vector>)
    ensures |Latest(w)| <= WINDOW_SIZE && Admit(Latest(w), v) == Latest([v] + w)
  {
    if |w| >= WINDOW_SIZE {
      assert ([v] + w)[..WINDOW_SIZE] == [v] + w[..WINDOW_SIZE - 1];
      assert Latest(w)[..WINDOW_SIZE - 1] == w[..WINDOW_SIZE - 1];
    }
  }

  /** In every run, the alert is on after an iteration exactly when its sample breaks the
      three-sigma rule of the latest 100 samples that were admitted before it. */
  lemma AlertExactly(root: Root, first: Vector, inputs: seq<Input>, n: nat)
    requires IsSquareRoot(root) && n < |inputs|
    ensures var w, v := Latest(Admitted(root, first, inputs, n)), inputs[n].sample;
            && w != []
            && (After(root, first, inputs, n + 1).alert <==>
                || Exceeds(v.bytePs, Predicted(w).bytePs, Column(w, BytePs))
                || Exceeds(v.pktPs, Predicted(w).pktPs, Column(w, PktPs)))
  {
    WindowIsLatest(root, first, inputs, n);
    var s := After(root, first, inputs, n);
    AttackExactly(root, s.window, inputs[n].sample);
    StepAlert(root, s, inputs[n]);
  }

  lemma StepAlert(root: Root, s: State, input: Input)
    requires Legal(s)
    ensures Step(root, s, input).alert == Attack(input.sample, Predicted(s.window), Deviation(root, s.window))
  {
    hide Attack, Predicted, Deviation, Admit;
  }

  /** The ended alerts of a run, by the iterations that raised and ended each. */
  datatype Episode = Episode(raised: nat, ended: nat)

  function AlertAt(root: Root, first: Vector, inputs: seq<Input>, n: nat): bool
    requires n <= |inputs|
  {
    After(root, first, inputs, n).alert
  }

  /** The latest iteration up to the `n`th that raised an alert. */
  function LastRaise(root: Root, first: Vector, inputs: seq<Input>, n: nat): (k: nat)
    requires n <= |inputs|
    ensures AlertAt(root, first, inputs, n) ==> k < n
  {
    if n == 0 then 0
    else if AlertAt(root, first, inputs, n) && !AlertAt(root, first, inputs, n - 1) then n - 1
    else if AlertAt(root, first, inputs, n) then LastRaise(root, first, inputs, n - 1)
    else 0
  }

  function Episodes(root: Root, first: Vector, inputs: seq<Input>, n: nat): (r: seq<Episode>)
    requires n <= |inputs|
    ensures forall i :: 0 <= i < |r| ==> r[i].raised < r[i].ended < n
  {
    if n == 0 then []
    else
      Episodes(root, first, inputs, n - 1)
      + (if AlertAt(root, first, inputs, n - 1) && !AlertAt(root, first, inputs, n)
         then [Episode(LastRaise(root, first, inputs, n - 1), n - 1)] else [])
  }

  /** One cancel message for every ended alert and no other, with the packets dropped
      between the two readings; the copy register is on exactly during alerts. */
  lemma {:induction false} CancelsMatchEpisodes(root: Root, first: Vector, inputs: seq<Input>, n: nat)
    requires n <= |inputs|
    ensures var s, episodes := After(root, first, inputs, n), Episodes(root, first, inputs, n);
            && s.copyOn == s.alert && |s.cancels| == |episodes|
            && (s.alert ==> s.startDrops == inputs[LastRaise(root, first, inputs, n)].drops)
            && forall i :: 0 <= i < |episodes| ==>
                 s.cancels[i] == DropPackets(inputs[episodes[i].raised].drops, inputs[episodes[i].ended].drops)
    decreases n
  {
    hide Attack, Predicted, Deviation, DropPackets, Admit;
    if n > 0 { CancelsMatchEpisodes(root, first, inputs, n - 1); }
  }

  /** Steady traffic raises no alert: in a run of equal samples there is never one. */
  lemma {:induction false} SteadyNeverAlerts(root: Root, v: Vector, inputs: seq<Input>, n: nat)
    requires IsRoot(root) && n <= |inputs| && forall i :: 0 <= i < |inputs| ==> inputs[i].sample == v
    ensures var s := After(root, v, inputs, n);
            !s.alert && AllBetween(s.window, v, v)
    decreases n
  {
    if n > 0 {
      hide Step, AllBetween;
      SteadyNeverAlerts(root, v, inputs, n - 1);
      StepSteady(root, After(root, v, inputs, n - 1), inputs[n - 1], v);
    }
  }

  /** A sample no greater than all the window is no attack. */
  lemma StepSteady(root: Root, s: State, input: Input, v: Vector)
    requires IsRoot(root) && Legal(s) && !s.alert && AllBetween(s.window, v, v) && input.sample == v
    ensures !Step(root, s, input).alert && AllBetween(Step(root, s, input).window, v, v)
  {
    hide Attack, Predicted, Deviation;
    NoAttack(root, s.window, v);
  }

  lemma NoAttack(root: Root, w: seq<Vector>, v: Vector)
    requires IsRoot(root) && w != [] && AllBetween(w, v, v)
    ensures !Attack(v, Predicted(w), Deviation(root, w))
  {
    hide Predicted, Variance;
    PredictionBetween(w, v, v);
    VarianceNonNegative(w);
    var x := Variance(w);
    assert root(x.bytePs) >= 0.0 && root(x.pktPs) >= 0.0;
  }
}
