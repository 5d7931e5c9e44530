/** The int8 arithmetic of kernel/src/qwen.c, with exact reals for its floats. Integer accumulators
    are 32 bits wide and proved never to leave that range. */
module Quantization {

  newtype Int32 = x: int | -0x8000_0000 <= x < 0x8000_0000
  newtype Int8 = x: int | -128 <= x < 128

  /** The largest group for which a sum of products of an activation and a weight fits 32 bits. */
  const GROUP_LIMIT: nat := 132_104

  function Abs(x: real): real { if x < 0.0 then -x else x }

  // Products are kept behind a name where a proof only needs a law or two about them.

  function Mul(a: real, b: real): real { a * b }

  lemma MulDiff(v: real, q: real, s: real)
    ensures Mul(v - q, s) == Mul(v, s) - Mul(q, s)
  {
  }

  lemma MulOrder(a: real, b: real, s: real)
    requires s >= 0.0 && a <= b
    ensures Mul(a, s) <= Mul(b, s)
  {
    MulDiff(b, a, s);
  }

  lemma MulHalf(s: real)
    ensures Mul(0.5, s) == s / 2.0 && Mul(-0.5, s) == -(s / 2.0)
  {
  }

  lemma MulBack(x: real, s: real)
    requires s > 0.0
    ensures Mul(x / s, s) == x
  {
  }

  // ---------- rounding ----------

  /** The C conversion of a float to an integer: towards zero. */
  function Truncate(x: real): int { if x >= 0.0 then x.Floor else -((-x).Floor) }

  /** The rounding of quantize: half away from zero. */
  function Round(v: real): int { Truncate(if v < 0.0 then v - 0.5 else v + 0.5) }

  lemma RoundError(v: real)
    ensures Abs(Round(v) as real - v) <= 0.5
    ensures -127.0 <= v <= 127.0 ==> -127 <= Round(v) <= 127
  {
  }

  // ---------- quantize ----------

  /** The scale of a group is the largest magnitude in it over 127. */
  ghost predicate ScaleOf(x: seq<real>, from: nat, to: nat, s: real)
    requires from <= to <= |x|
  {
    && s >= 0.0
    && (forall i :: from <= i < to ==> Abs(x[i]) <= Mul(127.0, s))
    && (s > 0.0 ==> exists i :: from <= i < to && Abs(x[i]) == Mul(127.0, s))
  }

  /** One quantized value is in range and within half a scale of the original. */
  predicate Close(x: real, q: Int8, s: real) {
    -127 <= q <= 127 && Abs(x - Mul(q as real, s)) <= s / 2.0
  }

  /** The code itself: the value over the scale, rounded half away from zero; zero in a group of zeros. */
  predicate Coded(x: real, q: Int8, s: real) {
    if s == 0.0 then q == 0
    else if x / s >= 0.0 then q as int == (x / s + 0.5).Floor
    else q as int == -((0.5 - x / s).Floor)
  }

  lemma CloseWhenScaled(x: real, s: real)
    requires s > 0.0 && Abs(x) <= Mul(127.0, s)
    ensures -127 <= Round(x / s) <= 127
    ensures Abs(x - Mul(Round(x / s) as real, s)) <= s / 2.0
  {
    hide Round, Mul;
    var v := x / s;
    MulBack(x, s);
    ScaledBound(v, s);
    RoundError(v);
    ScaledDifference(v, Round(v) as real, s);
  }

  lemma ScaledBound(v: real, s: real)
    requires s > 0.0 && Abs(Mul(v, s)) <= Mul(127.0, s)
    ensures -127.0 <= v <= 127.0
  {
    assert (v - 127.0) * s == v * s - 127.0 * s;
    assert (v + 127.0) * s == v * s + 127.0 * s;
  }

  lemma ScaledDifference(v: real, q: real, s: real)
    requires s > 0.0 && Abs(q - v) <= 0.5
    ensures Abs(Mul(v, s) - Mul(q, s)) <= s / 2.0
  {
    hide Mul;
    MulDiff(v, q, s);
    MulOrder(v - q, 0.5, s);
    MulOrder(-0.5, v - q, s);
    MulHalf(s);
  }

  /** The first inner loop of quantize: the largest magnitude of a group. */
  method GroupMax(x: seq<real>, from: nat, gs: nat) returns (wmax: real)
    requires from + gs <= |x|
    ensures wmax >= 0.0 && forall i :: from <= i < from + gs ==> Abs(x[i]) <= wmax
    ensures wmax > 0.0 ==> exists i :: from <= i < from + gs && Abs(x[i]) == wmax
  {
    wmax := 0.0;
    for i := 0 to gs
      invariant wmax >= 0.0 && forall j :: from <= j < from + i ==> Abs(x[j]) <= wmax
      invariant wmax > 0.0 ==> exists j :: from <= j < from + i && Abs(x[j]) == wmax
    {
      var val := Abs(x[from + i]);
      if val > wmax {
        wmax := val;
      }
    }
  }

  lemma ScaleIsMax(x: seq<real>, from: nat, to: nat, wmax: real)
    requires from <= to <= |x| && wmax >= 0.0 && forall i :: from <= i < to ==> Abs(x[i]) <= wmax
    requires wmax > 0.0 ==> exists i :: from <= i < to && Abs(x[i]) == wmax
    ensures ScaleOf(x, from, to, wmax / 127.0)
  {
    assert Mul(127.0, wmax / 127.0) == wmax;
  }

  /** One group of quantize. */
  method QuantizeGroup(q: array<Int8>, x: seq<real>, from: nat, gs: nat) returns (scale: real)
    requires from + gs <= |x| && from + gs <= q.Length
    modifies q
    ensures ScaleOf(x, from, from + gs, scale)
    ensures forall i :: from <= i < from + gs ==> Close(x[i], q[i], scale) && Coded(x[i], q[i], scale)
    ensures forall i :: 0 <= i < q.Length && !(from <= i < from + gs) ==> q[i] == old(q[i])
  {
    var wmax := GroupMax(x, from, gs);
    scale := wmax / 127.0;
    ScaleIsMax(x, from, from + gs, wmax);
    if scale == 0.0 {
      ZeroGroup(q, x, from, gs);
    } else {
      RoundGroup(q, x, from, gs, scale);
    }
  }

  method ZeroGroup(q: array<Int8>, x: seq<real>, from: nat, gs: nat)
    requires from + gs <= |x| && from + gs <= q.Length && ScaleOf(x, from, from + gs, 0.0)
    modifies q
    ensures forall i :: from <= i < from + gs ==> Close(x[i], q[i], 0.0) && Coded(x[i], q[i], 0.0)
    ensures forall i :: 0 <= i < q.Length && !(from <= i < from + gs) ==> q[i] == old(q[i])
  {
    for i := 0 to gs
      invariant forall j :: from <= j < from + i ==> q[j] == 0
      invariant forall j :: 0 <= j < q.Length && !(from <= j < from + i) ==> q[j] == old(q[j])
    {
      q[from + i] := 0;
    }
  }

  method RoundGroup(q: array<Int8>, x: seq<real>, from: nat, gs: nat, scale: real)
    requires from + gs <= |x| && from + gs <= q.Length
    requires scale > 0.0 && ScaleOf(x, from, from + gs, scale)
    modifies q
    ensures forall i :: from <= i < from + gs ==> Close(x[i], q[i], scale) && Coded(x[i], q[i], scale)
    ensures forall i :: 0 <= i < q.Length && !(from <= i < from + gs) ==> q[i] == old(q[i])
  {
    hide Close, Coded, Round;
    for i := 0 to gs
      invariant forall j :: from <= j < from + i ==> Close(x[j], q[j], scale) && Coded(x[j], q[j], scale)
      invariant forall j :: 0 <= j < q.Length && !(from <= j < from + i) ==> q[j] == old(q[j])
    {
      CloseWhenScaled(x[from + i], scale);
      q[from + i] := Round(x[from + i] / scale) as Int8;
      IsClose(x[from + i], scale);
    }
  }

  lemma IsClose(x: real, s: real)
    requires s > 0.0
    requires -127 <= Round(x / s) <= 127 && Abs(x - Mul(Round(x / s) as real, s)) <= s / 2.0
    ensures Close(x, Round(x / s) as Int8, s) && Coded(x, Round(x / s) as Int8, s)
  {
    hide Mul;
    var v := x / s;
    assert v < 0.0 ==> -(v - 0.5) == 0.5 - v;
  }

  ghost predicate Quantized(x: seq<real>, q: seq<Int8>, s: seq<real>, gs: nat, groups: nat) {
    gs > 0 && groups * gs <= |x| && groups * gs <= |q| && groups <= |s|
    && forall g :: 0 <= g < groups ==> GroupQuantized(x, q, s, gs, g)
  }

  ghost predicate GroupQuantized(x: seq<real>, q: seq<Int8>, s: seq<real>, gs: nat, g: nat) {
    (g + 1) * gs <= |x| && (g + 1) * gs <= |q| && g < |s|
    && ScaleOf(x, g * gs, (g + 1) * gs, s[g])
    && forall i :: g * gs <= i < (g + 1) * gs ==> Close(x[i], q[i], s[g])
  }

  ghost predicate GroupCoded(x: seq<real>, q: seq<Int8>, s: seq<real>, gs: nat, g: nat) {
    (g + 1) * gs <= |x| && (g + 1) * gs <= |q| && g < |s|
    && forall i :: g * gs <= i < (g + 1) * gs ==> Coded(x[i], q[i], s[g])
  }

  /** quantize: every whole group gets its scale, and every value in it its rounded code, which is in
      [-127, 127] and off by at most half the scale. */
  method Quantize(q: array<Int8>, s: array<real>, x: seq<real>, gs: nat)
    requires gs > 0 && q.Length >= |x| && s.Length >= |x| / gs
    modifies q, s
    ensures Quantized(x, q[..], s[..], gs, |x| / gs)
    ensures forall g :: 0 <= g < |x| / gs ==> GroupCoded(x, q[..], s[..], gs, g)
  {
    hide GroupQuantized, GroupCoded, ScaleOf, Close, Coded;
    var groups := |x| / gs;
    WholeGroups(|x|, gs);
    for group := 0 to groups
      invariant forall g :: 0 <= g < group ==> GroupQuantized(x, q[..], s[..], gs, g)
      invariant forall g :: 0 <= g < group ==> GroupCoded(x, q[..], s[..], gs, g)
    {
      GroupFits(gs, group, groups);
      ghost var before, scales := q[..], s[..];
      var scale := QuantizeGroup(q, x, group * gs, gs);
      s[group] := scale;
      NewGroup(x, q[..], s[..], gs, group);
      forall g | 0 <= g < group
        ensures GroupQuantized(x, q[..], s[..], gs, g) && GroupCoded(x, q[..], s[..], gs, g)
      {
        GroupKept(x, before, scales, q[..], s[..], gs, g, group);
      }
    }
  }

  lemma NewGroup(x: seq<real>, q: seq<Int8>, s: seq<real>, gs: nat, g: nat)
    requires (g + 1) * gs == g * gs + gs && g * gs + gs <= |x| && g * gs + gs <= |q| && g < |s|
    requires ScaleOf(x, g * gs, g * gs + gs, s[g])
    requires forall i :: g * gs <= i < g * gs + gs ==> Close(x[i], q[i], s[g]) && Coded(x[i], q[i], s[g])
    ensures GroupQuantized(x, q, s, gs, g) && GroupCoded(x, q, s, gs, g)
  {
    hide ScaleOf, Close, Coded;
  }

  /** A group stays quantized while a later one is worked on. */
  lemma GroupKept(x: seq<real>, q: seq<Int8>, s: seq<real>, q': seq<Int8>, s': seq<real>, gs: nat, g: nat, group: nat)
    requires GroupQuantized(x, q, s, gs, g) && GroupCoded(x, q, s, gs, g) && g < group
    requires |q'| == |q| && |s'| == |s| && s'[g] == s[g]
    requires forall i :: 0 <= i < |q| && i < group * gs ==> q'[i] == q[i]
    ensures GroupQuantized(x, q', s', gs, g) && GroupCoded(x, q', s', gs, g)
  {
    hide ScaleOf, Close, Coded;
    GroupFits(gs, g, group);
  }

  lemma WholeGroups(n: nat, gs: nat)
    requires gs > 0
    ensures n / gs * gs <= n
  {
  }

  lemma GroupFits(gs: nat, g: nat, groups: nat)
    requires g < groups
    ensures (g + 1) * gs <= groups * gs && (g + 1) * gs == g * gs + gs
  {
  }

  // ---------- the exporter's quantization ----------

  /** numpy's rint: to the nearest integer, halves to the even one. */
  function Rint(v: real): int {
    var f := v.Floor;
    var d := v - f as real;
    if d < 0.5 || (d == 0.5 && f % 2 == 0) then f else f + 1
  }

  /** One code of quantize_q80; an all-zero group divides by one instead of by its zero scale. */
  function Q80(x: real, scale: real): int { Rint(x / (if scale == 0.0 then 1.0 else scale)) }

  lemma RintError(v: real)
    ensures Abs(Rint(v) as real - v) <= 0.5
    ensures -127.0 <= v <= 127.0 ==> -127 <= Rint(v) <= 127
  {
  }

  /** The exporter and the kernel round differently exactly halfway between two integers where the one
      away from zero is odd. */
  lemma RoundingsDiffer(v: real)
    ensures Rint(v) != Round(v) <==> v - v.Floor as real == 0.5 && Round(v) % 2 != 0
  {
    var f := v.Floor;
    if v < 0.0 {
      assert Round(v) == -((0.5 - v).Floor);
      assert (0.5 - v).Floor == if v - f as real <= 0.5 then -f else -f - 1;
    } else {
      assert Round(v) == (v + 0.5).Floor;
      assert (v + 0.5).Floor == if v - f as real < 0.5 then f else f + 1;
    }
  }

  lemma RoundingsAtHalf()
    ensures Rint(0.5) == 0 && Round(0.5) == 1
    ensures Rint(1.5) == 2 && Round(1.5) == 2
  {
  }

  /** quantize_q80 keeps the promises of the kernel's own quantize: with the scale of the group every
      code is in [-127, 127] and within half a scale. */
  lemma Q80Close(x: seq<real>, from: nat, to: nat, s: real, i: nat)
    requires from <= i < to <= |x| && ScaleOf(x, from, to, s)
    ensures -127 <= Q80(x[i], s) <= 127
    ensures Close(x[i], Q80(x[i], s) as Int8, s)
  {
    hide Rint;
    if s == 0.0 {
      assert Mul(127.0, s) == 0.0;
      RintZero();
    } else {
      ScaledRint(x[i], s);
    }
  }

  lemma RintZero()
    ensures Rint(0.0) == 0
  {
  }

  lemma ScaledRint(x: real, s: real)
    requires s > 0.0 && Abs(x) <= Mul(127.0, s)
    ensures -127 <= Rint(x / s) <= 127
    ensures Abs(x - Mul(Rint(x / s) as real, s)) <= s / 2.0
  {
    hide Rint, Mul;
    var v := x / s;
    MulBack(x, s);
    ScaledBound(v, s);
    RintError(v);
    ScaledDifference(v, Rint(v) as real, s);
  }

  // ---------- matmul ----------

  /** int8 values with one scale per group, as in a checkpoint. */
  datatype Tensor = Tensor(q: seq<Int8>, s: seq<real>)

  ghost predicate Holds(t: Tensor, gs: nat, n: nat) {
    gs > 0 && |t.q| >= n && |t.s| * gs >= n
  }

  lemma ScaleInRange(t: Tensor, gs: nat, n: nat, i: nat)
    requires Holds(t, gs, n) && i < n
    ensures i / gs < |t.s|
  {
    LessFactor(i / gs, |t.s|, gs);
  }

  lemma LessFactor(a: nat, b: nat, g: nat)
    requires a * g < b * g
    ensures a < b
  {
    assert a >= b ==> a * g >= b * g;
  }

  /** The scale of the group that value i belongs to. */
  function ScaleAt(t: Tensor, gs: nat, n: nat, i: nat): real
    requires Holds(t, gs, n) && i < n
  {
    ScaleInRange(t, gs, n, i);
    t.s[i / gs]
  }

  /** One value as dequantize_row computes it. */
  function Value(t: Tensor, gs: nat, n: nat, i: nat): real
    requires Holds(t, gs, n) && i < n
  {
    Mul(t.q[i] as real, ScaleAt(t, gs, n, i))
  }

  /** The dot product of k dequantized values of x with those of w from `from` on. */
  function Dot(w: Tensor, x: Tensor, gs: nat, wn: nat, n: nat, from: nat, k: nat): real
    requires Holds(w, gs, wn) && Holds(x, gs, n) && from + n <= wn && k <= n
  {
    if k == 0 then 0.0
    else Dot(w, x, gs, wn, n, from, k - 1) + Mul(Value(w, gs, wn, from + k - 1), Value(x, gs, n, k - 1))
  }

  function Product(a: Int8, b: Int8): int { a as int * b as int }

  function IntDot(w: Tensor, x: Tensor, from: nat, at: nat, k: nat): int
    requires from + k <= |w.q| && at + k <= |x.q|
  {
    if k == 0 then 0
    else IntDot(w, x, from, at, k - 1) + Product(x.q[at + k - 1], w.q[from + k - 1])
  }

  /** Whether a group starts at `a`. */
  predicate Aligned(a: nat, gs: nat)
    requires gs > 0
  {
    a % gs == 0
  }

  lemma DivWithin(a: nat, gs: nat, k: nat)
    requires gs > 0 && a % gs == 0 && k < gs
    ensures (a + k) / gs == a / gs
  {
    var q := a / gs;
    assert a == q * gs;
    var p := (a + k) / gs;
    assert p * gs <= q * gs + k < p * gs + gs;
    LessFactor(p, q + 1, gs);
    LessFactor(q, p + 1, gs);
  }

  lemma MulZero(ws: real, xs: real)
    ensures Mul(Mul(0.0, ws), xs) == 0.0
  {
  }

  lemma MulAcross(total: int, a: int, b: int, ws: real, xs: real)
    ensures Mul(Mul((total + b * a) as real, ws), xs)
         == Mul(Mul(total as real, ws), xs) + Mul(Mul(a as real, ws), Mul(b as real, xs))
  {
    var t, p, q := total as real, a as real, b as real;
    assert (total + b * a) as real == t + q * p;
    assert (t + q * p) * ws == t * ws + q * p * ws;
    assert (t * ws + q * p * ws) * xs == t * ws * xs + q * p * ws * xs;
    assert (p * ws) * (q * xs) == q * p * ws * xs;
  }

  /** Within one group the two scales can be taken out of the sum. */
  lemma {:induction false} GroupFactors(w: Tensor, x: Tensor, gs: nat, wn: nat, n: nat, from: nat, j: nat, k: nat)
    requires Holds(w, gs, wn) && Holds(x, gs, n) && from + n <= wn && j + gs <= n && k <= gs
    requires Aligned(j, gs) && Aligned(from + j, gs)
    ensures Dot(w, x, gs, wn, n, from, j + k) ==
      Dot(w, x, gs, wn, n, from, j)
      + Mul(Mul(IntDot(w, x, from + j, j, k) as real, ScaleAt(w, gs, wn, from + j)), ScaleAt(x, gs, n, j))
    decreases k
  {
    hide Mul, Dot, Value, IntDot, ScaleAt, Aligned, Holds;
    HoldsLengths(w, gs, wn);
    HoldsLengths(x, gs, n);
    var ws, xs := ScaleAt(w, gs, wn, from + j), ScaleAt(x, gs, n, j);
    if k == 0 {
      IntDotNone(w, x, from + j, j);
      MulZero(ws, xs);
    } else {
      GroupFactors(w, x, gs, wn, n, from, j, k - 1);
      DotStep(w, x, gs, wn, n, from, j + k);
      ValuesInGroup(w, x, gs, wn, n, from, j, k - 1);
      var total := IntDot(w, x, from + j, j, k - 1);
      var a, b := w.q[from + j + k - 1], x.q[j + k - 1];
      IntDotStep(w, x, from + j, j, k);
      MulAcross(total, a as int, b as int, ws, xs);
    }
  }

  lemma DotStep(w: Tensor, x: Tensor, gs: nat, wn: nat, n: nat, from: nat, k: nat)
    requires Holds(w, gs, wn) && Holds(x, gs, n) && from + n <= wn && 0 < k <= n
    ensures Dot(w, x, gs, wn, n, from, k) == Dot(w, x, gs, wn, n, from, k - 1)
      + Mul(Value(w, gs, wn, from + k - 1), Value(x, gs, n, k - 1))
  {
  }

  lemma IntDotNone(w: Tensor, x: Tensor, from: nat, at: nat)
    requires from <= |w.q| && at <= |x.q|
    ensures IntDot(w, x, from, at, 0) == 0
  {
  }

  lemma IntDotStep(w: Tensor, x: Tensor, from: nat, at: nat, k: nat)
    requires from + k <= |w.q| && at + k <= |x.q| && k > 0
    ensures IntDot(w, x, from, at, k)
         == IntDot(w, x, from, at, k - 1) + Product(x.q[at + k - 1], w.q[from + k - 1])
  {
  }

  lemma ValuesInGroup(w: Tensor, x: Tensor, gs: nat, wn: nat, n: nat, from: nat, j: nat, k: nat)
    requires Holds(w, gs, wn) && Holds(x, gs, n) && from + n <= wn && j + gs <= n && k < gs
    requires Aligned(j, gs) && Aligned(from + j, gs)
    ensures Value(w, gs, wn, from + (j + k)) == Mul(w.q[from + j + k] as real, ScaleAt(w, gs, wn, from + j))
    ensures Value(x, gs, n, j + k) == Mul(x.q[j + k] as real, ScaleAt(x, gs, n, j))
  {
    hide Mul;
    DivWithin(from + j, gs, k);
    DivWithin(j, gs, k);
  }

  lemma ProductBound(a: Int8, b: Int8)
    requires -127 <= a
    ensures -16256 <= Product(a, b) <= 16256
  {
    IntProductBound(a as int, b as int);
  }

  lemma IntProductBound(x: int, y: int)
    requires -127 <= x <= 127 && -128 <= y <= 128
    ensures -16256 <= x * y <= 16256
  {
    var a := x * y;
    assert (127 - x) * (128 - y) == 16256 - 127 * y - 128 * x + a;
    assert (127 + x) * (128 + y) == 16256 + 127 * y + 128 * x + a;
    assert (127 - x) * (128 + y) == 16256 + 127 * y - 128 * x - a;
    assert (127 + x) * (128 - y) == 16256 - 127 * y + 128 * x - a;
    NatProduct(127 - x, 128 - y);
    NatProduct(127 + x, 128 + y);
    NatProduct(127 - x, 128 + y);
    NatProduct(127 + x, 128 - y);
  }

  lemma NatProduct(a: nat, b: nat)
    ensures a * b >= 0
  {
  }

  /** The innermost loop of matmul: four 32-bit accumulators, four products a round. */
  method GroupDot(w: Tensor, x: Tensor, from: nat, at: nat, gs: nat) returns (r: Int32)
    requires Aligned(gs, 4) && gs <= GROUP_LIMIT && from + gs <= |w.q| && at + gs <= |x.q|
    requires forall i :: 0 <= i < |x.q| ==> -127 <= x.q[i]
    ensures r as int == IntDot(w, x, from, at, gs)
  {
    hide IntDot, Product;
    IntDotNone(w, x, from, at);
    var i0: Int32, i1: Int32, i2: Int32, i3: Int32 := 0, 0, 0, 0;
    var k := 0;
    while k < gs
      invariant k <= gs && k % 4 == 0
      invariant i0 as int + i1 as int + i2 as int + i3 as int == IntDot(w, x, from, at, k)
      invariant -4064 * k <= i0 as int <= 4064 * k && -4064 * k <= i1 as int <= 4064 * k
      invariant -4064 * k <= i2 as int <= 4064 * k && -4064 * k <= i3 as int <= 4064 * k
    {
      ProductBound(x.q[at + k], w.q[from + k]);
      ProductBound(x.q[at + k + 1], w.q[from + k + 1]);
      ProductBound(x.q[at + k + 2], w.q[from + k + 2]);
      ProductBound(x.q[at + k + 3], w.q[from + k + 3]);
      IntDotFour(w, x, from, at, k);
      i0 := i0 + Product(x.q[at + k], w.q[from + k]) as Int32;
      i1 := i1 + Product(x.q[at + k + 1], w.q[from + k + 1]) as Int32;
      i2 := i2 + Product(x.q[at + k + 2], w.q[from + k + 2]) as Int32;
      i3 := i3 + Product(x.q[at + k + 3], w.q[from + k + 3]) as Int32;
      k := k + 4;
    }
    return (i0 + i1) + (i2 + i3);
  }

  lemma IntDotFour(w: Tensor, x: Tensor, from: nat, at: nat, k: nat)
    requires from + k + 4 <= |w.q| && at + k + 4 <= |x.q|
    ensures IntDot(w, x, from, at, k + 4) == IntDot(w, x, from, at, k)
      + Product(x.q[at + k], w.q[from + k])
      + Product(x.q[at + k + 1], w.q[from + k + 1])
      + Product(x.q[at + k + 2], w.q[from + k + 2])
      + Product(x.q[at + k + 3], w.q[from + k + 3])
  {
    IntDotStep(w, x, from, at, k + 1);
    IntDotStep(w, x, from, at, k + 2);
    IntDotStep(w, x, from, at, k + 3);
    IntDotStep(w, x, from, at, k + 4);
  }

  /** The values of a row of `n` that lie in whole groups. */
  function Whole(n: nat, gs: nat): (k: nat)
    requires gs > 0
    ensures k <= n && (Aligned(n, gs) ==> k == n)
  {
    WholeGroups(n, gs);
    n / gs * gs
  }

  /** One output of matmul: for a row that starts a group, exactly the dot product of the dequantized
      operands over the whole groups of the row, which is all of it when the row is whole groups. */
  method MatmulRow(w: Tensor, x: Tensor, gs: nat, wn: nat, n: nat, row: nat) returns (val: real)
    requires gs > 0 && Aligned(gs, 4) && gs <= GROUP_LIMIT
    requires Holds(w, gs, wn) && Holds(x, gs, n) && row * n + n <= wn
    requires forall i :: 0 <= i < |x.q| ==> -127 <= x.q[i]
    ensures Aligned(row * n, gs) || Aligned(n, gs) ==> val == Dot(w, x, gs, wn, n, row * n, Whole(n, gs))
  {
    hide Dot, Holds, Aligned, Whole;
    val := RowFrom(w, x, gs, wn, n, row * n);
    if Aligned(n, gs) {
      DivisibleFrom(n, gs, row);
    }
  }

  /** The loop over the groups of a row. */
  method RowFrom(w: Tensor, x: Tensor, gs: nat, wn: nat, n: nat, from: nat) returns (val: real)
    requires gs > 0 && Aligned(gs, 4) && gs <= GROUP_LIMIT
    requires Holds(w, gs, wn) && Holds(x, gs, n) && from + n <= wn
    requires forall i :: 0 <= i < |x.q| ==> -127 <= x.q[i]
    ensures Aligned(from, gs) ==> val == Dot(w, x, gs, wn, n, from, Whole(n, gs))
  {
    hide Dot, Holds, Mul, IntDot, Aligned, Whole;
    val := 0.0;
    var j := 0;
    DotNone(w, x, gs, wn, n, from);
    AlignedZero(gs);
    while j + gs <= n
      invariant j <= n && Aligned(j, gs) && (Aligned(from, gs) ==> val == Dot(w, x, gs, wn, n, from, j))
      decreases n - j
    {
      var term := GroupTerm(w, x, gs, wn, n, from, j);
      val := val + term;
      j := j + gs;
    }
    NoRest(n, j, gs);
  }

  /** What one round adds to the output. */
  method GroupTerm(w: Tensor, x: Tensor, gs: nat, wn: nat, n: nat, from: nat, j: nat) returns (term: real)
    requires gs > 0 && Aligned(gs, 4) && gs <= GROUP_LIMIT
    requires Holds(w, gs, wn) && Holds(x, gs, n) && from + n <= wn && j + gs <= n && Aligned(j, gs)
    requires forall i :: 0 <= i < |x.q| ==> -127 <= x.q[i]
    ensures Aligned(j + gs, gs)
    ensures Aligned(from, gs) ==> Dot(w, x, gs, wn, n, from, j + gs) == Dot(w, x, gs, wn, n, from, j) + term
  {
    hide Dot, Holds, Mul, IntDot, Aligned, Whole, ScaleAt;
    GroupStep(w, x, gs, wn, n, from, j);
    var sum := GroupDot(w, x, from + j, j, gs);
    term := Mul(Mul(sum as real, ScaleAt(w, gs, wn, from + j)), ScaleAt(x, gs, n, j));
  }

  lemma AlignedZero(gs: nat)
    requires gs > 0
    ensures Aligned(0, gs)
  {
  }

  /** One round: from the start of a group it adds the products of one group. */
  lemma GroupStep(w: Tensor, x: Tensor, gs: nat, wn: nat, n: nat, from: nat, j: nat)
    requires gs > 0 && Holds(w, gs, wn) && Holds(x, gs, n) && from + n <= wn && j + gs <= n && Aligned(j, gs)
    ensures Aligned(j + gs, gs) && from + j + gs <= |w.q| && j + gs <= |x.q|
    ensures Aligned(from, gs) ==>
      Dot(w, x, gs, wn, n, from, j + gs) == Dot(w, x, gs, wn, n, from, j)
        + Mul(Mul(IntDot(w, x, from + j, j, gs) as real, ScaleAt(w, gs, wn, from + j)), ScaleAt(x, gs, n, j))
  {
    hide Dot, Mul, IntDot, Holds, ScaleAt;
    HoldsLengths(w, gs, wn);
    HoldsLengths(x, gs, n);
    AlignedSelf(gs);
    DivisibleSum(j, gs, gs);
    if Aligned(from, gs) {
      DivisibleSum(from, j, gs);
      GroupFactors(w, x, gs, wn, n, from, j, gs);
    }
  }

  lemma AlignedSelf(gs: nat)
    requires gs > 0
    ensures Aligned(gs, gs)
  {
  }

  lemma HoldsLengths(t: Tensor, gs: nat, n: nat)
    requires Holds(t, gs, n)
    ensures gs > 0 && |t.q| >= n
  {
  }

  lemma DotNone(w: Tensor, x: Tensor, gs: nat, wn: nat, n: nat, from: nat)
    requires Holds(w, gs, wn) && Holds(x, gs, n) && from + n <= wn
    ensures Dot(w, x, gs, wn, n, from, 0) == 0.0
  {
  }

  lemma DivisibleSum(a: nat, b: nat, gs: nat)
    requires gs > 0 && Aligned(a, gs) && Aligned(b, gs)
    ensures Aligned(a + b, gs)
  {
    var p, q := a / gs, b / gs;
    assert a + b == (p + q) * gs;
    MultipleDivides(p + q, gs);
  }

  lemma MultipleDivides(q: nat, gs: nat)
    requires gs > 0
    ensures Aligned(q * gs, gs)
  {
    var r, p := q * gs % gs, q * gs / gs;
    assert q * gs == p * gs + r;
    LessFactor(p, q + 1, gs);
    LessFactor(q, p + 1, gs);
  }

  lemma DivisibleFrom(n: nat, gs: nat, row: nat)
    requires gs > 0 && Aligned(n, gs)
    ensures Aligned(row * n, gs)
  {
    var p := n / gs;
    assert row * n == (row * p) * gs;
    MultipleDivides(row * p, gs);
  }

  lemma NoRest(n: nat, j: nat, gs: nat)
    requires gs > 0 && Aligned(j, gs) && j <= n < j + gs
    ensures j == Whole(n, gs)
  {
    SameQuotient(n / gs, j / gs, n, gs);
  }

  lemma SameQuotient(p: nat, q: nat, n: nat, gs: nat)
    requires p * gs <= n < p * gs + gs && q * gs <= n < q * gs + gs
    ensures p == q
  {
    assert (p + 1) * gs == p * gs + gs && (q + 1) * gs == q * gs + gs;
    LessFactor(p, q + 1, gs);
    LessFactor(q, p + 1, gs);
  }

  /** matmul: every output whose row starts a group is the dot product of the dequantized operands over
      the whole groups of the row; with rows of whole groups that is every output and the whole row. */
  method Matmul(xout: array<real>, w: Tensor, x: Tensor, gs: nat, n: nat, d: nat)
    requires gs > 0 && Aligned(gs, 4) && gs <= GROUP_LIMIT
    requires Holds(w, gs, d * n) && Holds(x, gs, n) && xout.Length >= d
    requires forall i :: 0 <= i < |x.q| ==> -127 <= x.q[i]
    modifies xout
    ensures forall i :: 0 <= i < d ==> RowIs(xout[i], w, x, gs, n, d, i)
    ensures forall i :: d <= i < xout.Length ==> xout[i] == old(xout[i])
  {
    hide RowIs, Holds, Aligned, Whole, Dot;
    for i := 0 to d
      invariant forall k :: 0 <= k < i ==> RowIs(xout[k], w, x, gs, n, d, k)
      invariant forall k :: d <= k < xout.Length ==> xout[k] == old(xout[k])
    {
      RowInMatrix(i, n, d);
      xout[i] := MatmulRow(w, x, gs, d * n, n, i);
      RowDone(xout[i], w, x, gs, n, d, i);
    }
  }

  lemma RowInMatrix(i: nat, n: nat, d: nat)
    requires i < d
    ensures i * n + n <= d * n
  {
    assert (i + 1) * n <= d * n;
  }

  /** Output i of the product of a d by n matrix. */
  ghost predicate RowIs(val: real, w: Tensor, x: Tensor, gs: nat, n: nat, d: nat, i: nat) {
    && Holds(w, gs, d * n) && Holds(x, gs, n) && i * n + n <= d * n
    && (Aligned(i * n, gs) || Aligned(n, gs) ==> val == Dot(w, x, gs, d * n, n, i * n, Whole(n, gs)))
  }

  lemma RowDone(val: real, w: Tensor, x: Tensor, gs: nat, n: nat, d: nat, i: nat)
    requires Holds(w, gs, d * n) && Holds(x, gs, n) && i * n + n <= d * n
    requires Aligned(i * n, gs) || Aligned(n, gs) ==> val == Dot(w, x, gs, d * n, n, i * n, Whole(n, gs))
    ensures RowIs(val, w, x, gs, n, d, i)
  {
    hide Dot, Aligned, Whole;
  }

  // ---------- the error of a quantized activation ----------

  /** The dot product with the activations before quantization. */
  function ExactDot(w: Tensor, xs: seq<real>, gs: nat, wn: nat, from: nat, k: nat): real
    requires Holds(w, gs, wn) && from + k <= wn && k <= |xs|
  {
    if k == 0 then 0.0
    else ExactDot(w, xs, gs, wn, from, k - 1) + Mul(Value(w, gs, wn, from + k - 1), xs[k - 1])
  }

  /** Half the scale of each activation, weighted by the magnitude of the weight it meets. */
  function ErrorBound(w: Tensor, x: Tensor, gs: nat, wn: nat, n: nat, from: nat, k: nat): real
    requires Holds(w, gs, wn) && Holds(x, gs, n) && from + n <= wn && k <= n
  {
    if k == 0 then 0.0
    else
      ErrorBound(w, x, gs, wn, n, from, k - 1)
      + Mul(Abs(Value(w, gs, wn, from + k - 1)), ScaleAt(x, gs, n, k - 1) / 2.0)
  }

  lemma MulError(v: real, x: real, y: real, e: real)
    requires Abs(x - y) <= e
    ensures Abs(Mul(v, x) - Mul(v, y)) <= Mul(Abs(v), e)
  {
    var d := x - y;
    assert v * x - v * y == v * d;
    if v >= 0.0 {
      MulOrder(d, e, v);
      MulOrder(-e, d, v);
      assert (-e) * v == -(v * e);
    } else {
      MulOrder(d, e, -v);
      MulOrder(-e, d, -v);
      assert (-v) * e == -(v * e) && d * (-v) == -(v * d) && (-e) * (-v) == v * e;
    }
  }

  /** Quantizing the activations changes a dot product by at most the weighted sum of the
      half-scales. */
  lemma {:induction false} OutputError(w: Tensor, x: Tensor, xs: seq<real>, gs: nat, wn: nat, n: nat,
                                       from: nat, k: nat)
    requires Holds(w, gs, wn) && Holds(x, gs, n) && from + n <= wn && k <= Whole(n, gs) && n == |xs|
    requires Quantized(xs, x.q, x.s, gs, n / gs)
    ensures Abs(Dot(w, x, gs, wn, n, from, k) - ExactDot(w, xs, gs, wn, from, k))
         <= ErrorBound(w, x, gs, wn, n, from, k)
    decreases k
  {
    hide Mul, Quantized, Holds, Value, ScaleAt, Whole;
    if k > 0 {
      OutputError(w, x, xs, gs, wn, n, from, k - 1);
      var i := k - 1;
      ElementClose(x, xs, gs, n, i);
      var v, e := Value(w, gs, wn, from + i), ScaleAt(x, gs, n, i) / 2.0;
      MulError(v, Value(x, gs, n, i), xs[i], e);
    }
  }

  lemma ElementClose(x: Tensor, xs: seq<real>, gs: nat, n: nat, i: nat)
    requires Holds(x, gs, n) && i < Whole(n, gs) && n == |xs|
    requires Quantized(xs, x.q, x.s, gs, n / gs)
    ensures Abs(Value(x, gs, n, i) - xs[i]) <= ScaleAt(x, gs, n, i) / 2.0
  {
    hide Close, Mul, Quantized, GroupQuantized, Whole, Within, Holds;
    HoldsLengths(x, gs, n);
    var g := i / gs;
    InGroup(i, n, gs);
    QuantizedGroup(xs, x.q, x.s, gs, n / gs, g);
    MemberClose(xs, x.q, x.s, gs, g, i);
    CloseIs(xs[i], x.q[i], x.s[g]);
  }

  /** Value i belongs to group g. */
  predicate Within(i: nat, g: nat, gs: nat) { g * gs <= i < (g + 1) * gs }

  lemma MemberClose(x: seq<real>, q: seq<Int8>, s: seq<real>, gs: nat, g: nat, i: nat)
    requires GroupQuantized(x, q, s, gs, g) && Within(i, g, gs)
    ensures i < |x| && i < |q| && g < |s| && Close(x[i], q[i], s[g])
  {
    hide Close, ScaleOf;
  }

  lemma InGroup(i: nat, n: nat, gs: nat)
    requires gs > 0 && i < Whole(n, gs)
    ensures Within(i, i / gs, gs) && i / gs < n / gs
  {
    var g := i / gs;
    assert g * gs <= i < g * gs + gs == (g + 1) * gs;
    LessFactor(g, n / gs, gs);
  }

  lemma QuantizedGroup(x: seq<real>, q: seq<Int8>, s: seq<real>, gs: nat, groups: nat, g: nat)
    requires Quantized(x, q, s, gs, groups) && g < groups
    ensures GroupQuantized(x, q, s, gs, g)
  {
  }

  lemma CloseIs(x: real, q: Int8, s: real)
    requires Close(x, q, s)
    ensures Abs(Mul(q as real, s) - x) <= s / 2.0
  {
    hide Mul;
  }
}
