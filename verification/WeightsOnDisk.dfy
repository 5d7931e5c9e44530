/** The whole way of a weight matrix: quantized by the exporter, written to the checkpoint, mapped by
    the loader, multiplied by matmul. Floats on disk are four bytes that read back as the same number. */
module WeightsOnDisk {
  import opened Basics
  import opened ByteFormat
  import Checkpoint
  import opened Quantization

  /** An int8 as the byte that stores it. */
  function ByteOf(n: int): Byte { n % 256 }

  function FromByte(b: Byte): Int8 { if b < 128 then b as Int8 else (b - 256) as Int8 }

  lemma ByteBack(n: int)
    requires -128 <= n < 128
    ensures FromByte(ByteOf(n)) as int == n
  {
  }

  /** The largest magnitude among k values. */
  function Largest(x: seq<real>, from: nat, k: nat): (w: real)
    requires from + k <= |x|
    ensures w >= 0.0 && forall i :: from <= i < from + k ==> Abs(x[i]) <= w
    ensures w > 0.0 ==> exists i :: from <= i < from + k && Abs(x[i]) == w
  {
    if k == 0 then 0.0
    else
      var w := Largest(x, from, k - 1);
      if Abs(x[from + k - 1]) > w then Abs(x[from + k - 1]) else w
  }

  function Scale(x: seq<real>, g: nat): real
    requires g * 64 + 64 <= |x|
  {
    Largest(x, g * 64, 64) / 127.0
  }

  lemma ScaleIsOf(x: seq<real>, g: nat)
    requires g * 64 + 64 <= |x|
    ensures ScaleOf(x, g * 64, g * 64 + 64, Scale(x, g))
  {
    ScaleIsMax(x, g * 64, g * 64 + 64, Largest(x, g * 64, 64));
  }

  function Codes(x: seq<real>, g: nat): (c: seq<Byte>)
    requires g * 64 + 64 <= |x|
    ensures |c| == 64
    ensures forall r :: 0 <= r < 64 ==> c[r] == ByteOf(Q80(x[g * 64 + r], Scale(x, g)))
  {
    seq<Byte>(64, r requires 0 <= r < 64 => ByteOf(Q80(x[g * 64 + r], Scale(x, g))))
  }

  /** quantize_q80: the tensor that write_q80 writes, group by group. */
  function Exported(x: seq<real>, enc: real -> seq<Byte>): (t: Checkpoint.Tensor)
    requires |x| % 64 == 0
    ensures |t.codes| == |t.scales| == |x| / 64
    ensures forall g :: 0 <= g < |x| / 64 ==> t.codes[g] == Codes(x, g) && t.scales[g] == enc(Scale(x, g))
  {
    var m := |x| / 64;
    Checkpoint.Tensor(seq(m, g requires 0 <= g < m => Codes(x, g)), seq(m, g requires 0 <= g < m => enc(Scale(x, g))))
  }

  /** The scales of x survive being stored. */
  ghost predicate Stores(x: seq<real>, enc: real -> seq<Byte>, dec: seq<Byte> -> real) {
    forall g :: 0 <= g < |x| / 64 ==> |enc(Scale(x, g))| == 4 && dec(enc(Scale(x, g))) == Scale(x, g)
  }

  lemma ExportedShape(x: seq<real>, enc: real -> seq<Byte>, dec: seq<Byte> -> real)
    requires |x| % 64 == 0 && Stores(x, enc, dec)
    ensures Checkpoint.Shaped(Exported(x, enc), |x|)
  {
  }

  /** The kernel's view of a tensor in the mapped file. */
  function Mapped(f: seq<Byte>, p: Checkpoint.TensorPtr, size: nat, dec: seq<Byte> -> real): (t: Tensor)
    requires p.q + size <= |f| && p.s + size / 64 * 4 <= |f|
    ensures |t.q| == size && |t.s| == size / 64
    ensures forall e :: 0 <= e < size ==> t.q[e] == FromByte(f[p.q + e])
    ensures forall g :: 0 <= g < size / 64 ==> t.s[g] == dec(f[p.s + 4 * g..p.s + 4 * g + 4])
  {
    Tensor(seq(size, e requires 0 <= e < size => FromByte(f[p.q + e])),
           seq(size / 64, g requires 0 <= g < size / 64 => dec(f[p.s + 4 * g..p.s + 4 * g + 4])))
  }

  lemma InFile(f: seq<Byte>, p: Checkpoint.TensorPtr, t: Checkpoint.Tensor, size: nat)
    requires Checkpoint.Shaped(t, size) && Checkpoint.TensorAt(f, p, t)
    ensures p.q + size <= |f| && p.s + size / 64 * 4 <= |f|
  {
    Checkpoint.TensorSize(t, size);
  }

  /** Where a written tensor is found, its codes and scales are those of quantize_q80. */
  lemma ReadsBack(f: seq<Byte>, p: Checkpoint.TensorPtr, x: seq<real>, enc: real -> seq<Byte>, dec: seq<Byte> -> real,
                  g: nat, r: nat)
    requires |x| % 64 == 0 && Stores(x, enc, dec) && Checkpoint.TensorAt(f, p, Exported(x, enc))
    requires p.q + |x| <= |f| && p.s + |x| / 64 * 4 <= |f| && g < |x| / 64 && r < 64
    ensures var t, e := Mapped(f, p, |x|, dec), g * 64 + r;
      && e < |x| && e / 64 == g && t.s[g] == Scale(x, g)
      && -127 <= Q80(x[e], Scale(x, g)) <= 127 && t.q[e] as int == Q80(x[e], Scale(x, g))
  {
    hide Checkpoint.TensorAt, Checkpoint.Shaped, Stores, Q80, Scale, ScaleOf, FromByte, ByteOf, Close;
    ExportedShape(x, enc, dec);
    var c, e := Exported(x, enc), g * 64 + r;
    Checkpoint.ElementAt(f, p, c, |x|, g, r);
    StoredScale(x, enc, dec, g);
    ScaleIsOf(x, g);
    Q80Close(x, g * 64, g * 64 + 64, Scale(x, g), e);
    ByteBack(Q80(x[e], Scale(x, g)));
    HeldIs(f, p.s + 4 * g, c.scales[g]);
  }

  lemma StoredScale(x: seq<real>, enc: real -> seq<Byte>, dec: seq<Byte> -> real, g: nat)
    requires Stores(x, enc, dec) && g < |x| / 64
    ensures |enc(Scale(x, g))| == 4 && dec(enc(Scale(x, g))) == Scale(x, g)
  {
  }

  lemma HeldIs(f: seq<Byte>, p: nat, b: seq<Byte>)
    requires ByteFormat.Holds(f, p, b)
    ensures p + |b| <= |f| && f[p..p + |b|] == b
  {
  }

  /** Every weight, as the kernel dequantizes it from the file, is within half its group's scale of the
      weight that was exported. */
  lemma LoadedIsClose(f: seq<Byte>, p: Checkpoint.TensorPtr, x: seq<real>, enc: real -> seq<Byte>,
                      dec: seq<Byte> -> real, e: nat)
    requires |x| % 64 == 0 && Stores(x, enc, dec) && Checkpoint.TensorAt(f, p, Exported(x, enc)) && e < |x|
    requires p.q + |x| <= |f| && p.s + |x| / 64 * 4 <= |f|
    ensures var t := Mapped(f, p, |x|, dec);
      && Quantization.Holds(t, 64, |x|) && Abs(Value(t, 64, |x|, e) - x[e]) <= HalfScale(x, e)
  {
    hide Checkpoint.TensorAt, Stores, Scale, ScaleOf, FromByte, ByteOf, Q80, Mul;
    var t, g := Mapped(f, p, |x|, dec), e / 64;
    assert e == g * 64 + e % 64;
    ReadsBack(f, p, x, enc, dec, g, e % 64);
    ScaleIsOf(x, g);
    Q80Close(x, g * 64, g * 64 + 64, Scale(x, g), e);
    assert Close(x[e], t.q[e], t.s[g]);
    CloseIs(x[e], t.q[e], t.s[g]);
  }

  // ---------- the error of a product ----------

  /** Half the scale of the group of weight e. */
  function HalfScale(x: seq<real>, e: nat): real
    requires |x| % 64 == 0 && e < |x|
  {
    Scale(x, e / 64) / 2.0
  }

  /** The dot product of k activations with the weights as they were before quantization. */
  function OriginalDot(weights: seq<real>, x: Tensor, n: nat, from: nat, k: nat): real
    requires Quantization.Holds(x, 64, n) && from + k <= |weights| && k <= n
  {
    if k == 0 then 0.0
    else OriginalDot(weights, x, n, from, k - 1) + Mul(Value(x, 64, n, k - 1), weights[from + k - 1])
  }

  /** Half the scale of each weight, weighted by the magnitude of the activation it meets. */
  function WeightBound(weights: seq<real>, x: Tensor, n: nat, from: nat, k: nat): real
    requires Quantization.Holds(x, 64, n) && from + k <= |weights| && k <= n && |weights| % 64 == 0
  {
    if k == 0 then 0.0
    else
      WeightBound(weights, x, n, from, k - 1)
      + Mul(Abs(Value(x, 64, n, k - 1)), HalfScale(weights, from + k - 1))
  }

  /** Each weight of t is close to its original. */
  ghost predicate AllClose(weights: seq<real>, t: Tensor) {
    |weights| % 64 == 0 && Quantization.Holds(t, 64, |weights|)
    && forall e: nat :: e < |weights| ==> Abs(Value(t, 64, |weights|, e) - weights[e]) <= HalfScale(weights, e)
  }

  lemma MulCommutes(a: real, b: real)
    ensures Mul(a, b) == Mul(b, a)
  {
  }

  lemma {:induction false} RowError(weights: seq<real>, t: Tensor, x: Tensor, n: nat, from: nat, k: nat)
    requires AllClose(weights, t) && Quantization.Holds(x, 64, n) && from + n <= |weights| && k <= n
    ensures Abs(Dot(t, x, 64, |weights|, n, from, k) - OriginalDot(weights, x, n, from, k))
         <= WeightBound(weights, x, n, from, k)
    decreases k
  {
    hide Mul, Quantization.Holds, Value, HalfScale;
    if k > 0 {
      RowError(weights, t, x, n, from, k - 1);
      var e, v := from + k - 1, Value(x, 64, n, k - 1);
      MulCommutes(Value(t, 64, |weights|, e), v);
      MulError(v, Value(t, 64, |weights|, e), weights[e], HalfScale(weights, e));
    }
  }

  /** One row of a product with the query weights of layer l, from exporting the model to multiplying: off
      from the product with the original weights by at most the weighted sum of the half-scales. The
      weights that are multiplied are each close to the original. */
  method QueryRow(m: Checkpoint.Model, l: nat, weights: seq<real>, enc: real -> seq<Byte>, dec: seq<Byte> -> real,
                  x: Tensor, n: nat, row: nat)
    returns (val: real, ghost w: Tensor)
    requires Checkpoint.WellFormed(m) && l < |m.wq|
    requires |weights| % 64 == 0 && Stores(weights, enc, dec) && m.wq[l] == Exported(weights, enc)
    requires n % 64 == 0 && row * n + n <= |weights|
    requires Quantization.Holds(x, 64, n) && forall i :: 0 <= i < |x.q| ==> -127 <= x.q[i]
    ensures Abs(val - OriginalDot(weights, x, n, row * n, n)) <= WeightBound(weights, x, n, row * n, n)
    ensures AllClose(weights, w) && |w.q| == |weights| && |w.s| == |weights| / 64
    ensures val == Dot(w, x, 64, |weights|, n, row * n, n)
  {
    hide Checkpoint.WellFormed, Quantization.Holds, Dot, OriginalDot, WeightBound, Exported, Stores, Whole, Aligned;
    var t := LoadQuery(m, l, weights, enc, dec);
    w := t;
    WholeRow(n);
    val := MatmulRow(t, x, 64, |weights|, n, row);
    RowError(weights, t, x, n, row * n, n);
  }

  lemma WholeRow(n: nat)
    requires n % 64 == 0
    ensures Aligned(64, 4) && Aligned(n, 64) && Whole(n, 64) == n
  {
  }

  /** Exporting the model and loading the query weights of layer l. */
  method LoadQuery(m: Checkpoint.Model, l: nat, weights: seq<real>, enc: real -> seq<Byte>, dec: seq<Byte> -> real)
    returns (t: Tensor)
    requires Checkpoint.WellFormed(m) && l < |m.wq|
    requires |weights| % 64 == 0 && Stores(weights, enc, dec) && m.wq[l] == Exported(weights, enc)
    ensures AllClose(weights, t) && |t.q| == |weights| && |t.s| == |weights| / 64
  {
    hide Checkpoint.WellFormed, Checkpoint.Pieces, Checkpoint.Layout, Checkpoint.ReadConfig, Stores, Value,
      Exported, Mapped, HalfScale;
    var file := Checkpoint.Export(m);
    Checkpoint.LoadsWhatWasWritten(m);
    var loaded := Checkpoint.Load(file, true);
    var wq := loaded.value.1.wq;
    QueryFound(m, l);
    ExportedShape(weights, enc, dec);
    InFile(file, wq[l], m.wq[l], |weights|);
    t := Mapped(file, wq[l], |weights|, dec);
    EnoughScales(t, |weights|);
    forall e: nat | e < |weights|
      ensures Abs(Value(t, 64, |weights|, e) - weights[e]) <= HalfScale(weights, e)
    {
      LoadedIsClose(file, wq[l], weights, enc, dec, e);
    }
  }

  lemma EnoughScales(t: Tensor, n: nat)
    requires |t.q| == n && |t.s| == n / 64 && n % 64 == 0
    ensures Quantization.Holds(t, 64, n)
  {
  }

  lemma QueryFound(m: Checkpoint.Model, l: nat)
    requires Checkpoint.WellFormed(m) && Checkpoint.Dims(m.config) && l < |m.wq|
    requires Checkpoint.Found(Concat(Checkpoint.Pieces(m)), Checkpoint.Layout(m.config), m)
    ensures l < |Checkpoint.Layout(m.config).wq|
    ensures Checkpoint.TensorAt(Concat(Checkpoint.Pieces(m)), Checkpoint.Layout(m.config).wq[l], m.wq[l])
  {
    hide Checkpoint.WellFormed, Checkpoint.Pieces, Checkpoint.Layout, Checkpoint.TensorAt, Concat;
  }
}
