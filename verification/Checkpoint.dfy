/** The checkpoint file: written by export_model of tools/export_qwen3.py, mapped in place by load_qwen
    of kernel/src/qwen.c. Floats and int8 codes are carried as their bytes. */
module Checkpoint {
  import opened Basics
  import opened ByteFormat

  const MAGIC: Word32 := 0x616A6331
  const VERSION: SignedWord := 1
  const GROUP_SIZE: SignedWord := 64
  const CTX_MAX: SignedWord := 1024
  const HEADER: nat := 256

  datatype Config = Config(
    dim: SignedWord, hiddenDim: SignedWord, nLayers: SignedWord, nHeads: SignedWord, nKvHeads: SignedWord,
    vocabSize: SignedWord, seqLen: SignedWord, headDim: SignedWord, shared: SignedWord, groupSize: SignedWord)

  /** A quantized tensor, group by group: the codes of each group and its scale. */
  datatype Tensor = Tensor(codes: seq<seq<Byte>>, scales: seq<seq<Byte>>)

  datatype Model = Model(
    config: Config,
    attNorm: seq<seq<Byte>>, ffnNorm: seq<seq<Byte>>, finalNorm: seq<Byte>,
    qNorm: seq<seq<Byte>>, kNorm: seq<seq<Byte>>,
    embed: Tensor,
    wq: seq<Tensor>, wk: seq<Tensor>, wv: seq<Tensor>, wo: seq<Tensor>,
    gate: seq<Tensor>, down: seq<Tensor>, up: seq<Tensor>,
    head: Tensor)

  // ---------- shapes ----------

  ghost predicate Shaped(t: Tensor, size: nat) {
    && |t.codes| == |t.scales| && |t.codes| * 64 == size
    && Uniform(t.codes, 64) && Uniform(t.scales, 4)
  }

  ghost predicate AllShaped(ts: seq<Tensor>, n: nat, size: nat) {
    |ts| == n && forall i | 0 <= i < n :: Shaped(ts[i], size)
  }

  predicate Dims(c: Config) {
    && c.dim >= 0 && c.hiddenDim >= 0 && c.nLayers >= 0 && c.nHeads >= 0 && c.nKvHeads >= 0
    && c.vocabSize >= 0 && c.headDim >= 0 && c.groupSize > 0
  }

  function Times(a: nat, b: nat): nat { a * b }

  function HeadsDim(c: Config): nat
    requires Dims(c)
  {
    Times(c.nHeads, c.headDim)
  }

  function KvDim(c: Config): nat
    requires Dims(c)
  {
    Times(c.nKvHeads, c.headDim)
  }

  /** The tensors have the shapes the configuration announces; splitting a tensor into groups already
      means that its size is a multiple of the group size. */
  ghost predicate WellFormed(m: Model) {
    var c := m.config;
    && Dims(c) && c.groupSize == GROUP_SIZE
    && |m.attNorm| == |m.ffnNorm| == |m.qNorm| == |m.kNorm| == c.nLayers
    && Uniform(m.attNorm, 4 * c.dim) && Uniform(m.ffnNorm, 4 * c.dim) && |m.finalNorm| == 4 * c.dim
    && Uniform(m.qNorm, 4 * c.headDim) && Uniform(m.kNorm, 4 * c.headDim)
    && Shaped(m.embed, Times(c.vocabSize, c.dim))
    && AllShaped(m.wq, c.nLayers, Times(c.dim, HeadsDim(c))) && AllShaped(m.wk, c.nLayers, Times(c.dim, KvDim(c)))
    && AllShaped(m.wv, c.nLayers, Times(c.dim, KvDim(c))) && AllShaped(m.wo, c.nLayers, Times(HeadsDim(c), c.dim))
    && AllShaped(m.gate, c.nLayers, Times(c.dim, c.hiddenDim))
    && AllShaped(m.down, c.nLayers, Times(c.hiddenDim, c.dim))
    && AllShaped(m.up, c.nLayers, Times(c.dim, c.hiddenDim))
    && (c.shared == 0 ==> Shaped(m.head, Times(c.dim, c.vocabSize)))
  }

  // ---------- the file ----------

  function ConfigWords(c: Config): (w: seq<SignedWord>)
    ensures |w| == 10
  {
    [c.dim, c.hiddenDim, c.nLayers, c.nHeads, c.nKvHeads, c.vocabSize, c.seqLen, c.headDim, c.shared, c.groupSize]
  }

  function Encoded(ws: seq<SignedWord>): (b: seq<Byte>)
    ensures |b| == 4 * |ws|
  {
    if ws == [] then [] else Le32(Unsigned(ws[0])) + Encoded(ws[1..])
  }

  function Header(c: Config): (b: seq<Byte>)
    ensures |b| == HEADER
  {
    Le32(MAGIC) + Le32(Unsigned(VERSION)) + Encoded(ConfigWords(c)) + Zeros(208)
  }

  function TensorBytes(t: Tensor): seq<Byte> { Concat(t.codes) + Concat(t.scales) }

  function AllBytes(ts: seq<Tensor>): seq<Byte> {
    if ts == [] then [] else TensorBytes(ts[0]) + AllBytes(ts[1..])
  }

  function Pieces(m: Model): (ps: seq<seq<Byte>>)
    ensures |ps| == 15
  {
    [Header(m.config),
     Concat(m.attNorm), Concat(m.ffnNorm), m.finalNorm, Concat(m.qNorm), Concat(m.kNorm),
     TensorBytes(m.embed),
     AllBytes(m.wq), AllBytes(m.wk), AllBytes(m.wv), AllBytes(m.wo),
     AllBytes(m.gate), AllBytes(m.down), AllBytes(m.up),
     if m.config.shared == 0 then TensorBytes(m.head) else []]
  }

  method WriteNorms(file: seq<Byte>, arrays: seq<seq<Byte>>) returns (out: seq<Byte>)
    ensures out == file + Concat(arrays)
  {
    out := file;
    assert arrays[..0] == [];
    for i := 0 to |arrays|
      invariant out == file + Concat(arrays[..i])
    {
      ConcatSnoc(arrays[..i], arrays[i]);
      assert arrays[..i + 1] == arrays[..i] + [arrays[i]];
      out := out + arrays[i];
    }
    assert arrays[..|arrays|] == arrays;
  }

  /** write_q80: all codes of the tensor, then all its scales. */
  method WriteTensor(file: seq<Byte>, t: Tensor) returns (out: seq<Byte>)
    ensures out == file + TensorBytes(t)
  {
    out := WriteNorms(file, t.codes);
    out := WriteNorms(out, t.scales);
  }

  method WriteTensors(file: seq<Byte>, ts: seq<Tensor>) returns (out: seq<Byte>)
    ensures out == file + AllBytes(ts)
  {
    hide TensorBytes;
    out := file;
    assert ts[0..] == ts;
    for i := 0 to |ts|
      invariant out + AllBytes(ts[i..]) == file + AllBytes(ts)
    {
      assert ts[i..][1..] == ts[i + 1..];
      ghost var was := out;
      out := WriteTensor(out, ts[i]);
      assert out + AllBytes(ts[i + 1..]) == was + (TensorBytes(ts[i]) + AllBytes(ts[i + 1..]));
    }
  }

  method ExportNorms(m: Model) returns (file: seq<Byte>)
    ensures file == Concat(Pieces(m)[..6])
  {
    hide Header, Concat, TensorBytes, AllBytes;
    ghost var ps := Pieces(m);
    PieceWritten(ps, 0);
    file := Header(m.config);
    assert file == [] + ps[0];
    PieceWritten(ps, 1);
    file := WriteNorms(file, m.attNorm);
    PieceWritten(ps, 2);
    file := WriteNorms(file, m.ffnNorm);
    PieceWritten(ps, 3);
    file := file + m.finalNorm;
    PieceWritten(ps, 4);
    file := WriteNorms(file, m.qNorm);
    PieceWritten(ps, 5);
    file := WriteNorms(file, m.kNorm);
  }

  method ExportAttention(file: seq<Byte>, m: Model) returns (out: seq<Byte>)
    requires file == Concat(Pieces(m)[..6])
    ensures out == Concat(Pieces(m)[..11])
  {
    hide Header, Concat, TensorBytes, AllBytes;
    ghost var ps := Pieces(m);
    PieceWritten(ps, 6);
    out := WriteTensor(file, m.embed);
    PieceWritten(ps, 7);
    out := WriteTensors(out, m.wq);
    PieceWritten(ps, 8);
    out := WriteTensors(out, m.wk);
    PieceWritten(ps, 9);
    out := WriteTensors(out, m.wv);
    PieceWritten(ps, 10);
    out := WriteTensors(out, m.wo);
  }

  /** export_model. */
  method Export(m: Model) returns (file: seq<Byte>)
    ensures file == Concat(Pieces(m))
  {
    hide Header, Concat, TensorBytes, AllBytes;
    ghost var ps := Pieces(m);
    file := ExportNorms(m);
    file := ExportAttention(file, m);
    PieceWritten(ps, 11);
    file := WriteTensors(file, m.gate);
    PieceWritten(ps, 12);
    file := WriteTensors(file, m.down);
    PieceWritten(ps, 13);
    file := WriteTensors(file, m.up);
    PieceWritten(ps, 14);
    if m.config.shared == 0 {
      file := WriteTensor(file, m.head);
    }
    assert ps[..15] == ps;
  }

  lemma PieceWritten(ps: seq<seq<Byte>>, k: nat)
    requires k < |ps|
    ensures Concat(ps[..k + 1]) == Concat(ps[..k]) + ps[k]
    ensures Concat(ps[..0]) == []
  {
    assert ps[..k + 1] == ps[..k] + [ps[k]];
    ConcatSnoc(ps[..k], ps[k]);
  }

  // ---------- the loader ----------

  datatype TensorPtr = TensorPtr(q: nat, s: nat)

  datatype Weights = Weights(
    attNorm: nat, ffnNorm: nat, finalNorm: nat, qNorm: nat, kNorm: nat,
    tokens: TensorPtr,
    wq: seq<TensorPtr>, wk: seq<TensorPtr>, wv: seq<TensorPtr>, wo: seq<TensorPtr>,
    w1: seq<TensorPtr>, w2: seq<TensorPtr>, w3: seq<TensorPtr>,
    cls: TensorPtr)

  function ReadWords(f: seq<Byte>, p: nat, n: nat): (w: seq<SignedWord>)
    requires p + 4 * n <= |f|
    ensures |w| == n
    decreases n
  {
    if n == 0 then [] else [Signed(Word(f, p))] + ReadWords(f, p + 4, n - 1)
  }

  function ReadConfig(f: seq<Byte>): Config
    requires |f| >= HEADER
  {
    var w := ReadWords(f, 8, 10);
    Config(w[0], w[1], w[2], w[3], w[4], w[5], w[6], w[7], w[8], w[9])
  }

  /** The pointer just past a tensor of `size` codes at `p`. */
  function Past(p: nat, size: nat, gs: nat): nat
    requires gs > 0
  {
    p + size + size / gs * 4
  }

  function Mapped(p: nat, n: nat, size: nat, gs: nat): (r: seq<TensorPtr>)
    requires gs > 0
    ensures |r| == n
    decreases n
  {
    if n == 0 then [] else [TensorPtr(p, p + size)] + Mapped(Past(p, size, gs), n - 1, size, gs)
  }

  function MapEnd(p: nat, n: nat, size: nat, gs: nat): nat
    requires gs > 0
    decreases n
  {
    if n == 0 then p else MapEnd(Past(p, size, gs), n - 1, size, gs)
  }

  /** map_tensors: the pointers of `n` tensors that follow one another, and where the next starts. */
  method MapTensors(ptr: nat, n: nat, size: nat, gs: nat) returns (res: seq<TensorPtr>, next: nat)
    requires gs > 0
    ensures res == Mapped(ptr, n, size, gs) && next == MapEnd(ptr, n, size, gs)
  {
    hide Mapped, MapEnd, Past;
    res, next := [], ptr;
    for i := 0 to n
      invariant res + Mapped(next, n - i, size, gs) == Mapped(ptr, n, size, gs)
      invariant MapEnd(next, n - i, size, gs) == MapEnd(ptr, n, size, gs)
    {
      MapStep(next, n - i, size, gs);
      ghost var rest := Mapped(Past(next, size, gs), n - i - 1, size, gs);
      assert res + ([TensorPtr(next, next + size)] + rest) == res + [TensorPtr(next, next + size)] + rest;
      res := res + [TensorPtr(next, next + size)];
      next := next + size;
      next := next + size / gs * 4;
    }
    MapDone(next, size, gs);
  }

  lemma MapStep(p: nat, n: nat, size: nat, gs: nat)
    requires gs > 0 && n > 0
    ensures Past(p, size, gs) == p + size + size / gs * 4
    ensures Mapped(p, n, size, gs) == [TensorPtr(p, p + size)] + Mapped(Past(p, size, gs), n - 1, size, gs)
    ensures MapEnd(p, n, size, gs) == MapEnd(Past(p, size, gs), n - 1, size, gs)
  {
  }

  lemma MapDone(p: nat, size: nat, gs: nat)
    requires gs > 0
    ensures Mapped(p, 0, size, gs) == [] && MapEnd(p, 0, size, gs) == p
  {
  }

  ghost predicate TensorAt(f: seq<Byte>, p: TensorPtr, t: Tensor) {
    Holds(f, p.q, Concat(t.codes)) && Holds(f, p.s, Concat(t.scales))
  }

  lemma TensorSize(t: Tensor, size: nat)
    requires Shaped(t, size)
    ensures |Concat(t.codes)| == size && |Concat(t.scales)| == size / 64 * 4
  {
    ConcatLength(t.codes, 64);
    ConcatLength(t.scales, 4);
  }

  lemma TensorHeld(f: seq<Byte>, p: nat, t: Tensor, size: nat)
    requires Shaped(t, size) && Holds(f, p, TensorBytes(t))
    ensures TensorAt(f, TensorPtr(p, p + size), t) && Past(p, size, 64) == p + |TensorBytes(t)|
  {
    hide Holds, Shaped;
    TensorSize(t, size);
    HoldsSplit(f, p, Concat(t.codes), Concat(t.scales));
  }

  lemma {:induction false} TensorsHeld(f: seq<Byte>, p: nat, ts: seq<Tensor>, n: nat, size: nat)
    requires AllShaped(ts, n, size) && Holds(f, p, AllBytes(ts))
    ensures var r := Mapped(p, n, size, 64); forall i | 0 <= i < n :: TensorAt(f, r[i], ts[i])
    ensures MapEnd(p, n, size, 64) == p + |AllBytes(ts)|
    decreases n
  {
    hide Holds, Shaped, TensorAt, TensorBytes;
    if n > 0 {
      assert Shaped(ts[0], size);
      HoldsSplit(f, p, TensorBytes(ts[0]), AllBytes(ts[1..]));
      TensorHeld(f, p, ts[0], size);
      forall i | 0 <= i < n - 1 ensures Shaped(ts[1..][i], size) {
        assert ts[1..][i] == ts[i + 1];
      }
      TensorsHeld(f, Past(p, size, 64), ts[1..], n - 1, size);
      var r, tail := Mapped(p, n, size, 64), Mapped(Past(p, size, 64), n - 1, size, 64);
      forall i | 0 <= i < n ensures TensorAt(f, r[i], ts[i]) {
        if i > 0 {
          assert r[i] == tail[i - 1] && ts[i] == ts[1..][i - 1];
        }
      }
    }
  }

  /** Code `r` of group `g`, as dequantize_row and matmul read it: the scale is found by dividing the
      element's index by the group size. */
  lemma ElementAt(f: seq<Byte>, p: TensorPtr, t: Tensor, size: nat, g: nat, r: nat)
    requires Shaped(t, size) && TensorAt(f, p, t) && g < |t.codes| && r < 64
    ensures var e := g * 64 + r;
            e < size && p.q + e < |f| && f[p.q + e] == t.codes[g][r]
            && e / 64 == g && Holds(f, p.s + 4 * (e / 64), t.scales[g])
  {
    hide Holds, Concat;
    HoldsElement(f, p.q, t.codes, 64, g, r);
    HoldsBlock(f, p.s, t.scales, 4, g);
  }

  // ---------- where everything lies ----------

  /** The number of codes in one tensor of piece `k`, the pieces numbered in the order of the file. */
  function Size(c: Config, k: nat): nat
    requires Dims(c)
  {
    if k == 6 then Times(c.vocabSize, c.dim)
    else if k == 7 then Times(c.dim, HeadsDim(c))
    else if k == 8 || k == 9 then Times(c.dim, KvDim(c))
    else if k == 10 then Times(HeadsDim(c), c.dim)
    else if k == 11 || k == 13 then Times(c.dim, c.hiddenDim)
    else if k == 12 then Times(c.hiddenDim, c.dim)
    else Times(c.dim, c.vocabSize)
  }

  function Length(c: Config, k: nat): nat
    requires Dims(c)
  {
    if k == 0 then HEADER
    else if k == 1 || k == 2 then 4 * Times(c.nLayers, c.dim)
    else if k == 3 then 4 * c.dim
    else if k == 4 || k == 5 then 4 * Times(c.nLayers, c.headDim)
    else if k == 6 then Past(0, Size(c, 6), c.groupSize)
    else if k <= 13 then MapEnd(0, c.nLayers, Size(c, k), c.groupSize)
    else if c.shared == 0 then Past(0, Size(c, 14), c.groupSize)
    else 0
  }

  function Cursor(c: Config, k: nat): nat
    requires Dims(c)
  {
    if k == 0 then 0 else Cursor(c, k - 1) + Length(c, k - 1)
  }

  function TensorsFrom(c: Config, k: nat): (r: seq<TensorPtr>)
    requires Dims(c)
    ensures |r| == c.nLayers
  {
    Mapped(Cursor(c, k), c.nLayers, Size(c, k), c.groupSize)
  }

  function OneFrom(c: Config, k: nat): TensorPtr
    requires Dims(c)
  {
    TensorPtr(Cursor(c, k), Cursor(c, k) + Size(c, k))
  }

  function Layout(c: Config): Weights
    requires Dims(c)
  {
    Weights(Cursor(c, 1), Cursor(c, 2), Cursor(c, 3), Cursor(c, 4), Cursor(c, 5), OneFrom(c, 6),
            TensorsFrom(c, 7), TensorsFrom(c, 8), TensorsFrom(c, 9), TensorsFrom(c, 10),
            TensorsFrom(c, 11), TensorsFrom(c, 12), TensorsFrom(c, 13),
            if c.shared == 0 then OneFrom(c, 14) else OneFrom(c, 6))
  }

  lemma {:induction false} MapEndShift(p: nat, d: nat, n: nat, size: nat, gs: nat)
    requires gs > 0
    ensures MapEnd(p + d, n, size, gs) == MapEnd(p, n, size, gs) + d
    decreases n
  {
    if n > 0 {
      assert Past(p + d, size, gs) == Past(p, size, gs) + d;
      MapEndShift(Past(p, size, gs), d, n - 1, size, gs);
    }
  }

  lemma NextCursor(c: Config, k: nat)
    requires Dims(c) && 7 <= k <= 13
    ensures MapEnd(Cursor(c, k), c.nLayers, Size(c, k), c.groupSize) == Cursor(c, k + 1)
  {
    MapEndShift(0, Cursor(c, k), c.nLayers, Size(c, k), c.groupSize);
  }

  /** One group of tensors in load_qwen. */
  method MapPiece(c: Config, ptr: nat, k: nat, size: nat) returns (res: seq<TensorPtr>, next: nat)
    requires Dims(c) && 7 <= k <= 13 && ptr == Cursor(c, k) && size == Size(c, k)
    ensures res == TensorsFrom(c, k) && next == Cursor(c, k + 1)
  {
    hide Cursor, Size, Length;
    res, next := MapTensors(ptr, c.nLayers, size, c.groupSize);
    NextCursor(c, k);
  }

  lemma NormCursors(c: Config)
    requires Dims(c)
    ensures Cursor(c, 1) == HEADER
    ensures Cursor(c, 2) == Cursor(c, 1) + 4 * Times(c.nLayers, c.dim)
    ensures Cursor(c, 3) == Cursor(c, 2) + 4 * Times(c.nLayers, c.dim)
    ensures Cursor(c, 4) == Cursor(c, 3) + 4 * c.dim
    ensures Cursor(c, 5) == Cursor(c, 4) + 4 * Times(c.nLayers, c.headDim)
    ensures Cursor(c, 6) == Cursor(c, 5) + 4 * Times(c.nLayers, c.headDim)
    ensures Cursor(c, 7) == Cursor(c, 6) + Size(c, 6) + Size(c, 6) / c.groupSize * 4
  {
    assert Cursor(c, 0) == 0;
  }

  /** load_qwen, up to the run state: a wrong magic or version is refused, the context is capped, and
      every weight gets its place in the mapped file. `granted` says whether the pointer tables fit. */
  method Load(file: seq<Byte>, granted: bool) returns (r: Option<(Config, Weights)>)
    requires |file| >= HEADER
    requires Word(file, 0) == MAGIC && Signed(Word(file, 4)) == VERSION ==> Dims(ReadConfig(file))
    ensures r == None <==> Word(file, 0) != MAGIC || Signed(Word(file, 4)) != VERSION || !granted
    ensures r.Some? ==>
      var c := ReadConfig(file);
      Dims(c) && r.value.0 == c.(seqLen := if c.seqLen > 1024 then 1024 else c.seqLen)
      && r.value.1 == Layout(c)
  {
    hide Word, ReadWords, Cursor, Length, MapEnd, Mapped, Times;
    var magic, version := Word(file, 0), Signed(Word(file, 4));
    if magic != MAGIC || version != VERSION {
      return None;
    }
    var c := ReadConfig(file);
    var p := if c.seqLen > CTX_MAX then c.(seqLen := CTX_MAX) else c;
    NormCursors(c);
    var att := HEADER;
    var ffn := att + 4 * Times(p.nLayers, p.dim);
    var final := ffn + 4 * Times(p.nLayers, p.dim);
    var qn := final + 4 * p.dim;
    var kn := qn + 4 * Times(p.nLayers, p.headDim);
    var ptr := kn + 4 * Times(p.nLayers, p.headDim);
    var heads, kv := Times(p.nHeads, p.headDim), Times(p.nKvHeads, p.headDim);
    var tokens := TensorPtr(ptr, ptr + Times(p.vocabSize, p.dim));
    ptr := ptr + Times(p.vocabSize, p.dim);
    ptr := ptr + Times(p.vocabSize, p.dim) / p.groupSize * 4;
    var wq, wk, wv, wo, w1, w2, w3;
    wq, ptr := MapPiece(c, ptr, 7, Times(p.dim, heads));
    wk, ptr := MapPiece(c, ptr, 8, Times(p.dim, kv));
    wv, ptr := MapPiece(c, ptr, 9, Times(p.dim, kv));
    wo, ptr := MapPiece(c, ptr, 10, Times(heads, p.dim));
    w1, ptr := MapPiece(c, ptr, 11, Times(p.dim, p.hiddenDim));
    w2, ptr := MapPiece(c, ptr, 12, Times(p.hiddenDim, p.dim));
    w3, ptr := MapPiece(c, ptr, 13, Times(p.dim, p.hiddenDim));
    if !granted {
      return None;
    }
    var cls := if p.shared == 0 then TensorPtr(ptr, ptr + Times(p.dim, p.vocabSize)) else tokens;
    r := Some((p, Weights(att, ffn, final, qn, kn, tokens, wq, wk, wv, wo, w1, w2, w3, cls)));
  }

  // ---------- the loader finds what the writer wrote ----------

  lemma NormSize(bs: seq<seq<Byte>>, n: nat, d: nat)
    requires Uniform(bs, 4 * d) && |bs| == n
    ensures |Concat(bs)| == 4 * Times(n, d)
  {
    ConcatLength(bs, 4 * d);
  }

  lemma TensorsSize(ts: seq<Tensor>, n: nat, size: nat)
    requires AllShaped(ts, n, size)
    ensures |AllBytes(ts)| == MapEnd(0, n, size, 64)
  {
    var f := AllBytes(ts);
    assert f[0..|f|] == f;
    TensorsHeld(f, 0, ts, n, size);
  }

  lemma OneSize(t: Tensor, size: nat)
    requires Shaped(t, size)
    ensures |TensorBytes(t)| == Past(0, size, 64)
  {
    TensorSize(t, size);
  }

  /** Each piece has the length that the loader's arithmetic gives it. */
  lemma PieceLength(m: Model, k: nat)
    requires WellFormed(m) && k < 15
    ensures |Pieces(m)[k]| == Length(m.config, k)
  {
    hide Concat, AllBytes, TensorBytes, Header, MapEnd, Past, Times, Shaped, AllShaped, Uniform;
    var c := m.config;
    if k == 1 { NormSize(m.attNorm, c.nLayers, c.dim); }
    else if k == 2 { NormSize(m.ffnNorm, c.nLayers, c.dim); }
    else if k == 4 { NormSize(m.qNorm, c.nLayers, c.headDim); }
    else if k == 5 { NormSize(m.kNorm, c.nLayers, c.headDim); }
    else if k == 6 { OneSize(m.embed, Size(c, 6)); }
    else if k == 7 { TensorsSize(m.wq, c.nLayers, Size(c, 7)); }
    else if k == 8 { TensorsSize(m.wk, c.nLayers, Size(c, 8)); }
    else if k == 9 { TensorsSize(m.wv, c.nLayers, Size(c, 9)); }
    else if k == 10 { TensorsSize(m.wo, c.nLayers, Size(c, 10)); }
    else if k == 11 { TensorsSize(m.gate, c.nLayers, Size(c, 11)); }
    else if k == 12 { TensorsSize(m.down, c.nLayers, Size(c, 12)); }
    else if k == 13 { TensorsSize(m.up, c.nLayers, Size(c, 13)); }
    else if k == 14 && c.shared == 0 { OneSize(m.head, Size(c, 14)); }
  }

  /** The cursor of the loader is where the piece starts, and after the last piece the file ends. */
  lemma {:induction false} CursorIsStart(m: Model, k: nat)
    requires WellFormed(m) && k <= 15
    ensures Cursor(m.config, k) == |Concat(Pieces(m)[..k])|
    decreases k
  {
    hide WellFormed, Pieces, Length, Concat;
    if k == 0 {
      PieceWritten(Pieces(m), 0);
      WellFormedDims(m);
      assert Cursor(m.config, 0) == 0;
    } else {
      CursorIsStart(m, k - 1);
      PieceLength(m, k - 1);
      PieceWritten(Pieces(m), k - 1);
    }
  }

  lemma WellFormedDims(m: Model)
    requires WellFormed(m)
    ensures Dims(m.config)
  {
  }

  lemma FileTiled(m: Model)
    requires WellFormed(m)
    ensures |Concat(Pieces(m))| == Cursor(m.config, 15)
  {
    hide WellFormed, Pieces, Concat, Cursor;
    CursorIsStart(m, 15);
    assert Pieces(m)[..15] == Pieces(m);
  }

  /** Piece `k` of the file lies at the loader's cursor. */
  lemma PieceAt(m: Model, k: nat)
    requires WellFormed(m) && k < 15
    ensures Holds(Concat(Pieces(m)), Cursor(m.config, k), Pieces(m)[k])
  {
    hide WellFormed, Pieces, Concat, Cursor, Length;
    var ps := Pieces(m);
    var f := Concat(ps);
    CursorIsStart(m, k);
    ConcatSplit(ps, k);
    assert ps[k..][0] == ps[k];
    ConcatHead(ps[k..]);
    assert f == Concat(ps[..k]) + ps[k] + Concat(ps[k..][1..]);
    var p := |Concat(ps[..k])|;
    assert f[p..p + |ps[k]|] == ps[k];
  }

  lemma ConcatHead(ps: seq<seq<Byte>>)
    requires ps != []
    ensures Concat(ps) == ps[0] + Concat(ps[1..])
  {
  }

  lemma {:induction false} ConcatSplit(ps: seq<seq<Byte>>, k: nat)
    requires k <= |ps|
    ensures Concat(ps) == Concat(ps[..k]) + Concat(ps[k..])
  {
    if k == 0 {
      assert ps[..0] == [] && ps[0..] == ps;
      assert [] + Concat(ps) == Concat(ps);
    } else {
      ConcatSplit(ps[1..], k - 1);
      assert ps[..k][1..] == ps[1..][..k - 1] && ps[1..][k - 1..] == ps[k..];
      assert ps[0] + (Concat(ps[1..][..k - 1]) + Concat(ps[k..]))
          == (ps[0] + Concat(ps[1..][..k - 1])) + Concat(ps[k..]);
    }
  }

  // ---------- the header ----------

  lemma {:induction false} WordsReadBack(f: seq<Byte>, p: nat, ws: seq<SignedWord>)
    requires Holds(f, p, Encoded(ws))
    ensures p + 4 * |ws| <= |f| && ReadWords(f, p, |ws|) == ws
    decreases |ws|
  {
    hide Word, Le32;
    if ws != [] {
      HoldsSplit(f, p, Le32(Unsigned(ws[0])), Encoded(ws[1..]));
      HoldsWord(f, p, Unsigned(ws[0]));
      WordsReadBack(f, p + 4, ws[1..]);
      assert Signed(Unsigned(ws[0])) == ws[0];
      assert ws == [ws[0]] + ws[1..];
    }
  }

  /** The header decodes to the configuration that was encoded. */
  lemma HeaderReadsBack(f: seq<Byte>, c: Config)
    requires Holds(f, 0, Header(c))
    ensures |f| >= HEADER && Word(f, 0) == MAGIC && Signed(Word(f, 4)) == VERSION && ReadConfig(f) == c
  {
    hide Word, Le32, ReadWords, Encoded, Holds, Zeros, ConfigWords;
    var words := ConfigWords(c);
    HoldsSplit(f, 0, Le32(MAGIC) + Le32(Unsigned(VERSION)) + Encoded(words), Zeros(208));
    HoldsSplit(f, 0, Le32(MAGIC) + Le32(Unsigned(VERSION)), Encoded(words));
    HoldsSplit(f, 0, Le32(MAGIC), Le32(Unsigned(VERSION)));
    HoldsWord(f, 0, MAGIC);
    HoldsWord(f, 4, Unsigned(VERSION));
    WordsReadBack(f, 8, words);
    HoldsRoom(f, 0, Header(c));
    ConfigIs(c);
  }

  lemma HoldsRoom(f: seq<Byte>, p: nat, b: seq<Byte>)
    requires Holds(f, p, b)
    ensures p + |b| <= |f|
  {
  }

  lemma ConfigIs(c: Config)
    ensures var w := ConfigWords(c);
            Config(w[0], w[1], w[2], w[3], w[4], w[5], w[6], w[7], w[8], w[9]) == c
  {
  }

  lemma {:induction false} ReadWordsAt(f: seq<Byte>, p: nat, n: nat, i: nat)
    requires p + 4 * n <= |f| && i < n
    ensures ReadWords(f, p, n)[i] == Signed(Word(f, p + 4 * i))
    decreases n
  {
    hide Word;
    if i > 0 {
      ReadWordsAt(f, p + 4, n - 1, i - 1);
    }
  }

  /** The header, place by place: the magic number, version 1, and ten fields of four bytes from byte 8 on. */
  lemma HeaderFields(f: seq<Byte>, c: Config)
    requires Holds(f, 0, Header(c))
    ensures |f| >= 256 && Word(f, 0) == 0x616A6331 && Word(f, 4) == 1
    ensures Signed(Word(f, 8)) == c.dim && Signed(Word(f, 12)) == c.hiddenDim && Signed(Word(f, 16)) == c.nLayers
    ensures Signed(Word(f, 20)) == c.nHeads && Signed(Word(f, 24)) == c.nKvHeads
    ensures Signed(Word(f, 28)) == c.vocabSize && Signed(Word(f, 32)) == c.seqLen
    ensures Signed(Word(f, 36)) == c.headDim && Signed(Word(f, 40)) == c.shared && Signed(Word(f, 44)) == c.groupSize
  {
    hide Word, Header, ReadWords, Holds;
    HeaderReadsBack(f, c);
    forall i | 0 <= i < 10
      ensures ReadWords(f, 8, 10)[i] == Signed(Word(f, 8 + 4 * i))
    {
      ReadWordsAt(f, 8, 10, i);
    }
    ReadWordsAt(f, 8, 10, 0);
    ReadWordsAt(f, 8, 10, 1);
    ReadWordsAt(f, 8, 10, 2);
    ReadWordsAt(f, 8, 10, 3);
    ReadWordsAt(f, 8, 10, 4);
    ReadWordsAt(f, 8, 10, 5);
    ReadWordsAt(f, 8, 10, 6);
    ReadWordsAt(f, 8, 10, 7);
    ReadWordsAt(f, 8, 10, 8);
    ReadWordsAt(f, 8, 10, 9);
  }

  /** The order of the file, piece by piece, and codes before scales in each tensor. */
  lemma FileOrder(m: Model)
    ensures var ps := Pieces(m);
      && |ps| == 15 && ps[0] == Header(m.config)
      && ps[1] == Concat(m.attNorm) && ps[2] == Concat(m.ffnNorm) && ps[3] == m.finalNorm
      && ps[4] == Concat(m.qNorm) && ps[5] == Concat(m.kNorm)
      && ps[6] == Concat(m.embed.codes) + Concat(m.embed.scales)
      && ps[7] == AllBytes(m.wq) && ps[8] == AllBytes(m.wk) && ps[9] == AllBytes(m.wv) && ps[10] == AllBytes(m.wo)
      && ps[11] == AllBytes(m.gate) && ps[12] == AllBytes(m.down) && ps[13] == AllBytes(m.up)
      && ps[14] == if m.config.shared == 0 then Concat(m.head.codes) + Concat(m.head.scales) else []
  {
    hide Header, Concat, AllBytes;
  }

  /** Tensors one after the other, each with its codes before its scales. */
  lemma TensorOrder(t: Tensor, ts: seq<Tensor>)
    ensures AllBytes([]) == [] && AllBytes([t] + ts) == Concat(t.codes) + Concat(t.scales) + AllBytes(ts)
  {
    hide Concat;
    assert ([t] + ts)[1..] == ts;
  }

  /** Tensor l of a group lies l tensors behind the first, scales right behind codes. */
  lemma {:induction false} MappedAt(p: nat, n: nat, size: nat, gs: nat, l: nat)
    requires gs > 0 && l < n
    ensures var at := p + Times(l, size + size / gs * 4); Mapped(p, n, size, gs)[l] == TensorPtr(at, at + size)
    ensures MapEnd(p, n, size, gs) == p + Times(n, size + size / gs * 4)
    decreases n
  {
    var step := size + size / gs * 4;
    if n == 1 {
      assert Times(1, step) == step && Times(0, step) == 0;
    } else {
      MappedAt(Past(p, size, gs), n - 1, size, gs, if l > 0 then l - 1 else 0);
      assert Times(n, step) == step + Times(n - 1, step);
      if l > 0 {
        assert Times(l, step) == step + Times(l - 1, step);
      } else {
        assert Times(0, step) == 0;
      }
    }
  }

  /** Where the loader's pointers start, in bytes. */
  lemma LayoutStarts(c: Config)
    requires Dims(c)
    ensures var w, norms, heads := Layout(c), Times(c.nLayers, c.dim), Times(c.nLayers, c.headDim);
      && w.attNorm == 256 && w.ffnNorm == 256 + 4 * norms && w.finalNorm == 256 + 8 * norms
      && w.qNorm == 256 + 8 * norms + 4 * c.dim && w.kNorm == w.qNorm + 4 * heads
      && w.tokens == TensorPtr(w.kNorm + 4 * heads, w.kNorm + 4 * heads + Times(c.vocabSize, c.dim))
      && Cursor(c, 7) == w.tokens.s + Times(c.vocabSize, c.dim) / c.groupSize * 4
      && w.wq == Mapped(Cursor(c, 7), c.nLayers, Times(c.dim, Times(c.nHeads, c.headDim)), c.groupSize)
      && w.wk == Mapped(MapEnd(Cursor(c, 7), c.nLayers, Times(c.dim, Times(c.nHeads, c.headDim)), c.groupSize),
                        c.nLayers, Times(c.dim, Times(c.nKvHeads, c.headDim)), c.groupSize)
  {
    hide Times, Mapped, MapEnd;
    NormCursors(c);
    NextCursor(c, 7);
  }

  // ---------- the main result ----------

  /** The norms of layer `l`, at `l` rows past the loader's pointer. */
  ghost predicate NormsAt(f: seq<Byte>, p: nat, d: nat, bs: seq<seq<Byte>>) {
    forall l | 0 <= l < |bs| :: Holds(f, p + l * (4 * d), bs[l])
  }

  ghost predicate TensorsAt(f: seq<Byte>, ps: seq<TensorPtr>, ts: seq<Tensor>) {
    |ps| == |ts| && forall l | 0 <= l < |ts| :: TensorAt(f, ps[l], ts[l])
  }

  /** Every pointer of the loader lands on the tensor of that name. */
  ghost predicate Found(f: seq<Byte>, w: Weights, m: Model) {
    var c := m.config;
    && c.dim >= 0 && c.headDim >= 0
    && NormsAt(f, w.attNorm, c.dim, m.attNorm) && NormsAt(f, w.ffnNorm, c.dim, m.ffnNorm)
    && Holds(f, w.finalNorm, m.finalNorm)
    && NormsAt(f, w.qNorm, c.headDim, m.qNorm) && NormsAt(f, w.kNorm, c.headDim, m.kNorm)
    && TensorAt(f, w.tokens, m.embed)
    && TensorsAt(f, w.wq, m.wq) && TensorsAt(f, w.wk, m.wk) && TensorsAt(f, w.wv, m.wv)
    && TensorsAt(f, w.wo, m.wo) && TensorsAt(f, w.w1, m.gate) && TensorsAt(f, w.w2, m.down)
    && TensorsAt(f, w.w3, m.up)
    && TensorAt(f, w.cls, if c.shared == 0 then m.head else m.embed)
  }

  lemma NormsFound(f: seq<Byte>, p: nat, d: nat, bs: seq<seq<Byte>>)
    requires Uniform(bs, 4 * d) && Holds(f, p, Concat(bs))
    ensures NormsAt(f, p, d, bs)
  {
    hide Holds, Concat;
    forall l | 0 <= l < |bs| ensures Holds(f, p + l * (4 * d), bs[l]) {
      HoldsBlock(f, p, bs, 4 * d, l);
    }
  }

  lemma TensorsFound(f: seq<Byte>, c: Config, k: nat, ts: seq<Tensor>)
    requires Dims(c) && c.groupSize == GROUP_SIZE && AllShaped(ts, c.nLayers, Size(c, k))
    requires Holds(f, Cursor(c, k), AllBytes(ts))
    ensures TensorsAt(f, TensorsFrom(c, k), ts)
  {
    hide Holds, Shaped, TensorAt, Cursor, Size, Mapped, AllBytes;
    TensorsHeld(f, Cursor(c, k), ts, c.nLayers, Size(c, k));
  }

  /** Loading the file that was written finds the same configuration, each tensor at its own pointer,
      and nothing past the last one. */
  lemma LoadsWhatWasWritten(m: Model)
    requires WellFormed(m)
    ensures var f := Concat(Pieces(m));
            |f| >= HEADER && Word(f, 0) == MAGIC && Signed(Word(f, 4)) == VERSION && ReadConfig(f) == m.config
            && Dims(m.config) && Found(f, Layout(m.config), m) && |f| == Cursor(m.config, 15)
  {
    hide WellFormed, Pieces, Found, Layout, Concat, Cursor, Word, ReadConfig, Header;
    WellFormedDims(m);
    FileTiled(m);
    PieceAt(m, 0);
    FirstPiece(m);
    HeaderReadsBack(Concat(Pieces(m)), m.config);
    AllFound(m);
  }

  lemma FirstPiece(m: Model)
    requires Dims(m.config)
    ensures Pieces(m)[0] == Header(m.config) && Cursor(m.config, 0) == 0
  {
  }

  lemma AllFound(m: Model)
    requires WellFormed(m) && Dims(m.config)
    ensures Found(Concat(Pieces(m)), Layout(m.config), m)
  {
    hide Concat, Cursor, Holds, TensorBytes, AllBytes, Shaped, AllShaped, Uniform, Times, Length, TensorAt,
      TensorsAt, NormsAt, TensorsFrom, Header;
    var c, f := m.config, Concat(Pieces(m));
    NormPiecesFound(m);
    PieceAt(m, 6);
    TensorHeld(f, Cursor(c, 6), m.embed, Size(c, 6));
    PieceAt(m, 7);
    TensorsFound(f, c, 7, m.wq);
    PieceAt(m, 8);
    TensorsFound(f, c, 8, m.wk);
    PieceAt(m, 9);
    TensorsFound(f, c, 9, m.wv);
    PieceAt(m, 10);
    TensorsFound(f, c, 10, m.wo);
    PieceAt(m, 11);
    TensorsFound(f, c, 11, m.gate);
    PieceAt(m, 12);
    TensorsFound(f, c, 12, m.down);
    PieceAt(m, 13);
    TensorsFound(f, c, 13, m.up);
    if c.shared == 0 {
      PieceAt(m, 14);
      TensorHeld(f, Cursor(c, 14), m.head, Size(c, 14));
    }
  }

  lemma NormPiecesFound(m: Model)
    requires WellFormed(m) && Dims(m.config)
    ensures var f, c := Concat(Pieces(m)), m.config;
            && NormsAt(f, Cursor(c, 1), c.dim, m.attNorm) && NormsAt(f, Cursor(c, 2), c.dim, m.ffnNorm)
            && Holds(f, Cursor(c, 3), m.finalNorm)
            && NormsAt(f, Cursor(c, 4), c.headDim, m.qNorm) && NormsAt(f, Cursor(c, 5), c.headDim, m.kNorm)
  {
    hide Concat, Cursor, Holds, TensorBytes, AllBytes, Shaped, AllShaped, Uniform, NormsAt, Header;
    var c, f := m.config, Concat(Pieces(m));
    PieceAt(m, 1);
    NormsFound(f, Cursor(c, 1), c.dim, m.attNorm);
    PieceAt(m, 2);
    NormsFound(f, Cursor(c, 2), c.dim, m.ffnNorm);
    PieceAt(m, 3);
    PieceAt(m, 4);
    NormsFound(f, Cursor(c, 4), c.headDim, m.qNorm);
    PieceAt(m, 5);
    NormsFound(f, Cursor(c, 5), c.headDim, m.kNorm);
  }
}
