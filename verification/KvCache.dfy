/** The key/value cache of the two inference engines (forward in kernel/src/llm.c and
    kernel/src/qwen.c): computing with rows kept from earlier positions is the same as computing
    everything again from the whole token prefix. The arithmetic of a layer is left open. */
module KvCache {

  /** The arithmetic: V is a vector, S a scalar. `key`, `value` and `query` include normalisation
      and rotation by the position; `weight` is one output of the softmax over all scores; `add`
      adds a weighted value row; `finish` is the rest of a layer, from the heads' outputs on. */
  datatype Model<!V, !S, !L> = Model(
    layers: nat,
    heads: nat,
    embed: int -> V,
    query: (nat, V, nat) -> V,
    key: (nat, V, nat) -> V,
    value: (nat, V, nat) -> V,
    score: (nat, V, V) -> S,
    weight: (seq<S>, nat) -> S,
    zero: V,
    add: (nat, V, S, V) -> V,
    finish: (nat, V, seq<V>) -> V,
    logits: V -> L)

  // ---------- the reference: no cache ----------

  function Scores<V, S, L>(m: Model<V, S, L>, h: nat, q: V, ks: seq<V>): (r: seq<S>)
    ensures |r| == |ks| && forall i :: 0 <= i < |ks| ==> r[i] == m.score(h, q, ks[i])
  {
    seq(|ks|, i requires 0 <= i < |ks| => m.score(h, q, ks[i]))
  }

  function Softmax<V, S, L>(m: Model<V, S, L>, scores: seq<S>): (r: seq<S>)
    ensures |r| == |scores| && forall i :: 0 <= i < |r| ==> r[i] == m.weight(scores, i)
  {
    seq(|scores|, i requires 0 <= i < |scores| => m.weight(scores, i))
  }

  /** The weighted sum of the first n value rows. */
  function Combined<V, S, L>(m: Model<V, S, L>, h: nat, ws: seq<S>, vs: seq<V>, n: nat): V
    requires n <= |vs| && n <= |ws|
  {
    if n == 0 then m.zero else m.add(h, Combined(m, h, ws, vs, n - 1), ws[n - 1], vs[n - 1])
  }

  function Head<V, S, L>(m: Model<V, S, L>, h: nat, q: V, ks: seq<V>, vs: seq<V>): V
    requires |ks| == |vs|
  {
    Combined(m, h, Softmax(m, Scores(m, h, q, ks)), vs, |vs|)
  }

  function Layer<V, S, L>(m: Model<V, S, L>, l: nat, x: V, pos: nat, ks: seq<V>, vs: seq<V>): V
    requires |ks| == |vs|
  {
    m.finish(l, x, seq(m.heads, h requires 0 <= h => Head(m, h, m.query(l, x, pos), ks, vs)))
  }

  /** The input of layer l for the last token of the prefix, from the prefix alone. */
  function Hidden<V, S, L>(m: Model<V, S, L>, l: nat, toks: seq<int>): V
    requires toks != []
    decreases l, 1, |toks|
  {
    if l == 0 then m.embed(toks[|toks| - 1])
    else Layer(m, l - 1, Hidden(m, l - 1, toks), |toks| - 1, Keys(m, l - 1, toks), Values(m, l - 1, toks))
  }

  /** The key rows of layer l for all positions of the prefix. */
  function Keys<V, S, L>(m: Model<V, S, L>, l: nat, toks: seq<int>): (r: seq<V>)
    ensures |r| == |toks|
    decreases l, 2, |toks|
  {
    if toks == [] then []
    else Keys(m, l, toks[..|toks| - 1]) + [m.key(l, Hidden(m, l, toks), |toks| - 1)]
  }

  function Values<V, S, L>(m: Model<V, S, L>, l: nat, toks: seq<int>): (r: seq<V>)
    ensures |r| == |toks|
    decreases l, 2, |toks|
  {
    if toks == [] then []
    else Values(m, l, toks[..|toks| - 1]) + [m.value(l, Hidden(m, l, toks), |toks| - 1)]
  }

  /** The logits for a token prefix. */
  function Logits<V, S, L>(m: Model<V, S, L>, toks: seq<int>): L
    requires toks != []
  {
    m.logits(Hidden(m, m.layers, toks))
  }

  /** Row i of a layer depends on tokens 0 to i only: longer prefixes give the same row. */
  lemma {:induction false} RowsArePrefixes<V, S, L>(m: Model<V, S, L>, l: nat, toks: seq<int>, i: nat)
    requires i <= |toks|
    ensures Keys(m, l, toks)[..i] == Keys(m, l, toks[..i])
    ensures Values(m, l, toks)[..i] == Values(m, l, toks[..i])
    decreases |toks|
  {
    if i == |toks| {
      assert toks[..i] == toks;
    } else {
      var front := toks[..|toks| - 1];
      RowsArePrefixes(m, l, front, i);
      assert front[..i] == toks[..i];
    }
  }

  // ---------- what the reference means ----------

  /** Rows taken in one by one from the first on, each with its weight. */
  function TakeIn<V, S, L>(m: Model<V, S, L>, h: nat, acc: V, ws: seq<S>, vs: seq<V>): V
    requires |ws| == |vs|
    decreases |vs|
  {
    if vs == [] then acc else TakeIn(m, h, m.add(h, acc, ws[0], vs[0]), ws[1..], vs[1..])
  }

  lemma {:induction false} TakeInSnoc<V, S, L>(m: Model<V, S, L>, h: nat, acc: V, ws: seq<S>, vs: seq<V>, w: S, v: V)
    requires |ws| == |vs|
    ensures TakeIn(m, h, acc, ws + [w], vs + [v]) == m.add(h, TakeIn(m, h, acc, ws, vs), w, v)
    decreases |vs|
  {
    if vs != [] {
      assert (ws + [w])[1..] == ws[1..] + [w] && (vs + [v])[1..] == vs[1..] + [v];
      TakeInSnoc(m, h, m.add(h, acc, ws[0], vs[0]), ws[1..], vs[1..], w, v);
    }
  }

  lemma {:induction false} CombinedTakesIn<V, S, L>(m: Model<V, S, L>, h: nat, ws: seq<S>, vs: seq<V>, n: nat)
    requires n <= |vs| && n <= |ws|
    ensures Combined(m, h, ws, vs, n) == TakeIn(m, h, m.zero, ws[..n], vs[..n])
    decreases n
  {
    if n > 0 {
      CombinedTakesIn(m, h, ws, vs, n - 1);
      assert ws[..n] == ws[..n - 1] + [ws[n - 1]] && vs[..n] == vs[..n - 1] + [vs[n - 1]];
      TakeInSnoc(m, h, m.zero, ws[..n - 1], vs[..n - 1], ws[n - 1], vs[n - 1]);
    }
  }

  /** A head takes in every value row from the first to the last, once, each with the weight that the softmax
      over the scores of all key rows gives it. */
  lemma HeadTakesIn<V, S, L>(m: Model<V, S, L>, h: nat, q: V, ks: seq<V>, vs: seq<V>, scores: seq<S>, ws: seq<S>)
    requires |ks| == |vs| == |scores| == |ws|
    requires forall i :: 0 <= i < |ks| ==> scores[i] == m.score(h, q, ks[i]) && ws[i] == m.weight(scores, i)
    ensures Head(m, h, q, ks, vs) == TakeIn(m, h, m.zero, ws, vs)
  {
    assert Scores(m, h, q, ks) == scores;
    assert Softmax(m, scores) == ws;
    CombinedTakesIn(m, h, ws, vs, |vs|);
    assert ws[..|vs|] == ws && vs[..|vs|] == vs;
  }

  /** At the first position the only row is taken in. */
  lemma FirstRow<V, S, L>(m: Model<V, S, L>, h: nat, q: V, k: V, v: V)
    ensures Head(m, h, q, [k], [v]) == m.add(h, m.zero, m.weight([m.score(h, q, k)], 0), v)
  {
    var score := m.score(h, q, k);
    var w := m.weight([score], 0);
    HeadTakesIn(m, h, q, [k], [v], [score], [w]);
    assert [w][1..] == [] && [v][1..] == [];
  }

  // The same over the real numbers, where a head is a weighted sum.

  function Sum(xs: seq<real>): real { if xs == [] then 0.0 else xs[0] + Sum(xs[1..]) }

  function WeightedSum(ws: seq<real>, vs: seq<real>): real
    requires |ws| == |vs|
  {
    if vs == [] then 0.0 else ws[0] * vs[0] + WeightedSum(ws[1..], vs[1..])
  }

  ghost predicate AddsUp<L>(m: Model<real, real, L>) {
    m.zero == 0.0 && forall h: nat, x, w, v :: m.add(h, x, w, v) == x + w * v
  }

  lemma {:induction false} TakeInAddsUp<L>(m: Model<real, real, L>, h: nat, acc: real, ws: seq<real>, vs: seq<real>)
    requires AddsUp(m) && |ws| == |vs|
    ensures TakeIn(m, h, acc, ws, vs) == acc + WeightedSum(ws, vs)
    decreases |vs|
  {
    if vs != [] {
      TakeInAddsUp(m, h, m.add(h, acc, ws[0], vs[0]), ws[1..], vs[1..]);
    }
  }

  /** Over the reals a head is the sum of weight times row over all rows. */
  lemma HeadIsSum<L>(m: Model<real, real, L>, h: nat, q: real, ks: seq<real>, vs: seq<real>, scores: seq<real>,
                     ws: seq<real>)
    requires AddsUp(m) && |ks| == |vs| == |scores| == |ws|
    requires forall i :: 0 <= i < |ks| ==> scores[i] == m.score(h, q, ks[i]) && ws[i] == m.weight(scores, i)
    ensures Head(m, h, q, ks, vs) == WeightedSum(ws, vs)
  {
    HeadTakesIn(m, h, q, ks, vs, scores, ws);
    TakeInAddsUp(m, h, 0.0, ws, vs);
  }

  lemma {:induction false} EqualRowsSum(ws: seq<real>, vs: seq<real>, v: real)
    requires |ws| == |vs| && forall i :: 0 <= i < |vs| ==> vs[i] == v
    ensures WeightedSum(ws, vs) == Sum(ws) * v
    decreases |ws|
  {
    if ws != [] {
      EqualRowsSum(ws[1..], vs[1..], v);
    }
  }

  /** If all rows are equal, attention with weights that sum to one gives that row back. */
  lemma EqualRows<L>(m: Model<real, real, L>, h: nat, q: real, ks: seq<real>, vs: seq<real>, scores: seq<real>,
                     ws: seq<real>, v: real)
    requires AddsUp(m) && |ks| == |vs| == |scores| == |ws|
    requires forall i :: 0 <= i < |ks| ==> scores[i] == m.score(h, q, ks[i]) && ws[i] == m.weight(scores, i)
    requires Sum(ws) == 1.0 && forall i :: 0 <= i < |vs| ==> vs[i] == v
    ensures Head(m, h, q, ks, vs) == v
  {
    HeadIsSum(m, h, q, ks, vs, scores, ws);
    EqualRowsSum(ws, vs, v);
  }

  /** Row i of a layer comes from the layer's input for the first i + 1 tokens, at position i. */
  lemma {:induction false} RowIs<V, S, L>(m: Model<V, S, L>, l: nat, toks: seq<int>, i: nat)
    requires i < |toks|
    ensures Keys(m, l, toks)[i] == m.key(l, Hidden(m, l, toks[..i + 1]), i)
    ensures Values(m, l, toks)[i] == m.value(l, Hidden(m, l, toks[..i + 1]), i)
    decreases |toks|
  {
    var n := |toks| - 1;
    if i == n {
      assert toks[..i + 1] == toks;
    } else {
      RowIs(m, l, toks[..n], i);
      assert toks[..n][..i + 1] == toks[..i + 1];
    }
  }

  /** The network from below: the embedding of the last token, then layer upon layer, each from its input, the
      position, and one head for every head index over all rows; at the top the logits. */
  lemma LayersAre<V, S, L>(m: Model<V, S, L>, l: nat, toks: seq<int>, outs: seq<V>)
    requires toks != [] && |outs| == m.heads
    requires var x, pos := Hidden(m, l, toks), |toks| - 1;
      forall h :: 0 <= h < m.heads ==>
        outs[h] == Head(m, h, m.query(l, x, pos), Keys(m, l, toks), Values(m, l, toks))
    ensures Hidden(m, 0, toks) == m.embed(toks[|toks| - 1])
    ensures Hidden(m, l + 1, toks) == m.finish(l, Hidden(m, l, toks), outs)
    ensures Logits(m, toks) == m.logits(Hidden(m, m.layers, toks))
  {
    var x, pos, ks, vs := Hidden(m, l, toks), |toks| - 1, Keys(m, l, toks), Values(m, l, toks);
    assert outs == seq(m.heads, h requires 0 <= h => Head(m, h, m.query(l, x, pos), ks, vs));
  }

  // ---------- the cache ----------

  /** Where row `pos` of layer l lies. */
  function Row(l: nat, seqLen: nat, pos: nat): nat { l * seqLen + pos }

  lemma RowInRange(layers: nat, seqLen: nat, l: nat, pos: nat)
    requires l < layers && pos < seqLen
    ensures Row(l, seqLen, pos) < layers * seqLen
  {
    assert (l + 1) * seqLen <= layers * seqLen;
  }

  lemma RowsApart(seqLen: nat, l: nat, pos: nat, l': nat, pos': nat)
    requires pos < seqLen && pos' < seqLen && (l != l' || pos != pos')
    ensures Row(l, seqLen, pos) != Row(l', seqLen, pos')
  {
    if l < l' { assert (l + 1) * seqLen <= l' * seqLen; }
    if l' < l { assert (l' + 1) * seqLen <= l * seqLen; }
  }

  class RunState<V(0), S(0)> {
    const layers: nat
    const heads: nat
    const seqLen: nat
    var keyCache: array<V>
    var valueCache: array<V>
    var att: array<S>

    constructor (layers: nat, heads: nat, seqLen: nat)
      ensures this.layers == layers && this.heads == heads && this.seqLen == seqLen && Valid()
      ensures fresh(keyCache) && fresh(valueCache) && fresh(att)
    {
      this.layers, this.heads, this.seqLen := layers, heads, seqLen;
      keyCache := new V[layers * seqLen];
      valueCache := new V[layers * seqLen];
      att := new S[heads * seqLen];
    }

    ghost predicate Valid()
      reads this
    {
      && keyCache.Length == layers * seqLen && valueCache.Length == layers * seqLen
      && att.Length == heads * seqLen && keyCache != valueCache
      && (att as object) != keyCache && (att as object) != valueCache
    }

    /** The first n rows of layer l. */
    ghost function CachedKeys(l: nat, n: nat): (r: seq<V>)
      requires Valid() && l < layers && n <= seqLen
      reads this, keyCache
      ensures |r| == n
    {
      RowsInRange(l);
      keyCache[Row(l, seqLen, 0)..Row(l, seqLen, 0) + n]
    }

    ghost function CachedValues(l: nat, n: nat): (r: seq<V>)
      requires Valid() && l < layers && n <= seqLen
      reads this, valueCache
      ensures |r| == n
    {
      RowsInRange(l);
      valueCache[Row(l, seqLen, 0)..Row(l, seqLen, 0) + n]
    }

    lemma RowsInRange(l: nat)
      requires l < layers
      ensures Row(l, seqLen, 0) + seqLen <= layers * seqLen
    {
      assert (l + 1) * seqLen <= layers * seqLen;
    }

    /** The cache holds, for every layer, the rows of the token prefix. Nothing is said about rows
        behind them. */
    ghost predicate Holds<L>(m: Model<V, S, L>, toks: seq<int>)
      requires Valid() && m.layers == layers && |toks| <= seqLen
      reads this, keyCache, valueCache
    {
      forall l :: 0 <= l < layers ==> LayerHolds(m, toks, l)
    }

    ghost predicate LayerHolds<L>(m: Model<V, S, L>, toks: seq<int>, l: nat)
      requires Valid() && m.layers == layers && |toks| <= seqLen && l < layers
      reads this, keyCache, valueCache
    {
      CachedKeys(l, |toks|) == Keys(m, l, toks) && CachedValues(l, |toks|) == Values(m, l, toks)
    }

    // ---------- one head ----------

    /** The first loop of the attention of a head: scores against rows 0 to n - 1. */
    method ScoreRows<L>(m: Model<V, S, L>, l: nat, h: nat, q: V, base: nat, n: nat)
      requires Valid() && l < layers && n <= seqLen && base + n <= att.Length
      modifies att
      ensures att[base..base + n] == Scores(m, h, q, CachedKeys(l, n))
      ensures CachedValues(l, n) == old(CachedValues(l, n)) && CachedKeys(l, n) == old(CachedKeys(l, n))
    {
      RowsInRange(l);
      var row := Row(l, seqLen, 0);
      hide Row;
      for tp := 0 to n
        invariant forall i :: base <= i < base + tp ==> att[i] == m.score(h, q, keyCache[row + (i - base)])
      {
        att[base + tp] := m.score(h, q, keyCache[row + tp]);
      }
    }

    /** llm_softmax on n scores, in place. */
    method SoftmaxInPlace<L>(m: Model<V, S, L>, base: nat, n: nat)
      requires Valid() && base + n <= att.Length
      modifies att
      ensures att[base..base + n] == Softmax(m, old(att[base..base + n]))
    {
      var scores := att[base..base + n];
      for j := 0 to n
        invariant forall i :: base <= i < base + j ==> att[i] == m.weight(scores, i - base)
      {
        att[base + j] := m.weight(scores, j);
      }
    }

    /** One head: scores against rows 0 to pos, softmax over them, weighted sum of values. */
    method Attend<L>(m: Model<V, S, L>, l: nat, h: nat, q: V, pos: nat) returns (xb: V)
      requires Valid() && l < layers && h < heads && pos < seqLen
      modifies att
      ensures xb == Head(m, h, q, CachedKeys(l, pos + 1), CachedValues(l, pos + 1))
    {
      ghost var ks, vs := CachedKeys(l, pos + 1), CachedValues(l, pos + 1);
      RowsInRange(l);
      RowInRange(heads, seqLen, h, pos);
      var base, row := Row(h, seqLen, 0), Row(l, seqLen, 0);
      hide Row;
      ScoreRows(m, l, h, q, base, pos + 1);
      SoftmaxInPlace(m, base, pos + 1);
      ghost var ws := att[base..base + pos + 1];
      xb := m.zero;
      for tp := 0 to pos + 1
        invariant xb == Combined(m, h, ws, vs, tp)
      {
        xb := m.add(h, xb, att[base + tp], valueCache[row + tp]);
      }
    }

    // ---------- one token ----------

    /** The rows of layer l at `pos` are written where nothing else lies. */
    method StoreRows(l: nat, pos: nat, k: V, v: V)
      requires Valid() && l < layers && pos < seqLen
      modifies keyCache, valueCache
      ensures CachedKeys(l, pos + 1) == old(CachedKeys(l, pos)) + [k]
      ensures CachedValues(l, pos + 1) == old(CachedValues(l, pos)) + [v]
      ensures forall l', n :: 0 <= l' < layers && l' != l && 0 <= n <= seqLen ==>
        CachedKeys(l', n) == old(CachedKeys(l', n)) && CachedValues(l', n) == old(CachedValues(l', n))
    {
      RowInRange(layers, seqLen, l, pos);
      RowsInRange(l);
      keyCache[Row(l, seqLen, pos)] := k;
      valueCache[Row(l, seqLen, pos)] := v;
      forall l', n | 0 <= l' < layers && l' != l && 0 <= n <= seqLen
        ensures CachedKeys(l', n) == old(CachedKeys(l', n))
        ensures CachedValues(l', n) == old(CachedValues(l', n))
      {
        RowsInRange(l');
        OtherLayer(l, pos, l');
      }
    }

    lemma OtherLayer(l: nat, pos: nat, l': nat)
      requires pos < seqLen && l != l'
      ensures Row(l, seqLen, pos) < Row(l', seqLen, 0) || Row(l', seqLen, 0) + seqLen <= Row(l, seqLen, pos)
    {
      if l < l' { assert (l + 1) * seqLen <= l' * seqLen; } else { assert (l' + 1) * seqLen <= l * seqLen; }
    }

    /** All heads of a layer, against the rows cached for it. */
    method AttendAll<L>(m: Model<V, S, L>, l: nat, q: V, pos: nat) returns (outs: seq<V>)
      requires Valid() && l < layers && pos < seqLen && m.heads == heads
      modifies att
      ensures var ks, vs := CachedKeys(l, pos + 1), CachedValues(l, pos + 1);
        outs == seq(m.heads, h requires 0 <= h => Head(m, h, q, ks, vs))
    {
      ghost var ks, vs := CachedKeys(l, pos + 1), CachedValues(l, pos + 1);
      outs := [];
      for h := 0 to heads
        invariant |outs| == h && forall i :: 0 <= i < h ==> outs[i] == Head(m, i, q, ks, vs)
      {
        var xb := Attend(m, l, h, q, pos);
        outs := outs + [xb];
      }
    }

    ghost predicate HoldsBelow<L>(m: Model<V, S, L>, toks: seq<int>, l: nat)
      requires Valid() && m.layers == layers && |toks| <= seqLen
      reads this, keyCache, valueCache
    {
      forall k :: 0 <= k < l && k < layers ==> LayerHolds(m, toks, k)
    }

    ghost predicate HoldsFrom<L>(m: Model<V, S, L>, toks: seq<int>, l: nat)
      requires Valid() && m.layers == layers && |toks| <= seqLen
      reads this, keyCache, valueCache
    {
      forall k :: l <= k < layers ==> LayerHolds(m, toks, k)
    }

    /** The part of a layer that writes the cache. */
    method StoreLayer<L>(m: Model<V, S, L>, l: nat, x: V, pos: nat, ghost toks: seq<int>)
      requires Valid() && m.layers == layers && l < layers
      requires |toks| == pos + 1 <= seqLen && x == Hidden(m, l, toks)
      requires HoldsBelow(m, toks, l) && HoldsFrom(m, toks[..pos], l)
      modifies keyCache, valueCache
      ensures HoldsBelow(m, toks, l + 1) && HoldsFrom(m, toks[..pos], l + 1)
      ensures CachedKeys(l, pos + 1) == Keys(m, l, toks) && CachedValues(l, pos + 1) == Values(m, l, toks)
    {
      hide Keys, Values, Row, Hidden;
      KeysStep(m, l, toks);
      assert LayerHolds(m, toks[..pos], l);
      StoreRows(l, pos, m.key(l, x, pos), m.value(l, x, pos));
      forall k | l < k < layers
        ensures LayerHolds(m, toks[..pos], k)
      {
        assert old(LayerHolds(m, toks[..pos], k));
      }
      forall k | 0 <= k < l
        ensures LayerHolds(m, toks, k)
      {
        assert old(LayerHolds(m, toks, k));
      }
    }

    /** The body of the layer loop of forward. */
    method RunLayer<L>(m: Model<V, S, L>, l: nat, x: V, pos: nat, ghost toks: seq<int>)
      returns (x': V)
      requires Valid() && m.layers == layers && m.heads == heads && l < layers
      requires |toks| == pos + 1 <= seqLen && x == Hidden(m, l, toks)
      requires HoldsBelow(m, toks, l) && HoldsFrom(m, toks[..pos], l)
      modifies keyCache, valueCache, att
      ensures HoldsBelow(m, toks, l + 1) && HoldsFrom(m, toks[..pos], l + 1)
      ensures x' == Hidden(m, l + 1, toks)
    {
      hide Keys, Values, Row, HoldsBelow, HoldsFrom;
      var q := m.query(l, x, pos);
      StoreLayer(m, l, x, pos, toks);
      var outs := AttendAll(m, l, q, pos);
      x' := m.finish(l, x, outs);
    }

    /** forward: one token at one position. Whatever the cache holds behind the prefix, the logits
        are those of the whole prefix, and the cache then holds the longer prefix. */
    method Forward<L>(m: Model<V, S, L>, token: int, pos: nat, ghost toks: seq<int>)
      returns (logits: L)
      requires Valid() && m.layers == layers && m.heads == heads
      requires |toks| == pos + 1 <= seqLen && toks[pos] == token && Holds(m, toks[..pos])
      modifies keyCache, valueCache, att
      ensures Holds(m, toks) && logits == Logits(m, toks)
    {
      hide Keys, Values, Row;
      var x := m.embed(token);
      for l := 0 to layers
        invariant x == Hidden(m, l, toks) && HoldsBelow(m, toks, l) && HoldsFrom(m, toks[..pos], l)
      {
        x := RunLayer(m, l, x, pos, toks);
      }
      logits := m.logits(x);
    }

    lemma KeysStep<L>(m: Model<V, S, L>, l: nat, toks: seq<int>)
      requires toks != []
      ensures Keys(m, l, toks) == Keys(m, l, toks[..|toks| - 1]) + [m.key(l, Hidden(m, l, toks), |toks| - 1)]
      ensures Values(m, l, toks) == Values(m, l, toks[..|toks| - 1]) + [m.value(l, Hidden(m, l, toks), |toks| - 1)]
    {
    }

    // ---------- generation ----------

    /** The loop of llama_generate. It returns the tokens that were fed; they are those of the
        reference that recomputes everything for every token, whatever an earlier generation has
        left in the cache. */
    method Generate<L, G>(m: Model<V, S, L>, sample: (G, L) -> (G, int), prompt: seq<int>, g0: G,
                          steps: nat) returns (fed: seq<int>, g: G)
      requires Valid() && m.layers == layers && m.heads == heads
      requires prompt != [] && steps <= seqLen
      modifies keyCache, valueCache, att
      ensures (fed, g) == Generated(m, sample, prompt, [prompt[0]], g0, steps)
    {
      var token, pos := prompt[0], 0;
      g := g0;
      fed := [token];
      while pos < steps
        invariant pos <= steps && |fed| == pos + 1 && fed[pos] == token
        invariant Holds(m, fed[..pos])
        invariant Generated(m, sample, prompt, [prompt[0]], g0, steps)
               == Generated(m, sample, prompt, fed, g, steps)
      {
        var logits := Forward(m, token, pos, fed);
        var next;
        if pos < |prompt| - 1 {
          next := prompt[pos + 1];
        } else {
          var r := sample(g, logits);
          g, next := r.0, r.1;
        }
        pos := pos + 1;
        if next == 1 || next == 2 {
          break;
        }
        token := next;
        assert (fed + [next])[..pos] == fed;
        fed := fed + [next];
      }
    }
  }

  /** What generation should do: the next token is forced while the prompt lasts and then sampled
      from the logits of the whole prefix; it ends at a BOS or EOS token or after `steps`. */
  function Generated<V, S, L, G>(m: Model<V, S, L>, sample: (G, L) -> (G, int), prompt: seq<int>,
                                 fed: seq<int>, g: G, steps: nat): (seq<int>, G)
    requires fed != []
    decreases steps + 1 - |fed|
  {
    var pos := |fed| - 1;
    if pos >= steps then (fed, g)
    else
      var (g', next) := if pos < |prompt| - 1 then (g, prompt[pos + 1]) else sample(g, Logits(m, fed));
      if next == 1 || next == 2 then (fed, g')
      else Generated(m, sample, prompt, fed + [next], g', steps)
  }

  // ---------- what generation means ----------

  /** A prompt without markers is fed token by token, and the sampler is not asked before its end. */
  lemma {:induction false} PromptIsFed<V, S, L, G>(m: Model<V, S, L>, sample: (G, L) -> (G, int), prompt: seq<int>,
                                                   k: nat, g: G, steps: nat)
    requires 0 < k <= |prompt| <= steps + 1 && forall i :: 1 <= i < |prompt| ==> prompt[i] != 1 && prompt[i] != 2
    ensures Generated(m, sample, prompt, prompt[..k], g, steps) == Generated(m, sample, prompt, prompt, g, steps)
    decreases |prompt| - k
  {
    if k == |prompt| {
      assert prompt[..k] == prompt;
    } else {
      assert prompt[..k] + [prompt[k]] == prompt[..k + 1];
      PromptIsFed(m, sample, prompt, k + 1, g, steps);
    }
  }

  /** Behind the prompt the sampler decides: a BOS or EOS ends the run and is not fed, any other token is. */
  lemma SampledIsFed<V, S, L, G>(m: Model<V, S, L>, sample: (G, L) -> (G, int), prompt: seq<int>, fed: seq<int>,
                                 g: G, steps: nat)
    requires fed != [] && |prompt| <= |fed| <= steps
    ensures var (g', next) := sample(g, Logits(m, fed));
      Generated(m, sample, prompt, fed, g, steps) ==
        if next == 1 || next == 2 then (fed, g') else Generated(m, sample, prompt, fed + [next], g', steps)
  {
  }

  /** After `steps` tokens behind the first the run ends, wherever it is. */
  lemma StepsEnd<V, S, L, G>(m: Model<V, S, L>, sample: (G, L) -> (G, int), prompt: seq<int>, fed: seq<int>,
                             g: G, steps: nat)
    requires fed != [] && |fed| == steps + 1
    ensures Generated(m, sample, prompt, fed, g, steps) == (fed, g)
  {
  }

  /** A marker in the prompt ends the run before it. */
  lemma MarkerEnds<V, S, L, G>(m: Model<V, S, L>, sample: (G, L) -> (G, int), prompt: seq<int>, k: nat, g: G,
                               steps: nat)
    requires 0 < k < |prompt| && k <= steps && (prompt[k] == 1 || prompt[k] == 2)
    ensures Generated(m, sample, prompt, prompt[..k], g, steps) == (prompt[..k], g)
  {
  }
}
