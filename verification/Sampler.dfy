/** The top-p sampler of kernel/src/llm_common.c, with exact reals for its floats. */
module Sampler {
  import opened Basics

  datatype ProbIndex = ProbIndex(prob: real, index: nat)

  // ---------- the reference: sort everything, take the shortest heavy prefix ----------

  /** One step of sort_probindex: from the right, past every smaller probability. */
  function Insert(s: seq<ProbIndex>, x: ProbIndex): (r: seq<ProbIndex>)
    ensures |r| == |s| + 1
  {
    if s != [] && s[|s| - 1].prob < x.prob then Insert(s[..|s| - 1], x) + [s[|s| - 1]]
    else s + [x]
  }

  function Sort(s: seq<ProbIndex>): (r: seq<ProbIndex>)
    ensures |r| == |s|
  {
    if s == [] then [] else Insert(Sort(s[..|s| - 1]), s[|s| - 1])
  }

  function Sum(s: seq<ProbIndex>): real {
    if s == [] then 0.0 else Sum(s[..|s| - 1]) + s[|s| - 1].prob
  }

  /** All tokens whose probability is at least `cutoff`, in index order. */
  function Kept(ps: seq<real>, cutoff: real): (r: seq<ProbIndex>)
    ensures |r| <= |ps|
  {
    if ps == [] then []
    else
      var n := |ps| - 1;
      Kept(ps[..n], cutoff) + if ps[n] >= cutoff then [ProbIndex(ps[n], n)] else []
  }

  function Dropped(ps: seq<real>, cutoff: real): seq<ProbIndex> {
    if ps == [] then []
    else
      var n := |ps| - 1;
      Dropped(ps[..n], cutoff) + if ps[n] >= cutoff then [] else [ProbIndex(ps[n], n)]
  }

  /** The whole vocabulary with its indices. */
  function All(ps: seq<real>): (r: seq<ProbIndex>)
    ensures |r| == |ps|
  {
    if ps == [] then []
    else All(ps[..|ps| - 1]) + [ProbIndex(ps[|ps| - 1], |ps| - 1)]
  }

  /** The length of the shortest prefix whose sum exceeds topp; the whole length if none does. */
  function NucleusSize(s: seq<ProbIndex>, topp: real): (k: nat)
    ensures k <= |s|
    ensures forall j :: 0 <= j < k ==> Sum(s[..j]) <= topp
    ensures k < |s| ==> Sum(s[..k]) > topp
  {
    SizeFrom(s, topp, 0)
  }

  function SizeFrom(s: seq<ProbIndex>, topp: real, i: nat): (k: nat)
    requires i <= |s|
    ensures i <= k <= |s|
    ensures forall j :: i <= j < k ==> Sum(s[..j]) <= topp
    ensures k < |s| ==> Sum(s[..k]) > topp
    decreases |s| - i
  {
    if i == |s| || Sum(s[..i]) > topp then i else SizeFrom(s, topp, i + 1)
  }

  function Nucleus(s: seq<ProbIndex>, topp: real): seq<ProbIndex> {
    s[..NucleusSize(s, topp)]
  }

  /** Probabilities: non-negative, adding up to 1. */
  ghost predicate Distribution(ps: seq<real>) {
    (forall i :: 0 <= i < |ps| ==> ps[i] >= 0.0) && Sum(All(ps)) == 1.0
  }

  function Cutoff(n: nat, topp: real): real
    requires n >= 2
  {
    (1.0 - topp) / (n - 1) as real
  }

  // ---------- the sort ----------

  ghost predicate Before(x: ProbIndex, y: ProbIndex) {
    x.prob > y.prob || (x.prob == y.prob && x.index < y.index)
  }

  ghost predicate Ordered(s: seq<ProbIndex>) {
    forall i, j :: 0 <= i < j < |s| ==> Before(s[i], s[j])
  }

  lemma OrderedSnoc(s: seq<ProbIndex>, z: ProbIndex)
    requires Ordered(s) && forall y :: y in s ==> Before(y, z)
    ensures Ordered(s + [z])
  {
    var r := s + [z];
    forall i, j | 0 <= i < j < |r|
      ensures Before(r[i], r[j])
    {
      assert r[i] in s;
    }
  }

  lemma OrderedFront(s: seq<ProbIndex>, z: ProbIndex)
    requires Ordered(s + [z])
    ensures Ordered(s) && forall y :: y in s ==> Before(y, z)
  {
    var r := s + [z];
    forall i, j | 0 <= i < j < |s|
      ensures Before(s[i], s[j])
    {
      assert Before(r[i], r[j]);
    }
    forall y | y in s
      ensures Before(y, z)
    {
      var i :| 0 <= i < |s| && s[i] == y;
      assert Before(r[i], r[|s|]);
    }
  }

  lemma SameMembers(s: seq<ProbIndex>, t: seq<ProbIndex>, x: ProbIndex)
    requires multiset(s) == multiset(t) + multiset{x}
    ensures forall y :: y in s <==> y in t || y == x
  {
    forall y
      ensures y in s <==> y in t || y == x
    {
      assert y in s <==> y in multiset(s);
      assert y in t <==> y in multiset(t);
    }
  }

  lemma {:induction false} InsertOrdered(s: seq<ProbIndex>, x: ProbIndex)
    requires Ordered(s) && forall y :: y in s ==> y.index < x.index
    ensures Ordered(Insert(s, x)) && multiset(Insert(s, x)) == multiset(s) + multiset{x}
  {
    hide Ordered;
    if s != [] {
      var front, z := s[..|s| - 1], s[|s| - 1];
      assert s == front + [z];
      OrderedFront(front, z);
      if z.prob < x.prob {
        InsertOrdered(front, x);
        SameMembers(Insert(front, x), front, x);
        OrderedSnoc(Insert(front, x), z);
      } else {
        OrderedSnoc(s, x);
      }
    } else {
      OrderedSnoc(s, x);
    }
  }

  lemma OrderedNone()
    ensures Ordered([])
  {
  }

  lemma IndicesBelow(s: seq<ProbIndex>, sorted: seq<ProbIndex>, x: ProbIndex)
    requires multiset(sorted) == multiset(s) && forall i :: 0 <= i < |s| ==> s[i].index < x.index
    ensures forall y :: y in sorted ==> y.index < x.index
  {
    forall y | y in sorted
      ensures y.index < x.index
    {
      assert y in multiset(sorted) && y in multiset(s);
      var i :| 0 <= i < |s| && s[i] == y;
    }
  }

  /** sort_probindex is a stable descending sort: with indices in ascending order it returns the
      same tokens, larger probabilities first and ties in index order. */
  lemma {:induction false} SortOrdered(s: seq<ProbIndex>)
    requires forall i, j :: 0 <= i < j < |s| ==> s[i].index < s[j].index
    ensures Ordered(Sort(s)) && multiset(Sort(s)) == multiset(s)
  {
    hide Ordered, Insert;
    if s == [] {
      OrderedNone();
    } else {
      var front, x := s[..|s| - 1], s[|s| - 1];
      assert s == front + [x];
      SortOrdered(front);
      IndicesBelow(front, Sort(front), x);
      InsertOrdered(Sort(front), x);
    }
  }

  lemma {:induction false} AllAt(ps: seq<real>)
    ensures forall i :: 0 <= i < |ps| ==> All(ps)[i] == ProbIndex(ps[i], i)
  {
    if ps != [] { AllAt(ps[..|ps| - 1]); }
  }

  // ---------- cutting before sorting ----------

  lemma {:induction false} InsertPast(k: seq<ProbIndex>, d: seq<ProbIndex>, x: ProbIndex)
    requires forall y :: y in d ==> y.prob < x.prob
    ensures Insert(k + d, x) == Insert(k, x) + d
    decreases d
  {
    if d == [] {
      assert k + d == k;
    } else {
      var front, z := d[..|d| - 1], d[|d| - 1];
      assert (k + d)[..|k + d| - 1] == k + front && z in d;
      InsertPast(k, front, x);
      assert d == front + [z];
    }
  }

  lemma {:induction false} InsertWithin(k: seq<ProbIndex>, d: seq<ProbIndex>, x: ProbIndex)
    requires forall y :: y in k ==> y.prob >= x.prob
    ensures Insert(k + d, x) == k + Insert(d, x)
    decreases d
  {
    if d == [] {
      assert k + d == k;
      if k != [] { assert k[|k| - 1] in k; }
    } else if d[|d| - 1].prob < x.prob {
      var front, z := d[..|d| - 1], d[|d| - 1];
      assert (k + d)[..|k + d| - 1] == k + front;
      InsertWithin(k, front, x);
    }
  }

  lemma {:induction false} InsertMembers(s: seq<ProbIndex>, x: ProbIndex)
    ensures forall y :: y in Insert(s, x) <==> y in s || y == x
  {
    if s != [] && s[|s| - 1].prob < x.prob {
      InsertMembers(s[..|s| - 1], x);
      assert s == s[..|s| - 1] + [s[|s| - 1]];
    }
  }

  lemma {:induction false} SortMembers(s: seq<ProbIndex>)
    ensures forall y :: y in Sort(s) <==> y in s
  {
    if s != [] {
      SortMembers(s[..|s| - 1]);
      InsertMembers(Sort(s[..|s| - 1]), s[|s| - 1]);
      assert s == s[..|s| - 1] + [s[|s| - 1]];
    }
  }

  lemma {:induction false} KeptAndDropped(ps: seq<real>, cutoff: real)
    ensures forall y :: y in Kept(ps, cutoff) ==> y.prob >= cutoff
    ensures forall y :: y in Dropped(ps, cutoff) ==> y.prob < cutoff
    ensures |Kept(ps, cutoff)| + |Dropped(ps, cutoff)| == |ps|
  {
    if ps != [] { KeptAndDropped(ps[..|ps| - 1], cutoff); }
  }

  /** The cut keeps exactly the tokens of at least (1 - topp) / (n - 1), in the order of their ids. */
  lemma {:induction false} KeptIs(ps: seq<real>, cutoff: real)
    ensures forall y :: y in Kept(ps, cutoff) <==> y.index < |ps| && y.prob == ps[y.index] && y.prob >= cutoff
    ensures forall i, j :: 0 <= i < j < |Kept(ps, cutoff)| ==> Kept(ps, cutoff)[i].index < Kept(ps, cutoff)[j].index
  {
    if ps != [] {
      var n := |ps| - 1;
      KeptIs(ps[..n], cutoff);
      var front: seq<ProbIndex> := Kept(ps[..n], cutoff);
      var last: seq<ProbIndex> := if ps[n] >= cutoff then [ProbIndex(ps[n], n)] else [];
      assert Kept(ps, cutoff) == front + last;
      forall y: ProbIndex
        ensures y in front + last <==> y.index < |ps| && y.prob == ps[y.index] && y.prob >= cutoff
      {
        assert y in front + last <==> y in front || y in last;
      }
      forall i, j | 0 <= i < j < |front + last|
        ensures (front + last)[i].index < (front + last)[j].index
      {
        assert (front + last)[i] == front[i] && front[i] in front;
        if j < |front| { assert (front + last)[j] == front[j]; }
      }
    }
  }

  lemma CutoffValue(n: nat, topp: real)
    requires n >= 2
    ensures Cutoff(n, topp) * (n - 1) as real == 1.0 - topp
  {
  }

  lemma SortSnoc(s: seq<ProbIndex>, x: ProbIndex)
    ensures Sort(s + [x]) == Insert(Sort(s), x)
  {
    assert (s + [x])[..|s|] == s;
  }

  lemma SortNone()
    ensures Sort([]) == []
  {
  }

  /** The full stable sort is the sort of the kept tokens followed by the sort of the others. */
  lemma {:induction false} CutThenSort(ps: seq<real>, cutoff: real)
    ensures Sort(All(ps)) == Sort(Kept(ps, cutoff)) + Sort(Dropped(ps, cutoff))
  {
    hide Insert, Sort;
    if ps != [] {
      var n := |ps| - 1;
      var front, x := ps[..n], ProbIndex(ps[n], n);
      CutThenSort(front, cutoff);
      KeptAndDropped(front, cutoff);
      var k, d := Kept(front, cutoff), Dropped(front, cutoff);
      SortMembers(k);
      SortMembers(d);
      SortSnoc(All(front), x);
      if ps[n] >= cutoff {
        SortSnoc(k, x);
        InsertPast(Sort(k), Sort(d), x);
        assert Dropped(ps, cutoff) == d;
      } else {
        SortSnoc(d, x);
        InsertWithin(Sort(k), Sort(d), x);
        assert Kept(ps, cutoff) == k;
      }
    } else {
      SortNone();
    }
  }

  // ---------- sums ----------

  lemma {:induction false} SumAppend(a: seq<ProbIndex>, b: seq<ProbIndex>)
    ensures Sum(a + b) == Sum(a) + Sum(b)
    decreases b
  {
    if b == [] {
      assert a + b == a;
    } else {
      SumAppend(a, b[..|b| - 1]);
      assert (a + b)[..|a + b| - 1] == a + b[..|b| - 1];
    }
  }

  lemma {:induction false} InsertSum(s: seq<ProbIndex>, x: ProbIndex)
    ensures Sum(Insert(s, x)) == Sum(s) + x.prob
  {
    if s != [] && s[|s| - 1].prob < x.prob {
      InsertSum(s[..|s| - 1], x);
      SumAppend(Insert(s[..|s| - 1], x), [s[|s| - 1]]);
      assert Sum([s[|s| - 1]]) == s[|s| - 1].prob;
    } else {
      assert (s + [x])[..|s|] == s;
    }
  }

  lemma {:induction false} SortSum(s: seq<ProbIndex>)
    ensures Sum(Sort(s)) == Sum(s)
  {
    if s != [] {
      SortSum(s[..|s| - 1]);
      InsertSum(Sort(s[..|s| - 1]), s[|s| - 1]);
    }
  }

  /** Fewer than n tokens below the cut-off weigh less than 1 - topp altogether. */
  lemma {:induction false} LightSum(s: seq<ProbIndex>, cutoff: real)
    requires forall y :: y in s ==> y.prob < cutoff
    ensures s != [] ==> Sum(s) < Times(|s| as real, cutoff)
    ensures s == [] ==> Sum(s) == 0.0
  {
    if s != [] {
      var front := s[..|s| - 1];
      LightSum(front, cutoff);
      assert s[|s| - 1] in s;
      assert |s| as real * cutoff == |front| as real * cutoff + cutoff;
      if front == [] { assert |front| as real * cutoff == 0.0; }
    }
  }

  /** If anything is kept, what is kept weighs more than topp. */
  lemma KeptIsHeavy(ps: seq<real>, topp: real)
    requires |ps| >= 2 && Distribution(ps) && topp < 1.0
    requires Kept(ps, Cutoff(|ps|, topp)) != []
    ensures Sum(Kept(ps, Cutoff(|ps|, topp))) > topp
  {
    hide Sum, Sort, Kept, Dropped, All, Cutoff, Times;
    var n, c := |ps|, Cutoff(|ps|, topp);
    var k, d := Kept(ps, c), Dropped(ps, c);
    KeptAndDropped(ps, c);
    CutThenSort(ps, c);
    SortSum(All(ps));
    SortSum(k);
    SortSum(d);
    SumAppend(Sort(k), Sort(d));
    LightSum(d, c);
    CutoffTimes(n, topp, |d|);
  }

  lemma CutoffTimes(n: nat, topp: real, m: nat)
    requires n >= 2 && m <= n - 1 && topp < 1.0
    ensures Times(m as real, Cutoff(n, topp)) <= 1.0 - topp
  {
    var c, w := Cutoff(n, topp), (n - 1) as real;
    assert c * w == 1.0 - topp;
    assert c >= 0.0;
    assert m as real * c <= w * c;
  }

  lemma {:induction false} SumMonotone(s: seq<ProbIndex>, i: nat)
    requires i <= |s| && forall y :: y in s ==> y.prob >= 0.0
    ensures Sum(s[..i]) <= Sum(s)
    decreases |s| - i
  {
    if i == |s| {
      assert s[..i] == s;
    } else {
      SumMonotone(s, i + 1);
      assert s[..i + 1][..i] == s[..i] && s[i] in s;
    }
  }

  lemma NucleusOfPrefix(k: seq<ProbIndex>, d: seq<ProbIndex>, topp: real)
    requires Sum(k) > topp
    ensures NucleusSize(k, topp) == NucleusSize(k + d, topp)
    ensures Nucleus(k, topp) == Nucleus(k + d, topp) && Sum(Nucleus(k, topp)) > topp
  {
    var a, b := NucleusSize(k, topp), NucleusSize(k + d, topp);
    assert k[..|k|] == k;
    assert forall j :: 0 <= j <= |k| ==> (k + d)[..j] == k[..j];
    assert (k + d)[..a] == k[..a] && (b <= |k| ==> (k + d)[..b] == k[..b]);
  }

  // ---------- the theorem ----------

  /** Cutting before sorting is exact whenever it keeps anything: the nucleus of the few kept
      tokens is, token for token and in the same order, the nucleus of the stably sorted whole
      vocabulary. */
  lemma CutIsExact(ps: seq<real>, topp: real)
    requires |ps| >= 2 && Distribution(ps) && topp < 1.0
    requires Kept(ps, Cutoff(|ps|, topp)) != []
    ensures var kept := Sort(Kept(ps, Cutoff(|ps|, topp)));
      Nucleus(kept, topp) == Nucleus(Sort(All(ps)), topp) && Sum(Nucleus(kept, topp)) > topp
  {
    hide Sum, Sort, Kept, Dropped, All, Cutoff, Nucleus, NucleusSize;
    var c := Cutoff(|ps|, topp);
    KeptIsHeavy(ps, topp);
    SortSum(Kept(ps, c));
    CutThenSort(ps, c);
    NucleusOfPrefix(Sort(Kept(ps, c)), Sort(Dropped(ps, c)), topp);
  }

  /** The cut keeps something for every distribution over n tokens if and only if topp >= 1/n.
      For a smaller topp the uniform distribution leaves it with no token at all. */
  lemma AlwaysKeeps(n: nat, topp: real)
    requires n >= 2 && topp < 1.0
    ensures topp * n as real >= 1.0 <==>
      forall ps :: |ps| == n && Distribution(ps) ==> Kept(ps, Cutoff(n, topp)) != []
  {
    assert Times(topp, n as real) == topp * n as real;
    hide Sum, Kept, Dropped, All, Cutoff, Distribution, Uniform, Times;
    if Times(topp, n as real) >= 1.0 {
      forall ps | |ps| == n && Distribution(ps)
        ensures Kept(ps, Cutoff(n, topp)) != []
      {
        if Kept(ps, Cutoff(n, topp)) == [] { NothingKept(ps, topp); }
      }
    } else {
      UniformFails(n, topp);
    }
  }

  lemma UniformFails(n: nat, topp: real)
    requires n >= 2 && Times(topp, n as real) < 1.0
    ensures Distribution(Uniform(n)) && Kept(Uniform(n), Cutoff(n, topp)) == []
  {
    hide Sum, Kept, Dropped, All, Cutoff;
    var ps := Uniform(n);
    UniformSum(n, n);
    CutoffAboveUniform(n, topp);
    UniformDropped(n, Cutoff(n, topp), n);
    assert ps[..n] == ps;
  }

  lemma NothingKept(ps: seq<real>, topp: real)
    requires |ps| >= 2 && Distribution(ps) && topp < 1.0
    requires Kept(ps, Cutoff(|ps|, topp)) == []
    ensures Times(topp, |ps| as real) < 1.0
  {
    hide Sum, Kept, Dropped, All, Cutoff, Sort, Times;
    var n, c := |ps|, Cutoff(|ps|, topp);
    KeptAndDropped(ps, c);
    CutThenSort(ps, c);
    SortSum(All(ps));
    SortSum(Dropped(ps, c));
    LightSum(Dropped(ps, c), c);
    SortNone();
    assert Sort(All(ps)) == Sort(Dropped(ps, c));
    assert |Dropped(ps, c)| == n;
    CutoffScaled(n, topp);
  }

  // Products are kept behind a name where a proof only needs a law or two about them.

  function Times(a: real, b: real): real { a * b }

  lemma TimesCommutes(a: real, b: real)
    ensures Times(a, b) == Times(b, a)
  {
  }

  lemma TimesMore(a: real, b: real)
    ensures Times(a + 1.0, b) == Times(b, a) + b && Times(b, a + 1.0) == Times(b, a) + b
  {
  }

  lemma TimesOrder(a: real, b: real, w: real)
    requires w > 0.0
    ensures a > b <==> Times(a, w) > Times(b, w)
  {
    assert (a - b) * w == a * w - b * w;
  }

  lemma TimesInverse(n: real)
    requires n > 0.0
    ensures Times(1.0 / n, n) == 1.0
  {
  }

  lemma CutoffIs(n: nat, topp: real)
    requires n >= 2
    ensures Times(Cutoff(n, topp), (n - 1) as real) == 1.0 - topp
  {
  }

  lemma CutoffScaled(n: nat, topp: real)
    requires n >= 2
    ensures Times(n as real, Cutoff(n, topp)) > 1.0 <==> Times(topp, n as real) < 1.0
  {
    hide Times, Cutoff;
    var c, w := Cutoff(n, topp), (n - 1) as real;
    CutoffIs(n, topp);
    TimesMore(w, c);
    TimesMore(w, topp);
    TimesOrder(c, topp, w);
  }

  function Uniform(n: nat): (ps: seq<real>)
    requires n > 0
    ensures |ps| == n && forall i :: 0 <= i < n ==> ps[i] == 1.0 / n as real
  {
    seq(n, i => 1.0 / n as real)
  }

  lemma UniformAt(n: nat, m: nat)
    requires 0 < n && 0 < m <= n
    ensures var ps := Uniform(n)[..m]; ps[..m - 1] == Uniform(n)[..m - 1] && ps[m - 1] == 1.0 / n as real
  {
  }

  lemma AddShare(m: nat, n: real)
    requires m > 0 && n > 0.0
    ensures (m - 1) as real / n + 1.0 / n == m as real / n
  {
  }

  lemma {:induction false} UniformSum(n: nat, m: nat)
    requires 0 < n && m <= n
    ensures Sum(All(Uniform(n)[..m])) == m as real / n as real
    decreases m
  {
    hide Uniform;
    if m > 0 {
      UniformSum(n, m - 1);
      UniformAt(n, m);
      AddShare(m, n as real);
      var ps := Uniform(n)[..m];
      assert All(ps)[..m - 1] == All(ps[..m - 1]);
    }
  }

  lemma CutoffAboveUniform(n: nat, topp: real)
    requires n >= 2 && Times(topp, n as real) < 1.0
    ensures 1.0 / n as real < Cutoff(n, topp)
  {
    hide Times, Cutoff;
    var c, u, w := Cutoff(n, topp), 1.0 / n as real, n as real;
    CutoffScaled(n, topp);
    TimesInverse(w);
    TimesCommutes(w, c);
    TimesOrder(c, u, w);
  }

  lemma {:induction false} UniformDropped(n: nat, cutoff: real, m: nat)
    requires 0 < n && m <= n && 1.0 / n as real < cutoff
    ensures Kept(Uniform(n)[..m], cutoff) == []
    decreases m
  {
    if m > 0 {
      UniformDropped(n, cutoff, m - 1);
      assert Uniform(n)[..m][..m - 1] == Uniform(n)[..m - 1];
    }
  }

  /** Two equally likely tokens and topp = 1/4: the cut-off is 3/4 and nothing is kept. */
  lemma CutCanKeepNothing()
    ensures Distribution([0.5, 0.5]) && Kept([0.5, 0.5], Cutoff(2, 0.25)) == []
  {
    var ps := [0.5, 0.5];
    assert ps[..1] == [0.5] && [0.5][..0] == [];
    assert Kept([0.5], 0.75) == [] && Kept([], 0.75) == [];
    assert All([0.5]) == [ProbIndex(0.5, 0)];
    assert All(ps) == [ProbIndex(0.5, 0), ProbIndex(0.5, 1)];
    assert All(ps)[..1] == [ProbIndex(0.5, 0)] && [ProbIndex(0.5, 0)][..0] == [];
  }

  // ---------- the code ----------

  /** The body of the outer loop of sort_probindex: moves entry i to its place. */
  method InsertEntry(arr: array<ProbIndex>, i: nat)
    requires i < arr.Length
    modifies arr
    ensures arr[..i + 1] == Insert(old(arr[..i]), old(arr[i])) && arr[i + 1..] == old(arr[i + 1..])
  {
    hide Insert;
    var key := arr[i];
    ghost var sorted, rest := arr[..i], arr[i + 1..];
    var j := i - 1;
    assert sorted[..j + 1] == sorted && sorted[j + 1..] == [];
    while j >= 0 && arr[j].prob < key.prob
      invariant -1 <= j <= i - 1
      invariant arr[..j + 1] == sorted[..j + 1]
      invariant arr[j + 2..i + 1] == sorted[j + 1..]
      invariant arr[i + 1..] == rest
      invariant Insert(sorted, key) == Insert(sorted[..j + 1], key) + sorted[j + 1..]
    {
      InsertStep(sorted, key, j);
      arr[j + 1] := arr[j];
      j := j - 1;
    }
    InsertHere(sorted[..j + 1], key);
    assert Insert(sorted, key) == sorted[..j + 1] + [key] + sorted[j + 1..];
    Place(arr, i, j, key, sorted, rest);
  }

  /** The store that ends the insertion. */
  method Place(arr: array<ProbIndex>, i: nat, j: int, key: ProbIndex,
               ghost sorted: seq<ProbIndex>, ghost rest: seq<ProbIndex>)
    requires -1 <= j < i < arr.Length && |sorted| == i && arr[..j + 1] == sorted[..j + 1]
    requires arr[j + 2..i + 1] == sorted[j + 1..] && arr[i + 1..] == rest
    modifies arr
    ensures arr[..i + 1] == sorted[..j + 1] + [key] + sorted[j + 1..] && arr[i + 1..] == rest
  {
    arr[j + 1] := key;
    assert arr[..i + 1] == arr[..j + 1] + [key] + arr[j + 2..i + 1];
  }

  lemma InsertHere(s: seq<ProbIndex>, key: ProbIndex)
    requires s == [] || s[|s| - 1].prob >= key.prob
    ensures Insert(s, key) == s + [key]
  {
  }

  /** sort_probindex, in place on the first n entries. */
  method SortProbIndex(arr: array<ProbIndex>, n: nat)
    requires n <= arr.Length
    modifies arr
    ensures arr[..n] == Sort(old(arr[..n])) && arr[n..] == old(arr[n..])
  {
    hide Insert;
    ghost var was := arr[..];
    if n == 0 { return; }
    SortOne(was[0]);
    assert was[..1] == [was[0]];
    var i := 1;
    while i < n
      invariant 1 <= i <= n
      invariant arr[..i] == Sort(was[..i]) && arr[i..] == was[i..]
    {
      assert arr[i] == arr[i..][0] == was[i];
      InsertEntry(arr, i);
      assert was[..i + 1][..i] == was[..i];
      assert arr[i + 1..] == was[i + 1..];
      i := i + 1;
    }
  }

  lemma SortOne(x: ProbIndex)
    ensures Sort([x]) == [x]
  {
    assert [x][..0] == [];
  }

  lemma InsertStep(s: seq<ProbIndex>, key: ProbIndex, j: nat)
    requires j < |s| && s[j].prob < key.prob
    ensures Insert(s[..j + 1], key) + s[j + 1..] == Insert(s[..j], key) + s[j..]
  {
    assert s[..j + 1][..j] == s[..j];
  }

  /** The loop of sample_topp that picks the candidates. */
  method Collect(ps: seq<real>, cutoff: real, probindex: array<ProbIndex>) returns (n0: nat)
    requires probindex.Length >= |ps|
    modifies probindex
    ensures n0 <= |ps| && probindex[..n0] == Kept(ps, cutoff)
  {
    n0 := 0;
    for i := 0 to |ps|
      invariant n0 <= i && probindex[..n0] == Kept(ps[..i], cutoff)
    {
      assert ps[..i + 1][..i] == ps[..i];
      if ps[i] >= cutoff {
        probindex[n0] := ProbIndex(ps[i], i);
        n0 := n0 + 1;
      }
    }
    assert ps[..|ps|] == ps;
  }

  /** Where the loop that adds up the nucleus stops. */
  lemma NucleusFound(s: seq<ProbIndex>, topp: real, i: nat)
    requires Sum(Nucleus(s, topp)) > topp && i <= |s|
    requires forall j :: 0 <= j <= i ==> Sum(s[..j]) <= topp
    requires i < |s| ==> Sum(s[..i + 1]) > topp
    ensures i < |s| && NucleusSize(s, topp) == i + 1
  {
    var k := NucleusSize(s, topp);
    assert k > i;
    assert i < |s| && !(k > i + 1);
  }

  lemma CoinBelow(coin: real, c: real)
    requires 0.0 <= coin < 1.0 && c > 0.0
    ensures 0.0 <= Times(coin, c) < c
  {
  }

  /** The loop of sample_topp that adds up the sorted candidates until their weight passes topp. */
  method FindNucleus(probindex: array<ProbIndex>, n0: nat, topp: real) returns (last: nat, cumulative: real)
    requires 0 < n0 <= probindex.Length && topp >= 0.0 && Sum(Nucleus(probindex[..n0], topp)) > topp
    ensures last < n0 && Nucleus(probindex[..n0], topp) == probindex[..last + 1]
    ensures cumulative == Sum(probindex[..last + 1])
  {
    hide NucleusSize;
    ghost var sorted := probindex[..n0];
    cumulative := 0.0;
    last := n0 - 1;
    var i := 0;
    while i < n0
      invariant 0 <= i <= n0 && last == n0 - 1
      invariant cumulative == Sum(sorted[..i])
      invariant forall j :: 0 <= j <= i ==> Sum(sorted[..j]) <= topp
    {
      cumulative := cumulative + probindex[i].prob;
      assert sorted[..i + 1][..i] == sorted[..i];
      if cumulative > topp {
        last := i;
        break;
      }
      i := i + 1;
    }
    NucleusFound(sorted, topp, i);
    assert sorted[..last + 1] == probindex[..last + 1];
  }

  /** The loop that picks: the first candidate at which the running sum passes r. */
  method Choose(probindex: array<ProbIndex>, last: nat, r: real) returns (token: nat, ghost at: nat)
    requires last < probindex.Length && 0.0 <= r < Sum(probindex[..last + 1])
    ensures at <= last && token == probindex[at].index
    ensures Sum(probindex[..at]) <= r < Sum(probindex[..at + 1])
  {
    token, at := 0, 0;
    var cdf, i := 0.0, 0;
    while i <= last
      invariant 0 <= i <= last + 1
      invariant cdf == Sum(probindex[..i]) && cdf <= r
    {
      cdf := cdf + probindex[i].prob;
      assert probindex[..i + 1][..i] == probindex[..i];
      if r < cdf {
        return probindex[i].index, i;
      }
      i := i + 1;
    }
    assert false;
  }

  /** sample_topp, for a coin in [0, 1): the token of the nucleus at which the running sum passes
      coin times the weight of the nucleus. None stands for the read of `probindex[-1]` that the code ends
      with when the cut keeps nothing. */
  method SampleTopp(ps: seq<real>, topp: real, probindex: array<ProbIndex>, coin: real)
    returns (token: Option<nat>, ghost at: nat)
    requires |ps| >= 2 && Distribution(ps) && 0.0 <= topp < 1.0 && 0.0 <= coin < 1.0
    requires probindex.Length >= |ps|
    modifies probindex
    ensures token == None <==> Kept(ps, Cutoff(|ps|, topp)) == []
    ensures token.Some? ==>
      var nucleus := Nucleus(Sort(All(ps)), topp);
      && at < |nucleus| && token.value == nucleus[at].index
      && Sum(nucleus[..at]) <= Times(coin, Sum(nucleus)) < Sum(nucleus[..at + 1])
  {
    hide Sort, Kept, Dropped, All, Cutoff, Distribution, NucleusSize, Times;
    var cutoff := Cutoff(|ps|, topp);
    var n0 := Collect(ps, cutoff, probindex);
    SortProbIndex(probindex, n0);
    if n0 == 0 {
      return None, 0;
    }
    CutIsExact(ps, topp);
    var last, cumulative := FindNucleus(probindex, n0, topp);
    var r := Times(coin, cumulative);
    CoinBelow(coin, cumulative);
    var chosen;
    chosen, at := Choose(probindex, last, r);
    token := Some(chosen);
    ghost var nucleus := probindex[..last + 1];
    assert nucleus[..at] == probindex[..at] && nucleus[..at + 1] == probindex[..at + 1];
  }
}
