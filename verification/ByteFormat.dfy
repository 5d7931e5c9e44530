/** Bytes, little-endian words and concatenation, shared by the two file formats. */
module ByteFormat {
  import opened Basics

  type Word32 = x: int | 0 <= x < 0x1_0000_0000
  type SignedWord = x: int | -0x8000_0000 <= x < 0x8000_0000

  function Le32(n: Word32): (b: seq<Byte>)
    ensures |b| == 4
  {
    var n1 := n / 0x100;
    var n2 := n1 / 0x100;
    [n % 0x100, n1 % 0x100, n2 % 0x100, n2 / 0x100]
  }

  function FromBytes(a: Byte, b: Byte, c: Byte, d: Byte): Word32 {
    a as int + 0x100 * (b as int + 0x100 * (c as int + 0x100 * d as int))
  }

  lemma ByteOut(a: Byte, n: nat)
    ensures (a as int + 0x100 * n) % 0x100 == a && (a as int + 0x100 * n) / 0x100 == n
  {
  }

  lemma BytesOfWord(a: Byte, b: Byte, c: Byte, d: Byte)
    ensures Le32(FromBytes(a, b, c, d)) == [a, b, c, d]
  {
    var n2 := c as int + 0x100 * d as int;
    var n1 := b as int + 0x100 * n2;
    ByteOut(a, n1);
    ByteOut(b, n2);
    ByteOut(c, d);
  }

  /** The word at `p`. */
  function Word(f: seq<Byte>, p: nat): Word32
    requires p + 4 <= |f|
  {
    FromBytes(f[p], f[p + 1], f[p + 2], f[p + 3])
  }

  function Unsigned(x: SignedWord): Word32 { if x < 0 then x + 0x1_0000_0000 else x }

  function Signed(n: Word32): SignedWord { if n < 0x8000_0000 then n else n - 0x1_0000_0000 }

  lemma WordLe32(n: Word32)
    ensures Word(Le32(n), 0) == n
  {
  }

  /** The file holds `b` at `p`. */
  ghost predicate Holds(f: seq<Byte>, p: nat, b: seq<Byte>) { p + |b| <= |f| && f[p..p + |b|] == b }

  lemma HoldsSplit(f: seq<Byte>, p: nat, a: seq<Byte>, b: seq<Byte>)
    ensures Holds(f, p, a + b) <==> Holds(f, p, a) && Holds(f, p + |a|, b)
  {
    if p + |a| + |b| <= |f| {
      var s := f[p..p + |a| + |b|];
      assert s == f[p..p + |a|] + f[p + |a|..p + |a| + |b|];
      assert s == a + b ==> s[..|a|] == a && s[|a|..] == b;
    }
  }

  lemma HoldsWord(f: seq<Byte>, p: nat, n: Word32)
    requires Holds(f, p, Le32(n))
    ensures p + 4 <= |f| && Word(f, p) == n
  {
    WordLe32(n);
    assert f[p..p + 4] == Le32(n);
    forall i | 0 <= i < 4 ensures f[p + i] == Le32(n)[i] {
      assert f[p..p + 4][i] == f[p + i];
    }
  }

  function Concat(bs: seq<seq<Byte>>): seq<Byte> {
    if bs == [] then [] else bs[0] + Concat(bs[1..])
  }

  lemma {:induction false} ConcatSnoc(bs: seq<seq<Byte>>, b: seq<Byte>)
    ensures Concat(bs + [b]) == Concat(bs) + b
  {
    if bs == [] {
      assert bs + [b] == [b] && [b][1..] == [];
      assert Concat([b]) == b + [] == b && Concat(bs) + b == b;
    } else {
      ConcatSnoc(bs[1..], b);
      assert (bs + [b])[1..] == bs[1..] + [b];
      assert bs[0] + (Concat(bs[1..]) + b) == (bs[0] + Concat(bs[1..])) + b;
    }
  }

  /** Every block has the same length. */
  ghost predicate Uniform(bs: seq<seq<Byte>>, n: nat) { forall i | 0 <= i < |bs| :: |bs[i]| == n }

  lemma {:induction false} ConcatLength(bs: seq<seq<Byte>>, n: nat)
    requires Uniform(bs, n)
    ensures |Concat(bs)| == |bs| * n
  {
    if bs != [] {
      ConcatLength(bs[1..], n);
      assert (|bs| - 1) * n + n == |bs| * n;
    }
  }

  /** Blocks of one length lie at multiples of it. */
  lemma {:induction false} HoldsBlock(f: seq<Byte>, p: nat, bs: seq<seq<Byte>>, n: nat, i: nat)
    requires Uniform(bs, n) && Holds(f, p, Concat(bs)) && i < |bs|
    ensures Holds(f, p + i * n, bs[i])
    decreases i
  {
    hide Holds;
    HoldsSplit(f, p, bs[0], Concat(bs[1..]));
    if i == 0 {
      assert i * n == 0;
    } else {
      HoldsBlock(f, p + n, bs[1..], n, i - 1);
      assert n + (i - 1) * n == i * n;
    }
  }

  lemma HoldsByte(f: seq<Byte>, p: nat, b: seq<Byte>, k: nat)
    requires Holds(f, p, b) && k < |b|
    ensures p + k < |f| && f[p + k] == b[k]
  {
    assert f[p..p + |b|][k] == f[p + k];
  }

  /** Byte `r` of block `q`. */
  lemma HoldsElement(f: seq<Byte>, p: nat, bs: seq<seq<Byte>>, n: nat, q: nat, r: nat)
    requires Uniform(bs, n) && Holds(f, p, Concat(bs)) && q < |bs| && r < n
    ensures p + q * n + r < |f| && f[p + q * n + r] == bs[q][r]
  {
    hide Holds, Concat;
    assert |bs[q]| == n;
    HoldsBlock(f, p, bs, n, q);
    var start := p + q * n;
    HoldsByte(f, start, bs[q], r);
  }
}
