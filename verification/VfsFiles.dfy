/** File contents in kernel/src/vfs.c: a heap buffer of `cap` bytes, of which the first `size` count. */
module VfsFiles {
  import opened Basics

  const INITIAL: nat := 64

  /** `s` zero-extended to at least `n` bytes. */
  function Extended(s: seq<Byte>, n: nat): (r: seq<Byte>)
    ensures |r| == if |s| < n then n else |s|
    ensures forall i | 0 <= i < |r| :: r[i] == if i < |s| then s[i] else 0
  {
    if |s| < n then s + Zeros(n - |s|) else s
  }

  /** The contents after writing `b` at `off`: what was there stays around it, and a gap reads as zero. */
  function Overlay(s: seq<Byte>, off: nat, b: seq<Byte>): (r: seq<Byte>)
    ensures |r| == if |s| < off + |b| then off + |b| else |s|
    ensures r[off..off + |b|] == b
    ensures forall i | 0 <= i < |r| && (i < off || off + |b| <= i) :: r[i] == if i < |s| then s[i] else 0
  {
    var e := Extended(s, off + |b|);
    e[..off] + b + e[off + |b|..]
  }

  /** Writing in pieces is writing at once. */
  lemma WriteInPieces(s: seq<Byte>, off: nat, a: seq<Byte>, b: seq<Byte>)
    ensures Overlay(Overlay(s, off, a), off + |a|, b) == Overlay(s, off, a + b)
  {
    hide Overlay;
    var first := Overlay(s, off, a);
    var l, r := Overlay(first, off + |a|, b), Overlay(s, off, a + b);
    forall i | 0 <= i < |r| ensures l[i] == r[i] {
      if off <= i < off + |a| {
        assert l[i] == first[i] == first[off..off + |a|][i - off];
        assert r[i] == r[off..off + |a + b|][i - off];
      } else if off + |a| <= i < off + |a| + |b| {
        assert l[i] == l[off + |a|..off + |a| + |b|][i - off - |a|];
        assert r[i] == r[off..off + |a + b|][i - off];
      }
    }
  }

  /** Writes to ranges that do not meet commute. */
  lemma WritesCommute(s: seq<Byte>, off: nat, a: seq<Byte>, at: nat, b: seq<Byte>)
    requires off + |a| <= at || at + |b| <= off
    ensures Overlay(Overlay(s, off, a), at, b) == Overlay(Overlay(s, at, b), off, a)
  {
    hide Overlay;
    var x, y := Overlay(s, off, a), Overlay(s, at, b);
    var l, r := Overlay(x, at, b), Overlay(y, off, a);
    forall i | 0 <= i < |r| ensures l[i] == r[i] {
      if off <= i < off + |a| {
        assert l[i] == x[i] == x[off..off + |a|][i - off];
        assert r[i] == r[off..off + |a|][i - off];
      } else if at <= i < at + |b| {
        assert l[i] == l[at..at + |b|][i - at];
        assert r[i] == y[i] == y[at..at + |b|][i - at];
      }
    }
  }

  /** The C conversion of a size to int: 32 bits, two's complement. */
  function ToInt(n: nat): (r: int)
    ensures -0x8000_0000 <= r < 0x8000_0000
    ensures n < 0x8000_0000 ==> r == n
  {
    var low := n % 0x1_0000_0000;
    if low < 0x8000_0000 then low else low - 0x1_0000_0000
  }

  class File {
    const isDir: bool
    const readonly: bool
    var data: array?<Byte>
    var size: nat
    var cap: nat

    ghost predicate Valid()
      reads this`data, this`size, this`cap
    {
      && size <= cap
      && cap == (if data == null then 0 else data.Length)
    }

    ghost function Contents(): (s: seq<Byte>)
      requires Valid()
      reads this`data, this`size, this`cap, data
      ensures |s| == size
    {
      if data == null then [] else data[..size]
    }

    constructor (isDir: bool, readonly: bool)
      ensures Valid() && Contents() == [] && this.isDir == isDir && this.readonly == readonly
    {
      this.isDir, this.readonly := isDir, readonly;
      data, size, cap := null, 0, 0;
    }

    /** Room for `end` bytes: the capacity doubles from 64 until it is enough. */
    method Grow(end: nat, granted: bool) returns (ok: bool)
      requires Valid()
      modifies this`data, this`cap
      ensures Valid() && Contents() == old(Contents()) && size == old(size)
      ensures ok <==> end <= old(cap) || granted
      ensures ok ==> end <= cap
      ensures data == old(data) || fresh(data)
      ensures end <= old(cap) || !granted ==> data == old(data) && cap == old(cap)
    {
      if end > cap {
        var newcap := if cap != 0 then cap else INITIAL;
        while newcap < end
          invariant newcap > 0
        {
          newcap := newcap * 2;
        }
        if !granted {
          return false;
        }
        var nd := new Byte[newcap];
        if data != null {
          forall i | 0 <= i < size { nd[i] := data[i]; }
        }
        assert nd[..size] == Contents();
        data, cap := nd, newcap;
      }
      ok := true;
    }

    /** vfs_write on a node; `granted` says whether the allocator has room for a larger buffer. */
    method Write(buf: seq<Byte>, off: nat, granted: bool) returns (r: int)
      requires Valid()
      modifies this, data
      ensures Valid() && (data == old(data) || fresh(data))
      ensures var fits := !isDir && !readonly && (off + |buf| <= old(cap) || granted);
              r == (if fits then ToInt(|buf|) else -1)
              && Contents() == if fits then Overlay(old(Contents()), off, buf) else old(Contents())
    {
      if isDir || readonly {
        return -1;
      }
      var end := off + |buf|;
      var ok := Grow(end, granted);
      if !ok {
        return -1;
      }
      ghost var was := Contents();
      if data != null {
        Store(buf, off);
      }
      if end > size {
        size := end;
      }
      assert Contents()[off..end] == buf by {
        assert data == null ==> buf == [];
        assert data != null ==> Contents()[off..end] == data[off..end];
      }
      WrittenIs(was, off, buf, Contents());
      r := ToInt(|buf|);
    }

    /** The stores of vfs_write: zeros from the old end to the offset, then the bytes. */
    method Store(buf: seq<Byte>, off: nat)
      requires Valid() && data != null && off + |buf| <= cap
      modifies data
      ensures data[off..off + |buf|] == buf
      ensures forall i | 0 <= i < data.Length && (i < off || off + |buf| <= i) ::
        data[i] == if size <= i < off then 0 else old(data[i])
    {
      if off > size {
        forall i | size <= i < off { data[i] := 0; }
      }
      forall i | 0 <= i < |buf| { data[off + i] := buf[i]; }
    }

    /** vfs_truncate: shorter keeps a prefix, longer reads as zero past the old end. */
    method Truncate(n: nat, granted: bool) returns (r: int)
      requires Valid()
      modifies this, data
      ensures Valid()
      ensures var fits := !isDir && !readonly && (n <= old(size) || n <= old(cap) || granted);
              r == (if fits then 0 else -1)
              && Contents() == if !fits then old(Contents())
                               else if n <= old(size) then old(Contents())[..n] else Extended(old(Contents()), n)
    {
      if isDir || readonly {
        return -1;
      }
      if n <= size {
        ghost var was := Contents();
        size := n;
        assert Contents() == was[..n];
        return 0;
      }
      ghost var was := Contents();
      var w := Write([0], n - 1, granted);
      TailZero(was, n);
      r := if w < 0 then -1 else 0;
    }
  }

  lemma TailZero(s: seq<Byte>, n: nat)
    requires n > |s|
    ensures Overlay(s, n - 1, [0]) == Extended(s, n)
  {
    hide Overlay, Extended;
    var r := Overlay(s, n - 1, [0]);
    assert r[n - 1] == r[n - 1..n][0];
  }

  lemma WrittenIs(s: seq<Byte>, off: nat, b: seq<Byte>, r: seq<Byte>)
    requires |r| == if |s| < off + |b| then off + |b| else |s|
    requires r[off..off + |b|] == b
    requires forall i | 0 <= i < |r| && (i < off || off + |b| <= i) :: r[i] == if i < |s| then s[i] else 0
    ensures r == Overlay(s, off, b)
  {
    hide Overlay;
    var o := Overlay(s, off, b);
    forall i | 0 <= i < |r| ensures r[i] == o[i] {
      if off <= i < off + |b| {
        assert r[i] == r[off..off + |b|][i - off] && o[i] == o[off..off + |b|][i - off];
      }
    }
  }
}
