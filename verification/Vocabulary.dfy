/** The sorted vocabulary of kernel/src/llm_common.c: heapsort by strcmp and binary search. */
module Vocabulary {

  /** A byte of a C string, which ends before its first NUL. */
  type Char = c: nat | 0 < c < 256 witness 1

  type CString = seq<Char>

  datatype TokenIndex = TokenIndex(str: CString, id: nat)

  // ---------- strcmp ----------

  function Head(s: CString): nat { if s == [] then 0 else s[0] }

  /** strcmp of kernel/src/string.c: the difference at the first position where the strings, read
      as unsigned bytes up to and including their terminator, differ. */
  function Strcmp(a: CString, b: CString): int {
    if a != [] && b != [] && a[0] == b[0] then Strcmp(a[1..], b[1..]) else Head(a) - Head(b)
  }

  lemma {:induction false} StrcmpZero(a: CString, b: CString)
    ensures Strcmp(a, b) == 0 <==> a == b
  {
    if a != [] && b != [] && a[0] == b[0] {
      StrcmpZero(a[1..], b[1..]);
      assert a == [a[0]] + a[1..] && b == [b[0]] + b[1..];
    }
  }

  lemma {:induction false} StrcmpFlips(a: CString, b: CString)
    ensures Strcmp(a, b) == -Strcmp(b, a)
  {
    if a != [] && b != [] && a[0] == b[0] { StrcmpFlips(a[1..], b[1..]); }
  }

  lemma {:induction false} StrcmpTransitive(a: CString, b: CString, c: CString)
    requires Strcmp(a, b) <= 0 && Strcmp(b, c) <= 0
    ensures Strcmp(a, c) <= 0
    ensures Strcmp(a, b) < 0 || Strcmp(b, c) < 0 ==> Strcmp(a, c) < 0
  {
    if a != [] && b != [] && c != [] && a[0] == b[0] && b[0] == c[0] {
      StrcmpTransitive(a[1..], b[1..], c[1..]);
    }
  }

  /** The first difference decides, as unsigned bytes; a string comes before its extensions. */
  lemma {:induction false} StrcmpDiffers(p: CString, x: Char, a: CString, y: Char, b: CString)
    requires x != y
    ensures Strcmp(p + [x] + a, p + [y] + b) == x as int - y as int
    ensures Strcmp(p, p + [y] + b) == -(y as int)
  {
    var l, r := p + [x] + a, p + [y] + b;
    if p != [] {
      StrcmpDiffers(p[1..], x, a, y, b);
      assert l[1..] == p[1..] + [x] + a && r[1..] == p[1..] + [y] + b;
    }
  }

  predicate Leq(x: TokenIndex, y: TokenIndex) { Strcmp(x.str, y.str) <= 0 }

  lemma LeqTransitive(x: TokenIndex, y: TokenIndex, z: TokenIndex)
    requires Leq(x, y) && Leq(y, z)
    ensures Leq(x, z)
  {
    StrcmpTransitive(x.str, y.str, z.str);
  }

  ghost predicate Sorted(s: seq<TokenIndex>) {
    forall i, j :: 0 <= i < j < |s| ==> Leq(s[i], s[j])
  }

  // ---------- heaps ----------

  /** c is a child of i in a heap. */
  predicate Child(i: int, c: int) { c == 2 * i + 1 || c == 2 * i + 2 }

  /** From position lo on, every node of s[..hi] is at least as large as its children; the node
      `but` need not be. */
  ghost predicate HeapBut(s: seq<TokenIndex>, lo: int, hi: int, but: int)
    requires hi <= |s|
  {
    forall i, c :: 0 <= lo <= i && Child(i, c) && c < hi && i != but ==> Leq(s[c], s[i])
  }

  /** The parent of `but` is at least as large as the children of `but`. */
  ghost predicate Bridged(s: seq<TokenIndex>, lo: int, hi: int, but: int)
    requires hi <= |s|
  {
    forall i, c :: 0 <= lo <= i && Child(i, but) && Child(but, c) && c < hi ==> Leq(s[c], s[i])
  }

  ghost predicate Heap(s: seq<TokenIndex>, lo: int, hi: int)
    requires hi <= |s|
  {
    HeapBut(s, lo, hi, -1)
  }

  lemma {:induction false} RootIsLargest(s: seq<TokenIndex>, hi: nat, i: nat)
    requires hi <= |s| && Heap(s, 0, hi) && i < hi
    ensures Leq(s[i], s[0])
    decreases i
  {
    if i == 0 {
      StrcmpZero(s[0].str, s[0].str);
    } else {
      var parent := (i - 1) / 2;
      assert Child(parent, i);
      RootIsLargest(s, hi, parent);
      LeqTransitive(s[i], s[parent], s[0]);
    }
  }

  function Swapped(s: seq<TokenIndex>, i: nat, j: nat): (r: seq<TokenIndex>)
    requires i < |s| && j < |s|
    ensures |r| == |s|
  {
    s[i := s[j]][j := s[i]]
  }

  /** One swap of the sift: the exception moves down to the larger child. */
  lemma SiftStep(s: seq<TokenIndex>, lo: nat, hi: nat, root: nat, child: nat)
    requires hi <= |s| && lo <= root < hi && child < hi && Child(root, child)
    requires HeapBut(s, lo, hi, root) && Bridged(s, lo, hi, root)
    requires Leq(s[root], s[child])
    requires forall c :: Child(root, c) && c < hi ==> Leq(s[c], s[child])
    ensures var r := Swapped(s, root, child);
      HeapBut(r, lo, hi, child) && Bridged(r, lo, hi, child)
  {
    var r := Swapped(s, root, child);
    forall i, c | 0 <= lo <= i && Child(i, c) && c < hi && i != child
      ensures Leq(r[c], r[i])
    {
      if i == root {
        if c != child { assert r[c] == s[c]; }
      } else if c == root {
        assert Child(i, root) && Child(root, child);
        assert r[c] == s[child] && r[i] == s[i];
      } else {
        assert c != child;
      }
    }
    forall i, c | 0 <= lo <= i && Child(i, child) && Child(child, c) && c < hi
      ensures Leq(r[c], r[i])
    {
      assert i == root && r[c] == s[c] && r[i] == s[child];
    }
  }

  /** A swap within s[start..hi] moves nothing in or out of either side. */
  lemma SwapInside(s: seq<TokenIndex>, start: nat, hi: nat, i: nat, j: nat)
    requires start <= i < j < hi <= |s|
    ensures var r := Swapped(s, i, j);
      && r == s[i := s[j]][j := s[i]] && r[hi..] == s[hi..] && r[..start] == s[..start]
      && multiset(r) == multiset(s) && multiset(r[..hi]) == multiset(s[..hi])
  {
    SwapMultiset(s, i, j);
    SwapMultiset(s[..hi], i, j);
    assert Swapped(s, i, j)[..hi] == Swapped(s[..hi], i, j);
  }

  lemma SwapMultiset(s: seq<TokenIndex>, i: nat, j: nat)
    requires i < |s| && j < |s|
    ensures multiset(Swapped(s, i, j)) == multiset(s)
  {
    var t := s[i := s[j]];
    assert multiset(t) == multiset(s) - multiset{s[i]} + multiset{s[j]};
    assert multiset(t[j := s[i]]) == multiset(t) - multiset{t[j]} + multiset{s[i]};
  }

  /** The sift loop of tok_sort, over arr[..hi] from `start` down. */
  method Sift(arr: array<TokenIndex>, start: nat, hi: nat)
    requires start < hi <= arr.Length && HeapBut(arr[..], start, hi, start)
    modifies arr
    ensures Heap(arr[..], start, hi) && multiset(arr[..]) == multiset(old(arr[..]))
    ensures arr[hi..] == old(arr[hi..]) && arr[..start] == old(arr[..start])
    ensures forall x :: x in arr[..hi] <==> x in old(arr[..hi])
  {
    hide Leq, HeapBut, Bridged, Swapped, Strcmp;
    var root := start;
    NotBridgedYet(arr[..], start, hi);
    while true
      invariant start <= root < hi
      invariant HeapBut(arr[..], start, hi, root) && Bridged(arr[..], start, hi, root)
      invariant multiset(arr[..]) == multiset(old(arr[..]))
      invariant arr[hi..] == old(arr[hi..]) && arr[..start] == old(arr[..start])
      invariant multiset(arr[..hi]) == multiset(old(arr[..hi]))
      decreases hi - root
    {
      var child := 2 * root + 1;
      if child >= hi {
        BecomesHeap(arr[..], start, hi, root);
        break;
      }
      if child + 1 < hi && Strcmp(arr[child].str, arr[child + 1].str) < 0 {
        child := child + 1;
      }
      LargerChild(arr[..], hi, root, child);
      if Strcmp(arr[root].str, arr[child].str) >= 0 {
        RootLarger(arr[..], hi, root, child);
        BecomesHeap(arr[..], start, hi, root);
        break;
      }
      ghost var s := arr[..];
      RootSmaller(s, root, child);
      SiftStep(s, start, hi, root, child);
      SwapInside(s, start, hi, root, child);
      arr[root], arr[child] := arr[child], arr[root];
      assert arr[..] == Swapped(s, root, child);
      assert arr[..hi] == Swapped(s, root, child)[..hi] && arr[hi..] == Swapped(s, root, child)[hi..];
      assert arr[..start] == Swapped(s, root, child)[..start];
      root := child;
    }
    SameMembers(arr[..hi], old(arr[..hi]));
  }

  lemma SameMembers(a: seq<TokenIndex>, b: seq<TokenIndex>)
    requires multiset(a) == multiset(b)
    ensures forall x :: x in a <==> x in b
  {
    assert forall x :: x in a <==> x in multiset(a);
    assert forall x :: x in b <==> x in multiset(b);
  }

  lemma NotBridgedYet(s: seq<TokenIndex>, lo: nat, hi: nat)
    requires hi <= |s|
    ensures Bridged(s, lo, hi, lo)
  {
  }

  lemma BecomesHeap(s: seq<TokenIndex>, lo: nat, hi: nat, root: nat)
    requires hi <= |s| && HeapBut(s, lo, hi, root)
    requires forall c :: Child(root, c) && c < hi ==> Leq(s[c], s[root])
    ensures Heap(s, lo, hi)
  {
  }

  /** What the comparison of the two children establishes. */
  lemma LargerChild(s: seq<TokenIndex>, hi: nat, root: nat, child: nat)
    requires hi <= |s| && child < hi
    requires child == if 2 * root + 2 < hi && Strcmp(s[2 * root + 1].str, s[2 * root + 2].str) < 0
                      then 2 * root + 2 else 2 * root + 1
    ensures Child(root, child) && forall c :: Child(root, c) && c < hi ==> Leq(s[c], s[child])
  {
    StrcmpZero(s[child].str, s[child].str);
    if 2 * root + 2 < hi { StrcmpFlips(s[2 * root + 1].str, s[2 * root + 2].str); }
  }

  lemma RootLarger(s: seq<TokenIndex>, hi: nat, root: nat, child: nat)
    requires hi <= |s| && root < hi && child < hi && Strcmp(s[root].str, s[child].str) >= 0
    requires forall c :: Child(root, c) && c < hi ==> Leq(s[c], s[child])
    ensures forall c :: Child(root, c) && c < hi ==> Leq(s[c], s[root])
  {
    StrcmpFlips(s[root].str, s[child].str);
    forall c | Child(root, c) && c < hi
      ensures Leq(s[c], s[root])
    {
      LeqTransitive(s[c], s[child], s[root]);
    }
  }

  lemma RootSmaller(s: seq<TokenIndex>, root: nat, child: nat)
    requires root < |s| && child < |s| && Strcmp(s[root].str, s[child].str) < 0
    ensures Leq(s[root], s[child])
  {
  }

  /** tok_sort: afterwards the array is sorted by strcmp and holds the same entries. */
  method TokSort(arr: array<TokenIndex>)
    modifies arr
    ensures Sorted(arr[..]) && multiset(arr[..]) == multiset(old(arr[..]))
  {
    hide Leq, HeapBut, Heap, Sorted, Partitioned;
    BuildHeap(arr);
    ExtractAll(arr);
  }

  /** The first loop of tok_sort. */
  method BuildHeap(arr: array<TokenIndex>)
    modifies arr
    ensures Heap(arr[..], 0, arr.Length) && multiset(arr[..]) == multiset(old(arr[..]))
  {
    hide Leq, HeapBut, Heap;
    var n := arr.Length;
    var start := n / 2 - 1;
    LeavesAreHeap(arr[..], n);
    while start >= 0
      invariant -1 <= start < n / 2 && Heap(arr[..], start + 1, n)
      invariant multiset(arr[..]) == multiset(old(arr[..]))
    {
      HeapExcept(arr[..], start, n);
      Sift(arr, start, n);
      start := start - 1;
    }
  }

  /** The second loop of tok_sort: the largest remaining entry goes to the end, again and again. */
  method ExtractAll(arr: array<TokenIndex>)
    requires Heap(arr[..], 0, arr.Length)
    modifies arr
    ensures Sorted(arr[..]) && multiset(arr[..]) == multiset(old(arr[..]))
  {
    hide Leq, HeapBut, Heap, Sorted, Partitioned;
    var end := arr.Length - 1;
    NothingOut(arr[..]);
    while end > 0
      invariant end < arr.Length && -1 <= end && (arr.Length > 0 ==> end >= 0)
      invariant Heap(arr[..], 0, end + 1) && Partitioned(arr[..], end + 1)
      invariant multiset(arr[..]) == multiset(old(arr[..]))
    {
      MoveLargest(arr, end);
      end := end - 1;
    }
    AllSorted(arr[..], end);
  }

  lemma NothingOut(s: seq<TokenIndex>)
    ensures Partitioned(s, |s|)
  {
  }

  /** The tail is sorted and nothing before it is larger than anything in it. */
  ghost predicate Partitioned(s: seq<TokenIndex>, at: nat)
    requires at <= |s|
  {
    Sorted(s[at..]) && forall x, y :: x in s[..at] && y in s[at..] ==> Leq(x, y)
  }

  /** The body of the second loop of tok_sort. */
  method MoveLargest(arr: array<TokenIndex>, end: nat)
    requires 0 < end < arr.Length && Heap(arr[..], 0, end + 1) && Partitioned(arr[..], end + 1)
    modifies arr
    ensures Heap(arr[..], 0, end) && Partitioned(arr[..], end)
    ensures multiset(arr[..]) == multiset(old(arr[..]))
  {
    hide Leq, HeapBut, Sorted;
    ghost var s := arr[..];
    SwapMultiset(s, 0, end);
    arr[0], arr[end] := arr[end], arr[0];
    ghost var r := arr[..];
    assert r == Swapped(s, 0, end);
    TakeLargest(s, r, end);
    assert arr[end..] == r[end..] && arr[..end] == r[..end];
    Sift(arr, 0, end);
    assert arr[..][end..] == arr[end..] && arr[..][..end] == arr[..end];
  }

  lemma LeavesAreHeap(s: seq<TokenIndex>, n: nat)
    requires n == |s|
    ensures Heap(s, n / 2, n)
  {
  }

  lemma HeapExcept(s: seq<TokenIndex>, lo: nat, hi: nat)
    requires hi <= |s| && Heap(s, lo + 1, hi)
    ensures HeapBut(s, lo, hi, lo)
  {
  }

  /** Moving the root of the heap to its end. */
  lemma TakeLargest(s: seq<TokenIndex>, r: seq<TokenIndex>, end: nat)
    requires 0 < end < |s| && Heap(s, 0, end + 1) && r == Swapped(s, 0, end)
    requires Sorted(s[end + 1..])
    requires forall x, y :: x in s[..end + 1] && y in s[end + 1..] ==> Leq(x, y)
    ensures HeapBut(r, 0, end, 0) && Sorted(r[end..])
    ensures forall x, y :: x in r[..end] && y in r[end..] ==> Leq(x, y)
  {
    forall i, c | 0 <= i && Child(i, c) && c < end && i != 0
      ensures Leq(r[c], r[i])
    {
      assert r[c] == s[c] && r[i] == s[i];
    }
    assert r[end..] == [s[0]] + s[end + 1..];
    assert s[0] in s[..end + 1];
    forall x | x in r[..end]
      ensures x in s[..end + 1] && Leq(x, s[0])
    {
      var i :| 0 <= i < end && r[i] == x;
      RootIsLargest(s, end + 1, if i == 0 then end else i);
      assert s[..end + 1][if i == 0 then end else i] == x;
    }
  }

  lemma AllSorted(s: seq<TokenIndex>, end: int)
    requires -1 <= end <= 0 && end < |s| && Partitioned(s, end + 1)
    ensures Sorted(s)
  {
    hide Leq;
    forall i, j | 0 <= i < j < |s|
      ensures Leq(s[i], s[j])
    {
      assert s[j] == s[end + 1..][j - end - 1];
      if i <= end { assert s[i] == s[..end + 1][i]; }
      else { assert s[i] == s[end + 1..][i - end - 1]; }
    }
  }

  // ---------- tok_lookup ----------

  /** The binary search of tok_lookup between lo and hi. */
  function Search(str: CString, sorted: seq<TokenIndex>, lo: int, hi: int): int
    requires 0 <= lo && hi < |sorted|
    decreases hi - lo
  {
    if lo > hi then -1
    else
      var mid := (lo + hi) / 2;
      var c := Strcmp(str, sorted[mid].str);
      if c == 0 then sorted[mid].id
      else if c < 0 then Search(str, sorted, lo, mid - 1)
      else Search(str, sorted, mid + 1, hi)
  }

  /** What tok_lookup computes. */
  function LookupId(str: CString, sorted: seq<TokenIndex>): int {
    Search(str, sorted, 0, |sorted| - 1)
  }

  method TokLookup(str: CString, sorted: seq<TokenIndex>) returns (id: int)
    ensures id == LookupId(str, sorted)
  {
    var lo, hi := 0, |sorted| - 1;
    while lo <= hi
      invariant 0 <= lo && hi < |sorted|
      invariant LookupId(str, sorted) == Search(str, sorted, lo, hi)
      decreases hi - lo
    {
      var mid := (lo + hi) / 2;
      var c := Strcmp(str, sorted[mid].str);
      if c == 0 {
        return sorted[mid].id;
      }
      if c < 0 {
        hi := mid - 1;
      } else {
        lo := mid + 1;
      }
    }
    return -1;
  }

  /** tok_lookup returns the id of an entry with the given string if there is one, -1 otherwise. */
  lemma {:induction false} SearchFinds(str: CString, sorted: seq<TokenIndex>, lo: int, hi: int)
    requires Sorted(sorted) && 0 <= lo <= |sorted| && -1 <= hi < |sorted|
    requires forall i :: 0 <= i < lo ==> sorted[i].str != str
    requires forall i :: hi < i < |sorted| ==> sorted[i].str != str
    ensures var id := Search(str, sorted, lo, hi);
      if id < 0 then id == -1 && forall t :: t in sorted ==> t.str != str
      else TokenIndex(str, id) in sorted
    decreases hi - lo
  {
    if lo <= hi {
      var mid := (lo + hi) / 2;
      var c := Strcmp(str, sorted[mid].str);
      StrcmpZero(str, sorted[mid].str);
      if c < 0 {
        BelowAll(str, sorted, mid);
        SearchFinds(str, sorted, lo, mid - 1);
      } else if c > 0 {
        AboveAll(str, sorted, mid);
        SearchFinds(str, sorted, mid + 1, hi);
      }
    }
  }

  lemma BelowAll(str: CString, s: seq<TokenIndex>, mid: nat)
    requires Sorted(s) && mid < |s| && Strcmp(str, s[mid].str) < 0
    ensures forall i :: mid <= i < |s| ==> s[i].str != str
  {
    forall i | mid <= i < |s|
      ensures s[i].str != str
    {
      StrcmpZero(s[i].str, s[i].str);
      assert i > mid ==> Leq(s[mid], s[i]);
      StrcmpTransitive(str, s[mid].str, s[i].str);
    }
  }

  lemma AboveAll(str: CString, s: seq<TokenIndex>, mid: nat)
    requires Sorted(s) && mid < |s| && Strcmp(str, s[mid].str) > 0
    ensures forall i :: 0 <= i <= mid ==> s[i].str != str
  {
    StrcmpFlips(str, s[mid].str);
    forall i | 0 <= i <= mid
      ensures s[i].str != str
    {
      StrcmpZero(s[i].str, s[i].str);
      assert i < mid ==> Leq(s[i], s[mid]);
      StrcmpTransitive(s[i].str, s[mid].str, str);
    }
  }

  // ---------- the two together ----------

  /** The index that build_tokenizer sorts: every vocabulary entry with its id. */
  function IndexOf(vocab: seq<CString>): (r: seq<TokenIndex>)
    ensures |r| == |vocab| && forall i :: 0 <= i < |vocab| ==> r[i] == TokenIndex(vocab[i], i)
  {
    seq(|vocab|, i requires 0 <= i < |vocab| => TokenIndex(vocab[i], i))
  }

  /** What a lookup in the sorted index of a vocabulary says. */
  ghost predicate Finds(vocab: seq<CString>, str: CString, id: int) {
    if id < 0 then id == -1 && str !in vocab else id < |vocab| && vocab[id] == str
  }

  /** The sorting done by build_tokenizer. */
  method BuildIndex(vocab: seq<CString>) returns (sorted: seq<TokenIndex>)
    ensures Sorted(sorted) && multiset(sorted) == multiset(IndexOf(vocab))
  {
    var arr := new TokenIndex[|vocab|](i requires 0 <= i < |vocab| => TokenIndex(vocab[i], i));
    assert arr[..] == IndexOf(vocab);
    TokSort(arr);
    return arr[..];
  }

  /** tok_lookup on the sorted index finds a token exactly if the vocabulary has one. */
  lemma LookupFinds(vocab: seq<CString>, sorted: seq<TokenIndex>, str: CString)
    requires Sorted(sorted) && multiset(sorted) == multiset(IndexOf(vocab))
    ensures Finds(vocab, str, LookupId(str, sorted))
  {
    SearchFinds(str, sorted, 0, |sorted| - 1);
    SameMembers(sorted, IndexOf(vocab));
    assert forall i :: 0 <= i < |vocab| ==> IndexOf(vocab)[i] in sorted;
  }
}
