/** The scratch buffer of the encoders of kernel/src/qwen.c and kernel/src/llm.c: strings are put together in
    it, with their terminator, before they are looked up. */
module Scratch {
  import opened Vocabulary

  const NUL: char := '\0'

  /** The buffer holds a string and its terminator. */
  ghost predicate Holds(b: seq<char>, s: CString) {
    |s| < |b| && b[|s|] == NUL && forall i :: 0 <= i < |s| ==> b[i] as int == s[i]
  }

  /** memcpy of a string to an offset, and the terminator behind it. */
  method PutAt(buf: array<char>, ghost before: CString, from: nat, s: CString)
    requires from == |before| && from + |s| < buf.Length
    requires forall i :: 0 <= i < from ==> buf[i] as int == before[i]
    modifies buf
    ensures Holds(buf[..], before + s)
  {
    for k := 0 to |s|
      invariant forall i :: 0 <= i < from + k ==> buf[i] as int == (before + s)[i]
    {
      buf[from + k] := s[k] as char;
    }
    buf[from + |s|] := NUL;
  }

  method Put(buf: array<char>, s: CString)
    requires |s| < buf.Length
    modifies buf
    ensures Holds(buf[..], s)
  {
    PutAt(buf, [], 0, s);
    assert [] + s == s;
  }

  /** snprintf of two strings: cut to what the buffer has room for. */
  method PutTwo(buf: array<char>, a: CString, b: CString)
    requires buf.Length > 0
    modifies buf
    ensures |a| + |b| < buf.Length ==> Holds(buf[..], a + b)
    ensures |a| + |b| >= buf.Length ==> Holds(buf[..], (a + b)[..buf.Length - 1])
  {
    var room := buf.Length - 1;
    if |a| >= room {
      Put(buf, a[..room]);
      assert (a + b)[..room] == a[..room];
      assert |a| + |b| < buf.Length ==> b == [] && a[..room] == a + b;
    } else {
      Put(buf, a);
      var rest := if |a| + |b| <= room then b else b[..room - |a|];
      PutAt(buf, a, |a|, rest);
      assert |a| + |b| > room ==> (a + b)[..room] == a + rest;
    }
  }

  /** tok_lookup of the string in the buffer. */
  method LookupIn(buf: array<char>, ghost s: CString, sorted: seq<TokenIndex>) returns (id: int)
    requires Holds(buf[..], s)
    ensures id == LookupId(s, sorted)
  {
    var str: CString := [];
    assert forall i :: 0 <= i < |s| ==> buf[..][i] as int == s[i] && buf[i] != NUL;
    while buf[|str|] != NUL
      invariant |str| <= |s| && str == s[..|str|]
      decreases |s| - |str|
    {
      var k := |str|;
      assert buf[..][k] as int == s[k];
      str := str + [buf[k] as int];
    }
    assert s[..|s|] == s;
    id := TokLookup(str, sorted);
  }
}
