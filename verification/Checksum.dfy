/** The Internet checksum of kernel/src/net.c, over the bytes of a packet buffer. */
module Checksum {
  import opened Basics

  type Word16 = x: int | 0 <= x < 0x1_0000

  const WRAP: nat := 0x1_0000_0000

  // ---------- sums of 16-bit words ----------

  function Word(hi: Byte, lo: Byte): (r: Word16)
    ensures r / 256 == hi && r % 256 == lo
  {
    hi as int * 256 + lo as int
  }

  function High(v: Word16): Byte { v / 256 }

  function Low(v: Word16): Byte { v % 256 }

  lemma SplitWord(v: Word16)
    ensures Word(High(v), Low(v)) == v
  {
  }

  /** The sum of the big-endian words of `s`, an odd last byte padded with zero, without wrapping. */
  function WordSum(s: seq<Byte>): nat {
    if |s| == 0 then 0
    else if |s| == 1 then Word(s[0], 0)
    else Word(s[0], s[1]) + WordSum(s[2..])
  }

  lemma {:induction false} WordSumConcat(a: seq<Byte>, b: seq<Byte>)
    requires |a| % 2 == 0
    ensures WordSum(a + b) == WordSum(a) + WordSum(b)
  {
    if a == [] {
      assert a + b == b;
    } else {
      WordSumConcat(a[2..], b);
      assert (a + b)[2..] == a[2..] + b;
    }
  }

  lemma WordSumStep(s: seq<Byte>, i: nat)
    requires i % 2 == 0 && i < |s|
    ensures i + 2 <= |s| ==> WordSum(s[..i + 2]) == WordSum(s[..i]) + Word(s[i], s[i + 1])
    ensures i + 1 == |s| ==> WordSum(s) == WordSum(s[..i]) + Word(s[i], 0)
  {
    if i + 2 <= |s| {
      WordSumConcat(s[..i], [s[i], s[i + 1]]);
      assert s[..i + 2] == s[..i] + [s[i], s[i + 1]];
    } else {
      WordSumConcat(s[..i], [s[i]]);
      assert s == s[..i] + [s[i]];
    }
  }

  lemma {:induction false} WordSumBound(s: seq<Byte>)
    ensures WordSum(s) <= 65535 * ((|s| + 1) / 2)
  {
    if |s| >= 2 {
      WordSumBound(s[2..]);
    }
  }

  /** The bytes at an even offset contribute their value as one big-endian word. */
  lemma WordSumSplit(s: seq<Byte>, at: nat)
    requires at % 2 == 0 && at + 2 <= |s|
    ensures WordSum(s) == WordSum(s[..at]) + Word(s[at], s[at + 1]) + WordSum(s[at + 2..])
  {
    WordSumConcat(s[..at], s[at..]);
    assert s == s[..at] + s[at..];
    assert s[at..][2..] == s[at + 2..];
  }

  /** Every second byte from k on, added up. */
  function EverySecond(s: seq<Byte>, k: nat): nat
    decreases |s| - k
  {
    if k >= |s| then 0 else s[k] as int + EverySecond(s, k + 2)
  }

  lemma {:induction false} EverySecondTail(s: seq<Byte>, k: nat)
    requires |s| >= 2
    ensures EverySecond(s, k + 2) == EverySecond(s[2..], k)
    decreases |s| - k
  {
    if k + 2 < |s| {
      EverySecondTail(s, k + 2);
    }
  }

  /** The bytes at even places count 256 times, those at odd places once; a last byte without a partner stands at
      an even place. */
  lemma {:induction false} WordSumIs(s: seq<Byte>)
    ensures WordSum(s) == 256 * EverySecond(s, 0) + EverySecond(s, 1)
  {
    if |s| >= 2 {
      WordSumIs(s[2..]);
      EverySecondTail(s, 0);
      EverySecondTail(s, 1);
      assert EverySecond(s, 0) == s[0] as int + EverySecond(s, 2);
      assert EverySecond(s, 1) == s[1] as int + EverySecond(s, 3);
    } else if |s| == 1 {
      assert EverySecond(s, 0) == s[0] as int + EverySecond(s, 2);
    }
  }

  // ---------- 32-bit wrap-around and residues ----------

  function Low32(n: nat): (r: nat)
    ensures r < WRAP
    ensures n < WRAP ==> r == n
  {
    n % WRAP
  }

  function Wraps(n: nat): nat { n / WRAP }

  function Residue(n: nat): (r: nat)
    ensures r < 65535
  {
    n % 65535
  }

  lemma Low32Add(a: nat, b: nat)
    ensures Low32(Low32(a) + b) == Low32(a + b)
  {
  }

  lemma ResidueOf(n: nat) returns (q: nat)
    ensures n == q * 65535 + Residue(n)
    ensures Residue(n) == 0 <==> n % 65535 == 0
  {
    q := n / 65535;
  }

  lemma {:induction false} ResidueIs(n: nat, q: nat, r: nat)
    requires n == q * 65535 + r && r < 65535
    ensures Residue(n) == r
  {
    if q > 0 {
      ResidueIs(n - 65535, q - 1, r);
    }
  }

  lemma DropMultiple(a: nat, b: nat)
    requires Residue(a) == 0
    ensures Residue(a + b) == Residue(b)
  {
    hide Residue;
    var p := ResidueOf(a);
    var q := ResidueOf(b);
    ResidueIs(a + b, p + q, Residue(b));
  }

  lemma WrapsCount(n: nat)
    ensures n == Low32(n) + Wraps(n) * WRAP
    ensures Wraps(n) * WRAP == Wraps(n) * 65537 * 65535 + Wraps(n)
    ensures n < WRAP ==> Wraps(n) == 0
  {
  }

  // ---------- folding carries ----------

  function Fold(sum: nat): (r: Word16)
    ensures Residue(r) == Residue(sum)
    ensures r == 0 <==> sum == 0
    decreases sum
  {
    if sum < 0x1_0000 then sum else Fold(sum % 0x1_0000 + sum / 0x1_0000)
  }

  /** RFC 1071 section 1: the one's complement of the one's complement sum. */
  function ValueOf(s: seq<Byte>): Word16 { 65535 - Fold(Low32(WordSum(s))) }

  /** What an unbounded one's complement sum would be, for a verifier whose accumulator cannot wrap. */
  ghost predicate VerifiesExactly(s: seq<Byte>) { Fold(WordSum(s)) == 65535 }

  lemma FoldsToOnes(sum: nat)
    ensures Fold(sum) == 65535 <==> sum > 0 && Residue(sum) == 0
  {
    hide Fold;
  }

  /** The folded sum in closed form: the residue modulo 65535, except that only an empty sum is zero. */
  lemma FoldIs(sum: nat)
    ensures Fold(sum) == if sum == 0 then 0 else (sum - 1) % 65535 + 1
  {
    hide Fold;
    assert sum > 0 ==> (sum - 1) % 65535 == if sum % 65535 == 0 then 65534 else sum % 65535 - 1;
  }

  function HostToNetwork(v: Word16): (r: Word16)
    ensures r % 256 == v / 256 && r / 256 == v % 256
  {
    v / 256 + v % 256 * 256
  }

  method FoldCarries(sum: nat) returns (r: Word16)
    requires sum < WRAP
    ensures Residue(r) == Residue(sum)
    ensures r == 0 <==> sum == 0
    ensures r == Fold(sum)
  {
    var acc := sum;
    while acc / 0x1_0000 != 0
      decreases acc
      invariant 0 <= acc < WRAP
      invariant Residue(acc) == Residue(sum)
      invariant acc == 0 <==> sum == 0
      invariant Fold(acc) == Fold(sum)
    {
      acc := acc % 0x1_0000 + acc / 0x1_0000;
    }
    r := acc;
  }

  lemma WordSumNone()
    ensures WordSum([]) == 0
  {
  }

  method Checksum16(data: array<Byte>, len: nat, start: nat) returns (csum: Word16)
    requires len <= data.Length && start < WRAP
    ensures csum == HostToNetwork(65535 - Fold(Low32(start + WordSum(data[..len]))))
    ensures start == 0 ==> csum == HostToNetwork(ValueOf(data[..len]))
  {
    hide Fold, WordSum, Word, Low32;
    ghost var s := data[..len];
    var sum, i := start, 0;
    assert WordSum(s[..0]) == 0 by { WordSumNone(); }
    while len - i > 1
      invariant 0 <= i <= len && i % 2 == 0
      invariant sum == Low32(start + WordSum(s[..i]))
    {
      WordSumStep(s, i);
      Low32Add(start + WordSum(s[..i]), Word(data[i], data[i + 1]));
      sum := Low32(sum + Word(data[i], data[i + 1]));
      i := i + 2;
    }
    if i < len {
      WordSumStep(s, i);
      Low32Add(start + WordSum(s[..i]), Word(data[i], 0));
      sum := Low32(sum + Word(data[i], 0));
    }
    assert i == len ==> s[..i] == s;
    var folded := FoldCarries(sum);
    csum := HostToNetwork(65535 - folded);
  }

  /** The example of RFC 1071 section 3: the words 0001 f203 f4f5 f6f7 fold to ddf2. */
  lemma TextbookSum()
    ensures ValueOf([0x00, 0x01, 0xF2, 0x03, 0xF4, 0xF5, 0xF6, 0xF7]) == 0xFFFF - 0xDDF2
    ensures WordSum([0xAB]) == 0xAB00
  {
    hide Fold;
    var s: seq<Byte> := [0x00, 0x01, 0xF2, 0x03, 0xF4, 0xF5, 0xF6, 0xF7];
    assert s[2..] == [0xF2, 0x03, 0xF4, 0xF5, 0xF6, 0xF7] && s[2..][2..] == [0xF4, 0xF5, 0xF6, 0xF7];
    assert s[2..][2..][2..] == [0xF6, 0xF7] && s[2..][2..][2..][2..] == [];
    assert WordSum(s) == 0x0001 + 0xF203 + 0xF4F5 + 0xF6F7;
    FoldIs(WordSum(s));
  }

  // ---------- storing the checksum ----------

  /** A buffer whose checksum field is zero. */
  predicate Cleared(s: seq<Byte>, at: nat) { at + 2 <= |s| && s[at] == 0 && s[at + 1] == 0 }

  /** The buffer with `v` in the field, most significant byte first. */
  function Stored(s: seq<Byte>, at: nat, v: Word16): (r: seq<Byte>)
    requires at + 2 <= |s|
  {
    s[at := High(v)][at + 1 := Low(v)]
  }

  lemma StoredSum(s: seq<Byte>, at: nat, v: Word16)
    requires at % 2 == 0 && Cleared(s, at)
    ensures WordSum(Stored(s, at, v)) == WordSum(s) + v
  {
    var t := Stored(s, at, v);
    WordSumSplit(s, at);
    WordSumSplit(t, at);
    assert t[..at] == s[..at] && t[at + 2..] == s[at + 2..];
  }

  /** Adding the complement of a folded sum never carries out of 32 bits, and folds to all ones. */
  lemma ComplementFolds(sum: nat)
    requires sum < WRAP
    ensures sum + (65535 - Fold(sum)) < WRAP
    ensures Fold(sum + (65535 - Fold(sum))) == 65535
  {
    hide Fold, Residue;
    var f := Fold(sum);
    FoldsToOnes(sum + (65535 - f));
    var q := ResidueOf(sum);
    var p := ResidueOf(f);
    ResidueIs(sum + (65535 - f), q + 1 - p, 0);
  }

  /** Storing the checksum in its zeroed, even-offset field makes a second checksum come out zero,
      whatever the length, even where the 32-bit accumulator has wrapped. */
  lemma StoredVerifies(s: seq<Byte>, at: nat)
    requires at % 2 == 0 && Cleared(s, at)
    ensures ValueOf(Stored(s, at, ValueOf(s))) == 0
  {
    hide Fold, Low32, Stored, WordSum;
    var v := ValueOf(s);
    StoredSum(s, at, v);
    ComplementFolds(Low32(WordSum(s)));
    Low32Add(WordSum(s), v);
  }

  /** A verifier with a wider accumulator agrees exactly when the number of 32-bit wraps is a multiple
      of 65535, in particular when there were none. */
  lemma WiderVerifierAgrees(s: seq<Byte>, at: nat)
    requires at % 2 == 0 && Cleared(s, at)
    ensures VerifiesExactly(Stored(s, at, ValueOf(s))) <==> Residue(Wraps(WordSum(s))) == 0
    ensures |s| <= 131074 ==> VerifiesExactly(Stored(s, at, ValueOf(s)))
  {
    hide Fold, WordSum, Low32, Wraps, Residue, Stored;
    var v := ValueOf(s);
    StoredSum(s, at, v);
    WordSumBound(s);
    WrapsCount(WordSum(s));
    var low, wraps := Low32(WordSum(s)), Wraps(WordSum(s));
    ComplementFolds(low);
    FoldsToOnes(low + v);
    FoldsToOnes(WordSum(s) + v);
    ResidueIs(wraps * 65537 * 65535, wraps * 65537, 0);
    DropMultiple(low + v, wraps * 65537 * 65535 + wraps);
    DropMultiple(wraps * 65537 * 65535, wraps);
    ResidueIs(0, 0, 0);
  }

  /** n words of all ones. */
  function Ones(n: nat): (s: seq<Byte>)
    ensures |s| == 2 * n
  {
    if n == 0 then [] else [255, 255] + Ones(n - 1)
  }

  lemma {:induction false} OnesSum(n: nat)
    ensures WordSum(Ones(n)) == n * 65535
  {
    if n > 0 {
      OnesSum(n - 1);
      WordSumConcat([255, 255], Ones(n - 1));
      assert [255, 255][2..] == [];
    }
  }

  /** 131078 bytes: a cleared field and 65538 words of all ones wrap the 32-bit sum once, and the stored
      checksum fails a verifier with a wider sum. */
  lemma WrappedSumFails()
    ensures var s := [0, 0] + Ones(65538);
            |s| == 131078 && Cleared(s, 0) && !VerifiesExactly(Stored(s, 0, ValueOf(s)))
  {
    hide WordSum, Ones, Fold, VerifiesExactly, Stored, ValueOf, Residue;
    var s := [0, 0] + Ones(65538);
    WordSumConcat([0, 0], Ones(65538));
    ZeroWord();
    OnesSum(65538);
    WrapsCount(WordSum(s));
    ResidueIs(1, 0, 1);
    WiderVerifierAgrees(s, 0);
  }

  lemma ZeroWord()
    ensures WordSum([0, 0]) == 0
  {
    assert [0, 0][2..] == [];
  }

  /** Changing one aligned word of a verified buffer goes unnoticed only when the words are the two
      zeros of one's complement and the rest of the buffer is not all zero. */
  lemma OneWordChanged(s: seq<Byte>, at: nat, v: Word16)
    requires at % 2 == 0 && at + 2 <= |s| <= 131074
    requires ValueOf(s) == 0
    ensures var was := Word(s[at], s[at + 1]);
            ValueOf(Stored(s, at, v)) == 0 <==>
            v == was || (v == 65535 && was == 0)
            || (v == 0 && was == 65535 && WordSum(Stored(s, at, v)) > 0)
  {
    hide Fold, WordSum, Low32, Residue, Word, High, Low;
    var t := Stored(s, at, v);
    WordSumSplit(s, at);
    WordSumSplit(t, at);
    SplitWord(v);
    assert t[..at] == s[..at] && t[at + 2..] == s[at + 2..];
    WordSumBound(s);
    WordSumBound(t);
    FoldsToOnes(WordSum(s));
    FoldsToOnes(WordSum(t));
    SameResidue(WordSum(s) - Word(s[at], s[at + 1]), Word(s[at], s[at + 1]), v);
  }

  lemma SameResidue(rest: nat, was: Word16, v: Word16)
    requires Residue(rest + was) == 0
    ensures Residue(rest + v) == 0 <==> v == was || (v == 65535 && was == 0) || (v == 0 && was == 65535)
  {
    hide Residue;
    var q := ResidueOf(rest + was);
    var p := ResidueOf(rest + v);
    var m := (rest + v) - q * 65535;
    if m % 65535 == 0 && 0 <= q + m / 65535 {
      ResidueIs(rest + v, q + m / 65535, 0);
    }
  }

  // ---------- the packets ----------

  /** Clears the field, computes the checksum of the first `len` bytes and stores it. The machine is
      little-endian, so the low byte of the network-order word comes first. */
  method FillIn(pkt: array<Byte>, at: nat, len: nat)
    requires at % 2 == 0 && at + 2 <= len <= pkt.Length
    modifies pkt
    ensures ValueOf(pkt[..len]) == 0
    ensures forall k | 0 <= k < pkt.Length && k != at && k != at + 1 :: pkt[k] == old(pkt[k])
    ensures len <= 131074 ==> VerifiesExactly(pkt[..len])
  {
    hide Fold, WordSum, VerifiesExactly;
    pkt[at], pkt[at + 1] := 0, 0;
    ghost var cleared := pkt[..len];
    var csum := Checksum16(pkt, len, 0);
    pkt[at], pkt[at + 1] := csum % 256, csum / 256;
    assert pkt[..len] == Stored(cleared, at, ValueOf(cleared));
    StoredVerifies(cleared, at);
    if len <= 131074 {
      WiderVerifierAgrees(cleared, at);
    }
  }

  lemma FragmentBytes()
    ensures High(0x4000) == 0x40 && Low(0x4000) == 0
  {
  }

  /** The header that ip_send builds: 20 bytes, checksum at offset 10. Addresses are held in network
      byte order, as the four bytes the header carries. */
  method IpHeader(pkt: array<Byte>, id: Word16, proto: Byte, src: seq<Byte>, dst: seq<Byte>, len: nat)
    requires pkt.Length >= 20 && |src| == 4 && |dst| == 4 && len + 20 < 0x1_0000
    modifies pkt
    ensures VerifiesExactly(pkt[..20])
    ensures pkt[0] == 0x45 && pkt[1] == 0 && Word(pkt[2], pkt[3]) == 20 + len && Word(pkt[4], pkt[5]) == id
    ensures Word(pkt[6], pkt[7]) == 0x4000 && pkt[8] == 64 && pkt[9] == proto
    ensures pkt[12..16] == src && pkt[16..20] == dst
    ensures pkt[20..] == old(pkt[20..])
  {
    hide Fold, WordSum, Word, VerifiesExactly, ValueOf;
    HeaderFields(pkt, id, proto, len);
    WriteAddress(pkt, 12, src);
    WriteAddress(pkt, 16, dst);
    FillIn(pkt, 10, 20);
  }

  method WriteAddress(pkt: array<Byte>, at: nat, address: seq<Byte>)
    requires at + 4 <= pkt.Length && |address| == 4
    modifies pkt
    ensures pkt[at..at + 4] == address
    ensures forall k | 0 <= k < pkt.Length && !(at <= k < at + 4) :: pkt[k] == old(pkt[k])
  {
    pkt[at], pkt[at + 1], pkt[at + 2], pkt[at + 3] := address[0], address[1], address[2], address[3];
  }

  /** The fields before the checksum. */
  method HeaderFields(pkt: array<Byte>, id: Word16, proto: Byte, len: nat)
    requires pkt.Length >= 20 && len + 20 < 0x1_0000
    modifies pkt
    ensures pkt[0] == 0x45 && pkt[1] == 0 && Word(pkt[2], pkt[3]) == 20 + len && Word(pkt[4], pkt[5]) == id
    ensures Word(pkt[6], pkt[7]) == 0x4000 && pkt[8] == 64 && pkt[9] == proto
    ensures forall k | 10 <= k < pkt.Length :: pkt[k] == old(pkt[k])
  {
    hide Word, High, Low;
    SplitWord(20 + len);
    SplitWord(id);
    SplitWord(0x4000);
    FragmentBytes();
    pkt[0], pkt[1] := 0x45, 0;
    pkt[2], pkt[3] := High(20 + len), Low(20 + len);
    pkt[4], pkt[5] := High(id), Low(id);
    pkt[6], pkt[7] := 0x40, 0;
    pkt[8], pkt[9] := 64, proto;
  }

  /** The reply to an echo request: the request with type 0 and a fresh checksum. A request too short
      for a header, or not of type 8, gets no reply. */
  method EchoReply(payload: seq<Byte>, pkt: array<Byte>) returns (replied: bool)
    requires |payload| <= pkt.Length && |payload| <= 131074
    modifies pkt
    ensures replied <==> |payload| >= 8 && payload[0] == 8
    ensures replied ==> VerifiesExactly(pkt[..|payload|]) && pkt[0] == 0 && pkt[1] == payload[1]
    ensures replied ==> pkt[4..|payload|] == payload[4..]
    ensures !replied ==> pkt[..] == old(pkt[..])
  {
    hide Fold, WordSum, VerifiesExactly, ValueOf;
    if |payload| < 8 || payload[0] != 8 {
      return false;
    }
    forall i | 0 <= i < |payload| { pkt[i] := payload[i]; }
    pkt[0] := 0;
    FillIn(pkt, 2, |payload|);
    replied := true;
  }
}
