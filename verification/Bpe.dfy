/** Byte-pair encoding as in kernel/src/qwen.c: special tokens and single bytes first, then the
    best-scoring pair is merged until none can be. */
module Bpe {
  import opened Vocabulary
  import opened Scratch

  /** The parts of the Tokenizer that encode uses; scores are reals. */
  datatype Tokenizer = Tokenizer(vocab: seq<CString>, scores: seq<real>, sorted: seq<TokenIndex>) {
    ghost predicate Valid() {
      |scores| == |vocab| && Sorted(sorted) && multiset(sorted) == multiset(IndexOf(vocab))
    }
  }

  const LT: Char := 60
  const GT: Char := 62
  const NO_SCORE: real := -10000000000.0

  /** Ids that name vocabulary entries. */
  ghost predicate Ids(t: Tokenizer, ts: seq<int>) {
    forall i :: 0 <= i < |ts| ==> 0 <= ts[i] < |t.vocab|
  }

  /** What a list of tokens spells. */
  function Text(t: Tokenizer, ts: seq<int>): CString
    requires Ids(t, ts)
  {
    if ts == [] then [] else t.vocab[ts[0]] + Text(t, ts[1..])
  }

  lemma {:induction false} TextAppend(t: Tokenizer, a: seq<int>, b: seq<int>)
    requires Ids(t, a) && Ids(t, b)
    ensures Text(t, a + b) == Text(t, a) + Text(t, b)
  {
    if a == [] {
      assert a + b == b;
    } else {
      TextAppend(t, a[1..], b);
      assert (a + b)[1..] == a[1..] + b;
    }
  }

  // ---------- from text to first tokens ----------

  /** The offset of the '>' that ends a possible special token at the start of the text. */
  function SpecialEnd(text: CString, k: nat): (e: int)
    requires k > 0
    ensures e == -1 || (k <= e < |text| && e < 64)
    decreases |text| - k
  {
    if k >= |text| || k >= 64 then -1 else if text[k] == GT then k else SpecialEnd(text, k + 1)
  }

  /** The length of the special token at the start of the text, 0 if there is none. */
  function SpecialLength(t: Tokenizer, text: CString): (n: nat)
    ensures n <= |text|
  {
    if text == [] || text[0] != LT then 0
    else
      var e := SpecialEnd(text, 1);
      if e == -1 || LookupId(text[..e + 1], t.sorted) == -1 then 0 else e + 1
  }

  /** The tokens that the first loop of encode appends: a special token is looked up whole,
      otherwise the next byte is; a byte without a token is dropped. */
  function FirstTokens(t: Tokenizer, text: CString): (ts: seq<int>)
    ensures |ts| <= |text|
  {
    if text == [] then []
    else
      var n := SpecialLength(t, text);
      if n > 0 then [LookupId(text[..n], t.sorted)] + FirstTokens(t, text[n..])
      else
        var id := LookupId(text[..1], t.sorted);
        (if id == -1 then [] else [id]) + FirstTokens(t, text[1..])
  }

  /** How many bytes the first loop drops. */
  function DroppedBytes(t: Tokenizer, text: CString): nat {
    if text == [] then 0
    else
      var n := SpecialLength(t, text);
      if n > 0 then DroppedBytes(t, text[n..])
      else (if LookupId(text[..1], t.sorted) == -1 then 1 else 0) + DroppedBytes(t, text[1..])
  }

  /** The first tokens spell the text without the bytes that were dropped; so they spell the text
      itself if and only if none was. */
  lemma {:induction false} FirstTokensSpell(t: Tokenizer, text: CString)
    requires t.Valid()
    ensures Ids(t, FirstTokens(t, text))
    ensures |Text(t, FirstTokens(t, text))| == |text| - DroppedBytes(t, text)
    ensures DroppedBytes(t, text) == 0 <==> Text(t, FirstTokens(t, text)) == text
    decreases text
  {
    hide LookupId, SpecialLength, Tokenizer.Valid;
    if text != [] {
      var n := SpecialLength(t, text);
      var m := if n > 0 then n else 1;
      SpecialIsToken(t, text);
      FoundSpells(t, text[..m]);
      FirstTokensSpell(t, text[m..]);
      assert text == text[..m] + text[m..];
      var id, rest := LookupId(text[..m], t.sorted), FirstTokens(t, text[m..]);
      if id != -1 {
        TextCons(t, id, rest);
        assert FirstTokens(t, text) == [id] + rest;
      } else {
        assert [] + rest == rest;
        assert FirstTokens(t, text) == rest;
      }
    }
  }

  /** A special token found at the start of the text is in the vocabulary. */
  lemma SpecialIsToken(t: Tokenizer, text: CString)
    ensures var n := SpecialLength(t, text); n > 0 ==> LookupId(text[..n], t.sorted) != -1
  {
  }

  lemma FoundSpells(t: Tokenizer, word: CString)
    requires t.Valid()
    ensures var id := LookupId(word, t.sorted); id == -1 || (0 <= id < |t.vocab| && t.vocab[id] == word)
  {
    LookupFinds(t.vocab, t.sorted, word);
  }

  lemma TextCons(t: Tokenizer, id: int, rest: seq<int>)
    requires 0 <= id < |t.vocab| && Ids(t, rest)
    ensures Ids(t, [id] + rest) && Text(t, [id] + rest) == t.vocab[id] + Text(t, rest)
  {
    assert ([id] + rest)[1..] == rest;
  }

  /** With a token for every byte nothing is dropped. */
  lemma {:induction false} EveryByteKept(t: Tokenizer, text: CString)
    requires t.Valid() && forall b :: b in text ==> [b] in t.vocab
    ensures DroppedBytes(t, text) == 0
    decreases text
  {
    if text != [] {
      var n := SpecialLength(t, text);
      var m := if n > 0 then n else 1;
      EveryByteKept(t, text[m..]);
      LookupFinds(t.vocab, t.sorted, text[..1]);
      assert text[..1] == [text[0]];
    }
  }

  // ---------- which tokens come first ----------

  /** A string that the encoder looks up whole: it starts with '<' and ends with its first '>', and has at most
      64 bytes. */
  predicate IsTag(tag: CString) {
    2 <= |tag| <= 64 && tag[0] == 60 && tag[|tag| - 1] == 62 && forall i :: 0 < i < |tag| - 1 ==> tag[i] != 62
  }

  lemma {:induction false} EndFound(text: CString, k: nat, e: nat)
    requires 0 < k <= e < |text| && e < 64 && text[e] == 62 && forall i :: k <= i < e ==> text[i] != 62
    ensures SpecialEnd(text, k) == e
    decreases e - k
  {
    if k < e {
      EndFound(text, k + 1, e);
    }
  }

  lemma {:induction false} EndIs(text: CString, k: nat)
    requires k > 0
    ensures var e := SpecialEnd(text, k); e != -1 ==> text[e] == 62 && forall i :: k <= i < e ==> text[i] != 62
    decreases |text| - k
  {
    if k < |text| && k < 64 && text[k] != 62 {
      EndIs(text, k + 1);
    }
  }

  /** A tag of the vocabulary at the start of the text becomes one token, whatever its bytes would become. */
  lemma TagFirst(t: Tokenizer, text: CString, tag: CString, rest: CString)
    requires t.Valid() && text == tag + rest && IsTag(tag) && tag in t.vocab
    ensures FirstTokens(t, text) != []
    ensures var id := FirstTokens(t, text)[0];
      && 0 <= id < |t.vocab| && t.vocab[id] == tag && FirstTokens(t, text) == [id] + FirstTokens(t, rest)
  {
    hide LookupId, IndexOf, Sorted;
    var n := |tag|;
    assert forall i :: 0 <= i < n ==> text[i] == tag[i];
    EndFound(text, 1, n - 1);
    assert text[..n] == tag && text[n..] == rest;
    LookupFinds(t.vocab, t.sorted, tag);
  }

  /** With no tag of the vocabulary at the start, the first byte becomes its own token, or is dropped if it has
      none. */
  lemma ByteFirst(t: Tokenizer, text: CString)
    requires t.Valid() && text != []
    requires forall n :: 2 <= n <= |text| && IsTag(text[..n]) ==> text[..n] !in t.vocab
    ensures [text[0]] in t.vocab ==>
      && FirstTokens(t, text) != []
      && var id := FirstTokens(t, text)[0];
         0 <= id < |t.vocab| && t.vocab[id] == [text[0]] && FirstTokens(t, text) == [id] + FirstTokens(t, text[1..])
    ensures [text[0]] !in t.vocab ==> FirstTokens(t, text) == FirstTokens(t, text[1..])
  {
    hide LookupId, IndexOf, Sorted;
    EndIs(text, 1);
    var e := SpecialEnd(text, 1);
    if text[0] == 60 && e != -1 {
      assert IsTag(text[..e + 1]);
      LookupFinds(t.vocab, t.sorted, text[..e + 1]);
    }
    assert text[..1] == [text[0]];
    LookupFinds(t.vocab, t.sorted, text[..1]);
    var rest := FirstTokens(t, text[1..]);
    assert [] + rest == rest;
  }

  /** A vocabulary with a tag and each of its bytes. */
  function Tagged(): Tokenizer {
    var vocab: seq<CString> := [[60], [62], [97], [60, 97, 62]];
    Tokenizer(vocab, [0.0, 0.0, 0.0, 0.0],
              [TokenIndex(vocab[0], 0), TokenIndex(vocab[3], 3), TokenIndex(vocab[1], 1), TokenIndex(vocab[2], 2)])
  }

  lemma TaggedValid()
    ensures Tagged().Valid()
  {
    var t := Tagged();
    var i := IndexOf(t.vocab);
    assert i == [i[0], i[1], i[2], i[3]];
    assert t.sorted == [i[0], i[3], i[1], i[2]];
    assert Strcmp([60], [60, 97, 62]) < 0 && Strcmp([60, 97, 62], [62]) < 0;
  }

  /** There the text "<a>" is the tag, not its bytes. */
  lemma TagWins()
    ensures FirstTokens(Tagged(), [60, 97, 62]) == [3]
  {
    hide Tokenizer.Valid, FirstTokens, Tagged, IsTag;
    TaggedValid();
    TaggedEntries();
    TagFirst(Tagged(), [60, 97, 62], [60, 97, 62], []);
    NoMoreTokens(Tagged(), [], 0);
  }

  lemma TaggedEntries()
    ensures var t, tag: CString := Tagged(), [60, 97, 62];
      IsTag(tag) && tag + [] == tag && |t.vocab| == 4 && t.vocab[3] == tag
      && forall i :: 0 <= i < 3 ==> |t.vocab[i]| == 1
  {
  }

  // ---------- merging ----------

  /** The token that the pair at i would become, -1 if there is none. */
  function PairId(t: Tokenizer, ts: seq<int>, i: nat): int
    requires Ids(t, ts) && i + 1 < |ts|
  {
    LookupId(t.vocab[ts[i]] + t.vocab[ts[i + 1]], t.sorted)
  }

  lemma PairIdValid(t: Tokenizer, ts: seq<int>, i: nat)
    requires t.Valid() && Ids(t, ts) && i + 1 < |ts|
    ensures PairId(t, ts, i) == -1 ||
      (0 <= PairId(t, ts, i) < |t.vocab|
       && t.vocab[PairId(t, ts, i)] == t.vocab[ts[i]] + t.vocab[ts[i + 1]])
  {
    FoundSpells(t, t.vocab[ts[i]] + t.vocab[ts[i + 1]]);
  }

  /** The score of the pair at i; pairs without a token have none. */
  function Score(t: Tokenizer, ts: seq<int>, i: nat): real
    requires Ids(t, ts) && i + 1 < |ts|
  {
    var id := PairId(t, ts, i);
    if 0 <= id < |t.scores| then t.scores[id] else NO_SCORE
  }

  predicate Mergeable(t: Tokenizer, ts: seq<int>, i: nat)
    requires Ids(t, ts) && i + 1 < |ts|
  {
    Score(t, ts, i) > NO_SCORE
  }

  /** The pair that one round of encode settles on, looking at the first k pairs; -1 for none. */
  function Best(t: Tokenizer, ts: seq<int>, k: nat): (b: int)
    requires Ids(t, ts) && (k == 0 || k < |ts|)
    ensures -1 <= b < k
  {
    if k == 0 then -1
    else
      var b := Best(t, ts, k - 1);
      if Score(t, ts, k - 1) > (if b == -1 then NO_SCORE else Score(t, ts, b)) then k - 1 else b
  }

  /** One round takes the leftmost of the best-scoring mergeable pairs, and none only if there is
      no mergeable pair. */
  lemma {:induction false} BestIsBest(t: Tokenizer, ts: seq<int>, k: nat)
    requires Ids(t, ts) && (k == 0 || k < |ts|)
    ensures var b := Best(t, ts, k);
      if b == -1 then forall j :: 0 <= j < k ==> !Mergeable(t, ts, j)
      else
        && Mergeable(t, ts, b)
        && (forall j :: 0 <= j < k ==> Score(t, ts, j) <= Score(t, ts, b))
        && (forall j :: 0 <= j < b ==> Score(t, ts, j) < Score(t, ts, b))
  {
    hide Score;
    if k > 0 {
      BestIsBest(t, ts, k - 1);
      var b := Best(t, ts, k - 1);
      if b == -1 {
        forall j | 0 <= j < k - 1
          ensures Score(t, ts, j) <= NO_SCORE
        {
          assert !Mergeable(t, ts, j);
        }
      }
    }
  }

  function MergeAt(ts: seq<int>, i: nat, id: int): (r: seq<int>)
    requires i + 1 < |ts|
    ensures |r| == |ts| - 1
  {
    ts[..i] + [id] + ts[i + 2..]
  }

  function LastPair(ts: seq<int>): nat { if ts == [] then 0 else |ts| - 1 }

  lemma MergeKeepsText(t: Tokenizer, ts: seq<int>, i: nat)
    requires t.Valid() && Ids(t, ts) && i + 1 < |ts| && Mergeable(t, ts, i)
    ensures var r := MergeAt(ts, i, PairId(t, ts, i));
      Ids(t, r) && Text(t, r) == Text(t, ts)
  {
    hide PairId, Text, IndexOf, Sorted;
    PairIdValid(t, ts, i);
    var id := PairId(t, ts, i);
    var a, b := ts[..i], ts[i + 2..];
    var pair := [ts[i], ts[i + 1]];
    assert ts == a + (pair + b) && MergeAt(ts, i, id) == a + ([id] + b);
    TextAppend(t, a, pair + b);
    TextAppend(t, pair, b);
    TextPair(t, ts[i], ts[i + 1]);
    TextAppend(t, a, [id] + b);
    TextAppend(t, [id], b);
  }

  lemma TextPair(t: Tokenizer, x: int, y: int)
    requires 0 <= x < |t.vocab| && 0 <= y < |t.vocab|
    ensures Text(t, [x, y]) == t.vocab[x] + t.vocab[y]
    ensures forall z :: 0 <= z < |t.vocab| ==> Text(t, [z]) == t.vocab[z]
  {
    forall z | 0 <= z < |t.vocab|
      ensures Text(t, [z]) == t.vocab[z]
    {
      assert [z][1..] == [];
    }
    assert [x, y][1..] == [y];
  }

  /** The rounds of encode, until no pair is left to merge. */
  function Merged(t: Tokenizer, ts: seq<int>): seq<int>
    requires Ids(t, ts) && |t.scores| == |t.vocab|
    decreases |ts|
  {
    var b := Best(t, ts, LastPair(ts));
    if b == -1 then ts
    else
      assert Score(t, ts, b) > NO_SCORE by { BestIsBest(t, ts, LastPair(ts)); }
      Merged(t, MergeAt(ts, b, PairId(t, ts, b)))
  }

  /** Merging keeps the text, never adds tokens, and stops only when nothing can be merged. */
  lemma {:induction false} MergedIs(t: Tokenizer, ts: seq<int>)
    requires t.Valid() && Ids(t, ts)
    ensures var r := Merged(t, ts);
      && Ids(t, r) && Text(t, r) == Text(t, ts) && |r| <= |ts|
      && forall i :: 0 <= i < |r| - 1 ==> !Mergeable(t, r, i)
    decreases |ts|
  {
    BestIsBest(t, ts, LastPair(ts));
    var b := Best(t, ts, LastPair(ts));
    if b != -1 {
      MergeKeepsText(t, ts, b);
      MergedIs(t, MergeAt(ts, b, PairId(t, ts, b)));
    }
  }

  /** Token `id` spells what the pair at i spells. */
  predicate Spells(t: Tokenizer, ts: seq<int>, i: nat, id: nat)
    requires Ids(t, ts) && i + 1 < |ts|
  {
    id < |t.vocab| && t.vocab[id] == t.vocab[ts[i]] + t.vocab[ts[i + 1]]
  }

  ghost predicate NoDoubles(t: Tokenizer) {
    forall a, b :: 0 <= a < b < |t.vocab| ==> t.vocab[a] != t.vocab[b]
  }

  lemma ScoreOf(t: Tokenizer, ts: seq<int>, i: nat)
    requires t.Valid() && NoDoubles(t) && Ids(t, ts) && i + 1 < |ts|
    ensures forall id: nat :: Spells(t, ts, i, id) ==>
      id < |t.scores| && PairId(t, ts, i) == id && Score(t, ts, i) == t.scores[id]
    ensures (forall id: nat :: !Spells(t, ts, i, id)) ==> Score(t, ts, i) == -10000000000.0
  {
    hide LookupId, IndexOf, Sorted;
    LookupFinds(t.vocab, t.sorted, t.vocab[ts[i]] + t.vocab[ts[i + 1]]);
    var id := PairId(t, ts, i);
    if id != -1 {
      assert Spells(t, ts, i, id);
    }
  }

  /** One round, said of the vocabulary alone: of all neighbours whose joined text has a token, the leftmost with
      the highest score becomes that token. */
  lemma MergesBest(t: Tokenizer, ts: seq<int>, i: nat, id: nat)
    requires t.Valid() && NoDoubles(t) && Ids(t, ts) && i + 1 < |ts|
    requires Spells(t, ts, i, id) && t.scores[id] > -10000000000.0
    requires forall j: nat, e: nat :: j + 1 < |ts| && Spells(t, ts, j, e) ==>
      t.scores[e] <= t.scores[id] && (j < i ==> t.scores[e] < t.scores[id])
    ensures Ids(t, ts[..i] + [id] + ts[i + 2..])
    ensures Merged(t, ts) == Merged(t, ts[..i] + [id] + ts[i + 2..])
  {
    hide PairId, Score, Spells, Tokenizer.Valid, Best;
    ScoresAre(t);
    ScoreOf(t, ts, i);
    var n := LastPair(ts);
    var b := Best(t, ts, n);
    BestIsBest(t, ts, n);
    forall j | 0 <= j < n
      ensures Score(t, ts, j) <= Score(t, ts, i) && (j < i ==> Score(t, ts, j) < Score(t, ts, i))
    {
      ScoreOf(t, ts, j);
      if e: nat :| Spells(t, ts, j, e) {
        assert Score(t, ts, j) == t.scores[e];
      }
    }
    assert b == i by {
      assert b != -1 by { assert Mergeable(t, ts, i); }
    }
    MergeKeepsText(t, ts, i);
  }

  lemma ScoresAre(t: Tokenizer)
    requires t.Valid()
    ensures |t.scores| == |t.vocab|
  {
  }

  /** Merging ends where no neighbours have a token, or only tokens without a score. */
  lemma MergesNothing(t: Tokenizer, ts: seq<int>)
    requires t.Valid() && NoDoubles(t) && Ids(t, ts)
    requires forall j: nat, e: nat :: j + 1 < |ts| && Spells(t, ts, j, e) ==> t.scores[e] <= -10000000000.0
    ensures |t.scores| == |t.vocab| && Merged(t, ts) == ts
  {
    hide PairId, Score, Spells, Tokenizer.Valid, Best;
    ScoresAre(t);
    var n := LastPair(ts);
    BestIsBest(t, ts, n);
    forall j | 0 <= j < n
      ensures !Mergeable(t, ts, j)
    {
      ScoreOf(t, ts, j);
      if e: nat :| Spells(t, ts, j, e) {
        assert Score(t, ts, j) == t.scores[e];
      }
    }
  }

  /** The whole of encode as a function. */
  function Encoded(t: Tokenizer, text: CString): seq<int>
    requires t.Valid()
  {
    FirstTokensSpell(t, text);
    Merged(t, FirstTokens(t, text))
  }

  /** Encoding keeps meaning: with a token for every byte of the text, the tokens spell the text,
      there are no more of them than bytes, and no adjacent pair could still be merged. */
  lemma EncodeKeepsMeaning(t: Tokenizer, text: CString)
    requires t.Valid() && forall b :: b in text ==> [b] in t.vocab
    ensures var r := Encoded(t, text);
      && Ids(t, r) && Text(t, r) == text && |r| <= |text|
      && forall i :: 0 <= i < |r| - 1 ==> !Mergeable(t, r, i)
  {
    EveryByteKept(t, text);
    FirstTokensSpell(t, text);
    MergedIs(t, FirstTokens(t, text));
  }

  // ---------- the scratch buffer ----------

  /** The size of the buffer in which strings are put together for the lookup. */
  function ScratchSize(longest: nat): nat { 2 * longest + 3 }

  /** No entry is longer than the header of the vocabulary says. */
  predicate Bounded(t: Tokenizer, longest: nat) { forall i | 0 <= i < |t.vocab| :: |t.vocab[i]| <= longest }

  /** Every possible special token of the text fits the buffer with its terminator. */
  ghost predicate TagsFit(text: CString, size: nat) {
    forall c | 0 <= c < |text| && text[c] == LT :: SpecialEnd(text[c..], 1) + 2 <= size
  }

  /** A '<', 62 letters and a '>'. */
  function LongTag(): (s: CString)
    ensures |s| == 64 && s[0] == LT && s[63] == GT && forall i | 1 <= i < 63 :: s[i] == 97
  {
    [LT] + Letters(62) + [GT]
  }

  function Letters(n: nat): (s: CString)
    ensures |s| == n && forall i | 0 <= i < n :: s[i] == 97
  {
    if n == 0 then [] else [97] + Letters(n - 1)
  }

  lemma {:induction false} LongTagEnds(k: nat)
    requires 0 < k <= 63
    ensures SpecialEnd(LongTag(), k) == 63
    decreases 63 - k
  {
    if k < 63 {
      LongTagEnds(k + 1);
    }
  }

  /** The buffer is large enough for the special tokens of every text if and only if the longest entry has at
      least 31 bytes; the text that shows the rest is a '<', 62 letters and a '>'. */
  lemma TagsFitExactly(longest: nat)
    ensures longest >= 31 <==> forall text :: TagsFit(text, ScratchSize(longest))
    ensures longest >= 31 <==> TagsFit(LongTag(), ScratchSize(longest))
  {
    LongTagEnds(1);
    assert LongTag()[0..] == LongTag();
    if longest < 31 {
      assert !TagsFit(LongTag(), ScratchSize(longest));
    }
  }

  // ---------- the code ----------

  /** The scan for the '>' of a special token that starts at position c of the text. */
  method FindEnd(text: CString, c: nat) returns (end: int)
    requires c < |text|
    ensures end == SpecialEnd(text[c..], 1)
  {
    end := -1;
    var k := 1;
    while c + k < |text| && k < 64
      invariant 1 <= k <= 64 && c + k <= |text| && end == -1
      invariant SpecialEnd(text[c..], 1) == SpecialEnd(text[c..], k)
    {
      if text[c + k] == GT {
        end := k;
        break;
      }
      k := k + 1;
    }
  }

  /** One round of the first loop of encode: the token found at position c, -1 for none, and the
      position after what it covers. */
  method NextToken(t: Tokenizer, text: CString, c: nat, buf: array<char>) returns (id: int, c': nat)
    requires c < |text| && buf.Length >= 3 && TagsFit(text, buf.Length)
    modifies buf
    ensures var n := SpecialLength(t, text[c..]);
      var m := if n > 0 then n else 1;
      && c' == c + m && id == LookupId(text[c..][..m], t.sorted)
  {
    hide LookupId;
    ghost var rest := text[c..];
    c' := c + 1;
    id := -1;
    if text[c] == LT {
      var end := FindEnd(text, c);
      if end != -1 {
        assert text[c..c + end + 1] == rest[..end + 1];
        Put(buf, text[c..c + end + 1]);
        id := LookupIn(buf, text[c..c + end + 1], t.sorted);
        if id != -1 {
          c' := c + end + 1;
        }
      }
    }
    if id == -1 {
      assert text[c..c + 1] == rest[..1];
      Put(buf, text[c..c + 1]);
      id := LookupIn(buf, text[c..c + 1], t.sorted);
    }
  }

  lemma FirstTokensStep(t: Tokenizer, text: CString)
    requires text != []
    ensures var n := SpecialLength(t, text);
      var m := if n > 0 then n else 1;
      var id := LookupId(text[..m], t.sorted);
      FirstTokens(t, text) == (if id == -1 then [] else [id]) + FirstTokens(t, text[m..])
  {
  }

  /** encode, with the caller's buffer for the tokens and a scratch buffer of its own; without memory for
      that there are no tokens. */
  method Encode(t: Tokenizer, longest: nat, text: CString, tokens: array<int>, granted: bool) returns (n: nat)
    requires t.Valid() && tokens.Length >= |text|
    requires Bounded(t, longest) && TagsFit(text, ScratchSize(longest))
    modifies tokens
    ensures n <= |text| && (!granted ==> n == 0)
    ensures granted ==> tokens[..n] == Encoded(t, text)
    ensures granted ==>
      |t.scores| == |t.vocab| && Ids(t, FirstTokens(t, text)) && tokens[..n] == Merged(t, FirstTokens(t, text))
  {
    hide FirstTokens, SpecialLength, LookupId, Merged, Ids, Text, Bounded, TagsFit;
    n := 0;
    if !granted {
      return;
    }
    var buf := new char[ScratchSize(longest)];
    FirstTokensSpell(t, text);
    var c := 0;
    assert text[0..] == text;
    while c < |text|
      invariant c <= |text| && n <= c
      invariant FirstTokens(t, text) == tokens[..n] + FirstTokens(t, text[c..])
      decreases |text| - c
    {
      ghost var rest := text[c..];
      FirstTokensStep(t, rest);
      var id, next := NextToken(t, text, c, buf);
      assert text[next..] == rest[next - c..];
      n := Append(tokens, n, id);
      c := next;
    }
    NoMoreTokens(t, text, c);
    assert FirstTokens(t, text) == tokens[..n];
    n := MergeAll(t, longest, tokens, n, buf);
  }

  /** `if (id != -1) tokens[n++] = id` */
  method Append(tokens: array<int>, n: nat, id: int) returns (m: nat)
    requires n < tokens.Length
    modifies tokens
    ensures n <= m <= n + 1 && tokens[..m] == old(tokens[..n]) + if id == -1 then [] else [id]
  {
    m := n;
    if id != -1 {
      tokens[n] := id;
      m := n + 1;
    }
  }

  lemma NoMoreTokens(t: Tokenizer, text: CString, c: nat)
    requires c == |text|
    ensures FirstTokens(t, text[c..]) == []
  {
  }

  /** The merge loop of encode, on the first n entries of the buffer. */
  method MergeAll(t: Tokenizer, longest: nat, tokens: array<int>, n: nat, buf: array<char>) returns (m: nat)
    requires t.Valid() && n <= tokens.Length && Ids(t, tokens[..n])
    requires Bounded(t, longest) && buf.Length == ScratchSize(longest)
    modifies tokens, buf
    ensures m <= n && tokens[..m] == Merged(t, old(tokens[..n]))
  {
    hide Best, PairId, MergeAt, Mergeable, Bounded;
    m := n;
    while true
      invariant m <= n && Ids(t, tokens[..m])
      invariant Merged(t, old(tokens[..n])) == Merged(t, tokens[..m])
      decreases m
    {
      ghost var ts := tokens[..m];
      var best, id := FindBest(t, longest, tokens, m, buf);
      if best == -1 {
        break;
      }
      BestIsBest(t, ts, LastPair(ts));
      MergeKeepsText(t, ts, best);
      tokens[best] := id;
      CloseGap(tokens, best + 1, m);
      m := m - 1;
      MergeIs(ts, best, id, tokens[..m]);
    }
  }

  lemma MergeIs(ts: seq<int>, i: nat, id: int, r: seq<int>)
    requires i + 1 < |ts| && r == ts[i := id][..i + 1] + ts[i := id][i + 2..]
    ensures r == MergeAt(ts, i, id)
  {
  }

  lemma ScoreIs(t: Tokenizer, ts: seq<int>, i: nat)
    requires t.Valid() && Ids(t, ts) && i + 1 < |ts|
    ensures var id := PairId(t, ts, i);
      && -1 <= id < |t.scores| && Score(t, ts, i) == if id == -1 then NO_SCORE else t.scores[id]
  {
    hide LookupId, Sorted, IndexOf;
    PairIdValid(t, ts, i);
  }

  lemma ScanStarts(t: Tokenizer, ts: seq<int>)
    requires Ids(t, ts)
    ensures Best(t, ts, 0) == -1
  {
  }

  /** What one more pair does to the scan. */
  lemma ScanStep(t: Tokenizer, ts: seq<int>, k: nat)
    requires Ids(t, ts) && k + 1 < |ts|
    ensures var b := Best(t, ts, k);
      Best(t, ts, k + 1) == if Score(t, ts, k) > (if b == -1 then NO_SCORE else Score(t, ts, b)) then k else b
  {
    hide Score;
  }

  /** One scan over all pairs. */
  method FindBest(t: Tokenizer, longest: nat, tokens: array<int>, m: nat, buf: array<char>)
    returns (best: int, id: int)
    requires t.Valid() && m <= tokens.Length && Ids(t, tokens[..m])
    requires Bounded(t, longest) && buf.Length == ScratchSize(longest)
    modifies buf
    ensures best == Best(t, tokens[..m], LastPair(tokens[..m]))
    ensures best != -1 ==> id == PairId(t, tokens[..m], best)
  {
    hide Best, Score, LookupId, Tokenizer.Valid;
    ghost var ts := tokens[..m];
    best, id := -1, -1;
    var bestScore := NO_SCORE;
    var i := 0;
    ScanStarts(t, ts);
    while i + 1 < m
      invariant i <= LastPair(ts) && best == Best(t, ts, i)
      invariant bestScore == if best == -1 then NO_SCORE else Score(t, ts, best)
      invariant best != -1 ==> id == PairId(t, ts, best)
    {
      assert tokens[i] == ts[i] && tokens[i + 1] == ts[i + 1];
      BestIsBest(t, ts, i);
      PutTwo(buf, t.vocab[tokens[i]], t.vocab[tokens[i + 1]]);
      var pair := LookupIn(buf, t.vocab[ts[i]] + t.vocab[ts[i + 1]], t.sorted);
      ScoreIs(t, ts, i);
      ScanStep(t, ts, i);
      if pair != -1 && t.scores[pair] > bestScore {
        bestScore := t.scores[pair];
        id := pair;
        best := i;
      }
      i := i + 1;
    }
  }

  /** Moves the entries behind position `from` one place down. */
  method CloseGap(tokens: array<int>, from: nat, m: nat)
    requires from < m <= tokens.Length
    modifies tokens
    ensures tokens[..m - 1] == old(tokens[..m])[..from] + old(tokens[..m])[from + 1..]
  {
    for i := from to m - 1
      invariant forall j :: 0 <= j < m ==>
        tokens[j] == if from <= j < i then old(tokens[j + 1]) else old(tokens[j])
    {
      tokens[i] := tokens[i + 1];
    }
  }
}
