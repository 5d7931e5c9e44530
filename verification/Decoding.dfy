/** decode of kernel/src/llm.c, and when the printed tokens of an encoded text are the text again. */
module Decoding {
  import opened Vocabulary
  import opened Bpe
  import opened SentencePiece

  // ---------- decode ----------

  /** A hexadecimal digit as decode reads it, from a signed char. */
  function Digit(c: Char): int {
    var signed := if c < 128 then c else c - 256;
    if signed >= 65 then signed - 55 else signed - 48
  }

  /** The shape "<0x..>" by which decode knows a byte token. */
  predicate LooksByte(piece: CString) {
    |piece| >= 6 && piece[0] == LT && piece[1] == 48 && piece[2] == 120 && piece[5] == GT
  }

  /** The entry of the table of one-byte strings; the one for NUL is empty. */
  function BytePiece(value: int): CString { if 0 < value < 256 then [value] else [] }

  function Shown(piece: CString): CString {
    if LooksByte(piece) then BytePiece(Digit(piece[3]) * 16 + Digit(piece[4])) else piece
  }

  /** Any piece that starts with "<0x", two upper-case hexadecimal digits and ">" shows as the one byte they name,
      whatever follows; no byte for zero. */
  lemma HexShows(a: nat, b: nat, rest: CString)
    requires a < 16 && b < 16
    ensures Shown([60, 48, 120, HexDigit(a), HexDigit(b), 62] + rest) == if a + b == 0 then [] else [16 * a + b]
  {
  }

  /** Any other piece shows as it is. */
  lemma PlainShows(piece: CString)
    requires |piece| < 6 || piece[0] != 60 || piece[1] != 48 || piece[2] != 120 || piece[5] != 62
    ensures Shown(piece) == piece
  {
  }

  /** decode: after BOS a leading space is dropped. */
  function Decode(t: Tokenizer, prev: int, token: int): CString
    requires 0 <= token < |t.vocab|
  {
    var piece := t.vocab[token];
    Shown(if prev == BOS && piece != [] && piece[0] == SPACE then piece[1..] else piece)
  }

  function DecodeAll(t: Tokenizer, prev: int, ts: seq<int>): CString
    requires Ids(t, ts)
    decreases |ts|
  {
    if ts == [] then [] else Decode(t, prev, ts[0]) + DecodeAll(t, ts[0], ts[1..])
  }

  /** What the tokens show when none follows BOS. */
  function ShownAll(t: Tokenizer, ts: seq<int>): CString
    requires Ids(t, ts)
  {
    if ts == [] then [] else Shown(t.vocab[ts[0]]) + ShownAll(t, ts[1..])
  }

  lemma {:induction false} ShownAppend(t: Tokenizer, a: seq<int>, b: seq<int>)
    requires Ids(t, a) && Ids(t, b)
    ensures ShownAll(t, a + b) == ShownAll(t, a) + ShownAll(t, b)
  {
    hide Shown;
    if a == [] {
      assert a + b == b;
    } else {
      ShownAppend(t, a[1..], b);
      assert (a + b)[1..] == a[1..] + b;
    }
  }

  lemma ShownOne(t: Tokenizer, id: int)
    requires 0 <= id < |t.vocab|
    ensures Ids(t, [id]) && ShownAll(t, [id]) == Shown(t.vocab[id])
  {
    hide Shown;
    assert [id][1..] == [];
  }

  lemma {:induction false} NoMarkNoStrip(t: Tokenizer, prev: int, ts: seq<int>)
    requires Ids(t, ts) && prev != BOS && BOS !in ts
    ensures DecodeAll(t, prev, ts) == ShownAll(t, ts)
    decreases |ts|
  {
    hide Shown;
    if ts != [] {
      NoMarkNoStrip(t, ts[0], ts[1..]);
    }
  }

  // ---------- what merging does to the printed text ----------

  /** No merge of two tokens changes what they show. */
  ghost predicate MergesShow(t: Tokenizer) {
    forall a, b ::
      0 <= a < |t.vocab| && 0 <= b < |t.vocab| && Mergeable(t, [a, b], 0) ==> PairShows(t, a, b)
  }

  predicate PairShows(t: Tokenizer, a: int, b: int)
    requires 0 <= a < |t.vocab| && 0 <= b < |t.vocab|
  {
    Shown(t.vocab[a] + t.vocab[b]) == Shown(t.vocab[a]) + Shown(t.vocab[b])
  }

  lemma OnePair(t: Tokenizer, ts: seq<int>, i: nat)
    requires Ids(t, ts) && i + 1 < |ts|
    ensures PairId(t, ts, i) == PairId(t, [ts[i], ts[i + 1]], 0)
    ensures Mergeable(t, ts, i) <==> Mergeable(t, [ts[i], ts[i + 1]], 0)
  {
    hide LookupId;
  }

  lemma ShownBetween(t: Tokenizer, a: seq<int>, m: seq<int>, b: seq<int>)
    requires Ids(t, a) && Ids(t, m) && Ids(t, b)
    ensures Ids(t, a + m + b) && ShownAll(t, a + m + b) == ShownAll(t, a) + ShownAll(t, m) + ShownAll(t, b)
  {
    hide ShownAll;
    ShownAppend(t, a, m);
    ShownAppend(t, a + m, b);
  }

  lemma PairShown(t: Tokenizer, a: int, b: int)
    requires 0 <= a < |t.vocab| && 0 <= b < |t.vocab|
    ensures ShownAll(t, [a, b]) == Shown(t.vocab[a]) + Shown(t.vocab[b])
  {
    hide Shown;
    ShownOne(t, a);
    ShownOne(t, b);
    assert [a, b] == [a] + [b];
    ShownAppend(t, [a], [b]);
  }

  lemma StepShows(t: Tokenizer, ts: seq<int>, i: nat)
    requires t.Valid() && MergesShow(t) && Ids(t, ts) && i + 1 < |ts| && Mergeable(t, ts, i)
    ensures var r := MergeAt(ts, i, PairId(t, ts, i)); Ids(t, r) && ShownAll(t, r) == ShownAll(t, ts)
  {
    hide Mergeable, PairId, Shown, ShownAll, Tokenizer.Valid;
    OnePair(t, ts, i);
    MergeableId(t, ts, i);
    var pair, id := [ts[i], ts[i + 1]], PairId(t, ts, i);
    assert PairShows(t, ts[i], ts[i + 1]);
    PairShown(t, ts[i], ts[i + 1]);
    ShownOne(t, id);
    assert ts == ts[..i] + pair + ts[i + 2..];
    ShownBetween(t, ts[..i], pair, ts[i + 2..]);
    ShownBetween(t, ts[..i], [id], ts[i + 2..]);
  }

  lemma MergeableId(t: Tokenizer, ts: seq<int>, i: nat)
    requires t.Valid() && Ids(t, ts) && i + 1 < |ts| && Mergeable(t, ts, i)
    ensures var id := PairId(t, ts, i); 0 <= id < |t.vocab| && t.vocab[id] == t.vocab[ts[i]] + t.vocab[ts[i + 1]]
  {
    hide LookupId, Sorted, IndexOf;
    PairIdValid(t, ts, i);
  }

  /** All rounds of merging show the same, if each pair does. */
  lemma {:induction false} MergedShows(t: Tokenizer, ts: seq<int>)
    requires t.Valid() && MergesShow(t) && Ids(t, ts)
    ensures var r := Merged(t, ts); Ids(t, r) && ShownAll(t, r) == ShownAll(t, ts)
    decreases |ts|
  {
    hide Score, ShownAll, MergesShow;
    BestIsBest(t, ts, LastPair(ts));
    var b := Best(t, ts, LastPair(ts));
    if b != -1 {
      StepShows(t, ts, b);
      MergedShows(t, MergeAt(ts, b, PairId(t, ts, b)));
    }
  }

  /** Two tokens that can merge become one. */
  lemma PairMerges(t: Tokenizer, a: int, b: int)
    requires t.Valid() && Ids(t, [a, b]) && Mergeable(t, [a, b], 0)
    ensures Merged(t, [a, b]) == [PairId(t, [a, b], 0)]
  {
    hide LookupId;
    var id := PairId(t, [a, b], 0);
    MergeableId(t, [a, b], 0);
    assert Best(t, [a, b], 0) == -1;
    assert Best(t, [a, b], 1) == 0;
    assert MergeAt([a, b], 0, id) == [id];
    assert Best(t, [id], 0) == -1;
  }

  /** The condition is exact: merging keeps what every token list shows if and only if no pair of
      vocabulary entries that can merge shows something else. */
  lemma MergingShows(t: Tokenizer)
    requires t.Valid()
    ensures MergesShow(t) <==> forall ts | Ids(t, ts) :: MergedIsShown(t, ts)
  {
    hide Mergeable, PairId, Shown, ShownAll, Tokenizer.Valid, Merged;
    ScoresMatch(t);
    if MergesShow(t) {
      forall ts | Ids(t, ts) ensures MergedIsShown(t, ts) {
        MergedShows(t, ts);
      }
    }
    if forall ts | Ids(t, ts) :: MergedIsShown(t, ts) {
      forall a, b | 0 <= a < |t.vocab| && 0 <= b < |t.vocab| && Mergeable(t, [a, b], 0)
        ensures PairShows(t, a, b)
      {
        PairMerges(t, a, b);
        MergeableId(t, [a, b], 0);
        assert MergedIsShown(t, [a, b]);
        PairShown(t, a, b);
        ShownOne(t, PairId(t, [a, b], 0));
      }
    }
  }

  ghost predicate MergedIsShown(t: Tokenizer, ts: seq<int>)
    requires Ids(t, ts) && |t.scores| == |t.vocab|
  {
    var r := Merged(t, ts);
    Ids(t, r) && ShownAll(t, r) == ShownAll(t, ts)
  }

  // ---------- the first tokens show the text ----------

  function HexDigit(v: nat): (c: Char)
    requires v < 16
    ensures v < 10 ==> c == 48 + v
    ensures v >= 10 ==> c == 65 + (v - 10)
  {
    if v < 10 then 48 + v else 55 + v
  }

  /** "<0x0A>" and the like. */
  function ByteName(b: nat): (name: CString)
    requires b < 256
    ensures |name| == 6 && name[0] == LT
  {
    [LT, 48, 120, HexDigit(b / 16), HexDigit(b % 16), GT]
  }

  /** The 256 byte tokens with their names. */
  ghost predicate ByteNames(t: Tokenizer) {
    |t.vocab| >= 259 && forall b: nat | b < 256 :: t.vocab[b + FIRST_BYTE] == ByteName(b)
  }

  lemma NameShows(b: Char)
    ensures Shown(ByteName(b)) == [b]
  {
  }

  lemma NamesLayout(t: Tokenizer)
    requires ByteNames(t)
    ensures ByteLayout(t)
  {
    forall i | 3 <= i < 259 ensures |t.vocab[i]| == 6 {
      assert t.vocab[(i - 3) + FIRST_BYTE] == ByteName(i - 3);
    }
  }

  lemma {:induction false} BytesShow(t: Tokenizer, piece: CString)
    requires ByteNames(t)
    ensures Ids(t, ByteTokens(piece)) && ShownAll(t, ByteTokens(piece)) == piece
    ensures NoMarks(ByteTokens(piece))
  {
    hide Shown, ByteName;
    if piece != [] {
      BytesShow(t, piece[1..]);
      var id := piece[0] as int + FIRST_BYTE;
      assert t.vocab[id] == ByteName(piece[0]);
      NameShows(piece[0]);
      assert ByteTokens(piece) == [id] + ByteTokens(piece[1..]);
      ShownOne(t, id);
      ShownAppend(t, [id], ByteTokens(piece[1..]));
      assert piece == [piece[0]] + piece[1..];
    }
  }

  /** What the first loop of encode can take at once: a byte and up to three continuation bytes. */
  predicate IsPiece(c: CString) { 0 < |c| <= 4 && forall i | 1 <= i < |c| :: Continues(c[i]) }

  lemma {:induction false} PieceContinues(text: CString, k: nat)
    requires 0 < k <= |text| && k <= 4
    ensures forall i | k <= i < PieceLength(text, k) :: Continues(text[i])
    decreases 4 - k
  {
    hide Continues;
    if PieceLength(text, k) > k {
      PieceContinues(text, k + 1);
    }
  }

  /** The names of the marker tokens are no pieces, as "<s>" is none. */
  predicate MarksNoPieces(t: Tokenizer) { |t.vocab| > 2 && !IsPiece(t.vocab[BOS]) && !IsPiece(t.vocab[EOS]) }

  predicate NoMarks(ts: seq<int>) { forall i | 0 <= i < |ts| :: ts[i] != BOS && ts[i] != EOS }

  lemma PieceShows(t: Tokenizer, piece: CString)
    requires t.Valid() && ByteNames(t) && 0 < |piece| <= 4
    ensures Ids(t, PieceTokens(t, piece)) && ShownAll(t, PieceTokens(t, piece)) == piece
    ensures MarksNoPieces(t) && IsPiece(piece) ==> NoMarks(PieceTokens(t, piece))
  {
    hide LookupId, Tokenizer.Valid, ByteNames, ByteTokens, IsPiece;
    FoundSpells(t, piece);
    BytesShow(t, piece);
    var id := LookupId(piece, t.sorted);
    if id != -1 {
      ShownOne(t, id);
    }
  }

  /** Before any merging the tokens show the text, whether or not its characters have tokens. */
  lemma {:induction false} PiecesShow(t: Tokenizer, text: CString)
    requires t.Valid() && ByteNames(t)
    ensures Ids(t, Pieces(t, text)) && ShownAll(t, Pieces(t, text)) == text
    ensures MarksNoPieces(t) ==> NoMarks(Pieces(t, text))
    decreases |text|
  {
    hide Tokenizer.Valid, ByteNames, MarksNoPieces, PieceTokens, PieceLength, Shown;
    if text != [] {
      var n := PieceLength(text, 1);
      var head, rest := PieceTokens(t, text[..n]), Pieces(t, text[n..]);
      PieceContinues(text, 1);
      assert IsPiece(text[..n]);
      PieceShows(t, text[..n]);
      PiecesShow(t, text[n..]);
      IdsAppend(t, head, rest);
      ShownAppend(t, head, rest);
      assert text == text[..n] + text[n..];
    }
  }

  // ---------- the marker in front ----------

  /** BOS merges with nothing, and nothing merges into BOS or EOS. */
  ghost predicate MarksApart(t: Tokenizer) {
    forall a, b ::
      0 <= a < |t.vocab| && 0 <= b < |t.vocab| && Mergeable(t, [a, b], 0) ==> PairUnmarked(t, a, b)
  }

  predicate PairUnmarked(t: Tokenizer, a: int, b: int)
    requires 0 <= a < |t.vocab| && 0 <= b < |t.vocab|
  {
    a != BOS && PairId(t, [a, b], 0) != BOS && PairId(t, [a, b], 0) != EOS
  }

  /** A space in front does not hide a byte token. */
  ghost predicate NoSpacedByte(t: Tokenizer) {
    forall i | 0 <= i < |t.vocab| && Spaced(t.vocab[i]) :: !LooksByte(t.vocab[i][1..])
  }

  predicate Spaced(piece: CString) { piece != [] && piece[0] == SPACE }

  /** BOS, a token that starts with a space, and no further marker. */
  ghost predicate Opened(t: Tokenizer, ts: seq<int>)
    requires Ids(t, ts)
  {
    && ts != [] && ts[0] == BOS && (|ts| > 1 ==> Spaced(t.vocab[ts[1]]))
    && forall i | 1 <= i < |ts| :: ts[i] != BOS && ts[i] != EOS
  }

  lemma StepOpened(t: Tokenizer, ts: seq<int>, i: nat)
    requires t.Valid() && MarksApart(t) && Ids(t, ts) && Opened(t, ts) && i + 1 < |ts| && Mergeable(t, ts, i)
    ensures var r := MergeAt(ts, i, PairId(t, ts, i)); Ids(t, r) && Opened(t, r)
  {
    hide Mergeable, PairId, Tokenizer.Valid;
    OnePair(t, ts, i);
    MergeableId(t, ts, i);
    assert PairUnmarked(t, ts[i], ts[i + 1]);
    assert i > 0;
  }

  lemma {:induction false} MergedOpened(t: Tokenizer, ts: seq<int>)
    requires t.Valid() && MarksApart(t) && Ids(t, ts) && Opened(t, ts)
    ensures var r := Merged(t, ts); Ids(t, r) && Opened(t, r)
    decreases |ts|
  {
    hide Score, Opened, MarksApart;
    BestIsBest(t, ts, LastPair(ts));
    var b := Best(t, ts, LastPair(ts));
    if b != -1 {
      StepOpened(t, ts, b);
      MergedOpened(t, MergeAt(ts, b, PairId(t, ts, b)));
    }
  }

  /** Printed behind BOS, such tokens show what they show anyway, less the space in front. */
  lemma OpenedDecodes(t: Tokenizer, ts: seq<int>, text: CString)
    requires Ids(t, ts) && Opened(t, ts) && NoSpacedByte(t)
    requires ShownAll(t, ts[1..]) == if text == [] then [] else [SPACE] + text
    requires text == [] ==> |ts| == 1
    ensures DecodeAll(t, BOS, ts[1..]) == text
  {
    hide Shown, Decode, ShownAll;
    if |ts| > 1 {
      var first, rest := ts[1], ts[2..];
      assert Spaced(t.vocab[first]);
      assert BOS !in rest;
      assert ts[1..] == [first] + rest;
      FirstDecodes(t, first, rest, text);
    } else {
      assert ts[1..] == [];
      NothingShown(t);
    }
  }

  lemma NothingShown(t: Tokenizer)
    ensures ShownAll(t, []) == []
  {
  }

  lemma FirstDecodes(t: Tokenizer, first: int, rest: seq<int>, text: CString)
    requires 0 <= first < |t.vocab| && Ids(t, rest) && Ids(t, [first] + rest)
    requires Spaced(t.vocab[first]) && !LooksByte(t.vocab[first][1..]) && first != BOS && BOS !in rest
    requires ShownAll(t, [first] + rest) == [SPACE] + text
    ensures DecodeAll(t, BOS, [first] + rest) == text
  {
    hide Shown;
    var shown := Shown(t.vocab[first][1..]);
    assert ([first] + rest)[1..] == rest;
    NoMarkNoStrip(t, first, rest);
    SpacedShown(t.vocab[first]);
    assert [SPACE] + text == [SPACE] + (shown + ShownAll(t, rest));
    SameRest([SPACE], text, shown + ShownAll(t, rest));
  }

  lemma SameRest(a: CString, x: CString, y: CString)
    requires a + x == a + y
    ensures x == y
  {
    assert (a + x)[|a|..] == x && (a + y)[|a|..] == y;
  }

  lemma SpacedShown(piece: CString)
    requires Spaced(piece) && !LooksByte(piece[1..])
    ensures Shown(piece) == [SPACE] + Shown(piece[1..])
  {
  }

  /** What a vocabulary must be like for a prompt to be printed as it was given. */
  ghost predicate Faithful(t: Tokenizer) {
    && t.Valid() && ByteNames(t) && MarksNoPieces(t) && [SPACE] in t.vocab
    && MergesShow(t) && MarksApart(t) && NoSpacedByte(t)
  }

  lemma StartOpened(t: Tokenizer, text: CString)
    requires Faithful(t)
    ensures var ts := Opening(t, text, true) + Pieces(t, text);
      && Ids(t, ts) && Opened(t, ts)
      && ShownAll(t, ts) == Shown(t.vocab[BOS]) + if text == [] then [] else [SPACE] + text
  {
    hide LookupId, Tokenizer.Valid, ByteNames, MergesShow, MarksApart, NoSpacedByte, Pieces, Shown;
    NamesLayout(t);
    PiecesShow(t, text);
    SpaceKnown(t);
    FoundSpells(t, [SPACE]);
    var space, pieces := LookupId([SPACE], t.sorted), Pieces(t, text);
    ShownOne(t, BOS);
    if text != [] {
      ShownOne(t, space);
      SpaceShows();
      assert Opening(t, text, true) + pieces == [BOS] + [space] + pieces;
      ShownBetween(t, [BOS], [space], pieces);
      var ts := [BOS] + [space] + pieces;
      forall i | 1 <= i < |ts| ensures ts[i] != BOS && ts[i] != EOS {
        if i > 1 {
          assert ts[i] == pieces[i - 2];
        } else {
          assert t.vocab[space] == [SPACE] && IsPiece([SPACE]);
        }
      }
    } else {
      assert Opening(t, text, true) + pieces == [BOS];
    }
  }

  lemma SpaceShows()
    ensures Shown([SPACE]) == [SPACE]
  {
  }

  /** The round trip of llm.c: what decode prints for the tokens of a text, byte tokens included, is the
      text. */
  lemma DecodeEncode(t: Tokenizer, text: CString)
    requires Faithful(t)
    ensures Known(t, text, true)
    ensures var r := SentencePiece.Encoded(t, text, true, false);
      && Ids(t, r) && r != [] && r[0] == BOS
      && (forall i | 1 <= i < |r| :: r[i] != BOS && r[i] != EOS)
      && DecodeAll(t, BOS, r[1..]) == text
  {
    hide LookupId, Tokenizer.Valid, ByteNames, MergesShow, MarksApart, NoSpacedByte, Pieces, Shown, ShownAll, Merged,
      Opening;
    StartOpened(t, text);
    var ts := Opening(t, text, true) + Pieces(t, text);
    ScoresMatch(t);
    MergedIs(t, ts);
    MergedShows(t, ts);
    MergedOpened(t, ts);
    var r := Merged(t, ts);
    assert SentencePiece.Encoded(t, text, true, false) == r;
    assert r == [BOS] + r[1..];
    ShownOne(t, BOS);
    ShownAppend(t, [BOS], r[1..]);
    if text == [] {
      assert |ts| <= 1 by { NothingToSay(t); }
    }
    SameRest(Shown(t.vocab[BOS]), ShownAll(t, r[1..]), if text == [] then [] else [SPACE] + text);
    OpenedDecodes(t, r, text);
  }

  lemma NothingToSay(t: Tokenizer)
    ensures |Opening(t, [], true) + Pieces(t, [])| == 1
  {
  }

  // ---------- the loop that prints a prompt ----------

  /** The tokens before the first marker. */
  function Story(ts: seq<int>): (r: seq<int>)
    ensures r <= ts
  {
    if ts == [] || ts[0] == BOS || ts[0] == EOS then [] else [ts[0]] + Story(ts[1..])
  }

  lemma {:induction false} WholeStory(ts: seq<int>)
    requires forall i | 0 <= i < |ts| :: ts[i] != BOS && ts[i] != EOS
    ensures Story(ts) == ts
  {
    if ts != [] {
      WholeStory(ts[1..]);
      assert ts == [ts[0]] + ts[1..];
    }
  }

  lemma StoryIds(t: Tokenizer, ts: seq<int>)
    requires Ids(t, ts)
    ensures Ids(t, Story(ts))
  {
    var r := Story(ts);
    assert forall i | 0 <= i < |r| :: r[i] == ts[i];
  }

  /** The part of the generating loop that goes over the prompt: it prints up to the first marker. */
  method Echo(t: Tokenizer, prompt: seq<int>) returns (out: CString)
    requires prompt != [] && Ids(t, prompt)
    ensures Ids(t, Story(prompt[1..])) && out == DecodeAll(t, prompt[0], Story(prompt[1..]))
  {
    hide Decode, DecodeAll, Story, Ids;
    out := [];
    var token, pos := prompt[0], 0;
    RestIds(t, prompt, 1);
    ghost var all := DecodeAll(t, token, Story(prompt[1..]));
    while pos < |prompt| - 1
      invariant 0 <= pos < |prompt| && token == prompt[pos] && Ids(t, Story(prompt[pos + 1..]))
      invariant out + DecodeAll(t, token, Story(prompt[pos + 1..])) == all
    {
      var next := prompt[pos + 1];
      EchoStep(t, token, prompt[pos + 1..]);
      if next == BOS || next == EOS {
        return;
      }
      assert prompt[pos + 1..][1..] == prompt[pos + 2..];
      out := out + Decode(t, token, next);
      token := next;
      pos := pos + 1;
    }
    assert prompt[pos + 1..] == [];
    EchoEnd(t, token);
  }

  lemma RestIds(t: Tokenizer, ts: seq<int>, k: nat)
    requires Ids(t, ts) && k <= |ts|
    ensures Ids(t, Story(ts[k..]))
  {
    assert forall i | 0 <= i < |ts[k..]| :: ts[k..][i] == ts[k + i];
    StoryIds(t, ts[k..]);
  }

  lemma EchoEnd(t: Tokenizer, token: int)
    ensures DecodeAll(t, token, Story([])) == []
  {
  }

  /** What is printed from here: nothing at a marker, otherwise the next token and the rest. */
  lemma EchoStep(t: Tokenizer, token: int, ts: seq<int>)
    requires ts != [] && Ids(t, Story(ts))
    ensures if ts[0] == BOS || ts[0] == EOS then DecodeAll(t, token, Story(ts)) == []
            else
              && 0 <= ts[0] < |t.vocab| && Ids(t, Story(ts[1..]))
              && DecodeAll(t, token, Story(ts)) == Decode(t, token, ts[0]) + DecodeAll(t, ts[0], Story(ts[1..]))
  {
    hide Decode;
    if ts[0] != BOS && ts[0] != EOS {
      assert Story(ts)[0] == ts[0] && Story(ts)[1..] == Story(ts[1..]);
    }
  }

  /** Encoding a prompt and printing its tokens. */
  method EncodeThenEcho(t: Tokenizer, longest: nat, text: CString, tokens: array<int>) returns (out: CString)
    requires Faithful(t) && tokens.Length >= |text| + 3 && Bounded(t, longest)
    modifies tokens
    ensures out == text
  {
    hide Faithful, SentencePiece.Encoded, DecodeAll, Bounded;
    DecodeEncode(t, text);
    FaithfulValid(t);
    SpaceIsLongEnough(t, longest);
    var n := SentencePiece.Encode(t, longest, text, true, false, tokens);
    WholeStory(tokens[1..n]);
    assert tokens[..n][1..] == tokens[1..n];
    out := Echo(t, tokens[..n]);
  }

  lemma SpaceIsLongEnough(t: Tokenizer, longest: nat)
    requires Faithful(t) && Bounded(t, longest)
    ensures longest >= 1
  {
    var i :| 0 <= i < |t.vocab| && t.vocab[i] == [SPACE];
  }

  lemma FaithfulValid(t: Tokenizer)
    requires Faithful(t)
    ensures t.Valid()
  {
  }

  // ---------- two vocabularies ----------

  const A: int := 259
  const AB: int := 260
  const B: int := 261
  const UNION: int := 262

  /** A space, two markers, the byte tokens, the letters A and B and the two of them together; then, if asked
      for, B together with the name of the byte token for 233. */
  function Entry(i: nat): CString
    requires i <= UNION
  {
    if i == 0 then [SPACE]
    else if i <= EOS then [33, 33, 33, 33, 33]
    else if i < A then ByteName(i - FIRST_BYTE)
    else if i == A then [65]
    else if i == AB then [65, 66]
    else if i == B then [66]
    else [66] + ByteName(233)
  }

  function Small(joined: bool): Tokenizer {
    var n := if joined then UNION + 1 else UNION;
    var vocab := seq(n, i requires 0 <= i < n => Entry(i));
    Tokenizer(vocab, seq(n, i => 0.0), IndexOf(vocab))
  }

  lemma NameOrder(b: nat, c: nat)
    requires b <= c < 256
    ensures Strcmp(ByteName(b), ByteName(c)) <= 0
  {
    var x, y := ByteName(b), ByteName(c);
    assert Strcmp(x, y) == Strcmp(x[1..], y[1..]) == Strcmp(x[2..], y[2..]) == Strcmp(x[3..], y[3..]);
    if b / 16 == c / 16 {
      assert Strcmp(x[3..], y[3..]) == Strcmp(x[4..], y[4..]);
      if b == c {
        StrcmpZero(x, y);
      }
    }
  }

  lemma EntryOrder(i: nat, j: nat)
    requires i < j <= UNION
    ensures Strcmp(Entry(i), Entry(j)) <= 0
  {
    hide ByteName;
    if i >= FIRST_BYTE && j < A {
      NameOrder(i - FIRST_BYTE, j - FIRST_BYTE);
    } else if i == A && j == AB {
      assert Entry(i)[1..] == [] && Entry(j)[1..] == [66];
    } else if i == B {
      assert Entry(i)[1..] == [] && Entry(j)[0] == 66;
    } else if 0 < i && j <= EOS {
      StrcmpZero(Entry(i), Entry(j));
    } else {
      assert Entry(i)[0] < Entry(j)[0];
    }
  }

  lemma SmallValid(joined: bool)
    ensures Small(joined).Valid() && ByteNames(Small(joined)) && MarksNoPieces(Small(joined))
    ensures [SPACE] in Small(joined).vocab
  {
    hide Entry, ByteName, Strcmp;
    var t := Small(joined);
    forall i, j | 0 <= i < j < |t.sorted| ensures Leq(t.sorted[i], t.sorted[j]) {
      EntryOrder(i, j);
    }
    assert Entry(0) == [SPACE] && t.vocab[0] == [SPACE] by { EntryIs(0); }
    EntryIs(BOS);
    EntryIs(EOS);
    forall b: nat | b < 256 ensures t.vocab[b + FIRST_BYTE] == ByteName(b) {
      EntryIs(b + FIRST_BYTE);
    }
  }

  lemma EntryIs(i: nat)
    requires i <= UNION
    ensures i == 0 ==> Entry(i) == [SPACE]
    ensures i == BOS || i == EOS ==> |Entry(i)| == 5 && Entry(i)[0] == 33
    ensures EOS < i < A ==> Entry(i) == ByteName(i - FIRST_BYTE)
    ensures i == A ==> Entry(i) == [65]
    ensures i == AB ==> Entry(i) == [65, 66]
    ensures i == B ==> Entry(i) == [66]
    ensures i == UNION ==> Entry(i) == [66] + ByteName(233)
  {
  }

  lemma SmallSize(joined: bool)
    ensures |Small(joined).vocab| == |Small(joined).scores| == if joined then UNION + 1 else UNION
  {
  }

  lemma SmallEntry(joined: bool, i: nat)
    requires i < |Small(joined).vocab|
    ensures i <= UNION && Small(joined).vocab[i] == Entry(i) && Small(joined).scores[i] == 0.0
    ensures |Small(joined).vocab| == |Small(joined).scores| == if joined then UNION + 1 else UNION
  {
    hide Entry;
  }

  lemma SameName(b: nat, c: nat)
    requires 0 < b < 256 && c < 256 && ByteName(b) == ByteName(c)
    ensures b == c
  {
    hide ByteName, Shown;
    NameShows(b);
    if c > 0 {
      NameShows(c);
    } else {
      NulShows();
    }
  }

  lemma NulShows()
    ensures Shown(ByteName(0)) == []
  {
  }

  /** The token that two entries make together, -1 if none. */
  function JoinOf(joined: bool, a: int, b: int): int {
    if a == A && b == B then AB
    else if joined && a == B && b == 233 + FIRST_BYTE then UNION
    else -1
  }

  /** Which entries put together are an entry. */
  lemma EntryJoins(a: nat, b: nat, c: nat)
    requires a <= UNION && b <= UNION && c <= UNION && Entry(c) == Entry(a) + Entry(b)
    ensures c == JoinOf(true, a, b)
  {
    hide Entry, ByteName;
    EntryIs(a);
    EntryIs(b);
    EntryIs(c);
    assert (Entry(a) + Entry(b))[0] == Entry(a)[0];
    if c == UNION {
      assert a == B || a == UNION;
      assert Entry(c)[1..] == ByteName(233);
      assert (Entry(a) + Entry(b))[1..] == Entry(b);
      if EOS < b < A {
        SameName(233, b - FIRST_BYTE);
      }
    } else if c == AB {
      assert a == A && Entry(b)[0] == (Entry(a) + Entry(b))[1];
    }
  }

  /** The letters merge; the letter B and that byte token do if their union is there; nothing else does. */
  lemma SmallMerges(joined: bool, a: int, b: int)
    requires var n := |Small(joined).vocab|; 0 <= a < n && 0 <= b < n
    ensures var t := Small(joined);
      && PairId(t, [a, b], 0) == JoinOf(joined, a, b)
      && (Mergeable(t, [a, b], 0) <==> JoinOf(joined, a, b) != -1)
  {
    hide Entry, ByteName, Tokenizer.Valid, LookupId, Small;
    var t := Small(joined);
    SmallValid(joined);
    SmallEntry(joined, a);
    SmallEntry(joined, b);
    var id := PairId(t, [a, b], 0);
    PairIdValid(t, [a, b], 0);
    if id != -1 {
      SmallEntry(joined, id);
      EntryJoins(a, b, id);
    } else if JoinOf(joined, a, b) != -1 {
      SmallEntry(joined, JoinOf(joined, a, b));
      EntryIs(a);
      EntryIs(b);
      EntryIs(JoinOf(joined, a, b));
      assert [65 as Char] + [66] == [65, 66];
      UnionFound(t, a, b, JoinOf(joined, a, b));
    }
  }

  lemma UnionFound(t: Tokenizer, a: nat, b: nat, c: nat)
    requires t.Valid() && a < |t.vocab| && b < |t.vocab| && c < |t.vocab| && t.vocab[c] == t.vocab[a] + t.vocab[b]
    ensures PairId(t, [a, b], 0) != -1
  {
    hide LookupId;
    LookupFinds(t.vocab, t.sorted, t.vocab[c]);
  }

  /** Without the union the vocabulary prints every prompt as it was given. */
  lemma SmallFaithful()
    ensures Faithful(Small(false))
  {
    hide Entry, ByteName, Tokenizer.Valid, Small, Mergeable, PairId, ByteNames, MarksNoPieces, Shown;
    var t := Small(false);
    SmallValid(false);
    forall a, b | 0 <= a < |t.vocab| && 0 <= b < |t.vocab| && Mergeable(t, [a, b], 0)
      ensures PairShows(t, a, b) && PairUnmarked(t, a, b)
    {
      SmallMerges(false, a, b);
      SmallEntry(false, A);
      SmallEntry(false, B);
      EntryIs(A);
      EntryIs(B);
      LettersShow();
    }
    forall i | 0 <= i < |t.vocab| && Spaced(t.vocab[i]) ensures !LooksByte(t.vocab[i][1..]) {
      SmallEntry(false, i);
      EntryIs(i);
    }
  }

  lemma LettersShow()
    ensures Shown([65]) == [65] && Shown([66]) == [66] && Shown([65] + [66]) == [65] + [66]
  {
  }

  /** There, a text does merge, and is printed as it was given: "AB" is one token. */
  lemma LettersMerge()
    ensures Faithful(Small(false)) && ComesBackAs(Small(false), [65, 66], [BOS, 0, AB], [65, 66])
  {
    hide Faithful, Small, LookupId, Merged, Pieces, Opening, Decode;
    SmallFaithful();
    SmallStart(false, [65, 66], B);
    TwoMerge(false, A, B);
    DecodeEncode(Small(false), [65, 66]);
  }

  /** With it, the letter B swallows the byte token, which is then printed by its name: the text "B" and the
      byte 233 comes back as seven letters. */
  lemma SwallowedByte()
    ensures ComesBackAs(Small(true), [66, 233], [BOS, 0, UNION], [66] + ByteName(233))
  {
    hide ByteName, Tokenizer.Valid, Small, ByteNames, MarksNoPieces, LookupId, Merged, Pieces, Opening, DecodeAll,
      Entry, Mergeable, PairId, Best, Score;
    var t := Small(true);
    SmallValid(true);
    SmallStart(true, [66, 233], 233 + FIRST_BYTE);
    TwoMerge(true, B, 233 + FIRST_BYTE);
    UnionDecodes();
    SmallSize(true);
    var r := [BOS, 0, UNION];
    assert Merged(t, Opening(t, [66, 233], true) + Pieces(t, [66, 233])) == r;
    assert SentencePiece.Encoded(t, [66, 233], true, false) == r;
    assert Ids(t, r);
    assert r[1..] == [0, UNION];
  }

  /** The text becomes these tokens, and they are printed as the other text. */
  ghost predicate ComesBackAs(t: Tokenizer, text: CString, ts: seq<int>, printed: CString) {
    && t.Valid() && Known(t, text, true) && SentencePiece.Encoded(t, text, true, false) == ts
    && ts != [] && Ids(t, ts[1..]) && DecodeAll(t, BOS, ts[1..]) == printed
  }

  lemma UnionDecodes()
    ensures var t := Small(true);
      Ids(t, [0, UNION]) && DecodeAll(t, BOS, [0, UNION]) == [66] + ByteName(233)
  {
    hide Entry, ByteName, Small;
    var t := Small(true);
    SmallSize(true);
    SmallEntry(true, 0);
    SmallEntry(true, UNION);
    EntryIs(0);
    EntryIs(UNION);
    assert [0, UNION][1..] == [UNION] && [UNION][1..] == [];
    assert Decode(t, BOS, 0) == [];
    assert Decode(t, 0, UNION) == t.vocab[UNION];
    assert DecodeAll(t, UNION, []) == [];
    assert DecodeAll(t, 0, [UNION]) == t.vocab[UNION];
    assert [] + t.vocab[UNION] == t.vocab[UNION];
  }

  /** The tokens of two one-byte pieces before any merging. */
  lemma SmallStart(joined: bool, text: CString, second: int)
    requires (text == [65, 66] && second == B) || (text == [66, 233] && second == 233 + FIRST_BYTE)
    ensures var t, ts := Small(joined), [BOS, 0, if text[0] == 65 then A else B, second];
      t.Valid() && Ids(t, ts) && Opening(t, text, true) + Pieces(t, text) == ts
  {
    hide Entry, ByteName, Tokenizer.Valid, Small, ByteNames, MarksNoPieces, LookupId;
    var t := Small(joined);
    SmallValid(joined);
    SmallSize(joined);
    SmallFinds(joined, [SPACE], 0);
    SmallFinds(joined, [65], A);
    SmallFinds(joined, [66], B);
    SmallFinds(joined, [233], -1);
    var rest := text[1..];
    assert text[..1] == [text[0]] && rest[..1] == [text[1]] && rest[1..] == [];
    assert ByteTokens([233]) == [233 + FIRST_BYTE];
    assert PieceTokens(t, [65]) == [A] && PieceTokens(t, [66]) == [B] && PieceTokens(t, [233]) == [233 + FIRST_BYTE];
    assert PieceLength(text, 1) == 1 || text[1] == 233;
    assert !Continues(233) && !Continues(66);
    assert Pieces(t, rest) == PieceTokens(t, rest[..1]) + Pieces(t, []);
    assert Pieces(t, text) == PieceTokens(t, text[..1]) + Pieces(t, rest);
  }

  lemma SmallFinds(joined: bool, word: CString, at: int)
    requires (word == [SPACE] && at == 0) || (word == [65] && at == A) || (word == [66] && at == B)
          || (word == [233] && at == -1)
    ensures LookupId(word, Small(joined).sorted) == at
  {
    hide Entry, ByteName, Tokenizer.Valid, Small, LookupId;
    var t := Small(joined);
    SmallValid(joined);
    SmallSize(joined);
    LookupOf(t, word);
    var id := LookupId(word, t.sorted);
    if id != -1 {
      SmallEntry(joined, id);
      EntryIs(id);
    } else if at != -1 {
      SmallEntry(joined, at);
      EntryIs(at);
    }
  }

  lemma LookupOf(t: Tokenizer, word: CString)
    requires t.Valid()
    ensures Finds(t.vocab, word, LookupId(word, t.sorted))
  {
    hide LookupId;
    LookupFinds(t.vocab, t.sorted, word);
  }

  /** Behind the marker and the space, two tokens that make one become one. */
  lemma TwoMerge(joined: bool, a: int, b: int)
    requires JoinOf(joined, a, b) != -1
    ensures var t, ts := Small(joined), [BOS, 0, a, b];
      |t.scores| == |t.vocab| && Ids(t, ts) && Merged(t, ts) == [BOS, 0, JoinOf(joined, a, b)]
  {
    hide Entry, ByteName, Tokenizer.Valid, Small, PairId, Score;
    var c := JoinOf(joined, a, b);
    var t, ts, r := Small(joined), [BOS, 0, a, b], [BOS, 0, c];
    SmallSize(joined);
    SmallMerges(joined, BOS, 0);
    SmallMerges(joined, 0, a);
    SmallMerges(joined, a, b);
    SmallMerges(joined, 0, c);
    OnePair(t, ts, 0);
    OnePair(t, ts, 1);
    OnePair(t, ts, 2);
    OnePair(t, r, 0);
    OnePair(t, r, 1);
    assert Best(t, ts, 0) == -1 && Best(t, ts, 1) == -1 && Best(t, ts, 2) == -1 && Best(t, ts, 3) == 2;
    assert MergeAt(ts, 2, c) == r;
    assert Best(t, r, 0) == -1 && Best(t, r, 1) == -1 && Best(t, r, 2) == -1;
  }
}
