/** The encoder of kernel/src/llm.c: whole characters first, then bytes for what has no token, then the
    merging that it shares with kernel/src/qwen.c. */
module SentencePiece {
  import opened Vocabulary
  import opened Scratch
  import opened Bits
  import opened Bpe

  const BOS: int := 1
  const EOS: int := 2
  const FIRST_BYTE: int := 3
  const SPACE: Char := 32

  /** A UTF-8 continuation byte: its two top bits are 10. */
  predicate Continues(c: Char) { 0x80 <= c < 0xC0 }

  /** The length of the piece at the start of the text, of which k bytes are taken already: up to four
      bytes, as long as the next one is a continuation byte. */
  function PieceLength(text: CString, k: nat): (n: nat)
    requires 0 < k <= |text| && k <= 4
    ensures k <= n <= |text| && n <= 4
    decreases 4 - k
  {
    if k < |text| && Continues(text[k]) && k < 4 then PieceLength(text, k + 1) else k
  }

  /** The bytes of one character in UTF-8: a leading byte, which says how many continuation bytes follow. */
  predicate IsCharacter(c: CString) {
    && c != [] && |c| == (if c[0] < 0x80 then 1 else if c[0] < 0xE0 then 2 else if c[0] < 0xF0 then 3 else 4)
    && !Continues(c[0])
    && forall i | 1 <= i < |c| :: Continues(c[i])
  }

  predicate AllCharacters(cs: seq<CString>) { forall i | 0 <= i < |cs| :: IsCharacter(cs[i]) }

  function Joined(cs: seq<CString>): CString { if cs == [] then [] else cs[0] + Joined(cs[1..]) }

  /** `(c & 0xC0) == 0x80`, as the code has it. */
  lemma ContinuesIs(c: Char)
    ensures Continues(c) <==> And(c, 0xC0) == 0x80
  {
    hide And, Shl, Shr;
    AndShifted(c, 3, 6);
    SixBits(c, 3);
    SixBits(c, c / 64);
    AndOnes(c / 64, 2);
    assert Pow2(2) == 4;
  }

  lemma SixBits(c: nat, m: nat)
    ensures Shl(m, 6) == 64 * m && Shr(c, 6) == c / 64
  {
    ShlFour(m, 2);
    assert Shl(m, 2) == 2 * Shl(m, 1) == 4 * m;
    ShrFour(c, 2);
    assert Shr(c / 16, 2) == Shr(c / 16 / 2, 1) == Shr(c / 16 / 2 / 2, 0);
  }

  /** The UTF-8 encoding of a code point (RFC 3629 section 3). */
  function Utf8(code: nat): (c: CString)
    requires 0 < code < 0x11_0000
  {
    if code < 0x80 then [code]
    else if code < 0x800 then [0xC0 + code / 64, 0x80 + code % 64]
    else if code < 0x1_0000 then [0xE0 + code / 4096, 0x80 + code / 64 % 64, 0x80 + code % 64]
    else [0xF0 + code / 262144, 0x80 + code / 4096 % 64, 0x80 + code / 64 % 64, 0x80 + code % 64]
  }

  /** Encoded code points are characters, so that a piece is one of them. */
  lemma Utf8Character(code: nat)
    requires 0 < code < 0x11_0000
    ensures IsCharacter(Utf8(code))
  {
  }

  function Utf8Text(codes: seq<nat>): CString
    requires forall i :: 0 <= i < |codes| ==> 0 < codes[i] < 0x11_0000
  {
    if codes == [] then [] else Utf8(codes[0]) + Utf8Text(codes[1..])
  }

  /** The first loop of encode takes a text in UTF-8 code point by code point. */
  lemma {:induction false} Utf8Pieces(t: Tokenizer, codes: seq<nat>)
    requires forall i :: 0 <= i < |codes| ==> 0 < codes[i] < 0x11_0000
    ensures codes != [] ==>
      && Utf8(codes[0]) != []
      && Pieces(t, Utf8Text(codes)) == PieceTokens(t, Utf8(codes[0])) + Pieces(t, Utf8Text(codes[1..]))
  {
    hide PieceTokens, PieceLength, Utf8, Utf8Text, IsCharacter;
    if codes != [] {
      var c, rest := Utf8(codes[0]), Utf8Text(codes[1..]);
      Utf8Character(codes[0]);
      TextStartsCharacter(codes[1..]);
      CharacterStarts(c);
      PieceIsCharacter(c, rest, 1);
      var text := Utf8Text(codes);
      assert text == c + rest by { TextOf(codes); }
      assert text[..|c|] == c && text[|c|..] == rest;
      PiecesStep(t, text);
    }
  }

  lemma CharacterStarts(c: CString)
    requires IsCharacter(c)
    ensures |c| > 0 && !Continues(c[0])
  {
  }

  lemma TextOf(codes: seq<nat>)
    requires codes != [] && forall i :: 0 <= i < |codes| ==> 0 < codes[i] < 0x11_0000
    ensures Utf8Text(codes) == Utf8(codes[0]) + Utf8Text(codes[1..])
  {
  }

  lemma TextStartsCharacter(codes: seq<nat>)
    requires forall i :: 0 <= i < |codes| ==> 0 < codes[i] < 0x11_0000
    ensures Utf8Text(codes) == [] || !Continues(Utf8Text(codes)[0])
  {
    if codes != [] {
      Utf8Character(codes[0]);
    }
  }

  lemma PiecesStep(t: Tokenizer, text: CString)
    requires text != []
    ensures var n := PieceLength(text, 1); Pieces(t, text) == PieceTokens(t, text[..n]) + Pieces(t, text[n..])
  {
  }

  /** What a piece becomes: the token that spells it, or one token for each byte, three above the byte. */
  lemma {:induction false} PieceTokensAre(t: Tokenizer, piece: CString, i: nat)
    requires t.Valid() && i < |piece|
    ensures piece in t.vocab ==>
      |PieceTokens(t, piece)| == 1 && 0 <= PieceTokens(t, piece)[0] < |t.vocab|
      && t.vocab[PieceTokens(t, piece)[0]] == piece
    ensures piece !in t.vocab ==> |PieceTokens(t, piece)| == |piece| && PieceTokens(t, piece)[i] == piece[i] as int + 3
  {
    hide LookupId, Sorted, IndexOf;
    LookupFinds(t.vocab, t.sorted, piece);
    ByteTokenAt(piece, i);
  }

  lemma {:induction false} ByteTokenAt(piece: CString, i: nat)
    requires i < |piece|
    ensures ByteTokens(piece)[i] == piece[i] as int + 3
    decreases piece
  {
    if i > 0 {
      ByteTokenAt(piece[1..], i - 1);
    }
  }

  /** The markers: id 1 in front if asked for, then the token of a space if the text is not empty, and id 2 at the
      end if asked for. */
  lemma MarkersAre(t: Tokenizer, text: CString)
    requires t.Valid()
    ensures Opening(t, text, true) == [1] + Opening(t, text, false)
    ensures text == [] || [32] !in t.vocab ==> Opening(t, text, false) == []
    ensures text != [] && [32] in t.vocab ==>
      |Opening(t, text, false)| == 1 && 0 <= Opening(t, text, false)[0] < |t.vocab|
      && t.vocab[Opening(t, text, false)[0]] == [32]
    ensures Known(t, text, true) ==> Encoded(t, text, true, true) == Encoded(t, text, true, false) + [2]
  {
    hide LookupId, Sorted, IndexOf, Merged, Pieces;
    LookupFinds(t.vocab, t.sorted, [32]);
  }

  /** At the start of a character a piece is exactly that character. */
  lemma {:induction false} PieceIsCharacter(c: CString, rest: CString, k: nat)
    requires IsCharacter(c) && 0 < k <= |c| && (rest == [] || !Continues(rest[0]))
    ensures PieceLength(c + rest, k) == |c|
    decreases |c| - k
  {
    if k < |c| {
      PieceIsCharacter(c, rest, k + 1);
    }
  }

  /** In well-formed UTF-8 the pieces are the characters, one by one. */
  lemma {:induction false} PiecesAreCharacters(t: Tokenizer, cs: seq<CString>)
    requires AllCharacters(cs)
    ensures Pieces(t, Joined(cs)) == CharacterTokens(t, cs)
    decreases |cs|
  {
    hide PieceTokens, PieceLength;
    if cs == [] {
    } else {
      var text, rest := Joined(cs), Joined(cs[1..]);
      assert IsCharacter(cs[0]);
      if |cs| > 1 {
        assert IsCharacter(cs[1]) && cs[1..][0] == cs[1];
      }
      PieceIsCharacter(cs[0], rest, 1);
      assert text[..|cs[0]|] == cs[0] && text[|cs[0]|..] == rest;
      PiecesAreCharacters(t, cs[1..]);
    }
  }

  /** The tokens of the characters, each on its own: its token, or the tokens of its bytes. */
  function CharacterTokens(t: Tokenizer, cs: seq<CString>): seq<int>
    requires AllCharacters(cs)
  {
    if cs == [] then []
    else
      assert IsCharacter(cs[0]);
      PieceTokens(t, cs[0]) + CharacterTokens(t, cs[1..])
  }

  /** The byte tokens of a piece without a token of its own. */
  function ByteTokens(piece: CString): (ts: seq<int>)
    ensures |ts| == |piece|
  {
    if piece == [] then [] else [piece[0] as int + FIRST_BYTE] + ByteTokens(piece[1..])
  }

  function PieceTokens(t: Tokenizer, piece: CString): (ts: seq<int>)
    requires piece != []
    ensures 0 < |ts| <= |piece|
  {
    var id := LookupId(piece, t.sorted);
    if id != -1 then [id] else ByteTokens(piece)
  }

  /** The tokens that the first loop of encode appends. */
  function Pieces(t: Tokenizer, text: CString): (ts: seq<int>)
    ensures |ts| <= |text|
    decreases |text|
  {
    if text == [] then []
    else
      var n := PieceLength(text, 1);
      PieceTokens(t, text[..n]) + Pieces(t, text[n..])
  }

  /** How many bytes of the text become byte tokens. */
  function FallbackBytes(t: Tokenizer, text: CString): nat
    decreases |text|
  {
    if text == [] then 0
    else
      var n := PieceLength(text, 1);
      (if LookupId(text[..n], t.sorted) == -1 then n else 0) + FallbackBytes(t, text[n..])
  }

  /** The vocabulary layout that the byte fallback relies on: ids 3 to 258 exist and are written as
      six characters, "<0x0A>" and the like. */
  predicate ByteLayout(t: Tokenizer) {
    |t.vocab| >= 259 && forall i | 3 <= i < 259 :: |t.vocab[i]| == 6
  }

  lemma {:induction false} ByteTokensSpell(t: Tokenizer, piece: CString)
    requires ByteLayout(t)
    ensures Ids(t, ByteTokens(piece)) && |Text(t, ByteTokens(piece))| == 6 * |piece|
  {
    if piece != [] {
      ByteTokensSpell(t, piece[1..]);
      TextCons(t, piece[0] as int + FIRST_BYTE, ByteTokens(piece[1..]));
    }
  }

  lemma PieceSpells(t: Tokenizer, piece: CString)
    requires t.Valid() && ByteLayout(t) && piece != []
    ensures Ids(t, PieceTokens(t, piece))
    ensures var s := Text(t, PieceTokens(t, piece));
            if LookupId(piece, t.sorted) != -1 then s == piece else |s| == 6 * |piece|
  {
    hide LookupId, Tokenizer.Valid, ByteLayout, ByteTokens;
    FoundSpells(t, piece);
    var id := LookupId(piece, t.sorted);
    if id != -1 {
      TextCons(t, id, []);
    } else {
      ByteTokensSpell(t, piece);
    }
  }

  /** The first tokens spell the text exactly when no piece needed its bytes. */
  lemma {:induction false} PiecesSpell(t: Tokenizer, text: CString)
    requires t.Valid() && ByteLayout(t)
    ensures Ids(t, Pieces(t, text))
    ensures |Text(t, Pieces(t, text))| == |text| + 5 * FallbackBytes(t, text)
    ensures FallbackBytes(t, text) == 0 <==> Text(t, Pieces(t, text)) == text
    decreases |text|
  {
    hide LookupId, Tokenizer.Valid, ByteLayout, PieceTokens, PieceLength;
    if text != [] {
      var n := PieceLength(text, 1);
      var head, rest := PieceTokens(t, text[..n]), Pieces(t, text[n..]);
      PieceSpells(t, text[..n]);
      PiecesSpell(t, text[n..]);
      IdsAppend(t, head, rest);
      TextAppend(t, head, rest);
      assert text == text[..n] + text[n..];
    }
  }

  lemma IdsAppend(t: Tokenizer, a: seq<int>, b: seq<int>)
    ensures Ids(t, a + b) <==> Ids(t, a) && Ids(t, b)
  {
    if Ids(t, a + b) {
      assert forall i | 0 <= i < |a| :: (a + b)[i] == a[i];
      assert forall i | 0 <= i < |b| :: (a + b)[|a| + i] == b[i];
    }
  }

  /** The tokens before the text: the BOS token if asked for, and a space before a text that is not
      empty, if the vocabulary has one. */
  function Opening(t: Tokenizer, text: CString, bos: bool): (ts: seq<int>)
    ensures |ts| <= 2
  {
    var space := LookupId([SPACE], t.sorted);
    (if bos then [BOS] else []) + if text != [] && space != -1 then [space] else []
  }

  /** What the merge loop looks at names vocabulary entries: the source does not check that its BOS and
      byte tokens exist. */
  ghost predicate Known(t: Tokenizer, text: CString, bos: bool) {
    Ids(t, Opening(t, text, bos) + Pieces(t, text))
  }

  /** The whole of encode as a function. */
  ghost function Encoded(t: Tokenizer, text: CString, bos: bool, eos: bool): seq<int>
    requires t.Valid() && Known(t, text, bos)
  {
    Merged(t, Opening(t, text, bos) + Pieces(t, text)) + if eos then [EOS] else []
  }

  lemma LayoutKnown(t: Tokenizer, text: CString, bos: bool)
    requires t.Valid() && ByteLayout(t)
    ensures Known(t, text, bos)
  {
    hide Tokenizer.Valid, ByteLayout, Opening, Pieces;
    OpeningIds(t, text, bos);
    PiecesSpell(t, text);
    IdsAppend(t, Opening(t, text, bos), Pieces(t, text));
  }

  lemma OpeningIds(t: Tokenizer, text: CString, bos: bool)
    requires t.Valid() && ByteLayout(t)
    ensures Ids(t, Opening(t, text, bos))
    ensures Text(t, Opening(t, text, bos)) ==
            (if bos then t.vocab[BOS] else []) + if text != [] && [SPACE] in t.vocab then [SPACE] else []
  {
    hide LookupId, Tokenizer.Valid;
    SpaceKnown(t);
    FoundSpells(t, [SPACE]);
    var space := LookupId([SPACE], t.sorted);
    var mark := if text != [] && space != -1 then [space] else [];
    if mark != [] {
      TextCons(t, space, []);
    }
    if bos {
      TextCons(t, BOS, mark);
    } else {
      assert [] + mark == mark;
    }
  }

  lemma SpaceKnown(t: Tokenizer)
    requires t.Valid()
    ensures LookupId([SPACE], t.sorted) != -1 <==> [SPACE] in t.vocab
  {
    LookupFinds(t.vocab, t.sorted, [SPACE]);
  }

  /** Encoding keeps meaning: the tokens spell the markers around the text, and the text itself exactly
      when no piece fell back to bytes; they fit the caller's buffer of three more than the text has
      bytes; and before the EOS token no adjacent pair could still be merged. */
  lemma EncodeKeepsMeaning(t: Tokenizer, text: CString, bos: bool, eos: bool)
    requires t.Valid() && ByteLayout(t)
    ensures Known(t, text, bos)
    ensures var r := Encoded(t, text, bos, eos);
            var before := (if bos then t.vocab[BOS] else []) + if text != [] && [SPACE] in t.vocab then [SPACE] else [];
            var after := if eos then t.vocab[EOS] else [];
            && Ids(t, r) && |r| <= |text| + 3
            && (FallbackBytes(t, text) == 0 <==> Text(t, r) == before + text + after)
            && forall i | 0 <= i < |r| - (if eos then 2 else 1) :: !Mergeable(t, r, i)
  {
    hide LookupId, Tokenizer.Valid, ByteLayout, Opening, Pieces, Merged, Mergeable, FallbackBytes;
    LayoutKnown(t, text, bos);
    var opening, pieces := Opening(t, text, bos), Pieces(t, text);
    OpeningIds(t, text, bos);
    PiecesSpell(t, text);
    IdsAppend(t, opening, pieces);
    TextAppend(t, opening, pieces);
    MergedIs(t, opening + pieces);
    ScoresMatch(t);
    var merged := Merged(t, opening + pieces);
    var last := if eos then [EOS] else [];
    LastIds(t, eos);
    IdsAppend(t, merged, last);
    TextAppend(t, merged, last);
    var before, after := Text(t, opening), Text(t, last);
    assert Text(t, merged + last) == before + Text(t, pieces) + after;
    assert before + Text(t, pieces) + after == before + text + after ==> Text(t, pieces) == text by {
      Cancel(before, Text(t, pieces), text, after);
    }
    forall i | 0 <= i < |merged| - 1 ensures !Mergeable(t, merged + last, i) {
      SamePair(t, merged, last, i);
    }
  }

  /** 259 entries, all the same six letters. */
  function SixLetters(): (s: CString)
    ensures |s| == 6
  {
    [97, 97, 97, 97, 97, 97]
  }

  function Monotonous(): (t: Tokenizer)
    ensures |t.vocab| == 259 && forall i | 0 <= i < 259 :: t.vocab[i] == SixLetters()
  {
    var vocab := seq(259, i => SixLetters());
    Tokenizer(vocab, seq(259, i => 0.0), IndexOf(vocab))
  }

  lemma MonotonousValid()
    ensures Monotonous().Valid() && ByteLayout(Monotonous())
  {
    var t := Monotonous();
    StrcmpZero(SixLetters(), SixLetters());
  }

  /** A text of one character without a token: its byte token is written out in six. */
  lemma FallbackSpellsMore()
    ensures Monotonous().Valid() && ByteLayout(Monotonous())
    ensures Known(Monotonous(), [233], false)
    ensures var r := Encoded(Monotonous(), [233], false, false);
            Ids(Monotonous(), r) && Text(Monotonous(), r) != [233]
  {
    hide LookupId, Encoded, Tokenizer.Valid, Text, Mergeable;
    MonotonousValid();
    var t, text: CString := Monotonous(), [233];
    NoShortToken(text);
    NoShortToken([SPACE]);
    assert text[..1] == text && text[1..] == [];
    assert FallbackBytes(t, text) == 1;
    EncodeKeepsMeaning(t, text, false, false);
    assert [] + text + [] == text;
  }

  lemma NoShortToken(word: CString)
    requires |word| == 1
    ensures LookupId(word, Monotonous().sorted) == -1 && word !in Monotonous().vocab
  {
    hide LookupId;
    MonotonousValid();
    FoundSpells(Monotonous(), word);
  }

  lemma ScoresMatch(t: Tokenizer)
    requires t.Valid()
    ensures |t.scores| == |t.vocab|
  {
  }

  lemma LastIds(t: Tokenizer, eos: bool)
    requires ByteLayout(t)
    ensures var last := if eos then [EOS] else [];
            Ids(t, last) && Text(t, last) == if eos then t.vocab[EOS] else []
  {
    if eos {
      TextCons(t, EOS, []);
    }
  }

  lemma Cancel(a: CString, x: CString, y: CString, b: CString)
    ensures a + x + b == a + y + b ==> x == y
  {
    if a + x + b == a + y + b {
      assert (a + x + b)[|a|..|a| + |x|] == x;
      assert (a + y + b)[|a|..|a| + |y|] == y;
    }
  }

  lemma SamePair(t: Tokenizer, ts: seq<int>, last: seq<int>, i: nat)
    requires Ids(t, ts) && Ids(t, ts + last) && i + 1 < |ts|
    ensures Mergeable(t, ts + last, i) == Mergeable(t, ts, i)
  {
    assert (ts + last)[i] == ts[i] && (ts + last)[i + 1] == ts[i + 1];
  }

  // ---------- the code ----------

  /** The first loop of encode, from a text position to the end of its piece: bytes are collected until
      the next one starts a new character or four are there. */
  method NextPiece(text: CString, c: nat, buf: array<char>) returns (n: nat)
    requires c < |text| && buf.Length >= 5
    modifies buf
    ensures n == PieceLength(text[c..], 1) && c + n <= |text| && Holds(buf[..], text[c..c + n])
  {
    hide Continues;
    buf[0], buf[1] := text[c] as char, NUL;
    n := 1;
    ghost var rest := text[c..];
    while c + n < |text| && Continues(text[c + n]) && n < 4
      invariant 1 <= n <= 4 && c + n <= |text|
      invariant PieceLength(rest, n) == PieceLength(rest, 1)
      invariant Holds(buf[..], text[c..c + n])
    {
      buf[n], buf[n + 1] := text[c + n] as char, NUL;
      n := n + 1;
    }
  }

  /** The tokens of the piece in the buffer go behind the n that are there. */
  method AppendPiece(t: Tokenizer, piece: CString, buf: array<char>, tokens: array<int>, n: nat) returns (m: nat)
    requires piece != [] && n + |piece| <= tokens.Length && Holds(buf[..], piece)
    modifies tokens
    ensures n <= m <= n + |piece| && tokens[..m] == old(tokens[..n]) + PieceTokens(t, piece)
  {
    hide LookupId, ByteTokens;
    var id := LookupIn(buf, piece, t.sorted);
    m := n;
    if id != -1 {
      tokens[m] := id;
      m := m + 1;
    } else {
      m := AppendBytes(piece, tokens, n);
    }
  }

  method AppendBytes(piece: CString, tokens: array<int>, n: nat) returns (m: nat)
    requires n + |piece| <= tokens.Length
    modifies tokens
    ensures m == n + |piece| && tokens[..m] == old(tokens[..n]) + ByteTokens(piece)
  {
    m := n;
    for i := 0 to |piece|
      invariant m == n + i
      invariant tokens[..n] == old(tokens[..n])
      invariant forall k | 0 <= k < i :: tokens[n + k] == piece[k] as int + FIRST_BYTE
    {
      tokens[m] := piece[i] as int + FIRST_BYTE;
      m := m + 1;
    }
    ByteTokensAre(piece, tokens[n..m]);
    assert tokens[..m] == tokens[..n] + tokens[n..m];
  }

  lemma {:induction false} ByteTokensAre(piece: CString, ts: seq<int>)
    requires |ts| == |piece| && forall k | 0 <= k < |ts| :: ts[k] == piece[k] as int + FIRST_BYTE
    ensures ts == ByteTokens(piece)
  {
    if piece != [] {
      ByteTokensAre(piece[1..], ts[1..]);
      assert ts == [ts[0]] + ts[1..];
    }
  }

  /** encode, with the caller's buffer of three more than the text has bytes. A piece takes four bytes and a
      terminator in the scratch buffer. */
  method Encode(t: Tokenizer, longest: nat, text: CString, bos: bool, eos: bool, tokens: array<int>)
    returns (n: nat)
    requires t.Valid() && Known(t, text, bos) && tokens.Length >= |text| + 3
    requires Bounded(t, longest) && longest >= 1
    modifies tokens
    ensures n <= |text| + 3 && tokens[..n] == Encoded(t, text, bos, eos)
  {
    hide LookupId, Tokenizer.Valid, Merged, Ids, Pieces, Bounded;
    var buf := new char[ScratchSize(longest)];
    n := Open(t, text, bos, tokens);
    n := FirstLoop(t, text, buf, tokens, n);
    MergedIs(t, tokens[..n]);
    n := MergeAll(t, longest, tokens, n, buf);
    if eos {
      tokens[n] := EOS;
      n := n + 1;
    }
  }

  method Open(t: Tokenizer, text: CString, bos: bool, tokens: array<int>) returns (n: nat)
    requires tokens.Length >= 2
    modifies tokens
    ensures n <= 2 && tokens[..n] == Opening(t, text, bos)
  {
    hide LookupId;
    n := 0;
    if bos {
      tokens[n] := BOS;
      n := n + 1;
    }
    if text != [] {
      var dummyPrefix := TokLookup([SPACE], t.sorted);
      if dummyPrefix != -1 {
        tokens[n] := dummyPrefix;
        n := n + 1;
      }
    }
  }

  method FirstLoop(t: Tokenizer, text: CString, buf: array<char>, tokens: array<int>, from: nat) returns (n: nat)
    requires from + |text| <= tokens.Length && buf.Length >= 5
    modifies tokens, buf
    ensures n <= from + |text| && tokens[..n] == old(tokens[..from]) + Pieces(t, text)
  {
    hide PieceTokens, PieceLength, Pieces;
    n := from;
    var c := 0;
    assert text[0..] == text;
    ghost var all := old(tokens[..from]) + Pieces(t, text);
    while c < |text|
      invariant c <= |text| && n <= from + c
      invariant tokens[..n] + Pieces(t, text[c..]) == all
    {
      PiecesStep(t, text[c..]);
      var k := NextPiece(text, c, buf);
      assert text[c..][..k] == text[c..c + k] && text[c..][k..] == text[c + k..];
      ghost var was := tokens[..n];
      n := AppendPiece(t, text[c..c + k], buf, tokens, n);
      assert tokens[..n] + Pieces(t, text[c + k..])
          == was + (PieceTokens(t, text[c..c + k]) + Pieces(t, text[c + k..]));
      c := c + k;
    }
    PiecesNone(t, text[c..]);
  }

  lemma PiecesNone(t: Tokenizer, text: CString)
    requires text == []
    ensures Pieces(t, text) == []
  {
  }
}
