/** The whole way of a vocabulary: written by export_tokenizer, read by build_tokenizer, sorted, and used
    by encode. `value` says which number four stored bytes stand for. */
module VocabularyOnDisk {
  import opened Basics
  import TokenizerFile
  import opened Vocabulary
  import opened Bpe

  /** Bytes as a C string: up to the first NUL. */
  function CText(s: seq<Byte>): (r: CString)
    ensures |r| <= |s|
  {
    if s == [] || s[0] == 0 then [] else [s[0]] + CText(s[1..])
  }

  /** A string without NUL is read whole. */
  lemma {:induction false} CTextWhole(s: seq<Byte>)
    requires 0 !in s
    ensures CText(s) == s
  {
    if s != [] {
      assert s == [s[0]] + s[1..];
      CTextWhole(s[1..]);
    }
  }

  lemma {:induction false} CopyReads(raw: seq<Byte>, rest: seq<Byte>)
    ensures CText(raw + [0] + rest) == CText(raw)
  {
    if raw == [] {
      assert (raw + [0] + rest)[0] == 0;
    } else {
      assert (raw + [0] + rest)[1..] == raw[1..] + [0] + rest;
      CopyReads(raw[1..], rest);
    }
  }

  /** Following a char pointer to the terminator. */
  method ReadString(arena: array<Byte>, from: nat, ghost end: nat) returns (s: CString)
    requires from <= end < arena.Length && arena[end] == 0
    ensures s == CText(arena[from..])
  {
    s := [];
    var p := from;
    while arena[p] != 0
      invariant from <= p <= end
      invariant s + CText(arena[p..]) == CText(arena[from..])
      decreases end - p
    {
      assert arena[p..][0] == arena[p] && arena[p..][1..] == arena[p + 1..];
      assert s + ([arena[p]] + CText(arena[p + 1..])) == s + [arena[p]] + CText(arena[p + 1..]);
      s := s + [arena[p]];
      p := p + 1;
    }
    assert CText(arena[p..]) == [];
  }

  /** All strings that the loaded tokenizer points at. */
  method ReadAll(t: TokenizerFile.Tokenizer, ghost es: seq<TokenizerFile.Entry>, n: nat) returns (vocab: seq<CString>)
    requires |es| == n && forall i | 0 <= i < n :: t.Loaded(i, es[i])
    ensures |vocab| == n && forall i | 0 <= i < n :: vocab[i] == CText(es[i].raw)
  {
    vocab := [];
    for i := 0 to n
      invariant |vocab| == i && forall k | 0 <= k < i :: vocab[k] == CText(es[k].raw)
    {
      assert t.Loaded(i, es[i]);
      ghost var end := t.vocab[i] + |es[i].raw|;
      var s := ReadString(t.arena, t.vocab[i], end);
      assert t.arena[t.vocab[i]..] == es[i].raw + [0] + t.arena[end + 1..];
      CopyReads(es[i].raw, t.arena[end + 1..]);
      vocab := vocab + [s];
    }
  }

  method ReadScores(t: TokenizerFile.Tokenizer, ghost es: seq<TokenizerFile.Entry>, n: nat,
                    value: TokenizerFile.Score -> real)
    returns (scores: seq<real>)
    requires |es| == n && forall i | 0 <= i < n :: t.Loaded(i, es[i])
    ensures |scores| == n && forall i | 0 <= i < n :: scores[i] == value(es[i].score)
  {
    scores := [];
    for i := 0 to n
      invariant |scores| == i && forall k | 0 <= k < i :: scores[k] == value(es[k].score)
    {
      assert t.Loaded(i, es[i]);
      scores := scores + [value(t.scores[i])];
    }
  }

  /** The tokenizer that the kernel ends up with: the rows' strings and scores, and a sorted index. */
  ghost predicate Carries(t: Tokenizer, es: seq<TokenizerFile.Entry>, value: TokenizerFile.Score -> real) {
    && t.Valid() && |t.vocab| == |es|
    && forall i | 0 <= i < |es| :: t.vocab[i] == CText(es[i].raw) && t.scores[i] == value(es[i].score)
  }

  /** build_tokenizer on any file that starts with the rows, sort included. */
  method Load(file: seq<Byte>, ghost es: seq<TokenizerFile.Entry>, n: nat, value: TokenizerFile.Score -> real)
    returns (t: Tokenizer)
    requires |es| == n && |file| >= 12 && TokenizerFile.Parse(file, 12, n) == Some(es)
    ensures Carries(t, es, value)
    ensures forall i | 0 <= i < n && 0 !in es[i].raw :: t.vocab[i] == es[i].raw
  {
    hide TokenizerFile.Parse;
    var loaded := new TokenizerFile.Tokenizer();
    var ok := loaded.Build(file, n, true);
    forall i | 0 <= i < n
      ensures loaded.Loaded(i, es[i])
    {
    }
    var vocab := ReadAll(loaded, es, n);
    var scores := ReadScores(loaded, es, n, value);
    var sorted := BuildIndex(vocab);
    t := Tokenizer(vocab, scores, sorted);
    forall i | 0 <= i < n && 0 !in es[i].raw ensures t.vocab[i] == es[i].raw {
      CTextWhole(es[i].raw);
    }
  }

  /** No string of the table is longer. */
  predicate NoneLonger(table: seq<Option<TokenizerFile.Entry>>, longest: nat) {
    forall i | 0 <= i < |table| && table[i].Some? :: |table[i].value.raw| <= longest
  }

  /** From the exporter's table to the tokens of a text: if every byte of the text has a row of its own,
      the tokens spell the text in the exported strings. The scratch buffer has the size that the longest string
      of the table gives it. */
  method ExportThenEncode(table: seq<Option<TokenizerFile.Entry>>, n: nat, lowest: TokenizerFile.Score,
                          bos: int, eos: int, value: TokenizerFile.Score -> real, text: CString, tokens: array<int>)
    returns (count: nat, ghost t: Tokenizer)
    requires 0 <= bos < 0x1_0000_0000 && 0 <= eos < 0x1_0000_0000 && tokens.Length >= |text|
    requires forall i | 0 <= i < |table| && table[i].Some? :: |table[i].value.raw| < 0x1_0000_0000
    requires forall longest: nat | NoneLonger(table, longest) :: TagsFit(text, ScratchSize(longest))
    modifies tokens
    ensures Carries(t, TokenizerFile.Rows(table, n, lowest), value)
    ensures count <= |text| && tokens[..count] == Encoded(t, text)
    ensures (forall b | b in text :: exists i :: 0 <= i < n && TokenizerFile.Rows(table, n, lowest)[i].raw == [b]) ==>
      Ids(t, tokens[..count]) && Text(t, tokens[..count]) == text
  {
    hide TokenizerFile.Parse, Encoded, Ids, Text, Carries, TokenizerFile.EntriesBytes, TokenizerFile.Rows;
    var file, maxLen := TokenizerFile.Export(table, n, lowest, bos, eos);
    ghost var es := TokenizerFile.Rows(table, n, lowest);
    TokenizerFile.ExportParses(maxLen, bos, eos, es, []);
    assert file + [] == file;
    var loaded := Load(file, es, n, value);
    t := loaded;
    CarriesValid(t, es, value);
    CarriesBounded(t, es, value, maxLen);
    count := Encode(loaded, maxLen, text, tokens, true);
    if forall b | b in text :: exists i :: 0 <= i < n && es[i].raw == [b] {
      ByteRows(t, es, value, text);
      EncodeKeepsMeaning(t, text);
    }
  }

  lemma CarriesBounded(t: Tokenizer, es: seq<TokenizerFile.Entry>, value: TokenizerFile.Score -> real, longest: nat)
    requires Carries(t, es, value) && forall i | 0 <= i < |es| :: |es[i].raw| <= longest
    ensures Bounded(t, longest)
  {
  }

  lemma CarriesValid(t: Tokenizer, es: seq<TokenizerFile.Entry>, value: TokenizerFile.Score -> real)
    requires Carries(t, es, value)
    ensures t.Valid()
  {
  }

  lemma ByteRows(t: Tokenizer, es: seq<TokenizerFile.Entry>, value: TokenizerFile.Score -> real, text: CString)
    requires Carries(t, es, value)
    requires forall b | b in text :: exists i :: 0 <= i < |es| && es[i].raw == [b]
    ensures forall b | b in text :: [b] in t.vocab
  {
    forall b | b in text
      ensures [b] in t.vocab
    {
      var i :| 0 <= i < |es| && es[i].raw == [b];
      assert CText([b]) == [b];
      assert t.vocab[i] == [b];
    }
  }
}
