/** The vocabulary file: written by export_tokenizer of tools/export_qwen3.py, read by build_tokenizer of
    kernel/src/qwen.c. A score is carried as the four bytes of its float. */
module TokenizerFile {
  import opened Basics
  import opened ByteFormat

  type Score = s: seq<Byte> | |s| == 4 witness [0, 0, 0, 0]

  datatype Entry = Entry(score: Score, raw: seq<Byte>)

  /** The bytes of one token. */
  function EntryBytes(e: Entry): seq<Byte>
    requires |e.raw| < 0x1_0000_0000
  {
    e.score + Le32(|e.raw|) + e.raw
  }

  predicate Fits(es: seq<Entry>) { forall i | 0 <= i < |es| :: |es[i].raw| < 0x1_0000_0000 }

  function EntriesBytes(es: seq<Entry>): seq<Byte>
    requires Fits(es)
  {
    if es == [] then [] else EntryBytes(es[0]) + EntriesBytes(es[1..])
  }

  lemma {:induction false} EntriesSnoc(es: seq<Entry>, e: Entry)
    requires Fits(es) && |e.raw| < 0x1_0000_0000
    ensures Fits(es + [e]) && EntriesBytes(es + [e]) == EntriesBytes(es) + EntryBytes(e)
  {
    if es == [] {
      assert es + [e] == [e] && [e][1..] == [];
      assert EntryBytes(e) + [] == EntryBytes(e) == [] + EntryBytes(e);
    } else {
      assert (es + [e])[1..] == es[1..] + [e];
      EntriesSnoc(es[1..], e);
      assert EntryBytes(es[0]) + (EntriesBytes(es[1..]) + EntryBytes(e))
          == (EntryBytes(es[0]) + EntriesBytes(es[1..])) + EntryBytes(e);
    }
  }

  // ---------- the writer ----------

  /** The rows written for ids below `n`: an id without a token gets the empty string and the lowest score. */
  function Rows(table: seq<Option<Entry>>, n: nat, lowest: Score): (es: seq<Entry>)
    ensures |es| == n
    ensures forall i | 0 <= i < n :: es[i] == Row(table, i, lowest)
  {
    if n == 0 then [] else Rows(table, n - 1, lowest) + [Row(table, n - 1, lowest)]
  }

  /** An id that is in the table has that entry's score and string; any other has the lowest score and no
      string. */
  lemma RowCarries(table: seq<Option<Entry>>, n: nat, lowest: Score, i: nat)
    requires i < n
    ensures var e := Rows(table, n, lowest)[i];
      if i < |table| && table[i] != None then e.score == table[i].value.score && e.raw == table[i].value.raw
      else e.score == lowest && e.raw == []
  {
  }

  /** A row of the file: four bytes of score, the length of the string in four bytes, low byte first, the
      string. */
  lemma EntryLayout(e: Entry)
    requires |e.raw| < 0x1_0000_0000
    ensures var b := EntryBytes(e);
      && |b| == 8 + |e.raw| && b[..4] == e.score && b[8..] == e.raw
      && b[4] as int + 256 * b[5] as int + 65536 * b[6] as int + 16777216 * b[7] as int == |e.raw|
  {
    WordLe32(|e.raw|);
  }

  function Row(table: seq<Option<Entry>>, i: nat, lowest: Score): Entry {
    if i < |table| && table[i].Some? then table[i].value else Entry(lowest, [])
  }

  /** export_tokenizer. The table gives the token of each id, vocabulary and special tokens together;
      the longest token is sought in all of it, the rows stop at the configured vocabulary size. */
  method Export(table: seq<Option<Entry>>, n: nat, lowest: Score, bos: Word32, eos: Word32)
    returns (file: seq<Byte>, maxLen: Word32)
    requires forall i | 0 <= i < |table| && table[i].Some? :: |table[i].value.raw| < 0x1_0000_0000
    ensures Fits(Rows(table, n, lowest))
    ensures file == Le32(maxLen) + Le32(bos) + Le32(eos) + EntriesBytes(Rows(table, n, lowest))
    ensures forall i | 0 <= i < n :: |Rows(table, n, lowest)[i].raw| <= maxLen
    ensures forall i | 0 <= i < |table| && table[i].Some? :: |table[i].value.raw| <= maxLen
    ensures maxLen > 0 ==> exists i :: 0 <= i < |table| && table[i].Some? && |table[i].value.raw| == maxLen
  {
    hide EntryBytes, EntriesBytes, Le32;
    maxLen := 0;
    for k := 0 to |table|
      invariant forall i | 0 <= i < k && table[i].Some? :: |table[i].value.raw| <= maxLen
      invariant maxLen > 0 ==> exists i :: 0 <= i < k && table[i].Some? && |table[i].value.raw| == maxLen
    {
      if table[k].Some? && |table[k].value.raw| > maxLen {
        maxLen := |table[k].value.raw|;
      }
    }
    file := Le32(maxLen) + Le32(bos) + Le32(eos);
    ghost var head := file;
    assert EntriesBytes(Rows(table, 0, lowest)) == [] by { NoEntries(); }
    for i := 0 to n
      invariant Fits(Rows(table, i, lowest))
      invariant file == head + EntriesBytes(Rows(table, i, lowest))
    {
      var e := Row(table, i, lowest);
      EntriesSnoc(Rows(table, i, lowest), e);
      EntryIs(e);
      assert head + EntriesBytes(Rows(table, i, lowest)) + e.score + Le32(|e.raw|) + e.raw
          == head + (EntriesBytes(Rows(table, i, lowest)) + EntryBytes(e));
      file := file + e.score + Le32(|e.raw|) + e.raw;
    }
  }

  lemma NoEntries()
    ensures EntriesBytes([]) == []
  {
  }

  lemma EntryIs(e: Entry)
    requires |e.raw| < 0x1_0000_0000
    ensures EntryBytes(e) == e.score + Le32(|e.raw|) + e.raw
  {
  }

  // ---------- the reader ----------

  /** The first entry at `p`, where the bytes for it are there. */
  function ParseOne(f: seq<Byte>, p: nat): (r: Option<Entry>)
    ensures r.Some? ==> p + 8 + |r.value.raw| <= |f| && |r.value.raw| < 0x1_0000_0000
  {
    if p + 8 > |f| then None
    else
      var len := Word(f, p + 4);
      if p + 8 + len > |f| then None else Some(Entry(f[p..p + 4], f[p + 8..p + 8 + len]))
  }

  function Parse(f: seq<Byte>, p: nat, n: nat): (r: Option<seq<Entry>>)
    ensures r.Some? ==> |r.value| == n
    decreases n
  {
    if n == 0 then Some([])
    else
      match ParseOne(f, p)
      case None => None
      case Some(e) =>
        match Parse(f, p + 8 + |e.raw|, n - 1)
        case None => None
        case Some(es) => Some([e] + es)
  }

  lemma ParseOneExact(f: seq<Byte>, p: nat, e: Entry)
    requires |e.raw| < 0x1_0000_0000
    ensures ParseOne(f, p) == Some(e) <==> Holds(f, p, EntryBytes(e))
  {
    hide Holds, Word, Le32;
    HoldsSplit(f, p, e.score + Le32(|e.raw|), e.raw);
    HoldsSplit(f, p, e.score, Le32(|e.raw|));
    if Holds(f, p, EntryBytes(e)) {
      HoldsWord(f, p + 4, |e.raw|);
      HoldsIs(f, p, e.score);
      HoldsIs(f, p + 8, e.raw);
    }
    if ParseOne(f, p) == Some(e) {
      HoldsIs(f, p, e.score);
      HoldsIs(f, p + 8, e.raw);
      WordHeld(f, p + 4);
    }
  }

  lemma HoldsIs(f: seq<Byte>, p: nat, b: seq<Byte>)
    ensures Holds(f, p, b) <==> p + |b| <= |f| && f[p..p + |b|] == b
  {
  }

  lemma WordHeld(f: seq<Byte>, p: nat)
    requires p + 4 <= |f|
    ensures Holds(f, p, Le32(Word(f, p)))
  {
    BytesOfWord(f[p], f[p + 1], f[p + 2], f[p + 3]);
    assert f[p..p + 4] == [f[p], f[p + 1], f[p + 2], f[p + 3]];
  }

  /** The reader accepts exactly the files that start with the encoding of `n` tokens, and returns
      those tokens; whatever follows them is ignored. */
  lemma {:induction false} ParseExact(f: seq<Byte>, p: nat, es: seq<Entry>)
    requires p <= |f|
    ensures Parse(f, p, |es|) == Some(es) <==> Fits(es) && Holds(f, p, EntriesBytes(es))
    decreases |es|
  {
    hide Holds, Parse, ParseOne, Fits, EntryBytes, EntriesBytes;
    FitsSplit(es);
    if es == [] {
      HoldsIs(f, p, []);
      ParseNone(f, p);
      NoEntries();
    } else {
      ParseOneStep(f, p, es);
      if Fits(es) {
        EntriesCons(es);
        HoldsSplit(f, p, EntryBytes(es[0]), EntriesBytes(es[1..]));
        ParseOneExact(f, p, es[0]);
        EntryLength(es[0]);
      }
      if ParseOne(f, p) == Some(es[0]) {
        ParseExact(f, p + 8 + |es[0].raw|, es[1..]);
      }
    }
  }

  lemma EntriesCons(es: seq<Entry>)
    requires Fits(es) && es != []
    ensures |es[0].raw| < 0x1_0000_0000 && Fits(es[1..])
    ensures EntriesBytes(es) == EntryBytes(es[0]) + EntriesBytes(es[1..])
  {
  }

  lemma FitsSplit(es: seq<Entry>)
    ensures es == [] ==> Fits(es)
    ensures es != [] ==> (Fits(es) <==> |es[0].raw| < 0x1_0000_0000 && Fits(es[1..]))
  {
    if es != [] && |es[0].raw| < 0x1_0000_0000 && Fits(es[1..]) {
      forall i | 0 <= i < |es| ensures |es[i].raw| < 0x1_0000_0000 {
        assert i > 0 ==> es[i] == es[1..][i - 1];
      }
    }
  }

  lemma EntryLength(e: Entry)
    requires |e.raw| < 0x1_0000_0000
    ensures |EntryBytes(e)| == 8 + |e.raw|
  {
  }

  lemma ParseOneStep(f: seq<Byte>, p: nat, es: seq<Entry>)
    requires es != []
    ensures Parse(f, p, |es|) == Some(es) <==>
            ParseOne(f, p) == Some(es[0]) && Parse(f, p + 8 + |es[0].raw|, |es| - 1) == Some(es[1..])
  {
    hide ParseOne;
    assert es == [es[0]] + es[1..];
    var r := ParseOne(f, p);
    if r.Some? {
      var t := Parse(f, p + 8 + |r.value.raw|, |es| - 1);
      if t.Some? {
        assert ([r.value] + t.value)[0] == r.value && ([r.value] + t.value)[1..] == t.value;
      }
    }
  }

  /** Reading what the writer wrote gives the three header words and every row, even with more bytes after. */
  lemma ExportParses(maxLen: Word32, bos: Word32, eos: Word32, es: seq<Entry>, more: seq<Byte>)
    requires Fits(es)
    ensures var f := Le32(maxLen) + Le32(bos) + Le32(eos) + EntriesBytes(es) + more;
            |f| >= 12 && Word(f, 0) == maxLen && Word(f, 4) == bos && Word(f, 8) == eos
            && Parse(f, 12, |es|) == Some(es)
  {
    hide Holds, Le32, Word, EntriesBytes, Parse;
    var head := Le32(maxLen) + Le32(bos) + Le32(eos);
    var f := head + EntriesBytes(es) + more;
    HoldsIs(f, 0, f);
    assert f[0..|f|] == f;
    HoldsSplit(f, 0, head + EntriesBytes(es), more);
    HoldsSplit(f, 0, head, EntriesBytes(es));
    HoldsSplit(f, 0, Le32(maxLen) + Le32(bos), Le32(eos));
    HoldsSplit(f, 0, Le32(maxLen), Le32(bos));
    HoldsWord(f, 0, maxLen);
    HoldsWord(f, 4, bos);
    HoldsWord(f, 8, eos);
    ParseExact(f, 12, es);
  }

  // ---------- the copies in memory ----------

  /** A string as C code sees it: up to the first NUL. */
  function UpToNul(s: seq<Byte>): seq<Byte> {
    if s == [] || s[0] == 0 then [] else [s[0]] + UpToNul(s[1..])
  }

  /** A NUL-terminated copy reads back as the token exactly when the token has no NUL byte of its own. */
  lemma {:induction false} CopyReads(raw: seq<Byte>, rest: seq<Byte>)
    ensures UpToNul(raw + [0] + rest) == UpToNul(raw)
    ensures UpToNul(raw) == raw <==> 0 !in raw
  {
    if raw != [] {
      assert raw == [raw[0]] + raw[1..];
      assert (raw + [0] + rest)[1..] == raw[1..] + [0] + rest;
      CopyReads(raw[1..], rest);
    }
  }

  /** The token for byte 0 reads back as the empty string. */
  lemma NulTokenReadsEmpty()
    ensures UpToNul([0] + [0]) == [] && UpToNul([0]) != [0]
  {
  }

  /** The entries `got` followed by whatever parsing the rest gives. */
  function Onto(got: seq<Entry>, r: Option<seq<Entry>>): Option<seq<Entry>> {
    match r
    case None => None
    case Some(es) => Some(got + es)
  }

  lemma OntoNext(f: seq<Byte>, p: nat, n: nat, got: seq<Entry>)
    requires n > 0
    ensures var r := ParseOne(f, p);
            Onto(got, Parse(f, p, n)) ==
            if r.None? then None else Onto(got + [r.value], Parse(f, p + 8 + |r.value.raw|, n - 1))
  {
    hide ParseOne;
    var r := ParseOne(f, p);
    if r.Some? {
      var t := Parse(f, p + 8 + |r.value.raw|, n - 1);
      if t.Some? {
        assert got + ([r.value] + t.value) == got + [r.value] + t.value;
      }
    }
  }

  /** A NUL-terminated copy of `raw` at offset `v`. */
  ghost predicate CopyAt(arena: seq<Byte>, v: nat, raw: seq<Byte>) {
    v + |raw| < |arena| && arena[v..v + |raw|] == raw && arena[v + |raw|] == 0
  }

  lemma CopyKept(a: seq<Byte>, b: seq<Byte>, used: nat, v: nat, raw: seq<Byte>)
    requires CopyAt(a, v, raw) && v + |raw| < used <= |a| == |b| && b[..used] == a[..used]
    ensures CopyAt(b, v, raw)
  {
    assert b[v..v + |raw|] == b[..used][v..v + |raw|] == a[v..v + |raw|];
    assert b[v + |raw|] == b[..used][v + |raw|];
  }

  class Tokenizer {
    var vocab: array<nat>
    var scores: array<Score>
    var arena: array<Byte>
    var maxLen: Word32
    var bos: Word32
    var eos: Word32

    constructor ()
    {
      vocab, scores, arena := new nat[0], new Score[0], new Byte[0];
      maxLen, bos, eos := 0, 0, 0;
    }

    /** Slot `i` holds the score of `e` and points at a NUL-terminated copy of its string. */
    ghost predicate Loaded(i: nat, e: Entry)
      reads this, vocab, scores, arena
    {
      && i < vocab.Length && i < scores.Length && scores[i] == e.score
      && CopyAt(arena[..], vocab[i], e.raw)
    }

    /** build_tokenizer, up to the sort; `granted` says whether the allocations succeed. The copies go
        into an arena of the file's own size and never leave it. */
    method Build(data: seq<Byte>, vocabSize: nat, granted: bool) returns (ok: bool)
      modifies this
      ensures ok <==> |data| >= 12 && granted && Parse(data, 12, vocabSize).Some?
      ensures ok ==> maxLen == Word(data, 0) && bos == Word(data, 4) && eos == Word(data, 8)
      ensures ok ==> arena.Length == |data|
      ensures ok ==> forall i | 0 <= i < vocabSize :: Loaded(i, Parse(data, 12, vocabSize).value[i])
    {
      hide Word, Parse, ParseOne;
      if |data| < 12 {
        return false;
      }
      maxLen, bos, eos := Word(data, 0), Word(data, 4), Word(data, 8);
      if !granted {
        return false;
      }
      vocab := new nat[vocabSize];
      scores := new Score[vocabSize];
      arena := new Byte[|data|];
      ok := CopyAll(data);
    }

    method CopyAll(data: seq<Byte>) returns (ok: bool)
      requires |data| >= 12 && vocab.Length == scores.Length && arena.Length == |data|
      modifies vocab, scores, arena
      ensures ok <==> Parse(data, 12, vocab.Length).Some?
      ensures ok ==> forall i | 0 <= i < vocab.Length :: Loaded(i, Parse(data, 12, vocab.Length).value[i])
    {
      hide Word, Parse, ParseOne, Loaded;
      var p: nat, used: nat, i: nat := 12, 0, 0;
      ghost var got: seq<Entry> := [];
      OntoNone(Parse(data, 12, vocab.Length));
      while i < vocab.Length
        invariant 0 <= i <= vocab.Length && used <= p <= |data| && |got| == i
        invariant Onto(got, Parse(data, p, vocab.Length - i)) == Parse(data, 12, vocab.Length)
        invariant forall k | 0 <= k < i :: Loaded(k, got[k])
        invariant forall k | 0 <= k < i :: End(k, got[k]) <= used
      {
        OntoNext(data, p, vocab.Length - i, got);
        ParseOneIs(data, p);
        if p + 8 > |data| {
          return false;
        }
        var score: Score := data[p..p + 4];
        var len := Word(data, p + 4);
        if p + 8 + len > |data| {
          return false;
        }
        var e := Entry(score, data[p + 8..p + 8 + len]);
        Copy(i, used, e, got);
        used, p, i := used + len + 1, p + 8 + len, i + 1;
        got := got + [e];
      }
      ParseNone(data, p);
      ok := true;
    }

    ghost function End(k: nat, e: Entry): nat
      reads this, vocab
    {
      if k < vocab.Length then vocab[k] + |e.raw| + 1 else 0
    }

    /** Fills slot `i` from the free end of the arena. */
    method Copy(i: nat, used: nat, e: Entry, ghost got: seq<Entry>)
      requires i < vocab.Length == scores.Length && used + |e.raw| < arena.Length && |got| == i
      requires forall k | 0 <= k < i :: Loaded(k, got[k]) && End(k, got[k]) <= used
      modifies vocab, scores, arena
      ensures Loaded(i, e) && End(i, e) == used + |e.raw| + 1
      ensures forall k | 0 <= k < i :: Loaded(k, got[k]) && End(k, got[k]) <= used
    {
      hide CopyAt;
      ghost var before := arena[..];
      scores[i], vocab[i] := e.score, used;
      PutString(e.raw, used);
      forall k | 0 <= k < i ensures Loaded(k, got[k]) && End(k, got[k]) <= used {
        assert old(Loaded(k, got[k]) && End(k, got[k]) <= used);
        CopyKept(before, arena[..], used, vocab[k], got[k].raw);
      }
    }

    method PutString(raw: seq<Byte>, used: nat)
      requires used + |raw| < arena.Length
      modifies arena
      ensures CopyAt(arena[..], used, raw) && arena[..used] == old(arena[..used])
    {
      forall k | 0 <= k < |raw| { arena[used + k] := raw[k]; }
      arena[used + |raw|] := 0;
    }
  }

  lemma OntoNone(r: Option<seq<Entry>>)
    ensures Onto([], r) == r
  {
    if r.Some? {
      assert [] + r.value == r.value;
    }
  }

  lemma ParseNone(f: seq<Byte>, p: nat)
    ensures Parse(f, p, 0) == Some([])
  {
  }

  lemma ParseOneIs(f: seq<Byte>, p: nat)
    ensures ParseOne(f, p).None? <==> p + 8 > |f| || p + 8 + Word(f, p + 4) > |f|
    ensures ParseOne(f, p).Some? ==>
      ParseOne(f, p).value == Entry(f[p..p + 4], f[p + 8..p + 8 + Word(f, p + 4)])
  {
  }
}
