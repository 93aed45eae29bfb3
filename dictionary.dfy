/**
  The `dictionary` command of `fowler/corpora/bnc/main.py`: word frequencies
  of the whole corpus.

  `bnc_words` counts the tokens of one file, as `(word, tag)` pairs or, with
  `omit_tags`, as bare words. The command reduces all per-file Counters with
  `sum_counters` (default chunk size 7) and emits one row per key, sorted by
  count, largest first.

  Each file's tagged tokens are an input (`contents`); the reader options
  `c5` and `stem` only change which tokens the reader yields, so they are part
  of that input. A file missing from `contents` is one the reader fails on.
*/
module Dictionary {
  import opened Counters
  import opened Reduction
  import opened Corpus
  import opened Tables

  /** The chunk size `dictionary` passes to `sum_counters` (its default). */
  const DictionaryChunkSize: nat := 7

  /** A key of the word-frequency Counter: a `(word, tag)` pair, or a bare word. */
  datatype WordKey = WordTag(word: string, tag: string) | WordOnly(word: string)

  /** One output row: `[w, t, c]` with tags, `[w, c]` without. */
  datatype DictRow =
    | TaggedRow(ngram: string, tag: string, count: int)
    | WordRow(ngram: string, count: int)

  /** What a token is counted as. */
  function KeyOfToken(t: Token, omitTags: bool): WordKey {
    if omitTags then WordOnly(t.word) else WordTag(t.word, t.tag)
  }

  /** The keys a file's tokens are counted as, in order. */
  function TokenKeys(tokens: seq<Token>, omitTags: bool): seq<WordKey> {
    MapSeq(t => KeyOfToken(t, omitTags), tokens)
  }

  /**
    `bnc_words` on one file: `Counter(tagged_words())`, or `Counter(words())`
    with `omit_tags`. Every key is counted exactly as often as it occurs, and
    every key has the shape the mode asks for. A file the reader cannot read
    fails with its id (the error is logged and raised again, not swallowed).
  */
  function BncWords(contents: map<FileId, seq<Token>>, omitTags: bool, f: FileId): (r: Result<Counter<WordKey>>)
    ensures r.Failure? <==> f !in contents
    ensures r.Failure? ==> r.error == ReadError(f)
    ensures r.Success? ==> Positive(r.value)
    ensures r.Success? ==> forall k :: Get(r.value, k) == multiset(TokenKeys(contents[f], omitTags))[k]
    ensures r.Success? ==> forall k :: k in r.value ==> (k.WordOnly? <==> omitTags)
  {
    if f !in contents then Failure(ReadError(f))
    else
      var keys := TokenKeys(contents[f], omitTags);
      var counts := CountOf(keys);
      assert forall k :: k in counts ==> k in multiset(keys) by {
        forall k | k in counts ensures k in multiset(keys) {
          assert Get(counts, k) > 0;
        }
      }
      Success(counts)
  }

  /** The keys of all the files' tokens, file after file. */
  function CorpusKeys(fileids: seq<FileId>, contents: map<FileId, seq<Token>>, omitTags: bool): seq<WordKey>
  {
    if fileids == [] then []
    else
      (if fileids[0] in contents then TokenKeys(contents[fileids[0]], omitTags) else [])
      + CorpusKeys(fileids[1..], contents, omitTags)
  }

  /** The per-file word Counters, in file order (an unreadable file contributes an empty one). */
  ghost function FileWordCounters(fileids: seq<FileId>, contents: map<FileId, seq<Token>>, omitTags: bool): seq<Counter<WordKey>>
  {
    MapSeq(f => CounterOf(BncWords(contents, omitTags, f)), fileids)
  }

  /** Summed over the files, each key is counted as often as it occurs in the whole corpus. */
  lemma {:induction false} CorpusTotals(fileids: seq<FileId>, contents: map<FileId, seq<Token>>, omitTags: bool, k: WordKey)
    ensures Total(FileWordCounters(fileids, contents, omitTags), k) == multiset(CorpusKeys(fileids, contents, omitTags))[k]
  {
    if fileids != [] {
      var files := FileWordCounters(fileids, contents, omitTags);
      assert files[1..] == FileWordCounters(fileids[1..], contents, omitTags);
      CorpusTotals(fileids[1..], contents, omitTags, k);
    }
  }

  /** The output row of one key and its count. */
  function RowOf(k: WordKey, count: int): DictRow {
    match k
    case WordTag(w, t) => TaggedRow(w, t, count)
    case WordOnly(w) => WordRow(w, count)
  }

  /** The key a row was built from. */
  function KeyOfRow(row: DictRow): WordKey {
    match row
    case TaggedRow(w, t, _) => WordTag(w, t)
    case WordRow(w, _) => WordOnly(w)
  }

  /**
    `rows` is the dictionary of the corpus whose token keys are `keys`: one
    row per distinct key, carrying the number of its occurrences, shaped as
    the mode asks, and sorted by count, largest first.
  */
  ghost predicate DictionaryOf(rows: seq<DictRow>, keys: seq<WordKey>, omitTags: bool) {
    && (forall i :: 0 <= i < |rows| ==> KeyOfRow(rows[i]) in multiset(keys))
    && (forall i :: 0 <= i < |rows| ==> rows[i].count == multiset(keys)[KeyOfRow(rows[i])])
    && (forall k :: k in multiset(keys) ==> exists i :: 0 <= i < |rows| && KeyOfRow(rows[i]) == k)
    && (forall i, j :: 0 <= i < j < |rows| ==> KeyOfRow(rows[i]) != KeyOfRow(rows[j]))
    && (forall i, j :: 0 <= i < j < |rows| ==> rows[i].count >= rows[j].count)
    && (forall i :: 0 <= i < |rows| ==> (rows[i].WordRow? <==> omitTags))
  }

  /**
    `([w, t, c] for (w, t), c in words.items())` (or `[w, c]`), sorted on
    `count`, descending.
  */
  method DictionaryRows(words: Counter<WordKey>) returns (rows: seq<DictRow>)
    ensures |rows| == |words|
    ensures forall i :: 0 <= i < |rows| ==> KeyOfRow(rows[i]) in words && rows[i].count == words[KeyOfRow(rows[i])]
    ensures forall k :: k in words ==> exists i :: 0 <= i < |rows| && KeyOfRow(rows[i]) == k
    ensures forall i, j :: 0 <= i < j < |rows| ==> KeyOfRow(rows[i]) != KeyOfRow(rows[j])
    ensures forall i, j :: 0 <= i < j < |rows| ==> rows[i].count >= rows[j].count
  {
    var keys := ItemsByCount(words);
    rows := seq(|keys|, i requires 0 <= i < |keys| => RowOf(keys[i], words[keys[i]]));
    assert forall i :: 0 <= i < |rows| ==> KeyOfRow(rows[i]) == keys[i];
  }

  /**
    The `dictionary` command, up to the table it hands to storage. It fails
    when there are no files (`next` finds no first chunk) and when a file
    cannot be read, with that file's id; otherwise it gives the dictionary of
    the whole corpus.
  */
  method Dictionary(fileids: seq<FileId>, contents: map<FileId, seq<Token>>, omitTags: bool)
    returns (res: Result<seq<DictRow>>)
    ensures res.Failure? <==> |fileids| == 0 || exists i :: 0 <= i < |fileids| && fileids[i] !in contents
    ensures res.Failure? && |fileids| == 0 ==> res.error == NoCounters
    ensures res.Failure? && |fileids| > 0 ==>
      exists i :: 0 <= i < |fileids| && fileids[i] !in contents && res.error == ReadError(fileids[i])
    ensures res.Success? ==> DictionaryOf(res.value, CorpusKeys(fileids, contents, omitTags), omitTags)
  {
    if |fileids| == 0 {
      return Failure(NoCounters);
    }
    var task := f => BncWords(contents, omitTags, f);
    var arrived := ImapUnordered(task, fileids);
    assert |arrived| == |multiset(arrived)| == |fileids|;
    var reduced := SumCounters(arrived, DictionaryChunkSize);
    ghost var files := FileWordCounters(fileids, contents, omitTags);
    FileWordCountersPositive(fileids, contents, omitTags);
    ArrivedResults(task, fileids, files, arrived);
    match reduced {
      case Failure(e) =>
        FirstFailureMember(arrived, reduced);
        var i :| 0 <= i < |fileids| && reduced == task(fileids[i]);
        assert BncWords(contents, omitTags, fileids[i]).Failure?;
        return Failure(e);
      case Success(words) =>
        var rows := DictionaryRows(words);
        CorpusRows(fileids, contents, omitTags, words, rows);
        return Success(rows);
    }
  }

  /** Rows listing, by count, the keys of the reduced corpus Counter form the dictionary of the corpus. */
  lemma CorpusRows(fileids: seq<FileId>, contents: map<FileId, seq<Token>>, omitTags: bool,
                   words: Counter<WordKey>, rows: seq<DictRow>)
    requires words == TotalCounter(FileWordCounters(fileids, contents, omitTags))
    requires forall i :: 0 <= i < |rows| ==> KeyOfRow(rows[i]) in words && rows[i].count == words[KeyOfRow(rows[i])]
    requires forall k :: k in words ==> exists i :: 0 <= i < |rows| && KeyOfRow(rows[i]) == k
    requires forall i, j :: 0 <= i < j < |rows| ==> KeyOfRow(rows[i]) != KeyOfRow(rows[j])
    requires forall i, j :: 0 <= i < j < |rows| ==> rows[i].count >= rows[j].count
    ensures DictionaryOf(rows, CorpusKeys(fileids, contents, omitTags), omitTags)
  {
    var keys := CorpusKeys(fileids, contents, omitTags);
    forall k ensures Get(words, k) == multiset(keys)[k] {
      CorpusWordCounts(fileids, contents, omitTags, k);
    }
    forall k: WordKey | k in multiset(keys) ensures k.WordOnly? <==> omitTags {
      CorpusKeyShape(fileids, contents, omitTags, k);
    }
    DictionaryRowsMeaning(keys, omitTags, words, rows);
  }

  /** Reduced over all files, the word Counter counts each key as often as it occurs in the corpus. */
  lemma CorpusWordCounts(fileids: seq<FileId>, contents: map<FileId, seq<Token>>, omitTags: bool, k: WordKey)
    ensures Get(TotalCounter(FileWordCounters(fileids, contents, omitTags)), k)
         == multiset(CorpusKeys(fileids, contents, omitTags))[k]
  {
    CorpusTotals(fileids, contents, omitTags, k);
    FileWordCountersPositive(fileids, contents, omitTags);
    GetTotalCounter(FileWordCounters(fileids, contents, omitTags), k);
  }

  /** Rows listing, by count, the keys of a Counter that counts `keys` form the dictionary of `keys`. */
  lemma DictionaryRowsMeaning(keys: seq<WordKey>, omitTags: bool, words: Counter<WordKey>, rows: seq<DictRow>)
    requires Positive(words) && forall k :: Get(words, k) == multiset(keys)[k]
    requires forall k :: k in multiset(keys) ==> (k.WordOnly? <==> omitTags)
    requires forall i :: 0 <= i < |rows| ==> KeyOfRow(rows[i]) in words && rows[i].count == words[KeyOfRow(rows[i])]
    requires forall k :: k in words ==> exists i :: 0 <= i < |rows| && KeyOfRow(rows[i]) == k
    requires forall i, j :: 0 <= i < j < |rows| ==> KeyOfRow(rows[i]) != KeyOfRow(rows[j])
    requires forall i, j :: 0 <= i < j < |rows| ==> rows[i].count >= rows[j].count
    ensures DictionaryOf(rows, keys, omitTags)
  {
    forall i | 0 <= i < |rows| ensures KeyOfRow(rows[i]) in multiset(keys) {
      assert Get(words, KeyOfRow(rows[i])) > 0;
    }
    forall k | k in multiset(keys) ensures k in words {
      assert Get(words, k) > 0;
    }
  }

  /** Every per-file word Counter is positive. */
  lemma FileWordCountersPositive(fileids: seq<FileId>, contents: map<FileId, seq<Token>>, omitTags: bool)
    ensures AllPositive(FileWordCounters(fileids, contents, omitTags))
  {
  }

  /** Every key of the corpus has the shape the mode asks for. */
  lemma {:induction false} CorpusKeyShape(fileids: seq<FileId>, contents: map<FileId, seq<Token>>, omitTags: bool, k: WordKey)
    requires k in multiset(CorpusKeys(fileids, contents, omitTags))
    ensures k.WordOnly? <==> omitTags
  {
    if fileids != [] {
      var f := fileids[0];
      var head := if f in contents then TokenKeys(contents[f], omitTags) else [];
      if k in multiset(head) {
        var i :| 0 <= i < |head| && head[i] == k;
      } else {
        CorpusKeyShape(fileids[1..], contents, omitTags, k);
      }
    }
  }
}
