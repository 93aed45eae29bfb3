/**
  The `cooccurrence` command of `fowler/corpora/bnc/main.py`.

  `bnc_cooccurrence` takes the `(target, context, count)` triples counted in
  one corpus file and keeps those whose target is in the target vocabulary and
  whose context is in the context vocabulary, rewritten to the vocabularies'
  integer ids. The driver walks the file ids in batches of 100, reduces each
  batch's per-file counters with `sum_counters`, adds the result into a running
  Counter, and finally emits one `(id_target, id_context, count)` row per key.

  The windowed counting of a file is not part of this model: each file's
  triples are an input (`contents`), and a file missing from `contents` is one
  the corpus reader fails on.
*/
module Cooccurrence {
  import opened Counters
  import opened Chunking
  import opened Reduction
  import opened Corpus
  import opened Tables

  /** A vocabulary id, the `id` column of a vocabulary frame. */
  type Id = int

  /** The key of the co-occurrence Counter: `(target id, context id)`. */
  type Pair = (Id, Id)

  /** One `(target, context, count)` triple of the per-file counting; targets are `(word, tag)` tokens. */
  datatype Triple<C> = Triple(target: Token, context: C, count: int)

  /**
    The target vocabulary. Its index holds either plain words or
    `(word, tag)` tuples; which one decides how targets are looked up.
  */
  datatype TargetIndex =
    | WordIndex(words: map<string, Id>)
    | TaggedIndex(tokens: map<Token, Id>)

  /** The index has no first entry, so `targets.index[0]` raises. */
  predicate IndexEmpty(targets: TargetIndex) {
    match targets
    case WordIndex(ids) => |ids| == 0
    case TaggedIndex(ids) => |ids| == 0
  }

  /** `t in targets.index`, after the tag is dropped from `t` when the index is not tuple-keyed. */
  predicate InTargets(targets: TargetIndex, t: Token) {
    match targets
    case WordIndex(ids) => t.word in ids
    case TaggedIndex(ids) => t in ids
  }

  /** `targets.loc[t].id`, with the same lookup key as `InTargets`. */
  function TargetId(targets: TargetIndex, t: Token): Id
    requires InTargets(targets, t)
  {
    match targets
    case WordIndex(ids) => ids[t.word]
    case TaggedIndex(ids) => ids[t]
  }

  /** The triple survives the vocabulary filter. */
  predicate Kept<C(==)>(tr: Triple<C>, targets: TargetIndex, context: map<C, Id>) {
    InTargets(targets, tr.target) && tr.context in context
  }

  /** The Counter key a kept triple is rewritten to. */
  function KeyOf<C(==)>(tr: Triple<C>, targets: TargetIndex, context: map<C, Id>): Pair
    requires Kept(tr, targets, context)
  {
    (TargetId(targets, tr.target), context[tr.context])
  }

  /** Triple `i` is the last kept triple of `triples` that is rewritten to `k`. */
  ghost predicate LastFor<C>(triples: seq<Triple<C>>, targets: TargetIndex, context: map<C, Id>, i: int, k: Pair) {
    && 0 <= i < |triples|
    && Kept(triples[i], targets, context)
    && KeyOf(triples[i], targets, context) == k
    && forall j :: i < j < |triples| && Kept(triples[j], targets, context) ==> KeyOf(triples[j], targets, context) != k
  }

  /** `r` holds exactly the keys of the kept triples, each with the count of the last triple rewritten to it. */
  ghost predicate LastWins<C>(r: Counter<Pair>, triples: seq<Triple<C>>, targets: TargetIndex, context: map<C, Id>) {
    && (forall k :: k in r <==>
         exists i :: 0 <= i < |triples| && Kept(triples[i], targets, context) && KeyOf(triples[i], targets, context) == k)
    && (forall k :: k in r ==> exists i :: LastFor(triples, targets, context, i, k) && r[k] == triples[i].count)
  }

  /**
    `Counter(dict(((targets.loc[t].id, context.loc[c].id), n) for t, c, n in
    triples if t in targets.index and c in context.index))`: the keys are
    exactly the rewritten kept triples, and each key carries the count of the
    LAST kept triple rewritten to it (a later entry of `dict(...)` replaces an
    earlier one; counts are not added).
  */
  function CountTable<C(==)>(triples: seq<Triple<C>>, targets: TargetIndex, context: map<C, Id>): (r: Counter<Pair>)
    ensures forall k :: k in r <==>
      exists i :: 0 <= i < |triples| && Kept(triples[i], targets, context) && KeyOf(triples[i], targets, context) == k
    ensures forall k :: k in r ==> exists i :: LastFor(triples, targets, context, i, k) && r[k] == triples[i].count
  {
    if triples == [] then map[]
    else
      var n := |triples| - 1;
      var prefix := CountTable(triples[..n], targets, context);
      var tr := triples[n];
      var r := if Kept(tr, targets, context) then prefix[KeyOf(tr, targets, context) := tr.count] else prefix;
      CountTableStep(triples, targets, context, prefix, r);
      r
  }

  /** One more triple: a kept one sets its key to its own count, a dropped one changes nothing. */
  lemma CountTableStep<C>(triples: seq<Triple<C>>, targets: TargetIndex, context: map<C, Id>, prefix: Counter<Pair>, r: Counter<Pair>)
    requires triples != []
    requires LastWins(prefix, triples[..|triples| - 1], targets, context)
    requires var tr := triples[|triples| - 1];
      r == if Kept(tr, targets, context) then prefix[KeyOf(tr, targets, context) := tr.count] else prefix
    ensures LastWins(r, triples, targets, context)
  {
    var n := |triples| - 1;
    var p, tr := triples[..n], triples[n];
    assert forall i :: 0 <= i < n ==> p[i] == triples[i];
    forall k | k in r
      ensures exists i :: 0 <= i < |triples| && Kept(triples[i], targets, context) && KeyOf(triples[i], targets, context) == k
      ensures exists i :: LastFor(triples, targets, context, i, k) && r[k] == triples[i].count
    {
      if Kept(tr, targets, context) && k == KeyOf(tr, targets, context) {
        assert LastFor(triples, targets, context, n, k);
      } else {
        var i :| LastFor(p, targets, context, i, k) && prefix[k] == p[i].count;
        assert LastFor(triples, targets, context, i, k);
      }
    }
    forall i | 0 <= i < |triples| && Kept(triples[i], targets, context)
      ensures KeyOf(triples[i], targets, context) in r
    {
      if i < n {
        assert p[i] == triples[i];
      }
    }
  }

  /** Every count of the per-file triples is positive. */
  ghost predicate PositiveCounts<C>(triples: seq<Triple<C>>) {
    forall i :: 0 <= i < |triples| ==> triples[i].count > 0
  }

  /**
    `bnc_cooccurrence` on the triples of one file. An empty target index fails
    on `targets.index[0]`; otherwise the result is the filtered, rewritten
    Counter, which is positive when every triple's count is.
  */
  function BncCooccurrence<C(==)>(triples: seq<Triple<C>>, targets: TargetIndex, context: map<C, Id>): (r: Result<Counter<Pair>>)
    ensures r.Failure? <==> IndexEmpty(targets)
    ensures r.Failure? ==> r.error == EmptyTargetIndex
    ensures r.Success? ==> forall k :: k in r.value <==>
      exists i :: 0 <= i < |triples| && Kept(triples[i], targets, context) && KeyOf(triples[i], targets, context) == k
    ensures r.Success? ==> forall k :: k in r.value ==>
      exists i :: LastFor(triples, targets, context, i, k) && r.value[k] == triples[i].count
    ensures r.Success? && PositiveCounts(triples) ==> Positive(r.value)
  {
    if IndexEmpty(targets) then Failure(EmptyTargetIndex)
    else
      var table := CountTable(triples, targets, context);
      assert PositiveCounts(triples) ==> Positive(table) by {
        if PositiveCounts(triples) {
          forall k | k in table ensures table[k] > 0 {
            var i :| LastFor(triples, targets, context, i, k) && table[k] == triples[i].count;
          }
        }
      }
      Success(table)
  }

  /** Every target and context id of a result is a vocabulary id. */
  lemma KeysAreVocabularyIds<C>(triples: seq<Triple<C>>, targets: TargetIndex, context: map<C, Id>, k: Pair)
    requires BncCooccurrence(triples, targets, context).Success?
    requires k in BncCooccurrence(triples, targets, context).value
    ensures k.1 in context.Values
    ensures targets.WordIndex? ==> k.0 in targets.words.Values
    ensures targets.TaggedIndex? ==> k.0 in targets.tokens.Values
  {
    var i :| 0 <= i < |triples| && Kept(triples[i], targets, context) && KeyOf(triples[i], targets, context) == k;
    assert context[triples[i].context] in context.Values;
  }

  /** The same triples with every target re-tagged by `tags`, words, contexts and counts unchanged. */
  function Retagged<C>(triples: seq<Triple<C>>, tags: seq<string>): (r: seq<Triple<C>>)
    requires |tags| == |triples|
    ensures |r| == |triples|
  {
    seq(|triples|, i requires 0 <= i < |triples| =>
      Triple(Token(triples[i].target.word, tags[i]), triples[i].context, triples[i].count))
  }

  /**
    Against a word-keyed target index the tag of a target plays no part:
    re-tagging the targets leaves the result unchanged.
  */
  lemma {:induction false} WordIndexIgnoresTags<C>(triples: seq<Triple<C>>, tags: seq<string>, words: map<string, Id>, context: map<C, Id>)
    requires |tags| == |triples|
    ensures CountTable(Retagged(triples, tags), WordIndex(words), context) == CountTable(triples, WordIndex(words), context)
  {
    if triples != [] {
      var n := |triples| - 1;
      assert Retagged(triples, tags)[..n] == Retagged(triples[..n], tags[..n]);
      WordIndexIgnoresTags(triples[..n], tags[..n], words, context);
    }
  }

  /**
    One pool task: read the file and run `bnc_cooccurrence` on it. A file the
    reader cannot read fails with its id.
  */
  function ProcessFile<C(==)>(contents: map<FileId, seq<Triple<C>>>, targets: TargetIndex, context: map<C, Id>, f: FileId): (r: Result<Counter<Pair>>)
    ensures r.Failure? <==> f !in contents || IndexEmpty(targets)
    ensures f !in contents ==> r == Failure(ReadError(f))
    ensures f in contents && IndexEmpty(targets) ==> r == Failure(EmptyTargetIndex)
    ensures r.Success? && PositiveCounts(contents[f]) ==> Positive(r.value)
  {
    if f !in contents then Failure(ReadError(f)) else BncCooccurrence(contents[f], targets, context)
  }

  /** The per-file Counters of `fileids`, in order (an unreadable file contributes an empty one). */
  ghost function FileCounters<C>(fileids: seq<FileId>, contents: map<FileId, seq<Triple<C>>>, targets: TargetIndex, context: map<C, Id>): seq<Counter<Pair>>
  {
    MapSeq(f => CounterOf(ProcessFile(contents, targets, context, f)), fileids)
  }

  ghost predicate AllCountsPositive<C>(contents: map<FileId, seq<Triple<C>>>) {
    forall f :: f in contents ==> PositiveCounts(contents[f])
  }

  /** Positive triple counts give positive per-file Counters. */
  lemma FileCountersPositive<C>(fileids: seq<FileId>, contents: map<FileId, seq<Triple<C>>>, targets: TargetIndex, context: map<C, Id>)
    requires AllCountsPositive(contents)
    ensures AllPositive(FileCounters(fileids, contents, targets, context))
  {
    forall i | 0 <= i < |fileids| ensures Positive(FileCounters(fileids, contents, targets, context)[i]) {
      var f := fileids[i];
      if f in contents {
        assert PositiveCounts(contents[f]);
      }
    }
  }

  /** One output row `[t, c, n]`. */
  datatype Row = Row(target: Id, context: Id, count: int)

  /** `rows` holds exactly one row per key of `records`, carrying that key's count. */
  ghost predicate RowsOf(rows: seq<Row>, records: Counter<Pair>) {
    && |rows| == |records|
    && (forall i :: 0 <= i < |rows| ==>
         (rows[i].target, rows[i].context) in records && records[(rows[i].target, rows[i].context)] == rows[i].count)
    && (forall k :: k in records ==> exists i :: 0 <= i < |rows| && (rows[i].target, rows[i].context) == k)
    && (forall i, j :: 0 <= i < j < |rows| ==> (rows[i].target, rows[i].context) != (rows[j].target, rows[j].context))
  }

  /** `([t, c, n] for (t, c), n in records.items())`. */
  method CooccurrenceRows(records: Counter<Pair>) returns (rows: seq<Row>)
    ensures RowsOf(rows, records)
  {
    var keys := Items(records);
    rows := seq(|keys|, i requires 0 <= i < |keys| => Row(keys[i].0, keys[i].1, records[keys[i]]));
    assert forall i :: 0 <= i < |rows| ==> (rows[i].target, rows[i].context) == keys[i];
  }

  /**
    One batch of the driver: the per-file tasks go to the pool, and their
    results, in the order they arrive, are reduced with `sum_counters`. A
    failure is always that of one of its files. With a chunk size of at least
    2 the batch fails exactly when one of its files fails, and otherwise (over
    positive counts) gives the per-key sum of its files' Counters. With a chunk
    size of 1, or a single file, it is the result of whichever file's task
    arrived first.
  */
  method ProcessBatch<C(==)>(batch: seq<FileId>, contents: map<FileId, seq<Triple<C>>>,
                             targets: TargetIndex, context: map<C, Id>, chunkSize: nat)
    returns (r: Result<Counter<Pair>>)
    requires |batch| >= 1 && chunkSize >= 1
    ensures chunkSize >= 2 ==>
      (r.Failure? <==> exists i :: 0 <= i < |batch| && ProcessFile(contents, targets, context, batch[i]).Failure?)
    ensures r.Failure? ==>
      exists i :: 0 <= i < |batch| && ProcessFile(contents, targets, context, batch[i]) == Failure(r.error)
    ensures |batch| == 1 || chunkSize == 1 ==>
      exists i :: 0 <= i < |batch| && r == ProcessFile(contents, targets, context, batch[i])
    ensures r.Success? && chunkSize >= 2 && AllCountsPositive(contents) ==>
      r.value == TotalCounter(FileCounters(batch, contents, targets, context))
  {
    var task := f => ProcessFile(contents, targets, context, f);
    var arrived := ImapUnordered(task, batch);
    assert |arrived| == |multiset(arrived)| == |batch|;
    r := SumCounters(arrived, chunkSize);
    ArrivedResults(task, batch, FileCounters(batch, contents, targets, context), arrived);
    if AllCountsPositive(contents) {
      FileCountersPositive(batch, contents, targets, context);
    }
    if |batch| == 1 || chunkSize == 1 {
      assert arrived[0] in arrived;
    }
    if r.Failure? {
      FirstFailureMember(arrived, r);
    }
  }

  /**
    The `cooccurrence` command, up to the row table it hands to storage.

    With a chunk size of at least 2: the run fails exactly when some file
    fails, and then with that file's error; when it succeeds and every triple
    count is positive, the rows hold, once per key, the per-key sum over all
    files of the per-file filtered Counters. An empty list of files gives no
    rows. Whatever the chunk size, a failure is always the failure of some file.
  */
  method Cooccurrence<C(==)>(fileids: seq<FileId>, contents: map<FileId, seq<Triple<C>>>,
                             targets: TargetIndex, context: map<C, Id>, chunkSize: nat)
    returns (res: Result<seq<Row>>)
    requires chunkSize >= 1
    ensures chunkSize >= 2 ==>
      (res.Failure? <==> exists i :: 0 <= i < |fileids| && ProcessFile(contents, targets, context, fileids[i]).Failure?)
    ensures res.Failure? ==>
      exists i :: 0 <= i < |fileids| && ProcessFile(contents, targets, context, fileids[i]) == Failure(res.error)
    ensures res.Success? && chunkSize >= 2 && AllCountsPositive(contents) ==>
      RowsOf(res.value, TotalCounter(FileCounters(fileids, contents, targets, context)))
    ensures |fileids| == 0 ==> res == Success([])
  {
    var records: Counter<Pair> := map[];
    var batches := Chunked(fileids, 100);
    for b := 0 to |batches|
      invariant b == 0 ==> records == map[]
      invariant chunkSize >= 2 ==> forall f :: f in Flatten(batches[..b]) ==> ProcessFile(contents, targets, context, f).Success?
      invariant chunkSize >= 2 && AllCountsPositive(contents) ==>
        records == TotalCounter(FileCounters(Flatten(batches[..b]), contents, targets, context))
    {
      var batch := batches[b];
      var done := Flatten(batches[..b]);
      assert Flatten(batches[..b + 1]) == done + batch by {
        assert batches[..b + 1] == batches[..b] + [batch];
        FlattenSnoc(batches[..b], batch);
      }
      var merged := ProcessBatch(batch, contents, targets, context, chunkSize);
      if merged.Failure? {
        var i :| 0 <= i < |batch| && ProcessFile(contents, targets, context, batch[i]) == Failure(merged.error);
        BatchMemberIsFile(batches, b, i, fileids);
        return Failure(merged.error);
      }
      if chunkSize >= 2 {
        DoneGrows(done, batch, contents, targets, context);
        if AllCountsPositive(contents) {
          BatchStep(done, batch, contents, targets, context);
        }
      }
      records := Add(records, merged.value);
    }
    assert batches[..|batches|] == batches;
    var rows := CooccurrenceRows(records);
    res := Success(rows);
  }

  /** `records += batch total` keeps `records` the total over the files done so far. */
  lemma BatchStep<C>(done: seq<FileId>, batch: seq<FileId>, contents: map<FileId, seq<Triple<C>>>,
                     targets: TargetIndex, context: map<C, Id>)
    requires AllCountsPositive(contents)
    ensures TotalCounter(FileCounters(done + batch, contents, targets, context))
      == Add(TotalCounter(FileCounters(done, contents, targets, context)), TotalCounter(FileCounters(batch, contents, targets, context)))
  {
    MapSeqAppend(f => CounterOf(ProcessFile(contents, targets, context, f)), done, batch);
    FileCountersPositive(done, contents, targets, context);
    FileCountersPositive(batch, contents, targets, context);
    TotalCounterAppend(FileCounters(done, contents, targets, context), FileCounters(batch, contents, targets, context));
  }

  /** After a batch with no failed file, every file done so far has succeeded. */
  lemma DoneGrows<C>(done: seq<FileId>, batch: seq<FileId>, contents: map<FileId, seq<Triple<C>>>,
                     targets: TargetIndex, context: map<C, Id>)
    requires forall f :: f in done ==> ProcessFile(contents, targets, context, f).Success?
    requires !exists i :: 0 <= i < |batch| && ProcessFile(contents, targets, context, batch[i]).Failure?
    ensures forall f :: f in done + batch ==> ProcessFile(contents, targets, context, f).Success?
  {
    forall f | f in done + batch ensures ProcessFile(contents, targets, context, f).Success? {
      if f !in done {
        var i :| 0 <= i < |batch| && batch[i] == f;
      }
    }
  }

  /** A file of a batch is a file of the run. */
  lemma BatchMemberIsFile(batches: seq<seq<FileId>>, b: nat, i: nat, fileids: seq<FileId>)
    requires Flatten(batches) == fileids
    requires b < |batches| && i < |batches[b]|
    ensures exists j :: 0 <= j < |fileids| && fileids[j] == batches[b][i]
  {
    FlattenMembers(batches, b, i);
  }
}
