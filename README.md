# BNC co-occurrence counting and reduction, in Dafny

This project models the counting-and-reduction core of the British National
Corpus drivers in `fowler/corpora/bnc/main.py`. It covers these parts:

- **`bnc_cooccurrence`**: per-file vocabulary filtering of `(target, context, count)` triples.
  - When the target index is word-keyed, the tag is dropped from each target.
  - Only triples whose target and context are both in their vocabularies are kept.
  - Both are rewritten to vocabulary ids and put into a Counter through `dict(...)`.
- **`do_sum_counters` and `sum_counters`**: the hierarchical, chunked reduction of Counters on a worker pool.
- **`cooccurrence`**: the batch driver.
  - It walks the file ids in batches of 100 and reduces each batch.
  - It adds each batch's result into a running `records` Counter with `+=`.
  - It emits one `(id_target, id_context, count)` row per key.
- **`bnc_words` and `dictionary`**: per-file word or `(word, tag)` frequencies.
  - They go through the same reduction.
  - They produce rows sorted by count, largest first.

Python's `Counter` is a `map<K, int>`. `Counters.Get` is the lookup that
answers 0 for a missing key. `Counters.Add` is `Counter.__add__`, which also
models `+=`. Like the library, it keeps only the keys whose sum is positive.

The reference meaning of a reduction is `Counters.TotalCounter`: the
key-wise total of a list of Counters, keeping the positive totals. Every
reduction theorem assumes its input Counters are *positive*, meaning every
stored count is above 0. Any Counter built by counting or by `+` is
positive. The assumption is needed for two reasons. First, `do_sum_counters`
hands back a one-element list's Counter untouched, entries of 0 or below
included. Second, `sum(args, Counter())` drops every running sum that is not
positive: `[{k: -1}, {k: 2}]` folds to `{k: 2}`, not to the total `{k: 1}`.
The second reason is also why `Counters.AddAssociates` needs positive
Counters.

The pool's `imap_unordered` is `Reduction.ImapUnordered`. It applies the task
to every item and returns the results in any order, a permutation chosen by
the verifier. A task can fail, so the reduction works on a stream of
`Result`s:

- Pulling a failed result out of the pool's iterator raises its error.
- The pool reads its input (the chunks of the previous results) lazily.
  When reading a chunk raises a failed result's error, the pool stops
  reading, submits no more chunks, and hands that error on as the result of
  one last task. `Reduction.Submitted` is the list of chunks that reach the
  pool: every chunk up to and including the first one holding a failure.

Each corpus file's contents are inputs to the model:

- For `cooccurrence`, a file's content is the triples the windowed counter produced for it.
- For `dictionary`, a file's content is its tagged tokens.

A file missing from the `contents` map is one the corpus reader fails on.
Its task fails with `ReadError(file)`.

The modules, in dependency order:

- `Counters`: Counter arithmetic and totals.
- `Chunking`: `more_itertools.chunked`.
- `Corpus`: tokens, errors, and consuming a stream of task results.
- `Reduction`: `do_sum_counters` and `sum_counters`, plus the pool.
- `Tables`: listing a Counter's keys, in any order or by count.
- `Cooccurrence`: the `cooccurrence` command.
- `Dictionary`: the `dictionary` command.

Three behaviours of the code are easy to miss, and the model keeps them:

- **Duplicate keys are not added.** The filtered pairs go through
  `dict(...)`, so when two kept triples map to the same id pair, the later
  count replaces the earlier one. This happens, for example, when tags are
  dropped for a word-keyed index. `Cooccurrence.CountTable` models that
  last-wins behaviour.
- **The reduction stops as soon as the first chunk holds one Counter.** It
  does not wait for a pass to collapse the whole sequence. With
  `chunk_size == 1` it therefore returns the first result and ignores the
  rest. `Reduction.SumCounters` states that case.
- **A chunk size of 1 hides later failures.** Only the first worker result is
  pulled, so a later worker's failure is never raised. `Reduction.SumCounters`
  states this too: it returns the first result of the stream.

## Model

| member | source | states |
|---|---|---|
| Counters.Add | fowler/corpora/bnc/main.py:71 | Counter `+`: the result is positive, and each key's count is the sum of its two counts when that sum is positive, 0 (absent) otherwise |
| Counters.AddCommutes | fowler/corpora/bnc/main.py:71 | Counter `+` is commutative, so summation does not depend on the order in which results arrive |
| Counters.AddAssociates | fowler/corpora/bnc/main.py:71 | on positive Counters `+` is associative, so grouping the sums into chunks does not change them |
| Counters.AddEmpty | fowler/corpora/bnc/main.py:71 | the empty `Counter()` start value of `sum` is a two-sided identity on positive Counters |
| Counters.SumAll | fowler/corpora/bnc/main.py:71 | `sum(args, Counter())`, a left fold of `Add` from the empty Counter: positive, and every key of the sum occurs in one of the summed Counters; its counts are stated by `SumAllIsTotal` |
| Counters.TotalCounter | fowler/corpora/bnc/main.py:66-71 | the reference sum of a list of Counters: positive, holding exactly the keys whose total is positive, each with its total |
| Counters.SumAllIsTotal | fowler/corpora/bnc/main.py:71 | `sum(args, Counter())`, a left fold of `+`, equals the key-wise total of positive Counters |
| Counters.TotalCounterAppend | fowler/corpora/bnc/main.py:110 | the total of two lists of positive Counters is the `+` of their totals, which is what lets `records +=` accumulate batch by batch |
| Counters.TotalCounterPermutation | fowler/corpora/bnc/main.py:83 | the total of a list of Counters does not depend on their order |
| Counters.CountOf | fowler/corpora/bnc/main.py:130-132 | `Counter(iterable)`: positive, and each key counted exactly as often as it occurs |
| Chunking.Chunked | fowler/corpora/bnc/main.py:76 | `chunked(s, n)`: the chunks concatenate back to `s`, hold 1..n items, all but the last exactly n, and the first is the first n items; with n >= 2 and at least two items there are strictly fewer chunks than items |
| Reduction.ImapUnordered | fowler/corpora/bnc/main.py:83 | the pool's results are exactly the task applied to every item, in some order (the same multiset) |
| Reduction.MapSeqPermutation | fowler/corpora/bnc/main.py:83 | mapping a function over two permutations of the same items gives permutations of the same results |
| Reduction.DoSumCounters | fowler/corpora/bnc/main.py:66-71 | a one-element list is passed through as is; over positive Counters the result is their key-wise total and is positive |
| Reduction.PassKeepsTotal | fowler/corpora/bnc/main.py:76-83 | one pass (chunk, sum each chunk, results in any order) keeps the key-wise total and the positivity of the Counters |
| Reduction.SumChunk | fowler/corpora/bnc/main.py:66-71 | one summing task on a chunk of results: it succeeds exactly when every result in the chunk succeeded; a failure is the chunk's first failure, the one reading the chunk raises; over positive Counters it gives their key-wise total, positive |
| Reduction.Submitted | fowler/corpora/bnc/main.py:80-83 | the chunks the pool submits before its lazy input raises: a non-empty prefix of the chunks in which every chunk but the last succeeds, the last one fails when any chunk does, and all chunks when none does |
| Reduction.PassSucceeds | fowler/corpora/bnc/main.py:76-83 | the results of one pass all succeed exactly when the stream it chunked does |
| Reduction.LastSubmittedFailsFirst | fowler/corpora/bnc/main.py:80-83 | when the chunked stream holds a failure, the task of the last submitted chunk fails with the stream's first failure |
| Reduction.LastTaskArrives | fowler/corpora/bnc/main.py:83 | the task of the last submitted chunk is among a pass's results |
| Reduction.OnlyLastTaskFails | fowler/corpora/bnc/main.py:83 | when every submitted chunk but the last succeeds, every failed result of the pass is the last chunk's task |
| Reduction.PassFailureIsFirst | fowler/corpora/bnc/main.py:76-83 | when the chunked stream holds a failure, so do the pass's results, and the first failure among them, in any arrival order, is the chunked stream's first failure |
| Reduction.PassKeepsInvariants | fowler/corpora/bnc/main.py:74-83 | one pass keeps the verdict of the stream, introduces no first failure that is not the stream's, and over positive Counters keeps the total |
| Reduction.PassKeepsGoodTotal | fowler/corpora/bnc/main.py:76-83 | over successful positive results, one pass keeps them so and keeps their key-wise total, whatever order the chunk sums arrive in |
| Reduction.SumCounters | fowler/corpora/bnc/main.py:74-83 | on a stream of task results: with one result or chunk size 1, returns the first result as it is, so later failures are never raised; with chunk size >= 2, fails exactly when some result failed, and over successful positive results returns the key-wise total of all of them, whatever order the chunk sums arrive in; a failure is the stream's first failure in arrival order; the loop terminates |
| Reduction.ArrivedResults | fowler/corpora/bnc/main.py:102-108 | each arrived result of `imap_unordered` is some item's task result; they all succeed exactly when every task does; over positive task Counters the arrived Counters are positive and have the same total |
| Corpus.FirstFailureAppend | fowler/corpora/bnc/main.py:76-83 | the first failure of a list stays the first when more results follow it, or when only successes come before it |
| Corpus.FirstFailureMember | fowler/corpora/bnc/main.py:76-83 | the first failure of a list is one of its results, and a failure |
| Corpus.Collect | fowler/corpora/bnc/main.py:76-78 | pulling results one after the other: success exactly when every result succeeded, then every value in order; otherwise the first failure met |
| Tables.Items | fowler/corpora/bnc/main.py:115 | `counter.items()`: every key exactly once |
| Tables.ItemsByCount | fowler/corpora/bnc/main.py:166-168 | every key exactly once, ordered by count, non-increasing |
| Cooccurrence.CountTable | fowler/corpora/bnc/main.py:55-61 | the keys are exactly the id pairs of the kept triples, and each carries the count of the last kept triple mapped to it |
| Cooccurrence.BncCooccurrence | fowler/corpora/bnc/main.py:41-63 | fails with the index error exactly when the target index is empty; otherwise the filtered, rewritten, last-wins table, positive when the triple counts are |
| Cooccurrence.ProcessFile | fowler/corpora/bnc/main.py:47-48 | one pool task of lines 102-108, reading one file: it fails exactly when the file is unreadable or the target index is empty; an unreadable file fails with `ReadError(f)` even when the index is empty; otherwise it is `BncCooccurrence` of the file's triples, positive when their counts are |
| Cooccurrence.KeysAreVocabularyIds | fowler/corpora/bnc/main.py:55-61 | every key of a result is a pair of a target vocabulary id and a context vocabulary id |
| Cooccurrence.WordIndexIgnoresTags | fowler/corpora/bnc/main.py:52-53 | against a word-keyed target index, changing the targets' tags does not change the result |
| Cooccurrence.CooccurrenceRows | fowler/corpora/bnc/main.py:114-117 | exactly one `(id_target, id_context, count)` row per key of `records`, with its count |
| Cooccurrence.ProcessBatch | fowler/corpora/bnc/main.py:102-110 | one batch: with chunk size >= 2 it fails exactly when one of its files fails; a failure is always one of its files' errors; with chunk size 1 or one file it is some single file's result; a success over positive counts with chunk size >= 2 is the total of the files' Counters |
| Cooccurrence.BatchStep | fowler/corpora/bnc/main.py:100-110 | adding one more batch's total to the total of the batches so far gives the total over all their files |
| Cooccurrence.Cooccurrence | fowler/corpora/bnc/main.py:86-117 | with chunk size >= 2 the run fails exactly when some file fails, with that file's error; on success over positive counts the rows are, once per key, the total over all files of the per-file Counters; no files give no rows |
| Dictionary.BncWords | fowler/corpora/bnc/main.py:123-135 | an unreadable file fails with its id (re-raised, not swallowed); otherwise each `(word, tag)` key, or each word with `omit_tags`, is counted exactly as often as it occurs, and no key of the other shape appears |
| Dictionary.CorpusTotals | fowler/corpora/bnc/main.py:149-155 | summed over the files, each key's count is its number of occurrences in the whole corpus |
| Dictionary.CorpusWordCounts | fowler/corpora/bnc/main.py:149-155 | the reduced word Counter counts every key exactly as often as it occurs in the corpus |
| Dictionary.DictionaryRows | fowler/corpora/bnc/main.py:159-168 | one row per key with that key's count, no key twice, sorted by count, non-increasing |
| Dictionary.DictionaryRowsMeaning | fowler/corpora/bnc/main.py:159-168 | rows built by count from the corpus word Counter hold one row per distinct corpus key, with its number of occurrences, shaped `[w, t, c]` or `[w, c]` as the mode asks |
| Dictionary.CorpusRows | fowler/corpora/bnc/main.py:149-168 | rows listing by count the keys of the Counter reduced from every file form the dictionary of the whole corpus |
| Dictionary.Dictionary | fowler/corpora/bnc/main.py:138-168 | fails on an empty file list and on an unreadable file, with that file's id; otherwise one row per distinct key of the corpus with its number of occurrences, shaped by `omit_tags`, sorted by count, non-increasing |

## Left out

- `count_cooccurrence`, the windowed counting of `fowler/corpora/bnc/util.py`, is not part of this model. Each file's triples are an input, with counts taken as given.
- The corpus reader (`BNCCorpusReader`, `tagged_words`, `words`) is I/O. A file's tokens or triples are an input, and the `c5` and `stem` options only decide which tokens the reader yields.
- The process pool is concurrency. It is a sequential map whose results come back in an arbitrary order, and per-worker memory bounds are not modelled.
- pandas and HDF5 are left out: `DataFrame`, `set_index`, `to_hdf` with its compression settings, and `write_space`. Only the row contents and their order are modelled.
- Logging, and the `Dispatcher`, `Resource` and command-line option plumbing, are left out.
- `fowler/corpora/wsd/main.py`, `fowler/corpora/serafin03/main.py` and `test/test_serafin03.py` are left out. They are floating-point linear algebra and machine-learning pipelines outside the counting core.
- Reduction.SumCounters requires `chunk_size >= 1` and a non-empty input. With `chunk_size == 0` or no Counters, `next` raises StopIteration, and the model does not include that error path.
- Reduction.SumCounters states its sum only over positive Counters. For inputs with zero or negative counts it states only the single-Counter and chunk-size-1 cases.
- Cooccurrence.ProcessBatch states the total only for chunk size >= 2 and positive triple counts. With chunk size 1 it says only that the result is some single file's result, because it is whichever result arrived first.
- Cooccurrence.Cooccurrence states its rows only for chunk size >= 2 and positive triple counts. With chunk size 1 it says only that a failure is some file's failure.
- Cooccurrence.ProcessBatch and Dictionary.Dictionary say only that a failure is some file's error. Which one is the first failure of the first pass depends on the order in which the pool delivers the files' results, and that order is arbitrary.
- Cooccurrence.Cooccurrence does not say which file's error is raised when several files fail. That depends on arrival order.
- Cooccurrence.BncCooccurrence never sees an unreadable file: the task (`ProcessFile`) fails with the read error first. In the source the reader is lazy, so when a file is unreadable and the target index is empty, either error may be the one raised.
- Dictionary.Dictionary always uses `sum_counters`'s default chunk size of 7, as the command does. It does not say which file's error is raised when several fail.
