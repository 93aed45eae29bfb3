/**
  The hierarchical reduction of `fowler/corpora/bnc/main.py`: `do_sum_counters`
  sums one chunk of counters, and `sum_counters` repeatedly splits the current
  list of counters into chunks, sums every chunk on the process pool, and stops
  when the first chunk holds a single counter.

  The counters come from pool tasks that may have failed. Pulling a failed
  result out of the pool's iterator raises its error. When the pool meets a
  failure while reading its input, it stops reading and hands that error on as
  the result of one last task. Results are therefore `Result`s throughout.

  The pool's `imap_unordered` is modelled by `ImapUnordered`: the results of
  applying a function to every item, delivered in some order that the caller
  does not choose.
*/
module Reduction {
  import opened Counters
  import opened Chunking
  import opened Corpus

  /** `[f(x) for x in xs]`, in order. */
  function MapSeq<A, B>(f: A -> B, xs: seq<A>): (ys: seq<B>)
    ensures |ys| == |xs|
    ensures forall i :: 0 <= i < |xs| ==> ys[i] == f(xs[i])
  {
    seq(|xs|, i requires 0 <= i < |xs| => f(xs[i]))
  }

  /**
    `pool.imap_unordered(f, xs)`: one result per item, in whatever order the
    workers finish.
  */
  method ImapUnordered<A, B(==)>(f: A -> B, xs: seq<A>) returns (ys: seq<B>)
    ensures multiset(ys) == multiset(MapSeq(f, xs))
  {
    ys :| multiset(ys) == multiset(MapSeq(f, xs));
  }

  /** Mapping distributes over concatenation. */
  lemma MapSeqAppend<A, B>(f: A -> B, a: seq<A>, b: seq<A>)
    ensures MapSeq(f, a + b) == MapSeq(f, a) + MapSeq(f, b)
  {
  }

  /** Taking item `i` out of a list takes it out of the list's multiset. */
  lemma MultisetRemove<T>(b: seq<T>, i: nat)
    requires i < |b|
    ensures multiset(b) == multiset{b[i]} + multiset(b[..i] + b[i + 1..])
  {
    assert b == b[..i] + [b[i]] + b[i + 1..];
  }

  /** Mapping a non-empty list maps its head, then its tail. */
  lemma MapSeqCons<A, B>(f: A -> B, a: seq<A>)
    requires a != []
    ensures MapSeq(f, a) == [f(a[0])] + MapSeq(f, a[1..])
  {
    var l, r := MapSeq(f, a), [f(a[0])] + MapSeq(f, a[1..]);
    assert |l| == |r|;
    forall j | 0 <= j < |l| ensures l[j] == r[j] {
      if j > 0 {
        assert a[1..][j - 1] == a[j];
      }
    }
  }

  /** Mapping commutes with taking item `i` out. */
  lemma MapSeqRemove<A, B>(f: A -> B, b: seq<A>, i: nat)
    requires i < |b|
    ensures MapSeq(f, b[..i] + b[i + 1..]) == MapSeq(f, b)[..i] + MapSeq(f, b)[i + 1..]
  {
  }

  /** The same item taken out of two equal multisets leaves equal multisets. */
  lemma MultisetCancel<T>(x: T, a: multiset<T>, b: multiset<T>)
    requires multiset{x} + a == multiset{x} + b
    ensures a == b
  {
    forall y ensures a[y] == b[y] {
      assert (multiset{x} + a)[y] == (multiset{x} + b)[y];
    }
  }

  /** Applying a function item by item keeps a permutation a permutation. */
  lemma {:induction false} MapSeqPermutation<A, B>(f: A -> B, a: seq<A>, b: seq<A>)
    requires multiset(a) == multiset(b)
    ensures multiset(MapSeq(f, a)) == multiset(MapSeq(f, b))
  {
    if a == [] {
      assert |b| == |multiset(b)| == 0;
    } else {
      assert a[0] in multiset(b);
      var i :| 0 <= i < |b| && b[i] == a[0];
      var rest := b[..i] + b[i + 1..];
      assert multiset(a[1..]) == multiset(rest) by {
        MultisetRemove(b, i);
        MultisetRemove(a, 0);
        assert a[..0] + a[1..] == a[1..];
        MultisetCancel(a[0], multiset(a[1..]), multiset(rest));
      }
      MapSeqPermutation(f, a[1..], rest);
      var fa, fb := MapSeq(f, a), MapSeq(f, b);
      assert multiset(fa) == multiset{f(a[0])} + multiset(MapSeq(f, a[1..])) by {
        MapSeqCons(f, a);
      }
      assert multiset(fb) == multiset{f(b[i])} + multiset(MapSeq(f, rest)) by {
        MapSeqRemove(f, b, i);
        MultisetRemove(fb, i);
      }
    }
  }

  /**
    `do_sum_counters(args)`: a one-element chunk is passed through as it is;
    any other chunk is summed with `sum(args, Counter())`. Over positive
    counters the result holds, for every key, the sum of its counts.
  */
  function DoSumCounters<K(==,!new)>(args: seq<Counter<K>>): (r: Counter<K>)
    ensures |args| == 1 ==> r == args[0]
    ensures AllPositive(args) ==> r == TotalCounter(args)
    ensures AllPositive(args) ==> Positive(r)
  {
    if |args| == 1 then
      assert AllPositive(args) ==> args[0] == TotalCounter(args) by {
        if AllPositive(args) {
          assert args == [args[0]];
          TotalCounterSingleton(args[0]);
        }
      }
      args[0]
    else
      assert AllPositive(args) ==> SumAll(args) == TotalCounter(args) by {
        if AllPositive(args) { SumAllIsTotal(args); }
      }
      SumAll(args)
  }

  /** Summing every chunk of a split list keeps every key's total. */
  lemma {:induction false} ChunkSumsKeepTotals<K(!new)>(ss: seq<seq<Counter<K>>>, k: K)
    requires forall i :: 0 <= i < |ss| ==> AllPositive(ss[i])
    ensures AllPositive(MapSeq(DoSumCounters, ss))
    ensures Total(MapSeq(DoSumCounters, ss), k) == Total(Flatten(ss), k)
  {
    if ss != [] {
      var sums := MapSeq(DoSumCounters, ss);
      assert sums[1..] == MapSeq(DoSumCounters, ss[1..]);
      ChunkSumsKeepTotals(ss[1..], k);
      TotalAppend(ss[0], Flatten(ss[1..]), k);
      GetTotalCounter(ss[0], k);
    }
  }

  /** The chunks of a list of positive counters hold positive counters. */
  lemma ChunksPositive<K(!new)>(s: seq<Counter<K>>, ss: seq<seq<Counter<K>>>)
    requires AllPositive(s) && Flatten(ss) == s
    ensures forall i :: 0 <= i < |ss| ==> AllPositive(ss[i])
  {
    forall i, j | 0 <= i < |ss| && 0 <= j < |ss[i]| ensures Positive(ss[i][j]) {
      FlattenMembers(ss, i, j);
    }
  }

  /** One pass of the reduction, in whatever order its results arrive, keeps the reference result. */
  lemma PassKeepsTotal<K(!new)>(current: seq<Counter<K>>, chunks: seq<seq<Counter<K>>>, next: seq<Counter<K>>)
    requires AllPositive(current) && Flatten(chunks) == current
    requires multiset(next) == multiset(MapSeq(DoSumCounters, chunks))
    ensures AllPositive(next)
    ensures TotalCounter(next) == TotalCounter(current)
  {
    ChunksPositive(current, chunks);
    var sums := MapSeq(DoSumCounters, chunks);
    forall k ensures Total(sums, k) == Total(current, k) {
      ChunkSumsKeepTotals(chunks, k);
    }
    forall i | 0 <= i < |next| ensures Positive(next[i]) {
      assert next[i] in multiset(sums);
    }
    PositiveExtensional(TotalCounter(sums), TotalCounter(current));
    TotalCounterPermutation(next, sums);
  }

  /**
    One task of a pass: `do_sum_counters` on a chunk pulled from the previous
    stream of results. A chunk holding a failed result yields the first such
    failure; otherwise the chunk's Counters are summed.
  */
  function SumChunk<K(==,!new)>(chunk: seq<Result<Counter<K>>>): (r: Result<Counter<K>>)
    ensures r.Success? <==> AllSucceed(chunk)
    ensures r.Failure? ==> FirstFailure(chunk, r)
    ensures AllSucceed(chunk) && AllPositive(Values(chunk)) ==>
      r.value == TotalCounter(Values(chunk)) && Positive(r.value)
  {
    match Collect(chunk)
    case Failure(e) => Failure(e)
    case Success(cs) =>
      assert cs == Values(chunk);
      Success(DoSumCounters(cs))
  }

  /** The Counters of a flattened list of chunks are the flattened Counters of the chunks. */
  lemma {:induction false} FlattenValues<K(!new)>(chunks: seq<seq<Result<Counter<K>>>>, vcs: seq<seq<Counter<K>>>)
    requires |vcs| == |chunks| && forall j :: 0 <= j < |chunks| ==> vcs[j] == Values(chunks[j])
    ensures Flatten(vcs) == Values(Flatten(chunks))
  {
    if chunks != [] {
      FlattenValues(chunks[1..], vcs[1..]);
      assert Values(chunks[0] + Flatten(chunks[1..])) == Values(chunks[0]) + Values(Flatten(chunks[1..]));
    }
  }

  /**
    The chunks the pool receives tasks for. The pool reads its input chunk by
    chunk and stops at the first chunk whose reading raises, which becomes one
    task that fails with that error; no later chunk is read.
  */
  function Submitted<T>(chunks: seq<seq<Result<T>>>): (r: seq<seq<Result<T>>>)
    ensures |r| <= |chunks| && r == chunks[..|r|]
    ensures |chunks| > 0 ==> |r| > 0
    ensures forall i :: 0 <= i < |r| - 1 ==> AllSucceed(r[i])
    ensures (forall i :: 0 <= i < |chunks| ==> AllSucceed(chunks[i])) ==> r == chunks
    ensures (exists i :: 0 <= i < |chunks| && !AllSucceed(chunks[i])) ==> |r| > 0 && !AllSucceed(r[|r| - 1])
  {
    if chunks == [] then []
    else if !AllSucceed(chunks[0]) then [chunks[0]]
    else
      var rest := Submitted(chunks[1..]);
      assert (exists i :: 0 <= i < |chunks| && !AllSucceed(chunks[i])) ==>
               exists i :: 0 <= i < |chunks[1..]| && !AllSucceed(chunks[1..][i]) by {
        if i :| 0 <= i < |chunks| && !AllSucceed(chunks[i]) {
          assert i > 0 && chunks[1..][i - 1] == chunks[i];
        }
      }
      [chunks[0]] + rest
  }

  /** Only successes come before the chunk at index `j` when every chunk before it succeeded. */
  lemma PrefixSucceeds<T>(chunks: seq<seq<Result<T>>>, j: nat)
    requires j <= |chunks| && forall i :: 0 <= i < j ==> AllSucceed(chunks[i])
    ensures AllSucceed(Flatten(chunks[..j]))
  {
    forall q | 0 <= q < |Flatten(chunks[..j])| ensures Flatten(chunks[..j])[q].Success? {
      FlattenCovers(chunks[..j], q);
    }
  }

  /** A failure in the chunked list lies in one of the chunks. */
  lemma SomeChunkFails<T>(current: seq<Result<T>>, chunks: seq<seq<Result<T>>>)
    requires Flatten(chunks) == current && !AllSucceed(current)
    ensures exists j :: 0 <= j < |chunks| && !AllSucceed(chunks[j])
  {
    var p :| 0 <= p < |current| && current[p].Failure?;
    FlattenCovers(chunks, p);
    var j, m :| 0 <= j < |chunks| && 0 <= m < |chunks[j]| && chunks[j][m] == current[p];
    assert !AllSucceed(chunks[j]);
  }

  /**
    When the chunked list holds a failure, the task of the last submitted
    chunk fails with the first failure of the whole list.
  */
  lemma LastSubmittedFailsFirst<K(!new)>(current: seq<Result<Counter<K>>>, chunks: seq<seq<Result<Counter<K>>>>)
    requires Flatten(chunks) == current && !AllSucceed(current)
    ensures |Submitted(chunks)| > 0
    ensures FirstFailure(current, SumChunk(Submitted(chunks)[|Submitted(chunks)| - 1]))
  {
    var sub := Submitted(chunks);
    SomeChunkFails(current, chunks);
    var j := |sub| - 1;
    var g := SumChunk(sub[j]);
    assert sub[j] == chunks[j];
    var pre, rest := Flatten(chunks[..j]), Flatten(chunks[j + 1..]);
    FlattenAround(chunks, j);
    PrefixSucceeds(chunks, j);
    FirstFailureAppend(chunks[j], rest, g);
    FirstFailureAppend(pre, chunks[j] + rest, g);
  }

  /**
    When the chunked list holds a failure, the pass's results hold one too,
    and every failure among them is the first failure of the chunked list: the
    one met while reading the last submitted chunk.
  */
  lemma PassFailureIsFirst<K(!new)>(current: seq<Result<Counter<K>>>, chunks: seq<seq<Result<Counter<K>>>>,
                                    next: seq<Result<Counter<K>>>)
    requires Flatten(chunks) == current && !AllSucceed(current)
    requires multiset(next) == multiset(MapSeq(SumChunk, Submitted(chunks)))
    ensures !AllSucceed(next)
    ensures forall r :: FirstFailure(next, r) ==> FirstFailure(current, r)
  {
    var sub := Submitted(chunks);
    LastSubmittedFailsFirst(current, chunks);
    var g := SumChunk(sub[|sub| - 1]);
    assert g.Failure? by {
      var i :| 0 <= i < |current| && current[i] == g && g.Failure? && forall m :: 0 <= m < i ==> current[m].Success?;
    }
    LastTaskArrives(sub, next);
    OnlyLastTaskFails(sub, next);
    forall r | FirstFailure(next, r) ensures FirstFailure(current, r) {
      FirstFailureMember(next, r);
    }
  }

  /** The task of the last chunk is among a pass's results. */
  lemma LastTaskArrives<K(!new)>(sub: seq<seq<Result<Counter<K>>>>, next: seq<Result<Counter<K>>>)
    requires |sub| > 0
    requires multiset(next) == multiset(MapSeq(SumChunk, sub))
    ensures SumChunk(sub[|sub| - 1]) in next
  {
    assert MapSeq(SumChunk, sub)[|sub| - 1] == SumChunk(sub[|sub| - 1]);
    assert SumChunk(sub[|sub| - 1]) in multiset(next);
  }

  /** When every chunk but the last succeeds, only the last chunk's task can fail. */
  lemma OnlyLastTaskFails<K(!new)>(sub: seq<seq<Result<Counter<K>>>>, next: seq<Result<Counter<K>>>)
    requires forall i :: 0 <= i < |sub| - 1 ==> AllSucceed(sub[i])
    requires multiset(next) == multiset(MapSeq(SumChunk, sub))
    ensures forall r :: r in next && r.Failure? ==> r == SumChunk(sub[|sub| - 1])
  {
    forall r | r in next && r.Failure? ensures r == SumChunk(sub[|sub| - 1]) {
      assert r in multiset(MapSeq(SumChunk, sub));
      var k :| 0 <= k < |sub| && MapSeq(SumChunk, sub)[k] == r;
    }
  }

  /** A pass's results all succeed exactly when the list it chunked does. */
  lemma PassSucceeds<K(!new)>(current: seq<Result<Counter<K>>>, chunks: seq<seq<Result<Counter<K>>>>,
                              next: seq<Result<Counter<K>>>)
    requires Flatten(chunks) == current
    requires multiset(next) == multiset(MapSeq(SumChunk, chunks))
    ensures AllSucceed(next) <==> AllSucceed(current)
  {
    var sums := MapSeq(SumChunk, chunks);
    if AllSucceed(current) {
      forall i | 0 <= i < |next| ensures next[i].Success? {
        assert next[i] in multiset(sums);
        var j :| 0 <= j < |chunks| && sums[j] == next[i];
        forall m | 0 <= m < |chunks[j]| ensures chunks[j][m].Success? {
          FlattenMembers(chunks, j, m);
        }
      }
    } else {
      var p :| 0 <= p < |current| && current[p].Failure?;
      FlattenCovers(chunks, p);
      var j, m :| 0 <= j < |chunks| && 0 <= m < |chunks[j]| && chunks[j][m] == current[p];
      assert sums[j].Failure?;
      assert sums[j] in multiset(next);
    }
  }

  /** Over positive successful Counters, a pass keeps them so and keeps their total. */
  lemma PassKeepsGoodTotal<K(!new)>(current: seq<Result<Counter<K>>>, chunks: seq<seq<Result<Counter<K>>>>,
                                    next: seq<Result<Counter<K>>>)
    requires Flatten(chunks) == current && AllGood(current)
    requires multiset(next) == multiset(MapSeq(SumChunk, chunks))
    ensures AllGood(next) && TotalCounter(Values(next)) == TotalCounter(Values(current))
  {
    PassSucceeds(current, chunks, next);
    var vcs := seq(|chunks|, j requires 0 <= j < |chunks| => Values(chunks[j]));
    FlattenValues(chunks, vcs);
    var sums := MapSeq(SumChunk, chunks);
    var value := (r: Result<Counter<K>>) => CounterOf(r);
    forall j | 0 <= j < |chunks| ensures value(sums[j]) == DoSumCounters(vcs[j]) {
      forall m | 0 <= m < |chunks[j]| ensures chunks[j][m].Success? && Positive(vcs[j][m]) {
        FlattenMembers(chunks, j, m);
        FlattenMembers(vcs, j, m);
      }
    }
    assert MapSeq(value, sums) == MapSeq(DoSumCounters, vcs);
    MapSeqPermutation(value, next, sums);
    assert Values(next) == MapSeq(value, next);
    PassKeepsTotal(Values(current), vcs, Values(next));
  }

  /**
    One pass of the reduction keeps what the stream and the list being
    reduced have in common: the same verdict, no first failure that is not
    the stream's, and, over positive Counters, the same total.
  */
  lemma PassKeepsInvariants<K(!new)>(stream: seq<Result<Counter<K>>>, current: seq<Result<Counter<K>>>,
                                     chunks: seq<seq<Result<Counter<K>>>>, next: seq<Result<Counter<K>>>)
    requires Flatten(chunks) == current
    requires multiset(next) == multiset(MapSeq(SumChunk, Submitted(chunks)))
    requires AllSucceed(current) <==> AllSucceed(stream)
    requires forall f :: FirstFailure(current, f) ==> FirstFailure(stream, f)
    requires AllGood(stream) ==> AllGood(current) && TotalCounter(Values(current)) == TotalCounter(Values(stream))
    ensures AllSucceed(next) <==> AllSucceed(stream)
    ensures forall f :: FirstFailure(next, f) ==> FirstFailure(stream, f)
    ensures AllGood(stream) ==> AllGood(next) && TotalCounter(Values(next)) == TotalCounter(Values(stream))
  {
    if AllSucceed(current) {
      forall i | 0 <= i < |chunks| ensures AllSucceed(chunks[i]) {
        forall m | 0 <= m < |chunks[i]| ensures chunks[i][m].Success? {
          FlattenMembers(chunks, i, m);
        }
      }
      PassSucceeds(current, chunks, next);
      if AllGood(stream) {
        PassKeepsGoodTotal(current, chunks, next);
      }
    } else {
      PassFailureIsFirst(current, chunks, next);
    }
  }

  /**
    `sum_counters(counters, pool, chunk_size)` on the stream of task results
    `stream`. Each pass pulls the first chunk, which raises the first failure
    in it; a first chunk of one result returns that result; otherwise every
    chunk goes to the pool and the chunk sums, in whatever order they arrive,
    are the next stream.

    A single result, or a chunk size of 1, gives back the first result without
    any summation, so later failures are never raised. With a chunk size of at
    least 2 every pass strictly shortens the list, the reduction fails exactly
    when some result failed, and over positive Counters it returns the per-key
    sum of all of them, whatever order the pool delivers the chunk sums in.
    A failure is the first failure of the stream in arrival order: the pool
    stops submitting chunks at the first one whose reading fails.
  */
  method SumCounters<K(==,!new)>(stream: seq<Result<Counter<K>>>, chunkSize: nat) returns (r: Result<Counter<K>>)
    requires |stream| >= 1
    requires chunkSize >= 1
    ensures |stream| == 1 || chunkSize == 1 ==> r == stream[0]
    ensures chunkSize >= 2 ==> (r.Success? <==> AllSucceed(stream))
    ensures r.Failure? ==> FirstFailure(stream, r)
    ensures chunkSize >= 2 && AllGood(stream) ==> r == Success(TotalCounter(Values(stream)))
  {
    var current := stream;
    while true
      invariant |current| >= 1
      invariant |stream| == 1 || chunkSize == 1 ==> current == stream
      invariant chunkSize >= 2 ==> (AllSucceed(current) <==> AllSucceed(stream))
      invariant forall f :: FirstFailure(current, f) ==> FirstFailure(stream, f)
      invariant chunkSize >= 2 && AllGood(stream) ==>
        AllGood(current) && TotalCounter(Values(current)) == TotalCounter(Values(stream))
      decreases |current|
    {
      var chunks := Chunked(current, chunkSize);
      var first := chunks[0];
      match Collect(first) {
        case Failure(e) =>
          var j :| 0 <= j < |first| && first[j] == Failure(e) && forall m :: 0 <= m < j ==> first[m].Success?;
          r := Failure(e);
          assert current[j] == first[j];
          assert FirstFailure(current, r);
          return;
        case Success(_) =>
          if |first| == 1 {
            assert first[0] == current[0];
            if chunkSize >= 2 {
              assert current == [current[0]];
              if AllGood(stream) {
                assert Values(current) == [Values(current)[0]];
                TotalCounterSingleton(Values(current)[0]);
              }
            }
            return first[0];
          }
          var submitted := Submitted(chunks);
          var next := ImapUnordered(SumChunk, submitted);
          assert |next| == |multiset(next)| == |MapSeq(SumChunk, submitted)| == |submitted|;
          PassKeepsInvariants(stream, current, chunks, next);
          current := next;
      }
    }
  }

  /**
    The results of `imap_unordered(task, xs)`: each is the result of some
    item's task; they all succeed exactly when every task does; and when the
    tasks' Counters are positive, so are the arrived ones, with the same total.
  */
  lemma ArrivedResults<A, K(!new)>(task: A -> Result<Counter<K>>, xs: seq<A>, files: seq<Counter<K>>,
                                   arrived: seq<Result<Counter<K>>>)
    requires |files| == |xs| && forall i :: 0 <= i < |xs| ==> files[i] == CounterOf(task(xs[i]))
    requires multiset(arrived) == multiset(MapSeq(task, xs))
    ensures forall r :: r in arrived ==> exists i :: 0 <= i < |xs| && r == task(xs[i])
    ensures AllSucceed(arrived) <==> forall i :: 0 <= i < |xs| ==> task(xs[i]).Success?
    ensures AllPositive(files) ==> AllPositive(Values(arrived)) && TotalCounter(Values(arrived)) == TotalCounter(files)
  {
    forall r | r in arrived ensures exists i :: 0 <= i < |xs| && r == task(xs[i]) {
      assert r in multiset(MapSeq(task, xs));
    }
    forall i | 0 <= i < |xs| ensures task(xs[i]) in arrived {
      assert task(xs[i]) == MapSeq(task, xs)[i];
      assert task(xs[i]) in multiset(arrived);
    }
    if AllSucceed(arrived) {
      forall i | 0 <= i < |xs| ensures task(xs[i]).Success? {
        var j :| 0 <= j < |arrived| && arrived[j] == task(xs[i]);
      }
    } else {
      var j :| 0 <= j < |arrived| && arrived[j].Failure?;
      assert arrived[j] in arrived;
    }
    var value := (r: Result<Counter<K>>) => CounterOf(r);
    assert Values(arrived) == MapSeq(value, arrived);
    MapSeqPermutation(value, arrived, MapSeq(task, xs));
    assert MapSeq(value, MapSeq(task, xs)) == files;
    if AllPositive(files) {
      assert AllPositive(Values(arrived)) by {
        forall i | 0 <= i < |arrived| ensures Positive(Values(arrived)[i]) {
          assert Values(arrived)[i] in multiset(files);
        }
      }
      TotalCounterPermutation(Values(arrived), files);
    }
  }
}
