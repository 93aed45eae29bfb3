/**
  What the BNC drivers share: file ids, tagged tokens as the corpus reader
  yields them, the ways a run can fail, and how a stream of worker results
  that may hold failures is consumed: pulling a failed result raises its error.
*/
module Corpus {
  import opened Counters

  /** A corpus file, as listed by `bnc.fileids()`. */
  type FileId = string

  /** A `(word, tag)` pair of `tagged_words()`. */
  datatype Token = Token(word: string, tag: string)

  datatype Error =
    | ReadError(file: FileId)  // the corpus reader raised on this file
    | EmptyTargetIndex         // `targets.index[0]` on an empty index raises IndexError
    | NoCounters               // `next` on an empty chunk stream raises StopIteration

  datatype Result<T> = Success(value: T) | Failure(error: Error)

  /**
    Pulling worker results one after the other: the first failure met is
    raised; without one, every value is delivered in the same order.
  */
  function Collect<T>(rs: seq<Result<T>>): (r: Result<seq<T>>)
    ensures r.Success? <==> forall i :: 0 <= i < |rs| ==> rs[i].Success?
    ensures r.Success? ==> |r.value| == |rs| && forall i :: 0 <= i < |rs| ==> rs[i] == Success(r.value[i])
    ensures r.Failure? ==>
      exists i :: 0 <= i < |rs| && rs[i] == Failure(r.error) && forall j :: 0 <= j < i ==> rs[j].Success?
  {
    if rs == [] then Success([])
    else
      match rs[0]
      case Failure(e) => Failure(e)
      case Success(v) =>
        match Collect(rs[1..])
        case Failure(e) =>
          assert forall j :: 1 <= j < |rs| ==> rs[j] == rs[1..][j - 1];
          Failure(e)
        case Success(vs) =>
          assert forall j :: 1 <= j < |rs| ==> rs[j] == rs[1..][j - 1];
          Success([v] + vs)
  }

  /** Every result is a success. */
  predicate AllSucceed<T>(rs: seq<Result<T>>) {
    forall i :: 0 <= i < |rs| ==> rs[i].Success?
  }

  /** `r` is the first failed result of `rs`: the error that pulling `rs` in order raises. */
  ghost predicate FirstFailure<T>(rs: seq<Result<T>>, r: Result<T>) {
    exists i :: 0 <= i < |rs| && rs[i] == r && r.Failure? && forall m :: 0 <= m < i ==> rs[m].Success?
  }

  /** The first failure of a list is one of its results, and a failure. */
  lemma FirstFailureMember<T>(rs: seq<Result<T>>, r: Result<T>)
    requires FirstFailure(rs, r)
    ensures r in rs && r.Failure?
  {
    var i :| 0 <= i < |rs| && rs[i] == r && r.Failure? && forall m :: 0 <= m < i ==> rs[m].Success?;
    assert rs[i] in rs;
  }

  /** The first failure of a list stays first when more results follow, or when only successes come before it. */
  lemma FirstFailureAppend<T>(a: seq<Result<T>>, b: seq<Result<T>>, r: Result<T>)
    ensures FirstFailure(a, r) ==> FirstFailure(a + b, r)
    ensures AllSucceed(a) && FirstFailure(b, r) ==> FirstFailure(a + b, r)
  {
    if FirstFailure(a, r) {
      var i :| 0 <= i < |a| && a[i] == r && r.Failure? && forall m :: 0 <= m < i ==> a[m].Success?;
      assert (a + b)[i] == r;
    }
    if AllSucceed(a) && FirstFailure(b, r) {
      var i :| 0 <= i < |b| && b[i] == r && r.Failure? && forall m :: 0 <= m < i ==> b[m].Success?;
      assert (a + b)[|a| + i] == r;
      assert forall m :: 0 <= m < |a| + i ==> (a + b)[m].Success? by {
        forall m | 0 <= m < |a| + i ensures (a + b)[m].Success? {
          if m >= |a| { assert (a + b)[m] == b[m - |a|]; }
        }
      }
    }
  }

  /** The Counter of a successful task; a failed one stands for the empty Counter. */
  function CounterOf<K(==,!new)>(r: Result<Counter<K>>): Counter<K> {
    match r
    case Success(c) => c
    case Failure(_) => map[]
  }

  /** The Counters of a list of task results, in order. */
  function Values<K(==,!new)>(rs: seq<Result<Counter<K>>>): (vs: seq<Counter<K>>)
    ensures |vs| == |rs| && forall i :: 0 <= i < |rs| ==> vs[i] == CounterOf(rs[i])
  {
    seq(|rs|, i requires 0 <= i < |rs| => CounterOf(rs[i]))
  }

  /** Every result is a success carrying a positive Counter. */
  ghost predicate AllGood<K(!new)>(rs: seq<Result<Counter<K>>>) {
    AllSucceed(rs) && AllPositive(Values(rs))
  }
}
