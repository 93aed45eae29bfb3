/**
  Frequency tables as Python's `collections.Counter` keeps them: a finite map
  from keys to integer counts, where a missing key reads as 0.

  `Add` is `Counter.__add__` (and `Counter.__iadd__`): counts are summed key by
  key and only keys whose sum is positive are kept. `SumAll` is
  `sum(args, Counter())`, a left fold of `Add` starting from the empty counter.
  `TotalCounter` is the reference the reduction is measured against: for every
  key, the total of its counts across a list of counters.
*/
module Counters {

  type Counter<K(==,!new)> = map<K, int>

  /** `counter[k]`: a missing key has count 0. */
  function Get<K(==,!new)>(c: Counter<K>, k: K): int {
    if k in c then c[k] else 0
  }

  /** Every stored count is positive, as in any Counter built by counting or by `+`. */
  ghost predicate Positive<K(!new)>(c: Counter<K>) {
    forall k :: k in c ==> c[k] > 0
  }

  ghost predicate AllPositive<K(!new)>(cs: seq<Counter<K>>) {
    forall i :: 0 <= i < |cs| ==> Positive(cs[i])
  }

  /** Two positive counters that agree on every count are the same counter. */
  lemma PositiveExtensional<K(!new)>(a: Counter<K>, b: Counter<K>)
    requires Positive(a) && Positive(b)
    requires forall k :: Get(a, k) == Get(b, k)
    ensures a == b
  {
    forall k ensures k in a <==> k in b {
      assert Get(a, k) == Get(b, k);
    }
    forall k | k in a ensures a[k] == b[k] {
      assert Get(a, k) == Get(b, k);
    }
  }

  /** `a + b` on Counters. */
  function Add<K(==,!new)>(a: Counter<K>, b: Counter<K>): (r: Counter<K>)
    ensures Positive(r)
    ensures forall k :: Get(r, k) == if Get(a, k) + Get(b, k) > 0 then Get(a, k) + Get(b, k) else 0
  {
    map k | k in a.Keys + b.Keys && Get(a, k) + Get(b, k) > 0 :: Get(a, k) + Get(b, k)
  }

  /** Counter `+` is commutative, on every pair of Counters. */
  lemma AddCommutes<K(!new)>(a: Counter<K>, b: Counter<K>)
    ensures Add(a, b) == Add(b, a)
  {
    PositiveExtensional(Add(a, b), Add(b, a));
  }

  /** Key-wise addition of positive counters is associative, so a fold may be regrouped. */
  lemma AddAssociates<K(!new)>(a: Counter<K>, b: Counter<K>, c: Counter<K>)
    requires Positive(a) && Positive(b) && Positive(c)
    ensures Add(Add(a, b), c) == Add(a, Add(b, c))
  {
    forall k ensures Get(Add(Add(a, b), c), k) == Get(Add(a, Add(b, c)), k) {
      assert Get(a, k) >= 0 && Get(b, k) >= 0 && Get(c, k) >= 0;
    }
    PositiveExtensional(Add(Add(a, b), c), Add(a, Add(b, c)));
  }

  /** The empty counter is the identity of `+` on positive counters. */
  lemma AddEmpty<K(!new)>(a: Counter<K>)
    requires Positive(a)
    ensures Add(map[], a) == a && Add(a, map[]) == a
  {
    PositiveExtensional(Add(map[], a), a);
    PositiveExtensional(Add(a, map[]), a);
  }

  /**
    `sum(cs, Counter())`: `((Counter() + cs[0]) + cs[1]) + ...`. The sum keeps
    only positive counts, and each of its keys occurs in one of the summed
    counters; `SumAllIsTotal` states its counts.
  */
  function SumAll<K(==,!new)>(cs: seq<Counter<K>>): (r: Counter<K>)
    ensures Positive(r)
    ensures forall k :: k in r ==> exists i :: 0 <= i < |cs| && k in cs[i]
  {
    if cs == [] then map[]
    else
      var n := |cs| - 1;
      var s := SumAll(cs[..n]);
      assert forall k :: k in s ==> exists i :: 0 <= i < n && k in cs[i] by {
        forall k | k in s ensures exists i :: 0 <= i < n && k in cs[i] {
          var i :| 0 <= i < |cs[..n]| && k in cs[..n][i];
          assert cs[..n][i] == cs[i];
        }
      }
      Add(s, cs[n])
  }

  /** The total count of `k` across all counters of `cs`. */
  function Total<K(==,!new)>(cs: seq<Counter<K>>, k: K): int
  {
    if cs == [] then 0 else Get(cs[0], k) + Total(cs[1..], k)
  }

  /** Every key that occurs in some counter of `cs`. */
  function Support<K(==,!new)>(cs: seq<Counter<K>>): (r: set<K>)
    ensures forall k :: k !in r ==> Total(cs, k) == 0
  {
    if cs == [] then {} else cs[0].Keys + Support(cs[1..])
  }

  /** The reference result of a reduction: each key with a positive total, carrying that total. */
  function TotalCounter<K(==,!new)>(cs: seq<Counter<K>>): (r: Counter<K>)
    ensures Positive(r)
    ensures forall k :: k in r <==> Total(cs, k) > 0
    ensures forall k :: k in r ==> r[k] == Total(cs, k)
  {
    map k | k in Support(cs) && Total(cs, k) > 0 :: Total(cs, k)
  }

  lemma {:induction false} TotalNonNegative<K(!new)>(cs: seq<Counter<K>>, k: K)
    requires AllPositive(cs)
    ensures Total(cs, k) >= 0
  {
    if cs != [] {
      TotalNonNegative(cs[1..], k);
    }
  }

  /** Over positive counters, `Get` of the reference result is the plain total. */
  lemma GetTotalCounter<K(!new)>(cs: seq<Counter<K>>, k: K)
    requires AllPositive(cs)
    ensures Get(TotalCounter(cs), k) == Total(cs, k)
  {
    TotalNonNegative(cs, k);
  }

  /** Totals are additive over concatenation. */
  lemma {:induction false} TotalAppend<K(!new)>(a: seq<Counter<K>>, b: seq<Counter<K>>, k: K)
    ensures Total(a + b, k) == Total(a, k) + Total(b, k)
  {
    if a != [] {
      assert (a + b)[0] == a[0];
      assert (a + b)[1..] == a[1..] + b;
      TotalAppend(a[1..], b, k);
    } else {
      assert a + b == b;
    }
  }

  /** The reference result of a concatenation is the `+` of the two references. */
  lemma TotalCounterAppend<K(!new)>(a: seq<Counter<K>>, b: seq<Counter<K>>)
    requires AllPositive(a) && AllPositive(b)
    ensures TotalCounter(a + b) == Add(TotalCounter(a), TotalCounter(b))
  {
    forall k ensures Get(TotalCounter(a + b), k) == Get(Add(TotalCounter(a), TotalCounter(b)), k) {
      TotalAppend(a, b, k);
      TotalNonNegative(a, k);
      TotalNonNegative(b, k);
    }
    PositiveExtensional(TotalCounter(a + b), Add(TotalCounter(a), TotalCounter(b)));
  }

  /** A single positive counter is its own total. */
  lemma TotalCounterSingleton<K(!new)>(c: Counter<K>)
    requires Positive(c)
    ensures TotalCounter([c]) == c
  {
    forall k ensures Get(TotalCounter([c]), k) == Get(c, k) {
      assert [c][1..] == [];
      assert Total([c], k) == Get(c, k) + Total([], k);
    }
    PositiveExtensional(TotalCounter([c]), c);
  }

  /**
    `sum(args, Counter())` over positive counters gives, for every key, the sum
    of its counts across all of `args`, and drops the keys whose sum is zero.
  */
  lemma {:induction false} SumAllIsTotal<K(!new)>(cs: seq<Counter<K>>)
    requires AllPositive(cs)
    ensures SumAll(cs) == TotalCounter(cs)
  {
    if cs != [] {
      var n := |cs| - 1;
      assert cs == cs[..n] + [cs[n]];
      SumAllIsTotal(cs[..n]);
      TotalCounterSingleton(cs[n]);
      TotalCounterAppend(cs[..n], [cs[n]]);
    } else {
      PositiveExtensional(SumAll(cs), TotalCounter(cs));
    }
  }

  /** Removing one element from the middle of a list removes its count from the total. */
  lemma TotalRemove<K(!new)>(b: seq<Counter<K>>, i: nat, k: K)
    requires i < |b|
    ensures Total(b, k) == Get(b[i], k) + Total(b[..i] + b[i + 1..], k)
  {
    var pre, post := b[..i], b[i + 1..];
    assert b == pre + ([b[i]] + post);
    TotalAppend(pre, [b[i]] + post, k);
    assert ([b[i]] + post)[0] == b[i] && ([b[i]] + post)[1..] == post;
    TotalAppend(pre, post, k);
  }

  /**
    Totals do not depend on the order of the counters: whatever order the
    partial results arrive in, the per-key totals are the same.
  */
  lemma {:induction false} TotalPermutation<K(!new)>(a: seq<Counter<K>>, b: seq<Counter<K>>, k: K)
    requires multiset(a) == multiset(b)
    ensures Total(a, k) == Total(b, k)
  {
    if a == [] {
      assert |b| == |multiset(b)| == 0;
    } else {
      assert a[0] in multiset(b);
      var i :| 0 <= i < |b| && b[i] == a[0];
      var rest := b[..i] + b[i + 1..];
      assert b == b[..i] + [b[i]] + b[i + 1..];
      assert multiset(b) == multiset(b[..i]) + multiset{b[i]} + multiset(b[i + 1..]);
      assert a == [a[0]] + a[1..];
      assert multiset(a) == multiset{a[0]} + multiset(a[1..]);
      assert multiset(rest) == multiset(b[..i]) + multiset(b[i + 1..]);
      forall x ensures multiset(a[1..])[x] == multiset(rest)[x] {
        assert multiset(a)[x] == multiset(b)[x];
      }
      assert multiset(a[1..]) == multiset(rest);
      TotalPermutation(a[1..], rest, k);
      TotalRemove(b, i, k);
    }
  }

  /** The reference result depends only on the multiset of counters. */
  lemma TotalCounterPermutation<K(!new)>(a: seq<Counter<K>>, b: seq<Counter<K>>)
    requires multiset(a) == multiset(b)
    ensures TotalCounter(a) == TotalCounter(b)
  {
    forall k ensures Get(TotalCounter(a), k) == Get(TotalCounter(b), k) {
      TotalPermutation(a, b, k);
    }
    PositiveExtensional(TotalCounter(a), TotalCounter(b));
  }

  /** The counts of the elements of `s`: `Counter(iterable)`. */
  function CountOf<K(==,!new)>(s: seq<K>): (r: Counter<K>)
    ensures Positive(r)
    ensures forall k :: Get(r, k) == multiset(s)[k]
  {
    if s == [] then map[]
    else
      var n := |s| - 1;
      var prefix := CountOf(s[..n]);
      assert s == s[..n] + [s[n]];
      prefix[s[n] := Get(prefix, s[n]) + 1]
  }
}
