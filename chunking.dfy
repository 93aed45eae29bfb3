/**
  `more_itertools.chunked(iterable, n)`: the iterable split into consecutive
  lists of `n` items, the last one possibly shorter.
*/
module Chunking {

  /** The concatenation of a list of lists, `chain.from_iterable`. */
  function Flatten<T>(ss: seq<seq<T>>): seq<T>
  {
    if ss == [] then [] else ss[0] + Flatten(ss[1..])
  }

  /**
    `list(chunked(s, n))`: concatenating the chunks gives back `s`; every
    chunk holds between 1 and `n` items and all but the last exactly `n`; the
    first chunk is the first `n` items (or all of `s` when it is shorter). When
    `n >= 2`, a list of at least two items yields strictly fewer chunks than
    items, which is what makes the chunked reduction terminate.
  */
  function Chunked<T>(s: seq<T>, n: nat): (r: seq<seq<T>>)
    requires n >= 1
    ensures Flatten(r) == s
    ensures forall i :: 0 <= i < |r| ==> 1 <= |r[i]| <= n
    ensures forall i :: 0 <= i < |r| - 1 ==> |r[i]| == n
    ensures |s| > 0 ==> |r| > 0 && r[0] == s[..if |s| < n then |s| else n]
    ensures |s| == 0 ==> r == []
    ensures |r| <= |s|
    ensures n >= 2 && |s| >= 2 ==> |r| < |s|
    decreases |s|
  {
    if |s| == 0 then []
    else if |s| <= n then
      assert Flatten([s]) == s + Flatten([]);
      [s]
    else
      var rest := Chunked(s[n..], n);
      var r := [s[..n]] + rest;
      assert r[1..] == rest;
      assert s == s[..n] + s[n..];
      r
  }

  /** Every item of every chunk is an item of the flattened list, and only those. */
  lemma {:induction false} FlattenMembers<T>(ss: seq<seq<T>>, i: nat, j: nat)
    requires i < |ss| && j < |ss[i]|
    ensures ss[i][j] in Flatten(ss)
  {
    if i == 0 {
      assert Flatten(ss) == ss[0] + Flatten(ss[1..]);
      assert Flatten(ss)[j] == ss[0][j];
    } else {
      FlattenMembers(ss[1..], i - 1, j);
      assert ss[1..][i - 1] == ss[i];
    }
  }

  /** Flattening one more list appends it. */
  lemma {:induction false} FlattenSnoc<T>(ss: seq<seq<T>>, s: seq<T>)
    ensures Flatten(ss + [s]) == Flatten(ss) + s
  {
    if ss == [] {
      assert ss + [s] == [s];
      assert Flatten([s]) == s + Flatten([]);
    } else {
      assert (ss + [s])[0] == ss[0];
      assert (ss + [s])[1..] == ss[1..] + [s];
      FlattenSnoc(ss[1..], s);
    }
  }

  /** Flattening distributes over concatenation. */
  lemma {:induction false} FlattenAppend<T>(a: seq<seq<T>>, b: seq<seq<T>>)
    ensures Flatten(a + b) == Flatten(a) + Flatten(b)
  {
    if a != [] {
      assert (a + b)[0] == a[0];
      assert (a + b)[1..] == a[1..] + b;
      FlattenAppend(a[1..], b);
    } else {
      assert a + b == b;
    }
  }

  /** Every item of the flattened list sits in some chunk. */
  lemma {:induction false} FlattenCovers<T>(ss: seq<seq<T>>, p: nat)
    requires p < |Flatten(ss)|
    ensures exists i, j :: 0 <= i < |ss| && 0 <= j < |ss[i]| && ss[i][j] == Flatten(ss)[p]
  {
    assert ss != [];
    if p < |ss[0]| {
      assert Flatten(ss)[p] == ss[0][p];
    } else {
      FlattenCovers(ss[1..], p - |ss[0]|);
      var i, j :| 0 <= i < |ss[1..]| && 0 <= j < |ss[1..][i]| && ss[1..][i][j] == Flatten(ss[1..])[p - |ss[0]|];
      assert ss[i + 1][j] == Flatten(ss)[p];
    }
  }

  /** Flattening around one chunk: what comes before it, the chunk, and what comes after. */
  lemma FlattenAround<T>(ss: seq<seq<T>>, j: nat)
    requires j < |ss|
    ensures Flatten(ss) == Flatten(ss[..j]) + (ss[j] + Flatten(ss[j + 1..]))
  {
    assert ss == ss[..j] + ss[j..];
    FlattenAppend(ss[..j], ss[j..]);
    assert ss[j..][0] == ss[j] && ss[j..][1..] == ss[j + 1..];
  }
}
