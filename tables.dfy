/**
  Turning a final Counter into the rows of the output table: one row per key.
  `Items` lists the keys in no particular order (`counter.items()`);
  `ItemsByCount` lists them by count, largest first (the rows sorted on the
  `count` column, descending, with an unstable sort).
*/
module Tables {

  /** `ks` lists every key of `m` exactly once. */
  ghost predicate ListsKeys<K(!new)>(ks: seq<K>, m: map<K, int>) {
    && |ks| == |m|
    && (forall i :: 0 <= i < |ks| ==> ks[i] in m)
    && (forall k :: k in m ==> k in ks)
    && (forall i, j :: 0 <= i < j < |ks| ==> ks[i] != ks[j])
  }

  /** The keys of `m`, each once, in an unspecified order. */
  method Items<K(==,!new)>(m: map<K, int>) returns (ks: seq<K>)
    ensures ListsKeys(ks, m)
  {
    var rest := m.Keys;
    ks := [];
    while rest != {}
      invariant rest <= m.Keys
      invariant forall i :: 0 <= i < |ks| ==> ks[i] in m && ks[i] !in rest
      invariant forall k :: k in m && k !in rest ==> k in ks
      invariant forall i, j :: 0 <= i < j < |ks| ==> ks[i] != ks[j]
      invariant |ks| + |rest| == |m|
      decreases rest
    {
      var k :| k in rest;
      ks := ks + [k];
      rest := rest - {k};
    }
  }

  /** A non-empty set of keys has one whose count is largest. */
  lemma {:induction false} LargestExists<K(!new)>(m: map<K, int>, s: set<K>)
    requires s != {} && s <= m.Keys
    ensures exists k :: k in s && forall k' :: k' in s ==> m[k'] <= m[k]
    decreases s
  {
    var x :| x in s;
    if s != {x} {
      LargestExists(m, s - {x});
      var y :| y in s - {x} && forall k' :: k' in s - {x} ==> m[k'] <= m[y];
      if m[x] <= m[y] {
        assert forall k' :: k' in s ==> m[k'] <= m[y];
      } else {
        assert forall k' :: k' in s ==> m[k'] <= m[x];
      }
    } else {
      assert forall k' :: k' in s ==> m[k'] <= m[x];
    }
  }

  /** The keys of `m`, each once, ordered by count, non-increasing. */
  method ItemsByCount<K(==,!new)>(m: map<K, int>) returns (ks: seq<K>)
    ensures ListsKeys(ks, m)
    ensures forall i, j :: 0 <= i < j < |ks| ==> m[ks[i]] >= m[ks[j]]
  {
    var rest := m.Keys;
    ks := [];
    while rest != {}
      invariant rest <= m.Keys
      invariant forall i :: 0 <= i < |ks| ==> ks[i] in m && ks[i] !in rest
      invariant forall k :: k in m && k !in rest ==> k in ks
      invariant forall i, j :: 0 <= i < j < |ks| ==> ks[i] != ks[j]
      invariant |ks| + |rest| == |m|
      invariant forall i, j :: 0 <= i < j < |ks| ==> m[ks[i]] >= m[ks[j]]
      invariant forall i, k :: 0 <= i < |ks| && k in rest ==> m[ks[i]] >= m[k]
      decreases rest
    {
      LargestExists(m, rest);
      var k :| k in rest && forall k' :: k' in rest ==> m[k'] <= m[k];
      ks := ks + [k];
      rest := rest - {k};
    }
  }
}
