/**
 * Map helpers of package `xmaps`: merge, equality, intersection and
 * difference.
 *
 * A Go map is a Dafny `map`. Each helper allocates a fresh result and fills
 * it while ranging over its arguments; ranging over a map visits its keys in
 * an unspecified order, which the loops here model by picking any key not
 * yet visited. Each method is proved against a function that specifies its
 * result, and the lemmas relate those functions to each other.
 */
module XMaps {

  // ---------------------------------------------------------------------
  // Merge

  /** The maps of `ms` combined from first to last, a later map overwriting an earlier one at a shared key. */
  function Merged<K, V>(ms: seq<map<K, V>>): map<K, V> {
    if ms == [] then map[] else Merged(ms[..|ms| - 1]) + ms[|ms| - 1]
  }

  /** The inner loop of `Merge`: `res[k] = v` for every entry of `m`, in any order. */
  method AssignAll<K, V>(dst: map<K, V>, m: map<K, V>) returns (res: map<K, V>)
    ensures res == dst + m
  {
    res := dst;
    var todo := m.Keys;
    while todo != {}
      invariant todo <= m.Keys
      invariant res.Keys == dst.Keys + (m.Keys - todo)
      invariant forall k :: k in res ==> res[k] == if k in m.Keys - todo then m[k] else dst[k]
      decreases todo
    {
      var k :| k in todo;
      res := res[k := m[k]];
      todo := todo - {k};
    }
  }

  /** `Merge`: all entries of all maps, a later map winning at a shared key; no maps give an empty map. */
  method Merge<K, V>(maps: seq<map<K, V>>) returns (res: map<K, V>)
    ensures res == Merged(maps)
    ensures maps == [] ==> res == map[]
  {
    res := map[];
    for i := 0 to |maps|
      invariant res == Merged(maps[..i])
    {
      assert maps[..i + 1][..i] == maps[..i];
      res := AssignAll(res, maps[i]);
    }
    assert maps[..|maps|] == maps;
  }

  /** The merged map has a key exactly when one of the maps has it. */
  lemma {:induction false} MergedKeys<K, V>(ms: seq<map<K, V>>, k: K)
    ensures k in Merged(ms) <==> exists i :: 0 <= i < |ms| && k in ms[i]
  {
    if ms != [] {
      var init := ms[..|ms| - 1];
      MergedKeys(init, k);
      assert forall i :: 0 <= i < |init| ==> init[i] == ms[i];
    }
  }

  /** Last writer wins: a key takes its value from the last map that has it. */
  lemma {:induction false} MergedLastWins<K, V>(ms: seq<map<K, V>>, k: K, i: nat)
    requires i < |ms| && k in ms[i]
    requires forall j :: i < j < |ms| ==> k !in ms[j]
    ensures k in Merged(ms) && Merged(ms)[k] == ms[i][k]
  {
    if i < |ms| - 1 {
      var init := ms[..|ms| - 1];
      assert forall j :: 0 <= j < |init| ==> init[j] == ms[j];
      MergedLastWins(init, k, i);
    }
  }

  // ---------------------------------------------------------------------
  // Equal

  /** Same keys, and the same value at every key. */
  predicate SameEntries<K, V(==)>(m1: map<K, V>, m2: map<K, V>) {
    m1.Keys == m2.Keys && forall k :: k in m1 ==> m1[k] == m2[k]
  }

  /** A subset as large as its superset is the whole superset. */
  lemma SubsetOfSameSize<K>(a: set<K>, b: set<K>)
    requires a <= b && |a| == |b|
    ensures a == b
  {
    assert b == a + (b - a);
    assert |b - a| == 0;
  }

  /** `Equal`: same number of entries, and every key of `m1` present in `m2` with the same value. */
  method Equal<K, V(==)>(m1: map<K, V>, m2: map<K, V>) returns (eq: bool)
    ensures eq <==> SameEntries(m1, m2)
  {
    if |m1| != |m2| {
      return false;
    }
    var todo := m1.Keys;
    while todo != {}
      invariant todo <= m1.Keys
      invariant forall k :: k in m1.Keys - todo ==> k in m2 && m1[k] == m2[k]
      decreases todo
    {
      var k :| k in todo;
      if k !in m2 {
        return false;
      }
      if m1[k] != m2[k] {
        return false;
      }
      todo := todo - {k};
    }
    assert m1.Keys <= m2.Keys;
    SubsetOfSameSize(m1.Keys, m2.Keys);
    return true;
  }

  /** Equal entries is map equality. */
  lemma SameEntriesIsEquality<K, V>(m1: map<K, V>, m2: map<K, V>)
    ensures SameEntries(m1, m2) <==> m1 == m2
  {
  }

  /** Equal entries is reflexive and symmetric. */
  lemma SameEntriesReflexiveSymmetric<K, V>(m1: map<K, V>, m2: map<K, V>)
    ensures SameEntries(m1, m1)
    ensures SameEntries(m1, m2) <==> SameEntries(m2, m1)
  {
  }

  // ---------------------------------------------------------------------
  // Intersect

  /** The entries present, with equal values, in both maps. */
  function Intersection<K, V(==)>(m1: map<K, V>, m2: map<K, V>): map<K, V> {
    map k | k in m1 && k in m2 && m1[k] == m2[k] :: m1[k]
  }

  /** `Intersect`: keep the entries of `m1` that `m2` has with an equal value. */
  method Intersect<K, V(==)>(m1: map<K, V>, m2: map<K, V>) returns (res: map<K, V>)
    ensures forall k :: k in res <==> k in m1 && k in m2 && m1[k] == m2[k]
    ensures forall k :: k in res ==> res[k] == m1[k]
    ensures res == Intersection(m1, m2)
  {
    res := map[];
    var todo := m1.Keys;
    while todo != {}
      invariant todo <= m1.Keys
      invariant forall k :: k in res <==> k in m1.Keys - todo && k in m2 && m1[k] == m2[k]
      invariant forall k :: k in res ==> res[k] == m1[k]
      decreases todo
    {
      var k :| k in todo;
      if k in m2 && m1[k] == m2[k] {
        res := res[k := m1[k]];
      }
      todo := todo - {k};
    }
  }

  /** A map intersected with itself is itself. */
  lemma IntersectionSelf<K, V>(m: map<K, V>)
    ensures Intersection(m, m) == m
  {
  }

  /** Intersection does not depend on the order of its arguments. */
  lemma IntersectionCommutes<K, V>(m1: map<K, V>, m2: map<K, V>)
    ensures Intersection(m1, m2) == Intersection(m2, m1)
  {
  }

  // ---------------------------------------------------------------------
  // Difference

  /**
   * The keys in exactly one map, with that map's value, and the keys in both
   * maps with different values, with the value of `m2`.
   */
  function DifferenceOf<K, V(==)>(m1: map<K, V>, m2: map<K, V>): map<K, V> {
    map k | k in m1.Keys + m2.Keys && !(k in m1 && k in m2 && m1[k] == m2[k]) ::
      if k in m2 then m2[k] else m1[k]
  }

  /**
   * The first loop of `Difference`: the keys of `m1` that `m2` lacks keep
   * `m1`'s value, and those `m2` has with a different value take `m2`'s.
   */
  method DifferenceFromFirst<K, V(==)>(m1: map<K, V>, m2: map<K, V>) returns (diff: map<K, V>)
    ensures forall k :: k in diff <==> k in m1 && !(k in m2 && m1[k] == m2[k])
    ensures forall k :: k in diff ==> diff[k] == if k in m2 then m2[k] else m1[k]
  {
    diff := map[];
    var todo := m1.Keys;
    while todo != {}
      invariant todo <= m1.Keys
      invariant forall k :: k in diff <==> k in m1.Keys - todo && !(k in m2 && m1[k] == m2[k])
      invariant forall k :: k in diff ==> diff[k] == if k in m2 then m2[k] else m1[k]
      decreases todo
    {
      var k :| k in todo;
      if k in m2 {
        if m2[k] != m1[k] {
          diff := diff[k := m2[k]];
        }
      } else {
        diff := diff[k := m1[k]];
      }
      todo := todo - {k};
    }
  }

  /**
   * `Difference`: a key in exactly one map keeps that map's value; a key in
   * both maps with different values takes the value of `m2`; a key in both
   * maps with equal values is absent.
   */
  method Difference<K, V(==)>(m1: map<K, V>, m2: map<K, V>) returns (diff: map<K, V>)
    ensures forall k :: k in m1 && k !in m2 ==> k in diff && diff[k] == m1[k]
    ensures forall k :: k in m2 && k !in m1 ==> k in diff && diff[k] == m2[k]
    ensures forall k :: k in m1 && k in m2 && m1[k] != m2[k] ==> k in diff && diff[k] == m2[k]
    ensures forall k :: k in m1 && k in m2 && m1[k] == m2[k] ==> k !in diff
    ensures forall k :: k in diff ==> k in m1 || k in m2
    ensures diff == DifferenceOf(m1, m2)
  {
    diff := DifferenceFromFirst(m1, m2);
    ghost var first := diff;
    var todo := m2.Keys;
    while todo != {}
      invariant todo <= m2.Keys
      invariant forall k :: k in diff <==> k in first || (k in m2.Keys - todo && k !in m1)
      invariant forall k :: k in diff ==> diff[k] == if k in first then first[k] else m2[k]
      decreases todo
    {
      var k :| k in todo;
      if k !in m1 {
        diff := diff[k := m2[k]];
      }
      todo := todo - {k};
    }
  }

  /** Swapping the arguments of the difference changes values at most, never keys. */
  lemma DifferenceKeysSymmetric<K, V>(m1: map<K, V>, m2: map<K, V>)
    ensures DifferenceOf(m1, m2).Keys == DifferenceOf(m2, m1).Keys
  {
  }

  /** Where only one map has the key, the difference does not depend on the order of the arguments. */
  lemma DifferenceOutsideConflicts<K, V>(m1: map<K, V>, m2: map<K, V>, k: K)
    requires (k in m1) != (k in m2)
    ensures k in DifferenceOf(m1, m2) && k in DifferenceOf(m2, m1)
    ensures DifferenceOf(m1, m2)[k] == DifferenceOf(m2, m1)[k]
  {
  }

  /**
   * Intersection and difference split the keys of both maps: no key is in
   * both, and every key of either map is in one of them.
   */
  lemma IntersectionDifferencePartition<K, V>(m1: map<K, V>, m2: map<K, V>)
    ensures Intersection(m1, m2).Keys !! DifferenceOf(m1, m2).Keys
    ensures Intersection(m1, m2).Keys + DifferenceOf(m1, m2).Keys == m1.Keys + m2.Keys
  {
  }

  /** A map differs from itself nowhere. */
  lemma DifferenceSelf<K, V>(m: map<K, V>)
    ensures DifferenceOf(m, m) == map[]
  {
  }
}
