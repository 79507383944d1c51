/** The `HashMap<String, Vec<String>>` shape shared by headers, queries and the parser's
    collector: a map from a name to its values in insertion order. */
module MultiMaps {

  type MultiMap = map<string, seq<string>>

  /** The values stored under `k`, empty when `k` is absent. */
  function Values(m: MultiMap, k: string): seq<string>
  {
    if k in m then m[k] else []
  }

  /** `m.entry(k).or_insert(Vec::new())` followed by pushing each of `vs` in order. */
  function Appended(m: MultiMap, k: string, vs: seq<string>): (r: MultiMap)
    ensures r.Keys == m.Keys + {k}
    ensures r[k] == Values(m, k) + vs
    ensures forall j | j in m && j != k :: r[j] == m[j]
  {
    m[k := Values(m, k) + vs]
  }

  /** Appending under `k` leaves the lists of the other names as they were. */
  lemma ValuesAppended(m: MultiMap, k: string, vs: seq<string>, j: string)
    ensures Values(Appended(m, k, vs), j) == Values(m, j) + (if k == j then vs else [])
  {
  }

  /** Appending in two steps is appending the concatenation. */
  lemma AppendedTwice(m: MultiMap, k: string, a: seq<string>, b: seq<string>)
    ensures Appended(Appended(m, k, a), k, b) == Appended(m, k, a + b)
  {
    assert Values(m, k) + a + b == Values(m, k) + (a + b);
  }

  /** Every stored list has at least one value. */
  predicate NonEmptyLists(m: MultiMap)
  {
    forall k | k in m :: m[k] != []
  }

  /** `order` lists every key of `keys` exactly once: one possible iteration order of a
      `HashMap`, whose actual order the program does not fix. */
  predicate IsEnumeration(order: seq<string>, keys: set<string>)
  {
    |order| == |keys|
    && (forall i | 0 <= i < |order| :: order[i] in keys)
    && (forall i, j | 0 <= i < j < |order| :: order[i] != order[j])
  }

  /** Distinct elements drawn from `keys`, as many as `keys` has, cover all of `keys`. */
  lemma {:induction false} EnumerationCovers(order: seq<string>, keys: set<string>)
    requires IsEnumeration(order, keys)
    ensures forall k | k in keys :: k in order
  {
    var listed := set i | 0 <= i < |order| :: order[i];
    assert listed <= keys;
    IndicesCount(order);
    if exists k :: k in keys && k !in listed {
      var k :| k in keys && k !in listed;
      assert listed < keys;
      SubsetCardinality(listed, keys);
    }
  }

  /** A strict subset is smaller. */
  lemma SubsetCardinality(a: set<string>, b: set<string>)
    requires a < b
    ensures |a| < |b|
  {
    var d := b - a;
    assert b == a + d;
    assert a * d == {};
    assert d != {} ==> |d| > 0;
    assert d == {} ==> a + d == a;
  }

  /** A sequence without repetitions has as many distinct elements as entries. */
  lemma {:induction false} IndicesCount(order: seq<string>)
    requires forall i, j | 0 <= i < j < |order| :: order[i] != order[j]
    ensures |set i | 0 <= i < |order| :: order[i]| == |order|
    decreases |order|
  {
    if order != [] {
      var init := order[..|order| - 1];
      IndicesCount(init);
      var last := order[|order| - 1];
      var s := set i | 0 <= i < |init| :: init[i];
      assert (set i | 0 <= i < |order| :: order[i]) == s + {last};
      assert last !in s;
    }
  }

  /** Every finite set of keys has an enumeration. */
  lemma {:induction false} EnumerationExists(keys: set<string>)
    ensures exists order :: IsEnumeration(order, keys)
    decreases |keys|
  {
    if keys == {} {
      assert IsEnumeration([], keys);
    } else {
      var k :| k in keys;
      EnumerationExists(keys - {k});
      var rest :| IsEnumeration(rest, keys - {k});
      assert IsEnumeration(rest + [k], keys);
    }
  }

  /** Visiting the keys of a `HashMap`: each key once, in an order the program does not
      fix (each step takes whichever remaining key it is given). */
  method Enumerate(keys: set<string>) returns (order: seq<string>)
    ensures IsEnumeration(order, keys)
  {
    order := [];
    var rest := keys;
    while rest != {}
      invariant rest <= keys
      invariant |order| + |rest| == |keys|
      invariant forall i | 0 <= i < |order| :: order[i] in keys && order[i] !in rest
      invariant forall i, j | 0 <= i < j < |order| :: order[i] != order[j]
      decreases |rest|
    {
      var k :| k in rest;
      order := order + [k];
      rest := rest - {k};
    }
  }
}
