/** The collectors the queries use: `groupingBy` (with the downstream collectors
    `reducing` and `counting`) and `toMap`, plus the sum of a map's values that
    relates a grouped total to the overall one. */
module Grouping {
  import opened Results
  import opened Seqs

  /** The test "has key `k`", as a filter predicate. */
  ghost function HasKey<T, K>(key: T -> K, k: K): T -> bool
  {
    x => key(x) == k
  }

  /** The elements of `s` whose key is `k`, in encounter order. */
  ghost function WithKey<T(!new), K(!new)>(s: seq<T>, key: T -> K, k: K): (r: seq<T>)
  {
    Filter(s, HasKey(key, k))
  }

  /** `groupingBy(key)`: each key that some element has, mapped to the elements with
      that key in encounter order (`GroupByWithKey`). Elements are appended one at a
      time, as the collector's accumulator does. */
  function GroupBy<T(!new), K(!new)>(s: seq<T>, key: T -> K): (m: map<K, seq<T>>)
    ensures forall k :: k in m <==> exists x :: x in s && key(x) == k
  {
    if |s| == 0 then map[]
    else
      var init := s[..|s| - 1];
      var x := s[|s| - 1];
      var m := GroupBy(init, key);
      var k := key(x);
      assert s == init + [x];
      m[k := (if k in m then m[k] else []) + [x]]
  }

  /** The group of a key holds exactly the elements with that key, in encounter
      order. */
  lemma {:induction false} GroupByWithKey<T(!new), K(!new)>(s: seq<T>, key: T -> K, k: K)
    requires k in GroupBy(s, key)
    ensures GroupBy(s, key)[k] == WithKey(s, key, k)
  {
    var init := s[..|s| - 1];
    var x := s[|s| - 1];
    assert s == init + [x];
    if key(x) == k {
      if k in GroupBy(init, key) {
        GroupByWithKey(init, key, k);
      } else {
        FilterNone(init, HasKey(key, k));
      }
    } else {
      GroupByWithKey(init, key, k);
    }
  }

  /** No group is empty. */
  lemma GroupByNonEmpty<T(!new), K(!new)>(s: seq<T>, key: T -> K)
    ensures forall k :: k in GroupBy(s, key) ==> GroupBy(s, key)[k] != []
  {
    forall k | k in GroupBy(s, key)
      ensures GroupBy(s, key)[k] != []
    {
      var x :| x in s && key(x) == k;
      FilterContents(s, HasKey(key, k));
      assert x in WithKey(s, key, k);
    }
  }

  /** Every element lands in the group of its own key, as often as it occurs in the
      input, and in no other group: the groups partition the input. */
  lemma GroupByPartitions<T(!new), K(!new)>(s: seq<T>, key: T -> K)
    ensures forall x :: x in s ==> key(x) in GroupBy(s, key)
    ensures forall x :: x in s ==> multiset(GroupBy(s, key)[key(x)])[x] == multiset(s)[x]
    ensures forall k, x :: k in GroupBy(s, key) && x in GroupBy(s, key)[k] ==> key(x) == k
  {
    var groups := GroupBy(s, key);
    forall x | x in s
      ensures key(x) in groups && multiset(groups[key(x)])[x] == multiset(s)[x]
    {
      GroupByWithKey(s, key, key(x));
      FilterContents(s, HasKey(key, key(x)));
    }
    forall k, x | k in groups && x in groups[k]
      ensures key(x) == k
    {
      GroupByWithKey(s, key, k);
    }
  }

  /** `groupingBy(key, reducing(ZERO, f, add))`: each group's total weight. A group
      of one element totals that element's weight, and no total is negative when no
      weight is (`AppendToGroupSum` adds one more element). */
  function Totals<T(!new), K(!new)>(groups: map<K, seq<T>>, f: T -> real): (m: map<K, real>)
    ensures m.Keys == groups.Keys
    ensures forall k :: k in m && |groups[k]| == 1 ==> m[k] == f(groups[k][0])
    ensures (forall x :: f(x) >= 0.0) ==> forall k :: k in m ==> m[k] >= 0.0
  {
    map k | k in groups :: SeqSum(groups[k], f)
  }

  /** `groupingBy(identity(), counting())`: each element mapped to its number of
      occurrences. */
  function Counting<T(!new)>(s: seq<T>): (m: map<T, nat>)
    ensures forall x :: x in m <==> x in s
    ensures forall x :: x in m ==> m[x] == multiset(s)[x]
  {
    var groups := GroupBy(s, (x: T) => x);
    assert forall x :: x in groups ==> |groups[x]| == multiset(s)[x] by {
      forall x | x in groups
        ensures |groups[x]| == multiset(s)[x]
      {
        GroupByWithKey(s, (y: T) => y, x);
        FilterContents(s, HasKey((y: T) => y, x));
        SameCount(groups[x], x);
      }
    }
    map x | x in groups :: |groups[x]|
  }

  /** A sequence holding only copies of `x` holds `x` as often as it is long. */
  lemma {:induction false} SameCount<T>(s: seq<T>, x: T)
    requires forall i :: 0 <= i < |s| ==> s[i] == x
    ensures multiset(s)[x] == |s|
  {
    if |s| > 0 {
      SameCount(s[..|s| - 1], x);
      assert s == s[..|s| - 1] + [x];
    }
  }

  // ---------------------------------------------------------------------------
  // Sum of a map's values
  // ---------------------------------------------------------------------------

  /** Some key of a non-empty map, chosen once and for all. */
  ghost function PickKey<K, V>(m: map<K, V>): (k: K)
    requires |m| > 0
    ensures k in m
  {
    assert m.Keys != {};
    var k :| k in m.Keys;
    k
  }

  /** The sum of the values of `m`, in no particular key order. */
  ghost function SumValues<K>(m: map<K, real>): real
    decreases |m|
  {
    if |m| == 0 then 0.0
    else
      var k := PickKey(m);
      assert (m - {k}).Keys == m.Keys - {k};
      m[k] + SumValues(m - {k})
  }

  /** Any key can be taken out first: the sum does not depend on key order. */
  lemma {:induction false} SumValuesRemove<K>(m: map<K, real>, k: K)
    requires k in m
    ensures SumValues(m) == m[k] + SumValues(m - {k})
    decreases |m|
  {
    var j := PickKey(m);
    assert (m - {j}).Keys == m.Keys - {j};
    if j != k {
      assert (m - {k}).Keys == m.Keys - {k};
      SumValuesRemove(m - {j}, k);
      SumValuesRemove(m - {k}, j);
      assert m - {j} - {k} == m - {k} - {j};
    }
  }

  /** The group totals add up to the total over the whole input. */
  lemma {:induction false} GroupedSum<T(!new), K(!new)>(s: seq<T>, key: T -> K, f: T -> real)
    ensures SumValues(Totals(GroupBy(s, key), f)) == SeqSum(s, f)
  {
    if |s| > 0 {
      var init := s[..|s| - 1];
      var x := s[|s| - 1];
      var g := GroupBy(init, key);
      var k := key(x);
      GroupBySnoc(s, key);
      AppendToGroupSum(g, k, x, f);
      GroupedSum(init, key, f);
    }
  }

  /** `GroupBy` appends the last element to the group of its key. */
  lemma GroupBySnoc<T(!new), K(!new)>(s: seq<T>, key: T -> K)
    requires |s| > 0
    ensures var g := GroupBy(s[..|s| - 1], key);
            var k := key(s[|s| - 1]);
            GroupBy(s, key) == g[k := (if k in g then g[k] else []) + [s[|s| - 1]]]
  {
  }

  /** Appending an element to one group adds its weight to the sum of the totals. */
  lemma AppendToGroupSum<T(!new), K(!new)>(g: map<K, seq<T>>, k: K, x: T, f: T -> real)
    ensures var oldGroup := if k in g then g[k] else [];
            SumValues(Totals(g[k := oldGroup + [x]], f)) == SumValues(Totals(g, f)) + f(x)
  {
    var oldGroup := if k in g then g[k] else [];
    var before := Totals(g, f);
    var total := SeqSum(oldGroup, f) + f(x);
    assert SeqSum(oldGroup + [x], f) == total by {
      assert (oldGroup + [x])[..|oldGroup|] == oldGroup;
    }
    TotalsUpdate(g, k, oldGroup + [x], f);
    SumValuesUpdate(before, k, total);
  }

  /** Replacing one group replaces its total and keeps the others. */
  lemma TotalsUpdate<T(!new), K(!new)>(g: map<K, seq<T>>, k: K, group: seq<T>, f: T -> real)
    ensures Totals(g[k := group], f) == Totals(g, f)[k := SeqSum(group, f)]
  {
  }

  /** Setting the value at `k` to `v` changes the sum by `v` less the old value. */
  lemma SumValuesUpdate<K>(m: map<K, real>, k: K, v: real)
    ensures SumValues(m[k := v]) == SumValues(m) - (if k in m then m[k] else 0.0) + v
  {
    SumValuesRemove(m[k := v], k);
    assert m[k := v] - {k} == m - {k};
    if k in m {
      SumValuesRemove(m, k);
    } else {
      assert m - {k} == m;
    }
  }

  /** The counts of `Counting` add up to the length of the input. */
  lemma CountingSum<T(!new)>(s: seq<T>)
    ensures SumValues(map x | x in Counting(s) :: Counting(s)[x] as real) == |s| as real
  {
    var groups := GroupBy(s, (x: T) => x);
    var ones := (x: T) => 1.0;
    var counts := map x | x in Counting(s) :: Counting(s)[x] as real;
    forall x | x in groups
      ensures x in counts && Totals(groups, ones)[x] == counts[x]
    {
      SeqSumOnes(groups[x]);
    }
    assert counts == Totals(groups, ones);
    GroupedSum(s, (x: T) => x, ones);
    SeqSumOnes(s);
  }

  // ---------------------------------------------------------------------------
  // toMap
  // ---------------------------------------------------------------------------

  /** No two elements share a key. */
  predicate KeysDistinct<T, K(==)>(s: seq<T>, key: T -> K)
  {
    forall i, j :: 0 <= i < j < |s| ==> key(s[i]) != key(s[j])
  }

  /** No two elements that pass `p` share a key. */
  ghost predicate PassingKeysDistinct<T, K>(s: seq<T>, p: T -> bool, key: T -> K)
  {
    forall i, j :: 0 <= i < j < |s| && p(s[i]) && p(s[j]) ==> key(s[i]) != key(s[j])
  }

  /** The elements that pass a filter have distinct keys exactly when no two passing
      elements of the input share a key. */
  lemma {:induction false} KeysDistinctFilter<T(!new), K(!new)>(s: seq<T>, p: T -> bool, key: T -> K)
    ensures KeysDistinct(Filter(s, p), key) <==> PassingKeysDistinct(s, p, key)
  {
    if |s| > 0 {
      var init := s[..|s| - 1];
      var x := s[|s| - 1];
      var r := Filter(init, p);
      KeysDistinctFilter(init, p, key);
      FilterContents(init, p);
      PassingKeysDistinctSnoc(init, x, p, key);
      assert s == init + [x];
      if p(x) {
        KeysDistinctSnoc(r, x, key);
      }
    }
  }

  lemma KeysDistinctSnoc<T, K>(r: seq<T>, x: T, key: T -> K)
    ensures KeysDistinct(r + [x], key) <==>
      KeysDistinct(r, key) && forall y :: y in r ==> key(y) != key(x)
  {
    var r' := r + [x];
    assert forall i :: 0 <= i < |r| ==> r'[i] == r[i];
    if KeysDistinct(r', key) {
      forall y | y in r
        ensures key(y) != key(x)
      {
        var k :| 0 <= k < |r| && r[k] == y;
        assert r'[k] == y && r'[|r|] == x;
      }
    }
  }

  lemma PassingKeysDistinctSnoc<T, K>(s: seq<T>, x: T, p: T -> bool, key: T -> K)
    ensures PassingKeysDistinct(s + [x], p, key) <==>
      PassingKeysDistinct(s, p, key) && (p(x) ==> forall y :: y in s && p(y) ==> key(y) != key(x))
  {
    var s' := s + [x];
    assert forall i :: 0 <= i < |s| ==> s'[i] == s[i];
    if PassingKeysDistinct(s', p, key) && p(x) {
      forall y | y in s && p(y)
        ensures key(y) != key(x)
      {
        var k :| 0 <= k < |s| && s[k] == y;
        assert s'[k] == y && s'[|s|] == x;
      }
    }
  }

  /** `toMap(key, value)`: every element's key mapped to its value, failing with
      `IllegalStateException` as soon as a key turns up a second time. */
  function ToMap<T(!new), K(!new), V>(s: seq<T>, key: T -> K, value: T -> V): (r: Result<map<K, V>>)
    ensures r.Failure? <==> !KeysDistinct(s, key)
    ensures r.Failure? ==> r.error == DuplicateKey
    ensures r.Success? ==> forall k :: k in r.value <==> exists x :: x in s && key(x) == k
    ensures r.Success? ==> forall x :: x in s ==> r.value[key(x)] == value(x)
  {
    if |s| == 0 then Success(map[])
    else
      var init := s[..|s| - 1];
      var x := s[|s| - 1];
      assert s == init + [x];
      KeysDistinctSnoc(init, x, key);
      match ToMap(init, key, value)
      case Failure(e) => Failure(e)
      case Success(m) =>
        if key(x) in m then Failure(DuplicateKey)
        else Success(m[key(x) := value(x)])
  }
}
