/** `java.util.stream.Collector` and the collectors of `java.util.stream.Collectors`
    that the demo uses, with the container each one mutates modelled as a
    value that its accumulator returns updated. A collector run on a parallel
    stream gives the same result as this sequential model: the demo's
    collectors merge partial containers in encounter order, and their merge
    functions (`Integer::max`, sums) are associative. */
module Collectors {
  import opened Wrappers
  import opened JavaInt
  import opened Streams
  import TreeMaps

  /** A collector: the empty container, how one element is added to it, and
      how the finished container becomes the result. */
  datatype Collector<!T, !A, R> = Collector(supplier: A, accumulator: (A, T) -> A, finisher: A -> R)

  /** The container after every element has been accumulated in order. */
  function Accumulate<T, A, R>(c: Collector<T, A, R>, s: seq<T>): A
  {
    Fold(s, c.supplier, c.accumulator)
  }

  /** `stream.collect(c)`. */
  function Collect<T, A, R>(s: seq<T>, c: Collector<T, A, R>): R
  {
    c.finisher(Accumulate(c, s))
  }

  /** `Collectors.toList()`. */
  function ToList<T>(): Collector<T, seq<T>, seq<T>>
  {
    Collector([], (a: seq<T>, t: T) => a + [t], (a: seq<T>) => a)
  }

  /** `Collectors.counting()`, which sums 1L per element. */
  function Counting<T>(): Collector<T, int, int>
  {
    Collector(0, (a: int, t: T) => a + 1, (a: int) => a)
  }

  /** `Collectors.mapping(f, downstream)`. */
  function Mapping<T, U, A, R>(f: T -> U, downstream: Collector<U, A, R>): Collector<T, A, R>
  {
    Collector(downstream.supplier, (a: A, t: T) => downstream.accumulator(a, f(t)), downstream.finisher)
  }

  /** `Collectors.filtering(p, downstream)`. */
  function Filtering<T, A, R>(p: T -> bool, downstream: Collector<T, A, R>): Collector<T, A, R>
  {
    Collector(downstream.supplier,
              (a: A, t: T) => if p(t) then downstream.accumulator(a, t) else a,
              downstream.finisher)
  }

  /** `Collectors.summingInt(f)`: an int total that wraps around. */
  function SummingInt<T>(f: T -> int): Collector<T, int, int>
  {
    Collector(0, (a: int, t: T) => Wrap(a + f(t)), (a: int) => a)
  }

  /** The exact value numerator/denominator of the double that
      `averagingInt` returns; denominator is never 0. */
  datatype Average = Average(numerator: int, denominator: nat)

  /** The container of `averagingInt`: a long sum and a count. */
  datatype SumCount = SumCount(sum: int, count: nat)

  /** `Collectors.averagingInt(f)`: 0 for no elements, otherwise sum/count. */
  function AveragingInt<T>(f: T -> int): Collector<T, SumCount, Average>
  {
    Collector(SumCount(0, 0),
              (a: SumCount, t: T) => SumCount(a.sum + f(t), a.count + 1),
              (a: SumCount) => if a.count == 0 then Average(0, 1) else Average(a.sum, a.count))
  }

  /** `Collectors.groupingBy(key, downstream)` into a HashMap: the bucket of a
      key is created by the downstream supplier when the key is first seen,
      and the downstream finisher is applied to every bucket at the end. */
  function GroupingBy<T, K, A, R>(key: T -> K, downstream: Collector<T, A, R>)
    : Collector<T, map<K, A>, map<K, R>>
  {
    Collector(map[],
              (m: map<K, A>, t: T) =>
                var k := key(t);
                m[k := downstream.accumulator(if k in m then m[k] else downstream.supplier, t)],
              (m: map<K, A>) => map k | k in m :: downstream.finisher(m[k]))
  }

  /** `Collectors.partitioningBy(p, downstream)`: two containers, both always
      present in the result. */
  function PartitioningBy<T, A, R>(p: T -> bool, downstream: Collector<T, A, R>)
    : Collector<T, (A, A), map<bool, R>>
  {
    Collector((downstream.supplier, downstream.supplier),
              (a: (A, A), t: T) =>
                if p(t) then (downstream.accumulator(a.0, t), a.1) else (a.0, downstream.accumulator(a.1, t)),
              (a: (A, A)) => map[true := downstream.finisher(a.0), false := downstream.finisher(a.1)])
  }

  /** `Collectors.toMap(key, value, merge, TreeMap::new)`: each element's value
      is merged into the entry of its key. */
  function ToTreeMap<T, V>(key: T -> string, value: T -> V, merge: (V, V) -> V)
    : Collector<T, TreeMaps.TreeMap<V>, TreeMaps.TreeMap<V>>
  {
    Collector([],
              (m: TreeMaps.TreeMap<V>, t: T) => TreeMaps.Merge(m, key(t), value(t), merge),
              (m: TreeMaps.TreeMap<V>) => m)
  }

  /** The keys the elements of s map to. */
  function KeysOf<T, K>(s: seq<T>, key: T -> K): set<K>
  {
    set i | 0 <= i < |s| :: key(s[i])
  }

  /** The elements whose key is k. */
  function KeyIs<T, K(==)>(key: T -> K, k: K): T -> bool
  {
    t => key(t) == k
  }

  // ---------------------------------------------------------------------
  // What each collector yields
  // ---------------------------------------------------------------------

  lemma AccumulateSnoc<T, A, R>(c: Collector<T, A, R>, s: seq<T>, x: T)
    ensures Accumulate(c, s + [x]) == c.accumulator(Accumulate(c, s), x)
  {
    assert (s + [x])[..|s|] == s;
  }

  lemma FilterSnoc<T>(s: seq<T>, x: T, p: T -> bool)
    ensures Filter(s + [x], p) == Filter(s, p) + if p(x) then [x] else []
  {
    assert (s + [x])[..|s|] == s;
  }

  /** `toList()` collects every element, in encounter order. */
  lemma {:induction false} CollectToList<T>(s: seq<T>)
    ensures Collect(s, ToList()) == s
  {
    if |s| > 0 {
      var s' := s[..|s| - 1];
      CollectToList(s');
      AccumulateSnoc(ToList(), s', s[|s| - 1]);
      assert s == s' + [s[|s| - 1]];
    }
  }

  /** `counting()` yields the number of elements. */
  lemma {:induction false} CollectCounting<T>(s: seq<T>)
    ensures Collect(s, Counting()) == |s|
  {
    if |s| > 0 {
      CollectCounting(s[..|s| - 1]);
    }
  }

  /** `mapping(f, d)` is d run on the mapped elements. */
  lemma {:induction false} AccumulateMapping<T, U, A, R>(s: seq<T>, f: T -> U, d: Collector<U, A, R>)
    ensures Accumulate(Mapping(f, d), s) == Accumulate(d, Map(s, f))
  {
    if |s| > 0 {
      var s' := s[..|s| - 1];
      AccumulateMapping(s', f, d);
      assert Map(s, f) == Map(s', f) + [f(s[|s| - 1])];
      AccumulateSnoc(d, Map(s', f), f(s[|s| - 1]));
    }
  }

  /** `filtering(p, d)` is d run on the elements that pass p. */
  lemma {:induction false} AccumulateFiltering<T, A, R>(s: seq<T>, p: T -> bool, d: Collector<T, A, R>)
    ensures Accumulate(Filtering(p, d), s) == Accumulate(d, Filter(s, p))
  {
    if |s| > 0 {
      var s', x := s[..|s| - 1], s[|s| - 1];
      AccumulateFiltering(s', p, d);
      var a' := Accumulate(d, Filter(s', p));
      assert Accumulate(Filtering(p, d), s) == Filtering(p, d).accumulator(a', x);
      if p(x) {
        assert Filter(s, p) == Filter(s', p) + [x];
        AccumulateSnoc(d, Filter(s', p), x);
      } else {
        assert Filter(s, p) == Filter(s', p);
      }
    }
  }

  /** `summingInt(f)` is the exact total wrapped once to an int, the same as
      `mapToInt(f).sum()`. */
  lemma {:induction false} CollectSummingInt<T>(s: seq<T>, f: T -> int)
    ensures Collect(s, SummingInt(f)) == Wrap(Sum(Map(s, f)))
    ensures Collect(s, SummingInt(f)) == IntSum(Map(s, f))
  {
    if |s| > 0 {
      var s', x := s[..|s| - 1], s[|s| - 1];
      CollectSummingInt(s', f);
      assert Map(s, f)[..|s| - 1] == Map(s', f);
      WrapAdd(Sum(Map(s', f)), f(x));
    }
    IntSumIsWrappedSum(Map(s, f));
  }

  /** The container of `averagingInt(f)` holds the exact sum and the count. */
  lemma {:induction false} AccumulateAveragingInt<T>(s: seq<T>, f: T -> int)
    ensures Accumulate(AveragingInt(f), s) == SumCount(Sum(Map(s, f)), |s|)
  {
    if |s| > 0 {
      var s' := s[..|s| - 1];
      AccumulateAveragingInt(s', f);
      assert Map(s, f)[..|s| - 1] == Map(s', f);
    }
  }

  /** `averagingInt(f)` is 0 on no elements, and otherwise the exact sum of
      the values over their count. */
  lemma CollectAveragingInt<T>(s: seq<T>, f: T -> int)
    ensures |s| == 0 ==> Collect(s, AveragingInt(f)) == Average(0, 1)
    ensures |s| > 0 ==> Collect(s, AveragingInt(f)) == Average(Sum(Map(s, f)), |s|)
  {
    AccumulateAveragingInt(s, f);
  }

  /** The keys of a sequence with one more element. */
  lemma KeysOfSnoc<T, K>(s: seq<T>, x: T, key: T -> K)
    ensures KeysOf(s + [x], key) == KeysOf(s, key) + {key(x)}
  {
    var t := s + [x];
    forall k | k in KeysOf(t, key) ensures k in KeysOf(s, key) + {key(x)} {
      var i :| 0 <= i < |t| && key(t[i]) == k;
      if i < |s| { assert t[i] == s[i]; }
    }
    forall k | k in KeysOf(s, key) ensures k in KeysOf(t, key) {
      var i :| 0 <= i < |s| && key(s[i]) == k;
      assert t[i] == s[i];
    }
    assert t[|s|] == x;
  }

  /** For every key that occurs, d's container over the elements with that
      key. */
  function Buckets<T, K, A, R>(s: seq<T>, key: T -> K, d: Collector<T, A, R>): map<K, A>
  {
    map k | k in KeysOf(s, key) :: Accumulate(d, Filter(s, KeyIs(key, k)))
  }

  /** One more element changes only the bucket of its key, which it joins
      last (creating it from the supplier if the key is new). */
  lemma BucketsSnoc<T, K, A, R>(s: seq<T>, x: T, key: T -> K, d: Collector<T, A, R>)
    ensures Buckets(s + [x], key, d)
         == Buckets(s, key, d)[key(x) := d.accumulator(
              if key(x) in Buckets(s, key, d) then Buckets(s, key, d)[key(x)] else d.supplier, x)]
  {
    var b, b' := Buckets(s, key, d), Buckets(s + [x], key, d);
    var kx := key(x);
    KeysOfSnoc(s, x, key);
    forall k | k in b' ensures b'[k] == b[kx := d.accumulator(if kx in b then b[kx] else d.supplier, x)][k] {
      FilterSnoc(s, x, KeyIs(key, k));
      if k == kx {
        AccumulateSnoc(d, Filter(s, KeyIs(key, k)), x);
        if kx !in b {
          forall i | 0 <= i < |s| ensures !KeyIs(key, k)(s[i]) {
            assert key(s[i]) in KeysOf(s, key);
          }
          FilterNone(s, KeyIs(key, k));
        }
      } else {
        assert Filter(s + [x], KeyIs(key, k)) == Filter(s, KeyIs(key, k));
      }
    }
  }

  /** The container of `groupingBy(key, d)`: one entry per key that occurs,
      holding d's container for exactly the elements with that key, in
      encounter order. */
  lemma {:induction false} AccumulateGroupingBy<T, K, A, R>(s: seq<T>, key: T -> K, d: Collector<T, A, R>)
    ensures Accumulate(GroupingBy(key, d), s) == Buckets(s, key, d)
  {
    if |s| == 0 {
      assert KeysOf(s, key) == {};
    } else {
      var s', x := s[..|s| - 1], s[|s| - 1];
      assert s == s' + [x];
      AccumulateGroupingBy(s', key, d);
      BucketsSnoc(s', x, key, d);
    }
  }

  /** `groupingBy(key, d)` maps each key that occurs to d's result over
      exactly the elements with that key, in encounter order. */
  lemma GroupingByBuckets<T, K, A, R>(s: seq<T>, key: T -> K, d: Collector<T, A, R>)
    ensures Collect(s, GroupingBy(key, d)).Keys == KeysOf(s, key)
    ensures forall k :: k in KeysOf(s, key) ==>
              Collect(s, GroupingBy(key, d))[k] == Collect(Filter(s, KeyIs(key, k)), d)
  {
    AccumulateGroupingBy(s, key, d);
  }

  /** `partitioningBy(p, d)`: both keys present, `true` holding d's result
      over the elements that pass p, `false` over those that fail it. */
  lemma {:induction false} AccumulatePartitioningBy<T, A, R>(s: seq<T>, p: T -> bool, d: Collector<T, A, R>)
    ensures Accumulate(PartitioningBy(p, d), s)
         == (Accumulate(d, Filter(s, p)), Accumulate(d, Filter(s, Not(p))))
  {
    if |s| > 0 {
      var s', x := s[..|s| - 1], s[|s| - 1];
      AccumulatePartitioningBy(s', p, d);
      var a' := (Accumulate(d, Filter(s', p)), Accumulate(d, Filter(s', Not(p))));
      assert Accumulate(PartitioningBy(p, d), s) == PartitioningBy(p, d).accumulator(a', x);
      assert Not(p)(x) == !p(x);
      if p(x) {
        assert Filter(s, p) == Filter(s', p) + [x];
        assert Filter(s, Not(p)) == Filter(s', Not(p));
        AccumulateSnoc(d, Filter(s', p), x);
      } else {
        assert Filter(s, p) == Filter(s', p);
        assert Filter(s, Not(p)) == Filter(s', Not(p)) + [x];
        AccumulateSnoc(d, Filter(s', Not(p)), x);
      }
    }
  }

  lemma PartitioningByBuckets<T, A, R>(s: seq<T>, p: T -> bool, d: Collector<T, A, R>)
    ensures Collect(s, PartitioningBy(p, d)).Keys == {true, false}
    ensures Collect(s, PartitioningBy(p, d))[true] == Collect(Filter(s, p), d)
    ensures Collect(s, PartitioningBy(p, d))[false] == Collect(Filter(s, Not(p)), d)
  {
    AccumulatePartitioningBy(s, p, d);
  }

  /** Merging into a TreeMap once per element: keys ascending, exactly the
      keys that occur, and under each key the merge of the values of its
      elements, in encounter order (the first value when there is one). */
  lemma {:induction false} AccumulateToTreeMap<T, V>(s: seq<T>, key: T -> string, value: T -> V, merge: (V, V) -> V)
    ensures TreeMaps.Ascending(Accumulate(ToTreeMap(key, value, merge), s))
    ensures TreeMaps.KeySet(Accumulate(ToTreeMap(key, value, merge), s)) == KeysOf(s, key)
    ensures forall k :: TreeMaps.Get(Accumulate(ToTreeMap(key, value, merge), s), k)
                     == Reduce(Map(Filter(s, KeyIs(key, k)), value), merge)
  {
    var c := ToTreeMap(key, value, merge);
    if |s| == 0 {
      assert KeysOf(s, key) == {};
    } else {
      var s', x := s[..|s| - 1], s[|s| - 1];
      assert s == s' + [x];
      AccumulateToTreeMap(s', key, value, merge);
      var m' := Accumulate(c, s');
      var kx := key(x);
      var remap := (prev: Option<V>) => if prev.None? then value(x) else merge(prev.value, value(x));
      assert Accumulate(c, s) == TreeMaps.Compute(m', kx, remap);
      TreeMaps.ComputeSpec(m', kx, remap);
      KeysOfSnoc(s', x, key);
      forall k ensures TreeMaps.Get(Accumulate(c, s), k) == Reduce(Map(Filter(s, KeyIs(key, k)), value), merge) {
        FilterSnoc(s', x, KeyIs(key, k));
        var f' := Filter(s', KeyIs(key, k));
        if k == kx {
          assert Filter(s, KeyIs(key, k)) == f' + [x];
          assert Map(f' + [x], value) == Map(f', value) + [value(x)] by {
            assert (f' + [x])[..|f'|] == f';
          }
          ReduceSnoc(Map(f', value), value(x), merge);
        } else {
          assert Filter(s, KeyIs(key, k)) == f';
        }
      }
    }
  }

  /** The sum, over a list of keys, of the sizes of their buckets. */
  function SumOfBucketSizes<T, K(==)>(s: seq<T>, key: T -> K, ks: seq<K>): int
  {
    if |ks| == 0 then 0 else |Filter(s, KeyIs(key, ks[0]))| + SumOfBucketSizes(s, key, ks[1..])
  }

  function KeyIn<T, K(==)>(key: T -> K, ks: seq<K>): T -> bool
  {
    t => key(t) in ks
  }

  lemma {:induction false} SumOfBucketSizesIsFilter<T, K>(s: seq<T>, key: T -> K, ks: seq<K>)
    requires NoDuplicates(ks)
    ensures SumOfBucketSizes(s, key, ks) == |Filter(s, KeyIn(key, ks))|
  {
    if |ks| == 0 {
      FilterNone(s, KeyIn(key, ks));
    } else {
      var rest := ks[1..];
      assert NoDuplicates(rest) by {
        forall i, j | 0 <= i < j < |rest| ensures rest[i] != rest[j] {
          assert rest[i] == ks[i + 1] && rest[j] == ks[j + 1];
        }
      }
      SumOfBucketSizesIsFilter(s, key, rest);
      assert ks == [ks[0]] + rest;
      assert ks[0] !in rest by {
        forall j | 0 <= j < |rest| ensures rest[j] != ks[0] {
          assert rest[j] == ks[j + 1];
        }
      }
      FilterCountSplit(s, KeyIn(key, ks), KeyIs(key, ks[0]), KeyIn(key, rest));
    }
  }

  /** Group-by loses and duplicates nothing: over any list of the keys that
      occur, each listed once, the bucket sizes add up to the element count. */
  lemma BucketSizesAddUp<T, K>(s: seq<T>, key: T -> K, ks: seq<K>)
    requires NoDuplicates(ks)
    requires forall i :: 0 <= i < |s| ==> key(s[i]) in ks
    ensures SumOfBucketSizes(s, key, ks) == |s|
  {
    SumOfBucketSizesIsFilter(s, key, ks);
    FilterAll(s, KeyIn(key, ks));
  }

  /** The total length of the lists stored under the given keys, a key
      without a list counting 0. */
  function ListSizes<K, T>(m: map<K, seq<T>>, ks: seq<K>): int
  {
    if |ks| == 0 then 0 else (if ks[0] in m then |m[ks[0]]| else 0) + ListSizes(m, ks[1..])
  }

  lemma {:induction false} ListSizesOfGrouping<T, K>(s: seq<T>, key: T -> K, ks: seq<K>)
    ensures ListSizes(Collect(s, GroupingBy(key, ToList())), ks) == SumOfBucketSizes(s, key, ks)
  {
    if |ks| > 0 {
      var m := Collect(s, GroupingBy(key, ToList()));
      GroupingByBuckets(s, key, ToList());
      ListSizesOfGrouping(s, key, ks[1..]);
      var k := ks[0];
      if k in m {
        CollectToList(Filter(s, KeyIs(key, k)));
      } else {
        forall i | 0 <= i < |s| ensures !KeyIs(key, k)(s[i]) {
          assert key(s[i]) in KeysOf(s, key);
        }
        FilterNone(s, KeyIs(key, k));
      }
    }
  }

  /** `groupingBy(key)` loses and duplicates nothing: over a duplicate-free
      list of keys covering every element's key, the bucket lengths add up
      to the number of elements. */
  lemma GroupingByListSizes<T, K>(s: seq<T>, key: T -> K, ks: seq<K>)
    requires NoDuplicates(ks)
    requires forall i :: 0 <= i < |s| ==> key(s[i]) in ks
    ensures ListSizes(Collect(s, GroupingBy(key, ToList())), ks) == |s|
  {
    ListSizesOfGrouping(s, key, ks);
    BucketSizesAddUp(s, key, ks);
  }
}
