/** The sequential meaning of the java.util.stream operations the demo uses,
    as functions over finite sequences. Every fold runs from the first element
    to the last, as a sequential stream does; the definitions peel off the
    LAST element, so that "the first i elements" is always a prefix. */
module Streams {
  import opened Wrappers
  import opened JavaInt

  // ---------------------------------------------------------------------
  // Intermediate operations
  // ---------------------------------------------------------------------

  /** `filter(p)`: the elements that satisfy p, in encounter order. */
  function Filter<T>(s: seq<T>, p: T -> bool): seq<T>
  {
    if |s| == 0 then []
    else Filter(s[..|s| - 1], p) + (if p(s[|s| - 1]) then [s[|s| - 1]] else [])
  }

  /** The negation of a predicate (`Predicate.not`). */
  function Not<T>(p: T -> bool): T -> bool
  {
    x => !p(x)
  }

  /** `map(f)`: f applied to every element, one to one, in order. */
  function Map<T, U>(s: seq<T>, f: T -> U): (r: seq<U>)
    ensures |r| == |s|
    ensures forall i :: 0 <= i < |s| ==> r[i] == f(s[i])
  {
    if |s| == 0 then [] else Map(s[..|s| - 1], f) + [f(s[|s| - 1])]
  }

  /** Under a one-to-one function an element's image occurs in the mapped
      sequence exactly as often as the element occurs in the source. */
  lemma {:induction false} MapOccurrences<T, U>(s: seq<T>, f: T -> U, x: T)
    requires forall a, b :: f(a) == f(b) ==> a == b
    ensures multiset(Map(s, f))[f(x)] == multiset(s)[x]
  {
    if |s| > 0 {
      var s', y := s[..|s| - 1], s[|s| - 1];
      MapOccurrences(s', f, x);
      assert s == s' + [y];
      assert Map(s, f) == Map(s', f) + [f(y)];
    }
  }

  /** `flatMap(l -> l.stream())`: the inner sequences concatenated in order. */
  function Flatten<T>(ss: seq<seq<T>>): seq<T>
  {
    if |ss| == 0 then [] else Flatten(ss[..|ss| - 1]) + ss[|ss| - 1]
  }

  /** `limit(n)`: at most the first n elements. */
  function Limit<T>(s: seq<T>, n: nat): (r: seq<T>)
    ensures |r| == if n < |s| then n else |s|
    ensures forall i :: 0 <= i < |r| ==> r[i] == s[i]
  {
    if n < |s| then s[..n] else s
  }

  /** `distinct()`: every element once. Each `distinct()` of the demo is
      followed by `sorted()`, so the contract states which elements remain
      and not their order. */
  function Distinct<T(==)>(s: seq<T>): (r: seq<T>)
    ensures |r| <= |s|
    ensures forall i :: 0 <= i < |s| ==> s[i] in r
    ensures forall i :: 0 <= i < |r| ==> r[i] in s
    ensures NoDuplicates(r)
  {
    if |s| == 0 then []
    else
      var d := Distinct(s[..|s| - 1]);
      if s[|s| - 1] in d then d else d + [s[|s| - 1]]
  }

  predicate NoDuplicates<T(==)>(s: seq<T>)
  {
    forall i, j :: 0 <= i < j < |s| ==> s[i] != s[j]
  }

  predicate Sorted(s: seq<int>)
  {
    forall i, j :: 0 <= i < j < |s| ==> s[i] <= s[j]
  }

  /** Inserting x into a sorted sequence, after the elements not above it. */
  function Insert(s: seq<int>, x: int): seq<int>
  {
    if |s| == 0 || s[|s| - 1] <= x then s + [x]
    else Insert(s[..|s| - 1], x) + [s[|s| - 1]]
  }

  /** `sorted()` on ints: ascending natural order (an insertion sort; the
      result, not the algorithm, is what the model fixes). */
  function Sort(s: seq<int>): seq<int>
  {
    if |s| == 0 then [] else Insert(Sort(s[..|s| - 1]), s[|s| - 1])
  }

  /** `IntStream.rangeClosed(lo, hi)`. */
  function RangeClosed(lo: int, hi: int): (r: seq<int>)
    ensures |r| == if hi < lo then 0 else hi - lo + 1
    ensures forall i :: 0 <= i < |r| ==> r[i] == lo + i
    decreases hi - lo
  {
    if hi < lo then [] else RangeClosed(lo, hi - 1) + [hi]
  }

  /** `IntStream.iterate(seed, i -> i < bound, i -> i + step)`: the seed and
      its successors, stopping at the first one that reaches the bound. */
  function IterateWhileBelow(seed: int, bound: int, step: int): (r: seq<int>)
    requires step > 0
    ensures forall i :: 0 <= i < |r| ==> r[i] == seed + i * step && r[i] < bound
    ensures seed + |r| * step >= bound
    decreases bound - seed
  {
    if seed >= bound then [] else [seed] + IterateWhileBelow(seed + step, bound, step)
  }

  // ---------------------------------------------------------------------
  // Terminal operations
  // ---------------------------------------------------------------------

  /** `reduce(identity, op)` evaluated sequentially: a left fold. */
  function Fold<T, A>(s: seq<T>, identity: A, op: (A, T) -> A): A
  {
    if |s| == 0 then identity else op(Fold(s[..|s| - 1], identity, op), s[|s| - 1])
  }

  /** `reduce(op)`: empty on an empty stream, otherwise the fold of the rest
      starting from the first element. */
  function Reduce<T>(s: seq<T>, op: (T, T) -> T): (r: Option<T>)
    ensures r.None? <==> |s| == 0
  {
    if |s| == 0 then None else Some(Fold(s[1..], s[0], op))
  }

  /** The exact sum of a sequence of integers. */
  function Sum(s: seq<int>): int
  {
    if |s| == 0 then 0 else Sum(s[..|s| - 1]) + s[|s| - 1]
  }

  /** `Integer::sum` on ints, which wraps around. */
  function IntAdd(a: int, b: int): int
  {
    Wrap(a + b)
  }

  /** `IntStream.sum()`, i.e. `reduce(0, Integer::sum)`. */
  function IntSum(s: seq<int>): int
  {
    Fold(s, 0, IntAdd)
  }

  /** `anyMatch(p)`. */
  function AnyMatch<T>(s: seq<T>, p: T -> bool): (r: bool)
    ensures r <==> exists i :: 0 <= i < |s| && p(s[i])
  {
    if |s| == 0 then false else AnyMatch(s[..|s| - 1], p) || p(s[|s| - 1])
  }

  /** `allMatch(p)`. */
  function AllMatch<T>(s: seq<T>, p: T -> bool): (r: bool)
    ensures r <==> forall i :: 0 <= i < |s| ==> p(s[i])
  {
    if |s| == 0 then true else AllMatch(s[..|s| - 1], p) && p(s[|s| - 1])
  }

  /** `findFirst()`. */
  function FindFirst<T>(s: seq<T>): Option<T>
  {
    if |s| == 0 then None else Some(s[0])
  }

  /** `Integer::max`. */
  function Max(a: int, b: int): int
  {
    if a >= b then a else b
  }

  /** `BinaryOperator.maxBy(Comparator.comparing(key))`: keeps the left
      operand unless the right one has a strictly larger key. */
  function MaxByOp<T>(key: T -> int): (T, T) -> T
  {
    (a, b) => if key(a) >= key(b) then a else b
  }

  /** s[i] has the largest key of s and is its first element with that key. */
  ghost predicate FirstMaximum<T>(s: seq<T>, key: T -> int, i: int)
  {
    && 0 <= i < |s|
    && (forall j :: 0 <= j < |s| ==> key(s[j]) <= key(s[i]))
    && (forall j :: 0 <= j < i ==> key(s[j]) < key(s[i]))
  }

  // ---------------------------------------------------------------------
  // Properties of the operations
  // ---------------------------------------------------------------------

  /** What passes `filter(p)` satisfies p, and there is no more of it than
      there was input. */
  lemma {:induction false} FilterSatisfies<T>(s: seq<T>, p: T -> bool)
    ensures |Filter(s, p)| <= |s|
    ensures forall i :: 0 <= i < |Filter(s, p)| ==> p(Filter(s, p)[i])
  {
    if |s| > 0 {
      FilterSatisfies(s[..|s| - 1], p);
    }
  }

  /** `filter` works element by element, so it keeps encounter order: filtering
      a concatenation is concatenating the filtered parts. */
  lemma {:induction false} FilterAppend<T>(a: seq<T>, b: seq<T>, p: T -> bool)
    ensures Filter(a + b, p) == Filter(a, p) + Filter(b, p)
  {
    if |b| > 0 {
      var b' := b[..|b| - 1];
      assert (a + b)[..|a + b| - 1] == a + b';
      FilterAppend(a, b', p);
    } else {
      assert a + b == a;
    }
  }

  /** Nothing passes a filter that no element satisfies. */
  lemma {:induction false} FilterNone<T>(s: seq<T>, p: T -> bool)
    requires forall i :: 0 <= i < |s| ==> !p(s[i])
    ensures Filter(s, p) == []
  {
    if |s| > 0 {
      FilterNone(s[..|s| - 1], p);
    }
  }

  /** Everything passes a filter that every element satisfies. */
  lemma {:induction false} FilterAll<T>(s: seq<T>, p: T -> bool)
    requires forall i :: 0 <= i < |s| ==> p(s[i])
    ensures Filter(s, p) == s
  {
    if |s| > 0 {
      FilterAll(s[..|s| - 1], p);
      assert s == s[..|s| - 1] + [s[|s| - 1]];
    }
  }

  /** A predicate that holds exactly on the positions lo to hi - 1 lets
      exactly that slice through. */
  lemma {:induction false} FilterRun<T>(s: seq<T>, p: T -> bool, lo: int, hi: int)
    requires 0 <= lo <= hi <= |s|
    requires forall i :: 0 <= i < |s| ==> (p(s[i]) <==> lo <= i < hi)
    ensures Filter(s, p) == s[lo..hi]
  {
    if |s| > 0 {
      var t := s[..|s| - 1];
      assert forall i :: 0 <= i < |t| ==> t[i] == s[i];
      if hi == |s| && lo < hi {
        FilterRun(t, p, lo, hi - 1);
        assert s[lo..hi] == t[lo..hi - 1] + [s[|s| - 1]];
      } else if hi == |s| {
        FilterRun(t, p, |t|, |t|);
      } else {
        FilterRun(t, p, lo, hi);
        assert s[lo..hi] == t[lo..hi];
      }
    }
  }

  /** An element occurs in the filtered sequence exactly as often as in the
      source when it satisfies the predicate, and not at all otherwise. */
  lemma {:induction false} FilterOccurrences<T>(s: seq<T>, p: T -> bool, x: T)
    ensures multiset(Filter(s, p))[x] == if p(x) then multiset(s)[x] else 0
  {
    if |s| > 0 {
      FilterOccurrences(s[..|s| - 1], p, x);
      assert s == s[..|s| - 1] + [s[|s| - 1]];
    }
  }

  /** When p holds exactly where one of the disjoint predicates q and r holds,
      the elements passing p are those passing q plus those passing r. */
  lemma {:induction false} FilterCountSplit<T>(s: seq<T>, p: T -> bool, q: T -> bool, r: T -> bool)
    requires forall i :: 0 <= i < |s| ==> (p(s[i]) <==> q(s[i]) || r(s[i]))
    requires forall i :: 0 <= i < |s| ==> !(q(s[i]) && r(s[i]))
    ensures |Filter(s, p)| == |Filter(s, q)| + |Filter(s, r)|
  {
    if |s| > 0 {
      FilterCountSplit(s[..|s| - 1], p, q, r);
    }
  }

  /** A predicate and its negation split a sequence into two parts that
      together hold every element exactly once. */
  lemma FilterPartition<T>(s: seq<T>, p: T -> bool)
    ensures forall x :: multiset(Filter(s, p))[x] + multiset(Filter(s, Not(p)))[x] == multiset(s)[x]
    ensures |Filter(s, p)| + |Filter(s, Not(p))| == |s|
  {
    forall x ensures multiset(Filter(s, p))[x] + multiset(Filter(s, Not(p)))[x] == multiset(s)[x] {
      FilterOccurrences(s, p, x);
      FilterOccurrences(s, Not(p), x);
      assert Not(p)(x) == !p(x);
    }
    var all := (x: T) => true;
    FilterCountSplit(s, all, p, Not(p));
    FilterAll(s, all);
  }

  /** Flattening two lists is concatenating them. */
  lemma FlattenPair<T>(a: seq<T>, b: seq<T>)
    ensures Flatten([a, b]) == a + b
  {
    assert [a, b][..1] == [a];
    assert [a][..0] == [];
    assert Flatten([a]) == a;
  }

  /** `IntStream.sum()` wraps at every step, which gives the exact sum wrapped
      once. */
  lemma {:induction false} IntSumIsWrappedSum(s: seq<int>)
    ensures IntSum(s) == Wrap(Sum(s))
  {
    if |s| > 0 {
      var s' := s[..|s| - 1];
      IntSumIsWrappedSum(s');
      WrapAdd(Sum(s'), s[|s| - 1]);
    }
  }

  /** The sum 0 + 1 + ... + n is n(n+1)/2. */
  lemma {:induction false} GaussSum(n: nat)
    ensures Sum(RangeClosed(0, n)) == n * (n + 1) / 2
  {
    GaussSumTwice(n);
  }

  lemma {:induction false} GaussSumTwice(n: nat)
    ensures 2 * Sum(RangeClosed(0, n)) == n * (n + 1)
  {
    if n > 0 {
      var r, r' := RangeClosed(0, n), RangeClosed(0, n - 1);
      GaussSumTwice(n - 1);
      assert r == r' + [n];
      assert r[..n] == r';
      assert Sum(r) == Sum(r') + n;
      var p := (n - 1) * n;
      assert 2 * Sum(r') == p;
      assert n * (n + 1) == p + 2 * n by {
        assert n * (n + 1) == n * n + n;
        assert p == n * n - n;
      }
    }
  }

  /** `reduce(maxBy(comparing(key)))` yields the first element with the
      largest key. */
  lemma {:induction false} ReduceMaxByIsFirstMaximum<T>(s: seq<T>, key: T -> int) returns (i: nat)
    requires |s| > 0
    ensures FirstMaximum(s, key, i)
    ensures Reduce(s, MaxByOp(key)) == Some(s[i])
  {
    if |s| == 1 {
      i := 0;
    } else {
      var s' := s[..|s| - 1];
      var x := s[|s| - 1];
      var i' := ReduceMaxByIsFirstMaximum(s', key);
      assert s[1..][..|s| - 2] == s'[1..];
      if key(s'[i']) >= key(x) {
        i := i';
      } else {
        i := |s| - 1;
      }
    }
  }

  /** s[i] is the first element of s that satisfies p. */
  ghost predicate FirstMatch<T>(s: seq<T>, p: T -> bool, i: int)
  {
    0 <= i < |s| && p(s[i]) && forall j :: 0 <= j < i ==> !p(s[j])
  }

  /** `filter(p).findFirst()` is empty exactly when nothing matches, and
      otherwise holds the first matching element. */
  lemma {:induction false} FindFirstOfFilter<T>(s: seq<T>, p: T -> bool)
    ensures FindFirst(Filter(s, p)).None? <==> forall i :: 0 <= i < |s| ==> !p(s[i])
    ensures forall i :: FirstMatch(s, p, i) ==> FindFirst(Filter(s, p)) == Some(s[i])
  {
    FilterEmptyIff(s, p);
    forall i | FirstMatch(s, p, i) ensures FindFirst(Filter(s, p)) == Some(s[i]) {
      FilterFirst(s, p, i);
    }
  }

  /** Nothing passes a filter exactly when no element satisfies it. */
  lemma {:induction false} FilterEmptyIff<T>(s: seq<T>, p: T -> bool)
    ensures |Filter(s, p)| == 0 <==> forall i :: 0 <= i < |s| ==> !p(s[i])
  {
    if forall i :: 0 <= i < |s| ==> !p(s[i]) {
      FilterNone(s, p);
    } else {
      var i :| 0 <= i < |s| && p(s[i]);
      FilterOccurrences(s, p, s[i]);
      assert multiset(Filter(s, p))[s[i]] >= 1;
    }
  }

  /** The first element that passes the filter is the first match. */
  lemma FilterFirst<T>(s: seq<T>, p: T -> bool, i: int)
    requires FirstMatch(s, p, i)
    ensures |Filter(s, p)| > 0 && Filter(s, p)[0] == s[i]
  {
    var a, b := s[..i], s[i + 1..];
    assert s == a + ([s[i]] + b);
    FilterNone(a, p);
    FilterAppend(a, [s[i]] + b, p);
    FilterAppend([s[i]], b, p);
    assert Filter([s[i]], p) == [s[i]] by {
      assert [s[i]][..0] == [];
    }
  }

  /** Appending an element no smaller than any other keeps a sequence sorted. */
  lemma SortedAppend(s: seq<int>, y: int)
    requires Sorted(s)
    requires forall k :: 0 <= k < |s| ==> s[k] <= y
    ensures Sorted(s + [y])
  {
    var t := s + [y];
    forall i, j | 0 <= i < j < |t| ensures t[i] <= t[j] {
      assert t[i] == s[i];
      if j < |s| {
        assert t[j] == s[j];
      }
    }
  }

  /** Inserting into a sorted sequence keeps it sorted and adds exactly x. */
  lemma {:induction false} InsertSorted(s: seq<int>, x: int)
    requires Sorted(s)
    ensures Sorted(Insert(s, x))
    ensures multiset(Insert(s, x)) == multiset(s) + multiset{x}
  {
    if |s| == 0 || s[|s| - 1] <= x {
      forall k | 0 <= k < |s| ensures s[k] <= x {
        assert s[k] <= s[|s| - 1];
      }
      SortedAppend(s, x);
    } else {
      var s', y := s[..|s| - 1], s[|s| - 1];
      assert s == s' + [y];
      assert Sorted(s') by {
        forall i, j | 0 <= i < j < |s'| ensures s'[i] <= s'[j] {
          assert s'[i] == s[i] && s'[j] == s[j];
        }
      }
      InsertSorted(s', x);
      var r := Insert(s', x);
      forall k | 0 <= k < |r| ensures r[k] <= y {
        assert r[k] in multiset(r);
        if r[k] != x {
          assert r[k] in multiset(s');
          var m :| 0 <= m < |s'| && s'[m] == r[k];
          assert s[m] <= s[|s| - 1];
        }
      }
      SortedAppend(r, y);
    }
  }

  /** `sorted()` yields an ascending permutation of its input. */
  lemma {:induction false} SortSorts(s: seq<int>)
    ensures Sorted(Sort(s))
    ensures multiset(Sort(s)) == multiset(s)
  {
    if |s| > 0 {
      var s', x := s[..|s| - 1], s[|s| - 1];
      assert s == s' + [x];
      SortSorts(s');
      InsertSorted(Sort(s'), x);
    }
  }

  /** Sorting an already sorted sequence leaves it as it is. */
  lemma {:induction false} SortOfSorted(s: seq<int>)
    requires Sorted(s)
    ensures Sort(s) == s
  {
    if |s| > 0 {
      var s', x := s[..|s| - 1], s[|s| - 1];
      assert Sorted(s') by {
        forall i, j | 0 <= i < j < |s'| ensures s'[i] <= s'[j] {
          assert s'[i] == s[i] && s'[j] == s[j];
        }
      }
      SortOfSorted(s');
      assert |s'| == 0 || s'[|s'| - 1] <= x by {
        if |s'| > 0 {
          assert s'[|s'| - 1] == s[|s| - 2];
        }
      }
      assert s == s' + [x];
    }
  }

  /** Sorting a sorted stream changes nothing. */
  lemma SortIdempotent(s: seq<int>)
    ensures Sort(Sort(s)) == Sort(s)
  {
    SortSorts(s);
    SortOfSorted(Sort(s));
  }

  /** `distinct()` leaves a sequence without duplicates unchanged. */
  lemma {:induction false} DistinctOfNoDuplicates<T>(s: seq<T>)
    requires NoDuplicates(s)
    ensures Distinct(s) == s
  {
    if |s| > 0 {
      DistinctOfNoDuplicates(s[..|s| - 1]);
      assert s[|s| - 1] !in s[..|s| - 1];
      assert s == s[..|s| - 1] + [s[|s| - 1]];
    }
  }

  /** Applying `distinct()` twice is the same as applying it once. */
  lemma {:induction false} DistinctIdempotent<T>(s: seq<T>)
    ensures Distinct(Distinct(s)) == Distinct(s)
  {
    DistinctOfNoDuplicates(Distinct(s));
  }

  /** Reducing a sequence with one more element combines the previous result
      with it. */
  lemma ReduceSnoc<T>(s: seq<T>, y: T, op: (T, T) -> T)
    ensures Reduce(s + [y], op) == if |s| == 0 then Some(y) else Some(op(Reduce(s, op).value, y))
  {
    if |s| > 0 {
      assert (s + [y])[1..] == s[1..] + [y];
      assert (s[1..] + [y])[..|s| - 1] == s[1..];
    }
  }

  /** `reduce(Integer::max)` on a non-empty stream yields one of its elements,
      and none is larger. */
  lemma {:induction false} ReduceMaxIsMaximum(s: seq<int>)
    requires |s| > 0
    ensures Reduce(s, Max).value in s
    ensures forall i :: 0 <= i < |s| ==> s[i] <= Reduce(s, Max).value
  {
    if |s| > 1 {
      var s', y := s[..|s| - 1], s[|s| - 1];
      assert s == s' + [y];
      ReduceMaxIsMaximum(s');
      ReduceSnoc(s', y, Max);
    }
  }

  /** There is only one first maximum. */
  lemma FirstMaximumUnique<T>(s: seq<T>, key: T -> int, i: int, j: int)
    requires FirstMaximum(s, key, i) && FirstMaximum(s, key, j)
    ensures i == j
  {
    assert key(s[i]) == key(s[j]);
  }

  /** A sequence is free of duplicates exactly when no value occurs twice. */
  lemma {:induction false} NoDuplicatesMultiset<T>(s: seq<T>)
    ensures NoDuplicates(s) <==> forall x :: multiset(s)[x] <= 1
  {
    if |s| > 0 {
      var s', y := s[..|s| - 1], s[|s| - 1];
      assert s == s' + [y];
      NoDuplicatesMultiset(s');
      if NoDuplicates(s) {
        assert NoDuplicates(s') by {
          forall i, j | 0 <= i < j < |s'| ensures s'[i] != s'[j] {
            assert s'[i] == s[i] && s'[j] == s[j];
          }
        }
        assert y !in s' by {
          forall i | 0 <= i < |s'| ensures s'[i] != y {
            assert s'[i] == s[i];
          }
        }
      } else {
        var i, j :| 0 <= i < j < |s| && s[i] == s[j];
        if j < |s'| {
          assert s'[i] == s'[j];
          assert !NoDuplicates(s');
          var x :| multiset(s')[x] > 1;
          assert multiset(s)[x] > 1;
        } else {
          assert s'[i] == y;
          assert multiset(s')[y] >= 1;
          assert multiset(s)[y] >= 2;
        }
      }
    }
  }

  lemma SortedTail(a: seq<int>)
    requires Sorted(a) && |a| > 0
    ensures Sorted(a[1..])
  {
    forall i, j | 0 <= i < j < |a| - 1 ensures a[1..][i] <= a[1..][j] {
      assert a[1..][i] == a[i + 1] && a[1..][j] == a[j + 1];
    }
  }

  lemma SortedFirst(a: seq<int>, b: seq<int>)
    requires Sorted(a) && Sorted(b) && multiset(a) == multiset(b) && |a| > 0
    ensures |b| > 0 && a[0] == b[0]
  {
    assert a[0] in multiset(b);
    var i :| 0 <= i < |b| && b[i] == a[0];
    assert b[0] in multiset(a);
    var j :| 0 <= j < |a| && a[j] == b[0];
    assert a[0] <= a[j] && b[0] <= b[i];
  }

  /** Two sorted sequences with the same elements are equal: the result of
      `sorted()` is determined by the multiset it sorts. */
  lemma {:induction false} SortedUnique(a: seq<int>, b: seq<int>)
    requires Sorted(a) && Sorted(b) && multiset(a) == multiset(b)
    ensures a == b
  {
    if |a| > 0 {
      SortedFirst(a, b);
      assert a == [a[0]] + a[1..];
      assert b == [b[0]] + b[1..];
      assert multiset(a) == multiset{a[0]} + multiset(a[1..]);
      assert multiset(b) == multiset{a[0]} + multiset(b[1..]);
      forall x ensures multiset(a[1..])[x] == multiset(b[1..])[x] {
        assert multiset(a)[x] == multiset(b)[x];
      }
      assert multiset(a[1..]) == multiset(b[1..]);
      SortedTail(a);
      SortedTail(b);
      SortedUnique(a[1..], b[1..]);
    } else {
      assert |b| == |multiset(b)| == 0;
    }
  }

  /** `filter` keeps what it lets through in encounter order: its output is
      s at strictly increasing positions, which are exactly those where p
      holds. */
  lemma {:induction false} FilterIsSubsequence<T>(s: seq<T>, p: T -> bool) returns (idx: seq<nat>)
    ensures |idx| == |Filter(s, p)|
    ensures forall j :: 0 <= j < |idx| ==> idx[j] < |s| && Filter(s, p)[j] == s[idx[j]]
    ensures forall j, k :: 0 <= j < k < |idx| ==> idx[j] < idx[k]
    ensures forall i :: 0 <= i < |s| ==> (p(s[i]) <==> i in idx)
  {
    if |s| == 0 {
      idx := [];
    } else {
      var s', x := s[..|s| - 1], s[|s| - 1];
      var idx' := FilterIsSubsequence(s', p);
      var f' := Filter(s', p);
      if p(x) {
        idx := idx' + [|s| - 1];
        assert Filter(s, p) == f' + [x];
      } else {
        idx := idx';
        assert Filter(s, p) == f';
      }
      forall j | 0 <= j < |idx'| ensures s'[idx'[j]] == s[idx'[j]] {
      }
    }
  }
}
