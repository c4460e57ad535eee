/** The string and number pipelines of `Flujo.ejemplos`: the longest word,
    the intersection of two lists, a sorted sample without repeats, a
    frequency table, bucketing by tens, the Gauss sum, a reduction whose
    result depends on how the stream is split, and word capitalisation. */
module Ejemplos {
  import opened Wrappers
  import opened JavaInt
  import opened Streams
  import opened Collectors
  import opened Text

  // ---------------------------------------------------------------------
  // Longest word
  // ---------------------------------------------------------------------

  /** `String::length` as a comparison key. */
  function Length(w: string): int
  {
    |w|
  }

  /** `max(Comparator.comparing(String::length)).orElseThrow()`. */
  function LongestWord(ws: seq<string>): Result<string>
  {
    match Reduce(ws, MaxByOp(Length))
    case None => Failure(NoSuchElement)
    case Some(w) => Success(w)
  }

  /** `max` throws on an empty list and otherwise yields the first of the
      longest words. */
  lemma LongestWordIsFirstLongest(ws: seq<string>)
    ensures LongestWord(ws) == Failure(NoSuchElement) <==> |ws| == 0
    ensures LongestWord(ws).Success? ==>
              exists i :: FirstMaximum(ws, Length, i) && LongestWord(ws).value == ws[i]
  {
    if |ws| > 0 {
      var i := ReduceMaxByIsFirstMaximum(ws, Length);
    }
  }

  /** The keep-the-longer operator of `reduce("", ...)`: the right operand
      wins only when strictly longer. */
  function Longer(s1: string, s2: string): string
  {
    if |s1| < |s2| then s2 else s1
  }

  /** `reduce("", (s1, s2) -> s1.length() < s2.length() ? s2 : s1)`. */
  function LongestByReduce(ws: seq<string>): string
  {
    Fold(ws, "", Longer)
  }

  lemma {:induction false} LongestByReduceIsFirstLongest(ws: seq<string>) returns (i: nat)
    requires |ws| > 0
    ensures FirstMaximum(ws, Length, i)
    ensures LongestByReduce(ws) == ws[i]
  {
    var ws', y := ws[..|ws| - 1], ws[|ws| - 1];
    assert LongestByReduce(ws) == Longer(LongestByReduce(ws'), y);
    if |ws'| == 0 {
      i := 0;
    } else {
      var i' := LongestByReduceIsFirstLongest(ws');
      if |ws'[i']| < |y| {
        i := |ws| - 1;
      } else {
        i := i';
      }
      assert ws[i] == if i == |ws| - 1 then y else ws'[i];
    }
  }

  /** Both ways of finding the longest word agree; on an empty list the
      `reduce` form yields its identity "" where `max` throws. */
  lemma LongestWordAgrees(ws: seq<string>)
    ensures |ws| == 0 ==> LongestByReduce(ws) == ""
    ensures |ws| > 0 ==> LongestWord(ws) == Success(LongestByReduce(ws))
  {
    if |ws| > 0 {
      var i := LongestByReduceIsFirstLongest(ws);
      var j := ReduceMaxByIsFirstMaximum(ws, Length);
      FirstMaximumUnique(ws, Length, i, j);
    }
  }

  /** "cuatro" is the longest of the five words; "cuatro" and "cinco" are
      not tied, so no tie-breaking is involved. */
  lemma LongestWordExample()
    ensures LongestWord(["uno", "dos", "tres", "cuatro", "cinco"]) == Success("cuatro")
  {
    var ws := ["uno", "dos", "tres", "cuatro", "cinco"];
    var j := ReduceMaxByIsFirstMaximum(ws, Length);
    assert FirstMaximum(ws, Length, 3);
    FirstMaximumUnique(ws, Length, 3, j);
  }

  // ---------------------------------------------------------------------
  // Intersection of two lists
  // ---------------------------------------------------------------------

  function Contains(l: seq<int>): int -> bool
  {
    x => x in l
  }

  /** `l1.stream().filter(l2::contains).sorted()`. */
  function Intersection(l1: seq<int>, l2: seq<int>): seq<int>
  {
    Sort(Filter(l1, Contains(l2)))
  }

  /** `... .map(String::valueOf).collect(Collectors.joining(", "))`. */
  function IntersectionText(l1: seq<int>, l2: seq<int>): string
  {
    Join(Map(Intersection(l1, l2), DecimalString), ", ")
  }

  /** The intersection is sorted and holds each element of l1 that l2
      contains, as often as l1 holds it, and nothing else. */
  lemma IntersectionSpec(l1: seq<int>, l2: seq<int>)
    ensures Sorted(Intersection(l1, l2))
    ensures forall x :: multiset(Intersection(l1, l2))[x] == if x in l2 then multiset(l1)[x] else 0
  {
    SortSorts(Filter(l1, Contains(l2)));
    forall x ensures multiset(Intersection(l1, l2))[x] == if x in l2 then multiset(l1)[x] else 0 {
      FilterOccurrences(l1, Contains(l2), x);
    }
  }

  lemma ExampleLists(l1: seq<int>, l2: seq<int>)
    requires l1 == [9, 3, 1, 5, 8, 7, 2, 4, 6, 0] && l2 == [2, 4, 6, 8]
    ensures forall x :: x in l2 <==> x in {2, 4, 6, 8}
    ensures multiset(l1)[2] == 1 && multiset(l1)[4] == 1 && multiset(l1)[6] == 1 && multiset(l1)[8] == 1
  {
  }

  lemma IntersectionOfOccurrences(l1: seq<int>, l2: seq<int>)
    requires forall x :: x in l2 <==> x in {2, 4, 6, 8}
    requires multiset(l1)[2] == 1 && multiset(l1)[4] == 1 && multiset(l1)[6] == 1 && multiset(l1)[8] == 1
    ensures Intersection(l1, l2) == [2, 4, 6, 8]
  {
    IntersectionSpec(l1, l2);
    var r := Intersection(l1, l2);
    var e := [2, 4, 6, 8];
    forall x ensures multiset(r)[x] == multiset(e)[x] {
      if x in {2, 4, 6, 8} {
        assert multiset(e)[x] == 1;
      } else {
        assert x !in e;
      }
    }
    assert multiset(r) == multiset(e);
    SortedUnique(r, e);
  }

  /** The two lists of `ejemplos` intersect in 2, 4, 6 and 8. */
  lemma IntersectionExample(l1: seq<int>, l2: seq<int>)
    requires l1 == [9, 3, 1, 5, 8, 7, 2, 4, 6, 0] && l2 == [2, 4, 6, 8]
    ensures Intersection(l1, l2) == [2, 4, 6, 8]
    ensures IntersectionText(l1, l2) == "2, 4, 6, 8"
  {
    ExampleLists(l1, l2);
    IntersectionOfOccurrences(l1, l2);
    IntersectionTextOf(Intersection(l1, l2));
  }

  lemma IntersectionTextOf(r: seq<int>)
    requires r == [2, 4, 6, 8]
    ensures Join(Map(r, DecimalString), ", ") == "2, 4, 6, 8"
  {
    assert DecimalString(2) == "2" && DecimalString(4) == "4";
    assert DecimalString(6) == "6" && DecimalString(8) == "8";
    var ds := Map(r, DecimalString);
    assert ds == ["2", "4", "6", "8"];
    assert Join(ds[3..], ", ") == "8";
    assert Join(ds[2..], ", ") == "6, 8";
    assert Join(ds[1..], ", ") == "4, 6, 8";
  }

  // ---------------------------------------------------------------------
  // A sorted sample without repeats
  // ---------------------------------------------------------------------

  /** `ints(1, 10).limit(10).distinct().sorted().boxed().collect(toList())`
      over the random draws given as a sequence. */
  function DistinctSample(draws: seq<int>): seq<int>
  {
    Sort(Distinct(Limit(draws, 10)))
  }

  /** The sample is strictly ascending, has at most ten elements, and holds
      exactly the values among the first ten draws. */
  lemma DistinctSampleSpec(draws: seq<int>)
    ensures |DistinctSample(draws)| <= 10
    ensures forall i, j :: 0 <= i < j < |DistinctSample(draws)| ==> DistinctSample(draws)[i] < DistinctSample(draws)[j]
    ensures forall i :: 0 <= i < |DistinctSample(draws)| ==> DistinctSample(draws)[i] in Limit(draws, 10)
    ensures forall i :: 0 <= i < |draws| && i < 10 ==> draws[i] in DistinctSample(draws)
  {
    var d := Distinct(Limit(draws, 10));
    var r := DistinctSample(draws);
    SortSorts(d);
    assert |r| == |multiset(r)| == |multiset(d)| == |d|;
    SortedDistinctIsStrict(d, r);
    forall i | 0 <= i < |r| ensures r[i] in Limit(draws, 10) {
      assert r[i] in multiset(d);
    }
    forall i | 0 <= i < |draws| && i < 10 ensures draws[i] in r {
      assert Limit(draws, 10)[i] == draws[i];
      assert draws[i] in multiset(d);
    }
  }

  lemma SortedDistinctIsStrict(d: seq<int>, r: seq<int>)
    requires NoDuplicates(d) && Sorted(r) && multiset(r) == multiset(d)
    ensures forall i, j :: 0 <= i < j < |r| ==> r[i] < r[j]
  {
    NoDuplicatesMultiset(d);
    NoDuplicatesMultiset(r);
    forall i, j | 0 <= i < j < |r| ensures r[i] < r[j] {
      assert r[i] != r[j];
    }
  }

  // ---------------------------------------------------------------------
  // Frequency table
  // ---------------------------------------------------------------------

  function Identity(x: int): int
  {
    x
  }

  /** `boxed().collect(groupingBy(Function.identity(), counting()))`. */
  function Frequencies(draws: seq<int>): map<int, int>
  {
    Collect(draws, GroupingBy(Identity, Counting()))
  }

  lemma {:induction false} OccurrencesByFilter(s: seq<int>, k: int)
    ensures |Filter(s, KeyIs(Identity, k))| == multiset(s)[k]
  {
    if |s| > 0 {
      var s', y := s[..|s| - 1], s[|s| - 1];
      assert s == s' + [y];
      OccurrencesByFilter(s', k);
      FilterSnoc(s', y, KeyIs(Identity, k));
    }
  }

  /** The keys are the values drawn and each count is that value's number of
      occurrences, so at least one. */
  lemma FrequenciesSpec(draws: seq<int>)
    ensures forall x :: x in Frequencies(draws) <==> x in draws
    ensures forall x :: x in Frequencies(draws) ==> Frequencies(draws)[x] == multiset(draws)[x] >= 1
  {
    GroupingByBuckets(draws, Identity, Counting());
    forall x ensures x in Frequencies(draws) <==> x in draws {
      if x in draws {
        var i :| 0 <= i < |draws| && draws[i] == x;
        assert Identity(draws[i]) in KeysOf(draws, Identity);
      }
    }
    forall x | x in Frequencies(draws) ensures Frequencies(draws)[x] == multiset(draws)[x] {
      CollectCounting(Filter(draws, KeyIs(Identity, x)));
      OccurrencesByFilter(draws, x);
    }
  }

  lemma ExampleOccurrences(s: seq<int>)
    requires s == [1, 2, 1, 3, 3, 1, 2, 1, 5, 1, 3]
    ensures multiset(s)[1] == 5 && multiset(s)[2] == 2 && multiset(s)[3] == 3 && multiset(s)[5] == 1
    ensures forall x :: x in s <==> x in {1, 2, 3, 5}
  {
  }

  lemma FrequenciesOfOccurrences(s: seq<int>)
    requires multiset(s)[1] == 5 && multiset(s)[2] == 2 && multiset(s)[3] == 3 && multiset(s)[5] == 1
    requires forall x :: x in s <==> x in {1, 2, 3, 5}
    ensures Frequencies(s) == map[1 := 5, 2 := 2, 3 := 3, 5 := 1]
  {
    FrequenciesSpec(s);
    var f := Frequencies(s);
    forall x ensures x in f.Keys <==> x in {1, 2, 3, 5} {
      assert x in f <==> x in s;
    }
    assert f.Keys == {1, 2, 3, 5};
  }

  /** The frequency table of 1, 2, 1, 3, 3, 1, 2, 1, 5, 1, 3. */
  lemma FrequenciesExample(s: seq<int>)
    requires s == [1, 2, 1, 3, 3, 1, 2, 1, 5, 1, 3]
    ensures Frequencies(s) == map[1 := 5, 2 := 2, 3 := 3, 5 := 1]
  {
    ExampleOccurrences(s);
    FrequenciesOfOccurrences(s);
  }

  // ---------------------------------------------------------------------
  // Bucketing by tens
  // ---------------------------------------------------------------------

  /** `i -> i / 10 * 10` with Java's truncating division. */
  function Decade(i: int): int
  {
    TruncDiv(i, 10) * 10
  }

  /** `IntStream.iterate(1, i -> i < 40, i -> i + 3)`: 1, 4, ..., 37. */
  function Stepped(): seq<int>
  {
    IterateWhileBelow(1, 40, 3)
  }

  /** `boxed().collect(groupingBy(i -> i / 10 * 10))`. */
  function DecadeBuckets(s: seq<int>): map<int, seq<int>>
  {
    Collect(s, GroupingBy(Decade, ToList()))
  }

  /** One bucket per decade that occurs; each holds, in stream order, the
      elements of its decade, and a non-negative element x lies in bucket k
      with k <= x < k + 10. */
  lemma DecadeBucketsSpec(s: seq<int>)
    ensures DecadeBuckets(s).Keys == KeysOf(s, Decade)
    ensures forall k :: k in DecadeBuckets(s) ==> DecadeBuckets(s)[k] == Filter(s, KeyIs(Decade, k))
    ensures forall k, j :: k in DecadeBuckets(s) && 0 <= j < |DecadeBuckets(s)[k]| && DecadeBuckets(s)[k][j] >= 0 ==>
              k <= DecadeBuckets(s)[k][j] < k + 10
  {
    GroupingByBuckets(s, Decade, ToList());
    forall k | k in DecadeBuckets(s) ensures DecadeBuckets(s)[k] == Filter(s, KeyIs(Decade, k)) {
      CollectToList(Filter(s, KeyIs(Decade, k)));
    }
    forall k | k in DecadeBuckets(s) ensures forall j :: 0 <= j < |DecadeBuckets(s)[k]| ==> Decade(DecadeBuckets(s)[k][j]) == k {
      FilterSatisfies(s, KeyIs(Decade, k));
    }
  }

  /** `iterate(1, i -> i < 40, i -> i + 3)` yields 1, 4, ..., 37. */
  lemma SteppedValues(seed: int, bound: int, step: int)
    requires seed == 1 && bound == 40 && step == 3
    ensures |IterateWhileBelow(seed, bound, step)| == 13
    ensures forall i :: 0 <= i < 13 ==> IterateWhileBelow(seed, bound, step)[i] == 1 + 3 * i
  {
    var s := IterateWhileBelow(seed, bound, step);
    if |s| > 0 {
      assert s[|s| - 1] < 40;
    }
  }

  lemma DecadeBelowForty(x: int)
    requires 0 <= x < 40
    ensures Decade(x) in {0, 10, 20, 30}
  {
    var q := x / 10;
    assert 0 <= q < 4;
  }

  /** 1, 4, ..., 37 fall into the four decades 0, 10, 20 and 30. */
  lemma SteppedDecades(s: seq<int>)
    requires |s| == 13 && forall i :: 0 <= i < 13 ==> s[i] == 1 + 3 * i
    ensures DecadeBuckets(s).Keys == {0, 10, 20, 30}
  {
    DecadeBucketsSpec(s);
    forall k | k in KeysOf(s, Decade) ensures k in {0, 10, 20, 30} {
      var i :| 0 <= i < |s| && Decade(s[i]) == k;
      DecadeBelowForty(s[i]);
    }
    assert Decade(s[0]) == 0 && Decade(s[3]) == 10 && Decade(s[7]) == 20 && Decade(s[10]) == 30;
  }

  /** The decade of the i-th stepped value 1 + 3i. */
  function StepDecade(i: int): int
  {
    if i < 3 then 0 else if i < 7 then 10 else if i < 10 then 20 else 30
  }

  lemma DecadeOfStep(i: int)
    requires 0 <= i < 13
    ensures Decade(1 + 3 * i) == StepDecade(i)
  {
    var x := 1 + 3 * i;
    assert 1 <= x < 40;
    assert TruncDiv(x, 10) == x / 10;
  }

  /** The bucket of decade k holds the stepped values at positions lo to
      hi - 1, where k is the decade of exactly those positions. */
  lemma SteppedBucket(s: seq<int>, k: int, lo: int, hi: int)
    requires |s| == 13 && forall i :: 0 <= i < 13 ==> s[i] == 1 + 3 * i
    requires 0 <= lo <= hi <= 13
    requires forall i :: 0 <= i < 13 ==> (StepDecade(i) == k <==> lo <= i < hi)
    ensures Filter(s, KeyIs(Decade, k)) == s[lo..hi]
  {
    forall i | 0 <= i < 13 ensures KeyIs(Decade, k)(s[i]) <==> lo <= i < hi {
      DecadeOfStep(i);
    }
    FilterRun(s, KeyIs(Decade, k), lo, hi);
  }

  /** The elements of each of the four decades among 1, 4, ..., 37. */
  lemma SteppedBucketValues(s: seq<int>)
    requires |s| == 13 && forall i :: 0 <= i < 13 ==> s[i] == 1 + 3 * i
    ensures Filter(s, KeyIs(Decade, 0)) == [1, 4, 7]
    ensures Filter(s, KeyIs(Decade, 10)) == [10, 13, 16, 19]
    ensures Filter(s, KeyIs(Decade, 20)) == [22, 25, 28]
    ensures Filter(s, KeyIs(Decade, 30)) == [31, 34, 37]
  {
    assert Filter(s, KeyIs(Decade, 0)) == [1, 4, 7] by {
      SteppedBucket(s, 0, 0, 3);
      assert s[0..3] == [1, 4, 7];
    }
    assert Filter(s, KeyIs(Decade, 10)) == [10, 13, 16, 19] by {
      SteppedBucket(s, 10, 3, 7);
      assert s[3..7] == [10, 13, 16, 19];
    }
    assert Filter(s, KeyIs(Decade, 20)) == [22, 25, 28] by {
      SteppedBucket(s, 20, 7, 10);
      assert s[7..10] == [22, 25, 28];
    }
    assert Filter(s, KeyIs(Decade, 30)) == [31, 34, 37] by {
      SteppedBucket(s, 30, 10, 13);
      assert s[10..13] == [31, 34, 37];
    }
  }

  /** The map printed for 1, 4, ..., 37: each decade with its values in
      stream order. */
  lemma SteppedBuckets(s: seq<int>)
    requires |s| == 13 && forall i :: 0 <= i < 13 ==> s[i] == 1 + 3 * i
    ensures DecadeBuckets(s) == map[0 := [1, 4, 7], 10 := [10, 13, 16, 19], 20 := [22, 25, 28], 30 := [31, 34, 37]]
  {
    SteppedDecades(s);
    DecadeBucketsSpec(s);
    SteppedBucketValues(s);
    DecadeMap(DecadeBuckets(s));
  }

  lemma DecadeMap(m: map<int, seq<int>>)
    requires m.Keys == {0, 10, 20, 30}
    requires 0 in m && m[0] == [1, 4, 7]
    requires 10 in m && m[10] == [10, 13, 16, 19]
    requires 20 in m && m[20] == [22, 25, 28]
    requires 30 in m && m[30] == [31, 34, 37]
    ensures m == map[0 := [1, 4, 7], 10 := [10, 13, 16, 19], 20 := [22, 25, 28], 30 := [31, 34, 37]]
  {
  }

  /** `iterate(1, i -> i < 40, i -> i + 3).boxed().collect(groupingBy(i -> i / 10 * 10))`
      is {0=[1, 4, 7], 10=[10, 13, 16, 19], 20=[22, 25, 28], 30=[31, 34, 37]}. */
  lemma DecadeExample()
    ensures DecadeBuckets(Stepped()) == map[0 := [1, 4, 7], 10 := [10, 13, 16, 19], 20 := [22, 25, 28], 30 := [31, 34, 37]]
  {
    SteppedValues(1, 40, 3);
    SteppedBuckets(Stepped());
  }

  // ---------------------------------------------------------------------
  // The Gauss sum
  // ---------------------------------------------------------------------

  /** `IntStream.rangeClosed(0, n).reduce(0, (acumulado, valor) -> acumulado + valor)`. */
  function GaussReduce(n: int): int
  {
    Fold(RangeClosed(0, n), 0, IntAdd)
  }

  /** The reduction is n(n + 1)/2 as an int: exact while that fits in 32
      bits, 5050 for n = 100. */
  lemma GaussReduceSpec(n: nat)
    ensures GaussReduce(n) == Wrap(n * (n + 1) / 2)
    ensures n * (n + 1) / 2 <= MAX ==> GaussReduce(n) == n * (n + 1) / 2
    ensures n == 100 ==> GaussReduce(n) == 5050
  {
    IntSumIsWrappedSum(RangeClosed(0, n));
    GaussSum(n);
  }

  // ---------------------------------------------------------------------
  // Reduction with a combiner, under an explicit split
  // ---------------------------------------------------------------------

  /** `reduce(identity, accumulator, combiner)` when the runtime has split the
      stream into the given consecutive parts: each part is folded from the
      identity and the partial results are combined in encounter order. */
  function ReduceSplit(parts: seq<seq<int>>, identity: int, acc: (int, int) -> int, comb: (int, int) -> int): int
  {
    if |parts| == 0 then identity
    else Reduce(Map(parts, (p: seq<int>) => Fold(p, identity, acc)), comb).value
  }

  /** A single part is a plain sequential fold. */
  lemma ReduceSplitSingle(s: seq<int>, identity: int, acc: (int, int) -> int, comb: (int, int) -> int)
    ensures ReduceSplit([s], identity, acc, comb) == Fold(s, identity, acc)
  {
  }

  function IntMul(a: int, b: int): int
  {
    Wrap(a * b)
  }

  /** With identity 10, `*` to accumulate and `+` to combine, the result
      depends on the split: one part gives 10 * 1 * 2 * 3 = 60, the parts
      [1] and [2, 3] give 10 + 60 = 70. */
  lemma ReduceSplitDependsOnSplit()
    ensures Flatten([[1, 2, 3]]) == Flatten([[1], [2, 3]]) == [1, 2, 3]
    ensures ReduceSplit([[1, 2, 3]], 10, IntMul, IntAdd) == 60
    ensures ReduceSplit([[1], [2, 3]], 10, IntMul, IntAdd) == 70
  {
    assert [[1], [2, 3]][..1] == [[1]];
    assert [1, 2, 3][..2] == [1, 2];
    assert [2, 3][..1] == [2];
    assert [1, 2][..1] == [1];
    assert Fold([1], 10, IntMul) == 10;
    assert Fold([1, 2], 10, IntMul) == 20;
    assert Fold([1, 2, 3], 10, IntMul) == 60;
    assert Fold([2], 10, IntMul) == 20;
    assert Fold([2, 3], 10, IntMul) == 60;
  }

  // ---------------------------------------------------------------------
  // Capitalisation
  // ---------------------------------------------------------------------

  /** `word.length() == 1 ? word.toUpperCase()
      : word.substring(0, 1).toUpperCase() + word.substring(1).toLowerCase()`;
      `substring(0, 1)` throws on the empty word. */
  function CapitalizeWord(w: string): Result<string>
  {
    if |w| == 0 then Failure(IndexOutOfBounds)
    else if |w| == 1 then Success(UpperCase(w))
    else Success(UpperCase(w[..1]) + LowerCase(w[1..]))
  }

  /** The `map` stage over the words, in order, stopping at the first
      exception. */
  function CapitalizeAll(ws: seq<string>): Result<seq<string>>
  {
    if |ws| == 0 then Success([])
    else match CapitalizeWord(ws[0])
      case Failure(e) => Failure(e)
      case Success(c) =>
        match CapitalizeAll(ws[1..])
        case Failure(e) => Failure(e)
        case Success(cs) => Success([c] + cs)
  }

  /** `Stream.ofNullable(text.strip().split("\\s+")).flatMap(Stream::of)
      .map(...).collect(Collectors.joining(" "))`. */
  function Capitalize(text: string): Result<string>
  {
    match CapitalizeAll(Split(Strip(text)))
    case Failure(e) => Failure(e)
    case Success(cs) => Success(Join(cs, " "))
  }

  /** c is w with its first letter upper-cased and the rest lower-cased. */
  predicate Capitalized(w: string, c: string)
  {
    && |c| == |w| > 0
    && c[0] == ToUpper(w[0])
    && forall j :: 1 <= j < |w| ==> c[j] == ToLower(w[j])
  }

  lemma CapitalizeWordSpec(w: string)
    ensures CapitalizeWord(w).Failure? <==> w == ""
    ensures CapitalizeWord(w).Success? ==> Capitalized(w, CapitalizeWord(w).value)
  {
  }

  /** Words are capitalised one by one, none is lost, and the result are
      words again. */
  lemma {:induction false} CapitalizeAllWords(ws: seq<string>)
    requires forall i :: 0 <= i < |ws| ==> Word(ws[i])
    ensures CapitalizeAll(ws).Success?
    ensures |CapitalizeAll(ws).value| == |ws|
    ensures forall i :: 0 <= i < |ws| ==> Capitalized(ws[i], CapitalizeAll(ws).value[i])
    ensures forall i :: 0 <= i < |ws| ==> Word(CapitalizeAll(ws).value[i])
  {
    if |ws| > 0 {
      CapitalizeWordSpec(ws[0]);
      CapitalizeAllWords(ws[1..]);
      var cs := CapitalizeAll(ws).value;
      forall i | 0 <= i < |ws| ensures Capitalized(ws[i], cs[i]) && Word(cs[i]) {
        if i > 0 {
          assert cs[i] == CapitalizeAll(ws[1..]).value[i - 1];
          assert ws[i] == ws[1..][i - 1];
        }
        forall j | 0 <= j < |cs[i]| ensures !IsRegexSpace(cs[i][j]) {
          CaseMappingFixes(ws[i][j]);
        }
      }
    }
  }

  /** Stripped text that is not empty splits into words whose first and last
      characters are those of the text. */
  lemma WordsOfStripped(text: string)
    requires |Strip(text)| > 0
    ensures |Split(Strip(text))| > 0
    ensures forall i :: 0 <= i < |Split(Strip(text))| ==> Word(Split(Strip(text))[i])
    ensures |Split(Strip(text))[0]| > 0 && Split(Strip(text))[0][0] == Strip(text)[0]
    ensures var ws := Split(Strip(text)); var last := ws[|ws| - 1];
            |last| > 0 && last[|last| - 1] == Strip(text)[|Strip(text)| - 1]
  {
    StripEnds(text);
    SplitOfTrimmed(Strip(text));
  }

  /** Capitalisation throws exactly when the text is blank (all whitespace,
      so that `strip()` leaves nothing); otherwise the output splits into as
      many words as the stripped input, each the corresponding input word
      capitalised. */
  lemma CapitalizeSpec(text: string)
    ensures Capitalize(text) == Failure(IndexOutOfBounds) <==> Strip(text) == ""
    ensures Capitalize(text).Failure? <==> forall k :: 0 <= k < |text| ==> IsWhitespace(text[k])
    ensures Capitalize(text).Success? ==>
              var ws := Split(Strip(text));
              var cs := Split(Capitalize(text).value);
              |cs| == |ws| && forall i :: 0 <= i < |ws| ==> Capitalized(ws[i], cs[i])
  {
    StripEnds(text);
    if Strip(text) == "" {
      assert !HasRegexSpace("");
      assert Split(Strip(text)) == [""];
    } else {
      var ws := Split(Strip(text));
      WordsOfStripped(text);
      CapitalizeAllWords(ws);
      SplitJoin(CapitalizeAll(ws).value);
    }
  }

  lemma CapitalizeWordFixes(w: string, c: string)
    requires Capitalized(w, c)
    ensures CapitalizeWord(c) == Success(c)
  {
    CaseMappingFixes(w[0]);
    forall j | 1 <= j < |w| ensures ToLower(c[j]) == c[j] {
      CaseMappingFixes(w[j]);
    }
    if |c| > 1 {
      assert UpperCase(c[..1]) == c[..1];
      assert LowerCase(c[1..]) == c[1..];
      assert UpperCase(c[..1]) + LowerCase(c[1..]) == c;
    } else {
      assert UpperCase(c) == c;
    }
  }

  lemma {:induction false} CapitalizeAllFixes(ws: seq<string>, cs: seq<string>)
    requires |ws| == |cs|
    requires forall i :: 0 <= i < |ws| ==> Capitalized(ws[i], cs[i])
    ensures CapitalizeAll(cs) == Success(cs)
  {
    if |cs| > 0 {
      CapitalizeWordFixes(ws[0], cs[0]);
      CapitalizeAllFixes(ws[1..], cs[1..]);
      assert cs == [cs[0]] + cs[1..];
    }
  }

  /** The capitalised text starts and ends as its words do: with a
      non-whitespace character. */
  lemma CapitalizedEnds(text: string)
    requires |Strip(text)| > 0
    ensures Capitalize(text).Success?
    ensures var out := Capitalize(text).value;
            |out| > 0 && !IsWhitespace(out[0]) && !IsWhitespace(out[|out| - 1])
  {
    var s := Strip(text);
    var ws := Split(s);
    WordsOfStripped(text);
    CapitalizeAllWords(ws);
    var cs := CapitalizeAll(ws).value;
    JoinEnds(cs, " ");
    StripEnds(text);
    CaseMappingFixes(s[0]);
    CaseMappingFixes(s[|s| - 1]);
    var w, c := ws[|ws| - 1], cs[|cs| - 1];
    assert Capitalized(w, c);
    assert c[|c| - 1] == ToUpper(s[|s| - 1]) || c[|c| - 1] == ToLower(s[|s| - 1]);
  }

  /** Capitalising capitalised text changes nothing. */
  lemma CapitalizeIdempotent(text: string)
    requires Capitalize(text).Success?
    ensures Capitalize(Capitalize(text).value) == Capitalize(text)
  {
    CapitalizeSpec(text);
    var ws := Split(Strip(text));
    WordsOfStripped(text);
    CapitalizeAllWords(ws);
    var cs := CapitalizeAll(ws).value;
    var out := Join(cs, " ");
    CapitalizedEnds(text);
    StripKeeps(out);
    SplitJoin(cs);
    CapitalizeAllFixes(ws, cs);
  }
}
