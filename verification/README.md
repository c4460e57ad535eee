# DemoFuncionalJava in Dafny

DemoFuncionalJava is a teaching demo of functional programming in Java. Its
logic is a set of small, deterministic data transformations. This project
models three groups of them and proves what each one computes:

- `Flujo.ejemplos`: stream pipelines over words and numbers. They find the
  longest word with `max` and with `reduce`, intersect and sort two lists,
  take distinct values, count frequencies, bucket a range by decade, add
  0..100 with `reduce`, and capitalise a text word by word.
- `Flujo.casosPracticos`: queries over a list of ten `Empleado` records.
  They add salaries with a `for` loop and with streams, flatten and
  partition ages, group by city with `toList`, `mapping`, `counting` and
  `filtering` downstreams, average and summarise salaries, keep the
  per-city maximum in a `TreeMap`, and run `anyMatch`, `allMatch`,
  `findAny` and `findFirst`.
- `Lambda.ejemplosComposicion`: three hand-written functions chained with
  `compose` and `andThen`. `partir` splits a string into one-character
  strings, `contar` counts them in a `TreeMap` with `compute`, and
  `mostrar` renders the map with a `StringBuilder`.

The Java library operations the demo relies on are modelled by their
documented sequential meaning, as functions over finite sequences:

| module | what it models |
|---|---|
| `JavaInt` (`java_int.dfy`) | 32-bit `int`, its wrap-around on `+`, and `/` rounding toward zero |
| `Streams` (`streams.dfy`) | `filter`, `map`, `flatMap`, `limit`, `distinct`, `sorted`, `rangeClosed`, bounded `iterate`, `reduce`, `sum`, `anyMatch`, `allMatch`, `findFirst`, `max` |
| `Collectors` (`collectors.dfy`) | a `Collector` as supplier, accumulator and finisher, plus `toList`, `counting`, `mapping`, `filtering`, `summingInt`, `averagingInt`, `groupingBy`, `partitioningBy`, `toMap(..., TreeMap::new)` |
| `TreeMaps` (`tree_maps.dfy`) | `TreeMap<String, V>` as a list of entries in ascending key order, with `get`, `compute` and `merge` |
| `Text` (`text.dfy`) | `String.compareTo`, `String.valueOf(int)`, `strip`, `split("\\s+")`, `joining`, ASCII `toUpperCase`/`toLowerCase` |
| `Ejemplos` (`ejemplos.dfy`) | the pipelines of `Flujo.ejemplos` |
| `CasosPracticos` (`casos_practicos.dfy`) | `Empleado` and the pipelines of `Flujo.casosPracticos` |
| `Composicion` (`composicion.dfy`) | `partir`, `contar`, `mostrar` and their composition |

Modelling conventions:

- `Empleado` is an immutable datatype, because its setters are never called.
- The loops that change state become methods. These are the salary loop,
  `partir`, `contar` and `mostrar`. Each is proved equal to a specification
  function, and the properties are proved about that function.
- A `HashMap` result is a Dafny `map`. A `TreeMap` result is a strictly
  ascending list of entries, because its iteration order is observable.
- A `double` result (an average) is the exact fraction `Average(sum, count)`.
- A Java exception is a `Failure` value.
- Parallel streams are modelled sequentially. Every parallel pipeline in the
  demo is one whose sequential result is the specified one. The two
  exceptions are `findAny` and the three-argument `reduce`, which are treated
  on their own (see below).
- Random input is a parameter: the draws of `new Random().ints(...)`.

## Model

Source paths are relative to the repository root.

| member | source | states |
|---|---|---|
| JavaInt.Wrap | src/main/java/com/sophos/demofuncionaljava/Flujo.java:152-155 | the int Java holds after overflow is congruent to the exact value modulo 2^32, and an in-range value is unchanged |
| JavaInt.WrapCongruent | src/main/java/com/sophos/demofuncionaljava/Flujo.java:152-155 | values congruent modulo 2^32 overflow to the same int |
| JavaInt.WrapAdd | src/main/java/com/sophos/demofuncionaljava/Flujo.java:152-155 | adding with wrap-around at every step is adding exactly and wrapping once |
| JavaInt.TruncDiv | src/main/java/com/sophos/demofuncionaljava/Flujo.java:100 | `i / 10` rounds toward zero: the floor quotient for a non-negative dividend, with the remainder bounds for either sign |
| Streams.Map | src/main/java/com/sophos/demofuncionaljava/Flujo.java:169 | `map(f)` keeps the length and its i-th element is f of the i-th input |
| Streams.MapOccurrences | src/main/java/com/sophos/demofuncionaljava/Lambda.java:63 | under a one-to-one function each image occurs as often as its source element |
| Streams.Limit | src/main/java/com/sophos/demofuncionaljava/Flujo.java:77 | `limit(n)` is the first min(n, length) elements |
| Streams.Distinct | src/main/java/com/sophos/demofuncionaljava/Flujo.java:78 | `distinct()` is duplicate-free, keeps every element and adds none (its order is not stated: every `distinct()` of the demo is followed by `sorted()`) |
| Streams.RangeClosed | src/main/java/com/sophos/demofuncionaljava/Flujo.java:105 | `rangeClosed(lo, hi)` is lo, lo+1, ..., hi, and empty when hi < lo |
| Streams.IterateWhileBelow | src/main/java/com/sophos/demofuncionaljava/Flujo.java:98 | bounded `iterate` yields seed + i*step, each below the bound, and stops at the first value that reaches it |
| Streams.Reduce | src/main/java/com/sophos/demofuncionaljava/Flujo.java:55-56 | one-argument `reduce` is empty exactly on an empty stream |
| Streams.AnyMatch | src/main/java/com/sophos/demofuncionaljava/Flujo.java:259-262 | `anyMatch(p)` holds iff some element satisfies p |
| Streams.AllMatch | src/main/java/com/sophos/demofuncionaljava/Flujo.java:263-266 | `allMatch(p)` holds iff every element satisfies p |
| Streams.FilterSatisfies | src/main/java/com/sophos/demofuncionaljava/Flujo.java:176 | everything that passes `filter(p)` satisfies p, and the output is no longer than the input |
| Streams.FilterAppend | src/main/java/com/sophos/demofuncionaljava/Flujo.java:176 | filtering a concatenation concatenates the filtered parts, so order is kept |
| Streams.FilterRun | src/main/java/com/sophos/demofuncionaljava/Flujo.java:100 | when exactly the elements at positions lo..hi pass the predicate, the filter yields that slice |
| Streams.FilterNone | src/main/java/com/sophos/demofuncionaljava/Flujo.java:176 | nothing passes a filter that no element satisfies |
| Streams.FilterAll | src/main/java/com/sophos/demofuncionaljava/Flujo.java:176 | everything passes a filter that every element satisfies |
| Streams.FilterOccurrences | src/main/java/com/sophos/demofuncionaljava/Flujo.java:68 | x occurs in the filtered stream as often as in the input if it satisfies p, otherwise never |
| Streams.FilterCountSplit | src/main/java/com/sophos/demofuncionaljava/Flujo.java:170 | when p holds exactly where one of two disjoint predicates does, the sizes of the filters add up |
| Streams.FilterPartition | src/main/java/com/sophos/demofuncionaljava/Flujo.java:170 | p and not-p together hold every element exactly once, and their sizes add up to the input's |
| Streams.FlattenPair | src/main/java/com/sophos/demofuncionaljava/Flujo.java:167-168 | flattening two lists concatenates them |
| Streams.IntSumIsWrappedSum | src/main/java/com/sophos/demofuncionaljava/Flujo.java:159 | `IntStream.sum()` equals the exact sum wrapped once to an int |
| Streams.GaussSum | src/main/java/com/sophos/demofuncionaljava/Flujo.java:103-107 | 0 + 1 + ... + n is n(n+1)/2 |
| Streams.GaussSumTwice | src/main/java/com/sophos/demofuncionaljava/Flujo.java:103-107 | twice the sum 0 + ... + n is n(n+1) |
| Streams.ReduceMaxByIsFirstMaximum | src/main/java/com/sophos/demofuncionaljava/Flujo.java:55 | `reduce(maxBy(comparing(key)))` yields the element with the largest key, the first such one |
| Streams.FirstMaximumUnique | src/main/java/com/sophos/demofuncionaljava/Flujo.java:55 | there is only one first maximum |
| Streams.FindFirstOfFilter | src/main/java/com/sophos/demofuncionaljava/Flujo.java:273-276 | `filter(p).findFirst()` is empty iff nothing matches, and otherwise is the first match |
| Streams.FilterEmptyIff | src/main/java/com/sophos/demofuncionaljava/Flujo.java:273-276 | a filter is empty iff no element satisfies it |
| Streams.FilterFirst | src/main/java/com/sophos/demofuncionaljava/Flujo.java:273-276 | the head of a filter is the first element that satisfies it |
| Streams.InsertSorted | src/main/java/com/sophos/demofuncionaljava/Flujo.java:69 | inserting into a sorted list keeps it sorted and adds exactly that element |
| Streams.SortSorts | src/main/java/com/sophos/demofuncionaljava/Flujo.java:69 | `sorted()` is ascending and a permutation of its input |
| Streams.SortOfSorted | src/main/java/com/sophos/demofuncionaljava/Flujo.java:79 | sorting a sorted list leaves it unchanged |
| Streams.SortIdempotent | src/main/java/com/sophos/demofuncionaljava/Flujo.java:79 | sorting twice is sorting once |
| Streams.SortedUnique | src/main/java/com/sophos/demofuncionaljava/Flujo.java:69 | two sorted lists with the same elements are equal, so `sorted()` is determined by the multiset it sorts |
| Streams.DistinctOfNoDuplicates | src/main/java/com/sophos/demofuncionaljava/Flujo.java:78 | `distinct()` leaves a duplicate-free stream unchanged |
| Streams.DistinctIdempotent | src/main/java/com/sophos/demofuncionaljava/Flujo.java:78 | `distinct()` twice is `distinct()` once |
| Streams.NoDuplicatesMultiset | src/main/java/com/sophos/demofuncionaljava/Flujo.java:78 | a list is duplicate-free iff no value occurs twice |
| Streams.ReduceSnoc | src/main/java/com/sophos/demofuncionaljava/Flujo.java:237 | reducing one more element combines the previous result with it |
| Streams.ReduceMaxIsMaximum | src/main/java/com/sophos/demofuncionaljava/Flujo.java:237 | `reduce(Integer::max)` on a non-empty stream yields one of its elements, and none is larger |
| Streams.FilterIsSubsequence | src/main/java/com/sophos/demofuncionaljava/Flujo.java:176 | the filter output is the input at strictly increasing positions, exactly those where p holds |
| Text.LessIrreflexive | src/main/java/com/sophos/demofuncionaljava/Flujo.java:238 | `compareTo` never orders a string before itself |
| Text.LessTransitive | src/main/java/com/sophos/demofuncionaljava/Flujo.java:238 | the `compareTo` order is transitive |
| Text.LessTotal | src/main/java/com/sophos/demofuncionaljava/Flujo.java:238 | any two different strings are ordered one way or the other |
| Text.LessAsymmetric | src/main/java/com/sophos/demofuncionaljava/Flujo.java:238 | the `compareTo` order is asymmetric |
| Text.NatDigitsRoundTrip | src/main/java/com/sophos/demofuncionaljava/Flujo.java:70 | the decimal digits of n are non-empty, all digits, without a leading zero, and read back as n |
| Text.DecimalRoundTrip | src/main/java/com/sophos/demofuncionaljava/Lambda.java:84 | `String.valueOf(int)` is non-empty and reads back as the same int |
| Text.SpanNonSpace | src/main/java/com/sophos/demofuncionaljava/Flujo.java:127 | the run of non-`\s` characters at the front of a string is maximal |
| Text.SpanSpace | src/main/java/com/sophos/demofuncionaljava/Flujo.java:127 | the run of `\s` characters at the front of a string is maximal |
| Text.StripLeadingStartsWord | src/main/java/com/sophos/demofuncionaljava/Flujo.java:127 | removing leading whitespace drops only whitespace and leaves a suffix that is empty or starts with non-whitespace |
| Text.StripTrailingDropsWhitespace | src/main/java/com/sophos/demofuncionaljava/Flujo.java:127 | removing trailing whitespace drops only whitespace and leaves a prefix that is empty or ends with non-whitespace |
| Text.StripTrailingKeepsStart | src/main/java/com/sophos/demofuncionaljava/Flujo.java:127 | removing trailing whitespace leaves a prefix that keeps the first character and ends with non-whitespace |
| Text.StripEnds | src/main/java/com/sophos/demofuncionaljava/Flujo.java:127 | `strip()` yields a contiguous part of the text that is empty or starts and ends with non-whitespace, everything cut before and after it is whitespace, and the result is empty iff the text is all whitespace |
| Text.StripKeeps | src/main/java/com/sophos/demofuncionaljava/Flujo.java:127 | text that starts and ends with non-whitespace is not changed by `strip()` |
| Text.StripIdempotent | src/main/java/com/sophos/demofuncionaljava/Flujo.java:127 | `strip()` twice is `strip()` once |
| Text.PiecesOfTrimmed | src/main/java/com/sophos/demofuncionaljava/Flujo.java:127 | text that starts and ends with a non-space splits into non-empty words without spaces, the first starting and the last ending as the text does |
| Text.SplitOfTrimmed | src/main/java/com/sophos/demofuncionaljava/Flujo.java:127 | on such text `split("\\s+")` drops nothing and yields exactly those words |
| Text.PiecesOfWordSpace | src/main/java/com/sophos/demofuncionaljava/Flujo.java:127 | a word, one space and more text split into that word followed by the split of the rest |
| Text.PiecesOfWord | src/main/java/com/sophos/demofuncionaljava/Flujo.java:127 | a single word splits into itself |
| Text.PiecesOfJoin | src/main/java/com/sophos/demofuncionaljava/Flujo.java:127-130 | words joined by single spaces split back into the same words |
| Text.SplitJoin | src/main/java/com/sophos/demofuncionaljava/Flujo.java:127-130 | `split("\\s+")` inverts `joining(" ")` on words |
| Text.JoinEnds | src/main/java/com/sophos/demofuncionaljava/Flujo.java:130 | `joining` of non-empty strings starts with the first string's first character and ends with the last string's last character |
| Text.UpperCase | src/main/java/com/sophos/demofuncionaljava/Flujo.java:129 | `toUpperCase` keeps the length and maps each character |
| Text.LowerCase | src/main/java/com/sophos/demofuncionaljava/Flujo.java:129 | `toLowerCase` keeps the length and maps each character |
| Text.CaseMappingFixes | src/main/java/com/sophos/demofuncionaljava/Flujo.java:129 | case mapping is idempotent and neither creates nor removes whitespace |
| TreeMaps.GetFindsKeys | src/main/java/com/sophos/demofuncionaljava/Lambda.java:74 | `get(k)` is non-null iff k is a key, and it returns the value of k's first entry |
| TreeMaps.GetEntry | src/main/java/com/sophos/demofuncionaljava/Lambda.java:84 | in an ascending map, looking up an entry's key finds that entry's value |
| TreeMaps.ComputeSpec | src/main/java/com/sophos/demofuncionaljava/Lambda.java:74 | `compute(k, f)` keeps the keys ascending, adds k, sets k to f of its old value, and changes no other key |
| TreeMaps.ComputeKeys | src/main/java/com/sophos/demofuncionaljava/Lambda.java:74 | `compute(k, f)` adds k to the key set and nothing else |
| TreeMaps.ComputeGet | src/main/java/com/sophos/demofuncionaljava/Lambda.java:74 | after `compute(k, f)` the value of k is f of its old value, and every other key keeps its value |
| TreeMaps.ComputeAscending | src/main/java/com/sophos/demofuncionaljava/Lambda.java:72-74 | `compute` keeps the keys in strictly ascending order |
| TreeMaps.ComputeSum | src/main/java/com/sophos/demofuncionaljava/Lambda.java:74 | after `compute` the values add up to the old total, less k's old value, plus its new one |
| TreeMaps.GetBelowFirstKey | src/main/java/com/sophos/demofuncionaljava/Lambda.java:74 | a key below the first key of an ascending map is absent |
| Collectors.CollectToList | src/main/java/com/sophos/demofuncionaljava/Flujo.java:178 | `toList()` collects every element in encounter order |
| Collectors.CollectCounting | src/main/java/com/sophos/demofuncionaljava/Flujo.java:204 | `counting()` is the number of elements |
| Collectors.AccumulateMapping | src/main/java/com/sophos/demofuncionaljava/Flujo.java:193 | `mapping(f, d)` is d run on the mapped elements |
| Collectors.AccumulateFiltering | src/main/java/com/sophos/demofuncionaljava/Flujo.java:249-251 | `filtering(p, d)` is d run on the elements that pass p |
| Collectors.CollectSummingInt | src/main/java/com/sophos/demofuncionaljava/Flujo.java:160 | `summingInt(f)` equals the exact total wrapped once and equals `mapToInt(f).sum()` |
| Collectors.AccumulateAveragingInt | src/main/java/com/sophos/demofuncionaljava/Flujo.java:213 | the container of `averagingInt` holds the exact sum and the count |
| Collectors.CollectAveragingInt | src/main/java/com/sophos/demofuncionaljava/Flujo.java:213 | `averagingInt` is 0 on no elements and otherwise the exact sum over the count |
| Collectors.AccumulateGroupingBy | src/main/java/com/sophos/demofuncionaljava/Flujo.java:184 | the `groupingBy` container holds one bucket per key that occurs, each accumulated over that key's elements |
| Collectors.GroupingByBuckets | src/main/java/com/sophos/demofuncionaljava/Flujo.java:184 | `groupingBy(key, d)` has exactly the keys that occur, and under each the result of d on the elements with that key, in order |
| Collectors.AccumulatePartitioningBy | src/main/java/com/sophos/demofuncionaljava/Flujo.java:170 | the `partitioningBy` container always has both keys, each accumulated over the elements of its side |
| Collectors.PartitioningByBuckets | src/main/java/com/sophos/demofuncionaljava/Flujo.java:170 | `partitioningBy(p, d)` maps true to d on the elements passing p and false to d on the rest |
| Collectors.AccumulateToTreeMap | src/main/java/com/sophos/demofuncionaljava/Flujo.java:234-239 | `toMap(key, value, merge, TreeMap::new)` has ascending keys, exactly those that occur, and under each the merge-reduction of that key's values |
| Collectors.SumOfBucketSizesIsFilter | src/main/java/com/sophos/demofuncionaljava/Flujo.java:183-185 | over distinct keys, the bucket sizes add up to the number of elements with one of those keys |
| Collectors.BucketSizesAddUp | src/main/java/com/sophos/demofuncionaljava/Flujo.java:183-185 | over distinct keys covering every element, the bucket sizes add up to the element count |
| Collectors.ListSizesOfGrouping | src/main/java/com/sophos/demofuncionaljava/Flujo.java:183-185 | the lists `groupingBy(key)` stores have the bucket sizes |
| Collectors.GroupingByListSizes | src/main/java/com/sophos/demofuncionaljava/Flujo.java:183-185 | `groupingBy(key)` loses and duplicates nothing: its list sizes add up to the element count |
| Ejemplos.LongestWordIsFirstLongest | src/main/java/com/sophos/demofuncionaljava/Flujo.java:53-57 | `max(comparing(length)).orElseThrow()` throws iff the list is empty, and otherwise yields the first longest word |
| Ejemplos.LongestByReduceIsFirstLongest | src/main/java/com/sophos/demofuncionaljava/Flujo.java:58-61 | `reduce("", longer)` on a non-empty list yields the first longest word |
| Ejemplos.LongestWordAgrees | src/main/java/com/sophos/demofuncionaljava/Flujo.java:51-61 | both ways of finding the longest word agree; on an empty list `reduce` gives "" |
| Ejemplos.LongestWordExample | src/main/java/com/sophos/demofuncionaljava/Flujo.java:53-57 | the longest of uno, dos, tres, cuatro, cinco is "cuatro" |
| Ejemplos.IntersectionSpec | src/main/java/com/sophos/demofuncionaljava/Flujo.java:66-69 | the intersection is sorted and holds every element of the first list that the second contains, as often as it occurs there |
| Ejemplos.IntersectionExample | src/main/java/com/sophos/demofuncionaljava/Flujo.java:63-72 | the two sample lists intersect in 2, 4, 6, 8, printed as "2, 4, 6, 8" |
| Ejemplos.DistinctSampleSpec | src/main/java/com/sophos/demofuncionaljava/Flujo.java:74-82 | the distinct sorted sample is strictly ascending, has at most ten values, and holds exactly the first ten draws |
| Ejemplos.SortedDistinctIsStrict | src/main/java/com/sophos/demofuncionaljava/Flujo.java:78-79 | sorting a duplicate-free list gives a strictly ascending one |
| Ejemplos.OccurrencesByFilter | src/main/java/com/sophos/demofuncionaljava/Flujo.java:89-91 | the bucket of k under `groupingBy(identity())` has as many elements as k occurs |
| Ejemplos.FrequenciesSpec | src/main/java/com/sophos/demofuncionaljava/Flujo.java:84-94 | the keys are the values drawn, and each count is that value's number of occurrences, at least 1 |
| Ejemplos.FrequenciesExample | src/main/java/com/sophos/demofuncionaljava/Flujo.java:84-94 | a concrete draw gets the expected frequency table |
| Ejemplos.DecadeBucketsSpec | src/main/java/com/sophos/demofuncionaljava/Flujo.java:96-101 | one bucket per decade that occurs, holding in stream order the values of that decade; a non-negative value x lies in bucket k with k <= x < k + 10 |
| Ejemplos.SteppedValues | src/main/java/com/sophos/demofuncionaljava/Flujo.java:98 | `iterate(1, i < 40, i + 3)` yields the 13 values 1, 4, ..., 37 |
| Ejemplos.SteppedDecades | src/main/java/com/sophos/demofuncionaljava/Flujo.java:96-101 | 1, 4, ..., 37 fall into the decades 0, 10, 20 and 30 |
| Ejemplos.DecadeOfStep | src/main/java/com/sophos/demofuncionaljava/Flujo.java:96-101 | the i-th element 1 + 3i of the stepped stream lies in decade 0 for i < 3, 10 for i < 7, 20 for i < 10 and 30 otherwise |
| Ejemplos.SteppedBucket | src/main/java/com/sophos/demofuncionaljava/Flujo.java:96-101 | the elements grouped under one decade are the contiguous run of the stream whose steps map to it |
| Ejemplos.SteppedBucketValues | src/main/java/com/sophos/demofuncionaljava/Flujo.java:96-101 | the groups are [1, 4, 7], [10, 13, 16, 19], [22, 25, 28] and [31, 34, 37] |
| Ejemplos.DecadeMap | src/main/java/com/sophos/demofuncionaljava/Flujo.java:96-101 | a map with keys 0, 10, 20, 30 and those four groups is the expected map literal |
| Ejemplos.SteppedBuckets | src/main/java/com/sophos/demofuncionaljava/Flujo.java:96-101 | `groupingBy(i -> i / 10 * 10)` of 1, 4, ..., 37 is {0=[1, 4, 7], 10=[10, 13, 16, 19], 20=[22, 25, 28], 30=[31, 34, 37]} |
| Ejemplos.DecadeExample | src/main/java/com/sophos/demofuncionaljava/Flujo.java:96-101 | the program's own stream `iterate(1, i -> i < 40, i -> i + 3)` groups into that full map |
| Ejemplos.GaussReduceSpec | src/main/java/com/sophos/demofuncionaljava/Flujo.java:103-107 | the `reduce` is n(n+1)/2 wrapped to an int, exact while it fits, and 5050 for n = 100 |
| Ejemplos.ReduceSplitSingle | src/main/java/com/sophos/demofuncionaljava/Flujo.java:113-117 | with a single part the three-argument `reduce` is the sequential fold |
| Ejemplos.ReduceSplitDependsOnSplit | src/main/java/com/sophos/demofuncionaljava/Flujo.java:110-118 | for 1, 2, 3 with identity 10, `*` and `+`, one part gives 60 and the split [1] and [2, 3] gives 70 |
| Ejemplos.CapitalizeWordSpec | src/main/java/com/sophos/demofuncionaljava/Flujo.java:129 | a word's capitalisation throws iff the word is empty, and otherwise upper-cases its first letter and lower-cases the rest |
| Ejemplos.CapitalizeAllWords | src/main/java/com/sophos/demofuncionaljava/Flujo.java:128-129 | the `map` stage capitalises every word in order, loses none, and yields words again |
| Ejemplos.WordsOfStripped | src/main/java/com/sophos/demofuncionaljava/Flujo.java:127 | non-blank stripped text splits into words whose ends are the text's ends |
| Ejemplos.CapitalizeSpec | src/main/java/com/sophos/demofuncionaljava/Flujo.java:125-131 | capitalisation throws iff the stripped text is empty, that is iff the text is all whitespace; otherwise the output splits into as many words as the stripped input, each the corresponding input word capitalised |
| Ejemplos.CapitalizeWordFixes | src/main/java/com/sophos/demofuncionaljava/Flujo.java:129 | capitalising a capitalised word changes nothing |
| Ejemplos.CapitalizeAllFixes | src/main/java/com/sophos/demofuncionaljava/Flujo.java:128-129 | the `map` stage leaves capitalised words unchanged |
| Ejemplos.CapitalizedEnds | src/main/java/com/sophos/demofuncionaljava/Flujo.java:125-131 | on non-blank text the output is non-empty and starts and ends with non-whitespace |
| Ejemplos.CapitalizeIdempotent | src/main/java/com/sophos/demofuncionaljava/Flujo.java:125-131 | capitalising capitalised text changes nothing |
| CasosPracticos.TotalSalarios | src/main/java/com/sophos/demofuncionaljava/Flujo.java:152-155 | the `for` loop's int total is `mapToInt(getSalario).sum()` and is the exact salary sum wrapped once |
| CasosPracticos.SalaryTotalsAgree | src/main/java/com/sophos/demofuncionaljava/Flujo.java:158-160 | `mapToInt(getSalario).sum()`, `summingInt(getSalario)` and the wrapped exact sum are equal |
| CasosPracticos.SampleSalaries | src/main/java/com/sophos/demofuncionaljava/Flujo.java:135-146 | the sample's salaries, in order |
| CasosPracticos.SampleTotal | src/main/java/com/sophos/demofuncionaljava/Flujo.java:152-162 | the ten salaries add up to 12000, which fits in an int |
| CasosPracticos.SumOfSalaries | src/main/java/com/sophos/demofuncionaljava/Flujo.java:152-155 | the ten sample salaries sum to 12000 |
| CasosPracticos.Mayores30Spec | src/main/java/com/sophos/demofuncionaljava/Flujo.java:165-170 | `subList` throws iff there are fewer than 9 employees; otherwise both keys are present, each bucket is the flattened ages filtered by its side of `edad >= 30` in order, every age is in exactly one bucket, and the sizes add up to 6 |
| CasosPracticos.SampleAges | src/main/java/com/sophos/demofuncionaljava/Flujo.java:165-169 | the flattened sub-lists hold the ages 30, 23, 28, 45, 38, 36 |
| CasosPracticos.PartitionOfSampleAges | src/main/java/com/sophos/demofuncionaljava/Flujo.java:170 | those ages split into 30, 45, 38, 36 and 23, 28 |
| CasosPracticos.Mayores30Example | src/main/java/com/sophos/demofuncionaljava/Flujo.java:165-172 | on the sample the result is {true=[30, 45, 38, 36], false=[23, 28]} |
| CasosPracticos.SalarioMayor1000Spec | src/main/java/com/sophos/demofuncionaljava/Flujo.java:175-179 | the names are those of the employees earning more than 1000, all of them, in list order |
| CasosPracticos.EmpleadosCiudadBuckets | src/main/java/com/sophos/demofuncionaljava/Flujo.java:183-185 | one bucket per city, holding that city's employees in list order |
| CasosPracticos.EmpleadosCiudadSpec | src/main/java/com/sophos/demofuncionaljava/Flujo.java:183-185 | every employee in bucket k lives in k, and every employee of k is in bucket k as often as in the list |
| CasosPracticos.EmpleadosCiudadSizes | src/main/java/com/sophos/demofuncionaljava/Flujo.java:183-185 | the bucket sizes add up to the number of employees |
| CasosPracticos.NombresPorCiudadSpec | src/main/java/com/sophos/demofuncionaljava/Flujo.java:189-196 | same cities as the plain grouping, and under each the names of that city's employees, in order |
| CasosPracticos.CantidadPorCiudadSpec | src/main/java/com/sophos/demofuncionaljava/Flujo.java:200-207 | same cities as the plain grouping, and each count is the size of its bucket, at least 1 |
| CasosPracticos.SumWithin | src/main/java/com/sophos/demofuncionaljava/Flujo.java:211-213 | a sum of values between lo and hi lies between count·lo and count·hi |
| CasosPracticos.SalarioPromedioSpec | src/main/java/com/sophos/demofuncionaljava/Flujo.java:211-214 | the average is 0 with nobody selected, and otherwise the salary sum of the employees under 30 in Bogotá over their count, lying between any lower and upper bound of their salaries |
| CasosPracticos.YoungInBogotaSelection | src/main/java/com/sophos/demofuncionaljava/Flujo.java:212 | on the sample the filter selects exactly the second and fifth employees |
| CasosPracticos.SalarioPromedioExample | src/main/java/com/sophos/demofuncionaljava/Flujo.java:211-215 | on the sample the average is 1700/2 |
| CasosPracticos.SummaryAverage | src/main/java/com/sophos/demofuncionaljava/Flujo.java:220-228 | the average is the exact sum over the count, 0 when there are no values, and lies between min and max |
| CasosPracticos.SummaryStatisticsSpec | src/main/java/com/sophos/demofuncionaljava/Flujo.java:220-223 | the count is the number of values, the sum their exact sum, min ≤ every value ≤ max, min and max are attained when there are values, and they are MAX_VALUE and MIN_VALUE when there are none |
| CasosPracticos.EstadisticasMedellinSpec | src/main/java/com/sophos/demofuncionaljava/Flujo.java:218-229 | the statistics are those of exactly the salaries of the Medellín employees: count, sum, bounds, attained extremes |
| CasosPracticos.MedellinSelection | src/main/java/com/sophos/demofuncionaljava/Flujo.java:221 | on the sample the filter selects the first, third, sixth and tenth employees |
| CasosPracticos.StatisticsOfSalaries | src/main/java/com/sophos/demofuncionaljava/Flujo.java:223 | the statistics of 1000, 800, 1000, 800 are count 4, sum 3600, min 800, max 1000 |
| CasosPracticos.EstadisticasMedellinExample | src/main/java/com/sophos/demofuncionaljava/Flujo.java:218-229 | on the sample: 4 employees, sum 3600, minimum 800, maximum 1000, average 3600/4 |
| CasosPracticos.MaximosSpec | src/main/java/com/sophos/demofuncionaljava/Flujo.java:232-241 | the cities are iterated in ascending order and are exactly the cities present; each value bounds every salary of its city and is the salary of one of its employees |
| CasosPracticos.MaximumAtCity | src/main/java/com/sophos/demofuncionaljava/Flujo.java:232-241 | the value stored for a city is the largest salary there and is attained |
| CasosPracticos.CityMaximum | src/main/java/com/sophos/demofuncionaljava/Flujo.java:237 | merging a city's salaries with `Integer::max` gives one of them, and none is larger |
| CasosPracticos.CityMember | src/main/java/com/sophos/demofuncionaljava/Flujo.java:235 | every employee of a city is among that city's elements |
| CasosPracticos.CityMemberOf | src/main/java/com/sophos/demofuncionaljava/Flujo.java:235 | every element of a city's selection is an employee of that city |
| CasosPracticos.MejoresPagosSpec | src/main/java/com/sophos/demofuncionaljava/Flujo.java:245-255 | every city is a key, even one where nobody earns more than 1000, and its list holds the names of that city's employees earning more than 1000, in order |
| CasosPracticos.CondicionalesExample | src/main/java/com/sophos/demofuncionaljava/Flujo.java:259-266 | on the sample `anyMatch(salario > 2000)` is true and `allMatch(salario > 2000)` is false |
| CasosPracticos.Over2000Selection | src/main/java/com/sophos/demofuncionaljava/Flujo.java:268 | on the sample only the ninth employee earns more than 2000 |
| CasosPracticos.FindAnyExample | src/main/java/com/sophos/demofuncionaljava/Flujo.java:267-272 | whatever `findAny()` picks, on the sample it is "Empleado9" |
| CasosPracticos.PrimeroDesde1000Spec | src/main/java/com/sophos/demofuncionaljava/Flujo.java:273-278 | `findFirst()` is empty iff nobody earns 1000 or more, and otherwise is the name of the first who does |
| CasosPracticos.PrimeroDesde1000Example | src/main/java/com/sophos/demofuncionaljava/Flujo.java:273-278 | on the sample it is "Empleado1" |
| Composicion.Letras | src/main/java/com/sophos/demofuncionaljava/Lambda.java:60-66 | as many letters as characters, the i-th being the one-character string of s[i] |
| Composicion.Partir | src/main/java/com/sophos/demofuncionaljava/Lambda.java:60-66 | the loop that appends `String.valueOf(s.charAt(i))` builds exactly the letters of s |
| Composicion.LetrasRoundTrip | src/main/java/com/sophos/demofuncionaljava/Lambda.java:60-66 | concatenating the letters gives back the string |
| Composicion.FlattenSnoc | src/main/java/com/sophos/demofuncionaljava/Lambda.java:60-66 | flattening one more list appends it |
| Composicion.LetrasOccurrences | src/main/java/com/sophos/demofuncionaljava/Lambda.java:60-66 | the letter [c] occurs as often as the character c |
| Composicion.LetrasSet | src/main/java/com/sophos/demofuncionaljava/Lambda.java:60-66 | the distinct letters are the one-character strings of the characters of s |
| Composicion.Contar | src/main/java/com/sophos/demofuncionaljava/Lambda.java:71-77 | the loop of `compute` calls builds the frequency table of the letters |
| Composicion.FrecuenciasKeys | src/main/java/com/sophos/demofuncionaljava/Lambda.java:71-77 | the table's keys are strictly ascending and are exactly the distinct letters |
| Composicion.FrecuenciasCounts | src/main/java/com/sophos/demofuncionaljava/Lambda.java:71-77 | every key's count is its number of occurrences, and absent keys count 0 |
| Composicion.FrecuenciasSum | src/main/java/com/sophos/demofuncionaljava/Lambda.java:71-77 | the counts add up to the number of letters |
| Composicion.FrecuenciasSpec | src/main/java/com/sophos/demofuncionaljava/Lambda.java:71-77 | ascending keys, exactly the distinct letters, counts equal to occurrences, every count at least 1, total equal to the number of letters |
| Composicion.FrecuenciasEntries | src/main/java/com/sophos/demofuncionaljava/Lambda.java:71-77 | entry by entry in iteration order, each key is a letter whose count is its number of occurrences, and keys strictly increase |
| Composicion.ContarExample | src/main/java/com/sophos/demofuncionaljava/Lambda.java:79 | `contar(s, o, p, h, o, s)` is {h=1, o=2, p=1, s=2} |
| Composicion.Mostrar | src/main/java/com/sophos/demofuncionaljava/Lambda.java:82-86 | the `StringBuilder` ends up holding "Frecuencias\n" and one `clave: valor\n` line per entry in iteration order |
| Composicion.LineasAppend | src/main/java/com/sophos/demofuncionaljava/Lambda.java:84 | the lines of two runs of entries are the lines of the first run followed by those of the second |
| Composicion.LineasSnoc | src/main/java/com/sophos/demofuncionaljava/Lambda.java:84 | one more entry appends its line |
| Composicion.DecimalHasNoNewline | src/main/java/com/sophos/demofuncionaljava/Lambda.java:84 | a rendered count holds no line break |
| Composicion.MostradaLines | src/main/java/com/sophos/demofuncionaljava/Lambda.java:82-86 | when no key holds a line break, the text has one line for the title and one per entry |
| Composicion.LinesCount | src/main/java/com/sophos/demofuncionaljava/Lambda.java:84 | the entry lines hold exactly one line break each |
| Composicion.ComposicionSpec | src/main/java/com/sophos/demofuncionaljava/Lambda.java:91 | the composition is `mostrar(contar(partir(s)))`: it splits first and renders last; the table it renders has ascending keys, one per distinct character, each counted as often as it occurs, and counts adding up to the length of s |
| Composicion.ComposicionEjecutada | src/main/java/com/sophos/demofuncionaljava/Lambda.java:91 | running `partir`, `contar` and `mostrar` in turn yields the composition's result |

## Left out

- Console output (`System.out.println`, the `mostrar` BiConsumer of `Flujo`, `Empleado.toString`, `ifPresent(System.out::println)`) is I/O. The model stops at the value that would be printed.
- `crearStream` (Flujo.java:22-49) is not part of this model: it only prints streams built by the library, including infinite ones from `Stream.generate` and unbounded `iterate`, whose meaning rests on laziness.
- `ejemplosLambda` (Lambda.java:19-56) is not part of this model: it only wraps library calls such as `Math.pow`, `Integer.parseInt` and `String.contains`.
- `empleados.stream().count()` (Flujo.java:149) is the length of the list, 10 on the sample; it has no member of its own.
- `mapToInt(i -> i * 10).sum()` (Flujo.java:119-122) has its result discarded, so it has no member of its own.
- `mostrar(Map.of("R", 2, "J", 1, "B", 1))` (Lambda.java:88) is not computed: `Map.of` has no specified iteration order, and `Mostrar` is proved for any iteration order.
- `composicion.apply("Hola, soy Ricardo Ramírez")` (Lambda.java:93) is not computed on that string; `ComposicionSpec` covers every string.
- `UUID.randomUUID` and `new Random().ints(...)` are nondeterministic. The draws are a parameter of `DistinctSample` and `Frequencies`, and the draw's range is not assumed.
- Parallel evaluation is modelled sequentially. `findAny` is a relation, `FindAnyMayReturn`: any element of the filtered stream may be returned.
- Ejemplos.ReduceSplit: the three-argument `reduce(10, *, +)` on a parallel stream depends on how the runtime splits the stream. It is modelled with the split as an explicit parameter, and no number is claimed for the program's own run.
- `double` results (`averagingInt`, `IntSummaryStatistics.getAverage`) are exact fractions, not floating point.
- Text.UpperCase, Text.LowerCase: case mapping covers ASCII letters only; other characters are left as they are.
- Composicion.Letras, Composicion.Partir, Composicion.ComposicionSpec: `s.length()` and `s.charAt(i)` count UTF-16 code units, and the model counts Unicode characters. For a character outside the Basic Multilingual Plane (an emoji, say) Java yields two one-unit strings holding the surrogate halves and counts 2, while the model yields one letter and counts 1; on text inside that plane the two agree.
- Text.Less: `String.compareTo` compares UTF-16 code units, and the model compares Unicode characters. The two orders differ only on characters outside the Basic Multilingual Plane, and the demo's keys (ASCII letters and city names with accented Latin-1 letters) have none.
- `Empleado` setters (Flujo.java:310-336) are never called; `Empleado` is immutable.
- `long` results (`counting`, `IntSummaryStatistics` count and sum) are unbounded integers; a `long` overflow is not modelled.
- Composicion.Incremento: the `v + 1` of `contar` is an unbounded integer; the int overflow after 2^31 - 1 occurrences of one letter is not modelled.
- TreeMaps.Compute: the remapping functions of the demo never return `null`, so the removal of a key by a `null` result is not modelled.
