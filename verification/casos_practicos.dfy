/** `Flujo.casosPracticos`: queries over a fixed list of employees, each
    written as a stream pipeline, and the salary total written once more as
    a loop. */
module CasosPracticos {
  import opened Wrappers
  import opened JavaInt
  import opened Streams
  import opened Collectors
  import TreeMaps

  /** `Flujo.Empleado`. Its setters are never called, so it is a value. */
  datatype Empleado = Empleado(nombre: string, ciudad: string, edad: Int32, salario: Int32)

  function Nombre(e: Empleado): string { e.nombre }

  function Ciudad(e: Empleado): string { e.ciudad }

  function Edad(e: Empleado): int { e.edad }

  function Salario(e: Empleado): int { e.salario }

  /** The ten employees the queries run on. */
  function Empleados(): seq<Empleado>
  {
    [ Empleado("Empleado1", "Medellín", 30, 1000),
      Empleado("Empleado2", "Bogotá", 23, 800),
      Empleado("Empleado3", "Medellín", 28, 800),
      Empleado("Empleado4", "Bogotá", 31, 1000),
      Empleado("Empleado5", "Bogotá", 24, 900),
      Empleado("Empleado6", "Medellín", 28, 1000),
      Empleado("Empleado7", "Panamá", 45, 1200),
      Empleado("Empleado8", "Bogotá", 38, 2000),
      Empleado("Empleado9", "México", 36, 2500),
      Empleado("Empleado0", "Medellín", 25, 800) ]
  }

  // ---------------------------------------------------------------------
  // Salary total: a loop, mapToInt(...).sum() and summingInt(...)
  // ---------------------------------------------------------------------

  /** The `for` loop that adds every salary into an int. */
  method TotalSalarios(empleados: seq<Empleado>) returns (totalSalarios: Int32)
    ensures totalSalarios == IntSum(Map(empleados, Salario))
    ensures totalSalarios == Wrap(Sum(Map(empleados, Salario)))
  {
    totalSalarios := 0;
    for i := 0 to |empleados|
      invariant totalSalarios == IntSum(Map(empleados[..i], Salario))
    {
      assert empleados[..i + 1][..i] == empleados[..i];
      totalSalarios := Wrap(totalSalarios + empleados[i].salario);
    }
    assert empleados[..|empleados|] == empleados;
    IntSumIsWrappedSum(Map(empleados, Salario));
  }

  /** `mapToInt(Empleado::getSalario).sum()` and
      `collect(summingInt(Empleado::getSalario))` compute the same int as the
      loop: the exact total, wrapped to 32 bits. */
  lemma SalaryTotalsAgree(empleados: seq<Empleado>)
    ensures IntSum(Map(empleados, Salario)) == Collect(empleados, SummingInt(Salario))
    ensures Collect(empleados, SummingInt(Salario)) == Wrap(Sum(Map(empleados, Salario)))
  {
    CollectSummingInt(empleados, Salario);
  }

  lemma SampleSalaries(es: seq<Empleado>)
    requires es == Empleados()
    ensures Map(es, Salario) == [1000, 800, 800, 1000, 900, 1000, 1200, 2000, 2500, 800]
  {
  }

  /** The ten salaries add up to 12000, well inside the int range. */
  lemma SampleTotal(es: seq<Empleado>)
    requires es == Empleados()
    ensures Wrap(Sum(Map(es, Salario))) == 12000
  {
    SampleSalaries(es);
    SumOfSalaries(Map(es, Salario));
  }

  /** One step of a sum over a prefix. */
  lemma SumStep(s: seq<int>, k: nat)
    requires 0 < k <= |s|
    ensures Sum(s[..k]) == Sum(s[..k - 1]) + s[k - 1]
  {
    assert s[..k][..k - 1] == s[..k - 1];
  }

  /** One step of a filter over a prefix. */
  lemma FilterStep<T>(s: seq<T>, p: T -> bool, k: nat)
    requires 0 < k <= |s|
    ensures Filter(s[..k], p) == Filter(s[..k - 1], p) + if p(s[k - 1]) then [s[k - 1]] else []
  {
    assert s[..k][..k - 1] == s[..k - 1];
  }

  /** A stretch of elements that all fail the predicate adds nothing. */
  lemma {:induction false} FilterSkip<T>(s: seq<T>, p: T -> bool, lo: nat, hi: nat)
    requires lo <= hi <= |s|
    requires forall i :: lo <= i < hi ==> !p(s[i])
    ensures Filter(s[..hi], p) == Filter(s[..lo], p)
    decreases hi - lo
  {
    if lo < hi {
      FilterStep(s, p, hi);
      FilterSkip(s, p, lo, hi - 1);
    }
  }

  lemma SumOfSalaries(s: seq<int>)
    requires s == [1000, 800, 800, 1000, 900, 1000, 1200, 2000, 2500, 800]
    ensures Sum(s) == 12000
  {
    SumStep(s, 1); SumStep(s, 2); SumStep(s, 3); SumStep(s, 4); SumStep(s, 5);
    SumStep(s, 6); SumStep(s, 7); SumStep(s, 8); SumStep(s, 9); SumStep(s, 10);
    assert s[..10] == s;
  }

  // ---------------------------------------------------------------------
  // Flatten two sub-lists, take the ages and partition them
  // ---------------------------------------------------------------------

  function AtLeast30(edad: int): bool { edad >= 30 }

  /** `Stream.of(empleados.subList(0, 2), empleados.subList(5, 9))
      .flatMap(l -> l.stream()).map(Empleado::getEdad)
      .collect(partitioningBy(edad -> edad >= 30))`; `subList` throws when
      the list is shorter than 9. */
  function Mayores30(es: seq<Empleado>): Result<map<bool, seq<int>>>
  {
    if |es| < 9 then Failure(IndexOutOfBounds)
    else Success(Collect(Map(Flatten([es[..2], es[5..9]]), Edad), PartitioningBy(AtLeast30, ToList())))
  }

  /** The sub-lists exist exactly when there are at least 9 employees. The
      six selected ages are split into ages of 30 or more and ages below 30,
      each in encounter order; every age lands in exactly one bucket and the
      sizes add up to six. */
  lemma Mayores30Spec(es: seq<Empleado>)
    ensures Mayores30(es) == Failure(IndexOutOfBounds) <==> |es| < 9
    ensures Mayores30(es).Success? ==>
              var edades := Map(es[..2] + es[5..9], Edad);
              var m := Mayores30(es).value;
              && m.Keys == {true, false}
              && m[true] == Filter(edades, AtLeast30)
              && m[false] == Filter(edades, Not(AtLeast30))
              && (forall j :: 0 <= j < |m[true]| ==> m[true][j] >= 30)
              && (forall j :: 0 <= j < |m[false]| ==> m[false][j] < 30)
              && (forall x :: multiset(m[true])[x] + multiset(m[false])[x] == multiset(edades)[x])
              && |m[true]| + |m[false]| == 6
  {
    if |es| >= 9 {
      var edades := Map(es[..2] + es[5..9], Edad);
      FlattenPair(es[..2], es[5..9]);
      PartitioningByBuckets(edades, AtLeast30, ToList());
      CollectToList(Filter(edades, AtLeast30));
      CollectToList(Filter(edades, Not(AtLeast30)));
      FilterSatisfies(edades, AtLeast30);
      FilterSatisfies(edades, Not(AtLeast30));
      FilterPartition(edades, AtLeast30);
    }
  }

  lemma SampleAges(es: seq<Empleado>)
    requires es == Empleados()
    ensures Map(es[..2] + es[5..9], Edad) == [30, 23, 28, 45, 38, 36]
  {
  }

  lemma PartitionOfSampleAges(edades: seq<int>)
    requires |edades| == 6
    requires edades[0] == 30 && edades[1] == 23 && edades[2] == 28
    requires edades[3] == 45 && edades[4] == 38 && edades[5] == 36
    ensures Filter(edades, AtLeast30) == [30, 45, 38, 36]
    ensures Filter(edades, Not(AtLeast30)) == [23, 28]
  {
    OlderSampleAges(edades);
    YoungerSampleAges(edades);
  }

  lemma OlderSampleAges(edades: seq<int>)
    requires |edades| == 6
    requires edades[0] == 30 && edades[1] == 23 && edades[2] == 28
    requires edades[3] == 45 && edades[4] == 38 && edades[5] == 36
    ensures Filter(edades, AtLeast30) == [30, 45, 38, 36]
  {
    var p := AtLeast30;
    OlderFirstAges(edades);
    assert Filter(edades[..4], p) == [30, 45] by { FilterStep(edades, p, 4); }
    assert Filter(edades[..5], p) == [30, 45, 38] by { FilterStep(edades, p, 5); }
    assert Filter(edades[..6], p) == [30, 45, 38, 36] by { FilterStep(edades, p, 6); }
    assert edades[..6] == edades;
  }

  lemma OlderFirstAges(edades: seq<int>)
    requires |edades| == 6
    requires edades[0] == 30 && edades[1] == 23 && edades[2] == 28
    ensures Filter(edades[..3], AtLeast30) == [30]
  {
    var p := AtLeast30;
    assert Filter(edades[..1], p) == [30] by { FilterStep(edades, p, 1); }
    FilterSkip(edades, p, 1, 3);
  }

  lemma YoungerSampleAges(edades: seq<int>)
    requires |edades| == 6
    requires edades[0] == 30 && edades[1] == 23 && edades[2] == 28
    requires edades[3] == 45 && edades[4] == 38 && edades[5] == 36
    ensures Filter(edades, Not(AtLeast30)) == [23, 28]
  {
    var q := Not(AtLeast30);
    assert !q(edades[0]) && q(edades[1]) && q(edades[2]);
    assert !q(edades[3]) && !q(edades[4]) && !q(edades[5]);
    FilterSkip(edades, q, 0, 1);
    assert Filter(edades[..2], q) == [23] by { FilterStep(edades, q, 2); }
    assert Filter(edades[..3], q) == [23, 28] by { FilterStep(edades, q, 3); }
    FilterSkip(edades, q, 3, 6);
    assert edades[..6] == edades;
  }

  /** On the sample the buckets hold four and two ages. */
  lemma Mayores30Example(es: seq<Empleado>)
    requires es == Empleados()
    ensures Mayores30(es) == Success(map[true := [30, 45, 38, 36], false := [23, 28]])
  {
    Mayores30Spec(es);
    SampleAges(es);
    var edades := Map(es[..2] + es[5..9], Edad);
    assert edades[0] == 30 && edades[1] == 23 && edades[2] == 28;
    assert edades[3] == 45 && edades[4] == 38 && edades[5] == 36;
    PartitionOfSampleAges(edades);
  }

  // ---------------------------------------------------------------------
  // Names of the employees earning more than 1000
  // ---------------------------------------------------------------------

  function GanaMasDe1000(e: Empleado): bool { e.salario > 1000 }

  /** `filter(empleado -> empleado.getSalario() > 1000).map(Empleado::getNombre)
      .collect(toList())`. */
  function SalarioMayor1000(es: seq<Empleado>): seq<string>
  {
    Map(Filter(es, GanaMasDe1000), Nombre)
  }

  /** The names are those of the employees earning more than 1000, all of
      them and no other, in list order. */
  lemma SalarioMayor1000Spec(es: seq<Empleado>) returns (idx: seq<nat>)
    ensures |idx| == |SalarioMayor1000(es)|
    ensures forall j :: 0 <= j < |idx| ==>
              idx[j] < |es| && SalarioMayor1000(es)[j] == es[idx[j]].nombre
    ensures forall j, k :: 0 <= j < k < |idx| ==> idx[j] < idx[k]
    ensures forall i :: 0 <= i < |es| ==> (es[i].salario > 1000 <==> i in idx)
  {
    idx := FilterIsSubsequence(es, GanaMasDe1000);
  }

  // ---------------------------------------------------------------------
  // Grouping by city
  // ---------------------------------------------------------------------

  /** The cities the employees live in. */
  function Ciudades(es: seq<Empleado>): set<string>
  {
    KeysOf(es, Ciudad)
  }

  /** `groupingBy(Empleado::getCiudad)`. */
  function EmpleadosCiudad(es: seq<Empleado>): map<string, seq<Empleado>>
  {
    Collect(es, GroupingBy(Ciudad, ToList()))
  }

  /** One bucket per city, holding the employees of that city in list
      order. */
  lemma EmpleadosCiudadBuckets(es: seq<Empleado>)
    ensures EmpleadosCiudad(es).Keys == Ciudades(es)
    ensures forall k :: k in EmpleadosCiudad(es) ==> EmpleadosCiudad(es)[k] == Filter(es, KeyIs(Ciudad, k))
  {
    GroupingByBuckets(es, Ciudad, ToList());
    forall k | k in EmpleadosCiudad(es) ensures EmpleadosCiudad(es)[k] == Filter(es, KeyIs(Ciudad, k)) {
      CollectToList(Filter(es, KeyIs(Ciudad, k)));
    }
  }

  /** Every employee of a bucket lives in its city, and every employee is
      in the bucket of its own city as often as in the list, and in no
      other. */
  lemma EmpleadosCiudadSpec(es: seq<Empleado>)
    ensures EmpleadosCiudad(es).Keys == Ciudades(es)
    ensures forall k, j :: k in EmpleadosCiudad(es) && 0 <= j < |EmpleadosCiudad(es)[k]| ==>
              EmpleadosCiudad(es)[k][j].ciudad == k
    ensures forall k, e :: k in EmpleadosCiudad(es) ==>
              multiset(EmpleadosCiudad(es)[k])[e] == if e.ciudad == k then multiset(es)[e] else 0
  {
    EmpleadosCiudadBuckets(es);
    var m: map<string, seq<Empleado>> := EmpleadosCiudad(es);
    forall k, j | k in m && 0 <= j < |m[k]| ensures m[k][j].ciudad == k {
      assert m[k] == Filter(es, KeyIs(Ciudad, k));
      FilterSatisfies(es, KeyIs(Ciudad, k));
      assert KeyIs(Ciudad, k)(m[k][j]);
    }
    forall k, e: Empleado | k in m ensures multiset(m[k])[e] == if e.ciudad == k then multiset(es)[e] else 0 {
      FilterOccurrences(es, KeyIs(Ciudad, k), e);
    }
  }

  /** Over any duplicate-free list of the cities the bucket sizes add up to
      the number of employees. */
  lemma EmpleadosCiudadSizes(es: seq<Empleado>, ciudades: seq<string>)
    requires NoDuplicates(ciudades)
    requires forall i :: 0 <= i < |es| ==> es[i].ciudad in ciudades
    ensures ListSizes(EmpleadosCiudad(es), ciudades) == |es|
  {
    GroupingByListSizes(es, Ciudad, ciudades);
  }

  /** `groupingBy(Empleado::getCiudad, mapping(Empleado::getNombre, toList()))`. */
  function NombresPorCiudad(es: seq<Empleado>): map<string, seq<string>>
  {
    Collect(es, GroupingBy(Ciudad, Mapping(Nombre, ToList())))
  }

  /** Same keys as the plain grouping, and under each city the names of the
      employees of its bucket, in the same order. */
  lemma NombresPorCiudadSpec(es: seq<Empleado>)
    ensures NombresPorCiudad(es).Keys == EmpleadosCiudad(es).Keys
    ensures forall k :: k in NombresPorCiudad(es) ==> NombresPorCiudad(es)[k] == Map(EmpleadosCiudad(es)[k], Nombre)
  {
    EmpleadosCiudadBuckets(es);
    GroupingByBuckets(es, Ciudad, Mapping(Nombre, ToList()));
    forall k | k in NombresPorCiudad(es) ensures NombresPorCiudad(es)[k] == Map(EmpleadosCiudad(es)[k], Nombre) {
      var f := Filter(es, KeyIs(Ciudad, k));
      AccumulateMapping(f, Nombre, ToList());
      CollectToList(Map(f, Nombre));
    }
  }

  /** `groupingBy(Empleado::getCiudad, counting())`. */
  function CantidadPorCiudad(es: seq<Empleado>): map<string, int>
  {
    Collect(es, GroupingBy(Ciudad, Counting()))
  }

  /** The count of a city is the size of its bucket. */
  lemma CantidadPorCiudadSpec(es: seq<Empleado>)
    ensures CantidadPorCiudad(es).Keys == EmpleadosCiudad(es).Keys
    ensures forall k :: k in CantidadPorCiudad(es) ==> CantidadPorCiudad(es)[k] == |EmpleadosCiudad(es)[k]| > 0
  {
    EmpleadosCiudadBuckets(es);
    GroupingByBuckets(es, Ciudad, Counting());
    forall k | k in CantidadPorCiudad(es) ensures CantidadPorCiudad(es)[k] == |EmpleadosCiudad(es)[k]| > 0 {
      CollectCounting(Filter(es, KeyIs(Ciudad, k)));
      var i :| 0 <= i < |es| && es[i].ciudad == k;
      FilterOccurrences(es, KeyIs(Ciudad, k), es[i]);
    }
  }

  // ---------------------------------------------------------------------
  // Average salary of the employees under 30 living in Bogotá
  // ---------------------------------------------------------------------

  function JovenEnBogota(e: Empleado): bool { e.edad < 30 && e.ciudad == "Bogotá" }

  /** `filter(edad < 30 && ciudad.equals("Bogotá")).collect(averagingInt(getSalario))`,
      as the exact fraction the double approximates. */
  function SalarioPromedioMenoresBogota(es: seq<Empleado>): Average
  {
    Collect(Filter(es, JovenEnBogota), AveragingInt(Salario))
  }

  lemma {:induction false} SumWithin(s: seq<int>, lo: int, hi: int)
    requires forall i :: 0 <= i < |s| ==> lo <= s[i] <= hi
    ensures |s| * lo <= Sum(s) <= |s| * hi
  {
    if |s| > 0 {
      var s' := s[..|s| - 1];
      SumWithin(s', lo, hi);
      var n := |s'|;
      assert Sum(s) == Sum(s') + s[n];
      assert |s| * lo == n * lo + lo && |s| * hi == n * hi + hi;
    }
  }

  /** With nobody selected the average is 0; otherwise it is the salary sum
      over the number selected, and lies between any lower and upper bound of
      their salaries. */
  lemma SalarioPromedioSpec(es: seq<Empleado>, lo: int, hi: int)
    requires forall i :: 0 <= i < |es| && JovenEnBogota(es[i]) ==> lo <= es[i].salario <= hi
    ensures var a := SalarioPromedioMenoresBogota(es);
            var selected := Filter(es, JovenEnBogota);
            && (|selected| == 0 ==> a == Average(0, 1))
            && (|selected| > 0 ==> a.denominator == |selected|
                                   && a.numerator == Sum(Map(selected, Salario))
                                   && lo * a.denominator <= a.numerator <= hi * a.denominator)
  {
    var selected := Filter(es, JovenEnBogota);
    CollectAveragingInt(selected, Salario);
    FilterSatisfies(es, JovenEnBogota);
    var vals := Map(selected, Salario);
    forall j | 0 <= j < |vals| ensures lo <= vals[j] <= hi {
      var idx := FilterIsSubsequence(es, JovenEnBogota);
      assert selected[j] == es[idx[j]];
    }
    SumWithin(vals, lo, hi);
  }

  lemma SampleYoungInBogota(es: seq<Empleado>)
    requires es == Empleados()
    ensures |es| == 10
    ensures forall i :: 0 <= i < 10 ==> (JovenEnBogota(es[i]) <==> i == 1 || i == 4)
    ensures es[1].salario == 800 && es[4].salario == 900
  {
  }

  lemma YoungInBogotaSelection(es: seq<Empleado>)
    requires |es| == 10
    requires forall i :: 0 <= i < 10 ==> (JovenEnBogota(es[i]) <==> i == 1 || i == 4)
    ensures Filter(es, JovenEnBogota) == [es[1], es[4]]
  {
    var p := JovenEnBogota;
    FilterSkip(es, p, 0, 1);
    assert Filter(es[..2], p) == [es[1]] by { FilterStep(es, p, 2); }
    FilterSkip(es, p, 2, 4);
    assert Filter(es[..5], p) == [es[1], es[4]] by { FilterStep(es, p, 5); }
    FilterSkip(es, p, 5, 10);
    assert es[..10] == es;
  }

  /** Two employees under 30 live in Bogotá, earning 800 and 900: 850 on
      average. */
  lemma SalarioPromedioExample(es: seq<Empleado>)
    requires es == Empleados()
    ensures SalarioPromedioMenoresBogota(es) == Average(1700, 2)
  {
    SampleYoungInBogota(es);
    YoungInBogotaSelection(es);
    var selected := Filter(es, JovenEnBogota);
    CollectAveragingInt(selected, Salario);
    var vals := Map(selected, Salario);
    assert vals[..1] == [800];
    SumStep(vals, 1);
    SumStep(vals, 2);
    assert vals[..2] == vals;
  }

  // ---------------------------------------------------------------------
  // Summary statistics of the salaries in Medellín
  // ---------------------------------------------------------------------

  /** `IntSummaryStatistics`: a long count and sum and an int minimum and
      maximum, which start at Integer.MAX_VALUE and Integer.MIN_VALUE. */
  datatype IntSummaryStatistics = IntSummaryStatistics(count: int, sum: int, min: int, max: int)

  function Min(a: int, b: int): int { if a <= b then a else b }

  /** `IntSummaryStatistics.accept(value)`. */
  function Accept(st: IntSummaryStatistics, value: int): IntSummaryStatistics
  {
    IntSummaryStatistics(st.count + 1, st.sum + value, Min(st.min, value), Max(st.max, value))
  }

  /** `IntStream.summaryStatistics()`. */
  function SummaryStatistics(values: seq<int>): IntSummaryStatistics
  {
    Fold(values, IntSummaryStatistics(0, 0, MAX, MIN), Accept)
  }

  /** `getAverage()`: 0 without values, otherwise sum / count. */
  function GetAverage(st: IntSummaryStatistics): Average
  {
    if st.count > 0 then Average(st.sum, st.count) else Average(0, 1)
  }

  /** The count is the number of values and the sum their exact sum; every
      value lies between min and max, which are attained when there are
      values and stay at Integer.MAX_VALUE and Integer.MIN_VALUE otherwise. */
  lemma {:induction false} SummaryStatisticsSpec(values: seq<int>)
    requires forall i :: 0 <= i < |values| ==> MIN <= values[i] <= MAX
    ensures SummaryStatistics(values).count == |values|
    ensures SummaryStatistics(values).sum == Sum(values)
    ensures forall i :: 0 <= i < |values| ==>
              SummaryStatistics(values).min <= values[i] <= SummaryStatistics(values).max
    ensures |values| == 0 ==> SummaryStatistics(values).min == MAX && SummaryStatistics(values).max == MIN
    ensures |values| > 0 ==> SummaryStatistics(values).min in values && SummaryStatistics(values).max in values
  {
    if |values| > 0 {
      var v', x := values[..|values| - 1], values[|values| - 1];
      assert values == v' + [x];
      SummaryStatisticsSpec(v');
    }
  }

  /** `getAverage()` of the statistics of some values: 0 without values,
      otherwise their exact sum over their count, which lies between the
      minimum and the maximum. */
  lemma SummaryAverage(values: seq<int>)
    requires forall i :: 0 <= i < |values| ==> MIN <= values[i] <= MAX
    ensures var st := SummaryStatistics(values);
            var a := GetAverage(st);
            && (|values| == 0 ==> a == Average(0, 1))
            && (|values| > 0 ==> && a == Average(Sum(values), |values|)
                                 && st.min * a.denominator <= a.numerator <= st.max * a.denominator)
  {
    var st := SummaryStatistics(values);
    SummaryStatisticsSpec(values);
    SumWithin(values, st.min, st.max);
  }

  function EnMedellin(e: Empleado): bool { e.ciudad == "Medellín" }

  /** `filter(soloMedellin).mapToInt(getSalario).summaryStatistics()`. */
  function EstadisticasMedellin(es: seq<Empleado>): IntSummaryStatistics
  {
    SummaryStatistics(Map(Filter(es, EnMedellin), Salario))
  }

  /** The statistics describe exactly the salaries of the Medellín
      employees: as many as there are of them, their sum, and a minimum and
      maximum that some of them earn and none of them exceeds. */
  lemma EstadisticasMedellinSpec(es: seq<Empleado>)
    ensures EstadisticasMedellin(es).count == |Filter(es, EnMedellin)|
    ensures EstadisticasMedellin(es).sum == Sum(Map(Filter(es, EnMedellin), Salario))
    ensures forall i :: 0 <= i < |es| && es[i].ciudad == "Medellín" ==>
              EstadisticasMedellin(es).min <= es[i].salario <= EstadisticasMedellin(es).max
    ensures |Filter(es, EnMedellin)| > 0 ==>
              && (exists i :: 0 <= i < |es| && es[i].ciudad == "Medellín" && es[i].salario == EstadisticasMedellin(es).min)
              && (exists i :: 0 <= i < |es| && es[i].ciudad == "Medellín" && es[i].salario == EstadisticasMedellin(es).max)
  {
    var f := Filter(es, EnMedellin);
    var vals := Map(f, Salario);
    var idx := FilterIsSubsequence(es, EnMedellin);
    SummaryStatisticsSpec(vals);
    forall i | 0 <= i < |es| && es[i].ciudad == "Medellín"
      ensures EstadisticasMedellin(es).min <= es[i].salario <= EstadisticasMedellin(es).max
    {
      var j :| 0 <= j < |idx| && idx[j] == i;
      assert vals[j] == es[i].salario;
    }
    if |f| > 0 {
      var st := EstadisticasMedellin(es);
      var jmin :| 0 <= jmin < |vals| && vals[jmin] == st.min;
      var jmax :| 0 <= jmax < |vals| && vals[jmax] == st.max;
      assert es[idx[jmin]].salario == st.min && es[idx[jmin]].ciudad == "Medellín";
      assert es[idx[jmax]].salario == st.max && es[idx[jmax]].ciudad == "Medellín";
    }
  }

  lemma SampleCities(es: seq<Empleado>)
    requires es == Empleados()
    ensures |es| == 10
    ensures forall i :: 0 <= i < 10 ==> (EnMedellin(es[i]) <==> i == 0 || i == 2 || i == 5 || i == 9)
    ensures es[0].salario == 1000 && es[2].salario == 800 && es[5].salario == 1000 && es[9].salario == 800
  {
  }

  lemma MedellinFirstHalf(es: seq<Empleado>)
    requires |es| == 10
    requires forall i :: 0 <= i < 10 ==> (EnMedellin(es[i]) <==> i == 0 || i == 2 || i == 5 || i == 9)
    ensures Filter(es[..5], EnMedellin) == [es[0], es[2]]
  {
    var p := EnMedellin;
    assert Filter(es[..1], p) == [es[0]] by { FilterStep(es, p, 1); }
    assert Filter(es[..2], p) == [es[0]] by { FilterStep(es, p, 2); }
    assert Filter(es[..3], p) == [es[0], es[2]] by { FilterStep(es, p, 3); }
    assert Filter(es[..4], p) == [es[0], es[2]] by { FilterStep(es, p, 4); }
    assert Filter(es[..5], p) == [es[0], es[2]] by { FilterStep(es, p, 5); }
  }

  lemma MedellinSelection(es: seq<Empleado>)
    requires |es| == 10
    requires forall i :: 0 <= i < 10 ==> (EnMedellin(es[i]) <==> i == 0 || i == 2 || i == 5 || i == 9)
    ensures Filter(es, EnMedellin) == [es[0], es[2], es[5], es[9]]
  {
    var p := EnMedellin;
    MedellinFirstHalf(es);
    assert Filter(es[..6], p) == [es[0], es[2], es[5]] by { FilterStep(es, p, 6); }
    assert Filter(es[..7], p) == [es[0], es[2], es[5]] by { FilterStep(es, p, 7); }
    assert Filter(es[..8], p) == [es[0], es[2], es[5]] by { FilterStep(es, p, 8); }
    assert Filter(es[..9], p) == [es[0], es[2], es[5]] by { FilterStep(es, p, 9); }
    assert Filter(es[..10], p) == [es[0], es[2], es[5], es[9]] by { FilterStep(es, p, 10); }
    assert es[..10] == es;
  }

  /** One step of a fold over a prefix. */
  lemma FoldStep<T, A>(s: seq<T>, identity: A, op: (A, T) -> A, k: nat)
    requires 0 < k <= |s|
    ensures Fold(s[..k], identity, op) == op(Fold(s[..k - 1], identity, op), s[k - 1])
  {
    assert s[..k][..k - 1] == s[..k - 1];
  }

  lemma StatisticsOfSalaries(values: seq<int>)
    requires |values| == 4
    requires values[0] == 1000 && values[1] == 800 && values[2] == 1000 && values[3] == 800
    ensures SummaryStatistics(values) == IntSummaryStatistics(4, 3600, 800, 1000)
  {
    var init := IntSummaryStatistics(0, 0, MAX, MIN);
    FoldStep(values, init, Accept, 1);
    FoldStep(values, init, Accept, 2);
    FoldStep(values, init, Accept, 3);
    FoldStep(values, init, Accept, 4);
    assert values[..4] == values;
  }

  /** Four employees live in Medellín, earning 3600 in all, between 800 and
      1000, 900 on average. */
  lemma EstadisticasMedellinExample(es: seq<Empleado>)
    requires es == Empleados()
    ensures EstadisticasMedellin(es) == IntSummaryStatistics(4, 3600, 800, 1000)
    ensures GetAverage(EstadisticasMedellin(es)) == Average(3600, 4)
  {
    SampleCities(es);
    MedellinSelection(es);
    StatisticsOfSalaries(Map(Filter(es, EnMedellin), Salario));
  }

  // ---------------------------------------------------------------------
  // Highest salary per city, in a TreeMap
  // ---------------------------------------------------------------------

  /** `toMap(Empleado::getCiudad, Empleado::getSalario, Integer::max, TreeMap::new)`. */
  function Maximos(es: seq<Empleado>): TreeMaps.TreeMap<int>
  {
    Collect(es, ToTreeMap(Ciudad, Salario, Max))
  }

  /** The map iterates its cities in ascending order, holds exactly the
      cities of the employees, and under each the highest salary there,
      earned by one of its employees. */
  lemma MaximosSpec(es: seq<Empleado>)
    ensures TreeMaps.Ascending(Maximos(es))
    ensures TreeMaps.KeySet(Maximos(es)) == Ciudades(es)
    ensures forall k :: k in Ciudades(es) ==> TreeMaps.Get(Maximos(es), k).Some?
    ensures forall i :: 0 <= i < |es| ==>
              es[i].salario <= TreeMaps.Get(Maximos(es), es[i].ciudad).value
    ensures forall k :: k in Ciudades(es) ==>
              exists i :: 0 <= i < |es| && es[i].ciudad == k && es[i].salario == TreeMaps.Get(Maximos(es), k).value
  {
    AccumulateToTreeMap(es, Ciudad, Salario, Max);
    forall k | k in Ciudades(es) ensures MaximumAt(es, k) {
      MaximumAtCity(es, k);
    }
    forall i | 0 <= i < |es|
      ensures es[i].ciudad in Ciudades(es) && TreeMaps.Get(Maximos(es), es[i].ciudad).Some?
      ensures es[i].salario <= TreeMaps.Get(Maximos(es), es[i].ciudad).value
    {
      assert es[i].ciudad in Ciudades(es);
    }
  }

  ghost predicate MaximumAt(es: seq<Empleado>, k: string)
  {
    && TreeMaps.Get(Maximos(es), k).Some?
    && (forall i :: 0 <= i < |es| && es[i].ciudad == k ==> es[i].salario <= TreeMaps.Get(Maximos(es), k).value)
    && (exists i :: 0 <= i < |es| && es[i].ciudad == k && es[i].salario == TreeMaps.Get(Maximos(es), k).value)
  }

  lemma MaximumAtCity(es: seq<Empleado>, k: string)
    requires k in Ciudades(es)
    ensures MaximumAt(es, k)
  {
    AccumulateToTreeMap(es, Ciudad, Salario, Max);
    var v := CityMaximum(es, k);
    assert TreeMaps.Get(Maximos(es), k) == Some(v);
  }

  /** Reducing the salaries of a city with `Integer::max` gives one of them,
      and none of them is larger. */
  lemma CityMaximum(es: seq<Empleado>, k: string) returns (v: int)
    requires k in Ciudades(es)
    ensures Reduce(Map(Filter(es, KeyIs(Ciudad, k)), Salario), Max) == Some(v)
    ensures forall i :: 0 <= i < |es| && es[i].ciudad == k ==> es[i].salario <= v
    ensures exists i :: 0 <= i < |es| && es[i].ciudad == k && es[i].salario == v
  {
    var f := Filter(es, KeyIs(Ciudad, k));
    var vals := Map(f, Salario);
    var i0 :| 0 <= i0 < |es| && es[i0].ciudad == k;
    var j0 := CityMember(es, k, i0);
    ReduceMaxIsMaximum(vals);
    v := Reduce(vals, Max).value;
    forall i | 0 <= i < |es| && es[i].ciudad == k ensures es[i].salario <= v {
      var j := CityMember(es, k, i);
      assert vals[j] == es[i].salario;
    }
    var j :| 0 <= j < |vals| && vals[j] == v;
    var i := CityMemberOf(es, k, j);
    assert es[i].salario == v;
  }

  /** Every employee of city k is in its filtered list. */
  lemma CityMember(es: seq<Empleado>, k: string, i: int) returns (j: nat)
    requires 0 <= i < |es| && es[i].ciudad == k
    ensures j < |Filter(es, KeyIs(Ciudad, k))| && Filter(es, KeyIs(Ciudad, k))[j] == es[i]
  {
    var f := Filter(es, KeyIs(Ciudad, k));
    FilterOccurrences(es, KeyIs(Ciudad, k), es[i]);
    assert es[i] in multiset(es);
    assert es[i] in f;
    j :| 0 <= j < |f| && f[j] == es[i];
  }

  /** Every member of the filtered list of city k is an employee of k. */
  lemma CityMemberOf(es: seq<Empleado>, k: string, j: int) returns (i: nat)
    requires 0 <= j < |Filter(es, KeyIs(Ciudad, k))|
    ensures i < |es| && es[i] == Filter(es, KeyIs(Ciudad, k))[j] && es[i].ciudad == k
  {
    var f := Filter(es, KeyIs(Ciudad, k));
    FilterOccurrences(es, KeyIs(Ciudad, k), f[j]);
    FilterSatisfies(es, KeyIs(Ciudad, k));
    assert KeyIs(Ciudad, k)(f[j]);
    assert f[j] in multiset(f);
    assert f[j] in es;
    i :| 0 <= i < |es| && es[i] == f[j];
  }

  // ---------------------------------------------------------------------
  // Best paid per city
  // ---------------------------------------------------------------------

  /** `groupingBy(Empleado::getCiudad, filtering(salario > 1000,
      mapping(Empleado::getNombre, toList())))`. */
  function MejoresPagos(es: seq<Empleado>): map<string, seq<string>>
  {
    Collect(es, GroupingBy(Ciudad, Filtering(GanaMasDe1000, Mapping(Nombre, ToList()))))
  }

  /** Every city is a key, even one where nobody earns more than 1000; its
      list holds the names of its employees earning more than 1000, in list
      order. */
  lemma MejoresPagosSpec(es: seq<Empleado>)
    ensures MejoresPagos(es).Keys == EmpleadosCiudad(es).Keys == Ciudades(es)
    ensures forall k :: k in MejoresPagos(es) ==>
              MejoresPagos(es)[k] == Map(Filter(EmpleadosCiudad(es)[k], GanaMasDe1000), Nombre)
  {
    EmpleadosCiudadBuckets(es);
    var d := Filtering(GanaMasDe1000, Mapping(Nombre, ToList()));
    GroupingByBuckets(es, Ciudad, d);
    forall k | k in MejoresPagos(es)
      ensures MejoresPagos(es)[k] == Map(Filter(EmpleadosCiudad(es)[k], GanaMasDe1000), Nombre)
    {
      var f := Filter(es, KeyIs(Ciudad, k));
      var g := Filter(f, GanaMasDe1000);
      AccumulateFiltering(f, GanaMasDe1000, Mapping(Nombre, ToList()));
      AccumulateMapping(g, Nombre, ToList());
      CollectToList(Map(g, Nombre));
    }
  }

  // ---------------------------------------------------------------------
  // anyMatch, allMatch and findFirst
  // ---------------------------------------------------------------------

  function GanaMasDe2000(e: Empleado): bool { e.salario > 2000 }

  function GanaDesde1000(e: Empleado): bool { e.salario >= 1000 }

  /** Somebody earns more than 2000 (Empleado9), not everybody does. */
  lemma CondicionalesExample(es: seq<Empleado>)
    requires es == Empleados()
    ensures AnyMatch(es, GanaMasDe2000)
    ensures !AllMatch(es, GanaMasDe2000)
  {
    assert GanaMasDe2000(es[8]);
    assert !GanaMasDe2000(es[0]);
  }

  /** What `findAny()` may return: nothing on an empty stream, otherwise
      any one of its elements, the choice being left to the implementation. */
  ghost predicate FindAnyMayReturn<T>(s: seq<T>, r: Option<T>)
  {
    if |s| == 0 then r.None? else r.Some? && r.value in s
  }

  /** `filter(salario > 2000).map(Empleado::getNombre).findAny()`, with the
      choice of element as an input. */
  function AnyoneOver2000(es: seq<Empleado>): seq<string>
  {
    Map(Filter(es, GanaMasDe2000), Nombre)
  }

  lemma SampleOver2000(es: seq<Empleado>)
    requires es == Empleados()
    ensures |es| == 10
    ensures forall i :: 0 <= i < 10 ==> (GanaMasDe2000(es[i]) <==> i == 8)
    ensures es[8].nombre == "Empleado9"
  {
  }

  lemma Over2000Selection(es: seq<Empleado>)
    requires |es| == 10
    requires forall i :: 0 <= i < 10 ==> (GanaMasDe2000(es[i]) <==> i == 8)
    ensures Filter(es, GanaMasDe2000) == [es[8]]
  {
    var p := GanaMasDe2000;
    FilterSkip(es, p, 0, 8);
    assert Filter(es[..9], p) == [es[8]] by { FilterStep(es, p, 9); }
    FilterSkip(es, p, 9, 10);
    assert es[..10] == es;
  }

  /** Only Empleado9 earns more than 2000, so whatever element `findAny`
      picks, it prints that name. */
  lemma FindAnyExample(es: seq<Empleado>, r: Option<string>)
    requires es == Empleados()
    requires FindAnyMayReturn(AnyoneOver2000(es), r)
    ensures r == Some("Empleado9")
  {
    SampleOver2000(es);
    Over2000Selection(es);
    assert AnyoneOver2000(es) == ["Empleado9"];
  }

  /** `filter(salario >= 1000).map(Empleado::getNombre).findFirst()`. */
  function PrimeroDesde1000(es: seq<Empleado>): Option<string>
  {
    FindFirst(Map(Filter(es, GanaDesde1000), Nombre))
  }

  /** Empty exactly when nobody earns 1000 or more; otherwise the name of the
      first employee in the list who does. */
  lemma PrimeroDesde1000Spec(es: seq<Empleado>)
    ensures PrimeroDesde1000(es).None? <==> forall i :: 0 <= i < |es| ==> es[i].salario < 1000
    ensures forall i :: FirstMatch(es, GanaDesde1000, i) ==> PrimeroDesde1000(es) == Some(es[i].nombre)
  {
    FindFirstOfFilter(es, GanaDesde1000);
  }

  /** On the sample that is the very first employee. */
  lemma PrimeroDesde1000Example(es: seq<Empleado>)
    requires es == Empleados()
    ensures PrimeroDesde1000(es) == Some("Empleado1")
  {
    PrimeroDesde1000Spec(es);
    assert FirstMatch(es, GanaDesde1000, 0);
  }
}
