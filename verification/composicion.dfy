/** `Lambda.ejemplosComposicion`: three hand-written functions, `partir`
    (a string into its one-character strings), `contar` (a sorted frequency
    table) and `mostrar` (the table as text), chained with `compose` and
    `andThen`. Each of the three is a loop in the source, so each is a method
    here, proved equal to the function that specifies it. */
module Composicion {
  import opened Wrappers
  import opened Streams
  import opened Text
  import opened TreeMaps

  // ---------------------------------------------------------------------
  // partir
  // ---------------------------------------------------------------------

  /** `String.valueOf(c)`. */
  function Letra(c: char): string
  {
    [c]
  }

  /** The one-character strings of s, in order. */
  function Letras(s: string): (letras: seq<string>)
    ensures |letras| == |s|
    ensures forall i :: 0 <= i < |s| ==> letras[i] == [s[i]]
  {
    Map(s, Letra)
  }

  /** `partir`: `letras.add(String.valueOf(s.charAt(i)))` for every index. */
  method Partir(s: string) returns (letras: seq<string>)
    ensures letras == Letras(s)
  {
    letras := [];
    for i := 0 to |s|
      invariant letras == Letras(s[..i])
    {
      assert s[..i + 1][..i] == s[..i];
      letras := letras + [[s[i]]];
    }
    assert s[..|s|] == s;
  }

  /** Joining the letters back together gives the string: `partir` loses
      nothing. */
  lemma {:induction false} LetrasRoundTrip(s: string)
    ensures Flatten(Letras(s)) == s
  {
    if |s| > 0 {
      var s' := s[..|s| - 1];
      LetrasRoundTrip(s');
      assert Letras(s) == Letras(s') + [[s[|s| - 1]]];
      FlattenSnoc(Letras(s'), [s[|s| - 1]]);
      assert s == s' + [s[|s| - 1]];
    }
  }

  lemma FlattenSnoc<T>(ss: seq<seq<T>>, t: seq<T>)
    ensures Flatten(ss + [t]) == Flatten(ss) + t
  {
    assert (ss + [t])[..|ss|] == ss;
  }

  /** The letter [c] occurs among the letters as often as c occurs in s. */
  lemma LetrasOccurrences(s: string, c: char)
    ensures multiset(Letras(s))[[c]] == multiset(s)[c]
  {
    MapOccurrences(s, Letra, c);
  }

  // ---------------------------------------------------------------------
  // contar
  // ---------------------------------------------------------------------

  /** The remapping function of `compute`: `v == null ? 1 : v + 1`. */
  function Incremento(v: Option<int>): int
  {
    if v.None? then 1 else v.value + 1
  }

  /** The TreeMap after `frecuencia.compute(l, ...)` for every l in turn. */
  function Frecuencias(letras: seq<string>): TreeMap<int>
  {
    if |letras| == 0 then []
    else Compute(Frecuencias(letras[..|letras| - 1]), letras[|letras| - 1], Incremento)
  }

  /** `contar`: a TreeMap updated with `compute` for every letter. */
  method Contar(letras: seq<string>) returns (frecuencia: TreeMap<int>)
    ensures frecuencia == Frecuencias(letras)
  {
    frecuencia := [];
    for i := 0 to |letras|
      invariant frecuencia == Frecuencias(letras[..i])
    {
      assert letras[..i + 1][..i] == letras[..i];
      frecuencia := Compute(frecuencia, letras[i], Incremento);
    }
    assert letras[..|letras|] == letras;
  }

  /** The table iterates its keys in strictly ascending order and its keys
      are exactly the distinct letters. */
  lemma {:induction false} FrecuenciasKeys(letras: seq<string>)
    ensures Ascending(Frecuencias(letras))
    ensures KeySet(Frecuencias(letras)) == set l | l in letras
  {
    if |letras| > 0 {
      var prev, x := letras[..|letras| - 1], letras[|letras| - 1];
      assert letras == prev + [x];
      FrecuenciasKeys(prev);
      ComputeSpec(Frecuencias(prev), x, Incremento);
      assert (set l | l in letras) == (set l | l in prev) + {x};
    }
  }

  /** Each letter is counted as often as it occurs, and nothing else is
      counted. */
  lemma {:induction false} FrecuenciasCounts(letras: seq<string>)
    ensures forall k :: GetOrZero(Frecuencias(letras), k) == multiset(letras)[k]
  {
    if |letras| > 0 {
      var prev, x := letras[..|letras| - 1], letras[|letras| - 1];
      assert letras == prev + [x];
      FrecuenciasCounts(prev);
      FrecuenciasKeys(prev);
      var m0 := Frecuencias(prev);
      ComputeGet(m0, x, Incremento);
      forall k ensures GetOrZero(Frecuencias(letras), k) == multiset(letras)[k] {
        if k == x {
          assert GetOrZero(Frecuencias(letras), k) == GetOrZero(m0, k) + 1;
        }
      }
    }
  }

  /** The counts add up to the number of letters. */
  lemma {:induction false} FrecuenciasSum(letras: seq<string>)
    ensures SumValues(Frecuencias(letras)) == |letras|
  {
    if |letras| > 0 {
      var prev, x := letras[..|letras| - 1], letras[|letras| - 1];
      FrecuenciasSum(prev);
      FrecuenciasKeys(prev);
      var m0 := Frecuencias(prev);
      ComputeSum(m0, x, Incremento);
      assert Incremento(Get(m0, x)) == GetOrZero(m0, x) + 1;
    }
  }

  /** The table iterates its keys in strictly ascending order; its keys are
      exactly the distinct letters; each letter is counted as often as it
      occurs, so every stored count is at least 1; and the counts add up to
      the number of letters. */
  lemma FrecuenciasSpec(letras: seq<string>)
    ensures Ascending(Frecuencias(letras))
    ensures KeySet(Frecuencias(letras)) == set l | l in letras
    ensures forall k :: GetOrZero(Frecuencias(letras), k) == multiset(letras)[k]
    ensures forall k :: k in KeySet(Frecuencias(letras)) ==> GetOrZero(Frecuencias(letras), k) >= 1
    ensures SumValues(Frecuencias(letras)) == |letras|
  {
    FrecuenciasKeys(letras);
    FrecuenciasCounts(letras);
    FrecuenciasSum(letras);
  }

  /** Entry by entry, in iteration order: each key is a letter and its count
      is the number of times it occurs. */
  lemma FrecuenciasEntries(letras: seq<string>)
    ensures forall i :: 0 <= i < |Frecuencias(letras)| ==>
              var e := Frecuencias(letras)[i];
              e.0 in letras && e.1 == multiset(letras)[e.0] >= 1
    ensures forall i, j :: 0 <= i < j < |Frecuencias(letras)| ==>
              Less(Frecuencias(letras)[i].0, Frecuencias(letras)[j].0)
  {
    var m := Frecuencias(letras);
    FrecuenciasSpec(letras);
    forall i | 0 <= i < |m| ensures m[i].0 in letras && m[i].1 == multiset(letras)[m[i].0] >= 1 {
      GetEntry(m, i);
      assert m[i].0 in KeySet(m);
    }
  }

  /** The last `compute` of the example walks past three entries. */
  lemma SophosLastStep()
    ensures Compute([("h", 1), ("o", 2), ("p", 1), ("s", 1)], "s", Incremento)
            == [("h", 1), ("o", 2), ("p", 1), ("s", 2)]
  {
    assert Compute([("s", 1)], "s", Incremento) == [("s", 2)];
    assert !Less("s", "p");
    assert Compute([("p", 1), ("s", 1)], "s", Incremento) == [("p", 1), ("s", 2)];
    assert !Less("s", "o");
    assert Compute([("o", 2), ("p", 1), ("s", 1)], "s", Incremento) == [("o", 2), ("p", 1), ("s", 2)];
    assert !Less("s", "h");
  }

  lemma SophosFirstSteps(letras: seq<string>)
    requires |letras| == 6
    requires letras[0] == "s" && letras[1] == "o" && letras[2] == "p"
    ensures Frecuencias(letras[..3]) == [("o", 1), ("p", 1), ("s", 1)]
  {
    assert Less("o", "s") && Less("p", "s") && !Less("p", "o");
    assert Frecuencias(letras[..1]) == [("s", 1)] by { FrecuenciasStep(letras, 1); }
    assert Frecuencias(letras[..2]) == [("o", 1), ("s", 1)] by { FrecuenciasStep(letras, 2); }
    assert Frecuencias(letras[..3]) == [("o", 1), ("p", 1), ("s", 1)] by { FrecuenciasStep(letras, 3); }
  }

  lemma FrequenciesOfSophos(letras: seq<string>)
    requires |letras| == 6
    requires letras[0] == "s" && letras[1] == "o" && letras[2] == "p"
    requires letras[3] == "h" && letras[4] == "o" && letras[5] == "s"
    ensures Frecuencias(letras) == [("h", 1), ("o", 2), ("p", 1), ("s", 2)]
  {
    SophosFirstSteps(letras);
    assert Less("h", "o");
    assert Frecuencias(letras[..4]) == [("h", 1), ("o", 1), ("p", 1), ("s", 1)] by { FrecuenciasStep(letras, 4); }
    assert Frecuencias(letras[..5]) == [("h", 1), ("o", 2), ("p", 1), ("s", 1)] by { FrecuenciasStep(letras, 5); }
    assert Frecuencias(letras[..6]) == [("h", 1), ("o", 2), ("p", 1), ("s", 2)] by {
      FrecuenciasStep(letras, 6);
      SophosLastStep();
    }
    assert letras[..6] == letras;
  }

  lemma FrecuenciasStep(letras: seq<string>, k: nat)
    requires 0 < k <= |letras|
    ensures Frecuencias(letras[..k]) == Compute(Frecuencias(letras[..k - 1]), letras[k - 1], Incremento)
  {
    assert letras[..k][..k - 1] == letras[..k - 1];
  }

  /** `contar(List.of("s", "o", "p", "h", "o", "s"))` prints
      `{h=1, o=2, p=1, s=2}`. */
  lemma ContarExample(letras: seq<string>)
    requires letras == ["s", "o", "p", "h", "o", "s"]
    ensures Frecuencias(letras) == [("h", 1), ("o", 2), ("p", 1), ("s", 2)]
  {
    FrequenciesOfSophos(letras);
  }

  // ---------------------------------------------------------------------
  // mostrar
  // ---------------------------------------------------------------------

  /** What `sb.append(clave).append(": ").append(valor).append("\n")` adds. */
  function Linea(e: (string, int)): string
  {
    e.0 + ": " + DecimalString(e.1) + "\n"
  }

  /** The lines of the entries, in iteration order. */
  function Lineas(m: TreeMap<int>): string
  {
    if |m| == 0 then "" else Lineas(m[..|m| - 1]) + Linea(m[|m| - 1])
  }

  /** The text `mostrar` builds. */
  function Mostrada(m: TreeMap<int>): string
  {
    "Frecuencias\n" + Lineas(m)
  }

  /** `mostrar`: a StringBuilder that starts with the title and gets one
      line appended per entry by `forEach`. */
  method Mostrar(m: TreeMap<int>) returns (texto: string)
    ensures texto == Mostrada(m)
  {
    var sb := "Frecuencias\n";
    for i := 0 to |m|
      invariant sb == Mostrada(m[..i])
    {
      LineasStep(m, i + 1);
      sb := sb + Linea(m[i]);
    }
    assert m[..|m|] == m;
    texto := sb;
  }

  /** One step of the rendering of a prefix of the entries. */
  lemma LineasStep(m: TreeMap<int>, k: nat)
    requires 0 < k <= |m|
    ensures Lineas(m[..k]) == Lineas(m[..k - 1]) + Linea(m[k - 1])
    ensures Mostrada(m[..k]) == Mostrada(m[..k - 1]) + Linea(m[k - 1])
  {
    assert m[..k][..k - 1] == m[..k - 1];
  }

  /** The lines follow the iteration order: the rendering of two runs of
      entries is the rendering of the first followed by that of the second. */
  lemma {:induction false} LineasAppend(a: TreeMap<int>, b: TreeMap<int>)
    ensures Lineas(a + b) == Lineas(a) + Lineas(b)
  {
    if |b| > 0 {
      var b', e := b[..|b| - 1], b[|b| - 1];
      assert b == b' + [e];
      assert a + b == (a + b') + [e];
      var x, y, z := Lineas(a), Lineas(b'), Linea(e);
      calc {
        Lineas(a + b);
        { LineasSnoc(a + b', e); }
        Lineas(a + b') + z;
        { LineasAppend(a, b'); }
        (x + y) + z;
        x + (y + z);
        { LineasSnoc(b', e); }
        x + Lineas(b);
      }
    } else {
      assert a + b == a;
    }
  }

  lemma LineasSnoc(m: TreeMap<int>, e: (string, int))
    ensures Lineas(m + [e]) == Lineas(m) + Linea(e)
  {
    assert (m + [e])[..|m|] == m;
  }

  lemma DecimalHasNoNewline(n: int)
    ensures multiset(DecimalString(n))['\n'] == 0
  {
    var d := NatDigits(if n < 0 then -n else n);
    NatDigitsRoundTrip(if n < 0 then -n else n);
    assert '\n' !in d;
  }

  /** When no key holds a line break, the text has one line for the title
      and one per entry. */
  lemma {:induction false} MostradaLines(m: TreeMap<int>)
    requires forall i :: 0 <= i < |m| ==> '\n' !in m[i].0
    ensures multiset(Mostrada(m))['\n'] == |m| + 1
  {
    LinesCount(m);
    TitleLine();
  }

  lemma TitleLine()
    ensures multiset("Frecuencias\n")['\n'] == 1
  {
    var t := "Frecuencias\n";
    assert t == t[..11] + [t[11]];
    assert forall i :: 0 <= i < 11 ==> t[i] != '\n';
    assert '\n' !in t[..11];
  }

  lemma {:induction false} LinesCount(m: TreeMap<int>)
    requires forall i :: 0 <= i < |m| ==> '\n' !in m[i].0
    ensures multiset(Lineas(m))['\n'] == |m|
  {
    if |m| > 0 {
      LinesCount(m[..|m| - 1]);
      DecimalHasNoNewline(m[|m| - 1].1);
      assert multiset(m[|m| - 1].0)['\n'] == 0;
    }
  }

  // ---------------------------------------------------------------------
  // contar.compose(partir).andThen(mostrar)
  // ---------------------------------------------------------------------

  /** `f.compose(g)`: g first, then f. */
  function Compose<A, B, C>(f: B -> C, g: A -> B): A -> C
  {
    x => f(g(x))
  }

  /** `f.andThen(g)`: f first, then g. */
  function AndThen<A, B, C>(f: A -> B, g: B -> C): A -> C
  {
    x => g(f(x))
  }

  /** `contar.compose(partir).andThen(mostrar)`. */
  function Composicion(): string -> string
  {
    AndThen(Compose(Frecuencias, Letras), Mostrada)
  }

  /** The composition splits first and renders last; the table it renders
      counts each character of s as often as it occurs, holds the
      one-character strings of s as keys in ascending order, and its counts
      add up to the length of s. */
  lemma ComposicionSpec(s: string)
    ensures Composicion()(s) == Mostrada(Frecuencias(Letras(s)))
    ensures Ascending(Frecuencias(Letras(s)))
    ensures KeySet(Frecuencias(Letras(s))) == set c | c in s :: [c]
    ensures forall c :: GetOrZero(Frecuencias(Letras(s)), [c]) == multiset(s)[c]
    ensures SumValues(Frecuencias(Letras(s))) == |s|
  {
    var letras := Letras(s);
    FrecuenciasSpec(letras);
    LetrasSet(s);
    forall c ensures GetOrZero(Frecuencias(letras), [c]) == multiset(s)[c] {
      LetrasOccurrences(s, c);
    }
  }

  /** The distinct letters are the one-character strings of the characters
      of s. */
  lemma LetrasSet(s: string)
    ensures (set l | l in Letras(s)) == set c | c in s :: [c]
  {
    var letras := Letras(s);
    forall l | l in letras ensures l in set c | c in s :: [c] {
      var i :| 0 <= i < |letras| && letras[i] == l;
      assert s[i] in s;
    }
    forall l | l in set c | c in s :: [c] ensures l in letras {
      var c :| c in s && l == [c];
      var i :| 0 <= i < |s| && s[i] == c;
      assert letras[i] == l;
    }
  }

  /** The three methods run one after the other compute the composition. */
  method ComposicionEjecutada(s: string) returns (texto: string)
    ensures texto == Composicion()(s)
  {
    var letras := Partir(s);
    var frecuencia := Contar(letras);
    texto := Mostrar(frecuencia);
  }
}
