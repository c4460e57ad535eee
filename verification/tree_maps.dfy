/** `java.util.TreeMap<String, V>` as a list of entries in strictly ascending
    key order (the order `forEach` and `toString` visit them in), with the two
    update operations the demo uses: `compute` and `merge`. */
module TreeMaps {
  import opened Wrappers
  import opened Text

  type TreeMap<V> = seq<(string, V)>

  /** The entries are in strictly ascending key order, so no key repeats. */
  ghost predicate Ascending<V>(m: TreeMap<V>)
  {
    forall i, j :: 0 <= i < j < |m| ==> Less(m[i].0, m[j].0)
  }

  function KeySet<V>(m: TreeMap<V>): set<string>
  {
    set i | 0 <= i < |m| :: m[i].0
  }

  /** `get(k)`, with `null` as None. */
  function Get<V>(m: TreeMap<V>, k: string): Option<V>
  {
    if |m| == 0 then None else if m[0].0 == k then Some(m[0].1) else Get(m[1..], k)
  }

  /** `compute(k, remap)` where remap never yields null: the entry for k is
      replaced by remap of the old value (None when absent), or inserted at
      its place in key order. */
  function Compute<V>(m: TreeMap<V>, k: string, remap: Option<V> -> V): TreeMap<V>
  {
    if |m| == 0 then [(k, remap(None))]
    else if m[0].0 == k then [(k, remap(Some(m[0].1)))] + m[1..]
    else if Less(k, m[0].0) then [(k, remap(None))] + m
    else [m[0]] + Compute(m[1..], k, remap)
  }

  /** `merge(k, v, f)`: v when k is absent, otherwise f(old, v). */
  function Merge<V>(m: TreeMap<V>, k: string, v: V, f: (V, V) -> V): TreeMap<V>
  {
    Compute(m, k, (prev: Option<V>) => if prev.None? then v else f(prev.value, v))
  }

  /** The value stored under k, or 0 when k is absent. */
  function GetOrZero(m: TreeMap<int>, k: string): int
  {
    match Get(m, k)
    case None => 0
    case Some(v) => v
  }

  /** The sum of the stored values, in iteration order. */
  function SumValues(m: TreeMap<int>): int
  {
    if |m| == 0 then 0 else m[0].1 + SumValues(m[1..])
  }

  lemma AscendingTail<V>(m: TreeMap<V>)
    requires Ascending(m) && |m| > 0
    ensures Ascending(m[1..])
  {
    forall i, j | 0 <= i < j < |m| - 1 ensures Less(m[1..][i].0, m[1..][j].0) {
      assert m[1..][i] == m[i + 1] && m[1..][j] == m[j + 1];
    }
  }

  /** In an ascending map, every key after the first is above it, so
      a lookup that does not find the first key finds the rest. */
  lemma {:induction false} GetFindsKeys<V>(m: TreeMap<V>, k: string)
    ensures Get(m, k).Some? <==> k in KeySet(m)
    ensures forall i :: 0 <= i < |m| && m[i].0 == k && (forall j :: 0 <= j < i ==> m[j].0 != k)
              ==> Get(m, k) == Some(m[i].1)
  {
    if |m| > 0 {
      GetFindsKeys(m[1..], k);
      KeySetCons(m);
      forall i | 0 <= i < |m| && m[i].0 == k && (forall j :: 0 <= j < i ==> m[j].0 != k)
        ensures Get(m, k) == Some(m[i].1)
      {
        if i > 0 {
          assert m[1..][i - 1] == m[i];
          forall j | 0 <= j < i - 1 ensures m[1..][j].0 != k {
            assert m[1..][j] == m[j + 1];
          }
        }
      }
    }
  }

  /** `compute` keeps the keys ascending, adds k to the key set and changes
      the value of k alone, to remap of its old value. */
  lemma ComputeSpec<V>(m: TreeMap<V>, k: string, remap: Option<V> -> V)
    requires Ascending(m)
    ensures Ascending(Compute(m, k, remap))
    ensures KeySet(Compute(m, k, remap)) == KeySet(m) + {k}
    ensures Get(Compute(m, k, remap), k) == Some(remap(Get(m, k)))
    ensures forall k' :: k' != k ==> Get(Compute(m, k, remap), k') == Get(m, k')
  {
    ComputeKeys(m, k, remap);
    ComputeAscending(m, k, remap);
    ComputeGet(m, k, remap);
  }

  lemma {:induction false} ComputeKeys<V>(m: TreeMap<V>, k: string, remap: Option<V> -> V)
    ensures KeySet(Compute(m, k, remap)) == KeySet(m) + {k}
  {
    var r := Compute(m, k, remap);
    if |m| == 0 {
      assert KeySet(r) == {k};
    } else if m[0].0 == k {
      KeySetCons(m);
      KeySetCons(r);
      assert r[1..] == m[1..];
    } else if Less(k, m[0].0) {
      KeySetCons(r);
      assert r[1..] == m;
    } else {
      ComputeKeys(m[1..], k, remap);
      assert r[1..] == Compute(m[1..], k, remap);
      KeySetCons(m);
      KeySetCons(r);
    }
  }

  lemma {:induction false} ComputeGet<V>(m: TreeMap<V>, k: string, remap: Option<V> -> V)
    requires Ascending(m)
    ensures Get(Compute(m, k, remap), k) == Some(remap(Get(m, k)))
    ensures forall k' :: k' != k ==> Get(Compute(m, k, remap), k') == Get(m, k')
  {
    var r := Compute(m, k, remap);
    if |m| == 0 {
    } else if m[0].0 == k {
      assert r[1..] == m[1..];
    } else if Less(k, m[0].0) {
      assert r[1..] == m;
      GetBelowFirstKey(m, k);
    } else {
      AscendingTail(m);
      ComputeGet(m[1..], k, remap);
      assert r[1..] == Compute(m[1..], k, remap);
    }
  }

  lemma {:induction false} ComputeAscending<V>(m: TreeMap<V>, k: string, remap: Option<V> -> V)
    requires Ascending(m)
    ensures Ascending(Compute(m, k, remap))
  {
    if |m| == 0 {
    } else if m[0].0 == k {
      AscendingTail(m);
      ConsAscending((k, remap(Some(m[0].1))), m[1..]);
    } else if Less(k, m[0].0) {
      forall j | 0 <= j < |m| ensures Less(k, m[j].0) {
        if j > 0 {
          LessTransitive(k, m[0].0, m[j].0);
        }
      }
      ConsAscending((k, remap(None)), m);
    } else {
      AscendingTail(m);
      ComputeAscending(m[1..], k, remap);
      ComputeKeys(m[1..], k, remap);
      var t := Compute(m[1..], k, remap);
      LessTotal(k, m[0].0);
      forall j | 0 <= j < |t| ensures Less(m[0].0, t[j].0) {
        assert t[j].0 in KeySet(t);
        if t[j].0 != k {
          var n :| 0 <= n < |m| - 1 && m[1..][n].0 == t[j].0;
          assert m[n + 1] == m[1..][n];
        }
      }
      ConsAscending(m[0], t);
    }
  }

  /** An entry whose key is below all the keys of an ascending map can go in
      front of it. */
  lemma ConsAscending<V>(e: (string, V), t: TreeMap<V>)
    requires Ascending(t)
    requires forall j :: 0 <= j < |t| ==> Less(e.0, t[j].0)
    ensures Ascending([e] + t)
  {
    var r := [e] + t;
    forall i, j | 0 <= i < j < |r| ensures Less(r[i].0, r[j].0) {
      assert r[j] == t[j - 1];
      if i > 0 {
        assert r[i] == t[i - 1];
      }
    }
  }

  lemma KeySetCons<V>(m: TreeMap<V>)
    requires |m| > 0
    ensures KeySet(m) == {m[0].0} + KeySet(m[1..])
  {
    forall x | x in KeySet(m) ensures x in {m[0].0} + KeySet(m[1..]) {
      var i :| 0 <= i < |m| && m[i].0 == x;
      if i > 0 { assert m[1..][i - 1] == m[i]; }
    }
    forall x | x in KeySet(m[1..]) ensures x in KeySet(m) {
      var i :| 0 <= i < |m| - 1 && m[1..][i].0 == x;
      assert m[i + 1] == m[1..][i];
    }
  }

  /** The values after `compute` add up to the old total, less the old value
      of k, plus the new one. */
  lemma {:induction false} ComputeSum(m: TreeMap<int>, k: string, remap: Option<int> -> int)
    requires Ascending(m)
    ensures SumValues(Compute(m, k, remap)) == SumValues(m) - GetOrZero(m, k) + remap(Get(m, k))
  {
    if |m| > 0 && m[0].0 != k && !Less(k, m[0].0) {
      AscendingTail(m);
      ComputeSum(m[1..], k, remap);
      var r := Compute(m, k, remap);
      assert r[1..] == Compute(m[1..], k, remap);
    } else if |m| > 0 && m[0].0 == k {
      var r := Compute(m, k, remap);
      assert r[1..] == m[1..];
    } else if |m| > 0 {
      var r := Compute(m, k, remap);
      assert r[1..] == m;
      GetBelowFirstKey(m, k);
    }
  }

  /** A key below the first key of an ascending map is absent from it. */
  lemma GetBelowFirstKey<V>(m: TreeMap<V>, k: string)
    requires Ascending(m) && |m| > 0 && Less(k, m[0].0)
    ensures Get(m, k) == None
  {
    GetFindsKeys(m, k);
    forall i | 0 <= i < |m| ensures m[i].0 != k {
      if i == 0 {
        LessIrreflexive(k);
      } else {
        LessAsymmetric(m[0].0, m[i].0);
      }
    }
  }

  /** In an ascending map, looking up the key of an entry finds that entry. */
  lemma GetEntry<V>(m: TreeMap<V>, i: int)
    requires Ascending(m) && 0 <= i < |m|
    ensures Get(m, m[i].0) == Some(m[i].1)
  {
    forall j | 0 <= j < i ensures m[j].0 != m[i].0 {
      if m[j].0 == m[i].0 {
        LessIrreflexive(m[i].0);
      }
    }
    GetFindsKeys(m, m[i].0);
  }
}
