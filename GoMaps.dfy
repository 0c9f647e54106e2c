/**
  Ranging over a Go map. The language does not fix the order in which a
  `for k, v := range m` loop visits the entries, so the loops here pick the
  next key with `:|` and report the order they happened to use as a ghost
  result: callers may rely on every key being visited exactly once, and on
  nothing else.
 */
module GoMaps {
  import opened Sorting

  /** `for _, v := range m { vs = append(vs, v) }`. */
  method CollectValues<K, V(==)>(m: map<K, V>) returns (vs: seq<V>, ghost order: seq<K>)
    ensures NoDup(order) && forall k :: k in order <==> k in m
    ensures |vs| == |order| == |m|
    ensures forall i | 0 <= i < |order| :: vs[i] == m[order[i]]
    ensures forall v :: v in vs <==> v in m.Values
  {
    vs, order := [], [];
    var rest := m.Keys;
    ghost var done: set<K> := {};
    while rest != {}
      invariant rest !! done && rest + done == m.Keys
      invariant NoDup(order) && forall k :: k in order <==> k in done
      invariant |vs| == |order| == |done|
      invariant forall i | 0 <= i < |order| :: order[i] in m && vs[i] == m[order[i]]
      decreases |rest|
    {
      var k :| k in rest;
      VisitStep(m.Keys, rest, done, order, k);
      ValuesSnoc(m, vs, order, k);
      vs, order := vs + [m[k]], order + [k];
      rest, done := rest - {k}, done + {k};
    }
    ValuesCollected(m, vs, order);
  }

  /** Visiting one more key keeps the bookkeeping of a range loop: the
      keys left and the keys done split the map's keys, and the visiting
      order lists the keys done once each. */
  lemma VisitStep<K>(keys: set<K>, rest: set<K>, done: set<K>, order: seq<K>, k: K)
    requires rest !! done && rest + done == keys
    requires NoDup(order) && forall x :: x in order <==> x in done
    requires |order| == |done| && k in rest
    ensures rest - {k} !! done + {k} && (rest - {k}) + (done + {k}) == keys
    ensures NoDup(order + [k]) && forall x :: x in order + [k] <==> x in done + {k}
    ensures |order + [k]| == |done + {k}| && |rest - {k}| < |rest|
  {
    NoDupSnoc(order, k);
  }

  /** One more visited key, one more result for its entry. */
  lemma MappedSnoc<K, V, U>(m: map<K, V>, f: (K, V) -> U, out: seq<U>, order: seq<K>, k: K)
    requires k in m && |out| == |order|
    requires forall i | 0 <= i < |order| :: order[i] in m && out[i] == f(order[i], m[order[i]])
    ensures forall i | 0 <= i < |order| + 1 ::
      (order + [k])[i] in m && (out + [f(k, m[k])])[i] == f((order + [k])[i], m[(order + [k])[i]])
  {
  }

  lemma ValuesSnoc<K, V>(m: map<K, V>, vs: seq<V>, order: seq<K>, k: K)
    requires k in m && |vs| == |order|
    requires forall i | 0 <= i < |order| :: order[i] in m && vs[i] == m[order[i]]
    ensures forall i | 0 <= i < |order| + 1 :: (order + [k])[i] in m && (vs + [m[k]])[i] == m[(order + [k])[i]]
  {
  }

  /** A value list that follows a visiting order of all the keys holds
      exactly the map's values. */
  lemma ValuesCollected<K, V>(m: map<K, V>, vs: seq<V>, order: seq<K>)
    requires forall k :: k in order <==> k in m
    requires |vs| == |order| && forall i | 0 <= i < |order| :: vs[i] == m[order[i]]
    ensures forall v :: v in vs <==> v in m.Values
  {
    forall v | v in m.Values ensures v in vs {
      var k :| k in m && m[k] == v;
      var i :| 0 <= i < |order| && order[i] == k;
    }
  }

  /** `for k, v := range m { out = append(out, f(k, v)) }`. */
  method CollectMapped<K, V, U>(m: map<K, V>, f: (K, V) -> U) returns (out: seq<U>, ghost order: seq<K>)
    ensures NoDup(order) && forall k :: k in order <==> k in m
    ensures |out| == |order| == |m|
    ensures forall i | 0 <= i < |order| :: order[i] in m && out[i] == f(order[i], m[order[i]])
  {
    out, order := [], [];
    var rest := m.Keys;
    ghost var done: set<K> := {};
    while rest != {}
      invariant rest !! done && rest + done == m.Keys
      invariant NoDup(order) && forall k :: k in order <==> k in done
      invariant |out| == |order| == |done|
      invariant forall i | 0 <= i < |order| :: order[i] in m && out[i] == f(order[i], m[order[i]])
      decreases |rest|
    {
      var k :| k in rest;
      VisitStep(m.Keys, rest, done, order, k);
      MappedSnoc(m, f, out, order, k);
      out, order := out + [f(k, m[k])], order + [k];
      rest, done := rest - {k}, done + {k};
    }
  }

  /** `for k := range m { ks = append(ks, k) }`. */
  method CollectKeys<K, V>(m: map<K, V>) returns (ks: seq<K>)
    ensures NoDup(ks) && forall k :: k in ks <==> k in m
    ensures |ks| == |m|
  {
    ks := [];
    var rest := m.Keys;
    ghost var done: set<K> := {};
    while rest != {}
      invariant rest !! done && rest + done == m.Keys
      invariant NoDup(ks) && forall k :: k in ks <==> k in done
      invariant |ks| == |done|
      decreases |rest|
    {
      var k :| k in rest;
      VisitStep(m.Keys, rest, done, ks, k);
      ks := ks + [k];
      rest, done := rest - {k}, done + {k};
    }
  }
}
