/**
  Python's `OrderedDict`, as the playlist code uses it: a dictionary that
  remembers the order in which its keys were first inserted. It is kept as
  the sequence of keys in that order beside an ordinary map.
 */
module OrderedMaps {
  import opened Options

  datatype OrderedMap<K(==,!new), V> = OrderedMap(keys: seq<K>, values: map<K, V>) {

    /** Every key is listed exactly once, and exactly the listed keys are mapped. */
    ghost predicate Valid() {
      && (forall i, j :: 0 <= i < j < |keys| ==> keys[i] != keys[j])
      && (forall k :: k in values <==> k in keys)
    }

    function Get(k: K): Option<V> {
      if k in values then Some(values[k]) else None
    }

    /** `d[k] = v`: a new key goes to the end, a present key keeps its place. */
    function Put(k: K, v: V): (r: OrderedMap<K, V>)
      ensures Valid() ==> r.Valid()
      ensures r.Get(k) == Some(v)
      ensures forall k' :: k' != k ==> r.Get(k') == Get(k')
      ensures Valid() && k !in values ==> r.keys == keys + [k]
      ensures Valid() && k in values ==> r.keys == keys
    {
      OrderedMap(if k in values then keys else keys + [k], values[k := v])
    }

    /** `if k not in d: d[k] = v` */
    function PutIfAbsent(k: K, v: V): OrderedMap<K, V> {
      if k in values then this else Put(k, v)
    }

    /** PutIfAbsent for each pair of `ps` in turn: the first value offered for a key stays. */
    function PutAllIfAbsent(ps: seq<(K, V)>): OrderedMap<K, V>
      decreases |ps|
    {
      if |ps| == 0 then this else PutIfAbsent(ps[0].0, ps[0].1).PutAllIfAbsent(ps[1..])
    }

    /** `d.items()`: the pairs in key order */
    function Items(): seq<(K, V)>
      requires Valid()
    {
      seq(|keys|, n requires 0 <= n < |keys| => (keys[n], values[keys[n]]))
    }
  }

  function Empty<K(==,!new), V>(): OrderedMap<K, V> {
    OrderedMap([], map[])
  }

  function KeysOf<K(==,!new), V>(ps: seq<(K, V)>): seq<K> {
    seq(|ps|, n requires 0 <= n < |ps| => ps[n].0)
  }

  /** Index `n` holds the first pair of `ps` whose key is `k`. */
  predicate FirstAt<K(==,!new), V>(ps: seq<(K, V)>, k: K, n: int) {
    0 <= n < |ps| && ps[n].0 == k && forall m :: 0 <= m < n ==> ps[m].0 != k
  }

  /** The value of the first pair of `ps` whose key is `k`. */
  function Lookup<K(==,!new), V>(ps: seq<(K, V)>, k: K): (r: Option<V>)
    ensures r.Some? ==> exists n :: FirstAt(ps, k, n) && ps[n].1 == r.value
    ensures r.None? <==> forall n :: 0 <= n < |ps| ==> ps[n].0 != k
    decreases |ps|
  {
    if |ps| == 0 then None
    else if ps[0].0 == k then
      assert FirstAt(ps, k, 0);
      Some(ps[0].1)
    else
      var r := Lookup(ps[1..], k);
      assert r.Some? ==> exists n :: FirstAt(ps[1..], k, n) && ps[1..][n].1 == r.value;
      assert forall n :: FirstAt(ps[1..], k, n) ==> FirstAt(ps, k, n + 1);
      assert r.None? ==> forall n :: 1 <= n < |ps| ==> ps[n].0 != k;
      r
  }

  /** The keys of `xs` in first-occurrence order, leaving out those in `seen`. */
  function Dedup<K(==,!new)>(xs: seq<K>, seen: set<K>): (r: seq<K>)
    ensures forall i, j :: 0 <= i < j < |r| ==> r[i] != r[j]
    ensures forall k :: k in r <==> k in xs && k !in seen
    decreases |xs|
  {
    if |xs| == 0 then []
    else if xs[0] in seen then Dedup(xs[1..], seen)
    else [xs[0]] + Dedup(xs[1..], seen + {xs[0]})
  }

  lemma {:induction false} PutAllIfAbsentValid<K(!new), V>(m: OrderedMap<K, V>, ps: seq<(K, V)>)
    requires m.Valid()
    ensures m.PutAllIfAbsent(ps).Valid()
    decreases |ps|
  {
    if |ps| > 0 {
      PutAllIfAbsentValid(m.PutIfAbsent(ps[0].0, ps[0].1), ps[1..]);
    }
  }

  /** First wins: a key already present keeps its value; a new key gets the value of its first pair. */
  lemma {:induction false} PutAllIfAbsentGet<K(!new), V>(m: OrderedMap<K, V>, ps: seq<(K, V)>, k: K)
    ensures m.PutAllIfAbsent(ps).Get(k) == if k in m.values then m.Get(k) else Lookup(ps, k)
    decreases |ps|
  {
    if |ps| > 0 {
      var m' := m.PutIfAbsent(ps[0].0, ps[0].1);
      PutAllIfAbsentGet(m', ps[1..], k);
      if ps[0].0 != k {
        assert Lookup(ps, k) == Lookup(ps[1..], k);
      }
    }
  }

  /** Order: the keys already present, then the new keys in the order of their first pair. */
  lemma {:induction false} PutAllIfAbsentKeys<K(!new), V>(m: OrderedMap<K, V>, ps: seq<(K, V)>)
    requires m.Valid()
    ensures m.PutAllIfAbsent(ps).keys == m.keys + Dedup(KeysOf(ps), m.values.Keys)
    decreases |ps|
  {
    if |ps| > 0 {
      var (k, v) := ps[0];
      var m' := m.PutIfAbsent(k, v);
      PutAllIfAbsentKeys(m', ps[1..]);
      DedupCons(ps, m.values.Keys);
      if k !in m.values {
        assert m'.values.Keys == m.values.Keys + {k};
        assert m'.keys == m.keys + [k];
        SeqAssoc(m.keys, [k], Dedup(KeysOf(ps[1..]), m'.values.Keys));
      }
    }
  }

  lemma SeqAssoc<K>(a: seq<K>, b: seq<K>, c: seq<K>)
    ensures a + b + c == a + (b + c)
  {
  }

  /** One step of `Dedup` over the keys of `ps`. */
  lemma DedupCons<K(!new), V>(ps: seq<(K, V)>, seen: set<K>)
    requires |ps| > 0
    ensures Dedup(KeysOf(ps), seen) ==
      if ps[0].0 in seen then Dedup(KeysOf(ps[1..]), seen)
      else [ps[0].0] + Dedup(KeysOf(ps[1..]), seen + {ps[0].0})
  {
    assert KeysOf(ps)[0] == ps[0].0;
    assert KeysOf(ps)[1..] == KeysOf(ps[1..]);
  }

  lemma {:induction false} PutAllIfAbsentAppend<K(!new), V>(m: OrderedMap<K, V>, a: seq<(K, V)>, b: seq<(K, V)>)
    ensures m.PutAllIfAbsent(a + b) == m.PutAllIfAbsent(a).PutAllIfAbsent(b)
    decreases |a|
  {
    if |a| > 0 {
      assert (a + b)[1..] == a[1..] + b;
      PutAllIfAbsentAppend(m.PutIfAbsent(a[0].0, a[0].1), a[1..], b);
    } else {
      assert a + b == b;
    }
  }

  /** A key's first pair in `a + b` is its first pair in `a`, or else its first pair in `b`. */
  lemma {:induction false} LookupAppend<K(!new), V>(a: seq<(K, V)>, b: seq<(K, V)>, k: K)
    ensures Lookup(a + b, k) == if Lookup(a, k).Some? then Lookup(a, k) else Lookup(b, k)
    decreases |a|
  {
    if |a| > 0 {
      assert (a + b)[1..] == a[1..] + b;
      LookupAppend(a[1..], b, k);
    } else {
      assert a + b == b;
    }
  }

  /** Looking a key up among a dictionary's items agrees with the dictionary. */
  lemma LookupItems<K(!new), V>(m: OrderedMap<K, V>, k: K)
    requires m.Valid()
    ensures Lookup(m.Items(), k) == m.Get(k)
  {
    var items := m.Items();
    if k in m.values {
      var i :| 0 <= i < |m.keys| && m.keys[i] == k;
      assert items[i].0 == k;
      assert Lookup(items, k).Some?;
      var n :| FirstAt(items, k, n) && items[n].1 == Lookup(items, k).value;
      assert items[n] == (m.keys[n], m.values[m.keys[n]]);
    }
  }

  lemma {:induction false} DedupDistinct<K(!new)>(xs: seq<K>, seen: set<K>)
    requires forall i, j :: 0 <= i < j < |xs| ==> xs[i] != xs[j]
    requires forall i :: 0 <= i < |xs| ==> xs[i] !in seen
    ensures Dedup(xs, seen) == xs
    decreases |xs|
  {
    if |xs| > 0 {
      DedupDistinct(xs[1..], seen + {xs[0]});
      assert [xs[0]] + xs[1..] == xs;
    }
  }

  /** Re-inserting a dictionary's items, in order, into an empty one rebuilds it. */
  lemma FromItems<K(!new), V>(m: OrderedMap<K, V>)
    requires m.Valid()
    ensures Empty<K, V>().PutAllIfAbsent(m.Items()) == m
  {
    var r := Empty<K, V>().PutAllIfAbsent(m.Items());
    FromItemsKeys(m);
    forall k
      ensures k in r.values <==> k in m.values
      ensures k in r.values ==> r.values[k] == m.values[k]
    {
      FromItemsGet(m, k);
    }
    assert r.values == m.values;
  }

  lemma FromItemsKeys<K(!new), V>(m: OrderedMap<K, V>)
    requires m.Valid()
    ensures Empty<K, V>().PutAllIfAbsent(m.Items()).keys == m.keys
  {
    var e := Empty<K, V>();
    var items := m.Items();
    PutAllIfAbsentKeys(e, items);
    assert e.values.Keys == {};
    assert KeysOf(items) == m.keys by {
      assert |KeysOf(items)| == |m.keys|;
      forall n | 0 <= n < |m.keys| ensures KeysOf(items)[n] == m.keys[n] {
        assert items[n] == (m.keys[n], m.values[m.keys[n]]);
      }
    }
    DedupDistinct(m.keys, {});
    assert e.keys + m.keys == m.keys;
  }

  lemma FromItemsGet<K(!new), V>(m: OrderedMap<K, V>, k: K)
    requires m.Valid()
    ensures Empty<K, V>().PutAllIfAbsent(m.Items()).Get(k) == m.Get(k)
  {
    PutAllIfAbsentGet(Empty<K, V>(), m.Items(), k);
    LookupItems(m, k);
  }
}
