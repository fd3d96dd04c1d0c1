/** A Python dict seen as an association list: the entries in iteration order,
    with each key at most once. Building a dict from a sequence of pairs (a
    dict comprehension) keeps one entry per key, holding the LAST value given
    for that key. */
module PyDict {
  import opened Wrappers

  function Keys<K, V>(es: seq<(K, V)>): set<K> {
    set i | 0 <= i < |es| :: es[i].0
  }

  predicate DistinctKeys<K(==), V>(es: seq<(K, V)>) {
    forall i, j :: 0 <= i < j < |es| ==> es[i].0 != es[j].0
  }

  /** `d.get(k)` */
  function Get<K(==), V>(es: seq<(K, V)>, k: K): Option<V> {
    if es == [] then None
    else if es[0].0 == k then Some(es[0].1)
    else Get(es[1..], k)
  }

  /** `d[k] = v`: an existing key keeps its place and takes the new value; a
      new key is appended. */
  function Insert<K(==,!new), V>(es: seq<(K, V)>, k: K, v: V): (r: seq<(K, V)>)
    ensures Keys(r) == Keys(es) + {k}
    ensures Get(r, k) == Some(v)
    ensures forall k' :: k' != k ==> Get(r, k') == Get(es, k')
    ensures DistinctKeys(es) ==> DistinctKeys(r)
    ensures |r| == if k in Keys(es) then |es| else |es| + 1
    ensures forall e :: e in r ==> e in es || e == (k, v)
  {
    if es == [] then
      KeysCons((k, v), []);
      [(k, v)]
    else if es[0].0 == k then
      assert es == [es[0]] + es[1..];
      KeysCons(es[0], es[1..]);
      KeysCons((k, v), es[1..]);
      DistinctCons(es[0], es[1..]);
      DistinctCons((k, v), es[1..]);
      [(k, v)] + es[1..]
    else
      var tail := Insert(es[1..], k, v);
      assert es == [es[0]] + es[1..];
      KeysCons(es[0], es[1..]);
      KeysCons(es[0], tail);
      DistinctCons(es[0], es[1..]);
      DistinctCons(es[0], tail);
      assert ([es[0]] + tail)[1..] == tail;
      [es[0]] + tail
  }

  /** `{k: v for (k, v) in ps}`: the pairs inserted from first to last. */
  function FromPairs<K(==,!new), V>(ps: seq<(K, V)>): (r: seq<(K, V)>)
    ensures DistinctKeys(r)
    ensures Keys(r) == Keys(ps)
    ensures |r| <= |ps|
    ensures forall e :: e in r ==> e in ps
  {
    if ps == [] then []
    else
      var init := ps[..|ps| - 1];
      var last := ps[|ps| - 1];
      assert Keys(ps) == Keys(init) + {last.0} by {
        assert forall i :: 0 <= i < |init| ==> init[i] == ps[i];
      }
      Insert(FromPairs(init), last.0, last.1)
  }

  /** A key is present exactly when it is a key of some entry. */
  lemma {:induction false} GetKeys<K, V>(es: seq<(K, V)>, k: K)
    ensures Get(es, k).Some? <==> k in Keys(es)
    ensures Get(es, k).Some? ==> (k, Get(es, k).value) in es
  {
    if es != [] {
      GetKeys(es[1..], k);
      KeysCons(es[0], es[1..]);
      assert es == [es[0]] + es[1..];
    }
  }

  /** The value a comprehension keeps for a key is the one paired with it last. */
  lemma {:induction false} FromPairsLastWins<K(!new), V>(ps: seq<(K, V)>, i: nat)
    requires i < |ps|
    requires forall j :: i < j < |ps| ==> ps[j].0 != ps[i].0
    ensures Get(FromPairs(ps), ps[i].0) == Some(ps[i].1)
  {
    var init := ps[..|ps| - 1];
    if i < |ps| - 1 {
      FromPairsLastWins(init, i);
    }
  }

  /** Pairs whose keys are already distinct are kept as they are, in order. */
  lemma {:induction false} FromPairsDistinct<K(!new), V>(ps: seq<(K, V)>)
    requires DistinctKeys(ps)
    ensures FromPairs(ps) == ps
  {
    if ps != [] {
      var init := ps[..|ps| - 1];
      var last := ps[|ps| - 1];
      FromPairsDistinct(init);
      assert last.0 !in Keys(init);
      AppendFresh(init, last.0, last.1);
      assert init + [last] == ps;
    }
  }

  /** Inserting a key not yet present appends it. */
  lemma {:induction false} AppendFresh<K(!new), V>(es: seq<(K, V)>, k: K, v: V)
    requires k !in Keys(es)
    ensures Insert(es, k, v) == es + [(k, v)]
  {
    if es != [] {
      assert es[0].0 != k;
      KeysCons(es[0], es[1..]);
      assert es == [es[0]] + es[1..];
      AppendFresh(es[1..], k, v);
      assert es == [es[0]] + es[1..];
    }
  }

  lemma KeysCons<K, V>(e: (K, V), es: seq<(K, V)>)
    ensures Keys([e] + es) == {e.0} + Keys(es)
  {
    var r := [e] + es;
    forall x | x in Keys(r) ensures x in {e.0} + Keys(es) {
      var i :| 0 <= i < |r| && r[i].0 == x;
      if i > 0 { assert es[i - 1].0 == x; }
    }
    forall x | x in Keys(es) ensures x in Keys(r) {
      var i :| 0 <= i < |es| && es[i].0 == x;
      assert r[i + 1].0 == x;
    }
    assert r[0].0 == e.0;
  }

  /** A dict with one more entry in front has distinct keys exactly when the
      new key is fresh and the rest has distinct keys. */
  lemma DistinctCons<K, V>(e: (K, V), es: seq<(K, V)>)
    ensures DistinctKeys([e] + es) <==> e.0 !in Keys(es) && DistinctKeys(es)
  {
    var r := [e] + es;
    if DistinctKeys(r) {
      forall j | 0 <= j < |es| ensures es[j].0 != e.0 {
        assert r[0] == e && r[j + 1] == es[j];
      }
      forall i, j | 0 <= i < j < |es| ensures es[i].0 != es[j].0 {
        assert r[i + 1] == es[i] && r[j + 1] == es[j];
      }
    }
    if e.0 !in Keys(es) && DistinctKeys(es) {
      forall i, j | 0 <= i < j < |r| ensures r[i].0 != r[j].0 {
        assert r[j] == es[j - 1];
        if i > 0 { assert r[i] == es[i - 1]; } else { assert r[i] == e; }
      }
    }
  }

  /** Every key lies in `ks` exactly when the key set does. */
  lemma KeysWithin<K, V>(es: seq<(K, V)>, ks: set<K>)
    ensures (forall i :: 0 <= i < |es| ==> es[i].0 in ks) <==> Keys(es) <= ks
  {
    if forall i :: 0 <= i < |es| ==> es[i].0 in ks {
      forall x | x in Keys(es) ensures x in ks {
        var i :| 0 <= i < |es| && es[i].0 == x;
      }
    }
  }
}
