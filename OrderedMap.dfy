/** A Python `dict` as the sequence of its (key, value) entries in insertion
    order: looking a key up, and assigning `d[k] = v`, which overwrites an
    existing key where it stands and appends a new one at the end. */
module OrderedMap {
  import opened Wrappers

  /** No key occurs twice. */
  predicate UniqueKeys<K(==), V>(es: seq<(K, V)>)
  {
    forall i, j :: 0 <= i < j < |es| ==> es[i].0 != es[j].0
  }

  function Keys<K, V>(es: seq<(K, V)>): set<K>
  {
    set i | 0 <= i < |es| :: es[i].0
  }

  /** `k in d` and `d[k]` together: the value of the first entry with key
      `k`, or `None` when `k` is not a key. */
  function Find<K(==), V>(es: seq<(K, V)>, k: K): (r: Option<V>)
    ensures r.Some? ==> exists i :: 0 <= i < |es| && es[i].0 == k && es[i].1 == r.value
    ensures r.None? <==> forall i :: 0 <= i < |es| ==> es[i].0 != k
  {
    if es == [] then None
    else if es[0].0 == k then Some(es[0].1)
    else Find(es[1..], k)
  }

  /** `d[k] = v`. */
  function Put<K(==), V>(es: seq<(K, V)>, k: K, v: V): (r: seq<(K, V)>)
    ensures Find(r, k) == Some(v)
  {
    if es == [] then [(k, v)]
    else if es[0].0 == k then [(k, v)] + es[1..]
    else [es[0]] + Put(es[1..], k, v)
  }

  /** A key is found exactly when it is one of the keys. */
  lemma {:induction false} FindKeys<K, V>(es: seq<(K, V)>, k: K)
    ensures Find(es, k).Some? <==> k in Keys(es)
  {
    if es != [] {
      FindKeys(es[1..], k);
      KeysCons(es[0], es[1..]);
      assert [es[0]] + es[1..] == es;
    }
  }

  /** With unique keys, the value found for `k` is the one entry `(k, v)`. */
  lemma {:induction false} FindEntry<K, V>(es: seq<(K, V)>, k: K, v: V)
    requires UniqueKeys(es)
    ensures Find(es, k) == Some(v) <==> (k, v) in es
  {
    if es != [] {
      assert UniqueKeys(es[1..]);
      FindEntry(es[1..], k, v);
      if es[0].0 == k {
        FindKeys(es[1..], k);
        assert k !in Keys(es[1..]);
      }
    }
  }

  /** After `d[k] = v`, `k` maps to `v` and every other key to what it did. */
  lemma {:induction false} PutFind<K, V>(es: seq<(K, V)>, k: K, v: V, j: K)
    ensures Find(Put(es, k, v), j) == if j == k then Some(v) else Find(es, j)
  {
    if es != [] && es[0].0 != k {
      PutFind(es[1..], k, v, j);
    }
  }

  /** The keys of an entry put in front of others. */
  lemma KeysCons<K, V>(e: (K, V), es: seq<(K, V)>)
    ensures Keys([e] + es) == {e.0} + Keys(es)
  {
    var s := [e] + es;
    forall x | x in Keys(s)
      ensures x in {e.0} + Keys(es)
    {
      var i :| 0 <= i < |s| && s[i].0 == x;
      if i > 0 {
        assert es[i - 1].0 == x;
      }
    }
    forall x | x in {e.0} + Keys(es)
      ensures x in Keys(s)
    {
      if x == e.0 {
        assert s[0].0 == x;
      } else {
        var i :| 0 <= i < |es| && es[i].0 == x;
        assert s[i + 1].0 == x;
      }
    }
  }

  /** `d[k] = v` adds `k` to the keys and no other key. */
  lemma {:induction false} PutKeys<K, V>(es: seq<(K, V)>, k: K, v: V)
    ensures Keys(Put(es, k, v)) == Keys(es) + {k}
  {
    if es == [] {
      assert Keys([(k, v)]) == {k} by { KeysCons((k, v), []); }
    } else {
      KeysCons(es[0], es[1..]);
      assert [es[0]] + es[1..] == es;
      if es[0].0 == k {
        KeysCons((k, v), es[1..]);
      } else {
        PutKeys(es[1..], k, v);
        KeysCons(es[0], Put(es[1..], k, v));
      }
    }
  }

  /** `d[k] = v` keeps the keys unique. */
  lemma {:induction false} PutUnique<K, V>(es: seq<(K, V)>, k: K, v: V)
    requires UniqueKeys(es)
    ensures UniqueKeys(Put(es, k, v))
  {
    if es != [] && es[0].0 != k {
      assert UniqueKeys(es[1..]);
      PutUnique(es[1..], k, v);
      PutKeys(es[1..], k, v);
      FindKeys(es[1..], es[0].0);
      PutFind(es[1..], k, v, es[0].0);
      FindKeys(Put(es[1..], k, v), es[0].0);
      var r := Put(es, k, v);
      forall j | 0 < j < |r|
        ensures r[0].0 != r[j].0
      {
        assert r[j] in Put(es[1..], k, v);
      }
    }
  }

  /** Where `d[k] = v` puts the entry: a new key goes at the end, an existing
      key keeps its position, and every other entry stays where it was. */
  lemma {:induction false} PutPosition<K, V>(es: seq<(K, V)>, k: K, v: V)
    ensures k !in Keys(es) ==> Put(es, k, v) == es + [(k, v)]
    ensures k in Keys(es) ==>
              && |Put(es, k, v)| == |es|
              && forall i :: 0 <= i < |es| ==>
                   Put(es, k, v)[i] == if es[i].0 == k && Find(es[..i], k).None? then (k, v) else es[i]
  {
    if es != [] {
      KeysCons(es[0], es[1..]);
      assert [es[0]] + es[1..] == es;
      PutPosition(es[1..], k, v);
      if es[0].0 != k && k in Keys(es) {
        forall i | 0 < i < |es|
          ensures Put(es, k, v)[i] == if es[i].0 == k && Find(es[..i], k).None? then (k, v) else es[i]
        {
          assert es[..i][1..] == es[1..][..i - 1];
        }
      }
    }
  }
}
