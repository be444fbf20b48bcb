/** Python dicts as their entries in insertion order, and the operations the model performs
    on them: lookup (`d.get(k)`), assignment (`d[k] = v`) and deletion (`del d[k]`). */
module PyDict {
  import opened Wrappers

  /** A Python dict, as its entries in insertion order. */
  type DictOf<K, V> = seq<(K, V)>

  function Keys<K(==), V>(es: DictOf<K, V>): (ks: seq<K>)
    ensures |ks| == |es| && forall i :: 0 <= i < |es| ==> ks[i] == es[i].0
  {
    if es == [] then [] else [es[0].0] + Keys(es[1..])
  }

  /** No key occurs twice, as in every Python dict. */
  predicate DistinctKeys<K(==), V>(es: DictOf<K, V>) {
    forall i, j :: 0 <= i < j < |es| ==> es[i].0 != es[j].0
  }

  /** `d.get(key)`: the value of the entry for `key`, if there is one. */
  function Get<K(==), V>(es: DictOf<K, V>, key: K): (r: Option<V>)
    ensures r.None? <==> forall i :: 0 <= i < |es| ==> es[i].0 != key
    ensures r.Some? ==> exists i :: 0 <= i < |es| && es[i] == (key, r.value)
  {
    if es == [] then None
    else if es[0].0 == key then Some(es[0].1)
    else Get(es[1..], key)
  }

  /** The value of the entry for `key` in a dict with distinct keys is the one at its index. */
  lemma {:induction false} GetAt<K, V>(es: DictOf<K, V>, i: int)
    requires DistinctKeys(es) && 0 <= i < |es|
    ensures Get(es, es[i].0) == Some(es[i].1)
  {
    if i > 0 {
      assert DistinctKeys(es[1..]) by {
        forall a, b | 0 <= a < b < |es[1..]| ensures es[1..][a].0 != es[1..][b].0 {
          assert es[1..][a] == es[a + 1] && es[1..][b] == es[b + 1];
        }
      }
      GetAt(es[1..], i - 1);
      assert es[1..][i - 1] == es[i];
    }
  }

  /** In a dict with distinct keys, looking up `key` finds `v` exactly when `(key, v)` is one
      of its entries. */
  lemma GetIffEntry<K, V>(es: DictOf<K, V>, key: K, v: V)
    requires DistinctKeys(es)
    ensures Get(es, key) == Some(v) <==> exists i :: 0 <= i < |es| && es[i] == (key, v)
  {
    if exists i :: 0 <= i < |es| && es[i] == (key, v) {
      var i :| 0 <= i < |es| && es[i] == (key, v);
      GetAt(es, i);
    }
  }

  /** `d[key] = v`: an existing entry keeps its place and takes the new value; a new key is
      added at the end. */
  function Set<K(==), V>(es: DictOf<K, V>, key: K, v: V): DictOf<K, V> {
    if es == [] then [(key, v)]
    else if es[0].0 == key then [(key, v)] + es[1..]
    else [es[0]] + Set(es[1..], key, v)
  }

  /** Assignment makes `key` map to `v` and leaves every other key as it was. */
  lemma {:induction false} SetGet<K, V>(es: DictOf<K, V>, key: K, v: V)
    ensures Get(Set(es, key, v), key) == Some(v)
    ensures forall k :: k != key ==> Get(Set(es, key, v), k) == Get(es, k)
  {
    if es != [] && es[0].0 != key {
      SetGet(es[1..], key, v);
    }
  }

  /** The keys keep their order, and a new key comes last. */
  lemma {:induction false} SetKeys<K, V>(es: DictOf<K, V>, key: K, v: V)
    ensures Get(es, key).Some? ==> Keys(Set(es, key, v)) == Keys(es)
    ensures Get(es, key).None? ==> Keys(Set(es, key, v)) == Keys(es) + [key]
  {
    if es != [] && es[0].0 != key {
      SetKeys(es[1..], key, v);
      assert Keys(Set(es, key, v)) == [es[0].0] + Keys(Set(es[1..], key, v));
      assert Keys(es) == [es[0].0] + Keys(es[1..]);
    } else if es != [] {
      assert Keys(Set(es, key, v)) == [key] + Keys(es[1..]);
    }
  }

  /** Keys stay distinct. */
  lemma SetDistinct<K, V>(es: DictOf<K, V>, key: K, v: V)
    requires DistinctKeys(es)
    ensures DistinctKeys(Set(es, key, v))
  {
    SetKeys(es, key, v);
    var r := Set(es, key, v);
    var ks, rs := Keys(es), Keys(r);
    forall i, j | 0 <= i < j < |r| ensures r[i].0 != r[j].0 {
      assert rs[i] == r[i].0 && rs[j] == r[j].0;
      if Get(es, key).None? && j == |es| {
        assert rs[j] == key && rs[i] == ks[i] == es[i].0;
      } else {
        assert rs[i] == ks[i] && rs[j] == ks[j];
      }
    }
  }

  /** Assigning a key the value it already has changes nothing. */
  lemma {:induction false} SetUnchanged<K, V>(es: DictOf<K, V>, key: K, v: V)
    requires Get(es, key) == Some(v)
    ensures Set(es, key, v) == es
  {
    if es[0].0 != key {
      SetUnchanged(es[1..], key, v);
      assert es == [es[0]] + es[1..];
    } else {
      assert es == [(key, v)] + es[1..];
    }
  }

  /** Assigning a key that is absent appends its entry. */
  lemma {:induction false} SetAbsent<K, V>(es: DictOf<K, V>, key: K, v: V)
    requires Get(es, key) == None
    ensures Set(es, key, v) == es + [(key, v)]
  {
    if es != [] {
      SetAbsent(es[1..], key, v);
      assert es == [es[0]] + es[1..];
    }
  }

  /** Assigning a key twice is assigning it the second value. */
  lemma {:induction false} SetSet<K, V>(es: DictOf<K, V>, key: K, v: V, w: V)
    ensures Set(Set(es, key, v), key, w) == Set(es, key, w)
  {
    if es != [] && es[0].0 != key {
      SetSet(es[1..], key, v, w);
    }
  }

  /** The dict without the entry for `key`: `del d[key]` on a key that is present. */
  function Delete<K(==), V>(es: DictOf<K, V>, key: K): (r: DictOf<K, V>)
    ensures |r| <= |es|
  {
    if es == [] then []
    else if es[0].0 == key then Delete(es[1..], key)
    else [es[0]] + Delete(es[1..], key)
  }

  /** Deletion removes `key` and leaves every other key as it was. */
  lemma {:induction false} DeleteGet<K, V>(es: DictOf<K, V>, key: K)
    ensures Get(Delete(es, key), key) == None
    ensures forall k :: k != key ==> Get(Delete(es, key), k) == Get(es, k)
  {
    if es != [] {
      DeleteGet(es[1..], key);
    }
  }

  /** Deleting a key that is absent changes nothing. */
  lemma {:induction false} DeleteAbsent<K, V>(es: DictOf<K, V>, key: K)
    requires Get(es, key) == None
    ensures Delete(es, key) == es
  {
    if es != [] {
      DeleteAbsent(es[1..], key);
      assert es == [es[0]] + es[1..];
    }
  }

  /** A dict is its first entry followed by a dict without that key. */
  lemma DistinctCons<K, V>(e: (K, V), es: DictOf<K, V>)
    ensures DistinctKeys([e] + es) <==> Get(es, e.0) == None && DistinctKeys(es)
  {
    var d := [e] + es;
    assert forall i :: 0 <= i < |es| ==> d[i + 1] == es[i];
    if DistinctKeys(d) {
      forall a, b | 0 <= a < b < |es| ensures es[a].0 != es[b].0 {
        assert d[a + 1].0 != d[b + 1].0;
      }
      forall i | 0 <= i < |es| ensures es[i].0 != e.0 {
        assert d[0].0 != d[i + 1].0;
      }
    }
    if Get(es, e.0) == None && DistinctKeys(es) {
      forall a, b | 0 <= a < b < |d| ensures d[a].0 != d[b].0 {
        if a > 0 {
          assert d[a] == es[a - 1] && d[b] == es[b - 1];
        } else {
          assert d[b] == es[b - 1];
        }
      }
    }
  }

  /** Keys stay distinct. */
  lemma {:induction false} DeleteDistinct<K, V>(es: DictOf<K, V>, key: K)
    requires DistinctKeys(es)
    ensures DistinctKeys(Delete(es, key))
  {
    if es != [] {
      assert es == [es[0]] + es[1..];
      DistinctCons(es[0], es[1..]);
      DeleteDistinct(es[1..], key);
      if es[0].0 != key {
        DeleteGet(es[1..], key);
        DistinctCons(es[0], Delete(es[1..], key));
      }
    }
  }

  /** The entries whose key is in `keep`, in their order. */
  function Restrict<K(==), V>(es: DictOf<K, V>, keep: seq<K>): (r: DictOf<K, V>)
    ensures |r| <= |es|
  {
    if es == [] then []
    else (if es[0].0 in keep then [es[0]] else []) + Restrict(es[1..], keep)
  }

  /** A restricted dict keeps the keys in `keep` and no other. */
  lemma {:induction false} RestrictGet<K, V>(es: DictOf<K, V>, keep: seq<K>, k: K)
    ensures Get(Restrict(es, keep), k) == if k in keep then Get(es, k) else None
  {
    if es != [] {
      RestrictGet(es[1..], keep, k);
      var rest := Restrict(es[1..], keep);
      if es[0].0 in keep {
        assert Restrict(es, keep) == [es[0]] + rest;
        assert ([es[0]] + rest)[1..] == rest;
      } else {
        assert Restrict(es, keep) == rest;
      }
    }
  }

  /** Restriction looks only at the keys the dict has. */
  lemma {:induction false} RestrictSame<K, V>(es: DictOf<K, V>, a: seq<K>, b: seq<K>)
    requires forall i :: 0 <= i < |es| ==> (es[i].0 in a <==> es[i].0 in b)
    ensures Restrict(es, a) == Restrict(es, b)
  {
    if es != [] {
      assert forall i :: 0 <= i < |es| - 1 ==> es[1..][i] == es[i + 1];
      RestrictSame(es[1..], a, b);
    }
  }

  /** Keeping every key keeps the dict. */
  lemma {:induction false} RestrictAll<K, V>(es: DictOf<K, V>, keep: seq<K>)
    requires forall i :: 0 <= i < |es| ==> es[i].0 in keep
    ensures Restrict(es, keep) == es
  {
    if es != [] {
      assert forall i :: 0 <= i < |es| - 1 ==> es[1..][i] == es[i + 1];
      RestrictAll(es[1..], keep);
      assert es == [es[0]] + es[1..];
    }
  }

  /** Deleting from a restricted dict is restricting it further. */
  lemma {:induction false} DeleteRestrict<K, V>(es: DictOf<K, V>, a: seq<K>, b: seq<K>, key: K)
    requires forall i :: 0 <= i < |es| ==> (es[i].0 in b <==> es[i].0 in a && es[i].0 != key)
    ensures Delete(Restrict(es, a), key) == Restrict(es, b)
  {
    if es != [] {
      var e, t := es[0], es[1..];
      assert forall i :: 0 <= i < |t| ==> t[i] == es[i + 1];
      DeleteRestrict(t, a, b, key);
      var ra := Restrict(t, a);
      if e.0 in a {
        assert Restrict(es, a) == [e] + ra;
        assert ([e] + ra)[0] == e && ([e] + ra)[1..] == ra;
        if e.0 == key {
          assert Delete([e] + ra, key) == Delete(ra, key);
        } else {
          assert Delete([e] + ra, key) == [e] + Delete(ra, key);
        }
      } else {
        assert Restrict(es, a) == ra;
      }
    }
  }

  /** One step of deleting, key by key in dict order, the entries whose key is not in `keep`:
      after the keys before `i` are dealt with, dealing with key `i` moves it out of the keys
      still to be seen. */
  lemma RestrictStep<K, V>(es: DictOf<K, V>, keep: seq<K>, i: int)
    requires DistinctKeys(es) && 0 <= i < |es|
    ensures var ks := Keys(es);
      ks[i] !in keep ==> Delete(Restrict(es, keep + ks[i..]), ks[i]) == Restrict(es, keep + ks[i + 1..])
    ensures var ks := Keys(es);
      ks[i] in keep ==> Restrict(es, keep + ks[i..]) == Restrict(es, keep + ks[i + 1..])
  {
    var ks := Keys(es);
    var a, b := keep + ks[i..], keep + ks[i + 1..];
    assert ks[i..] == [ks[i]] + ks[i + 1..];
    if ks[i] !in keep {
      forall j | 0 <= j < |es| ensures es[j].0 in b <==> es[j].0 in a && es[j].0 != ks[i] {
        if es[j].0 in ks[i + 1..] {
          var k :| 0 <= k < |ks[i + 1..]| && ks[i + 1..][k] == es[j].0;
          assert ks[i + 1 + k] == es[j].0 && ks[i] == es[i].0;
        }
      }
      DeleteRestrict(es, a, b, ks[i]);
    } else {
      RestrictSame(es, a, b);
    }
  }
}
