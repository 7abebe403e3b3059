/** A JavaScript object (the `filesMap` record, a parsed `files` field) or a JavaScript `Map`
    (`gistsMap`): key/value pairs in insertion order, each key at most once. Setting a present
    key replaces its value where it stands (`PutInPlace`); a new key goes at the end; deleting
    keeps the others in order (`DeleteKeepsOrder`). Assignment to a property of a plain object
    differs from `Map.set` for the key `__proto__` (`SetProperty`). */
module Assoc {
  import opened Wrappers
  import opened Seqs

  type Assoc<V> = seq<(string, V)>

  function Keys<V>(m: Assoc<V>): (ks: set<string>)
    ensures forall i :: 0 <= i < |m| ==> m[i].0 in ks
  {
    if m == [] then {} else {m[0].0} + Keys(m[1..])
  }

  /** A key stored at no position is not a key. */
  lemma {:induction false} KeysOnlyStored<V>(m: Assoc<V>, k: string)
    requires forall i :: 0 <= i < |m| ==> m[i].0 != k
    ensures k !in Keys(m)
  {
    if m != [] {
      assert forall i :: 0 <= i < |m[1..]| ==> m[1..][i] == m[i + 1];
      KeysOnlyStored(m[1..], k);
    }
  }

  predicate UniqueKeys<V>(m: Assoc<V>)
  {
    forall i, j :: 0 <= i < j < |m| ==> m[i].0 != m[j].0
  }

  /** `obj[k]` / `map.get(k)`: None when the key is absent. */
  function Get<V>(m: Assoc<V>, k: string): (r: Option<V>)
    ensures r.None? <==> k !in Keys(m)
    ensures r.Some? ==> (k, r.value) in m
  {
    if m == [] then None else if m[0].0 == k then Some(m[0].1) else Get(m[1..], k)
  }

  /** `Object.values(obj)` / `Array.from(map.values())`: the values in insertion order. */
  function Values<V>(m: Assoc<V>): seq<V>
  {
    MapSeq(ValueOf, m)
  }

  function ValueOf<V>(p: (string, V)): V
  {
    p.1
  }

  /** The same pairs in another insertion order have the same values in another order. */
  lemma ValuesPermutation<V>(m1: Assoc<V>, m2: Assoc<V>)
    requires multiset(m1) == multiset(m2)
    ensures multiset(Values(m1)) == multiset(Values(m2))
  {
    MapPermutation(ValueOf, m1, m2);
  }

  /** `obj[k] = v` / `map.set(k, v)`. */
  function Put<V>(m: Assoc<V>, k: string, v: V): (r: Assoc<V>)
    ensures Keys(r) == Keys(m) + {k}
    ensures k in Keys(m) ==> |r| == |m|
    ensures k !in Keys(m) ==> r == m + [(k, v)]
  {
    if m == [] then [(k, v)]
    else if m[0].0 == k then [(k, v)] + m[1..]
    else
      assert m == [m[0]] + m[1..];
      [m[0]] + Put(m[1..], k, v)
  }

  /** `map.delete(k)`: removes the key if present. */
  function Delete<V>(m: Assoc<V>, k: string): (r: Assoc<V>)
    ensures Keys(r) == Keys(m) - {k}
    ensures k !in Keys(m) ==> r == m
  {
    if m == [] then []
    else if m[0].0 == k then Delete(m[1..], k)
    else [m[0]] + Delete(m[1..], k)
  }

  /** After `set`, the key holds the new value and every other key what it held before. */
  lemma {:induction false} PutGet<V>(m: Assoc<V>, k: string, v: V, k': string)
    ensures Get(Put(m, k, v), k') == if k' == k then Some(v) else Get(m, k')
  {
    if m != [] && m[0].0 != k {
      PutGet(m[1..], k, v, k');
    }
  }

  lemma {:induction false} PutUnique<V>(m: Assoc<V>, k: string, v: V)
    requires UniqueKeys(m)
    ensures UniqueKeys(Put(m, k, v))
  {
    if m != [] && m[0].0 != k {
      PutUnique(m[1..], k, v);
      var r := Put(m, k, v);
      assert r == [m[0]] + Put(m[1..], k, v);
      assert forall i :: 0 <= i < |m[1..]| ==> m[1..][i] == m[i + 1];
      KeysOnlyStored(m[1..], m[0].0);
      forall j | 0 < j < |r| ensures r[0].0 != r[j].0 {
        assert r[j].0 in Keys(Put(m[1..], k, v));
      }
    }
  }

  /** After `delete`, the key is absent and every other key holds what it held before. */
  lemma {:induction false} DeleteGet<V>(m: Assoc<V>, k: string, k': string)
    ensures Get(Delete(m, k), k') == if k' == k then None else Get(m, k')
  {
    if m != [] {
      DeleteGet(m[1..], k, k');
    }
  }

  lemma {:induction false} DeleteUnique<V>(m: Assoc<V>, k: string)
    requires UniqueKeys(m)
    ensures UniqueKeys(Delete(m, k))
  {
    if m != [] {
      DeleteUnique(m[1..], k);
      if m[0].0 != k {
        var r := Delete(m, k);
        assert r == [m[0]] + Delete(m[1..], k);
        assert forall i :: 0 <= i < |m[1..]| ==> m[1..][i] == m[i + 1];
        KeysOnlyStored(m[1..], m[0].0);
        forall j | 0 < j < |r| ensures r[0].0 != r[j].0 {
          assert r[j].0 in Keys(Delete(m[1..], k));
        }
      }
    }
  }

  /** With unique keys, a pair is stored exactly when looking its key up gives its value. */
  lemma {:induction false} GetIffStored<V>(m: Assoc<V>, k: string, v: V)
    requires UniqueKeys(m)
    ensures Get(m, k) == Some(v) <==> (k, v) in m
  {
    if m != [] && m[0].0 != k {
      GetIffStored(m[1..], k, v);
    }
  }

  /** Setting a key twice is setting it to the later value: the earlier one leaves no trace. */
  lemma {:induction false} PutPut<V>(m: Assoc<V>, k: string, v: V, w: V)
    ensures Put(Put(m, k, v), k, w) == Put(m, k, w)
  {
    if m != [] && m[0].0 != k {
      PutPut(m[1..], k, v, w);
    }
  }

  /** Deleting after setting a key is deleting it. */
  lemma {:induction false} DeletePut<V>(m: Assoc<V>, k: string, v: V)
    ensures Delete(Put(m, k, v), k) == Delete(m, k)
  {
    if m != [] && m[0].0 != k {
      DeletePut(m[1..], k, v);
    }
  }

  /** Setting a key that is present changes only its own position. */
  lemma {:induction false} PutInPlace<V>(m: Assoc<V>, k: string, v: V)
    requires UniqueKeys(m) && k in Keys(m)
    ensures |Put(m, k, v)| == |m|
    ensures forall i :: 0 <= i < |m| ==> Put(m, k, v)[i] == if m[i].0 == k then (k, v) else m[i]
  {
    var r := Put(m, k, v);
    if m[0].0 == k {
      assert forall i :: 0 < i < |m| ==> m[i].0 != k;
    } else {
      assert UniqueKeys(m[1..]) by {
        assert forall i :: 0 <= i < |m[1..]| ==> m[1..][i] == m[i + 1];
      }
      PutInPlace(m[1..], k, v);
      assert forall i :: 0 < i < |m| ==> r[i] == Put(m[1..], k, v)[i - 1] && m[i] == m[1..][i - 1];
    }
  }

  /** Every pair after a set is the new pair or was there before. */
  lemma {:induction false} PutPairs<V>(m: Assoc<V>, k: string, v: V, x: (string, V))
    requires x in Put(m, k, v)
    ensures x == (k, v) || x in m
  {
    if m != [] && m[0].0 != k {
      assert Put(m, k, v) == [m[0]] + Put(m[1..], k, v);
      if x != m[0] {
        PutPairs(m[1..], k, v, x);
      }
    }
  }

  /** Deleting is filtering out the pairs with that key: the others keep their order. */
  lemma {:induction false} DeleteKeepsOrder<V>(m: Assoc<V>, k: string)
    ensures Delete(m, k) == Filter((p: (string, V)) => p.0 != k, m)
  {
    if m != [] {
      DeleteKeepsOrder(m[1..], k);
    }
  }

  /** The key whose assignment on a plain object runs the `Object.prototype.__proto__` setter. */
  const ProtoKey: string := "__proto__"

  /** `obj[k] = v` on a plain object whose values are objects. For `__proto__` the setter makes
      v the prototype of obj and creates no own property, so `Object.values` and
      `JSON.stringify` do not see it; any other key is set like `Map.set`. */
  function SetProperty<V>(m: Assoc<V>, k: string, v: V): Assoc<V>
  {
    if k == ProtoKey then m else Put(m, k, v)
  }

  /** After `obj[k] = v`, k reads v unless k is `__proto__`, and every other key reads as before. */
  lemma SetPropertyGet<V>(m: Assoc<V>, k: string, v: V, k': string)
    ensures Get(SetProperty(m, k, v), k') ==
      if k' == k && k != ProtoKey then Some(v) else Get(m, k')
  {
    if k != ProtoKey {
      PutGet(m, k, v, k');
    }
  }

  lemma SetPropertyUnique<V>(m: Assoc<V>, k: string, v: V)
    requires UniqueKeys(m)
    ensures UniqueKeys(SetProperty(m, k, v))
    ensures ProtoKey in Keys(SetProperty(m, k, v)) <==> ProtoKey in Keys(m)
  {
    if k != ProtoKey {
      PutUnique(m, k, v);
    }
  }

  /** In an object with unique keys each pair occurs at most once. */
  lemma {:induction false} UniqueCount<V>(m: Assoc<V>, x: (string, V))
    requires UniqueKeys(m)
    ensures multiset(m)[x] == if x in m then 1 else 0
  {
    if m != [] {
      var t := m[1..];
      assert m == [m[0]] + t;
      assert forall i :: 0 <= i < |t| ==> t[i] == m[i + 1];
      UniqueCount(t, x);
      if x == m[0] {
        assert x !in t by {
          forall i | 0 <= i < |t| ensures t[i].0 != x.0 {
            assert t[i] == m[i + 1];
          }
        }
      }
    }
  }

  /** Two objects with unique keys that read alike at every key hold the same pairs, possibly in
      another order. */
  lemma SameLookups<V>(m1: Assoc<V>, m2: Assoc<V>)
    requires UniqueKeys(m1) && UniqueKeys(m2)
    requires forall k :: Get(m1, k) == Get(m2, k)
    ensures multiset(m1) == multiset(m2)
  {
    forall x | true ensures multiset(m1)[x] == multiset(m2)[x] {
      UniqueCount(m1, x);
      UniqueCount(m2, x);
      GetIffStored(m1, x.0, x.1);
      GetIffStored(m2, x.0, x.1);
    }
  }
}
