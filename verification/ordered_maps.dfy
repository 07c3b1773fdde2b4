/**
 * A JavaScript object used as a dictionary. Its keys enumerate (`for ... in`,
 * `Object.keys`) in the order in which they were first added; assigning to a
 * present key keeps its place, `delete` drops it, and re-adding a deleted key
 * puts it last. An `OMap` is the sequence of its entries in that order.
 */
module OrderedMaps {
  import opened Wrappers

  datatype Entry<K, V> = Entry(key: K, value: V)

  type OMap<K, V> = seq<Entry<K, V>>

  function Keys<K, V>(m: OMap<K, V>): (ks: seq<K>)
    ensures |ks| == |m|
    ensures forall i :: 0 <= i < |m| ==> ks[i] == m[i].key
  {
    if |m| == 0 then [] else [m[0].key] + Keys(m[1..])
  }

  /** No key appears twice, as in any JavaScript object. */
  predicate Distinct<K(==), V>(m: OMap<K, V>) {
    forall i, j :: 0 <= i < j < |m| ==> m[i].key != m[j].key
  }

  /** `o[k]`: the value stored under `k`, undefined when there is none. */
  function Get<K(==), V>(m: OMap<K, V>, k: K): (r: Option<V>)
    ensures r.None? <==> k !in Keys(m)
    ensures r.Some? ==> Entry(k, r.value) in m
  {
    if |m| == 0 then None
    else if m[0].key == k then Some(m[0].value)
    else
      assert Keys(m) == [m[0].key] + Keys(m[1..]);
      Get(m[1..], k)
  }

  /** Looking up past a leading entry: its key finds it, any other key reads the rest. */
  lemma GetCons<K, V>(e: Entry<K, V>, m: OMap<K, V>, k: K)
    ensures Get([e] + m, k) == if e.key == k then Some(e.value) else Get(m, k)
  {
    assert ([e] + m)[0] == e && ([e] + m)[1..] == m;
  }

  /** With distinct keys, the value found for the key of an entry is that entry's value. */
  lemma {:induction false} GetEntry<K, V>(m: OMap<K, V>, i: nat)
    requires Distinct(m) && i < |m|
    ensures Get(m, m[i].key) == Some(m[i].value)
  {
    if i > 0 {
      assert m[0].key != m[i].key;
      assert m[1..][i - 1] == m[i];
      GetEntry(m[1..], i - 1);
    }
  }

  /** `o[k] = v`: overwrites in place when `k` is present, otherwise appends. */
  function Put<K(==), V>(m: OMap<K, V>, k: K, v: V): OMap<K, V> {
    if |m| == 0 then [Entry(k, v)]
    else if m[0].key == k then [Entry(k, v)] + m[1..]
    else [m[0]] + Put(m[1..], k, v)
  }

  /** A present key keeps its place; a new key goes last. */
  lemma {:induction false} PutKeys<K, V>(m: OMap<K, V>, k: K, v: V)
    ensures Keys(Put(m, k, v)) == if k in Keys(m) then Keys(m) else Keys(m) + [k]
  {
    if |m| == 0 {
      assert Keys(Put(m, k, v)) == [k];
    } else {
      var ks := Keys(m);
      assert ks == [m[0].key] + Keys(m[1..]);
      if m[0].key == k {
        assert k in ks;
        assert Keys([Entry(k, v)] + m[1..]) == ks;
      } else {
        var rest := Put(m[1..], k, v);
        PutKeys(m[1..], k, v);
        assert (k in ks) == (k in Keys(m[1..]));
        assert Keys([m[0]] + rest) == [m[0].key] + Keys(rest);
      }
    }
  }

  /** After `o[k] = v`, `o[k]` is `v` and every other key reads as before. */
  lemma {:induction false} PutGet<K(!new), V>(m: OMap<K, V>, k: K, v: V)
    ensures Get(Put(m, k, v), k) == Some(v)
    ensures forall k' :: k' != k ==> Get(Put(m, k, v), k') == Get(m, k')
  {
    if |m| > 0 && m[0].key != k {
      PutGet(m[1..], k, v);
      var r := Put(m, k, v);
      assert r[1..] == Put(m[1..], k, v);
    }
  }

  lemma PutDistinct<K, V>(m: OMap<K, V>, k: K, v: V)
    requires Distinct(m)
    ensures Distinct(Put(m, k, v))
  {
    var r := Put(m, k, v);
    PutKeys(m, k, v);
    forall i, j | 0 <= i < j < |r| ensures r[i].key != r[j].key {
      assert Keys(r)[i] == r[i].key && Keys(r)[j] == r[j].key;
      if j == |m| {
        assert k !in Keys(m);
      }
    }
  }

  /** Assigning a key that is not present appends its entry. */
  lemma {:induction false} PutAppends<K, V>(m: OMap<K, V>, k: K, v: V)
    requires k !in Keys(m)
    ensures Put(m, k, v) == m + [Entry(k, v)]
  {
    if |m| > 0 {
      assert Keys(m) == [m[0].key] + Keys(m[1..]);
      PutAppends(m[1..], k, v);
      assert m == [m[0]] + m[1..];
    }
  }

  /** `delete o[k]`: drops the entry for `k` and keeps the others in order. */
  function Remove<K(==), V>(m: OMap<K, V>, k: K): OMap<K, V> {
    if |m| == 0 then []
    else if m[0].key == k then Remove(m[1..], k)
    else [m[0]] + Remove(m[1..], k)
  }

  /** After `delete o[k]` the key is gone, every other key reads as before,
      and no entry is invented. */
  lemma {:induction false} RemoveGet<K(!new), V>(m: OMap<K, V>, k: K)
    ensures k !in Keys(Remove(m, k))
    ensures forall k' :: k' != k ==> Get(Remove(m, k), k') == Get(m, k')
    ensures forall i :: 0 <= i < |Remove(m, k)| ==> Remove(m, k)[i] in m
  {
    if |m| > 0 {
      RemoveGet(m[1..], k);
      var rest := Remove(m[1..], k);
      if m[0].key != k {
        assert Keys([m[0]] + rest) == [m[0].key] + Keys(rest);
      }
    }
  }

  lemma {:induction false} RemoveDistinct<K(!new), V>(m: OMap<K, V>, k: K)
    requires Distinct(m)
    ensures Distinct(Remove(m, k))
  {
    if |m| > 0 {
      RemoveDistinct(m[1..], k);
      RemoveGet(m[1..], k);
      var rest := Remove(m[1..], k);
      if m[0].key != k {
        forall i | 0 <= i < |rest| ensures rest[i].key != m[0].key {
          var j :| 0 <= j < |m[1..]| && m[1..][j] == rest[i];
          assert m[j + 1] == rest[i];
        }
      }
    }
  }

  /** Deleting an absent key changes nothing. */
  lemma {:induction false} RemoveAbsent<K, V>(m: OMap<K, V>, k: K)
    requires k !in Keys(m)
    ensures Remove(m, k) == m
  {
    if |m| > 0 {
      assert Keys(m) == [m[0].key] + Keys(m[1..]);
      RemoveAbsent(m[1..], k);
      assert m == [m[0]] + m[1..];
    }
  }

  /** With distinct keys, deleting the key of the entry at `i` removes exactly that entry. */
  lemma {:induction false} RemoveEntry<K, V>(m: OMap<K, V>, i: nat)
    requires Distinct(m) && i < |m|
    ensures Remove(m, m[i].key) == m[..i] + m[i + 1..]
  {
    var k := m[i].key;
    if i == 0 {
      assert k !in Keys(m[1..]);
      RemoveAbsent(m[1..], k);
    } else {
      assert m[0].key != k;
      assert m[1..][i - 1] == m[i];
      RemoveEntry(m[1..], i - 1);
      assert m[1..][..i - 1] + m[1..][i..] == m[1..i] + m[i + 1..];
      assert m[..i] == [m[0]] + m[1..i];
    }
  }
}
