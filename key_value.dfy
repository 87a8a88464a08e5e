/**
 * DictKVStorage (blob/backends/key_value.py): a key-value store that wraps a Python dict.
 * The proxy keeps its address and hash indices in two of them, FileStorage its length table.
 * A Python dict remembers the order its keys were first inserted in, and the proxy's
 * bucket scan depends on that order, so the dict's value is its entries plus that order.
 */
module KeyValue {
  import opened Types
  import opened Builtins

  /** The values of `data` listed in the order of `keys`: list(d.values()). */
  function ValuesOf<K, V>(keys: seq<K>, data: map<K, V>): (vs: seq<V>)
    requires forall i :: 0 <= i < |keys| ==> keys[i] in data
    ensures |vs| == |keys|
    ensures forall i :: 0 <= i < |keys| ==> vs[i] == data[keys[i]]
  {
    if keys == [] then [] else [data[keys[0]]] + ValuesOf(keys[1..], data)
  }

  /** The keys among `keys` that `data` maps to v. */
  ghost function KeysTo<K, V>(keys: seq<K>, data: map<K, V>, v: V): (ks: set<K>)
    requires forall i :: 0 <= i < |keys| ==> keys[i] in data
    ensures forall k :: k in ks ==> k in keys && data[k] == v
    ensures forall i :: 0 <= i < |keys| && data[keys[i]] == v ==> keys[i] in ks
  {
    if keys == [] then {}
    else (if data[keys[0]] == v then {keys[0]} else {}) + KeysTo(keys[1..], data, v)
  }

  /** Counting the values equal to v counts the keys that map to v, when no key repeats. */
  lemma {:induction false} CountValuesOf<K, V>(keys: seq<K>, data: map<K, V>, v: V)
    requires forall i :: 0 <= i < |keys| ==> keys[i] in data
    requires Distinct(keys)
    ensures Count(ValuesOf(keys, data), v) == |KeysTo(keys, data, v)|
  {
    if keys != [] {
      var rest := keys[1..];
      assert Distinct(rest);
      CountValuesOf(rest, data, v);
      assert ValuesOf(keys, data)[1..] == ValuesOf(rest, data);
      assert keys[0] !in KeysTo(rest, data, v);
    }
  }

  /** When the order lists every key of data, the keys it sends to v are exactly v's referrers. */
  lemma KeysToReferrers<K, V>(keys: seq<K>, data: map<K, V>, v: V)
    requires forall i :: 0 <= i < |keys| ==> keys[i] in data
    requires forall k :: k in data ==> k in keys
    ensures KeysTo(keys, data, v) == MapReferrers(data, v)
  {
    forall k | k in MapReferrers(data, v) ensures k in KeysTo(keys, data, v) {
      var i :| 0 <= i < |keys| && keys[i] == k;
    }
  }

  /** The keys a map sends to w. */
  ghost function MapReferrers<K, V>(m: map<K, V>, w: V): set<K> {
    set k | k in m && m[k] == w
  }

  /** The value of a Python dict: its entries and the insertion order of its keys. */
  datatype Dict<K(==), V(==)> = Dict(data: map<K, V>, order: seq<K>) {

    /** The order lists every key exactly once. */
    ghost predicate Valid() {
      && Distinct(order)
      && (forall i :: 0 <= i < |order| ==> order[i] in data)
      && (forall k :: k in data ==> k in order)
    }

    /** The keys mapped to v: the logical addresses that share the physical address v. */
    ghost function Referrers(v: V): set<K> {
      MapReferrers(data, v)
    }

    /** d[k] = v: a new key goes to the end of the order, an existing key keeps its place. */
    function Put(k: K, v: V): (d: Dict<K, V>)
      ensures Valid() ==> d.Valid()
      ensures d.data == data[k := v]
      ensures k in data ==> d.order == order
      ensures k !in data ==> d.order == order + [k]
    {
      Dict(data[k := v], if k in data then order else order + [k])
    }

    /** del d[k]: the entry and its place in the order both go. */
    function Remove(k: K): (d: Dict<K, V>)
      ensures Valid() ==> d.Valid()
      ensures d.data == data - {k}
      ensures d.order == Without(order, k)
    {
      WithoutDistinct(order, k);
      Dict(data - {k}, Without(order, k))
    }

    /** list(d.values()). */
    function Values(): (vs: seq<V>)
      requires Valid()
      ensures |vs| == |order| == |data|
      ensures forall i :: 0 <= i < |vs| ==> vs[i] == data[order[i]]
      ensures forall k :: k in data ==> data[k] in vs
    {
      DistinctCard(order);
      assert (set x | x in order) == data.Keys;
      var vs := ValuesOf(order, data);
      assert forall k :: k in data ==> data[k] in vs by {
        forall k | k in data ensures data[k] in vs {
          var i :| 0 <= i < |order| && order[i] == k;
          assert vs[i] == data[k];
        }
      }
      vs
    }

    /** count_links(v) = list(d.values()).count(v): the number of keys mapped to v. */
    function CountLinks(v: V): (n: nat)
      requires Valid()
      ensures n == |Referrers(v)|
    {
      CountValuesOf(order, data, v);
      KeysToReferrers(order, data, v);
      Count(ValuesOf(order, data), v)
    }
  }

  /** Updating one key moves it from the referrers of its old value to those of its new one. */
  lemma ReferrersAfterUpdate<K, V>(m: map<K, V>, k: K, v: V, w: V)
    ensures |MapReferrers(m[k := v], w)|
         == |MapReferrers(m, w)| - (if k in m && m[k] == w then 1 else 0) + (if v == w then 1 else 0)
  {
    var before, now := MapReferrers(m, w), MapReferrers(m[k := v], w);
    var base := before - {k};
    assert now - {k} == base;
    if v == w {
      assert now == base + {k};
    } else {
      assert now == base;
    }
    if k in m && m[k] == w {
      assert before == base + {k};
    } else {
      assert before == base;
    }
  }

  /** A set holding a and nothing else has one element. */
  lemma OnlyMember<T>(r: set<T>, a: T)
    requires a in r && forall k :: k in r ==> k == a
    ensures |r| == 1
  {
    assert r == {a};
  }

  /** When a is the only key on its value, any key with that value is a. */
  lemma SoleReferrer<K, V>(m: map<K, V>, a: K, b: K)
    requires a in m && |MapReferrers(m, m[a])| == 1
    requires b in m && m[b] == m[a]
    ensures b == a
  {
    var r := MapReferrers(m, m[a]);
    assert a in r && b in r;
    assert |r - {a}| == 0;
  }

  /** When more than one key is on a's value, one of them is not a. */
  lemma SharedReferrer<K, V>(m: map<K, V>, a: K) returns (b: K)
    requires a in m && |MapReferrers(m, m[a])| > 1
    ensures b in m && b != a && m[b] == m[a]
  {
    var r := MapReferrers(m, m[a]);
    if forall k :: k in r ==> k == a {
      OnlyMember(r, a);
      assert false;
    }
    b :| b in r && b != a;
  }

  /** `d[k] = v` moves one link from k's previous value to v and leaves every other count alone. */
  lemma CountLinksAfterPut<K, V>(d: Dict<K, V>, k: K, v: V, w: V)
    requires d.Valid()
    ensures d.Put(k, v).CountLinks(w)
         == d.CountLinks(w) - (if k in d.data && d.data[k] == w then 1 else 0) + (if v == w then 1 else 0)
  {
    ReferrersAfterUpdate(d.data, k, v, w);
  }

  /** The dict object itself, which the proxy and FileStorage mutate in place. */
  class DictKVStorage<K(==), V(==)> {
    var data: map<K, V>
    var order: seq<K>

    ghost function Model(): Dict<K, V>
      reads this
    {
      Dict(data, order)
    }

    ghost predicate Valid()
      reads this
    {
      Model().Valid()
    }

    constructor ()
      ensures Valid() && data == map[] && order == []
    {
      data := map[];
      order := [];
    }

    /** d[k], which raises KeyError for a missing key. */
    method Get(k: K) returns (r: Result<V>)
      ensures k in data ==> r == Ok(data[k])
      ensures k !in data ==> r == Err(KeyError)
    {
      if k in data {
        r := Ok(data[k]);
      } else {
        r := Err(KeyError);
      }
    }

    /** d[k] = v. */
    method Set(k: K, v: V)
      requires Valid()
      modifies this
      ensures Valid()
      ensures Model() == old(Model()).Put(k, v)
    {
      if k !in data {
        order := order + [k];
      }
      data := data[k := v];
    }

    /** del d[k], which raises KeyError for a missing key and then changes nothing. */
    method Delete(k: K) returns (r: Outcome)
      requires Valid()
      modifies this
      ensures Valid()
      ensures k in old(data) ==> r == Pass && Model() == old(Model()).Remove(k)
      ensures k !in old(data) ==> r == Fail(KeyError) && Model() == old(Model())
    {
      if k in data {
        WithoutDistinct(order, k);
        data := data - {k};
        order := Without(order, k);
        r := Pass;
      } else {
        r := Fail(KeyError);
      }
    }

    /** k in d. */
    method Contains(k: K) returns (b: bool)
      ensures b <==> k in data
    {
      b := k in data;
    }

    /** d.keys(): every stored key once, in insertion order. */
    method Keys() returns (ks: seq<K>)
      requires Valid()
      ensures ks == order
      ensures Distinct(ks) && |ks| == |data|
      ensures forall k :: k in ks <==> k in data
    {
      DistinctCard(order);
      assert (set x | x in order) == data.Keys;
      ks := order;
    }

    /** d.values(): the value of every stored key, in the keys' order. */
    method Values() returns (vs: seq<V>)
      requires Valid()
      ensures |vs| == |order| == |data|
      ensures forall i :: 0 <= i < |vs| ==> vs[i] == data[order[i]]
      ensures forall k :: k in data ==> data[k] in vs
    {
      vs := Dict(data, order).Values();
    }

    /** count_links(v): how many keys are mapped to v. */
    method CountLinks(v: V) returns (n: nat)
      requires Valid()
      ensures n == |Model().Referrers(v)|
    {
      n := Count(ValuesOf(order, data), v);
      CountValuesOf(order, data, v);
      KeysToReferrers(order, data, v);
    }
  }
}
