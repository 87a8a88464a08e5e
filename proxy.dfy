/**
 * DedupeProxy (blob/backends/proxy.py): maps logical block addresses to physical ones through
 * two indices and stores each distinct content once. `by_address` sends a logical address to
 * its physical address; `by_hash` sends a digest to the list (the bucket) of physical addresses
 * whose content had that digest when written. The storage underneath is the test stub.
 */
module Proxy {
  import opened Types
  import opened Builtins
  import opened KeyValue
  import opened Stub

  /** Everything put_data reads and writes: both indices and the storage's contents. */
  datatype ProxyState = ProxyState(
    addr: Dict<int, int>,
    hash: Dict<Digest, seq<int>>,
    store: map<int, Bytes>,
    last: Option<Bytes>)
  {
    ghost predicate Valid() {
      addr.Valid() && hash.Valid()
    }
  }

  /** The outcome of an operation and the state it leaves behind. */
  datatype Step = Step(outcome: Outcome, next: ProxyState)

  /** The state of a freshly constructed proxy over an empty stub. */
  function Initial(): (s: ProxyState)
    ensures s.Valid()
    ensures s.addr.data == map[] && s.hash.data == map[] && s.store == map[] && s.last == None
  {
    ProxyState(Dict(map[], []), Dict(map[], []), map[], None)
  }

  /** get_data: the bytes the storage holds at the logical address's physical address. */
  function Get(s: ProxyState, a: int): (r: Result<Bytes>)
    ensures a !in s.addr.data <==> r == Err(StorageBackendError("no block found with such address"))
    ensures a in s.addr.data && s.addr.data[a] in s.store ==> r == Ok(s.store[s.addr.data[a]])
    ensures a in s.addr.data && s.addr.data[a] !in s.store ==> r == Err(KeyError)
  {
    if a !in s.addr.data then Err(StorageBackendError("no block found with such address"))
    else if s.addr.data[a] !in s.store then Err(KeyError)
    else Ok(s.store[s.addr.data[a]])
  }

  /**
   * The loop of check_duplicate over one bucket: reads every listed address in turn and stops at
   * the first whose stored bytes equal d; reading an address the storage no longer has raises.
   */
  function FirstMatch(bucket: seq<int>, store: map<int, Bytes>, d: Bytes): (r: Result<Option<int>>)
    ensures r.Err? ==> r.error == KeyError
    ensures r.Err? <==> exists i :: 0 <= i < |bucket| && bucket[i] !in store && Differ(bucket[..i], store, d)
    ensures r == Ok(None) <==> Differ(bucket, store, d)
    ensures forall p :: r == Ok(Some(p)) <==>
      exists i :: 0 <= i < |bucket| && bucket[i] == p && p in store && store[p] == d && Differ(bucket[..i], store, d)
  {
    if bucket == [] then Ok(None)
    else if bucket[0] !in store then
      assert Differ(bucket[..0], store, d);
      Err(KeyError)
    else if store[bucket[0]] == d then
      assert Differ(bucket[..0], store, d);
      Ok(Some(bucket[0]))
    else
      var r := FirstMatch(bucket[1..], store, d);
      assert forall i :: 0 <= i < |bucket| - 1 ==> bucket[1..][..i] == bucket[1..i + 1];
      assert forall i :: 0 < i <= |bucket| ==> Differ(bucket[..i], store, d) == Differ(bucket[1..i], store, d);
      assert bucket[1..] == bucket[1..|bucket|];
      r
  }

  /** Every address in `addrs` is stored, with content other than d. */
  ghost predicate Differ(addrs: seq<int>, store: map<int, Bytes>, d: Bytes) {
    forall i :: 0 <= i < |addrs| ==> addrs[i] in store && store[addrs[i]] != d
  }

  /** check_duplicate(d, h): a stored address with content d found in h's bucket, if any. */
  function FindDuplicate(s: ProxyState, d: Bytes, h: Digest): (r: Result<Option<int>>)
    ensures h !in s.hash.data ==> r == Ok(None)
    ensures forall p :: r == Ok(Some(p)) ==> h in s.hash.data && p in s.hash.data[h] && p in s.store && s.store[p] == d
    ensures h in s.hash.data ==> r == FirstMatch(s.hash.data[h], s.store, d)
  {
    if h in s.hash.data then FirstMatch(s.hash.data[h], s.store, d) else Ok(None)
  }

  /** The first key, in dict order, whose bucket lists p (the scan at proxy.py:43-47). */
  function FirstBucketWith(keys: seq<Digest>, buckets: map<Digest, seq<int>>, p: int): (r: Option<Digest>)
    requires forall i :: 0 <= i < |keys| ==> keys[i] in buckets
    ensures r.None? <==> forall i :: 0 <= i < |keys| ==> p !in buckets[keys[i]]
    ensures r.Some? ==> exists i :: 0 <= i < |keys| && keys[i] == r.value && p in buckets[r.value]
                                    && forall j :: 0 <= j < i ==> p !in buckets[keys[j]]
  {
    if keys == [] then None
    else if p in buckets[keys[0]] then Some(keys[0])
    else
      var r := FirstBucketWith(keys[1..], buckets, p);
      assert r.Some? ==> exists i :: 0 <= i < |keys| && keys[i] == r.value && p in buckets[r.value]
                                    && forall j :: 0 <= j < i ==> p !in buckets[keys[j]] by {
        if r.Some? {
          var i :| 0 <= i < |keys[1..]| && keys[1..][i] == r.value && p in buckets[r.value]
                   && forall j :: 0 <= j < i ==> p !in buckets[keys[1..][j]];
          assert keys[i + 1] == r.value;
          assert forall j :: 0 <= j < i + 1 ==> p !in buckets[keys[j]] by {
            forall j | 0 <= j < i + 1 ensures p !in buckets[keys[j]] {
              if j > 0 { assert keys[j] == keys[1..][j - 1]; }
            }
          }
        }
      }
      r
  }

  /** Takes p out of bucket k: drops its first occurrence, or the whole bucket if p is all it holds. */
  function Detach(hash: Dict<Digest, seq<int>>, k: Digest, p: int): Dict<Digest, seq<int>>
    requires k in hash.data && p in hash.data[k]
  {
    if |hash.data[k]| > 1 then hash.Put(k, RemoveFirst(hash.data[k], p)) else hash.Remove(k)
  }

  /** Files p under digest h: appended to the bucket, or in a new bucket [p]. */
  function Attach(hash: Dict<Digest, seq<int>>, h: Digest, p: int): Dict<Digest, seq<int>> {
    if h in hash.data then hash.Put(h, hash.data[h] + [p]) else hash.Put(h, [p])
  }

  /** The branch taken when d is already stored at q: a becomes one more alias of q. */
  function Alias(s: ProxyState, a: int, q: int): Step
    requires s.Valid()
  {
    if a in s.addr.data && s.addr.CountLinks(s.addr.data[a]) == 1 && s.addr.data[a] != q then
      if s.addr.data[a] in s.store then
        Step(Pass, s.(addr := s.addr.Put(a, q), store := s.store - {s.addr.data[a]}))
      else
        Step(Fail(KeyError), s)
    else
      Step(Pass, s.(addr := s.addr.Put(a, q)))
  }

  /**
   * Where new content for a goes when no duplicate exists, with the hash index as it is
   * before filing: the lowest free address for a new or shared mapping, or a's own address,
   * detached from the first bucket that lists it, when a is its sole referrer.
   */
  function Target(s: ProxyState, a: int): Result<(int, Dict<Digest, seq<int>>)>
    requires s.Valid()
  {
    if a !in s.addr.data || s.addr.CountLinks(s.addr.data[a]) > 1 then
      Ok((LeastFree(s.store.Keys), s.hash))
    else
      var p := s.addr.data[a];
      match FirstBucketWith(s.hash.order, s.hash.data, p)
      case None => Err(KeyError)
      case Some(k) => Ok((p, Detach(s.hash, k, p)))
  }

  /** The branch taken when d is not stored yet: write it at the target address. */
  function Write(s: ProxyState, h: Digest, a: int, d: Bytes): Step
    requires s.Valid()
  {
    match Target(s, a)
    case Err(e) => Step(Fail(e), s)
    case Ok((p, hash)) =>
      Step(Pass, ProxyState(s.addr.Put(a, p), Attach(hash, h, p), s.store[p := d], Some(d)))
  }

  /** put_data(a, d) where the hasher gives d the digest h. */
  function Put(s: ProxyState, h: Digest, a: int, d: Bytes): Step
    requires s.Valid()
  {
    match FindDuplicate(s, d, h)
    case Err(e) => Step(Fail(e), s)
    case Ok(Some(q)) => Alias(s, a, q)
    case Ok(None) => Write(s, h, a, d)
  }

  class DedupeProxy {
    const storage: StubStorage
    const hasher: Bytes -> Digest
    const byAddress: DictKVStorage<int, int>
    const byHash: DictKVStorage<Digest, seq<int>>

    ghost predicate Valid()
      reads this, byAddress, byHash
    {
      && byAddress.Valid() && byHash.Valid()
      && byAddress as object != byHash as object
      && byAddress as object != storage as object
      && byHash as object != storage as object
    }

    ghost function State(): ProxyState
      reads this, byAddress, byHash, storage
    {
      ProxyState(byAddress.Model(), byHash.Model(), storage.data, storage.last)
    }

    constructor (storage: StubStorage, hasher: Bytes -> Digest)
      ensures Valid() && this.storage == storage && this.hasher == hasher
      ensures State() == ProxyState(Dict(map[], []), Dict(map[], []), storage.data, storage.last)
    {
      this.storage := storage;
      this.hasher := hasher;
      byAddress := new DictKVStorage();
      byHash := new DictKVStorage();
    }

    method GetData(a: int) returns (r: Result<Bytes>)
      requires Valid()
      ensures r == Get(State(), a)
    {
      var found := byAddress.Get(a);
      if found.Err? {
        return Err(StorageBackendError("no block found with such address"));
      }
      r := storage.GetData(found.value);
    }

    method CheckDuplicate(d: Bytes, h: Digest) returns (r: Result<Option<int>>)
      requires Valid()
      ensures r == FindDuplicate(State(), d, h)
    {
      var known := byHash.Contains(h);
      if known {
        var bucket := byHash.Get(h);
        var list := bucket.value;
        var i := 0;
        while i < |list|
          invariant 0 <= i <= |list|
          invariant FirstMatch(list, storage.data, d) == FirstMatch(list[i..], storage.data, d)
        {
          var data := storage.GetData(list[i]);
          if data.Err? {
            return Err(data.error);
          }
          if data.value == d {
            return Ok(Some(list[i]));
          }
          assert list[i..][1..] == list[i + 1..];
          i := i + 1;
        }
      }
      r := Ok(None);
    }

    /** put_data: alias an existing duplicate, or write d at the target address and file it under its digest. */
    method PutData(a: int, d: Bytes) returns (r: Outcome)
      requires Valid()
      modifies byAddress, byHash, storage
      ensures Valid()
      ensures Step(r, State()) == Put(old(State()), hasher(d), a, d)
    {
      var h := hasher(d);
      var dup := CheckDuplicate(d, h);
      if dup.Err? {
        return Fail(dup.error);
      }
      if dup.value.Some? {
        r := AliasTo(a, dup.value.value);
        return;
      }
      var target := FindTarget(a);
      if target.Err? {
        return Fail(target.error);
      }
      var p := target.value;
      byAddress.Set(a, p);
      FileUnder(h, p);
      storage.PutData(p, d);
      r := Pass;
    }

    /** The duplicate branch (proxy.py:26-31). */
    method AliasTo(a: int, q: int) returns (r: Outcome)
      requires Valid()
      modifies byAddress, storage
      ensures Valid()
      ensures Step(r, State()) == Alias(old(State()), a, q)
    {
      var mapped := byAddress.Contains(a);
      if mapped {
        var current := byAddress.Get(a);
        var links := byAddress.CountLinks(current.value);
        if links == 1 && current.value != q {
          r := storage.DelData(current.value);
          if r.Fail? {
            return;
          }
        }
      }
      byAddress.Set(a, q);
      r := Pass;
    }

    /** The choice of physical address for new content (proxy.py:34-51). */
    method FindTarget(a: int) returns (r: Result<int>)
      requires Valid()
      modifies byHash
      ensures Valid()
      ensures Target(old(State()), a).Err? ==> r == Err(Target(old(State()), a).error) && byHash.Model() == old(byHash.Model())
      ensures Target(old(State()), a).Ok? ==>
        r == Ok(Target(old(State()), a).value.0) && byHash.Model() == Target(old(State()), a).value.1
    {
      ghost var s := State();
      var current := byAddress.Get(a);
      if current.Err? {
        var p := storage.GetFreeAddress();
        assert Target(s, a) == Ok((p, s.hash));
        return Ok(p);
      }
      var p := current.value;
      var links := byAddress.CountLinks(p);
      assert links == s.addr.CountLinks(s.addr.data[a]);
      if links > 1 {
        p := storage.GetFreeAddress();
        assert Target(s, a) == Ok((p, s.hash));
        return Ok(p);
      }
      var oldHash := FindBucket(p);
      if oldHash.None? {
        assert Target(s, a) == Err(KeyError);
        return Err(KeyError);
      }
      assert Target(s, a) == Ok((p, Detach(s.hash, oldHash.value, p)));
      DetachFrom(oldHash.value, p);
      r := Ok(p);
    }

    /** Takes p out of bucket k, deleting the bucket when p is all it holds (proxy.py:48-51). */
    method DetachFrom(k: Digest, p: int)
      requires Valid() && k in byHash.data && p in byHash.data[k]
      modifies byHash
      ensures Valid()
      ensures byHash.Model() == Detach(old(byHash.Model()), k, p)
    {
      var oldBucket := byHash.Get(k);
      if |oldBucket.value| > 1 {
        byHash.Set(k, RemoveFirst(oldBucket.value, p));
      } else {
        var _ := byHash.Delete(k);
      }
    }

    /** The scan of by_hash's keys, in order, for the first bucket listing p (proxy.py:43-47). */
    method FindBucket(p: int) returns (r: Option<Digest>)
      requires Valid()
      ensures r == FirstBucketWith(byHash.order, byHash.data, p)
    {
      var keys := byHash.Keys();
      var i := 0;
      while i < |keys|
        invariant 0 <= i <= |keys|
        invariant FirstBucketWith(keys, byHash.data, p) == FirstBucketWith(keys[i..], byHash.data, p)
      {
        var bucket := byHash.Get(keys[i]);
        if p in bucket.value {
          return Some(keys[i]);
        }
        assert keys[i..][1..] == keys[i + 1..];
        i := i + 1;
      }
      r := None;
    }

    /** Appends p to h's bucket, creating the bucket if needed (proxy.py:54-57). */
    method FileUnder(h: Digest, p: int)
      requires Valid()
      modifies byHash
      ensures Valid()
      ensures byHash.Model() == Attach(old(byHash.Model()), h, p)
    {
      var filed := byHash.Contains(h);
      if filed {
        var bucket := byHash.Get(h);
        byHash.Set(h, bucket.value + [p]);
      } else {
        byHash.Set(h, [p]);
      }
    }
  }
}
