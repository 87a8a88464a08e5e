/**
 * What put_data and get_data guarantee over the map-backed stub: the indices stay consistent
 * with the storage under every put, a put is read back, other logical addresses are never
 * disturbed, and the storage holds exactly one copy of every live content.
 */
module ProxyProperties {
  import opened Types
  import opened Builtins
  import opened KeyValue
  import opened Proxy

  /** p is listed in the bucket of digest h. */
  ghost predicate Filed(buckets: map<Digest, seq<int>>, h: Digest, p: int) {
    h in buckets && p in buckets[h]
  }

  /** Some logical address is mapped to p. */
  ghost predicate Referenced(m: map<int, int>, p: int) {
    exists a :: a in m && m[a] == p
  }

  /** Every logical address leads to a stored block. */
  ghost predicate Resolves(s: ProxyState) {
    forall a :: a in s.addr.data ==> s.addr.data[a] in s.store
  }

  /** Every stored block is read through some logical address. */
  ghost predicate NoOrphans(s: ProxyState) {
    forall p :: p in s.store ==> Referenced(s.addr.data, p)
  }

  /** Every stored block is listed in the bucket of its content's digest. */
  ghost predicate AllFiled(s: ProxyState, hasher: Bytes -> Digest) {
    forall p :: p in s.store ==> Filed(s.hash.data, hasher(s.store[p]), p)
  }

  /** No content is stored at two physical addresses. */
  ghost predicate OneCopy(s: ProxyState) {
    forall p, q :: p in s.store && q in s.store && s.store[p] == s.store[q] ==> p == q
  }

  /** The state the proxy keeps when driven only through put_data. */
  ghost predicate Consistent(s: ProxyState, hasher: Bytes -> Digest) {
    s.Valid() && Resolves(s) && NoOrphans(s) && AllFiled(s, hasher) && OneCopy(s)
  }

  lemma InitialConsistent(hasher: Bytes -> Digest)
    ensures Consistent(Initial(), hasher)
  {
  }

  /** A digest match over a consistent state misses only when d is stored nowhere. */
  lemma NothingFoundMeansNew(s: ProxyState, hasher: Bytes -> Digest, d: Bytes)
    requires Consistent(s, hasher)
    requires FindDuplicate(s, d, hasher(d)) == Ok(None)
    ensures forall p :: p in s.store ==> s.store[p] != d
  {
    forall p | p in s.store ensures s.store[p] != d {
      assert Filed(s.hash.data, hasher(s.store[p]), p);
    }
  }

  /** Appending to a bucket keeps every listing. */
  lemma AttachKeepsFiled(hash: Dict<Digest, seq<int>>, h: Digest, p: int, k: Digest, x: int)
    requires Filed(hash.data, k, x)
    ensures Filed(Attach(hash, h, p).data, k, x)
  {
    if k == h {
      assert x in hash.data[h] + [p];
    }
  }

  /** Detaching p keeps the listing of every other address. */
  lemma DetachKeepsOthers(hash: Dict<Digest, seq<int>>, k: Digest, p: int, j: Digest, x: int)
    requires k in hash.data && p in hash.data[k]
    requires Filed(hash.data, j, x) && x != p
    ensures Filed(Detach(hash, k, p).data, j, x)
  {
    if j == k {
      var bucket := hash.data[k];
      if |bucket| > 1 {
        RemoveFirstKeeps(bucket, p, x);
      } else {
        assert false;
      }
    }
  }

  /** In a consistent state the write branch always finds the bucket to detach a's address from. */
  lemma TargetFound(s: ProxyState, hasher: Bytes -> Digest, a: int)
    requires Consistent(s, hasher)
    ensures Target(s, a).Ok?
  {
    if a in s.addr.data && s.addr.CountLinks(s.addr.data[a]) <= 1 {
      var p := s.addr.data[a];
      var k := hasher(s.store[p]);
      assert Filed(s.hash.data, k, p);
      var i :| 0 <= i < |s.hash.order| && s.hash.order[i] == k;
    }
  }

  /** put_data when d is stored at q and a's former block, referenced by a alone, is deleted. */
  lemma PutDeletingShape(s: ProxyState, h: Digest, a: int, d: Bytes, q: int)
    requires s.Valid() && FindDuplicate(s, d, h) == Ok(Some(q))
    requires a in s.addr.data && s.addr.CountLinks(s.addr.data[a]) == 1 && s.addr.data[a] != q
    requires s.addr.data[a] in s.store
    ensures Put(s, h, a, d) == Step(Pass, s.(addr := s.addr.Put(a, q), store := s.store - {s.addr.data[a]}))
  {
  }

  /** The duplicate branch that deletes a's former block keeps the state consistent. */
  lemma AliasDeletingKeepsConsistent(s: ProxyState, hasher: Bytes -> Digest, a: int, q: int)
    requires Consistent(s, hasher) && q in s.store
    requires a in s.addr.data && s.addr.CountLinks(s.addr.data[a]) == 1 && s.addr.data[a] != q
    ensures Consistent(Alias(s, a, q).next, hasher)
  {
    var prior := s.addr.data[a];
    var t := Alias(s, a, q).next;
    assert t == s.(addr := s.addr.Put(a, q), store := s.store - {prior});
    DeletingResolves(s.addr.data, s.store, a, q, t.addr.data);
    DeletingKeepsReferenced(s.addr.data, s.store, a, q);
  }

  /** After a's sole block is deleted and a remapped to q, every logical address still resolves. */
  lemma DeletingResolves(addr: map<int, int>, store: map<int, Bytes>, a: int, q: int, next: map<int, int>)
    requires forall b :: b in addr ==> addr[b] in store
    requires a in addr && |MapReferrers(addr, addr[a])| == 1 && q in store && addr[a] != q
    requires next == addr[a := q]
    ensures forall b :: b in next ==> next[b] in store - {addr[a]}
  {
    forall b | b in next ensures next[b] in store - {addr[a]} {
      if b != a && addr[b] == addr[a] {
        SoleReferrer(addr, a, b);
      }
    }
  }

  /** After a's sole block is deleted and a remapped, every remaining block keeps a referrer. */
  lemma DeletingKeepsReferenced(addr: map<int, int>, store: map<int, Bytes>, a: int, q: int)
    requires forall p :: p in store ==> Referenced(addr, p)
    requires a in addr
    ensures forall p :: p in store - {addr[a]} ==> Referenced(addr[a := q], p)
  {
    forall p | p in store - {addr[a]} ensures Referenced(addr[a := q], p) {
      var b :| b in addr && addr[b] == p;
      assert addr[a := q][b] == p;
    }
  }

  /** The duplicate branch that only remaps a keeps the state consistent. */
  lemma AliasSharingKeepsConsistent(s: ProxyState, hasher: Bytes -> Digest, a: int, q: int)
    requires Consistent(s, hasher) && q in s.store
    requires !(a in s.addr.data && s.addr.CountLinks(s.addr.data[a]) == 1 && s.addr.data[a] != q)
    ensures Consistent(Alias(s, a, q).next, hasher)
  {
    var t := Alias(s, a, q).next;
    assert t == s.(addr := s.addr.Put(a, q));
    SharingKeepsReferenced(s.addr.data, s.store, a, q, t.addr.data);
  }

  /** Remapping a to q, when a's block has another referrer or is q, leaves no block unreferenced. */
  lemma SharingKeepsReferenced(addr: map<int, int>, store: map<int, Bytes>, a: int, q: int, next: map<int, int>)
    requires forall p :: p in store ==> Referenced(addr, p)
    requires !(a in addr && |MapReferrers(addr, addr[a])| == 1 && addr[a] != q)
    requires next == addr[a := q]
    ensures forall p :: p in store ==> Referenced(next, p)
  {
    forall p | p in store ensures Referenced(next, p) {
      var b :| b in addr && addr[b] == p;
      if b != a {
        assert next[b] == p;
      } else if p == q {
        assert next[a] == p;
      } else {
        assert a in MapReferrers(addr, p);
        var c := SharedReferrer(addr, a);
        assert next[c] == p;
      }
    }
  }

  /** Writing new content at a free address keeps the state consistent. */
  lemma WriteFreshKeepsConsistent(s: ProxyState, hasher: Bytes -> Digest, a: int, d: Bytes)
    requires Consistent(s, hasher)
    requires forall p :: p in s.store ==> s.store[p] != d
    requires a !in s.addr.data || s.addr.CountLinks(s.addr.data[a]) > 1
    ensures Consistent(Write(s, hasher(d), a, d).next, hasher)
  {
    var h := hasher(d);
    var p := LeastFree(s.store.Keys);
    var t := Write(s, h, a, d).next;
    assert t == ProxyState(s.addr.Put(a, p), Attach(s.hash, h, p), s.store[p := d], Some(d));
    FreshKeepsReferenced(s.addr.data, s.store, a, p, d, t.addr.data, t.store);
    AttachFilesAll(s.hash, s.store, hasher, p, d, t.store);
  }

  /** Mapping a to a fresh block holding d, when a's old block keeps another referrer, leaves no block unreferenced. */
  lemma FreshKeepsReferenced(addr: map<int, int>, store: map<int, Bytes>, a: int, p: int, d: Bytes,
                             next: map<int, int>, nextStore: map<int, Bytes>)
    requires forall x :: x in store ==> Referenced(addr, x)
    requires a !in addr || |MapReferrers(addr, addr[a])| > 1
    requires next == addr[a := p] && nextStore == store[p := d]
    ensures forall x :: x in nextStore ==> Referenced(next, x)
  {
    forall x | x in nextStore ensures Referenced(next, x) {
      if x == p {
        assert next[a] == p;
      } else {
        var b :| b in addr && addr[b] == x;
        if b != a {
          assert next[b] == x;
        } else {
          var c := SharedReferrer(addr, a);
          assert next[c] == x;
        }
      }
    }
  }

  /** Filing p under the digest of its new content d keeps every stored block filed. */
  lemma AttachFilesAll(before: Dict<Digest, seq<int>>, store: map<int, Bytes>, hasher: Bytes -> Digest,
                       p: int, d: Bytes, nextStore: map<int, Bytes>)
    requires forall x :: x in store && x != p ==> Filed(before.data, hasher(store[x]), x)
    requires nextStore == store[p := d]
    ensures forall x :: x in nextStore ==> Filed(Attach(before, hasher(d), p).data, hasher(nextStore[x]), x)
  {
    var after := Attach(before, hasher(d), p);
    forall x | x in nextStore ensures Filed(after.data, hasher(nextStore[x]), x) {
      if x == p {
        assert p in after.data[hasher(d)];
      } else {
        AttachKeepsFiled(before, hasher(d), p, hasher(store[x]), x);
      }
    }
  }

  /** Taking p out of its bucket keeps every other stored block filed. */
  lemma DetachFilesOthers(hash: Dict<Digest, seq<int>>, k: Digest, p: int, store: map<int, Bytes>, hasher: Bytes -> Digest)
    requires k in hash.data && p in hash.data[k]
    requires forall x :: x in store ==> Filed(hash.data, hasher(store[x]), x)
    ensures forall x :: x in store && x != p ==> Filed(Detach(hash, k, p).data, hasher(store[x]), x)
  {
    forall x | x in store && x != p ensures Filed(Detach(hash, k, p).data, hasher(store[x]), x) {
      DetachKeepsOthers(hash, k, p, hasher(store[x]), x);
    }
  }

  /** Rewriting a's own block in place, when a is its sole referrer, keeps the state consistent. */
  lemma WriteInPlaceKeepsConsistent(s: ProxyState, hasher: Bytes -> Digest, a: int, d: Bytes)
    requires Consistent(s, hasher)
    requires forall p :: p in s.store ==> s.store[p] != d
    requires a in s.addr.data && s.addr.CountLinks(s.addr.data[a]) <= 1
    ensures Consistent(Write(s, hasher(d), a, d).next, hasher)
  {
    TargetFound(s, hasher, a);
    var h := hasher(d);
    var p := s.addr.data[a];
    var k := InPlaceShape(s, h, a, d);
    var detached := Detach(s.hash, k, p);
    var t := Write(s, h, a, d).next;
    RewriteBlockKeeps(s, t, p, d);
    DetachFilesOthers(s.hash, k, p, s.store, hasher);
    AttachFilesAll(detached, s.store, hasher, p, d, t.store);
  }

  /**
   * The write branch for a sole referrer a: a keeps its address, which moves from the first
   * bucket listing it to the bucket of h, and the storage there now holds d.
   */
  lemma InPlaceShape(s: ProxyState, h: Digest, a: int, d: Bytes) returns (k: Digest)
    requires s.Valid() && a in s.addr.data && s.addr.CountLinks(s.addr.data[a]) <= 1
    requires Target(s, a).Ok?
    ensures k in s.hash.data && s.addr.data[a] in s.hash.data[k]
    ensures Write(s, h, a, d).next
         == ProxyState(s.addr, Attach(Detach(s.hash, k, s.addr.data[a]), h, s.addr.data[a]),
                       s.store[s.addr.data[a] := d], Some(d))
  {
    var p := s.addr.data[a];
    k := FirstBucketWith(s.hash.order, s.hash.data, p).value;
    assert Target(s, a) == Ok((p, Detach(s.hash, k, p)));
    assert s.addr.Put(a, p) == s.addr;
  }

  /** Overwriting a stored block with content stored nowhere else keeps every address resolving, referenced and unique. */
  lemma RewriteBlockKeeps(s: ProxyState, t: ProxyState, p: int, d: Bytes)
    requires Resolves(s) && NoOrphans(s) && OneCopy(s) && p in s.store
    requires forall x :: x in s.store ==> s.store[x] != d
    requires t.addr == s.addr && t.store == s.store[p := d]
    ensures Resolves(t) && NoOrphans(t) && OneCopy(t)
  {
    assert t.store.Keys == s.store.Keys;
  }

  /** put_data keeps the state consistent, whichever branch it takes and whether or not it fails. */
  lemma PutKeepsConsistent(s: ProxyState, hasher: Bytes -> Digest, a: int, d: Bytes)
    requires Consistent(s, hasher)
    ensures Consistent(Put(s, hasher(d), a, d).next, hasher)
  {
    match FindDuplicate(s, d, hasher(d))
    case Err(_) =>
    case Ok(Some(q)) =>
      if a in s.addr.data && s.addr.CountLinks(s.addr.data[a]) == 1 && s.addr.data[a] != q {
        AliasDeletingKeepsConsistent(s, hasher, a, q);
      } else {
        AliasSharingKeepsConsistent(s, hasher, a, q);
      }
    case Ok(None) =>
      NothingFoundMeansNew(s, hasher, d);
      if a !in s.addr.data || s.addr.CountLinks(s.addr.data[a]) > 1 {
        WriteFreshKeepsConsistent(s, hasher, a, d);
      } else {
        WriteInPlaceKeepsConsistent(s, hasher, a, d);
      }
  }

  /**
   * Over a consistent state put_data fails only when the duplicate check reads a bucket entry
   * the storage no longer holds; it then raises KeyError and changes nothing.
   */
  lemma PutFailsOnlyInDuplicateCheck(s: ProxyState, hasher: Bytes -> Digest, a: int, d: Bytes)
    requires Consistent(s, hasher)
    ensures Put(s, hasher(d), a, d).outcome.Fail? <==> FindDuplicate(s, d, hasher(d)).Err?
    ensures Put(s, hasher(d), a, d).outcome.Fail? ==>
      Put(s, hasher(d), a, d) == Step(Fail(KeyError), s)
  {
    TargetFound(s, hasher, a);
  }

  /** A successful put_data(a, d) is read back by get_data(a). */
  lemma PutThenGet(s: ProxyState, hasher: Bytes -> Digest, a: int, d: Bytes)
    requires Consistent(s, hasher)
    requires Put(s, hasher(d), a, d).outcome == Pass
    ensures Get(Put(s, hasher(d), a, d).next, a) == Ok(d)
  {
    var t := Put(s, hasher(d), a, d).next;
    match FindDuplicate(s, d, hasher(d))
    case Ok(Some(q)) =>
      assert Put(s, hasher(d), a, d) == Alias(s, a, q);
      AliasReads(s, a, q);
    case Ok(None) =>
      assert Put(s, hasher(d), a, d) == Write(s, hasher(d), a, d);
      var p := Target(s, a).value.0;
      assert t.addr.data[a] == p && t.store[p] == d;
  }

  /** A successful duplicate branch maps a to q and keeps q's block. */
  lemma AliasReads(s: ProxyState, a: int, q: int)
    requires s.Valid() && q in s.store && Alias(s, a, q).outcome == Pass
    ensures Get(Alias(s, a, q).next, a) == Ok(s.store[q])
  {
  }

  /** put_data(a, d) never changes what get_data reads at any other logical address. */
  lemma PutKeepsOthers(s: ProxyState, hasher: Bytes -> Digest, a: int, d: Bytes, b: int)
    requires Consistent(s, hasher) && b != a
    ensures Get(Put(s, hasher(d), a, d).next, b) == Get(s, b)
  {
    match FindDuplicate(s, d, hasher(d))
    case Err(_) =>
      assert Put(s, hasher(d), a, d).next == s;
    case Ok(Some(q)) =>
      assert Put(s, hasher(d), a, d) == Alias(s, a, q);
      AliasKeepsOthers(s, a, q, b);
    case Ok(None) =>
      assert Put(s, hasher(d), a, d) == Write(s, hasher(d), a, d);
      WriteKeepsOthers(s, hasher(d), a, d, b);
  }

  /** The duplicate branch leaves every other logical address reading what it read. */
  lemma AliasKeepsOthers(s: ProxyState, a: int, q: int, b: int)
    requires s.Valid() && b != a
    ensures Get(Alias(s, a, q).next, b) == Get(s, b)
  {
    var t := Alias(s, a, q).next;
    if a in s.addr.data && s.addr.CountLinks(s.addr.data[a]) == 1 && s.addr.data[a] != q {
      if s.addr.data[a] in s.store {
        AliasDeletingKeepsOthers(s, a, q, b);
      } else {
        assert t == s;
      }
    } else {
      assert t.addr.data == s.addr.data[a := q] && t.store == s.store - {};
      RemapKeepsGet(s, t, a, q, b, {});
    }
  }

  /** The deleting case of the alias branch: the block deleted was a's alone, so not b's. */
  lemma AliasDeletingKeepsOthers(s: ProxyState, a: int, q: int, b: int)
    requires s.Valid() && b != a && a in s.addr.data && s.addr.data[a] != q && s.addr.data[a] in s.store
    requires s.addr.CountLinks(s.addr.data[a]) == 1
    ensures Get(Alias(s, a, q).next, b) == Get(s, b)
  {
    var t := Alias(s, a, q).next;
    var prior := s.addr.data[a];
    assert t.addr.data == s.addr.data[a := q] && t.store == s.store - {prior};
    if b in s.addr.data && s.addr.data[b] == prior {
      SoleReferrer(s.addr.data, a, b);
    }
    RemapKeepsGet(s, t, a, q, b, {prior});
  }

  /** Remapping a to q and deleting blocks that b is not mapped to leaves get_data(b) as it was. */
  lemma RemapKeepsGet(s: ProxyState, t: ProxyState, a: int, q: int, b: int, removed: set<int>)
    requires b != a && t.addr.data == s.addr.data[a := q] && t.store == s.store - removed
    requires b in s.addr.data ==> s.addr.data[b] !in removed
    ensures Get(t, b) == Get(s, b)
  {
  }

  /** The write branch leaves every other logical address reading what it read. */
  lemma WriteKeepsOthers(s: ProxyState, h: Digest, a: int, d: Bytes, b: int)
    requires s.Valid() && Resolves(s) && b != a
    ensures Get(Write(s, h, a, d).next, b) == Get(s, b)
  {
    match Target(s, a)
    case Err(_) =>
      assert Write(s, h, a, d).next == s;
    case Ok((p, hash)) =>
      var t := Write(s, h, a, d).next;
      assert t.addr == s.addr.Put(a, p) && t.store == s.store[p := d];
      if b in s.addr.data && s.addr.data[b] == p {
        if a in s.addr.data && s.addr.CountLinks(s.addr.data[a]) <= 1 {
          assert a in s.addr.Referrers(s.addr.data[a]);
          SoleReferrer(s.addr.data, a, b);
        } else {
          assert false;
        }
      }
      StoreKeepsGet(s, t, b, p, d);
  }

  /** Storing d at an address b is not mapped to leaves get_data(b) as it was. */
  lemma StoreKeepsGet(s: ProxyState, t: ProxyState, b: int, p: int, d: Bytes)
    requires t.store == s.store[p := d]
    requires b in s.addr.data <==> b in t.addr.data
    requires b in s.addr.data ==> t.addr.data[b] == s.addr.data[b] && s.addr.data[b] != p
    ensures Get(t, b) == Get(s, b)
  {
  }

  /**
   * The storage holds exactly the live contents, once each: a content is stored if and only if
   * some logical address reads it, and never at two physical addresses.
   */
  lemma StoresLiveContentsOnce(s: ProxyState, hasher: Bytes -> Digest, d: Bytes)
    requires Consistent(s, hasher)
    ensures (exists p :: p in s.store && s.store[p] == d) <==> (exists a :: Get(s, a) == Ok(d))
    ensures forall p, q :: p in s.store && q in s.store && s.store[p] == d && s.store[q] == d ==> p == q
  {
    if p :| p in s.store && s.store[p] == d {
      var a :| a in s.addr.data && s.addr.data[a] == p;
      assert Get(s, a) == Ok(d);
    }
    if a :| Get(s, a) == Ok(d) {
      var p := s.addr.data[a];
      assert p in s.store && s.store[p] == d;
    }
  }

  /** The state after a sequence of put_data calls, in order. */
  function Run(s: ProxyState, hasher: Bytes -> Digest, puts: seq<(int, Bytes)>): (t: ProxyState)
    requires s.Valid()
    ensures t.Valid()
    decreases |puts|
  {
    if puts == [] then s
    else
      var (a, d) := puts[0];
      var next := Put(s, hasher(d), a, d).next;
      assert next.Valid() by { ValidAfterPut(s, hasher(d), a, d); }
      Run(next, hasher, puts[1..])
  }

  /** Running a non-empty sequence of puts is running its first put, then the rest. */
  lemma RunFirst(s: ProxyState, hasher: Bytes -> Digest, puts: seq<(int, Bytes)>)
    requires s.Valid() && puts != []
    ensures Put(s, hasher(puts[0].1), puts[0].0, puts[0].1).next.Valid()
         && Run(s, hasher, puts) == Run(Put(s, hasher(puts[0].1), puts[0].0, puts[0].1).next, hasher, puts[1..])
  {
    ValidAfterPut(s, hasher(puts[0].1), puts[0].0, puts[0].1);
  }

  /** put_data keeps both indices well-formed. */
  lemma ValidAfterPut(s: ProxyState, h: Digest, a: int, d: Bytes)
    requires s.Valid()
    ensures Put(s, h, a, d).next.Valid()
  {
  }

  /** A proxy driven only through put_data, from empty, stays consistent. */
  lemma {:induction false} RunKeepsConsistent(s: ProxyState, hasher: Bytes -> Digest, puts: seq<(int, Bytes)>)
    requires Consistent(s, hasher)
    ensures Consistent(Run(s, hasher, puts), hasher)
    decreases |puts|
  {
    if puts != [] {
      var (a, d) := puts[0];
      PutKeepsConsistent(s, hasher, a, d);
      RunKeepsConsistent(Put(s, hasher(d), a, d).next, hasher, puts[1..]);
    }
  }

  /** From a fresh proxy, every sequence of puts leaves the state consistent. */
  lemma RunFromInitialConsistent(hasher: Bytes -> Digest, puts: seq<(int, Bytes)>)
    ensures Consistent(Run(Initial(), hasher, puts), hasher)
  {
    InitialConsistent(hasher);
    RunKeepsConsistent(Initial(), hasher, puts);
  }
}
