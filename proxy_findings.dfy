/**
 * The duplicate branch of put_data deletes a's former block when a was its only referrer, but
 * leaves that physical address listed in its digest's bucket. A later put of content with the
 * same digest makes check_duplicate read the deleted address, and the storage raises KeyError.
 * The write branch (proxy.py:42-51) shows the evident intent: unlist an address when it is
 * given up. This module exhibits the failure and proves the corrected put never fails.
 */
module ProxyFindings {
  import opened Types
  import opened Builtins
  import opened KeyValue
  import opened Proxy
  import opened ProxyProperties

  const X: Bytes := [1]
  const Y: Bytes := [2]

  /** A digest that tells X apart from every other content. */
  function Tag(d: Bytes): (h: Digest)
    ensures h == "x" <==> d == X
  {
    if d == X then "x" else "y"
  }

  /** The states after put(0, X), then put(1, Y), then put(0, Y). */
  function AfterFirst(): ProxyState {
    ProxyState(Dict(map[0 := 0], [0]), Dict(map["x" := [0]], ["x"]), map[0 := X], Some(X))
  }

  function AfterSecond(): ProxyState {
    ProxyState(Dict(map[0 := 0, 1 := 1], [0, 1]), Dict(map["x" := [0], "y" := [1]], ["x", "y"]),
               map[0 := X, 1 := Y], Some(Y))
  }

  function AfterThird(): ProxyState {
    ProxyState(Dict(map[0 := 1, 1 := 1], [0, 1]), Dict(map["x" := [0], "y" := [1]], ["x", "y"]),
               map[1 := Y], Some(Y))
  }

  lemma FirstPut()
    ensures Put(Initial(), Tag(X), 0, X) == Step(Pass, AfterFirst())
  {
    assert LeastFree({}) == 0;
  }

  lemma SecondPut()
    ensures Put(AfterFirst(), Tag(Y), 1, Y) == Step(Pass, AfterSecond())
  {
    var s1 := AfterFirst();
    assert Tag(Y) == "y" && FindDuplicate(s1, Y, "y") == Ok(None);
    assert s1.store.Keys == {0};
    assert LeastFree({0}) == 1 by {
      assert LeastFreeFrom({0}, 1) == 1;
    }
    assert Target(s1, 1) == Ok((1, s1.hash));
  }

  /** Both indices after the second put are well-formed. */
  lemma AfterSecondValid()
    ensures AfterSecond().Valid()
  {
    var s2 := AfterSecond();
    assert "x"[0] != "y"[0];
    assert Distinct(s2.hash.order);
    assert Distinct(s2.addr.order);
  }

  lemma ThirdPut(s2: ProxyState)
    requires s2 == AfterSecond()
    ensures Put(s2, Tag(Y), 0, Y) == Step(Pass, AfterThird())
  {
    assert Tag(Y) == "y";
    assert FirstMatch([1], s2.store, Y) == Ok(Some(1));
    assert FindDuplicate(s2, Y, "y") == Ok(Some(1));
    assert s2.addr.CountLinks(0) == 1 by {
      assert ValuesOf([0, 1], s2.addr.data) == [0, 1];
    }
    AfterSecondValid();
    assert s2.addr.data[0] == 0 && 0 in s2.store;
    PutDeletingShape(s2, "y", 0, Y, 1);
    ThirdPutMaps();
    assert s2.(addr := s2.addr.Put(0, 1), store := s2.store - {0}) == AfterThird();
  }

  /** The two map updates of the third put, written out. */
  lemma ThirdPutMaps()
    ensures map[0 := 0, 1 := 1][0 := 1] == map[0 := 1, 1 := 1]
    ensures map[0 := X, 1 := Y] - {0} == map[1 := Y]
  {
    assert map[0 := 0, 1 := 1][0 := 1].Keys == {0, 1};
    assert (map[0 := X, 1 := Y] - {0}).Keys == {1};
  }

  /**
   * From a fresh proxy: put(0, X), put(1, Y), put(0, Y) deletes physical address 0 but leaves it
   * in X's bucket, so put(2, X) fails with KeyError although the state is consistent.
   */
  lemma StaleEntryBreaksLaterPut()
    ensures Run(Initial(), Tag, [(0, X), (1, Y), (0, Y)]) == AfterThird()
    ensures Consistent(AfterThird(), Tag)
    ensures Put(AfterThird(), Tag(X), 2, X).outcome == Fail(KeyError)
  {
    ThreePuts();
    RunFromInitialConsistent(Tag, [(0, X), (1, Y), (0, Y)]);
    StaleEntryRead(AfterThird());
  }

  /** The three puts of the scenario, run in order from a fresh proxy. */
  lemma ThreePuts()
    ensures Run(Initial(), Tag, [(0, X), (1, Y), (0, Y)]) == AfterThird()
  {
    var puts := [(0, X), (1, Y), (0, Y)];
    FirstPut();
    RunFirst(Initial(), Tag, puts);
    assert puts[1..] == [(1, Y), (0, Y)];
    SecondPut();
    RunFirst(AfterFirst(), Tag, puts[1..]);
    assert puts[1..][1..] == [(0, Y)];
    ThirdPut(AfterSecond());
    RunFirst(AfterSecond(), Tag, [(0, Y)]);
    assert [(0, Y)][1..] == [];
  }

  /** After the third put, X's bucket still lists the deleted address 0, and reading it raises. */
  lemma StaleEntryRead(s3: ProxyState)
    requires s3 == AfterThird()
    ensures Put(s3, Tag(X), 2, X).outcome == Fail(KeyError)
  {
    assert Tag(X) == "x";
    assert s3.hash.data["x"] == [0] && 0 !in s3.store;
    assert FirstMatch([0], s3.store, X) == Err(KeyError);
    assert FindDuplicate(s3, X, "x") == Err(KeyError);
  }

  /**
   * The duplicate branch as intended: when a's former block is deleted, its address is also
   * taken out of the first bucket that lists it, as the write branch does for a reused address.
   */
  function AliasIntended(s: ProxyState, a: int, q: int): Step
    requires s.Valid()
  {
    if a in s.addr.data && s.addr.CountLinks(s.addr.data[a]) == 1 && s.addr.data[a] != q then
      var prior := s.addr.data[a];
      if prior in s.store then
        var hash := match FirstBucketWith(s.hash.order, s.hash.data, prior)
                    case None => s.hash
                    case Some(k) => Detach(s.hash, k, prior);
        Step(Pass, s.(addr := s.addr.Put(a, q), hash := hash, store := s.store - {prior}))
      else
        Step(Fail(KeyError), s)
    else
      Step(Pass, s.(addr := s.addr.Put(a, q)))
  }

  /** put_data with the corrected duplicate branch. */
  function PutIntended(s: ProxyState, h: Digest, a: int, d: Bytes): Step
    requires s.Valid()
  {
    match FindDuplicate(s, d, h)
    case Err(e) => Step(Fail(e), s)
    case Ok(Some(q)) => AliasIntended(s, a, q)
    case Ok(None) => Write(s, h, a, d)
  }

  /**
   * Every bucket lists only stored addresses whose content has the bucket's digest, each once:
   * what the corrected put keeps on top of consistency.
   */
  ghost predicate Exact(buckets: map<Digest, seq<int>>, store: map<int, Bytes>, hasher: Bytes -> Digest) {
    && (forall k, i :: k in buckets && 0 <= i < |buckets[k]| ==>
          buckets[k][i] in store && hasher(store[buckets[k][i]]) == k)
    && (forall k :: k in buckets ==> Distinct(buckets[k]))
  }

  /** The invariant of the corrected proxy. */
  ghost predicate Sound(s: ProxyState, hasher: Bytes -> Digest) {
    Consistent(s, hasher) && Exact(s.hash.data, s.store, hasher)
  }

  lemma InitialSound(hasher: Bytes -> Digest)
    ensures Sound(Initial(), hasher)
  {
  }

  /** Detaching p from a bucket that lists it leaves p listed nowhere and every bucket exact without it. */
  lemma DetachExact(hash: Dict<Digest, seq<int>>, store: map<int, Bytes>, hasher: Bytes -> Digest, k: Digest, p: int)
    requires Exact(hash.data, store, hasher)
    requires k in hash.data && p in hash.data[k]
    ensures forall j :: j in Detach(hash, k, p).data ==> p !in Detach(hash, k, p).data[j]
    ensures Exact(Detach(hash, k, p).data, store - {p}, hasher)
  {
    var bucket := hash.data[k];
    var i :| 0 <= i < |bucket| && bucket[i] == p;
    assert hasher(store[p]) == k;
    var after := Detach(hash, k, p).data;
    if |bucket| > 1 {
      RemoveFirstOfDistinct(bucket, p);
    }
  }

  /** Filing p under h keeps the buckets exact when p was listed nowhere and now holds content with digest h. */
  lemma AttachExact(hash: Dict<Digest, seq<int>>, store: map<int, Bytes>, hasher: Bytes -> Digest, p: int, d: Bytes)
    requires Exact(hash.data, store - {p}, hasher)
    requires forall j :: j in hash.data ==> p !in hash.data[j]
    ensures Exact(Attach(hash, hasher(d), p).data, store[p := d], hasher)
  {
    var h := hasher(d);
    var after := Attach(hash, h, p).data;
    if h in hash.data {
      var bucket := hash.data[h];
      assert after[h] == bucket + [p];
      assert forall i :: 0 <= i < |bucket| ==> after[h][i] == bucket[i] && bucket[i] != p;
    }
  }

  /** In an exact state no bucket entry is missing from the storage, so the duplicate check never raises. */
  lemma ExactFindsWithoutError(s: ProxyState, hasher: Bytes -> Digest, d: Bytes)
    requires Exact(s.hash.data, s.store, hasher)
    ensures FindDuplicate(s, d, hasher(d)).Ok?
  {
  }

  /** Where the corrected duplicate branch finds a's former address listed: its content's bucket. */
  lemma AliasIntendedUnlists(s: ProxyState, hasher: Bytes -> Digest, a: int, q: int)
    requires Sound(s, hasher)
    requires a in s.addr.data && s.addr.CountLinks(s.addr.data[a]) == 1 && s.addr.data[a] != q
    ensures var prior := s.addr.data[a];
      AliasIntended(s, a, q) == Step(Pass, s.(addr := s.addr.Put(a, q),
                                             hash := Detach(s.hash, hasher(s.store[prior]), prior),
                                             store := s.store - {prior}))
  {
    var prior := s.addr.data[a];
    assert Filed(s.hash.data, hasher(s.store[prior]), prior);
    var i :| 0 <= i < |s.hash.order| && s.hash.order[i] == hasher(s.store[prior]);
    var k := FirstBucketWith(s.hash.order, s.hash.data, prior).value;
    assert prior in s.hash.data[k];
    var n :| 0 <= n < |s.hash.data[k]| && s.hash.data[k][n] == prior;
  }

  /** Deleting a's former block and unlisting it keeps the state sound. */
  lemma UnlistedDeletionKeepsSound(s: ProxyState, hasher: Bytes -> Digest, a: int, q: int)
    requires Sound(s, hasher) && q in s.store
    requires a in s.addr.data && s.addr.CountLinks(s.addr.data[a]) == 1 && s.addr.data[a] != q
    ensures var prior := s.addr.data[a];
      Sound(s.(addr := s.addr.Put(a, q), hash := Detach(s.hash, hasher(s.store[prior]), prior),
               store := s.store - {prior}), hasher)
  {
    var prior := s.addr.data[a];
    var k := hasher(s.store[prior]);
    assert Filed(s.hash.data, k, prior);
    AliasDeletingKeepsConsistent(s, hasher, a, q);
    var u := Alias(s, a, q).next;
    assert u == s.(addr := s.addr.Put(a, q), store := s.store - {prior});
    var t := u.(hash := Detach(s.hash, k, prior));
    DetachExact(s.hash, s.store, hasher, k, prior);
    assert AllFiled(u, hasher) && u.hash == s.hash;
    DetachFilesOthers(u.hash, k, prior, u.store, hasher);
    RefiledConsistent(u, t, hasher);
  }

  /** Replacing the hash index by a valid one that files every stored block keeps the state consistent. */
  lemma RefiledConsistent(u: ProxyState, t: ProxyState, hasher: Bytes -> Digest)
    requires Consistent(u, hasher) && t.addr == u.addr && t.store == u.store
    requires t.hash.Valid() && AllFiled(t, hasher)
    ensures Consistent(t, hasher)
  {
  }

  /** Writing new content at a free address keeps the buckets exact. */
  lemma WriteFreshKeepsExact(s: ProxyState, hasher: Bytes -> Digest, a: int, d: Bytes)
    requires Sound(s, hasher)
    requires a !in s.addr.data || s.addr.CountLinks(s.addr.data[a]) > 1
    ensures Exact(Write(s, hasher(d), a, d).next.hash.data, Write(s, hasher(d), a, d).next.store, hasher)
  {
    var p := LeastFree(s.store.Keys);
    assert s.store - {p} == s.store;
    AttachExact(s.hash, s.store, hasher, p, d);
  }

  /** Rewriting a's own block in place keeps the buckets exact. */
  lemma WriteInPlaceKeepsExact(s: ProxyState, hasher: Bytes -> Digest, a: int, d: Bytes)
    requires Sound(s, hasher)
    requires a in s.addr.data && s.addr.CountLinks(s.addr.data[a]) <= 1
    ensures Exact(Write(s, hasher(d), a, d).next.hash.data, Write(s, hasher(d), a, d).next.store, hasher)
  {
    TargetFound(s, hasher, a);
    var p := s.addr.data[a];
    var k := InPlaceShape(s, hasher(d), a, d);
    DetachExact(s.hash, s.store, hasher, k, p);
    AttachExact(Detach(s.hash, k, p), s.store, hasher, p, d);
  }

  /** The corrected put never fails from a sound state, and keeps it sound. */
  lemma PutIntendedKeepsSound(s: ProxyState, hasher: Bytes -> Digest, a: int, d: Bytes)
    requires Sound(s, hasher)
    ensures PutIntended(s, hasher(d), a, d).outcome == Pass
    ensures Sound(PutIntended(s, hasher(d), a, d).next, hasher)
  {
    ExactFindsWithoutError(s, hasher, d);
    TargetFound(s, hasher, a);
    match FindDuplicate(s, d, hasher(d))
    case Ok(Some(q)) =>
      if a in s.addr.data && s.addr.CountLinks(s.addr.data[a]) == 1 && s.addr.data[a] != q {
        AliasIntendedUnlists(s, hasher, a, q);
        UnlistedDeletionKeepsSound(s, hasher, a, q);
      } else {
        assert AliasIntended(s, a, q) == Alias(s, a, q);
        AliasSharingKeepsConsistent(s, hasher, a, q);
      }
    case Ok(None) =>
      NothingFoundMeansNew(s, hasher, d);
      if a !in s.addr.data || s.addr.CountLinks(s.addr.data[a]) > 1 {
        WriteFreshKeepsConsistent(s, hasher, a, d);
        WriteFreshKeepsExact(s, hasher, a, d);
      } else {
        WriteInPlaceKeepsConsistent(s, hasher, a, d);
        WriteInPlaceKeepsExact(s, hasher, a, d);
      }
  }

  /** The corrected put_data(a, d) from a sound state is read back by get_data(a) as d. */
  lemma PutIntendedThenGet(s: ProxyState, hasher: Bytes -> Digest, a: int, d: Bytes)
    requires Sound(s, hasher)
    ensures Get(PutIntended(s, hasher(d), a, d).next, a) == Ok(d)
  {
    ExactFindsWithoutError(s, hasher, d);
    var t := PutIntended(s, hasher(d), a, d).next;
    match FindDuplicate(s, d, hasher(d))
    case Ok(Some(q)) =>
      assert q in s.store && s.store[q] == d;
      assert t.addr.data[a] == q && q in t.store && t.store[q] == d;
    case Ok(None) =>
      TargetFound(s, hasher, a);
      var p := Target(s, a).value.0;
      assert t.addr.data[a] == p && t.store[p] == d;
  }
}
