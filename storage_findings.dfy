/**
 * The FileStorage that get_data evidently expects: init_blob records each container in the blobs
 * table, so a container is zeroed only the first time it is used, and put_data writes each block
 * right-aligned in its slot, padded on the left with '0' bytes to block_size, so that the last
 * meta_len bytes of the slot are the block again.
 */
module StorageFindings {
  import opened Types
  import opened Builtins
  import opened KeyValue
  import opened Storage
  import opened StorageProperties

  /** init_blob as intended: a new container is zeroed and recorded; a known one is left alone. */
  function InitBlobIntended(layout: Layout, st: FsState, blob: nat): (t: FsState)
    requires layout.Valid()
    ensures blob in t.blobs.data && t.meta == st.meta
    ensures blob in st.blobs.data ==> t == st
    ensures blob !in st.blobs.data ==> FileName(blob) in t.files && t.files[FileName(blob)] == InitialContainer(layout)
  {
    if blob in st.blobs.data then st
    else FsState(st.blobs.Put(blob, true), st.meta, st.files[FileName(blob) := InitialContainer(layout)])
  }

  /** The block_size bytes put_data writes for d: d right-aligned, '0' bytes in front. */
  function Padded(layout: Layout, d: Bytes): (p: Bytes)
    requires layout.Valid() && |d| <= layout.blockSize
    ensures |p| == layout.blockSize
    ensures SliceFrom(p, layout.blockSize - |d|) == d
  {
    RJust(d, layout.blockSize, ZERO)
  }

  /** put_data as intended: the same checks in the same order, then the padded block is copied in. */
  function PutIntended(layout: Layout, st: FsState, a: int, d: Bytes): FsStep
    requires layout.Valid()
  {
    match PhysicalAddress(a, layout.blobSize)
    case Err(e) => FsStep(Fail(e), st)
    case Ok((blob, block)) =>
      var st1 := InitBlobIntended(layout, st, blob);
      if |d| > layout.blockSize then
        FsStep(Fail(StorageBackendError("block_data is greater than allowed block_size")), st1)
      else if |d| > 0 && FileName(blob) !in st1.files then
        FsStep(Fail(FileNotFound(FileName(blob))), st1)
      else
        var files := if |d| > 0 then Rewrite(layout, st1.files, blob, block, Padded(layout, d)) else st1.files;
        FsStep(Pass, st1.(meta := st1.meta.Put(a, |d|), files := files))
  }

  /** Every recorded container has a full-size file. */
  ghost predicate ContainersFull(layout: Layout, blobs: map<int, bool>, files: map<string, Bytes>)
    requires layout.Valid()
  {
    && (forall blob :: blob in blobs ==> blob >= 0)
    && (forall blob: nat :: blob in blobs ==> FileName(blob) in files && |files[FileName(blob)]| == layout.ContainerSize())
  }

  /** Every address with a length is non-negative, lies in a recorded container and fits a slot. */
  ghost predicate LengthsPlaced(layout: Layout, blobs: map<int, bool>, meta: map<int, nat>)
    requires layout.Valid()
  {
    forall a :: a in meta ==>
      && a >= 0
      && PhysicalAddress(a, layout.blobSize).value.0 in blobs
      && meta[a] <= layout.blockSize
  }

  /** The state FileStorage keeps. */
  ghost predicate WellFormed(layout: Layout, st: FsState)
    requires layout.Valid()
  {
    ContainersFull(layout, st.blobs.data, st.files) && LengthsPlaced(layout, st.blobs.data, st.meta.data)
  }

  /** A new FileStorage has no containers and no lengths, whatever its directory holds. */
  lemma EmptyWellFormed(layout: Layout, files: map<string, Bytes>)
    requires layout.Valid()
    ensures WellFormed(layout, FsState(Dict(map[], []), Dict(map[], []), files))
  {
  }

  /** Distinct containers have distinct files. */
  lemma FileNameDistinct(b: nat, c: nat)
    requires b != c
    ensures FileName(b) != FileName(c)
  {
    if FileName(b) == FileName(c) {
      FileNameInjective(b, c);
    }
  }

  /** The intended init_blob keeps the state well formed and leaves a full container for blob. */
  lemma InitKeepsWellFormed(layout: Layout, st: FsState, blob: nat)
    requires layout.Valid() && WellFormed(layout, st)
    ensures var t := InitBlobIntended(layout, st, blob);
      WellFormed(layout, t) && FileName(blob) in t.files && |t.files[FileName(blob)]| == layout.ContainerSize()
  {
    var t := InitBlobIntended(layout, st, blob);
    if blob !in st.blobs.data {
      forall c: nat | c in t.blobs.data
        ensures FileName(c) in t.files && |t.files[FileName(c)]| == layout.ContainerSize()
      {
        if c != blob {
          FileNameDistinct(c, blob);
        }
      }
    }
  }

  /** Copying a full slot into a full container keeps its size and every other file. */
  lemma RewriteKeepsSize(layout: Layout, files: map<string, Bytes>, blob: nat, block: nat, p: Bytes)
    requires layout.Valid() && FileName(blob) in files && block < layout.blobSize
    requires |files[FileName(blob)]| == layout.ContainerSize() && |p| == layout.blockSize
    ensures Times(block, layout.blockSize) + layout.blockSize == Times(block + 1, layout.blockSize) <= layout.ContainerSize()
    ensures var name, r := FileName(blob), Rewrite(layout, files, blob, block, p);
      && name in r
      && r[name] == files[name][..Times(block, layout.blockSize)] + p + files[name][Times(block + 1, layout.blockSize)..]
      && |r[name]| == layout.ContainerSize()
      && forall n :: n in files && n != name && n != Aside(name) ==> n in r && r[n] == files[n]
  {
    SpliceAll(files[FileName(blob)], layout.blockSize, layout.blobSize, block, p);
    MulStep(block, layout.blockSize);
  }

  /** Copying a full slot into a recorded container keeps every recorded container full. */
  lemma RewriteKeepsFull(layout: Layout, blobs: map<int, bool>, files: map<string, Bytes>, blob: nat, block: nat, p: Bytes)
    requires layout.Valid() && ContainersFull(layout, blobs, files) && blob in blobs && block < layout.blobSize
    requires |p| == layout.blockSize
    ensures ContainersFull(layout, blobs, Rewrite(layout, files, blob, block, p))
  {
    var r := Rewrite(layout, files, blob, block, p);
    RewriteKeepsSize(layout, files, blob, block, p);
    forall c: nat | c in blobs
      ensures FileName(c) in r && |r[FileName(c)]| == layout.ContainerSize()
    {
      AsideIsNoContainer(blob, c);
      if c != blob {
        FileNameDistinct(c, blob);
      }
    }
  }

  /**
   * Once each container is initialised, the intended put_data of an accepted block records its
   * length and, for a non-empty block, copies the padded block into its slot.
   */
  lemma IntendedNext(layout: Layout, st: FsState, a: int, d: Bytes)
    requires layout.Valid() && WellFormed(layout, st)
    requires a >= 0 && |d| <= layout.blockSize
    ensures var blob, block := PhysicalAddress(a, layout.blobSize).value.0, PhysicalAddress(a, layout.blobSize).value.1;
      var st1 := InitBlobIntended(layout, st, blob);
      && WellFormed(layout, st1)
      && FileName(blob) in st1.files && |st1.files[FileName(blob)]| == layout.ContainerSize()
      && PutIntended(layout, st, a, d)
         == FsStep(Pass, FsState(st1.blobs, st.meta.Put(a, |d|),
                                 if |d| > 0 then Rewrite(layout, st1.files, blob, block, Padded(layout, d)) else st1.files))
  {
    InitKeepsWellFormed(layout, st, PhysicalAddress(a, layout.blobSize).value.0);
  }

  /** The intended put_data fails exactly on a negative address or an oversized block. */
  lemma IntendedOutcome(layout: Layout, st: FsState, a: int, d: Bytes)
    requires layout.Valid() && WellFormed(layout, st)
    ensures PutIntended(layout, st, a, d).outcome
         == if a < 0 then Fail(StorageBackendError(""))
            else if |d| > layout.blockSize then Fail(StorageBackendError("block_data is greater than allowed block_size"))
            else Pass
  {
    if a >= 0 && |d| <= layout.blockSize {
      IntendedNext(layout, st, a, d);
    }
  }

  /** The intended put_data keeps the state well formed, also when it fails. */
  lemma IntendedKeepsWellFormed(layout: Layout, st: FsState, a: int, d: Bytes)
    requires layout.Valid() && WellFormed(layout, st)
    ensures WellFormed(layout, PutIntended(layout, st, a, d).next)
  {
    if a >= 0 {
      var blob, block := PhysicalAddress(a, layout.blobSize).value.0, PhysicalAddress(a, layout.blobSize).value.1;
      var st1 := InitBlobIntended(layout, st, blob);
      InitKeepsWellFormed(layout, st, blob);
      if |d| <= layout.blockSize {
        IntendedNext(layout, st, a, d);
        RecordKeepsPlaced(layout, st1.blobs.data, st1.meta.data, a, |d|);
        if |d| > 0 {
          RewriteKeepsFull(layout, st1.blobs.data, st1.files, blob, block, Padded(layout, d));
        }
      }
    }
  }

  /** Recording a fitting length for an address of a recorded container keeps every length placed. */
  lemma RecordKeepsPlaced(layout: Layout, blobs: map<int, bool>, meta: map<int, nat>, a: int, len: nat)
    requires layout.Valid() && LengthsPlaced(layout, blobs, meta)
    requires a >= 0 && PhysicalAddress(a, layout.blobSize).value.0 in blobs && len <= layout.blockSize
    ensures LengthsPlaced(layout, blobs, meta[a := len])
  {
  }

  /** The intended put_data is read back by the next get_data, short blocks and empty ones included. */
  lemma IntendedRoundTrip(layout: Layout, st: FsState, a: int, d: Bytes)
    requires layout.Valid() && WellFormed(layout, st)
    requires a >= 0 && |d| <= layout.blockSize
    ensures Get(layout, PutIntended(layout, st, a, d).next, a) == Ok(d)
  {
    var bs, n := layout.blockSize, layout.blobSize;
    var blob, block := PhysicalAddress(a, n).value.0, PhysicalAddress(a, n).value.1;
    var st1 := InitBlobIntended(layout, st, blob);
    var name := FileName(blob);
    IntendedNext(layout, st, a, d);
    var t := PutIntended(layout, st, a, d).next;
    if |d| > 0 {
      var p := Padded(layout, d);
      RewriteKeepsSize(layout, st1.files, blob, block, p);
      MulStep(block, bs);
      SlotOfSplice(st1.files[name], Times(block, bs), p);
      GetCases(layout, t, a, blob, block);
    } else {
      GetCases(layout, t, a, blob, block);
    }
  }

  /** The bytes read at a slot spliced with p are p. */
  lemma SlotOfSplice(f: Bytes, o: nat, p: Bytes)
    requires o + |p| <= |f|
    ensures ReadAt(f[..o] + p + f[o + |p|..], o, |p|) == p
  {
    var g := f[..o] + p + f[o + |p|..];
    assert g[o..o + |p|] == p;
  }

  /** The intended put_data changes what no other address reads. */
  lemma IntendedKeepsOthers(layout: Layout, st: FsState, a: int, d: Bytes, b: int)
    requires layout.Valid() && WellFormed(layout, st) && b != a
    ensures Get(layout, PutIntended(layout, st, a, d).next, b) == Get(layout, st, b)
  {
    var t := PutIntended(layout, st, a, d).next;
    if a < 0 {
      assert t == st;
    } else if b !in st.meta.data {
      IntendedKeepsLengths(layout, st, a, d);
      assert b !in t.meta.data;
    } else {
      var blobB, blockB := PhysicalAddress(b, layout.blobSize).value.0, PhysicalAddress(b, layout.blobSize).value.1;
      IntendedKeepsLengths(layout, st, a, d);
      IntendedKeepsSlot(layout, st, a, d, blobB, blockB, b);
      SameRead(layout, st, t, b, blobB, blockB);
    }
  }

  /** The intended put_data records no length but a's. */
  lemma IntendedKeepsLengths(layout: Layout, st: FsState, a: int, d: Bytes)
    requires layout.Valid()
    ensures var t := PutIntended(layout, st, a, d).next;
      forall b :: b != a ==> (b in t.meta.data <==> b in st.meta.data) && (b in st.meta.data ==> t.meta.data[b] == st.meta.data[b])
  {
    IntendedMeta(layout, st, a, d);
  }

  /** The intended put records the block's length at a, or leaves the lengths as they were. */
  lemma IntendedMeta(layout: Layout, st: FsState, a: int, d: Bytes)
    requires layout.Valid()
    ensures PutIntended(layout, st, a, d).next.meta.data in {st.meta.data, st.meta.data[a := |d|]}
  {
    var t := PutIntended(layout, st, a, d).next;
    if a >= 0 {
      var blob := PhysicalAddress(a, layout.blobSize).value.0;
      var st1 := InitBlobIntended(layout, st, blob);
      if |d| > layout.blockSize || (|d| > 0 && FileName(blob) !in st1.files) {
        assert t == st1;
      } else {
        assert t.meta == st.meta.Put(a, |d|);
      }
    }
  }

  /** The intended init_blob keeps every recorded container's file. */
  lemma InitKeepsFile(layout: Layout, st: FsState, blob: nat, other: nat)
    requires layout.Valid() && ContainersFull(layout, st.blobs.data, st.files) && other in st.blobs.data
    ensures var st1 := InitBlobIntended(layout, st, blob);
      FileName(other) in st.files && FileName(other) in st1.files && st1.files[FileName(other)] == st.files[FileName(other)]
  {
    var st1 := InitBlobIntended(layout, st, blob);
    if blob !in st.blobs.data {
      assert other != blob;
      FileNameDistinct(other, blob);
      UpdateKeepsOther(st.files, FileName(blob), InitialContainer(layout), FileName(other));
    }
  }

  /** Setting one file leaves every other file as it was. */
  lemma UpdateKeepsOther(files: map<string, Bytes>, name: string, c: Bytes, other: string)
    requires other in files && other != name
    ensures other in files[name := c] && files[name := c][other] == files[other]
  {
  }

  /** The intended put_data at a leaves the bytes of every other slot of a recorded container. */
  lemma IntendedKeepsSlot(layout: Layout, st: FsState, a: int, d: Bytes, blob: nat, block: nat, b: int)
    requires layout.Valid() && WellFormed(layout, st) && a >= 0
    requires b in st.meta.data && b != a && PhysicalAddress(b, layout.blobSize) == Ok((blob, block))
    ensures var t, name := PutIntended(layout, st, a, d).next, FileName(blob);
      && name in st.files && name in t.files
      && ReadAt(t.files[name], Times(block, layout.blockSize), layout.blockSize)
         == ReadAt(st.files[name], Times(block, layout.blockSize), layout.blockSize)
  {
    var bs, n := layout.blockSize, layout.blobSize;
    var blobA, blockA := PhysicalAddress(a, n).value.0, PhysicalAddress(a, n).value.1;
    var st1 := InitBlobIntended(layout, st, blobA);
    var t := PutIntended(layout, st, a, d).next;
    InitKeepsFile(layout, st, blobA, blob);
    if |d| > bs {
      assert t == st1;
    } else {
      InitKeepsWellFormed(layout, st, blobA);
      IntendedNext(layout, st, a, d);
      if |d| > 0 {
        assert blob == blobA ==> block != blockA;
        RewriteKeepsSlot(layout, st1.blobs.data, st1.files, blobA, blockA, Padded(layout, d), blob, block);
      }
    }
  }

  /** Copying a full slot into a full container keeps the bytes of every other slot of every recorded container. */
  lemma RewriteKeepsSlot(layout: Layout, blobs: map<int, bool>, files: map<string, Bytes>, blob: nat, block: nat, p: Bytes,
                         other: nat, slot: nat)
    requires layout.Valid() && ContainersFull(layout, blobs, files) && blob in blobs && other in blobs
    requires block < layout.blobSize && slot < layout.blobSize && |p| == layout.blockSize
    requires other == blob ==> slot != block
    ensures var r, name := Rewrite(layout, files, blob, block, p), FileName(other);
      name in files && name in r
      && ReadAt(r[name], Times(slot, layout.blockSize), layout.blockSize)
         == ReadAt(files[name], Times(slot, layout.blockSize), layout.blockSize)
  {
    RewriteKeepsSize(layout, files, blob, block, p);
    if other == blob {
      SpliceKeepsSlot(files[FileName(blob)], layout.blockSize, layout.blobSize, block, p, slot);
    } else {
      FileNameDistinct(other, blob);
      AsideIsNoContainer(blob, other);
    }
  }

  /** Two states with the same length and the same slot bytes for b give the same get_data for b. */
  lemma SameRead(layout: Layout, s: FsState, t: FsState, b: int, blob: nat, block: nat)
    requires layout.Valid() && b in s.meta.data && PhysicalAddress(b, layout.blobSize) == Ok((blob, block))
    requires b in t.meta.data && t.meta.data[b] == s.meta.data[b]
    requires FileName(blob) in s.files && FileName(blob) in t.files
    requires ReadAt(t.files[FileName(blob)], Times(block, layout.blockSize), layout.blockSize)
          == ReadAt(s.files[FileName(blob)], Times(block, layout.blockSize), layout.blockSize)
    ensures Get(layout, t, b) == Get(layout, s, b)
  {
    GetCases(layout, s, b, blob, block);
    GetCases(layout, t, b, blob, block);
  }

  /** Copying a full slot into a full container leaves every other slot as it was. */
  lemma SpliceKeepsSlot(f: Bytes, bs: nat, n: nat, block: nat, p: Bytes, other: nat)
    requires |f| == Times(n, bs) && block < n && other < n && other != block && |p| == bs
    ensures Times(block + 1, bs) <= |f|
    ensures ReadAt(f[..Times(block, bs)] + p + f[Times(block + 1, bs)..], Times(other, bs), bs)
         == ReadAt(f, Times(other, bs), bs)
  {
    SpliceSlot(f, bs, n, block, p, other);
    MulStep(other, bs);
  }
}
