/**
 * What put_data and get_data do as written, including two ways in which a block written is not
 * the block read back, and the corrected put_data that pads each block to a full slot and
 * initialises each container only once, with its round trip proved.
 */
module StorageProperties {
  import opened Types
  import opened Builtins
  import opened KeyValue
  import opened Storage

  /** Slices of a run of '0' bytes are runs of '0' bytes. */
  lemma ZerosSlices(n: nat, lo: nat, hi: nat)
    requires lo <= hi <= n
    ensures Zeros(n)[..lo] == Zeros(lo) && Zeros(n)[hi..] == Zeros(n - hi) && Zeros(n)[lo..hi] == Zeros(hi - lo)
  {
  }

  /** As written, put_data never records a container in the blobs table, so the table stays empty. */
  lemma PutKeepsBlobs(layout: Layout, st: FsState, a: int, d: Bytes)
    requires layout.Valid()
    ensures Put(layout, st, a, d).next.blobs == st.blobs
  {
  }

  /** As written, put_data fails exactly on a negative address or an oversized block. */
  lemma PutOutcome(layout: Layout, st: FsState, a: int, d: Bytes)
    requires layout.Valid() && st.blobs.data == map[]
    ensures Put(layout, st, a, d).outcome
         == if a < 0 then Fail(StorageBackendError(""))
            else if |d| > layout.blockSize then Fail(StorageBackendError("block_data is greater than allowed block_size"))
            else Pass
  {
  }

  /**
   * As written, a put rewrites a's whole container: every slot but a's reads as '0' afterwards,
   * whatever was stored there before, and meta_len records the new length.
   */
  lemma PutRewritesContainer(layout: Layout, st: FsState, a: int, d: Bytes)
    requires layout.Valid() && st.blobs.data == map[]
    requires a >= 0 && |d| <= layout.blockSize
    ensures var blob, block, t := PhysicalAddress(a, layout.blobSize).value.0, PhysicalAddress(a, layout.blobSize).value.1, Put(layout, st, a, d).next;
      && t.meta == st.meta.Put(a, |d|)
      && FileName(blob) in t.files
      && t.files[FileName(blob)]
         == (if |d| > 0 then Zeros(Times(block, layout.blockSize)) + d + Zeros(Times(layout.blobSize - block - 1, layout.blockSize))
             else InitialContainer(layout))
  {
    var blob, block := PhysicalAddress(a, layout.blobSize).value.0, PhysicalAddress(a, layout.blobSize).value.1;
    var zeroed := st.files[FileName(blob) := InitialContainer(layout)];
    var t := Put(layout, st, a, d).next;
    PutShape(layout, st, a, d);
    if |d| > 0 {
      assert t.files == Rewrite(layout, zeroed, blob, block, d);
      RewrittenZeroed(layout, st.files, blob, block, d, t.files);
    } else {
      assert t.files == zeroed;
    }
  }

  /** As written, a put changes no file but a's container and its moved-aside copy. */
  lemma PutKeepsOtherFiles(layout: Layout, st: FsState, a: int, d: Bytes)
    requires layout.Valid() && st.blobs.data == map[]
    requires a >= 0 && |d| <= layout.blockSize
    ensures var name, t := FileName(PhysicalAddress(a, layout.blobSize).value.0), Put(layout, st, a, d).next;
      forall n :: n in st.files && n != name && n != Aside(name) ==> n in t.files && t.files[n] == st.files[n]
  {
    var blob, block := PhysicalAddress(a, layout.blobSize).value.0, PhysicalAddress(a, layout.blobSize).value.1;
    var zeroed := st.files[FileName(blob) := InitialContainer(layout)];
    var t := Put(layout, st, a, d).next;
    PutShape(layout, st, a, d);
    if |d| > 0 {
      assert t.files == Rewrite(layout, zeroed, blob, block, d);
      RewrittenZeroed(layout, st.files, blob, block, d, t.files);
    } else {
      assert t.files == zeroed;
    }
  }

  /** Copying a block into a freshly zeroed container leaves '0' bytes around it and every other file as it was. */
  lemma RewrittenZeroed(layout: Layout, files: map<string, Bytes>, blob: nat, block: nat, d: Bytes, out: map<string, Bytes>)
    requires layout.Valid() && block < layout.blobSize
    requires out == Rewrite(layout, files[FileName(blob) := InitialContainer(layout)], blob, block, d)
    ensures FileName(blob) in out
    ensures out[FileName(blob)]
         == Zeros(Times(block, layout.blockSize)) + d + Zeros(Times(layout.blobSize - block - 1, layout.blockSize))
    ensures forall n :: n in files && n != FileName(blob) && n != Aside(FileName(blob)) ==> n in out && out[n] == files[n]
  {
    var zeroed := files[FileName(blob) := InitialContainer(layout)];
    RewriteFiles(layout, zeroed, blob, block, d);
    ZeroContainerSplice(layout, block, d);
  }

  /** The copy replaces the container, drops its moved-aside copy and keeps every other file. */
  lemma RewriteFiles(layout: Layout, files: map<string, Bytes>, blob: nat, block: nat, d: Bytes)
    requires layout.Valid() && FileName(blob) in files
    ensures var r, name := Rewrite(layout, files, blob, block, d), FileName(blob);
      && name in r && r[name] == Rebuilt(files[name], layout.blockSize, layout.blobSize, block, d)
      && Aside(name) !in r
      && forall n :: n in files && n != name && n != Aside(name) ==> n in r && r[n] == files[n]
  {
    AsideIsNoContainer(blob, blob);
  }

  /** As written, an accepted put always starts from a freshly zeroed container. */
  lemma PutShape(layout: Layout, st: FsState, a: int, d: Bytes)
    requires layout.Valid() && st.blobs.data == map[]
    requires a >= 0 && |d| <= layout.blockSize
    ensures var blob, block := PhysicalAddress(a, layout.blobSize).value.0, PhysicalAddress(a, layout.blobSize).value.1;
      var zeroed := st.files[FileName(blob) := InitialContainer(layout)];
      Put(layout, st, a, d)
      == FsStep(Pass, FsState(st.blobs, st.meta.Put(a, |d|),
                              if |d| > 0 then Rewrite(layout, zeroed, blob, block, d) else zeroed))
  {
  }

  /** Splicing a block into a zeroed container leaves '0' bytes on both sides of it. */
  lemma ZeroContainerSplice(layout: Layout, block: nat, d: Bytes)
    requires layout.Valid() && block < layout.blobSize
    ensures Rebuilt(InitialContainer(layout), layout.blockSize, layout.blobSize, block, d)
         == Zeros(Times(block, layout.blockSize)) + d + Zeros(Times(layout.blobSize - block - 1, layout.blockSize))
  {
    var bs, n := layout.blockSize, layout.blobSize;
    var z := InitialContainer(layout);
    SpliceAll(z, bs, n, block, d);
    TimesAdd(block + 1, n - block - 1, bs);
    TimesMono(block, block + 1, bs);
    ZerosSlices(|z|, Times(block, bs), Times(block + 1, bs));
  }

  /** The slot i of a container splice: `p` at the spliced slot, the old bytes elsewhere. */
  lemma SpliceSlot(src: Bytes, blockSize: nat, n: nat, block: nat, p: Bytes, i: nat)
    requires |src| == Times(n, blockSize) && block < n && i < n && |p| == blockSize
    ensures Times(i + 1, blockSize) <= |src| && Times(block + 1, blockSize) <= |src|
    ensures var f := src[..Times(block, blockSize)] + p + src[Times(block + 1, blockSize)..];
      |f| == |src| &&
      f[Times(i, blockSize)..Times(i + 1, blockSize)]
      == if i == block then p else src[Times(i, blockSize)..Times(i + 1, blockSize)]
  {
    TimesMono(i + 1, n, blockSize);
    TimesMono(block + 1, n, blockSize);
    var b0, b1, lo, hi := Times(block, blockSize), Times(block + 1, blockSize), Times(i, blockSize), Times(i + 1, blockSize);
    var f := src[..b0] + p + src[b1..];
    if i < block {
      TimesMono(i + 1, block, blockSize);
      assert f[lo..hi] == src[..b0][lo..hi];
    } else if i > block {
      TimesMono(block + 1, i, blockSize);
      assert f[lo..hi] == src[b1..][lo - b1..hi - b1];
    } else {
      assert f[lo..hi] == p;
    }
  }

  /** As written, a full-size block is read back unchanged by the next get_data. */
  lemma FullBlockRoundTrip(layout: Layout, st: FsState, a: int, d: Bytes)
    requires layout.Valid() && st.blobs.data == map[]
    requires a >= 0 && |d| == layout.blockSize
    ensures Get(layout, Put(layout, st, a, d).next, a) == Ok(d)
  {
    var blob, block := PhysicalAddress(a, layout.blobSize).value.0, PhysicalAddress(a, layout.blobSize).value.1;
    WrittenContainer(layout, st, a, d);
    FullSlotReads(layout, Put(layout, st, a, d).next, a, blob, block, d);
  }

  /** get_data at the slot a full block was copied into returns the block. */
  lemma FullSlotReads(layout: Layout, t: FsState, a: int, blob: nat, block: nat, d: Bytes)
    requires layout.Valid() && PhysicalAddress(a, layout.blobSize) == Ok((blob, block))
    requires |d| == layout.blockSize && a in t.meta.data && t.meta.data[a] == |d| && FileName(blob) in t.files
    requires t.files[FileName(blob)] == Rebuilt(InitialContainer(layout), layout.blockSize, layout.blobSize, block, d)
    ensures Get(layout, t, a) == Ok(d)
  {
    var bs, n := layout.blockSize, layout.blobSize;
    var z := InitialContainer(layout);
    var c := Rebuilt(z, bs, n, block, d);
    SpliceAll(z, bs, n, block, d);
    SpliceSlot(z, bs, n, block, d, block);
    MulStep(block, bs);
    assert ReadAt(c, Times(block, bs), bs) == d;
    GetCases(layout, t, a, blob, block);
  }

  /** As written, after an accepted non-empty put its container is the zeroed container with the block copied in. */
  lemma WrittenContainer(layout: Layout, st: FsState, a: int, d: Bytes)
    requires layout.Valid() && st.blobs.data == map[]
    requires a >= 0 && 0 < |d| <= layout.blockSize
    ensures var blob, block := PhysicalAddress(a, layout.blobSize).value.0, PhysicalAddress(a, layout.blobSize).value.1;
      var t := Put(layout, st, a, d).next;
      FileName(blob) in t.files
      && t.files[FileName(blob)] == Rebuilt(InitialContainer(layout), layout.blockSize, layout.blobSize, block, d)
      && t.meta == st.meta.Put(a, |d|)
  {
    PutShape(layout, st, a, d);
  }

  /**
   * As written, a short block that is not in its container's last slot is read back as the tail
   * of the block followed by the '0' bytes of the next slot: the block is written unpadded at the
   * front of the slot, and get_data takes the slot's last meta_len bytes.
   */
  lemma ShortBlockReadsPadding(layout: Layout, st: FsState, a: int, d: Bytes)
    requires layout.Valid() && st.blobs.data == map[]
    requires a >= 0 && 0 < |d| < layout.blockSize && PhysicalAddress(a, layout.blobSize).value.1 + 1 < layout.blobSize
    ensures Get(layout, Put(layout, st, a, d).next, a)
         == Ok(SliceFrom(d + Zeros(layout.blockSize - |d|), layout.blockSize - |d|))
  {
    var n := layout.blobSize;
    var blob, block := PhysicalAddress(a, n).value.0, PhysicalAddress(a, n).value.1;
    var t := Put(layout, st, a, d).next;
    ShortBlockWritten(layout, st, a, d, blob, block, t);
    ZeroedSlotReads(layout, t, a, blob, block, d);
  }

  /** A short block of at most half a slot, not in its container's last slot, reads back as '0' bytes only. */
  lemma ShortBlockReadsZeros(layout: Layout, st: FsState, a: int, d: Bytes)
    requires layout.Valid() && st.blobs.data == map[]
    requires a >= 0 && 0 < |d| <= layout.blockSize - |d| && PhysicalAddress(a, layout.blobSize).value.1 + 1 < layout.blobSize
    ensures Get(layout, Put(layout, st, a, d).next, a) == Ok(Zeros(|d|))
  {
    var n := layout.blobSize;
    var blob, block := PhysicalAddress(a, n).value.0, PhysicalAddress(a, n).value.1;
    var t := Put(layout, st, a, d).next;
    ShortBlockWritten(layout, st, a, d, blob, block, t);
    ZeroedSlotReadsZeros(layout, t, a, blob, block, d);
  }

  /** Into an empty directory, a block is written at its slot of a container of '0' bytes. */
  lemma ShortBlockWritten(layout: Layout, st: FsState, a: int, d: Bytes, blob: nat, block: nat, t: FsState)
    requires layout.Valid() && st.blobs.data == map[]
    requires a >= 0 && 0 < |d| <= layout.blockSize && PhysicalAddress(a, layout.blobSize) == Ok((blob, block))
    requires t == Put(layout, st, a, d).next
    ensures a in t.meta.data && t.meta.data[a] == |d| && FileName(blob) in t.files
    ensures t.files[FileName(blob)]
         == Zeros(Times(block, layout.blockSize)) + d + Zeros(Times(layout.blobSize - block - 1, layout.blockSize))
  {
    WrittenContainer(layout, st, a, d);
    ZeroContainerSplice(layout, block, d);
  }

  /** The last |d| of d followed by at least |d| '0' bytes are '0' bytes. */
  lemma TailOfPadding(d: Bytes, bs: nat)
    requires |d| <= bs - |d|
    ensures SliceFrom(d + Zeros(bs - |d|), bs - |d|) == Zeros(|d|)
  {
    var k := bs - |d|;
    assert SliceFrom(d + Zeros(k), k) == (d + Zeros(k))[k..];
    assert (d + Zeros(k))[k..] == Zeros(k)[k - |d|..];
    assert Zeros(k)[k - |d|..] == Zeros(|d|);
  }

  /** get_data on a container that is '0' bytes around a short block at a's slot. */
  lemma ZeroedSlotReads(layout: Layout, t: FsState, a: int, blob: nat, block: nat, d: Bytes)
    requires layout.Valid() && PhysicalAddress(a, layout.blobSize) == Ok((blob, block))
    requires |d| < layout.blockSize && block + 1 < layout.blobSize
    requires a in t.meta.data && t.meta.data[a] == |d| && FileName(blob) in t.files
    requires t.files[FileName(blob)]
          == Zeros(Times(block, layout.blockSize)) + d + Zeros(Times(layout.blobSize - block - 1, layout.blockSize))
    ensures Get(layout, t, a) == Ok(SliceFrom(d + Zeros(layout.blockSize - |d|), layout.blockSize - |d|))
  {
    var slot := d + Zeros(layout.blockSize - |d|);
    PaddedContainerSlot(layout, t.files[FileName(blob)], block, d);
    GetFound(layout, t, a, blob, block, slot, |d|, SliceFrom(slot, layout.blockSize - |d|));
  }

  /** The same container, when the block is at most half a slot: get_data returns '0' bytes only. */
  lemma ZeroedSlotReadsZeros(layout: Layout, t: FsState, a: int, blob: nat, block: nat, d: Bytes)
    requires layout.Valid() && PhysicalAddress(a, layout.blobSize) == Ok((blob, block))
    requires |d| <= layout.blockSize - |d| && block + 1 < layout.blobSize
    requires a in t.meta.data && t.meta.data[a] == |d| && FileName(blob) in t.files
    requires t.files[FileName(blob)]
          == Zeros(Times(block, layout.blockSize)) + d + Zeros(Times(layout.blobSize - block - 1, layout.blockSize))
    ensures Get(layout, t, a) == Ok(Zeros(|d|))
  {
    var slot := d + Zeros(layout.blockSize - |d|);
    PaddedContainerSlot(layout, t.files[FileName(blob)], block, d);
    TailOfPadding(d, layout.blockSize);
    GetFound(layout, t, a, blob, block, slot, |d|, Zeros(|d|));
  }

  /** In a container of '0' bytes around a short block, the block's slot reads as the block padded with '0'. */
  lemma PaddedContainerSlot(layout: Layout, c: Bytes, block: nat, d: Bytes)
    requires layout.Valid() && |d| < layout.blockSize && block + 1 < layout.blobSize
    requires c == Zeros(Times(block, layout.blockSize)) + d + Zeros(Times(layout.blobSize - block - 1, layout.blockSize))
    ensures ReadAt(c, Times(block, layout.blockSize), layout.blockSize) == d + Zeros(layout.blockSize - |d|)
  {
    var bs, n := layout.blockSize, layout.blobSize;
    TimesMono(1, n - block - 1, bs);
    PaddedSlot(Times(block, bs), d, Times(n - block - 1, bs), bs);
  }

  /** Reading a slot whose short block is followed by '0' bytes reads the block and then '0' bytes. */
  lemma PaddedSlot(o: nat, d: Bytes, rest: nat, bs: nat)
    requires |d| <= bs <= |d| + rest
    ensures ReadAt(Zeros(o) + d + Zeros(rest), o, bs) == d + Zeros(bs - |d|)
  {
    var c := Zeros(o) + d + Zeros(rest);
    assert c[o..] == d + Zeros(rest);
    assert c[o..o + bs] == c[o..][..bs];
    assert (d + Zeros(rest))[..bs] == d + Zeros(rest)[..bs - |d|];
  }

  /**
   * The test suite's layout (blocks of 16 bytes, containers of 8) and block: "abcd" put at
   * address 3 is read back as "0000".
   */
  lemma ShortBlockInTestLayout(layout: Layout, st: FsState)
    requires layout.blockSize == 16 && layout.blobSize == 8 && st.blobs.data == map[]
    ensures Get(layout, Put(layout, st, 3, [97, 98, 99, 100]).next, 3) == Ok(Zeros(4))
  {
    var abcd: Bytes := [97, 98, 99, 100];
    assert PhysicalAddress(3, layout.blobSize).value.1 == 3;
    ShortBlockReadsZeros(layout, st, 3, abcd);
  }

  /**
   * As written, a put to any slot of a container erases the other slots: a block stored at a
   * reads as '0' bytes once another address of the same container has been written.
   */
  lemma LaterPutErasesNeighbour(layout: Layout, st: FsState, a: int, b: int, d: Bytes)
    requires layout.Valid() && st.blobs.data == map[]
    requires a >= 0 && b >= 0 && a != b && PhysicalAddress(a, layout.blobSize).value.0 == PhysicalAddress(b, layout.blobSize).value.0
    requires a in st.meta.data && st.meta.data[a] <= layout.blockSize
    requires |d| == layout.blockSize
    ensures Get(layout, Put(layout, st, b, d).next, a) == Ok(Zeros(st.meta.data[a]))
  {
    var n := layout.blobSize;
    var blob, blockA, blockB := PhysicalAddress(a, n).value.0, PhysicalAddress(a, n).value.1, PhysicalAddress(b, n).value.1;
    SameContainerOtherSlot(a, b, n);
    WrittenContainer(layout, st, b, d);
    OtherSlotReads(layout, Put(layout, st, b, d).next, a, blob, blockA, blockB, d);
  }

  /** Two logical addresses in one container sit in different slots. */
  lemma SameContainerOtherSlot(a: int, b: int, n: int)
    requires n > 0 && a >= 0 && b >= 0 && a != b
    requires PhysicalAddress(a, n).value.0 == PhysicalAddress(b, n).value.0
    ensures PhysicalAddress(a, n).value.1 != PhysicalAddress(b, n).value.1
  {
  }

  /** get_data at a slot of a zeroed container other than the one a full block was copied into. */
  lemma OtherSlotReads(layout: Layout, t: FsState, a: int, blob: nat, block: nat, other: nat, d: Bytes)
    requires layout.Valid() && PhysicalAddress(a, layout.blobSize) == Ok((blob, block))
    requires other < layout.blobSize && other != block && |d| == layout.blockSize
    requires a in t.meta.data && t.meta.data[a] <= layout.blockSize && FileName(blob) in t.files
    requires t.files[FileName(blob)] == Rebuilt(InitialContainer(layout), layout.blockSize, layout.blobSize, other, d)
    ensures Get(layout, t, a) == Ok(Zeros(t.meta.data[a]))
  {
    var bs := layout.blockSize;
    ZeroedSlot(layout, block, other, d);
    SuffixOfZeros(bs, t.meta.data[a]);
    GetFound(layout, t, a, blob, block, Zeros(bs), t.meta.data[a], Zeros(t.meta.data[a]));
  }

  /** The last m of n '0' bytes are m '0' bytes. */
  lemma SuffixOfZeros(n: nat, m: nat)
    requires m <= n
    ensures SliceFrom(Zeros(n), n - m) == Zeros(m)
  {
    ZerosSlices(n, n - m, n);
  }

  /** In a zeroed container with a full block copied in, every other slot is still '0' bytes. */
  lemma ZeroedSlot(layout: Layout, block: nat, other: nat, d: Bytes)
    requires layout.Valid() && block < layout.blobSize && other < layout.blobSize && other != block
    requires |d| == layout.blockSize
    ensures ReadAt(Rebuilt(InitialContainer(layout), layout.blockSize, layout.blobSize, other, d), Times(block, layout.blockSize), layout.blockSize)
         == Zeros(layout.blockSize)
  {
    var bs, n := layout.blockSize, layout.blobSize;
    var z := InitialContainer(layout);
    var c := Rebuilt(z, bs, n, other, d);
    SpliceAll(z, bs, n, other, d);
    SpliceSlot(z, bs, n, other, d, block);
    MulStep(block, bs);
    var lo, hi := Times(block, bs), Times(block + 1, bs);
    assert hi == lo + bs && hi <= |c| == |z|;
    assert c[lo..hi] == z[lo..hi];
    ZerosSlices(|z|, lo, hi);
  }

  /** One more factor adds m. */
  lemma MulStep(i: nat, m: nat)
    ensures Times(i + 1, m) == Times(i, m) + m
  {
  }
}
