/**
 * FileStorage (blob/backends/storage.py): blocks of at most block_size bytes kept in container
 * files ("blobs") of blob_size block slots each. Logical address a lives in container
 * a // blob_size at slot a % blob_size; a table meta_len records the length of each block written.
 * The directory holding the containers is a map from file name to contents.
 */
module Storage {
  import opened Types
  import opened Builtins
  import opened KeyValue

  /** The byte '0', which fills a fresh container. */
  const ZERO: byte := 48

  /** Block and container sizes. */
  datatype Layout = Layout(blockSize: int, blobSize: int) {
    predicate Valid() {
      blockSize > 0 && blobSize > 0
    }

    /** The length of a full container: blob_size slots of block_size bytes. */
    function ContainerSize(): nat
      requires Valid()
    {
      Times(blobSize, blockSize)
    }
  }

  /** The constructor's argument checks: block size first, then container size. */
  function CheckLayout(blockSize: int, blobSize: int): (r: Result<Layout>)
    ensures r.Ok? <==> blockSize > 0 && blobSize > 0
    ensures r.Ok? ==> r.value.Valid() && r.value.blockSize == blockSize && r.value.blobSize == blobSize
    ensures blockSize <= 0 ==> r.error == StorageBackendError("incorrect block_size")
    ensures blockSize > 0 && blobSize <= 0 ==> r.error == StorageBackendError("incorrect blob_size")
  {
    if blockSize <= 0 then Err(StorageBackendError("incorrect block_size"))
    else if blobSize <= 0 then Err(StorageBackendError("incorrect blob_size"))
    else Ok(Layout(blockSize, blobSize))
  }

  /** i * m, unfolded one factor at a time so that proofs about offsets stay linear. */
  function Times(i: nat, m: nat): nat {
    if i == 0 then 0 else Times(i - 1, m) + m
  }

  /** Times is multiplication. */
  lemma {:induction false} TimesIsProduct(i: nat, m: nat)
    ensures Times(i, m) == i * m
  {
    if i > 0 {
      TimesIsProduct(i - 1, m);
    }
  }

  /** The slot count and slot size may be multiplied in either order. */
  lemma TimesCommutes(i: nat, m: nat)
    ensures Times(i, m) == Times(m, i)
  {
    TimesIsProduct(i, m);
    TimesIsProduct(m, i);
  }

  /** Python's `*` on non-negative integers, as the methods compute it. */
  method Multiply(i: nat, m: nat) returns (r: nat)
    ensures r == Times(i, m)
  {
    TimesIsProduct(i, m);
    r := i * m;
  }

  /** More factors give a larger product. */
  lemma {:induction false} TimesMono(i: nat, j: nat, m: nat)
    requires i <= j
    ensures Times(i, m) <= Times(j, m)
    decreases j
  {
    if i < j {
      TimesMono(i, j - 1, m);
    }
  }

  /** Products add up over a sum of factors. */
  lemma {:induction false} TimesAdd(i: nat, j: nat, m: nat)
    ensures Times(i + j, m) == Times(i, m) + Times(j, m)
    decreases j
  {
    if j > 0 {
      TimesAdd(i, j - 1, m);
    }
  }

  /**
   * a // n and a % n for a non-negative a, by repeated subtraction, so that proofs about slots
   * and offsets stay linear.
   */
  function DivMod(a: nat, n: nat): (r: (nat, nat))
    requires n > 0
    ensures r.1 < n && Times(r.0, n) + r.1 == a
    decreases a
  {
    if a < n then (0, a) else var (q, s) := DivMod(a - n, n); (q + 1, s)
  }

  /** DivMod is floor division and its remainder. */
  lemma DivModIsFloorDivision(a: nat, n: nat)
    requires n > 0
    ensures DivMod(a, n) == (a / n, a % n)
  {
    var (q, r) := DivMod(a, n);
    TimesIsProduct(q, n);
    assert a == q * n + r;
    DivisionUnique(a, n, q, r);
  }

  /** The quotient and remainder of a by n are the only such pair. */
  lemma DivisionUnique(a: nat, n: nat, q: nat, r: nat)
    requires n > 0 && r < n && a == q * n + r
    ensures q == a / n && r == a % n
  {
    var q', r' := a / n, a % n;
    assert a == q' * n + r';
    if q < q' {
      MulMono(q + 1, q', n);
    } else if q > q' {
      MulMono(q' + 1, q, n);
    }
  }

  /** Multiplying by a non-negative factor keeps the order. */
  lemma MulMono(i: nat, j: nat, m: nat)
    requires i <= j
    ensures i * m <= j * m
  {
  }

  /**
   * get_physical_address: the container and slot of a logical address; negative addresses are
   * refused with a StorageBackendError that carries no message.
   */
  function PhysicalAddress(a: int, blobSize: int): (r: Result<(nat, nat)>)
    requires blobSize > 0
    ensures r.Err? <==> a < 0
    ensures r.Err? ==> r.error == StorageBackendError("")
    ensures r.Ok? ==> r.value.1 < blobSize && Times(r.value.0, blobSize) + r.value.1 == a
  {
    if a < 0 then Err(StorageBackendError("")) else Ok(DivMod(a, blobSize))
  }

  /** The character of one decimal digit. */
  function DigitChar(n: nat): (c: char)
    requires n < 10
    ensures '0' <= c <= '9' && c as int - '0' as int == n
  {
    ('0' as int + n) as char
  }

  /** Every character is a decimal digit. */
  ghost predicate AllDigits(s: string) {
    forall i :: 0 <= i < |s| ==> '0' <= s[i] <= '9'
  }

  /** The number a string of decimal digits denotes. */
  ghost function Value(s: string): nat
    requires AllDigits(s)
  {
    if s == [] then 0 else Value(s[..|s| - 1]) * 10 + (s[|s| - 1] as int - '0' as int)
  }

  /** str(n) for a non-negative integer. */
  function Decimal(n: nat): (s: string)
    ensures |s| >= 1 && AllDigits(s)
    ensures Value(s) == n
    ensures s[0] == '0' ==> n == 0
  {
    if n < 10 then
      var s := [DigitChar(n)];
      assert s[..0] == [];
      s
    else
      var s := Decimal(n / 10) + [DigitChar(n % 10)];
      assert s[..|s| - 1] == Decimal(n / 10);
      assert s[0] == Decimal(n / 10)[0];
      s
  }

  /** 10 to the power k. */
  function Pow10(k: nat): (p: nat)
    ensures p >= 1
  {
    if k == 0 then 1 else 10 * Pow10(k - 1)
  }

  /** str(n) has at most k digits exactly when n is below 10 to the power k. */
  lemma {:induction false} DecimalWidth(n: nat, k: nat)
    requires k >= 1
    ensures |Decimal(n)| <= k <==> n < Pow10(k)
    decreases k
  {
    if k == 1 {
      if n >= 10 {
        assert |Decimal(n)| == |Decimal(n / 10)| + 1;
      }
    } else {
      DecimalWidth(n / 10, k - 1);
      if n >= 10 {
        assert |Decimal(n)| == |Decimal(n / 10)| + 1;
      } else {
        assert Pow10(k) == 10 * Pow10(k - 1);
      }
    }
  }

  /** str.rjust(width, fill): s padded on the left with fill up to width characters. */
  function RJust<T>(s: seq<T>, width: nat, fill: T): (r: seq<T>)
    ensures |r| == if |s| >= width then |s| else width
    ensures r[|r| - |s|..] == s
    ensures forall i :: 0 <= i < |r| - |s| ==> r[i] == fill
  {
    if |s| >= width then s else seq(width - |s|, _ => fill) + s
  }

  /** Leading zero digits do not change the number a digit string denotes. */
  lemma {:induction false} LeadingZeros(z: string, s: string)
    requires forall i :: 0 <= i < |z| ==> z[i] == '0'
    requires AllDigits(s)
    ensures AllDigits(z + s) && Value(z + s) == Value(s)
    decreases |s|
  {
    if s == [] {
      assert z + s == z;
      AllZeros(z);
    } else {
      var t := s[..|s| - 1];
      LeadingZeros(z, t);
      assert (z + s)[..|z + s| - 1] == z + t;
    }
  }

  /** A string of zero digits denotes 0. */
  lemma {:induction false} AllZeros(z: string)
    requires forall i :: 0 <= i < |z| ==> z[i] == '0'
    ensures AllDigits(z) && Value(z) == 0
  {
    if z != [] {
      AllZeros(z[..|z| - 1]);
    }
  }

  /**
   * get_file_name without the directory: "blob_" and the container number padded with zeros to
   * five digits. The digits after "blob_" always denote the number, so distinct containers get
   * distinct files, also beyond 99999 where the padding stops.
   */
  function FileName(blob: nat): (name: string)
    ensures |name| >= 10 && name[..5] == "blob_"
    ensures AllDigits(name[5..]) && Value(name[5..]) == blob
  {
    var digits := Decimal(blob);
    var padded := RJust(digits, 5, '0');
    PaddedDigits(digits, padded);
    Prefixed("blob_", padded);
    "blob_" + padded
  }

  /**
   * The width of get_file_name's number: exactly five digits below 100000, and from there on
   * str(n) unpadded, with no leading zero.
   */
  lemma FileNameWidth(blob: nat)
    ensures blob < 100000 ==> |FileName(blob)| == 10
    ensures blob >= 100000 ==> FileName(blob)[5] != '0'
  {
    var digits := Decimal(blob);
    var padded := RJust(digits, 5, '0');
    PaddedWidth(blob, digits, padded);
    Prefixed("blob_", padded);
  }

  /** Below 100000 the padding gives exactly five digits; from 100000 on there is no padding. */
  lemma PaddedWidth(blob: nat, digits: string, padded: string)
    requires digits == Decimal(blob) && padded == RJust(digits, 5, '0')
    ensures blob < 100000 ==> |padded| == 5
    ensures blob >= 100000 ==> padded == digits && padded[0] != '0'
  {
    DecimalWidth(blob, 5);
    assert Pow10(5) == 100000;
  }

  /** Padding a digit string on the left with zeros keeps the number it denotes. */
  lemma PaddedDigits(digits: string, padded: string)
    requires AllDigits(digits) && padded == RJust(digits, 5, '0')
    ensures AllDigits(padded) && Value(padded) == Value(digits)
  {
    LeadingZeros(padded[..|padded| - |digits|], digits);
    assert padded == padded[..|padded| - |digits|] + digits;
  }

  /** The parts of a concatenation are recovered by slicing at the first part's length. */
  lemma Prefixed(p: string, s: string)
    ensures (p + s)[..|p|] == p && (p + s)[|p|..] == s
  {
  }

  /** Distinct containers never share a file. */
  lemma FileNameInjective(b: nat, c: nat)
    requires FileName(b) == FileName(c)
    ensures b == c
  {
    assert FileName(b)[5..] == FileName(c)[5..];
  }

  /** n bytes '0'. */
  function Zeros(n: nat): (z: Bytes)
    ensures |z| == n && forall i :: 0 <= i < n ==> z[i] == ZERO
  {
    if n == 0 then [] else [ZERO] + Zeros(n - 1)
  }

  /** The container init_blob writes: block_size * blob_size bytes '0'. */
  function InitialContainer(layout: Layout): Bytes
    requires layout.Valid()
  {
    Zeros(layout.ContainerSize())
  }

  /**
   * What the copy loop writes at slot i: the new block at its own slot, elsewhere the
   * block_size bytes read from the old container, fewer or none past its end.
   */
  function Piece(src: Bytes, blockSize: nat, i: nat, block: nat, d: Bytes): Bytes {
    if i == block then d else ReadAt(src, Times(i, blockSize), blockSize)
  }

  /** The new container file after the first k turns of the copy loop. */
  function Rebuilt(src: Bytes, blockSize: nat, k: nat, block: nat, d: Bytes): Bytes {
    if k == 0 then [] else Rebuilt(src, blockSize, k - 1, block, d) + Piece(src, blockSize, k - 1, block, d)
  }

  /**
   * Over a full container the copy loop splices the new block in at its slot's offset and keeps
   * every other byte; a short block therefore shifts every later slot towards the front.
   */
  lemma {:induction false} RebuiltSplices(src: Bytes, blockSize: nat, n: nat, block: nat, d: Bytes, k: nat)
    requires |src| == Times(n, blockSize) && block < n && k <= n
    ensures Times(k, blockSize) <= |src| && Times(block + 1, blockSize) <= |src|
    ensures k > block ==> Times(block + 1, blockSize) <= Times(k, blockSize)
    ensures Rebuilt(src, blockSize, k, block, d)
         == if k <= block then src[..Times(k, blockSize)]
            else src[..Times(block, blockSize)] + d + src[Times(block + 1, blockSize)..Times(k, blockSize)]
  {
    TimesMono(k, n, blockSize);
    TimesMono(block + 1, n, blockSize);
    if k > block {
      TimesMono(block + 1, k, blockSize);
    }
    if k > 0 {
      var j := k - 1;
      RebuiltSplices(src, blockSize, n, block, d, j);
      TimesMono(j, k, blockSize);
      assert j + 1 == k;
      if j < block {
        CopyBefore(src, blockSize, block, d, j);
        assert Rebuilt(src, blockSize, k, block, d) == src[..Times(k, blockSize)];
      } else if j == block {
        CopyAt(src, blockSize, block, d);
      } else {
        TimesMono(block + 1, j, blockSize);
        CopyAfter(src, blockSize, block, d, j);
      }
    }
  }

  /** A turn of the copy loop before the new block's slot extends the copied prefix. */
  lemma CopyBefore(src: Bytes, blockSize: nat, block: nat, d: Bytes, i: nat)
    requires i < block && Times(i + 1, blockSize) <= |src|
    requires Rebuilt(src, blockSize, i, block, d) == src[..Times(i, blockSize)]
    ensures Rebuilt(src, blockSize, i + 1, block, d) == src[..Times(i + 1, blockSize)]
  {
    var lo, hi := Times(i, blockSize), Times(i + 1, blockSize);
    assert hi == lo + blockSize;
    assert Piece(src, blockSize, i, block, d) == src[lo..hi];
    PrefixExtends(src, lo, hi);
  }

  /** The prefix of src up to lo followed by the range from lo to hi is its prefix up to hi. */
  lemma PrefixExtends(src: Bytes, lo: nat, hi: nat)
    requires lo <= hi <= |src|
    ensures src[..lo] + src[lo..hi] == src[..hi]
  {
  }

  /** The turn of the copy loop at the new block's slot writes the new block. */
  lemma CopyAt(src: Bytes, blockSize: nat, block: nat, d: Bytes)
    requires Times(block + 1, blockSize) <= |src|
    requires Rebuilt(src, blockSize, block, block, d) == src[..Times(block, blockSize)]
    ensures Rebuilt(src, blockSize, block + 1, block, d)
         == src[..Times(block, blockSize)] + d + src[Times(block + 1, blockSize)..Times(block + 1, blockSize)]
  {
    var b1 := Times(block + 1, blockSize);
    assert src[b1..b1] == [];
  }

  /** A turn of the copy loop after the new block's slot extends the copied suffix. */
  lemma CopyAfter(src: Bytes, blockSize: nat, block: nat, d: Bytes, i: nat)
    requires block < i && Times(block + 1, blockSize) <= Times(i, blockSize) && Times(i + 1, blockSize) <= |src|
    requires Rebuilt(src, blockSize, i, block, d)
          == src[..Times(block, blockSize)] + d + src[Times(block + 1, blockSize)..Times(i, blockSize)]
    ensures Rebuilt(src, blockSize, i + 1, block, d)
         == src[..Times(block, blockSize)] + d + src[Times(block + 1, blockSize)..Times(i + 1, blockSize)]
  {
    var b1, lo, hi := Times(block + 1, blockSize), Times(i, blockSize), Times(i + 1, blockSize);
    assert hi == lo + blockSize;
    assert Piece(src, blockSize, i, block, d) == src[lo..hi];
    ExtendCopy(src[..Times(block, blockSize)] + d, src, b1, lo, hi);
  }

  /** Appending the next range of src to a copy of an earlier range extends that range. */
  lemma ExtendCopy(head: Bytes, src: Bytes, b1: nat, lo: nat, hi: nat)
    requires b1 <= lo <= hi <= |src|
    ensures (head + src[b1..lo]) + src[lo..hi] == head + src[b1..hi]
  {
    assert src[b1..lo] + src[lo..hi] == src[b1..hi];
  }

  /** The whole copy loop over a full container. */
  lemma SpliceAll(src: Bytes, blockSize: nat, n: nat, block: nat, d: Bytes)
    requires |src| == Times(n, blockSize) && block < n
    ensures Times(block + 1, blockSize) <= |src|
    ensures Rebuilt(src, blockSize, n, block, d)
         == src[..Times(block, blockSize)] + d + src[Times(block + 1, blockSize)..]
  {
    RebuiltSplices(src, blockSize, n, block, d, n);
  }

  /**
   * Everything FileStorage reads and writes: the blobs table (which the code consults but never
   * fills), meta_len, and the files of its directory.
   */
  datatype FsState = FsState(blobs: Dict<int, bool>, meta: Dict<int, nat>, files: map<string, Bytes>)

  /** The outcome of a put and the state it leaves behind, also when it raises part way. */
  datatype FsStep = FsStep(outcome: Outcome, next: FsState)

  /** The name put_data moves a container to while it rewrites it. */
  function Aside(name: string): string {
    name + "_old"
  }

  /** Moving a file aside, writing its replacement and removing the moved-aside copy. */
  lemma RenameCopyRemove(files: map<string, Bytes>, name: string, aside: string, out: Bytes)
    requires name in files && aside == Aside(name)
    ensures ((files - {name})[aside := files[name]])[name := out] - {aside} == (files - {aside})[name := out]
  {
    assert |aside| == |name| + 4;
  }

  /** A moved-aside name is never a container's name. */
  lemma AsideIsNoContainer(b: nat, c: nat)
    ensures Aside(FileName(b)) != FileName(c)
  {
  }

  /**
   * get_data: the last meta_len[a] bytes of the block_size bytes read at a's slot, which are
   * fewer, or none, where the container file ends early.
   */
  function Get(layout: Layout, st: FsState, a: int): (r: Result<Bytes>)
    requires layout.Valid()
    ensures a !in st.meta.data <==> r == Err(StorageBackendError("block is empty"))
    ensures r.Ok? ==> a >= 0 && |r.value| <= layout.blockSize
    ensures r.Ok? && st.meta.data[a] <= layout.blockSize ==> |r.value| <= st.meta.data[a]
  {
    if a !in st.meta.data then Err(StorageBackendError("block is empty"))
    else
      match PhysicalAddress(a, layout.blobSize)
      case Err(e) => Err(e)
      case Ok((blob, block)) =>
        var name := FileName(blob);
        if name !in st.files then Err(FileNotFound(name))
        else
          var raw := ReadAt(st.files[name], Times(block, layout.blockSize), layout.blockSize);
          Ok(SliceFrom(raw, layout.blockSize - st.meta.data[a]))
  }

  /**
   * Where the block is recorded with length n and its container exists, get_data is v, the last
   * n bytes of what its slot reads.
   */
  lemma GetFound(layout: Layout, st: FsState, a: int, blob: nat, block: nat, slot: Bytes, n: nat, v: Bytes)
    requires layout.Valid() && a in st.meta.data && n == st.meta.data[a]
    requires PhysicalAddress(a, layout.blobSize) == Ok((blob, block)) && FileName(blob) in st.files
    requires ReadAt(st.files[FileName(blob)], Times(block, layout.blockSize), layout.blockSize) == slot
    requires SliceFrom(slot, layout.blockSize - n) == v
    ensures Get(layout, st, a) == Ok(v)
  {
  }

  /**
   * get_data at a recorded address: the last meta_len bytes of what its slot reads when the
   * container exists, FileNotFoundError naming the container when it does not.
   */
  lemma GetCases(layout: Layout, st: FsState, a: int, blob: nat, block: nat)
    requires layout.Valid() && a in st.meta.data
    requires PhysicalAddress(a, layout.blobSize) == Ok((blob, block))
    ensures Get(layout, st, a) == if FileName(blob) in st.files
      then Ok(SliceFrom(ReadAt(st.files[FileName(blob)], Times(block, layout.blockSize), layout.blockSize),
                        layout.blockSize - st.meta.data[a]))
      else Err(FileNotFound(FileName(blob)))
  {
  }

  /** init_blob: a container not in the blobs table is (re)written as all '0'. */
  function Initialised(layout: Layout, st: FsState, blob: nat): (t: FsState)
    requires layout.Valid()
    ensures t.blobs == st.blobs && t.meta == st.meta
    ensures blob !in st.blobs.data ==> FileName(blob) in t.files && t.files[FileName(blob)] == InitialContainer(layout)
    ensures forall n :: n in st.files && (blob in st.blobs.data || n != FileName(blob)) ==> n in t.files && t.files[n] == st.files[n]
    ensures t.files.Keys <= st.files.Keys + {FileName(blob)}
  {
    if blob in st.blobs.data then st else st.(files := st.files[FileName(blob) := InitialContainer(layout)])
  }

  /** The container after the copy loop has written d at its slot; the moved-aside copy is removed. */
  function Rewrite(layout: Layout, files: map<string, Bytes>, blob: nat, block: nat, d: Bytes): map<string, Bytes>
    requires layout.Valid() && FileName(blob) in files
  {
    var name := FileName(blob);
    (files - {Aside(name)})[name := Rebuilt(files[name], layout.blockSize, layout.blobSize, block, d)]
  }

  /**
   * put_data as written: the container is initialised first (always, since the blobs table stays
   * empty), then an oversized block is refused; a non-empty block is copied into place and its
   * length recorded.
   */
  function Put(layout: Layout, st: FsState, a: int, d: Bytes): FsStep
    requires layout.Valid()
  {
    match PhysicalAddress(a, layout.blobSize)
    case Err(e) => FsStep(Fail(e), st)
    case Ok((blob, block)) =>
      var st1 := Initialised(layout, st, blob);
      if |d| > layout.blockSize then
        FsStep(Fail(StorageBackendError("block_data is greater than allowed block_size")), st1)
      else if |d| > 0 && FileName(blob) !in st1.files then
        FsStep(Fail(FileNotFound(FileName(blob))), st1)
      else
        var files := if |d| > 0 then Rewrite(layout, st1.files, blob, block, d) else st1.files;
        FsStep(Pass, st1.(meta := st1.meta.Put(a, |d|), files := files))
  }

  /** get_free_address: the least address with no recorded length. */
  function FreeAddress(st: FsState): (a: nat)
    ensures a !in st.meta.data
    ensures forall b :: 0 <= b < a ==> b in st.meta.data
  {
    LeastFree(st.meta.data.Keys)
  }

  /**
   * The FileStorage object: its sizes, its two tables and the directory it writes. As written
   * nothing ever adds to the blobs table, so it stays empty.
   */
  class FileStorage {
    const layout: Layout
    const blobs: DictKVStorage<int, bool>
    const metaLen: DictKVStorage<int, nat>
    var files: map<string, Bytes>

    ghost predicate Valid()
      reads this, blobs, metaLen
    {
      && layout.Valid() && blobs.Valid() && metaLen.Valid()
      && blobs as object != metaLen as object
      && blobs.data == map[]
    }

    ghost function State(): FsState
      reads this, blobs, metaLen
    {
      FsState(blobs.Model(), metaLen.Model(), files)
    }

    constructor (layout: Layout, files: map<string, Bytes>)
      requires layout.Valid()
      ensures Valid() && this.layout == layout
      ensures State() == FsState(Dict(map[], []), Dict(map[], []), files)
    {
      this.layout := layout;
      blobs := new DictKVStorage();
      metaLen := new DictKVStorage();
      this.files := files;
    }

    /** FileStorage(block_size, blob_size, path, kv_storage): refuses sizes that are not positive. */
    static method Open(blockSize: int, blobSize: int, files: map<string, Bytes>) returns (r: Result<FileStorage>)
      ensures r.Ok? <==> CheckLayout(blockSize, blobSize).Ok?
      ensures r.Err? ==> r.error == CheckLayout(blockSize, blobSize).error
      ensures r.Ok? ==> && fresh(r.value) && r.value.Valid()
                        && r.value.layout == Layout(blockSize, blobSize)
                        && r.value.State() == FsState(Dict(map[], []), Dict(map[], []), files)
    {
      var checked := CheckLayout(blockSize, blobSize);
      if checked.Err? {
        return Err(checked.error);
      }
      var s := new FileStorage(checked.value, files);
      r := Ok(s);
    }

    /** get_physical_address, with Python's floor division and remainder. */
    method GetPhysicalAddress(a: int) returns (r: Result<(nat, nat)>)
      requires Valid()
      ensures r == PhysicalAddress(a, layout.blobSize)
    {
      if a < 0 {
        return Err(StorageBackendError(""));
      }
      DivModIsFloorDivision(a, layout.blobSize);
      r := Ok((a / layout.blobSize, a % layout.blobSize));
    }

    method GetData(a: int) returns (r: Result<Bytes>)
      requires Valid()
      ensures r == Get(layout, State(), a)
    {
      var known := metaLen.Contains(a);
      if !known {
        return Err(StorageBackendError("block is empty"));
      }
      var physical := GetPhysicalAddress(a);
      if physical.Err? {
        return Err(physical.error);
      }
      var (blob, block) := physical.value;
      r := ReadSlot(a, blob, block);
    }

    /** The second half of get_data: open the container and read the tail of the block's slot. */
    method ReadSlot(a: int, blob: nat, block: nat) returns (r: Result<Bytes>)
      requires layout.Valid() && a in metaLen.data
      requires PhysicalAddress(a, layout.blobSize) == Ok((blob, block))
      ensures r == Get(layout, State(), a)
    {
      GetCases(layout, State(), a, blob, block);
      var name := FileName(blob);
      if name !in files {
        return Err(FileNotFound(name));
      }
      var offset := Multiply(block, layout.blockSize);
      var len := metaLen.Get(a);
      r := Ok(SliceFrom(ReadAt(files[name], offset, layout.blockSize), layout.blockSize - len.value));
    }

    /** init_blob. */
    method InitBlob(blob: nat)
      requires Valid()
      modifies this
      ensures Valid() && State() == Initialised(layout, old(State()), blob)
    {
      var known := blobs.Contains(blob);
      if !known {
        var size := Multiply(layout.blockSize, layout.blobSize);
        TimesCommutes(layout.blockSize, layout.blobSize);
        files := files[FileName(blob) := Zeros(size)];
      }
    }

    /**
     * put_data: the container is moved aside, copied back slot by slot with the new block at
     * its slot, and the moved-aside copy removed.
     */
    method PutData(a: int, d: Bytes) returns (r: Outcome)
      requires Valid()
      modifies this, metaLen
      ensures Valid()
      ensures FsStep(r, State()) == Put(layout, old(State()), a, d)
    {
      ghost var st := State();
      var physical := GetPhysicalAddress(a);
      if physical.Err? {
        return Fail(physical.error);
      }
      var (blob, block) := physical.value;
      var known := blobs.Contains(blob);
      if !known {
        InitBlob(blob);
      }
      ghost var st1 := State();
      assert st1 == Initialised(layout, st, blob);
      if |d| > layout.blockSize {
        return Fail(StorageBackendError("block_data is greater than allowed block_size"));
      }
      if |d| > 0 {
        r := Replace(blob, block, d);
        if r.Fail? {
          return;
        }
      }
      metaLen.Set(a, |d|);
      r := Pass;
    }

    /**
     * The container rewrite of put_data: the file is moved aside, copied back with d at its
     * slot, and the moved-aside copy removed; a missing container raises FileNotFoundError.
     */
    method Replace(blob: nat, block: nat, d: Bytes) returns (r: Outcome)
      requires Valid()
      modifies this
      ensures Valid()
      ensures FileName(blob) !in old(files) ==> r == Fail(FileNotFound(FileName(blob))) && files == old(files)
      ensures FileName(blob) in old(files) ==> r == Pass && files == Rewrite(layout, old(files), blob, block, d)
    {
      var name := FileName(blob);
      var aside := Aside(name);
      if name !in files {
        return Fail(FileNotFound(name));
      }
      ghost var before := files;
      var src := files[name];
      files := (files - {name})[aside := src];
      var out := CopyWith(src, block, d);
      files := files[name := out];
      files := files - {aside};
      RenameCopyRemove(before, name, aside, out);
      r := Pass;
    }

    /** The copy loop of put_data: blob_size reads from the old container, blob_size writes. */
    method CopyWith(src: Bytes, block: nat, d: Bytes) returns (out: Bytes)
      requires Valid()
      ensures out == Rebuilt(src, layout.blockSize, layout.blobSize, block, d)
    {
      var bs := layout.blockSize;
      out := [];
      var pos := 0;
      var current := 0;
      while current < layout.blobSize
        invariant 0 <= current <= layout.blobSize
        invariant pos == if Times(current, bs) < |src| then Times(current, bs) else |src|
        invariant out == Rebuilt(src, bs, current, block, d)
      {
        var oldData := ReadAt(src, pos, bs);
        assert oldData == ReadAt(src, Times(current, bs), bs);
        pos := pos + |oldData|;
        if current == block {
          out := out + d;
        } else {
          out := out + oldData;
        }
        current := current + 1;
      }
    }

    /** get_free_address: counts up from 0 to the first address with no recorded length. */
    method GetFreeAddress() returns (a: nat)
      requires Valid()
      ensures a !in metaLen.data
      ensures forall b :: 0 <= b < a ==> b in metaLen.data
      ensures a == FreeAddress(State())
    {
      a := 0;
      while a in metaLen.data
        invariant forall b :: 0 <= b < a ==> b in metaLen.data
        decreases |set k | k in metaLen.data && k >= a|
      {
        var later, now := set k | k in metaLen.data && k >= a + 1, set k | k in metaLen.data && k >= a;
        assert later == now - {a};
        a := a + 1;
      }
      var least := FreeAddress(State());
      assert !(least < a) && !(a < least);
    }
  }
}
