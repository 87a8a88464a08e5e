# blob_storage in Dafny

A model of the storage back ends of the Python package `blob_storage`, with proofs about it.

- **`FileStorage`** keeps blocks of at most `block_size` bytes in container files ("blobs").
  Each container has `blob_size` block slots.
  - Logical address `a` lives in container `a // blob_size`, at slot `a % blob_size`.
  - A table `meta_len` records how long each written block is.
  - `get_data` returns the last `meta_len[a]` bytes of the slot.
- **`DedupeProxy`** stores each distinct content once. It does this on top of a storage and two
  key-value tables:
  - `by_address` maps a logical address to a physical one;
  - `by_hash` maps a digest to the list (the bucket) of physical addresses whose content had that digest.
  
  It runs here over the `StubStorage` of the proxy's test suite.
- **`DictKVStorage`** is the dict-backed key-value table both of them use, including `count_links`.

Files:

- `types.dfy`: bytes, digests, the errors raised and `Result`/`Outcome`.
- `builtins.dfy`: the Python built-ins the code relies on, such as `list.count`, `list.remove`, key
  deletion, `seek` + `read`, slicing and the least free address.
- `key_value.dfy`: a Python dict as entries plus key insertion order, and the `DictKVStorage` class.
- `stub.dfy`: `StubStorage`.
- `proxy.dfy`: the proxy's operations as functions over a `ProxyState`, and the `DedupeProxy` class. Each method of the class is proved to do what its function says.
- `proxy_props.dfy`: the proxy's invariant `Consistent`, and what `put_data` and `get_data` promise under it.
- `proxy_findings.dfy`: a stale bucket entry that makes a later `put_data` fail, and the corrected proxy.
- `storage.dfy`: the `FileStorage` operations as functions over an `FsState`, and the `FileStorage` class. The copy loop of `put_data` is proved against `Rebuilt`.
- `storage_props.dfy`: what `put_data` and `get_data` do as written, including how blocks are lost.
- `storage_findings.dfy`: the corrected `FileStorage` and its round trip.

## Model

| member | source | states |
|---|---|---|
| Builtins.Count | blob/backends/key_value.py:51-52 | `list.count(x)` is at most the length, and zero exactly when x is absent |
| Builtins.IndexOf | blob/backends/proxy.py:49 | the index `list.remove` uses: the first position holding x, with no x before it |
| Builtins.RemoveFirst | blob/backends/proxy.py:49 | `list.remove(x)` drops exactly the first occurrence of x and is one shorter |
| Builtins.RemoveFirstKeeps | blob/backends/proxy.py:49 | `list.remove(x)` keeps every element other than x |
| Builtins.RemoveFirstOfDistinct | blob/backends/proxy.py:49 | in a list without repeats, `list.remove(x)` removes x entirely and adds no repeat |
| Builtins.Without | blob/backends/key_value.py:36-37 | the key order after `del d[k]` holds only keys other than k, keeps every one of them, and is unchanged when k is absent |
| Builtins.WithoutSingle | blob/backends/key_value.py:36-37 | on a one-key order, `del d[k]` keeps the key unless it is k |
| Builtins.WithoutCons | blob/backends/key_value.py:36-37 | the first key survives `del d[k]` unless it is k, ahead of the survivors of the rest |
| Builtins.WithoutConcat | blob/backends/key_value.py:36-37 | `del d[k]` keeps the other keys in their order: the survivors of a + b are those of a followed by those of b |
| Builtins.WithoutDistinct | blob/backends/key_value.py:36-37 | in a key order without repeats, `del d[k]` leaves no repeat and removes exactly one entry when k was present |
| Builtins.DistinctCard | blob/backends/key_value.py:45-46 | a key order without repeats has as many entries as keys |
| Builtins.ReadAt | blob/backends/storage.py:41-43 | `seek(off)` then `read(n)` returns the bytes from off on: n of them when the file is long enough, up to the end of the file otherwise, none past it |
| Builtins.SliceFrom | blob/backends/storage.py:44 | the Python slice `s[i:]` is a suffix of s: of length `len-i` for `0<=i<=len`, empty for larger i |
| Builtins.LeastFreeFrom | blob/backends/storage.py:91-96 | counting up from a start below which every address is used ends at an unused address with every smaller one used |
| Builtins.LeastFree | blob/backends/storage.py:91-96 | the address both `get_free_address` loops return is unused and every smaller one is used |
| Builtins.LeastFreeUnique | blob/backends/storage.py:91-96 | an unused address with every smaller one used is the one `get_free_address` returns |
| KeyValue.ValuesOf | blob/backends/key_value.py:48-49 | `list(d.values())` lists the value of each key in key order |
| KeyValue.KeysTo | blob/backends/key_value.py:51-52 | the keys, among those listed, that map to v, and exactly those |
| KeyValue.CountValuesOf | blob/backends/key_value.py:51-52 | counting v among the values counts the keys mapped to v |
| KeyValue.KeysToReferrers | blob/backends/key_value.py:51-52 | when the order lists exactly the stored keys, the listed keys mapped to v are all the keys mapped to v |
| KeyValue.Dict.Put | blob/backends/key_value.py:33-34 | `d[k] = v` keeps the dict well formed and sets k; an existing key keeps its place, a new key goes to the end of the order |
| KeyValue.Dict.Remove | blob/backends/key_value.py:36-37 | `del d[k]` keeps the dict well formed, drops k, and leaves the order of the other keys as `Without` says |
| KeyValue.Dict.Values | blob/backends/key_value.py:48-49 | `d.values()` has one entry per key, in key order, and holds every stored value |
| KeyValue.Dict.CountLinks | blob/backends/key_value.py:51-52 | `count_links(v)` is the number of keys mapped to v |
| KeyValue.ReferrersAfterUpdate | blob/backends/key_value.py:33-34 | setting one key moves it from the keys of its old value to those of its new value |
| KeyValue.SoleReferrer | blob/backends/key_value.py:51-52 | when `count_links` of a's value is 1, a is the only key with that value |
| KeyValue.SharedReferrer | blob/backends/key_value.py:51-52 | when `count_links` of a's value exceeds 1, another key has that value |
| KeyValue.CountLinksAfterPut | blob/backends/key_value.py:33-34 | after `d[k] = v`, `count_links(w)` loses one for k's old value and gains one for v, nothing else |
| KeyValue.DictKVStorage.constructor | blob/backends/key_value.py:27-28 | a new table is empty |
| KeyValue.DictKVStorage.Get | blob/backends/key_value.py:30-31 | `d[k]` is the stored value, KeyError for a missing key |
| KeyValue.DictKVStorage.Set | blob/backends/key_value.py:33-34 | `d[k] = v` updates the dict as `Dict.Put` does |
| KeyValue.DictKVStorage.Delete | blob/backends/key_value.py:36-37 | `del d[k]` removes k, or raises KeyError and changes nothing |
| KeyValue.DictKVStorage.Contains | blob/backends/key_value.py:39-40 | `k in d` is true exactly for stored keys |
| KeyValue.DictKVStorage.Keys | blob/backends/key_value.py:45-46 | `keys()` lists every stored key once, in insertion order |
| KeyValue.DictKVStorage.Values | blob/backends/key_value.py:48-49 | `values()` lists each key's value in key order |
| KeyValue.DictKVStorage.CountLinks | blob/backends/key_value.py:51-52 | `count_links(v)` is the number of keys mapped to v |
| Stub.StubStorage.constructor | test/backends/test_proxy.py:13-15 | the stub starts empty, with no recorded payload |
| Stub.StubStorage.GetData | test/backends/test_proxy.py:17-18 | the stored bytes, KeyError when nothing is stored |
| Stub.StubStorage.PutData | test/backends/test_proxy.py:20-22 | stores the bytes and records them as the last payload |
| Stub.StubStorage.DelData | test/backends/test_proxy.py:24-25 | removes the block, or raises KeyError and changes nothing |
| Stub.StubStorage.GetFreeAddress | test/backends/test_proxy.py:27-32 | the least address with nothing stored |
| Proxy.Initial | blob/backends/proxy.py:8-13 | a new proxy has two empty, well-formed indices over an empty stub with no recorded payload |
| Proxy.Get | blob/backends/proxy.py:15-21 | `get_data` reads the storage at the mapped physical address; an unmapped address raises "no block found with such address", a missing physical block KeyError |
| Proxy.FirstMatch | blob/backends/proxy.py:61-69 | the bucket scan returns the first listed address whose content equals d, None when all differ, KeyError at the first unreadable address |
| Proxy.FindDuplicate | blob/backends/proxy.py:61-69 | `check_duplicate` finds only stored addresses with equal content in the digest's bucket, and None when there is no bucket |
| Proxy.FirstBucketWith | blob/backends/proxy.py:43-47 | the first key, in dict order, whose bucket lists p; None exactly when no bucket lists p |
| Proxy.DedupeProxy.constructor | blob/backends/proxy.py:8-13 | the proxy starts with empty indices over the given storage and hasher |
| Proxy.DedupeProxy.GetData | blob/backends/proxy.py:15-21 | equals `Proxy.Get` on the current state |
| Proxy.DedupeProxy.CheckDuplicate | blob/backends/proxy.py:61-69 | the loop over the bucket returns what `FindDuplicate` specifies |
| Proxy.DedupeProxy.PutData | blob/backends/proxy.py:23-59 | outcome and new state are `Proxy.Put` of the old state under the hasher's digest |
| Proxy.DedupeProxy.AliasTo | blob/backends/proxy.py:26-31 | the duplicate branch: outcome and new state are `Proxy.Alias` |
| Proxy.DedupeProxy.FindTarget | blob/backends/proxy.py:34-51 | the chosen physical address and the updated hash index are `Proxy.Target`, a KeyError when no bucket lists a's address |
| Proxy.DedupeProxy.DetachFrom | blob/backends/proxy.py:48-51 | the hash index after taking p out of its bucket, deleting the bucket when p was all it held, is `Proxy.Detach` |
| Proxy.DedupeProxy.FindBucket | blob/backends/proxy.py:43-47 | the key scan returns `FirstBucketWith` over the keys in dict order |
| Proxy.DedupeProxy.FileUnder | blob/backends/proxy.py:54-57 | the hash index after filing is `Proxy.Attach` |
| ProxyProperties.InitialConsistent | blob/backends/proxy.py:8-13 | a new proxy is consistent |
| ProxyProperties.NothingFoundMeansNew | blob/backends/proxy.py:61-69 | in a consistent state, `check_duplicate` returning None means the content is stored nowhere |
| ProxyProperties.AttachKeepsFiled | blob/backends/proxy.py:54-57 | filing an address keeps every existing listing |
| ProxyProperties.DetachKeepsOthers | blob/backends/proxy.py:48-51 | removing p from its bucket keeps every other address listed |
| ProxyProperties.TargetFound | blob/backends/proxy.py:43-51 | in a consistent state the scan always finds a bucket listing a's address, so `by_hash[None]` never raises |
| ProxyProperties.PutDeletingShape | blob/backends/proxy.py:26-31 | when the content is stored at q and a alone references its former block, `put_data` remaps a to q and deletes that block, nothing else |
| ProxyProperties.DeletingResolves | blob/backends/proxy.py:27-31 | after a's sole-referenced block is deleted and a remapped to a stored q, every logical address still maps to a stored block |
| ProxyProperties.DeletingKeepsReferenced | blob/backends/proxy.py:27-31 | after remapping a, every stored block other than a's former one keeps a logical address mapped to it |
| ProxyProperties.SharingKeepsReferenced | blob/backends/proxy.py:26-31 | remapping a without deleting (its block shared, or already q) leaves no stored block unreferenced |
| ProxyProperties.FreshKeepsReferenced | blob/backends/proxy.py:34-40 | mapping a to a new block while its old block keeps another referrer leaves no stored block unreferenced |
| ProxyProperties.AttachFilesAll | blob/backends/proxy.py:54-57 | filing p under the digest of its new content leaves every stored block listed in its own content's bucket |
| ProxyProperties.DetachFilesOthers | blob/backends/proxy.py:48-51 | taking p out of its bucket leaves every other stored block listed in its content's bucket |
| ProxyProperties.InPlaceShape | blob/backends/proxy.py:41-59 | for a sole referrer, the write branch keeps a's physical address, moves it from the first bucket listing it to the new digest's bucket, and stores d there |
| ProxyProperties.RewriteBlockKeeps | blob/backends/proxy.py:41-59 | overwriting a stored block with content stored nowhere else keeps every address resolving, every block referenced and every content stored once |
| ProxyProperties.AliasDeletingKeepsConsistent | blob/backends/proxy.py:27-31 | deleting a's sole-referenced block and remapping a keeps consistency |
| ProxyProperties.AliasSharingKeepsConsistent | blob/backends/proxy.py:27-31 | remapping a onto the duplicate without deleting keeps consistency |
| ProxyProperties.WriteFreshKeepsConsistent | blob/backends/proxy.py:34-40 | writing new content at a free address keeps consistency |
| ProxyProperties.WriteInPlaceKeepsConsistent | blob/backends/proxy.py:41-59 | rewriting a's sole-referenced block in place keeps consistency |
| ProxyProperties.PutKeepsConsistent | blob/backends/proxy.py:23-59 | every `put_data`, in every branch and also when it fails, keeps consistency |
| ProxyProperties.PutFailsOnlyInDuplicateCheck | blob/backends/proxy.py:23-69 | from a consistent state `put_data` fails exactly when `check_duplicate` raises, and then changes nothing |
| ProxyProperties.PutThenGet | blob/backends/proxy.py:15-59 | a successful `put_data(a, d)` is read back by `get_data(a)` as d |
| ProxyProperties.PutKeepsOthers | blob/backends/proxy.py:15-59 | `put_data(a, d)` never changes what `get_data` returns for another address |
| ProxyProperties.AliasReads | blob/backends/proxy.py:26-31 | a successful duplicate branch makes a read the duplicate's content |
| ProxyProperties.AliasKeepsOthers | blob/backends/proxy.py:26-31 | the duplicate branch leaves what every other address reads unchanged |
| ProxyProperties.AliasDeletingKeepsOthers | blob/backends/proxy.py:27-31 | when the duplicate branch deletes a's former block, no other address read that block, so every other address reads what it read |
| ProxyProperties.RemapKeepsGet | blob/backends/proxy.py:27-31 | remapping a and deleting blocks no other address b maps to leaves what b reads unchanged |
| ProxyProperties.WriteKeepsOthers | blob/backends/proxy.py:33-59 | the write branch leaves what every other address reads unchanged |
| ProxyProperties.StoreKeepsGet | blob/backends/proxy.py:33-59 | storing at a physical address b is not mapped to leaves what b reads unchanged |
| ProxyProperties.StoresLiveContentsOnce | blob/backends/proxy.py:23-59 | in a consistent state, content is stored exactly when some address reads it, and at one physical address only |
| ProxyProperties.Run | blob/backends/proxy.py:23-59 | a sequence of puts keeps both indices well formed |
| ProxyProperties.RunFirst | blob/backends/proxy.py:23-59 | running a non-empty sequence of puts is its first put followed by the rest, from a well-formed state |
| ProxyProperties.ValidAfterPut | blob/backends/proxy.py:23-59 | `put_data` keeps both indices well formed |
| ProxyProperties.RunKeepsConsistent | blob/backends/proxy.py:23-59 | any sequence of puts from a consistent state stays consistent |
| ProxyProperties.RunFromInitialConsistent | blob/backends/proxy.py:8-59 | any sequence of puts on a new proxy leaves it consistent |
| ProxyFindings.Tag | blob/backends/proxy.py:24 | a hasher that tells the content X apart from all others |
| ProxyFindings.FirstPut | blob/backends/proxy.py:33-59 | put(0, X) on a new proxy stores X at 0 and files it |
| ProxyFindings.SecondPut | blob/backends/proxy.py:33-59 | put(1, Y) then stores Y at 1 and files it |
| ProxyFindings.AfterSecondValid | blob/backends/proxy.py:23-59 | both indices after the second put are well formed |
| ProxyFindings.ThirdPut | blob/backends/proxy.py:26-31 | put(0, Y) then deletes the block at 0 and leaves 0 in X's bucket |
| ProxyFindings.ThirdPutMaps | blob/backends/proxy.py:27-31 | the third put remaps address 0 to physical address 1 and deletes the block at 0 |
| ProxyFindings.ThreePuts | blob/backends/proxy.py:23-59 | the three puts run in order from a new proxy reach the state after the third put |
| ProxyFindings.StaleEntryRead | blob/backends/proxy.py:61-69 | after the third put, put(2, X) reads the deleted address 0 from X's bucket and fails with KeyError |
| ProxyFindings.StaleEntryBreaksLaterPut | blob/backends/proxy.py:26-31 | after those three puts the state is consistent, yet put(2, X) fails with KeyError |
| ProxyFindings.InitialSound | blob/backends/proxy.py:8-13 | a new proxy satisfies the corrected invariant |
| ProxyFindings.DetachExact | blob/backends/proxy.py:48-51 | detaching p leaves it listed nowhere, and the buckets exact for the storage without p |
| ProxyFindings.AttachExact | blob/backends/proxy.py:54-57 | filing p under its content's digest keeps the buckets exact |
| ProxyFindings.ExactFindsWithoutError | blob/backends/proxy.py:61-69 | with exact buckets, `check_duplicate` never raises |
| ProxyFindings.AliasIntendedUnlists | blob/backends/proxy.py:26-31 | the corrected duplicate branch finds the deleted address in its content's bucket |
| ProxyFindings.UnlistedDeletionKeepsSound | blob/backends/proxy.py:26-31 | deleting and unlisting a's former block keeps the corrected invariant |
| ProxyFindings.RefiledConsistent | blob/backends/proxy.py:26-57 | a consistent state stays consistent when its hash index is replaced by a well-formed one that files every stored block |
| ProxyFindings.WriteFreshKeepsExact | blob/backends/proxy.py:34-40 | writing at a free address keeps the buckets exact |
| ProxyFindings.WriteInPlaceKeepsExact | blob/backends/proxy.py:41-59 | rewriting in place keeps the buckets exact |
| ProxyFindings.PutIntendedKeepsSound | blob/backends/proxy.py:23-59 | the corrected `put_data` never fails from a sound state and keeps it sound |
| ProxyFindings.PutIntendedThenGet | blob/backends/proxy.py:15-59 | from a sound state, the corrected `put_data(a, d)` is read back by `get_data(a)` as d |
| Storage.CheckLayout | blob/backends/storage.py:23-27 | construction succeeds exactly for positive sizes; "incorrect block_size" is checked first, then "incorrect blob_size" |
| Storage.TimesIsProduct | blob/backends/storage.py:42 | the offset arithmetic `Times` is multiplication |
| Storage.TimesMono | blob/backends/storage.py:42 | later slots start at larger offsets |
| Storage.TimesAdd | blob/backends/storage.py:42 | offsets add up over slots |
| Storage.Multiply | blob/backends/storage.py:42 | the product `block * block_size` that the methods compute is the offset `Times` |
| Storage.DivMod | blob/backends/storage.py:77-78 | quotient and remainder recombine to the address, with the remainder below `blob_size` |
| Storage.DivModIsFloorDivision | blob/backends/storage.py:77-78 | `DivMod` is Python's `//` and `%` for non-negative addresses |
| Storage.DivisionUnique | blob/backends/storage.py:77-78 | the quotient and remainder are unique |
| Storage.PhysicalAddress | blob/backends/storage.py:74-79 | `get_physical_address` raises exactly for negative addresses, and otherwise returns a slot below `blob_size` that recombines to the address |
| Storage.DigitChar | blob/backends/storage.py:88 | the character of one decimal digit |
| Storage.Decimal | blob/backends/storage.py:88 | `str(n)` is a non-empty string of digits denoting n, with no leading zero unless n is 0 |
| Storage.DecimalWidth | blob/backends/storage.py:88 | `str(n)` has at most k digits exactly when n is below 10 to the power k |
| Storage.PaddedDigits | blob/backends/storage.py:88 | `str(n).rjust(5, '0')` is still a digit string denoting n |
| Storage.PaddedWidth | blob/backends/storage.py:88 | `rjust(5, '0')` gives five digits below 100000 and leaves `str(n)` as it is from 100000 on |
| Storage.RJust | blob/backends/storage.py:88 | `rjust` pads on the left with the fill up to the width and keeps the string as its suffix |
| Storage.LeadingZeros | blob/backends/storage.py:88 | leading '0' digits do not change the number |
| Storage.AllZeros | blob/backends/storage.py:88 | a string of '0' digits denotes 0 |
| Storage.FileName | blob/backends/storage.py:87-89 | the name is "blob_" followed by at least five digits that denote the container number |
| Storage.FileNameWidth | blob/backends/storage.py:87-89 | the digits of the name are exactly five below container 100000, and from there on `str(n)` with no leading zero, so the name is fixed by the container number |
| Storage.FileNameInjective | blob/backends/storage.py:87-89 | different containers get different files, also past 99999 |
| Storage.Zeros | blob/backends/storage.py:85 | n bytes '0' |
| Storage.RebuiltSplices | blob/backends/storage.py:61-69 | after k turns the copy holds the old bytes up to k's slot, with the new block in place of its slot once passed |
| Storage.CopyBefore | blob/backends/storage.py:64-68 | a turn before the block's slot copies the old slot |
| Storage.CopyAt | blob/backends/storage.py:64-66 | the turn at the block's slot writes the block |
| Storage.CopyAfter | blob/backends/storage.py:64-68 | a turn after the block's slot copies the old slot |
| Storage.SpliceAll | blob/backends/storage.py:61-69 | over a full container, the copy loop splices the new block in at its slot's offset and keeps every other byte |
| Storage.AsideIsNoContainer | blob/backends/storage.py:59 | the moved-aside name `<name>_old` is never a container's name |
| Storage.RenameCopyRemove | blob/backends/storage.py:58-70 | moving a container aside, writing the new container and removing the moved-aside copy leaves the directory with the new container and without the aside name |
| Storage.Get | blob/backends/storage.py:36-45 | `get_data` raises "block is empty" exactly for an address without a length, and otherwise returns at most `block_size` bytes and at most the recorded length |
| Storage.GetCases | blob/backends/storage.py:36-45 | at a recorded address `get_data` returns the last `meta_len` bytes of the `block_size` bytes read at its slot, or `FileNotFoundError` naming the container when the file is missing |
| Storage.GetFound | blob/backends/storage.py:36-45 | where the container exists, `get_data` is the last `meta_len` bytes of the bytes its slot reads |
| Storage.Initialised | blob/backends/storage.py:81-85 | `init_blob` writes a zeroed container of `block_size * blob_size` bytes for an unrecorded container, adds no other file, and changes no other file or table |
| Storage.FreeAddress | blob/backends/storage.py:91-96 | `get_free_address` returns an address with no length, every smaller one having one |
| Storage.FileStorage.constructor | blob/backends/storage.py:19-34 | a new storage has empty tables and the given sizes |
| Storage.FileStorage.Open | blob/backends/storage.py:19-34 | construction fails with `CheckLayout`'s error exactly for non-positive sizes, and otherwise gives a fresh, empty storage |
| Storage.FileStorage.GetPhysicalAddress | blob/backends/storage.py:74-79 | `//` and `%` give `PhysicalAddress` |
| Storage.FileStorage.GetData | blob/backends/storage.py:36-45 | equals `Storage.Get` on the current state |
| Storage.FileStorage.ReadSlot | blob/backends/storage.py:40-45 | opening the container and reading the tail of the slot gives `Storage.Get` on the current state |
| Storage.FileStorage.InitBlob | blob/backends/storage.py:81-85 | the new state is `Initialised` |
| Storage.FileStorage.PutData | blob/backends/storage.py:47-72 | outcome and new state are `Storage.Put` of the old state, and the blobs table stays empty |
| Storage.FileStorage.Replace | blob/backends/storage.py:57-70 | the container rewrite changes the directory as `Rewrite` says, or raises `FileNotFoundError` and changes nothing when the container is missing |
| Storage.FileStorage.CopyWith | blob/backends/storage.py:61-69 | the copy loop, reading on from the file position, writes `Rebuilt` |
| Storage.FileStorage.GetFreeAddress | blob/backends/storage.py:91-96 | the loop returns an address with no length, every smaller one having one, i.e. `FreeAddress` |
| StorageProperties.ZerosSlices | blob/backends/storage.py:85 | slices of a zeroed container are zeroed |
| StorageProperties.PutKeepsBlobs | blob/backends/storage.py:47-85 | `put_data` never fills the blobs table |
| StorageProperties.PutOutcome | blob/backends/storage.py:47-79 | `put_data` fails exactly on a negative address (no message) or an oversized block |
| StorageProperties.PutRewritesContainer | blob/backends/storage.py:47-72 | an accepted put leaves a's container as '0' bytes around the new block and records the length |
| StorageProperties.PutKeepsOtherFiles | blob/backends/storage.py:47-72 | as written, a put changes no file other than a's container and its moved-aside copy |
| StorageProperties.RewrittenZeroed | blob/backends/storage.py:57-70 | copying a block into a freshly zeroed container leaves '0' bytes on both sides of it and keeps every other file |
| StorageProperties.RewriteFiles | blob/backends/storage.py:57-70 | the rewrite replaces the container by the copy, leaves no moved-aside file and keeps every other file |
| StorageProperties.PutShape | blob/backends/storage.py:47-72 | an accepted put zeroes the container, copies a non-empty block in and records the length |
| StorageProperties.ZeroContainerSplice | blob/backends/storage.py:61-69 | splicing into a zeroed container leaves '0' bytes on both sides of the block |
| StorageProperties.SpliceSlot | blob/backends/storage.py:61-69 | after the splice, the block's slot holds the block and every other slot its old bytes |
| StorageProperties.FullBlockRoundTrip | blob/backends/storage.py:36-72 | a full-size block is read back unchanged |
| StorageProperties.FullSlotReads | blob/backends/storage.py:36-45 | `get_data` at the slot a full block was copied into returns the block |
| StorageProperties.WrittenContainer | blob/backends/storage.py:47-72 | after a non-empty put, the container is the zeroed container with the block copied in |
| StorageProperties.ShortBlockReadsPadding | blob/backends/storage.py:36-72 | a short block not in its container's last slot is read back as the last `len(d)` bytes of the block followed by '0' padding |
| StorageProperties.ShortBlockReadsZeros | blob/backends/storage.py:36-72 | such a block of at most half a slot is read back as '0' bytes only |
| StorageProperties.ShortBlockWritten | blob/backends/storage.py:47-72 | a short put into an empty directory records its length and leaves its container '0' bytes around the block |
| StorageProperties.TailOfPadding | blob/backends/storage.py:44 | the last n bytes of n bytes followed by at least n '0' bytes are n '0' bytes |
| StorageProperties.ZeroedSlotReads | blob/backends/storage.py:36-45 | `get_data` on a zeroed container around a short block returns the last `len(d)` bytes of the block padded with '0' |
| StorageProperties.ZeroedSlotReadsZeros | blob/backends/storage.py:36-45 | for a block of at most half a slot, that read is '0' bytes only |
| StorageProperties.PaddedContainerSlot | blob/backends/storage.py:41-43 | in a zeroed container around a short block, the block's slot reads as the block followed by '0' bytes |
| StorageProperties.PaddedSlot | blob/backends/storage.py:41-43 | reading a slot that holds a short block followed by '0' bytes reads the block and then '0' bytes |
| StorageProperties.ShortBlockInTestLayout | test/backends/test_storage.py:54-59 | with the test suite's sizes, "abcd" put at address 3 is read back as "0000" |
| StorageProperties.LaterPutErasesNeighbour | blob/backends/storage.py:47-85 | a put to one address of a container makes every other address of it read as '0' bytes |
| StorageProperties.SameContainerOtherSlot | blob/backends/storage.py:74-79 | two different addresses in one container have different slots |
| StorageProperties.OtherSlotReads | blob/backends/storage.py:36-45 | `get_data` at an untouched slot of a re-zeroed container reads '0' bytes |
| StorageProperties.SuffixOfZeros | blob/backends/storage.py:44 | the last m of n '0' bytes are m '0' bytes |
| StorageProperties.ZeroedSlot | blob/backends/storage.py:61-69 | the untouched slots of a re-zeroed container hold '0' bytes |
| StorageProperties.MulStep | blob/backends/storage.py:42 | the next slot starts `block_size` bytes later |
| StorageFindings.InitBlobIntended | blob/backends/storage.py:81-85 | the corrected `init_blob` records the container, zeroes it once, and leaves a known one alone |
| StorageFindings.Padded | test/backends/test_storage.py:37-52 | the block written is exactly `block_size` bytes whose last `len(d)` bytes are d |
| StorageFindings.EmptyWellFormed | blob/backends/storage.py:19-34 | a new storage is well formed |
| StorageFindings.FileNameDistinct | blob/backends/storage.py:87-89 | distinct containers have distinct files |
| StorageFindings.InitKeepsWellFormed | blob/backends/storage.py:81-85 | the corrected `init_blob` keeps the state well formed and leaves a full container |
| StorageFindings.InitKeepsFile | blob/backends/storage.py:81-85 | the corrected `init_blob` keeps the file of every recorded container |
| StorageFindings.RewriteKeepsSize | blob/backends/storage.py:57-70 | copying a full slot into a full container keeps its size and every other file |
| StorageFindings.RewriteKeepsFull | blob/backends/storage.py:57-70 | copying a full slot keeps every recorded container full |
| StorageFindings.IntendedNext | blob/backends/storage.py:47-72 | an accepted corrected put records the length and copies the padded block in |
| StorageFindings.IntendedOutcome | blob/backends/storage.py:47-79 | the corrected put fails exactly on a negative address or an oversized block |
| StorageFindings.IntendedKeepsWellFormed | blob/backends/storage.py:47-85 | the corrected put keeps the state well formed, also when it fails |
| StorageFindings.IntendedMeta | blob/backends/storage.py:47-72 | the corrected put records the block's length at a or leaves the lengths as they were |
| StorageFindings.IntendedKeepsLengths | blob/backends/storage.py:72 | the corrected put records no length but a's |
| StorageFindings.RecordKeepsPlaced | blob/backends/storage.py:72 | recording a fitting length for an address of a recorded container keeps every length placed |
| StorageFindings.IntendedRoundTrip | blob/backends/storage.py:36-72 | after the corrected put, `get_data(a)` returns d, for short and empty blocks too |
| StorageFindings.SlotOfSplice | blob/backends/storage.py:41-43 | reading back a spliced slot gives the spliced bytes |
| StorageFindings.IntendedKeepsOthers | blob/backends/storage.py:36-85 | the corrected put never changes what `get_data` returns for another address |
| StorageFindings.SameRead | blob/backends/storage.py:36-45 | the same length and the same slot bytes give the same `get_data` |
| StorageFindings.SpliceKeepsSlot | blob/backends/storage.py:61-69 | copying a full slot into a full container leaves every other slot unchanged |
| StorageFindings.IntendedKeepsSlot | blob/backends/storage.py:47-72 | the corrected put at a leaves the bytes of every other recorded address's slot |
| StorageFindings.RewriteKeepsSlot | blob/backends/storage.py:57-70 | copying a full slot into a full container keeps every other slot of every recorded container |

## Left out

- File system access is a map from file name to contents.
  - `os.makedirs` and `os.path.abspath` are not modelled.
  - `os.path.join` is not modelled: a file name is its name inside the storage directory.
  - I/O errors other than a missing file are not modelled.
- Crash behaviour of put_data is not modelled. The model gives the final directory only. A crash between `os.replace`, the copy and `os.remove` would leave a moved-aside copy behind.
- The `isinstance` checks of the constructor are not modelled. Sizes are Dafny integers, so they are always `int`.
- The directory argument of the constructor is not modelled. The directory's initial contents are a parameter of `Open`.
- blob/hashers.py is not part of this model. The digest function is a parameter of the proxy, and `sha256` is not modelled.
- blob/__init__.py and blob/exceptions.py are not part of this model. Exceptions are the constructors of `Error`.
- Python's `FileNotFoundError` is `FileNotFound` with the file's name.
- `get_physical_address` raises `StorageBackendError` without a message. This is `StorageBackendError("")`.
- The proxy is modelled over `StubStorage` only. `FileStorage` has no `del_data`, which the proxy's duplicate branch calls. The storage tests also call `del_data` and `blocks_metadata`, which storage.py does not define (its table is `meta_len`).
- storage.py imports `KVStorage` from `blob.backends.kv_storage`. There is no such module; the model uses the `DictKVStorage` of key_value.py.
- The proxy's buckets are Python lists that `remove` and `append` change in place. Here they are values that are stored back into the table. No list object is shared, so this loses nothing.
- The blobs table's values are `bool`. The code never stores into it, so the value type is not visible.
- Multiplication and `//`/`%` are modelled by `Times` (repeated addition) and `DivMod` (repeated subtraction), which keeps the proofs linear. `TimesIsProduct` and `DivModIsFloorDivision` prove them equal to `*`, `/` and `%`, and `FileStorage.GetPhysicalAddress` computes with `/` and `%`. Python integers are unbounded, as Dafny's are.
- Storage.FileName: its own contract gives the prefix and the number the digits denote. The exact width of the padding is stated by `Storage.FileNameWidth`.
- Storage.Get: its own contract gives only the error cases and length bounds. The bytes it returns are stated by `Storage.GetCases`.
- The lemmas about the FileStorage as written require an empty blobs table. The code never fills it (`PutKeepsBlobs`, and `FileStorage.Valid`).

## Findings

| source | as written | input that shows it | evidently intended | confidence | as-written member | corrected member |
|---|---|---|---|---|---|---|
| blob/backends/proxy.py:26-31 | the duplicate branch deletes a's former block from the storage but leaves its address in its `by_hash` bucket | with a digest that tells X apart: put(0, X), put(1, Y), put(0, Y), then put(2, X) raises KeyError, because the stale entry is read from the storage | also take the deleted address out of its bucket, as the write branch does at proxy.py:42-51 | not executed | ProxyFindings.StaleEntryBreaksLaterPut | ProxyFindings.PutIntendedKeepsSound |
| blob/backends/storage.py:57-69 | a short block is written unpadded at the front of its slot, while get_data (storage.py:44) returns the last `meta_len` bytes of the slot | block_size 16, blob_size 8: put_data(3, b"abcd") then get_data(3) returns b"0000" | write the block right-aligned with '0' padding, the layout test_storage.py:44 builds for get_data | not executed | StorageProperties.ShortBlockInTestLayout | StorageFindings.IntendedRoundTrip |
| blob/backends/storage.py:49-50 | init_blob never records the container in `blobs`, so every put_data re-zeroes the whole container before copying | block_size 16, blob_size 8: put_data(0, 16 bytes "a"), then put_data(1, 16 bytes "b"); get_data(0) returns 16 bytes "0" | record each container in `blobs` when it is first created | not executed | StorageProperties.LaterPutErasesNeighbour | StorageFindings.IntendedKeepsOthers |
