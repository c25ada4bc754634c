# Persistent extendible hash: the in-memory engine

This project models the in-memory engine of `PmEHash`. `PmEHash` is an extendible hash
index over persistent memory, with 64-bit keys and 64-bit values. A catalog (directory)
holds one entry per `global_depth`-bit index. Each entry names a bucket by its persistent
address and by reference, and several entries may name the same bucket. A bucket has a
local depth, 15 presence bits and 15 key/value slots. A slot holds a live record exactly
when its presence bit is set. A removal only clears the bit and leaves the slot's bytes
in place.

Modules, following the two core source files:

- `Layout` (`include/global_def.h`): the fixed-width integers and the capacity
  constants. It also holds the persistent address `PmAddress` with its order `Less`,
  the record `KV`, the `Metadata` record and the `Bucket` class with two arrays of
  length 15. A `DataPage` is a subset type that fixes 16 bits and 16 bucket slots. The
  `Catalog` class has the sized constructor that allocates a fresh bucket for every
  entry.
- `HashFunc`: `hashFunc`'s mask expression. `BitAnd` is a bitwise AND on naturals and
  `Mask(d)` is `(1 << d) - 1`. The lemma `MaskIsModulus` proves that the masked key is
  the key modulo `2^d`.
- `BucketView`: one bucket's bits and slots as a value `View`. Its functions specify the
  slot operations: `FirstFree` (lowest clear bit), `FindKey` and `Lookup` (first live
  slot holding a key), `Put` (claim the lowest free slot and write the record), `Clear`
  (clear the bit of the first match) and `Replace` (what `update` does). The lemmas
  state what the operations mean for the bucket's records: read-your-write, tombstone,
  other keys unaffected, keys stay unique, and the effect on the key-to-value map
  `AsMap`.
- `EHash` (`src/pm_ehash.cpp`): the class `PmEHash`, with its metadata and catalog
  fields. `Index` is the engine's `hashFunc`. The methods `GetFreeKvSlot`, `Insert`,
  `Remove` and `Update` change the bucket arrays in place; `Search` and
  `GetFreeBucket` only read them. Each method is proved against the `BucketView`
  functions. `Visible(key)` is what `Search` reports for a key. `Insert`, `Remove`
  and `Update` ensure that `Visible` is unchanged for every other key.
  `SplitBucket` and `MergeBucket` are empty, as in the source, and ensure that no
  key's `Visible` changes.

Behaviour of the code that the model keeps:

- On a full bucket, `insert` does not split: `splitBucket` is empty. So `Insert`
  requires that an unseen key's bucket has a free slot.
- Keys are unique within a bucket only because `insert` searches first. That search is
  skipped for indices at or beyond `catalog_size`, and `remove` never consults
  `catalog_size`. So uniqueness is a hypothesis of the lemmas, not part of `Valid()`.
- The catalog is not required to have exactly `2^global_depth` entries. `Valid()` asks
  only for at least that many. `catalog_size` is a separate number, and only `search`
  compares the index against it.
- `update` returns 0 as soon as its search finds the key, whatever its inner `insert`
  then does. `Replace` models that exactly.

## Model

| member | source | states |
|---|---|---|
| `Layout.PmAddress.Less` | include/global_def.h:31-34 | the address order is strict (no address is below an equal one) and never puts a higher file id below a lower one |
| `Layout.LessIsLexicographic` | include/global_def.h:31-34 | `a < b` holds iff `a.fileId < b.fileId`, or the file ids are equal and `a.offset < b.offset` |
| `Layout.LessIsPackedOrder` | include/global_def.h:27-34 | the address order is the numeric order of `fileId * 2^32 + offset` |
| `Layout.LessIrreflexive` | include/global_def.h:31-34 | no address is below itself |
| `Layout.LessTransitive` | include/global_def.h:31-34 | the address order is transitive |
| `Layout.LessTrichotomous` | include/global_def.h:31-34 | of two different addresses, exactly one is below the other |
| `Layout.Bucket.constructor` | include/global_def.h:46-51 | a new bucket has exactly 15 presence bits and 15 slots, in fresh arrays; their contents are arbitrary, as after `new pm_bucket` |
| `Layout.Catalog.constructor` | include/global_def.h:61-67 | both entry arrays have `size` entries; every entry names a freshly allocated 15-slot bucket; no two entries share a bucket or a bucket array |
| `HashFunc.MaskIsModulus` | src/pm_ehash.cpp:117 | ANDing a key with `2^d - 1` yields the key modulo `2^d` |
| `HashFunc.Hash` | src/pm_ehash.cpp:115-119 | the masked key is below `2^global_depth` and equals `key mod 2^global_depth` (the mask is computed exactly for `global_depth <= 30`) |
| `EHash.PmEHash.Index` | src/pm_ehash.cpp:115-119 | the index of a key under the engine's global depth is `key mod 2^global_depth`, so it lies inside the catalog |
| `EHash.PmEHash.constructor` | src/pm_ehash.cpp:10-14 | the engine starts from a recovered metadata record and catalog; the operations rely on global depth at most 30, at least `2^global_depth` entries, a 15-slot bucket in every entry, and no array shared by two different buckets |
| `BucketView.Put` | src/pm_ehash.cpp:48-50 | the lowest free slot becomes live and holds the new pair; every other bit and slot is unchanged |
| `BucketView.Clear` | src/pm_ehash.cpp:66-70 | no slot becomes live; when a live slot holds the key, exactly the first such slot's bit is cleared; otherwise the bucket is unchanged; slot bytes never change |
| `BucketView.Replace` | src/pm_ehash.cpp:82-85 | after remove-then-insert the key is still found, and it reads back the new value whenever no second live copy survived the remove |
| `BucketView.FirstFreeFrom` | src/pm_ehash.cpp:145-153 | the result is the lowest slot from the start index whose bit is clear, or none when all those bits are set |
| `BucketView.FindFrom` | src/pm_ehash.cpp:101-107 | the result is the lowest live slot from the start index holding the key, or none when no live slot holds it |
| `EHash.PmEHash.GetFreeKvSlot` | src/pm_ehash.cpp:143-154 | returns the lowest clear bit's slot, or none when all 15 bits are set; with flag 1 exactly that bit becomes set; otherwise the bitmap is unchanged; no slot changes |
| `EHash.PmEHash.Search` | src/pm_ehash.cpp:96-108 | returns -1 when the index is at least `catalog_size` or no live slot holds the key; otherwise returns 0 with the value of the first live match; on -1 the caller's value is untouched; nothing is modified |
| `EHash.PmEHash.GetFreeBucket` | src/pm_ehash.cpp:126-136 | returns the bucket of catalog entry `key mod 2^global_depth`, whether or not it has a free slot (the split in between changes nothing); nothing is modified |
| `EHash.PmEHash.SplitBucket` | src/pm_ehash.cpp:161-163 | the split keeps the engine valid and changes no key's search result (its body is empty) |
| `EHash.PmEHash.MergeBucket` | src/pm_ehash.cpp:170-172 | the merge keeps the engine valid and changes no key's search result (its body is empty) |
| `EHash.PmEHash.Insert` | src/pm_ehash.cpp:43-50 | returns -1 with no change iff the key is visible; otherwise returns 0 and only the lowest free slot and its bit in the key's bucket change, to hold the new pair; the key then reads back its value when its index is below `catalog_size`; uniqueness of keys in that bucket is kept when its index is below `catalog_size`; every other key reads back as before |
| `EHash.PmEHash.Remove` | src/pm_ehash.cpp:62-74 | returns 0 iff a live slot in the key's bucket holds the key; only the first such slot's bit is cleared and no slot bytes change; with unique keys the key is no longer visible; every other key reads back as before |
| `EHash.PmEHash.Update` | src/pm_ehash.cpp:80-89 | returns -1 with no change iff the key is not visible; otherwise returns 0 and the bucket becomes `Replace` of its old contents; with unique keys the key then reads back the new value and keys stay unique; every other key reads back as before |
| `BucketView.LiveKeysFound` | src/pm_ehash.cpp:101-102 | a key belongs to a live slot exactly when the linear scan finds it |
| `BucketView.LookupAfterPut` | src/pm_ehash.cpp:48-50 | after claiming the lowest free slot for an absent key, the scan for that key finds the new value |
| `BucketView.LookupAfterPutOther` | src/pm_ehash.cpp:48-50 | writing into the lowest free slot does not change what the scan reports for any other key |
| `BucketView.PutKeepsUnique` | src/pm_ehash.cpp:43-50 | inserting a key that the bucket does not hold keeps the live keys unique |
| `BucketView.LookupAfterClear` | src/pm_ehash.cpp:66-70 | with unique keys, after the key's bit is cleared the scan no longer finds it |
| `BucketView.LookupAfterClearOther` | src/pm_ehash.cpp:66-70 | clearing the key's bit does not change what the scan reports for any other key |
| `BucketView.ClearKeepsUnique` | src/pm_ehash.cpp:68 | clearing a presence bit keeps the live keys unique |
| `BucketView.ReplaceSemantics` | src/pm_ehash.cpp:80-89 | with unique keys, remove-then-insert binds the key to the new value, keeps every other key's value and keeps keys unique |
| `BucketView.PutAddsToMap` | src/pm_ehash.cpp:43-50 | on the bucket's key-to-value map, inserting an absent key adds exactly that pair |
| `BucketView.ClearRemovesFromMap` | src/pm_ehash.cpp:62-74 | on the key-to-value map of a bucket with unique keys, removing a key deletes exactly that key |

## Left out

- Persistence is not modelled. This covers the destructor's `pmem_persist`, `pmem_map_file`, `pmem_unmap` and `WritePageToFile` calls (src/pm_ehash.cpp:20-36) and the page write-back at the end of `insert` (src/pm_ehash.cpp:52-53). These are persistent-memory I/O through libpmem, which is not part of this model.
- Start-up recovery is not modelled: `recoverMetadata`, `mapAllPage` and `recoverCatalog` (src/pm_ehash.cpp:10-14). Their bodies are empty or not part of this model, and the work is file mapping. `EHash.PmEHash.constructor` takes the recovered metadata and catalog as parameters instead.
- `selfDestory` (src/pm_ehash.cpp:224-228) is left out: it runs a shell `rm -rf`.
- `extendCatalog`, `getFreeSlot`, `allocNewPage`, `recover` and `mapAllPage` (src/pm_ehash.cpp:179-217) are left out because their bodies are empty. `splitBucket` and `mergeBucket` are modelled as the empty methods they are. No split, merge or directory doubling is modelled.
- The global `PageList` and the `vAddr2pmAddr` map are left out. They are persistence bookkeeping tied to mapped files. A data page is modelled only as a layout: a subset type with 16 bits and 16 bucket slots.
- The benchmark driver `src/ycsb.cpp` is left out. It does file redirection, trace replay and wall-clock timing.
- EHash.PmEHash.Insert: requires that an unseen key's bucket has a free slot. In the source, such an insert calls an empty split and then writes through the null pointer that `getFreeKvSlot` returns (src/pm_ehash.cpp:48-50).
- HashFunc.Hash: requires `global_depth <= 30`. The source shifts a 32-bit signed `1`, which overflows beyond that.
- Pointers are modelled as values. The `kv*` that `getFreeKvSlot` returns is a slot index, and NULL is `None`. `search`'s `uint64_t&` out-parameter is an input value paired with a returned value.
- A bucket from `new pm_bucket` is default-initialised. Its local depth, bits and slots are indeterminate, and the model leaves them arbitrary. Nothing makes a fresh bucket empty.
- `local_depth` and the catalog's persistent-address array are carried but never read. Only the empty split and merge would use them.
- The constant `DEFAULT_CATALOG_SIZE` (include/global_def.h:17) is not modelled: no modelled code reads it.
