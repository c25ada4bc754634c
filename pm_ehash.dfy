/** The in-memory engine of the persistent extendible hash: key addressing through the
    catalog, and the slot operations search, insert, remove and update on the buckets
    the catalog names. */
module EHash {
  import opened Optional
  import opened Layout
  import opened HashFunc
  import opened BucketView

  /** A bucket's presence bits and slots as a value. */
  ghost function ViewOf(b: Bucket): (v: View)
    reads b.bitmap, b.slot
    requires b.Valid()
    ensures v.WellFormed() && |v.bitmap| == BucketSlotNum
  {
    View(b.bitmap[..], b.slot[..])
  }

  class PmEHash {
    var metadata: Metadata
    var catalog: Catalog
    /** The arrays of every bucket the catalog names. */
    ghost var Repr: set<object>

    /** The catalog has an entry for every `globalDepth`-bit index, every entry names a
        bucket with the fixed layout, and two different buckets never share an array. */
    ghost predicate Valid()
      reads this, catalog.bucketsVirtualAddress
    {
      var entries := catalog.bucketsVirtualAddress;
      metadata.globalDepth <= 30 &&
      Pow2(metadata.globalDepth) <= entries.Length &&
      (forall i :: 0 <= i < entries.Length ==>
        entries[i] != null && entries[i].Valid() && entries[i].bitmap in Repr && entries[i].slot in Repr) &&
      (forall i, j :: 0 <= i < entries.Length && 0 <= j < entries.Length && entries[i] != entries[j] ==>
        entries[i].bitmap != entries[j].bitmap && entries[i].slot != entries[j].slot)
    }

    /** An engine over the metadata and catalog that start-up recovery hands over.
        Recovery itself is not part of this model; the requires clause states what the
        operations below rely on it to have produced. */
    constructor (metadata: Metadata, catalog: Catalog)
      requires metadata.globalDepth <= 30
      requires Pow2(metadata.globalDepth) <= catalog.bucketsVirtualAddress.Length
      requires forall i :: 0 <= i < catalog.bucketsVirtualAddress.Length ==>
        catalog.bucketsVirtualAddress[i] != null && catalog.bucketsVirtualAddress[i].Valid()
      requires forall i, j :: 0 <= i < j < catalog.bucketsVirtualAddress.Length ==>
        var b, c := catalog.bucketsVirtualAddress[i], catalog.bucketsVirtualAddress[j];
        b != c ==> b.bitmap != c.bitmap && b.slot != c.slot
      ensures Valid()
      ensures this.metadata == metadata && this.catalog == catalog
    {
      this.metadata := metadata;
      this.catalog := catalog;
      var entries := catalog.bucketsVirtualAddress;
      Repr := (set i | 0 <= i < entries.Length :: entries[i].bitmap as object)
        + (set i | 0 <= i < entries.Length :: entries[i].slot as object);
    }

    /** The catalog index of `key`: its low `globalDepth` bits. */
    function Index(key: u64): (h: nat)
      reads this, catalog.bucketsVirtualAddress
      requires Valid()
      ensures h < Pow2(metadata.globalDepth) <= catalog.bucketsVirtualAddress.Length
      ensures h == key % Pow2(metadata.globalDepth)
    {
      Hash(key, metadata.globalDepth)
    }

    /** The bucket the catalog entry of `key` names. */
    ghost function BucketFor(key: u64): (b: Bucket)
      reads this, catalog.bucketsVirtualAddress
      requires Valid()
      ensures b.Valid() && b.bitmap in Repr && b.slot in Repr
    {
      catalog.bucketsVirtualAddress[Index(key)]
    }

    /** What `Search` reports for `key`: nothing when the index lies beyond the recorded
        catalog size, otherwise the first live match in the key's bucket. */
    ghost function Visible(key: u64): Option<u64>
      reads this, catalog.bucketsVirtualAddress, Repr
      requires Valid()
    {
      if Index(key) >= metadata.catalogSize then None
      else Lookup(ViewOf(BucketFor(key)), key)
    }

    /** When only the arrays of the bucket of `key` were written, and a scan of that
        bucket reports the same for every other key, then every other key reads back
        as before. */
    twostate lemma OtherKeysKept(key: u64)
      requires old(Valid()) && unchanged(this) && unchanged(catalog.bucketsVirtualAddress)
      requires forall a :: a in Repr && a != BucketFor(key).bitmap && a != BucketFor(key).slot ==> unchanged(a)
      requires forall k :: k != key ==> Lookup(ViewOf(BucketFor(key)), k) == Lookup(old(ViewOf(BucketFor(key))), k)
      ensures Valid()
      ensures forall k :: k != key ==> Visible(k) == old(Visible(k))
    {
      forall k | k != key
        ensures Visible(k) == old(Visible(k))
      {
        var b := BucketFor(k);
        if b != BucketFor(key) {
          assert unchanged(b.bitmap, b.slot);
        }
      }
    }

    /** Find the lowest free slot of `bucket` (None when the bucket is full) and, when
        `flag` is 1, claim it by setting its presence bit. */
    method GetFreeKvSlot(bucket: Bucket, flag: int) returns (r: Option<nat>)
      requires bucket.Valid()
      modifies if flag == 1 then {bucket.bitmap} else {}
      ensures r == FirstFree(old(bucket.bitmap[..]))
      ensures r.Some? ==> r.value < BucketSlotNum
      ensures bucket.bitmap[..] ==
        if flag == 1 && r.Some? then old(bucket.bitmap[..])[r.value := true] else old(bucket.bitmap[..])
    {
      for i := 0 to BucketSlotNum
        invariant bucket.bitmap[..] == old(bucket.bitmap[..])
        invariant forall j :: 0 <= j < i ==> bucket.bitmap[j]
      {
        if !bucket.bitmap[i] {
          if flag == 1 {
            bucket.bitmap[i] := true;
          }
          return Some(i);
        }
      }
      return None;
    }

    /** Look `key` up. Status 0 hands back the value of the first live slot holding the
        key; status -1 (index beyond the catalog size, or no such slot) leaves the
        caller's `returnVal0` as it was. */
    method Search(key: u64, returnVal0: u64) returns (status: int, returnVal: u64)
      requires Valid()
      ensures status == 0 || status == -1
      ensures status == 0 <==> Visible(key).Some?
      ensures status == 0 ==> returnVal == Visible(key).value
      ensures status == -1 ==> returnVal == returnVal0
    {
      var h := Index(key);
      if h >= metadata.catalogSize {
        return -1, returnVal0;
      }
      var bucket := catalog.bucketsVirtualAddress[h];
      var tslot, tbitmap := bucket.slot, bucket.bitmap;
      ghost var v := ViewOf(bucket);
      for i := 0 to BucketSlotNum
        invariant forall j :: 0 <= j < i ==> !LiveWith(v, j, key)
      {
        if tbitmap[i] && tslot[i].key == key {
          assert LiveWith(v, i, key) && FindKey(v, key) == Some(i);
          return 0, tslot[i].value;
        }
      }
      assert FindKey(v, key).None?;
      return -1, returnVal0;
    }

    /** Split the bucket at catalog index `bucketId`. The body is empty, so no key's
        search result changes. */
    method SplitBucket(bucketId: nat)
      requires Valid()
      ensures Valid()
      ensures forall k :: Visible(k) == old(Visible(k))
    {
    }

    /** Merge the bucket at catalog index `bucketId` with its buddy. The body is empty,
        so no key's search result changes. */
    method MergeBucket(bucketId: nat)
      requires Valid()
      ensures Valid()
      ensures forall k :: Visible(k) == old(Visible(k))
    {
    }

    /** The bucket an insert of `key` goes to. When the key's bucket is full a split is
        requested first, but the split changes nothing, so the key's own bucket is
        returned either way. */
    method GetFreeBucket(key: u64) returns (bucket: Bucket)
      requires Valid()
      ensures bucket == catalog.bucketsVirtualAddress[key % Pow2(metadata.globalDepth)]
    {
      var h := Index(key);
      var curbucket := catalog.bucketsVirtualAddress[h];
      var free := GetFreeKvSlot(curbucket, 0);
      if free.None? {
        SplitBucket(h);
        h := Index(key);
        bucket := catalog.bucketsVirtualAddress[h];
      } else {
        bucket := curbucket;
      }
    }

    /** Insert `newKvPair`: -1 and no change when `Search` finds the key, otherwise the
        pair is written into the lowest free slot of the key's bucket and 0 returned.
        The caller must not insert an unseen key into a full bucket. */
    method Insert(newKvPair: KV) returns (r: int)
      requires Valid()
      requires Visible(newKvPair.key).None? ==> FirstFree(ViewOf(BucketFor(newKvPair.key)).bitmap).Some?
      modifies BucketFor(newKvPair.key).bitmap, BucketFor(newKvPair.key).slot
      ensures Valid()
      ensures r == 0 || r == -1
      ensures r == -1 <==> old(Visible(newKvPair.key)).Some?
      ensures r == -1 ==> ViewOf(BucketFor(newKvPair.key)) == old(ViewOf(BucketFor(newKvPair.key)))
      ensures r == 0 ==> ViewOf(BucketFor(newKvPair.key)) == Put(old(ViewOf(BucketFor(newKvPair.key))), newKvPair)
      ensures r == 0 && Index(newKvPair.key) < metadata.catalogSize ==>
        Visible(newKvPair.key) == Some(newKvPair.value)
      ensures r == 0 && Index(newKvPair.key) < metadata.catalogSize && old(UniqueKeys(ViewOf(BucketFor(newKvPair.key)))) ==>
        UniqueKeys(ViewOf(BucketFor(newKvPair.key)))
      ensures forall k :: k != newKvPair.key ==> Visible(k) == old(Visible(k))
    {
      var found, _ := Search(newKvPair.key, 0);
      if found == 0 {
        return -1;
      }
      var bucket := GetFreeBucket(newKvPair.key);
      ghost var before := ViewOf(bucket);
      var freePlace := GetFreeKvSlot(bucket, 1);
      bucket.slot[freePlace.value] := newKvPair;
      assert ViewOf(bucket) == Put(before, newKvPair);
      if Index(newKvPair.key) < metadata.catalogSize {
        LookupAfterPut(before, newKvPair);
        if UniqueKeys(before) {
          PutKeepsUnique(before, newKvPair);
        }
      }
      forall k | k != newKvPair.key
        ensures Lookup(ViewOf(bucket), k) == Lookup(before, k)
      {
        LookupAfterPutOther(before, newKvPair, k);
      }
      OtherKeysKept(newKvPair.key);
      return 0;
    }

    /** Remove `key`: clear the presence bit of the first live slot holding it and
        return 0, or return -1 when there is none. The slot's bytes are left in place.
        Unlike `Search`, the catalog size is not consulted. */
    method Remove(key: u64) returns (r: int)
      requires Valid()
      modifies BucketFor(key).bitmap
      ensures Valid()
      ensures r == 0 || r == -1
      ensures r == 0 <==> FindKey(old(ViewOf(BucketFor(key))), key).Some?
      ensures ViewOf(BucketFor(key)) == Clear(old(ViewOf(BucketFor(key))), key)
      ensures old(UniqueKeys(ViewOf(BucketFor(key)))) ==>
        Visible(key).None? && UniqueKeys(ViewOf(BucketFor(key)))
      ensures forall k :: k != key ==> Visible(k) == old(Visible(k))
    {
      var h := Index(key);
      var tslot := catalog.bucketsVirtualAddress[h].slot;
      var tbitmap := catalog.bucketsVirtualAddress[h].bitmap;
      ghost var before := ViewOf(BucketFor(key));
      r := -1;
      for i := 0 to BucketSlotNum
        invariant tbitmap[..] == before.bitmap
        invariant forall j :: 0 <= j < i ==> !LiveWith(before, j, key)
      {
        if tbitmap[i] && tslot[i].key == key {
          assert LiveWith(before, i, key) && FindKey(before, key) == Some(i);
          catalog.bucketsVirtualAddress[h].bitmap[i] := false;
          MergeBucket(h);
          r := 0;
          break;
        }
      }
      assert r == -1 ==> FindKey(before, key).None?;
      assert ViewOf(BucketFor(key)) == Clear(before, key);
      if UniqueKeys(before) {
        LookupAfterClear(before, key);
        ClearKeepsUnique(before, key);
      }
      forall k | k != key
        ensures Lookup(ViewOf(BucketFor(key)), k) == Lookup(before, k)
      {
        LookupAfterClearOther(before, key, k);
      }
      OtherKeysKept(key);
    }

    /** Update `kvPair.key` to `kvPair.value`: -1 and no change when `Search` does not
        find the key, otherwise `Remove` followed by `Insert`, and 0. */
    method Update(kvPair: KV) returns (r: int)
      requires Valid()
      modifies BucketFor(kvPair.key).bitmap, BucketFor(kvPair.key).slot
      ensures Valid()
      ensures r == 0 || r == -1
      ensures r == -1 <==> old(Visible(kvPair.key)).None?
      ensures r == -1 ==> ViewOf(BucketFor(kvPair.key)) == old(ViewOf(BucketFor(kvPair.key)))
      ensures r == 0 ==> ViewOf(BucketFor(kvPair.key)) == Replace(old(ViewOf(BucketFor(kvPair.key))), kvPair)
      ensures r == 0 && old(UniqueKeys(ViewOf(BucketFor(kvPair.key)))) ==>
        Visible(kvPair.key) == Some(kvPair.value) && UniqueKeys(ViewOf(BucketFor(kvPair.key)))
      ensures forall k :: k != kvPair.key ==> Visible(k) == old(Visible(k))
    {
      var found, _ := Search(kvPair.key, 0);
      if found == 0 {
        ghost var before := ViewOf(BucketFor(kvPair.key));
        var removed := Remove(kvPair.key);
        assert !ViewOf(BucketFor(kvPair.key)).bitmap[FindKey(before, kvPair.key).value];
        var inserted := Insert(kvPair);
        if UniqueKeys(before) {
          ReplaceSemantics(before, kvPair);
        }
        return 0;
      } else {
        return -1;
      }
    }
  }
}
