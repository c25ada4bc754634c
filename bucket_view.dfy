/** The slot area of one bucket as a value: its presence bits and its slots. The
    functions here specify what the engine's slot operations do to a bucket, and the
    lemmas state what those operations mean for the records the bucket holds. */
module BucketView {
  import opened Optional
  import opened Layout

  /** A bucket's presence bits and slots, as they are at one moment. */
  datatype View = View(bitmap: seq<bool>, slot: seq<KV>)
  {
    predicate WellFormed() {
      |bitmap| == |slot|
    }
  }

  /** Slot `i` holds a live record with key `key`. */
  predicate LiveWith(v: View, i: nat, key: u64)
    requires v.WellFormed() && i < |v.bitmap|
  {
    v.bitmap[i] && v.slot[i].key == key
  }

  /** The lowest slot at or after `from` whose presence bit is clear. */
  function FirstFreeFrom(bitmap: seq<bool>, from: nat): (r: Option<nat>)
    requires from <= |bitmap|
    ensures r.Some? ==> from <= r.value < |bitmap| && !bitmap[r.value]
    ensures r.Some? ==> forall j :: from <= j < r.value ==> bitmap[j]
    ensures r.None? ==> forall j :: from <= j < |bitmap| ==> bitmap[j]
    decreases |bitmap| - from
  {
    if from == |bitmap| then None
    else if !bitmap[from] then Some(from)
    else FirstFreeFrom(bitmap, from + 1)
  }

  /** The lowest free slot, or None when every presence bit is set. */
  function FirstFree(bitmap: seq<bool>): Option<nat> {
    FirstFreeFrom(bitmap, 0)
  }

  /** The lowest live slot at or after `from` holding `key`. */
  function FindFrom(v: View, key: u64, from: nat): (r: Option<nat>)
    requires v.WellFormed() && from <= |v.bitmap|
    ensures r.Some? ==> from <= r.value < |v.bitmap| && LiveWith(v, r.value, key)
    ensures r.Some? ==> forall j :: from <= j < r.value ==> !LiveWith(v, j, key)
    ensures r.None? ==> forall j :: from <= j < |v.bitmap| ==> !LiveWith(v, j, key)
    decreases |v.bitmap| - from
  {
    if from == |v.bitmap| then None
    else if v.bitmap[from] && v.slot[from].key == key then Some(from)
    else FindFrom(v, key, from + 1)
  }

  /** The first live slot holding `key`, as a linear scan finds it. */
  function FindKey(v: View, key: u64): Option<nat>
    requires v.WellFormed()
  {
    FindFrom(v, key, 0)
  }

  /** The value a linear scan for `key` reports. */
  function Lookup(v: View, key: u64): Option<u64>
    requires v.WellFormed()
  {
    match FindKey(v, key)
    case Some(i) => Some(v.slot[i].value)
    case None => None
  }

  /** No two live slots hold the same key. */
  ghost predicate UniqueKeys(v: View)
    requires v.WellFormed()
  {
    forall i, j :: 0 <= i < j < |v.bitmap| && v.bitmap[i] && v.bitmap[j] ==> v.slot[i].key != v.slot[j].key
  }

  /** Claim the lowest free slot and write `kv` into it. */
  function Put(v: View, kv: KV): (r: View)
    requires v.WellFormed() && FirstFree(v.bitmap).Some?
    ensures r.WellFormed() && |r.bitmap| == |v.bitmap|
    ensures var i := FirstFree(v.bitmap).value;
      !v.bitmap[i] && r.bitmap[i] && r.slot[i] == kv &&
      forall j :: 0 <= j < |v.bitmap| && j != i ==> r.bitmap[j] == v.bitmap[j] && r.slot[j] == v.slot[j]
  {
    var i := FirstFree(v.bitmap).value;
    View(v.bitmap[i := true], v.slot[i := kv])
  }

  /** Clear the presence bit of the first live slot holding `key`; the slot's bytes stay. */
  function Clear(v: View, key: u64): (r: View)
    requires v.WellFormed()
    ensures r.WellFormed() && |r.bitmap| == |v.bitmap| && r.slot == v.slot
    ensures forall m :: 0 <= m < |r.bitmap| && r.bitmap[m] ==> v.bitmap[m]
    ensures FindKey(v, key).None? ==> r == v
    ensures FindKey(v, key).Some? ==> var j := FindKey(v, key).value;
      v.bitmap[j] && !r.bitmap[j] &&
      forall m :: 0 <= m < |v.bitmap| && m != j ==> r.bitmap[m] == v.bitmap[m]
  {
    match FindKey(v, key)
    case Some(j) => View(v.bitmap[j := false], v.slot)
    case None => v
  }

  /** Remove `kv.key`, then insert `kv` unless a second live copy of the key remains. */
  function Replace(v: View, kv: KV): (r: View)
    requires v.WellFormed() && FindKey(v, kv.key).Some?
    ensures r.WellFormed() && |r.bitmap| == |v.bitmap|
    ensures Lookup(r, kv.key).Some?
    ensures FindKey(Clear(v, kv.key), kv.key).None? ==> Lookup(r, kv.key) == Some(kv.value)
  {
    var c := Clear(v, kv.key);
    assert !c.bitmap[FindKey(v, kv.key).value];
    if FindKey(c, kv.key).Some? then c else LookupAfterPut(c, kv); Put(c, kv)
  }

  /** The keys of the live slots. */
  ghost function LiveKeys(v: View): set<u64>
    requires v.WellFormed()
  {
    set i | 0 <= i < |v.bitmap| && v.bitmap[i] :: v.slot[i].key
  }

  /** The records a bucket holds, as a map from key to value. */
  ghost function AsMap(v: View): map<u64, u64>
    requires v.WellFormed()
  {
    map k | k in LiveKeys(v) :: LiveKeysFound(v, k); Lookup(v, k).value
  }

  /** A key is live exactly when the scan finds it. */
  lemma LiveKeysFound(v: View, k: u64)
    requires v.WellFormed()
    ensures k in LiveKeys(v) <==> FindKey(v, k).Some?
  {
    if k in LiveKeys(v) {
      var i :| 0 <= i < |v.bitmap| && v.bitmap[i] && v.slot[i].key == k;
      assert LiveWith(v, i, k);
    }
  }

  /** After `Put`, a scan for the inserted key finds the new value. */
  lemma LookupAfterPut(v: View, kv: KV)
    requires v.WellFormed() && FirstFree(v.bitmap).Some? && FindKey(v, kv.key).None?
    ensures Lookup(Put(v, kv), kv.key) == Some(kv.value)
  {
    var i := FirstFree(v.bitmap).value;
    var r := Put(v, kv);
    assert LiveWith(r, i, kv.key);
    assert FindKey(r, kv.key) == Some(i) by {
      forall j | 0 <= j < i ensures !LiveWith(r, j, kv.key) {
        assert !LiveWith(v, j, kv.key);
      }
    }
  }

  /** `Put` does not change what a scan for any other key reports. */
  lemma LookupAfterPutOther(v: View, kv: KV, k: u64)
    requires v.WellFormed() && FirstFree(v.bitmap).Some? && k != kv.key
    ensures Lookup(Put(v, kv), k) == Lookup(v, k)
  {
    var i := FirstFree(v.bitmap).value;
    var r := Put(v, kv);
    assert forall j :: 0 <= j < |v.bitmap| ==> (LiveWith(r, j, k) <==> LiveWith(v, j, k));
    match FindKey(v, k)
    case None =>
    case Some(j) =>
      assert j != i;
      assert FindKey(r, k) == Some(j) by {
        assert LiveWith(r, j, k);
        forall m | 0 <= m < j ensures !LiveWith(r, m, k) {
          assert !LiveWith(v, m, k);
        }
      }
  }

  /** `Put` of an absent key keeps the keys of the live slots unique. */
  lemma PutKeepsUnique(v: View, kv: KV)
    requires v.WellFormed() && FirstFree(v.bitmap).Some? && FindKey(v, kv.key).None?
    requires UniqueKeys(v)
    ensures UniqueKeys(Put(v, kv))
  {
    var i := FirstFree(v.bitmap).value;
    var r := Put(v, kv);
    forall a, b | 0 <= a < b < |r.bitmap| && r.bitmap[a] && r.bitmap[b]
      ensures r.slot[a].key != r.slot[b].key
    {
      if a == i {
        assert !LiveWith(v, b, kv.key);
      } else if b == i {
        assert !LiveWith(v, a, kv.key);
      }
    }
  }

  /** After `Clear`, a scan for the key fails when keys were unique. */
  lemma LookupAfterClear(v: View, key: u64)
    requires v.WellFormed() && UniqueKeys(v)
    ensures Lookup(Clear(v, key), key).None?
  {
  }

  /** `Clear` does not change what a scan for any other key reports. */
  lemma LookupAfterClearOther(v: View, key: u64, k: u64)
    requires v.WellFormed() && k != key
    ensures Lookup(Clear(v, key), k) == Lookup(v, k)
  {
    var r := Clear(v, key);
    assert forall j :: 0 <= j < |v.bitmap| ==> (LiveWith(r, j, k) <==> LiveWith(v, j, k));
    match FindKey(v, k)
    case None =>
    case Some(j) =>
      assert FindKey(r, k) == Some(j) by {
        assert LiveWith(r, j, k);
        forall m | 0 <= m < j ensures !LiveWith(r, m, k) {
          assert !LiveWith(v, m, k);
        }
      }
  }

  /** Clearing a presence bit keeps the keys of the live slots unique. */
  lemma ClearKeepsUnique(v: View, key: u64)
    requires v.WellFormed() && UniqueKeys(v)
    ensures UniqueKeys(Clear(v, key))
  {
  }

  /** On a bucket with unique keys, `Replace` binds the key to the new value, keeps
      every other key's value and keeps keys unique. */
  lemma ReplaceSemantics(v: View, kv: KV)
    requires v.WellFormed() && FindKey(v, kv.key).Some? && UniqueKeys(v)
    ensures UniqueKeys(Replace(v, kv))
    ensures Lookup(Replace(v, kv), kv.key) == Some(kv.value)
    ensures forall k :: k != kv.key ==> Lookup(Replace(v, kv), k) == Lookup(v, k)
  {
    var c := Clear(v, kv.key);
    ClearKeepsUnique(v, kv.key);
    LookupAfterClear(v, kv.key);
    assert FindKey(c, kv.key).None?;
    assert FirstFree(c.bitmap).Some? by {
      assert !c.bitmap[FindKey(v, kv.key).value];
    }
    PutKeepsUnique(c, kv);
    LookupAfterPut(c, kv);
    forall k | k != kv.key ensures Lookup(Replace(v, kv), k) == Lookup(v, k) {
      LookupAfterPutOther(c, kv, k);
      LookupAfterClearOther(v, kv.key, k);
    }
  }

  /** On the map of records, `Put` of an absent key adds the pair. */
  lemma PutAddsToMap(v: View, kv: KV)
    requires v.WellFormed() && FirstFree(v.bitmap).Some? && FindKey(v, kv.key).None?
    ensures AsMap(Put(v, kv)) == AsMap(v)[kv.key := kv.value]
  {
    var r := Put(v, kv);
    forall k ensures k in LiveKeys(r) <==> k in LiveKeys(v) || k == kv.key {
      LiveKeysFound(r, k);
      LiveKeysFound(v, k);
      if k == kv.key {
        LookupAfterPut(v, kv);
      } else {
        LookupAfterPutOther(v, kv, k);
      }
    }
    forall k | k in LiveKeys(r) ensures AsMap(r)[k] == AsMap(v)[kv.key := kv.value][k] {
      if k == kv.key {
        LookupAfterPut(v, kv);
      } else {
        LookupAfterPutOther(v, kv, k);
      }
    }
  }

  /** On the map of records of a bucket with unique keys, `Clear` removes the key. */
  lemma ClearRemovesFromMap(v: View, key: u64)
    requires v.WellFormed() && UniqueKeys(v)
    ensures AsMap(Clear(v, key)) == AsMap(v) - {key}
  {
    var r := Clear(v, key);
    forall k ensures k in LiveKeys(r) <==> k in LiveKeys(v) && k != key {
      LiveKeysFound(r, k);
      LiveKeysFound(v, k);
      if k == key {
        LookupAfterClear(v, key);
      } else {
        LookupAfterClearOther(v, key, k);
      }
    }
    forall k | k in LiveKeys(r) ensures AsMap(r)[k] == AsMap(v)[k] {
      LookupAfterClearOther(v, key, k);
    }
  }
}
