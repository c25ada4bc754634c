/** The persistent layouts shared by the whole index: fixed-width integers, the
    persistent address of a bucket, the key/value record, the bucket, the metadata
    record, the data page and the catalog (directory). */
module Layout {

  type u32 = x: int | 0 <= x < 0x1_0000_0000
  type u64 = x: int | 0 <= x < 0x1_0000_0000_0000_0000

  /** Number of bucket slots (and presence bits) in one data page. */
  const DataPageSlotNum: nat := 16
  /** Number of key/value slots (and presence bits) in one bucket. */
  const BucketSlotNum: nat := 15

  /** The address of a bucket in persistent memory: a page file and an offset in it. */
  datatype PmAddress = PmAddress(fileId: u32, offset: u32)
  {
    /** The address order: offsets decide between equal file ids, file ids otherwise. */
    predicate Less(t: PmAddress)
      ensures Less(t) ==> this != t
      ensures Less(t) ==> fileId <= t.fileId
    {
      if fileId == t.fileId then offset < t.offset else fileId < t.fileId
    }
  }

  /** The address as one 64-bit number, file id in the high half. */
  function Packed(a: PmAddress): (n: nat)
    ensures n < 0x1_0000_0000_0000_0000
    ensures n / 0x1_0000_0000 == a.fileId && n % 0x1_0000_0000 == a.offset
  {
    a.fileId * 0x1_0000_0000 + a.offset
  }

  /** `Less` is the lexicographic order on (fileId, offset). */
  lemma LessIsLexicographic(a: PmAddress, b: PmAddress)
    ensures a.Less(b) <==> a.fileId < b.fileId || (a.fileId == b.fileId && a.offset < b.offset)
  {
  }

  /** `Less` agrees with the numeric order of the packed 64-bit addresses. */
  lemma LessIsPackedOrder(a: PmAddress, b: PmAddress)
    ensures a.Less(b) <==> Packed(a) < Packed(b)
  {
  }

  lemma LessIrreflexive(a: PmAddress)
    ensures !a.Less(a)
  {
  }

  lemma LessTransitive(a: PmAddress, b: PmAddress, c: PmAddress)
    requires a.Less(b) && b.Less(c)
    ensures a.Less(c)
  {
  }

  /** Two different addresses are ordered one way or the other, never both. */
  lemma LessTrichotomous(a: PmAddress, b: PmAddress)
    requires a != b
    ensures a.Less(b) != b.Less(a)
  {
  }

  /** The record stored by the index. */
  datatype KV = KV(key: u64, value: u64)

  /** The persistent metadata record. */
  datatype Metadata = Metadata(maxFileId: u64, catalogSize: u64, globalDepth: u64)

  /** A bucket: its local depth, one presence bit per slot, and the slots. A slot
      holds a live record exactly when its presence bit is set. */
  class Bucket {
    var localDepth: u64
    const bitmap: array<bool>
    const slot: array<KV>

    /** The bucket layout: exactly `BucketSlotNum` presence bits and slots. */
    ghost predicate Valid() {
      bitmap.Length == BucketSlotNum && slot.Length == BucketSlotNum
    }

    /** A bucket obtained by `new`: the layout is fixed, while the local depth, the
        bits and the slots hold whatever the allocation left there. */
    constructor ()
      ensures Valid()
      ensures fresh(bitmap) && fresh(slot)
    {
      bitmap := new bool[BucketSlotNum];
      slot := new KV[BucketSlotNum];
    }
  }

  /** The layout of a data page file: a file id, one presence bit per bucket slot, and
      the buckets stored in the page. */
  datatype DataPageLayout = DataPageLayout(fid: u32, bitmap: seq<bool>, slot: seq<Bucket?>)

  /** A data page has exactly `DataPageSlotNum` bits and bucket slots. */
  type DataPage = p: DataPageLayout | |p.bitmap| == DataPageSlotNum && |p.slot| == DataPageSlotNum
    witness DataPageLayout(0, seq(DataPageSlotNum, _ => false), seq(DataPageSlotNum, _ => null))

  /** The directory: entry `i` names a bucket both by persistent address and by
      reference. Several entries may name the same bucket. */
  class Catalog {
    const bucketsPmAddress: array<PmAddress>
    const bucketsVirtualAddress: array<Bucket?>

    /** A catalog of `size` entries, each naming a bucket of its own. */
    constructor (size: u64)
      ensures bucketsPmAddress.Length == size && bucketsVirtualAddress.Length == size
      ensures fresh(bucketsPmAddress) && fresh(bucketsVirtualAddress)
      ensures forall i :: 0 <= i < size ==>
        var b := bucketsVirtualAddress[i];
        b != null && b.Valid() && fresh(b) && fresh(b.bitmap) && fresh(b.slot)
      ensures forall i, j :: 0 <= i < j < size ==>
        var b, c := bucketsVirtualAddress[i], bucketsVirtualAddress[j];
        b != c && b.bitmap != c.bitmap && b.slot != c.slot
    {
      bucketsPmAddress := new PmAddress[size];
      var buckets := new Bucket?[size];
      for i := 0 to size
        invariant forall k :: 0 <= k < i ==>
          var b := buckets[k];
          b != null && b.Valid() && fresh(b) && fresh(b.bitmap) && fresh(b.slot)
        invariant forall k, m :: 0 <= k < m < i ==>
          var b, c := buckets[k], buckets[m];
          b != c && b.bitmap != c.bitmap && b.slot != c.slot
      {
        buckets[i] := new Bucket();
      }
      bucketsVirtualAddress := buckets;
    }
  }
}
