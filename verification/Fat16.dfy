/** The FAT16 read path: FAT entries and clusters are read through sector streams,
    and every chunk walks the chain from its start. */
module Fat16 {
  import opened Status
  import opened Division
  import opened DiskStreams
  import opened FatChains
  import opened FatReads

  class FatReader {
    const volume: Volume
    const clusterStream: DiskStream
    const fatStream: DiskStream

    constructor (volume: Volume)
      requires Mountable(volume)
      ensures this.volume == volume && Valid()
      ensures fresh(clusterStream) && fresh(fatStream)
    {
      this.volume := volume;
      clusterStream := new DiskStream(volume.disk);
      fatStream := new DiskStream(volume.disk);
    }

    ghost predicate Valid() {
      Mountable(volume) && clusterStream != fatStream
      && clusterStream.disk == volume.disk && fatStream.disk == volume.disk
    }

    /** fat16_get_fat_entry: two bytes, decoded correctly at every sector offset,
        including 510, where the stream's final position is off. */
    method GetFatEntry(cluster: nat) returns (res: int)
      requires Valid() && FatPosition(volume, cluster) < INT_LIMIT - 2 * SECTOR_SIZE
      modifies fatStream
      ensures res == FatEntry(volume, cluster)
    {
      var position := volume.reservedSectors * SECTOR_SIZE;
      res := fatStream.Seek(position + cluster * 2);
      ghost var p := position + cluster * 2;
      assert p % SECTOR_SIZE <= SECTOR_SIZE - 2 by { assert p % 2 == 0; }
      StreamExactly(p, 2);
      var result := new Byte[2](_ => 0);
      res := fatStream.Read(result, 0, 2);
      assert result[..][0] == ByteAt(volume.disk, p) && result[..][1] == ByteAt(volume.disk, p + 1);
      var low: int, high: int := result[0], result[1];
      res := low + 256 * high;
    }

    /** fat16_get_cluster_for_offset. */
    method GetClusterForOffset(start: nat, offset: nat) returns (res: int)
      requires Valid() && FatPosition(volume, start) < INT_LIMIT - 2 * SECTOR_SIZE && offset < INT_LIMIT
      modifies fatStream
      ensures match Follow(volume, start, Quot(offset, ClusterSize(volume)))
              case None => res == -EIO
              case Some(c) => res == c
    {
      var clusterToUse: nat := start;
      var clustersAhead := Quot(offset, ClusterSize(volume));
      var i := 0;
      while i < clustersAhead
        invariant 0 <= i <= clustersAhead
        invariant FatPosition(volume, clusterToUse) < INT_LIMIT - 2 * SECTOR_SIZE
        invariant Follow(volume, start, clustersAhead) == Follow(volume, clusterToUse, clustersAhead - i)
      {
        var entry := GetFatEntry(clusterToUse);
        if Stops(entry) {
          return -EIO;
        }
        clusterToUse := entry;
        assert FatPosition(volume, clusterToUse) < INT_LIMIT - 2 * SECTOR_SIZE;
        i := i + 1;
      }
      res := clusterToUse;
    }

    /** fat16_read_internal_from_stream. */
    method ReadInternal(start: nat, offset: nat, total: nat, out: array<Byte>, at: nat) returns (res: int)
      requires Valid() && Addressable(volume, start, LastWalked(volume, offset, total))
      requires offset + total < INT_LIMIT && at + total <= out.Length
      modifies clusterStream, fatStream, out
      ensures ReadResult(res, out[..]) == ReadChunks(volume, start, offset, total, old(out[..]), at)
      decreases total
    {
      hide Quot, Rem, Delivered, Follow, EndOf, FatPosition;
      var clusterToUse := GetClusterForOffset(start, offset);
      if clusterToUse < 0 {
        return clusterToUse;
      }
      assert Placed(volume, clusterToUse);
      var offsetFromCluster := Rem(offset, ClusterSize(volume));
      var startingSector := volume.rootEnd + (clusterToUse - 2) * volume.sectorsPerCluster;
      var startingPos := startingSector * SECTOR_SIZE + offsetFromCluster;
      var totalToRead := if total > ClusterSize(volume) then ClusterSize(volume) else total;
      DeliveredAtMost(startingPos, totalToRead);
      res := clusterStream.Seek(startingPos);
      res := clusterStream.Read(out, at, totalToRead);
      var left := total - totalToRead;
      if left > 0 {
        WalkStep(volume, offset, total);
        res := ReadInternal(start, offset + totalToRead, left, out, at + totalToRead);
      }
    }

    /** fat16_read: nmemb items of size bytes from the descriptor's position on. */
    method Read(desc: FileDescriptor, size: nat, nmemb: nat, out: array<Byte>) returns (res: int)
      requires Valid() && out.Length >= size * nmemb
      requires ItemsAddressable(volume, desc.firstCluster, desc.pos, size, nmemb)
      requires desc.pos + size * nmemb < INT_LIMIT
      modifies desc, clusterStream, fatStream, out
      ensures res == nmemb || res == -EIO
      ensures desc.pos == if res < 0 then old(desc.pos) else old(desc.pos) + size * nmemb
      ensures res < 0 <==> exists i :: 0 <= i < nmemb && ItemFails(volume, desc.firstCluster, old(desc.pos), size, i)
      ensures res >= 0 ==> ItemsRead(volume, desc.firstCluster, old(desc.pos), size, nmemb, old(out[..]), out[..])
      ensures res >= 0 ==> forall i | 0 <= i < nmemb && WholeItem(volume, desc.firstCluster, old(desc.pos), size, i) ::
                ItemIsFile(volume, desc.firstCluster, old(desc.pos), size, i, out[..])
      ensures nmemb >= 1 && Aligned(volume, old(desc.pos), size, nmemb) ==>
                (res < 0 <==> Follow(volume, desc.firstCluster, LastNeeded(volume, old(desc.pos), size * nmemb)).None?)
      ensures res >= 0 && Aligned(volume, old(desc.pos), size, nmemb) ==>
                forall j | 0 <= j < size * nmemb :: FromFile(volume, desc.firstCluster, out[..][j], old(desc.pos) + j)
      ensures forall j | size * nmemb <= j < out.Length :: out[j] == old(out[j])
    {
      hide Quot, Rem, Addressable, LastWalked, ReadChunks, ItemsRead, ItemFails, Whole, Aligned, FromFile, Follow;
      var first := desc.firstCluster;
      ghost var start, was := desc.pos, out[..];
      var offset := desc.pos;
      var i := 0;
      res := 0;
      NothingRead(volume, first, start, size, was);
      while i < nmemb
        invariant 0 <= i <= nmemb && desc.pos == start && offset == start + size * i
        invariant size * i <= size * nmemb
        invariant forall k | 0 <= k < i :: !ItemFails(volume, first, start, size, k)
        invariant ItemsRead(volume, first, start, size, i, was, out[..])
      {
        ghost var before := out[..];
        ItemRange(size, i, nmemb);
        assert ItemAddressable(volume, first, start, size, i);
        res := ReadInternal(first, offset, size, out, size * i);
        ItemStep(volume, first, start, size, i, was, before, ReadResult(res, out[..]));
        if res < 0 {
          ItemsFailed(volume, first, start, size, nmemb, i);
          return;
        }
        offset := offset + size;
        i := i + 1;
      }
      ItemsMean(volume, first, start, size, nmemb, was, out[..]);
      desc.pos := offset;
      res := nmemb;
    }
  }

  class FileDescriptor {
    const firstCluster: nat
    var pos: nat

    constructor (firstCluster: nat)
      ensures this.firstCluster == firstCluster && pos == 0
    {
      this.firstCluster, pos := firstCluster, 0;
    }
  }

  // ---- items

  ghost predicate ItemAddressable(v: Volume, first: nat, start: nat, size: nat, i: nat)
    requires Mountable(v)
  {
    Addressable(v, first, LastWalked(v, start + size * i, size))
  }

  ghost predicate ItemsAddressable(v: Volume, first: nat, start: nat, size: nat, nmemb: nat)
    requires Mountable(v)
  {
    forall i | 0 <= i < nmemb :: ItemAddressable(v, first, start, size, i)
  }

  /** The walk for item i meets a stop value. */
  predicate ItemFails(v: Volume, first: nat, start: nat, size: nat, i: nat)
    requires Mountable(v)
  {
    Fails(v, first, start + size * i, size)
  }

  /** Every byte of item i is what its source holds. */
  ghost predicate ItemSourced(v: Volume, first: nat, start: nat, size: nat, i: nat, was: seq<Byte>, now: seq<Byte>)
    requires Mountable(v) && ItemAddressable(v, first, start, size, i)
    requires size * i + size <= |was| == |now|
  {
    AllSourced(v, first, start + size * i, size, was, size * i, now)
  }

  /** The first n items are read, and nothing behind them has changed. */
  ghost predicate ItemsRead(v: Volume, first: nat, start: nat, size: nat, n: nat, was: seq<Byte>, now: seq<Byte>)
    requires Mountable(v)
  {
    && |was| == |now|
    && (forall i | 0 <= i < n :: ItemAddressable(v, first, start, size, i) && size * i + size <= |was|
                                 && ItemSourced(v, first, start, size, i, was, now))
    && forall j | 0 <= size * n <= j < |was| :: now[j] == was[j]
  }

  /** Item i is, from the FAT, a read that takes every byte from the right place. */
  ghost predicate WholeItem(v: Volume, first: nat, start: nat, size: nat, i: nat)
    requires Mountable(v)
  {
    && size >= 1 && Addressable(v, first, LastNeeded(v, start + size * i, size))
    && Whole(v, first, start + size * i, size)
  }

  /** The bytes of item i are the file's. */
  ghost predicate ItemIsFile(v: Volume, first: nat, start: nat, size: nat, i: nat, now: seq<Byte>)
    requires Mountable(v)
  {
    && size * i + size <= |now|
    && forall j | size * i <= j < size * i + size :: j >= 0 && FromFile(v, first, now[j], start + j)
  }

  lemma ItemRange(size: nat, i: nat, nmemb: nat)
    requires i < nmemb
    ensures size * (i + 1) == size * i + size && 0 <= size * i + size <= size * nmemb
  {
    Distribute(size, i, 1);
    Distribute(size, i + 1, nmemb - i - 1);
  }

  lemma Distribute(a: nat, b: nat, c: nat)
    ensures a * (b + c) == a * b + a * c && a * b >= 0 && a * c >= 0
  {
  }

  lemma NothingRead(v: Volume, first: nat, start: nat, size: nat, was: seq<Byte>)
    requires Mountable(v)
    ensures ItemsRead(v, first, start, size, 0, was, was)
  {
  }

  /** One more item: either it is read, or its walk met a stop value. */
  lemma ItemStep(v: Volume, first: nat, start: nat, size: nat, i: nat, was: seq<Byte>, before: seq<Byte>, r: ReadResult)
    requires Mountable(v) && ItemAddressable(v, first, start, size, i)
    requires size * i + size <= |before| && ItemsRead(v, first, start, size, i, was, before)
    requires r == ReadChunks(v, first, start + size * i, size, before, size * i)
    ensures r.res < 0 <==> ItemFails(v, first, start, size, i)
    ensures r.res >= 0 ==> ItemsRead(v, first, start, size, i + 1, was, r.buf)
    ensures |r.buf| == |was| && forall j | size * i + size <= j < |was| :: r.buf[j] == was[j]
  {
    hide Fails, ReadChunks, LastWalked, Addressable, AllSourced;
    ReadSources(v, first, start + size * i, size, before, size * i);
    if r.res >= 0 {
      ItemRange(size, i, i + 1);
      forall k | 0 <= k <= i
        ensures ItemAddressable(v, first, start, size, k) && size * k + size <= |was|
        ensures ItemSourced(v, first, start, size, k, was, r.buf)
      {
        if k < i {
          ItemRange(size, k, i);
          assert ItemSourced(v, first, start, size, k, was, before);
          SourcedAnyway(v, first, start + size * k, size, was, was, size * k, before, r.buf);
        } else {
          SourcedAnyway(v, first, start + size * i, size, before, was, size * i, r.buf, r.buf);
        }
      }
    }
  }

  /** A whole item holds the file's bytes. */
  lemma WholeItemIsFile(v: Volume, first: nat, start: nat, size: nat, i: nat, was: seq<Byte>, now: seq<Byte>)
    requires Mountable(v) && ItemAddressable(v, first, start, size, i) && size * i + size <= |was| == |now|
    requires ItemSourced(v, first, start, size, i, was, now) && WholeItem(v, first, start, size, i)
    ensures ItemIsFile(v, first, start, size, i, now)
  {
    hide Whole, LastWalked, LastNeeded, Addressable, SourceOf, HasByte;
    var offset := start + size * i;
    ReadExactly(v, first, offset, size);
    forall j | size * i <= j < size * i + size ensures j >= 0 && FromFile(v, first, now[j], start + j) {
      ItemRange(size, i, i + 1);
      var k := j - size * i;
      assert RightSource(v, first, offset, size, k);
      assert Sourced(v, first, offset, size, was, size * i, now, k);
      assert start + j == offset + k;
    }
  }

  // ---- aligned items

  /** The position is on a cluster boundary, and so is every later item's. */
  predicate Aligned(v: Volume, pos: nat, size: nat, nmemb: nat)
    requires Mountable(v)
  {
    Rem(pos, ClusterSize(v)) == 0 && (nmemb <= 1 || Rem(size, ClusterSize(v)) == 0)
  }

  lemma {:induction false} RemOfMultiple(size: nat, i: nat, m: nat)
    requires m > 0 && Rem(size, m) == 0
    ensures size * i >= 0 && Rem(size * i, m) == 0
  {
    if i == 0 {
      QuotSmall(0, m);
    } else {
      RemOfMultiple(size, i - 1, m);
      Distribute(size, i - 1, 1);
      RemSum(size * (i - 1), size, m);
    }
  }

  /** Item i of an aligned read starts on a boundary and ends at the last cluster needed
      for the first i + 1 items. */
  lemma AlignedItem(v: Volume, start: nat, size: nat, nmemb: nat, i: nat)
    requires Mountable(v) && i < nmemb && Aligned(v, start, size, nmemb)
    ensures size * i >= 0 && Rem(start + size * i, ClusterSize(v)) == 0
    ensures LastWalked(v, start + size * i, size) == LastNeeded(v, start + size * i, size)
    ensures LastNeeded(v, start + size * i, size) <= LastNeeded(v, start, size * nmemb)
    ensures i == nmemb - 1 ==> LastNeeded(v, start + size * i, size) == LastNeeded(v, start, size * nmemb)
  {
    hide Quot, Rem;
    var m := ClusterSize(v);
    if i > 0 {
      RemOfMultiple(size, i, m);
      RemSum(start, size * i, m);
    }
    AlignedWalk(v, start + size * i, size);
    ItemRange(size, i, nmemb);
    if size > 0 {
      QuotMono(start + size * i + size - 1, start + size * nmemb - 1, m);
    }
  }

  lemma AlignedItems(v: Volume, first: nat, start: nat, size: nat, nmemb: nat)
    requires Mountable(v) && nmemb >= 1 && Aligned(v, start, size, nmemb)
    ensures (exists i :: 0 <= i < nmemb && ItemFails(v, first, start, size, i))
            <==> Follow(v, first, LastNeeded(v, start, size * nmemb)).None?
    ensures forall i | 0 <= i < nmemb && !ItemFails(v, first, start, size, i) && size >= 1
                       && ItemAddressable(v, first, start, size, i) :: WholeItem(v, first, start, size, i)
  {
    hide Quot, Rem, Follow, LastNeeded, LastWalked, Aligned, Addressable;
    AlignedItem(v, start, size, nmemb, nmemb - 1);
    assert Follow(v, first, LastNeeded(v, start, size * nmemb)).None? <==> ItemFails(v, first, start, size, nmemb - 1);
    if i :| 0 <= i < nmemb && ItemFails(v, first, start, size, i) {
      AlignedItem(v, start, size, nmemb, i);
      if Follow(v, first, LastNeeded(v, start, size * nmemb)).Some? {
        FollowPrefix(v, first, LastNeeded(v, start + size * i, size), LastNeeded(v, start, size * nmemb));
      }
    }
    forall i | 0 <= i < nmemb && !ItemFails(v, first, start, size, i) && size >= 1
               && ItemAddressable(v, first, start, size, i)
      ensures WholeItem(v, first, start, size, i)
    {
      AlignedItem(v, start, size, nmemb, i);
    }
  }

  // ---- what the items mean together

  lemma ItemsFailed(v: Volume, first: nat, start: nat, size: nat, nmemb: nat, i: nat)
    requires Mountable(v) && i < nmemb && ItemFails(v, first, start, size, i)
    ensures Aligned(v, start, size, nmemb) ==> Follow(v, first, LastNeeded(v, start, size * nmemb)).None?
  {
    if Aligned(v, start, size, nmemb) { AlignedItems(v, first, start, size, nmemb); }
  }

  lemma ItemsMean(v: Volume, first: nat, start: nat, size: nat, nmemb: nat, was: seq<Byte>, now: seq<Byte>)
    requires Mountable(v) && size * nmemb <= |now| && ItemsRead(v, first, start, size, nmemb, was, now)
    requires forall i | 0 <= i < nmemb :: !ItemFails(v, first, start, size, i)
    ensures forall i | 0 <= i < nmemb && WholeItem(v, first, start, size, i) ::
              ItemIsFile(v, first, start, size, i, now)
    ensures nmemb >= 1 && Aligned(v, start, size, nmemb) ==>
              Follow(v, first, LastNeeded(v, start, size * nmemb)).Some?
    ensures |was| == |now| && forall j | size * nmemb <= j < |was| :: now[j] == was[j]
    ensures Aligned(v, start, size, nmemb) ==> forall j | 0 <= j < size * nmemb :: FromFile(v, first, now[j], start + j)
  {
    hide ItemFails, WholeItem, Aligned, Follow, FromFile, LastNeeded, ItemSourced, ItemAddressable;
    forall i | 0 <= i < nmemb && WholeItem(v, first, start, size, i) ensures ItemIsFile(v, first, start, size, i, now) {
      WholeItemIsFile(v, first, start, size, i, was, now);
    }
    if nmemb >= 1 && Aligned(v, start, size, nmemb) {
      AlignedItems(v, first, start, size, nmemb);
      forall j | 0 <= j < size * nmemb ensures FromFile(v, first, now[j], start + j) {
        ItemHolding(size, nmemb, j);
        assert ItemIsFile(v, first, start, size, Quot(j, size), now);
      }
    }
  }

  /** The item that byte j belongs to. */
  lemma ItemHolding(size: nat, nmemb: nat, j: nat)
    requires j < size * nmemb
    ensures size >= 1 && Quot(j, size) < nmemb && size * Quot(j, size) <= j < size * Quot(j, size) + size
  {
    QuotRem(j, size);
    hide Quot, Rem;
    if Quot(j, size) >= nmemb {
      Distribute(size, nmemb, Quot(j, size) - nmemb);
    }
  }
}
