/** File data on a FAT16 volume as values: the cluster chain, its contents in one pass,
    and what the recursive cluster reader makes of them. */
module FatChains {
  import opened Status
  import opened Division
  import opened DiskStreams

  datatype Option<+T> = None | Some(value: T)

  /** The geometry the reader takes from the boot sector and the root directory. */
  datatype Volume = Volume(disk: Disk, reservedSectors: nat, sectorsPerCluster: nat, rootEnd: nat)

  predicate Mountable(v: Volume) {
    1 <= v.sectorsPerCluster < 256 && v.reservedSectors < 0x1_0000
  }

  function ClusterSize(v: Volume): (n: nat)
    requires Mountable(v)
    ensures n >= SECTOR_SIZE && n % SECTOR_SIZE == 0
  {
    v.sectorsPerCluster * SECTOR_SIZE
  }

  // ---- the cluster chain

  function FatPosition(v: Volume, cluster: nat): nat {
    v.reservedSectors * SECTOR_SIZE + cluster * 2
  }

  /** The little-endian FAT entry of a cluster. */
  function FatEntry(v: Volume, cluster: nat): (e: nat)
    ensures e < 0x1_0000
  {
    ByteAt(v.disk, FatPosition(v, cluster)) + 256 * ByteAt(v.disk, FatPosition(v, cluster) + 1)
  }

  /** The entries at which following the chain gives up, as the code lists them. */
  predicate Stops(entry: int) {
    entry == 0xfff8 || entry == 0xffff || entry == 0xff7 || entry == 0xff0 || entry == 0xff6 || entry == 0
  }

  /** The cluster n links after c, if no stop value comes before it. */
  function Follow(v: Volume, c: nat, n: nat): Option<nat>
    decreases n
  {
    if n == 0 then Some(c)
    else if Stops(FatEntry(v, c)) then None
    else Follow(v, FatEntry(v, c), n - 1)
  }

  function ClusterPosition(v: Volume, cluster: nat): int {
    (v.rootEnd + (cluster - 2) * v.sectorsPerCluster) * SECTOR_SIZE
  }

  lemma {:induction false} FollowFurther(v: Volume, c: nat, n: nat, m: nat)
    ensures Follow(v, c, n + m) ==
            match Follow(v, c, n) { case None => None case Some(d) => Follow(v, d, m) }
    decreases n
  {
    if n > 0 && !Stops(FatEntry(v, c)) {
      FollowFurther(v, FatEntry(v, c), n - 1, m);
    }
  }

  lemma OneLink(v: Volume, c: nat)
    ensures Follow(v, c, 1) == if Stops(FatEntry(v, c)) then None else Some(FatEntry(v, c))
  {
    assert Stops(FatEntry(v, c)) || Follow(v, FatEntry(v, c), 0) == Some(FatEntry(v, c));
  }

  /** Once the chain has stopped it stays stopped. */
  lemma FollowPrefix(v: Volume, c: nat, n: nat, m: nat)
    requires n <= m && Follow(v, c, m).Some?
    ensures Follow(v, c, n).Some?
  {
    FollowFurther(v, c, n, m - n);
  }

  /** The first n clusters of the chain exist and lie at byte positions an int can hold. */
  ghost predicate Addressable(v: Volume, start: nat, n: nat)
    requires Mountable(v)
  {
    && FatPosition(v, start) < INT_LIMIT - 2 * SECTOR_SIZE
    && forall j: nat, c | j <= n && Follow(v, start, j) == Some(c) :: Placed(v, c)
  }

  predicate Placed(v: Volume, cluster: nat)
    requires Mountable(v)
  {
    0 <= ClusterPosition(v, cluster) && ClusterPosition(v, cluster) + 2 * ClusterSize(v) < INT_LIMIT - SECTOR_SIZE
  }

  // ---- the recursive reader

  datatype ReadResult = ReadResult(res: int, buf: seq<Byte>)

  function ChunkOf(v: Volume, total: nat): nat
    requires Mountable(v)
  {
    if total > ClusterSize(v) then ClusterSize(v) else total
  }

  /** The last cluster of the chain that a read of total bytes walks to. */
  function LastWalked(v: Volume, offset: nat, total: nat): nat
    requires Mountable(v)
  {
    Quot(offset, ClusterSize(v)) + if total == 0 then 0 else Quot(total - 1, ClusterSize(v))
  }

  /** Behind the first chunk the walk ends where it ended. */
  lemma WalkStep(v: Volume, offset: nat, total: nat)
    requires Mountable(v) && total > ClusterSize(v)
    ensures var m := ClusterSize(v);
            && LastWalked(v, offset + m, total - m) == LastWalked(v, offset, total)
            && Quot(offset + m, m) == Quot(offset, m) + 1 && Rem(offset + m, m) == Rem(offset, m)
  {
    NextBlock(offset, ClusterSize(v));
    NextBlock(total - 1 - ClusterSize(v), ClusterSize(v));
  }

  /** What fat16_read_internal_from_stream does to the buffer, chunk by chunk, walking
      the chain from its start for every chunk. */
  function ReadChunks(v: Volume, start: nat, offset: nat, total: nat, buf: seq<Byte>, at: nat): (r: ReadResult)
    requires Mountable(v) && Addressable(v, start, LastWalked(v, offset, total)) && at + total <= |buf|
    ensures |r.buf| == |buf| && (r.res == ALL_OK || r.res == -EIO)
    decreases total
  {
    match Follow(v, start, Quot(offset, ClusterSize(v)))
    case None => ReadResult(-EIO, buf)
    case Some(c) =>
      assert Placed(v, c);
      var pos := ClusterPosition(v, c) + Rem(offset, ClusterSize(v));
      var chunk := ChunkOf(v, total);
      var buf' := Written(buf, at, Bytes(v.disk, pos, Delivered(pos, chunk)));
      if total == chunk then ReadResult(ALL_OK, buf')
      else
        WalkStep(v, offset, total);
        ReadChunks(v, start, offset + chunk, total - chunk, buf', at + chunk)
  }

  // ---- the file as the concatenation of its clusters

  /** The first n clusters of the chain exist and are placed. */
  predicate Reaches(v: Volume, c: nat, n: nat)
    requires Mountable(v)
    decreases n
  {
    n == 0 || (Placed(v, c) && (n == 1 || (!Stops(FatEntry(v, c)) && Reaches(v, FatEntry(v, c), n - 1))))
  }

  /** One pass along the chain: the contents of its first n clusters, joined. */
  function ChainBytes(v: Volume, c: nat, n: nat): seq<Byte>
    requires Mountable(v) && Reaches(v, c, n)
    decreases n
  {
    if n == 0 then []
    else Bytes(v.disk, ClusterPosition(v, c), ClusterSize(v))
         + if n == 1 then [] else ChainBytes(v, FatEntry(v, c), n - 1)
  }

  ghost predicate HasByte(v: Volume, start: nat, i: nat)
    requires Mountable(v)
  {
    match Follow(v, start, Quot(i, ClusterSize(v)))
    case None => false
    case Some(c) => Placed(v, c)
  }

  /** Where on the disk byte i of the file lies. */
  function FilePosition(v: Volume, start: nat, i: nat): nat
    requires Mountable(v) && HasByte(v, start, i)
  {
    ClusterPosition(v, Follow(v, start, Quot(i, ClusterSize(v))).value) + Rem(i, ClusterSize(v))
  }

  lemma {:induction false} ReachesAll(v: Volume, start: nat, n: nat)
    requires Mountable(v) && n >= 1 && Follow(v, start, n - 1).Some?
    requires forall j: nat, c | j < n && Follow(v, start, j) == Some(c) :: Placed(v, c)
    ensures Reaches(v, start, n)
    decreases n
  {
    assert Follow(v, start, 0) == Some(start);
    if n > 1 {
      var next := FatEntry(v, start);
      forall j: nat, c | j < n - 1 && Follow(v, next, j) == Some(c) ensures Placed(v, c) {
        assert Follow(v, start, j + 1) == Some(c);
      }
      ReachesAll(v, next, n - 1);
    }
  }

  /** b is byte i of the file. */
  ghost predicate FromFile(v: Volume, start: nat, b: Byte, i: nat)
    requires Mountable(v)
  {
    HasByte(v, start, i) && b == ByteAt(v.disk, FilePosition(v, start, i))
  }

  lemma {:induction false} ChainBytesLength(v: Volume, c: nat, n: nat)
    requires Mountable(v) && Reaches(v, c, n)
    ensures |ChainBytes(v, c, n)| == n * ClusterSize(v)
    decreases n
  {
    if n > 1 {
      ChainBytesLength(v, FatEntry(v, c), n - 1);
      assert n * ClusterSize(v) == ClusterSize(v) + (n - 1) * ClusterSize(v);
    }
  }

  /** The one-pass contents agree with the re-walk for every byte. */
  lemma {:induction false} ChainBytesAt(v: Volume, c: nat, n: nat, i: nat)
    requires Mountable(v) && Reaches(v, c, n) && i < |ChainBytes(v, c, n)|
    ensures FromFile(v, c, ChainBytes(v, c, n)[i], i)
    decreases n
  {
    hide Quot, Rem, ClusterPosition, ClusterSize, ByteAt, FatEntry, Stops, Placed;
    var m := ClusterSize(v);
    assert Follow(v, c, 0) == Some(c);
    if i < m {
      QuotSmall(i, m);
    } else {
      NextBlock(i - m, m);
      ChainBytesAt(v, FatEntry(v, c), n - 1, i - m);
    }
  }

  /** The stream delivers whole what is read from the start of a cluster. */
  lemma AlignedDelivery(v: Volume, c: nat, total: nat)
    requires Mountable(v) && Placed(v, c)
    ensures Delivered(ClusterPosition(v, c), total) == total
  {
    SectorOffset(v.rootEnd + (c - 2) * v.sectorsPerCluster, 0);
    StreamExactly(ClusterPosition(v, c), total);
  }

  lemma SectorOffset(s: int, o: nat)
    ensures (s * SECTOR_SIZE + o) % SECTOR_SIZE == o % SECTOR_SIZE
  {
  }
}
