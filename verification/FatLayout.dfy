/** Where the FAT and the clusters lie on the disk, sector by sector, and what a file is in
    terms of the entries of the FAT. */
module FatLayout {
  import opened Division
  import opened DiskStreams
  import opened FatChains

  /** The sectors from the first behind the reserved ones on hold the 16-bit entries fat,
      low byte first. */
  ghost predicate FatHolds(v: Volume, fat: seq<int>) {
    forall i | 0 <= i < |fat| :: EntryHolds(v, i, fat[i])
  }

  predicate EntryHolds(v: Volume, i: nat, entry: int) {
    && 0 <= entry < 0x1_0000
    && v.disk(v.reservedSectors + 2 * i / 512)[2 * i % 512] == entry % 256
    && v.disk(v.reservedSectors + (2 * i + 1) / 512)[(2 * i + 1) % 512] == entry / 256
  }

  /** The entry read for a cluster is the one the FAT holds for it. */
  lemma EntryIsHeld(v: Volume, fat: seq<int>, c: nat)
    requires FatHolds(v, fat) && c < |fat|
    ensures FatEntry(v, c) == fat[c]
  {
    assert EntryHolds(v, c, fat[c]);
    ByteInSector(v.disk, v.reservedSectors, 2 * c);
    ByteInSector(v.disk, v.reservedSectors, 2 * c + 1);
  }

  /** Byte i from the start of a sector on. */
  lemma ByteInSector(disk: Disk, sector: nat, i: nat)
    ensures ByteAt(disk, 512 * sector + i) == disk(sector + i / 512)[i % 512]
  {
    assert (512 * sector + i) / 512 == sector + i / 512;
  }

  // ---- the walk in the FAT

  predicate EndsChain(entry: int) {
    entry in {0, 0xff0, 0xff6, 0xff7, 0xfff8, 0xffff}
  }

  /** n links from c lead through entries of the FAT only. */
  predicate Inside(fat: seq<int>, c: int, n: nat)
    decreases n
  {
    n == 0 || (0 <= c < |fat| && (EndsChain(fat[c]) || Inside(fat, fat[c], n - 1)))
  }

  function WalkIn(fat: seq<int>, c: int, n: nat): Option<int>
    requires Inside(fat, c, n)
    decreases n
  {
    if n == 0 then Some(c) else if EndsChain(fat[c]) then None else WalkIn(fat, fat[c], n - 1)
  }

  /** The chain the code follows is the walk in the FAT. */
  lemma {:induction false} FollowIsWalk(v: Volume, fat: seq<int>, c: nat, n: nat)
    requires FatHolds(v, fat) && Inside(fat, c, n)
    ensures Follow(v, c, n) == match WalkIn(fat, c, n) { case None => None case Some(d) => Some(d) }
    ensures WalkIn(fat, c, n).Some? ==> WalkIn(fat, c, n).value >= 0
    decreases n
  {
    hide EntryHolds;
    if n > 0 {
      EntryIsHeld(v, fat, c);
      if !EndsChain(fat[c]) {
        FollowIsWalk(v, fat, FatEntry(v, c), n - 1);
      }
    }
  }

  // ---- the clusters

  /** Cluster 2 begins at the sector where the root directory ends, and cluster c lies
      c - 2 times the sectors of a cluster behind it. */
  lemma ClusterByte(v: Volume, c: nat, i: nat)
    requires Mountable(v) && 0 <= ClusterPosition(v, c)
    ensures 0 <= v.rootEnd + (c - 2) * v.sectorsPerCluster
    ensures ClusterPosition(v, 2) == 512 * v.rootEnd && ClusterSize(v) == 512 * v.sectorsPerCluster
    ensures ByteAt(v.disk, ClusterPosition(v, c) + i)
            == v.disk(v.rootEnd + (c - 2) * v.sectorsPerCluster + i / 512)[i % 512]
  {
    ByteInSector(v.disk, v.rootEnd + (c - 2) * v.sectorsPerCluster, i);
  }

  /** Byte i of the file that starts at a cluster, i being q clusters and o bytes: the walk
      of q links leads to its cluster, and o is its place there. */
  lemma FileByte(v: Volume, fat: seq<int>, start: nat, i: nat, q: nat, o: nat, b: Byte)
    requires Mountable(v) && FatHolds(v, fat) && Inside(fat, start, q)
    requires i == q * (512 * v.sectorsPerCluster) + o && o < 512 * v.sectorsPerCluster
    ensures FromFile(v, start, b, i) <==>
            match WalkIn(fat, start, q)
            case None => false
            case Some(c) =>
              c >= 0 && Placed(v, c)
              && 0 <= v.rootEnd + (c - 2) * v.sectorsPerCluster
              && b == v.disk(v.rootEnd + (c - 2) * v.sectorsPerCluster + o / 512)[o % 512]
  {
    hide ClusterPosition, ByteAt, FatHolds, Inside, Follow, Quot, Rem;
    QuotIs(i, ClusterSize(v), q, o);
    FollowIsWalk(v, fat, start, q);
    if Follow(v, start, q).Some? && Placed(v, Follow(v, start, q).value) {
      ClusterByte(v, Follow(v, start, q).value, o);
    }
  }
}
