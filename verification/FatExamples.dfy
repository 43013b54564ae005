/** Volumes that mount, with one file in the root directory, on which a read goes wrong. */
module FatExamples {
  import opened Status
  import opened Division
  import opened DiskStreams
  import opened FatChains
  import opened FatReads
  import opened FatStops
  import opened FatMount
  import opened FatNames
  import opened FatDirectories

  // ---- what the volumes have in common

  /** A root directory with one file, A, that starts at cluster 2. */
  function RootByte(i: int): Byte {
    if i == 0 then 65 else if 1 <= i < 11 then 0x20 else if i == 26 then 2 else 0
  }

  /** A FAT sector: cluster 2 is linked to the given entry, every other ends a chain. */
  function FatByte(sector: int, i: int, entry: nat): Byte
    requires entry < 0x1_0000
  {
    if sector == 1 && i == 4 then entry % 256 else if sector == 1 && i == 5 then entry / 256 else 0xff
  }

  /** One reserved sector, one FAT, and a root directory of 16 items. */
  function ExampleBoot(perCluster: Byte, perFat: nat): Boot {
    Boot(perCluster, 1, 1, 16, perFat)
  }

  /** Boot sector, FAT, root directory, and clusters that hold zeros but for the sectors
      from one to another, which hold ones. */
  function ExampleByte(sector: int, i: int, perCluster: Byte, perFat: nat, entry: nat, from: int, to: int): Byte
    requires perFat < 0x1_0000 && entry < 0x1_0000
  {
    if sector == 0 then BootByte(i, ExampleBoot(perCluster, perFat))
    else if 1 <= sector <= perFat then FatByte(sector, i, entry)
    else if sector == perFat + 1 then RootByte(i)
    else if from <= sector < to then 1
    else 0
  }

  function ExampleSector(sector: int, perCluster: Byte, perFat: nat, entry: nat, from: int, to: int): Sector
    requires perFat < 0x1_0000 && entry < 0x1_0000
  {
    seq(SECTOR_SIZE, i => ExampleByte(sector, i, perCluster, perFat, entry, from, to))
  }

  function ExampleDisk(perCluster: Byte, perFat: nat, entry: nat, from: int, to: int): Disk
    requires perFat < 0x1_0000 && entry < 0x1_0000
  {
    sector => ExampleSector(sector, perCluster, perFat, entry, from, to)
  }

  function ExampleVolume(perCluster: Byte, perFat: nat, entry: nat, from: int, to: int): Volume
    requires perFat < 0x1_0000 && entry < 0x1_0000
  {
    Volume(ExampleDisk(perCluster, perFat, entry, from, to), 1, perCluster, perFat + 2)
  }

  /** The volume is the one fat16_resolve finds, its root directory holds the file, and the
      file's second cluster is the given entry. */
  ghost predicate HoldsFile(v: Volume, rootSector: nat, entry: nat) {
    var pos := rootSector * SECTOR_SIZE;
    && VolumeOn(v.disk) == Some(v) && v.rootEnd == rootSector + 1 && Mountable(v)
    && |Records(v.disk, pos)| == 1 && FirstCluster(Records(v.disk, pos)[0]) == 2
    && FullName(Records(v.disk, pos)[0]) == [65] && !IsDirectory(Records(v.disk, pos)[0])
    && FatEntry(v, 2) == entry
  }

  lemma ExampleHolds(perCluster: Byte, perFat: nat, entry: nat, from: int, to: int)
    requires 1 <= perFat < 0x1_0000 && entry < 0x1_0000 && perCluster >= 1
    ensures HoldsFile(ExampleVolume(perCluster, perFat, entry, from, to), perFat + 1, entry)
  {
    hide BootByte, RootByte, VolumeOn, Records, FullName, FatEntry;
    var v := ExampleVolume(perCluster, perFat, entry, from, to);
    ExampleSectors(perCluster, perFat, entry, from, to);
    hide ExampleDisk;
    Mounted(v.disk, ExampleBoot(perCluster, perFat));
    OneFile(v.disk, perFat + 1);
    LinkedEntry(v, entry);
  }

  lemma ExampleSectors(perCluster: Byte, perFat: nat, entry: nat, from: int, to: int)
    requires 1 <= perFat < 0x1_0000 && entry < 0x1_0000
    ensures var disk := ExampleDisk(perCluster, perFat, entry, from, to);
            && (forall i | 0 <= i < SECTOR_SIZE :: disk(0)[i] == BootByte(i, ExampleBoot(perCluster, perFat)))
            && (forall i | 0 <= i < SECTOR_SIZE :: disk(perFat + 1)[i] == RootByte(i))
            && disk(1)[4] == entry % 256 && disk(1)[5] == entry / 256
  {
    hide BootByte, RootByte;
  }

  lemma LinkedEntry(v: Volume, entry: nat)
    requires entry < 0x1_0000 && v.reservedSectors == 1
    requires v.disk(1)[4] == entry % 256 && v.disk(1)[5] == entry / 256
    ensures FatEntry(v, 2) == entry
  {
  }

  lemma OneFile(disk: Disk, sector: nat)
    requires forall i | 0 <= i < SECTOR_SIZE :: disk(sector)[i] == RootByte(i)
    ensures var pos := sector * SECTOR_SIZE;
            && |Records(disk, pos)| == 1 && FirstCluster(Records(disk, pos)[0]) == 2
            && FullName(Records(disk, pos)[0]) == [65] && !IsDirectory(Records(disk, pos)[0])
  {
    var pos := sector * SECTOR_SIZE;
    RootRecord(disk, sector, 0);
    RootRecord(disk, sector, 1);
    assert EndMarker(disk, pos, 1) == 1 && LiveAmong(disk, pos, 0) == 0 && LiveAmong(disk, pos, 1) == 1;
    NameIsA(RecordAt(disk, pos, 0));
  }

  lemma RootRecord(disk: Disk, sector: nat, j: nat)
    requires j < SECTOR_RECORDS && forall i | 0 <= i < SECTOR_SIZE :: disk(sector)[i] == RootByte(i)
    ensures forall i | 0 <= i < RECORD_SIZE ::
              RecordAt(disk, sector * SECTOR_SIZE, j)[i] == RootByte(RECORD_SIZE * j + i)
  {
    forall i | 0 <= i < RECORD_SIZE
      ensures RecordAt(disk, sector * SECTOR_SIZE, j)[i] == RootByte(RECORD_SIZE * j + i)
    {
      var p := sector * SECTOR_SIZE + (RECORD_SIZE * j + i);
      assert p / SECTOR_SIZE == sector && p % SECTOR_SIZE == RECORD_SIZE * j + i;
    }
  }

  lemma NameIsA(r: Record)
    requires r[0] == 65 && forall i | 1 <= i < 11 :: r[i] == 0x20
    ensures FullName(r) == [65]
  {
    assert r[..NAME_SIZE][1..][0] == 0x20;
    assert Trimmed(r[..NAME_SIZE]) == [65] + Trimmed(r[..NAME_SIZE][1..]);
  }

  // ---- a read from the middle of a cluster

  /** Two sectors a cluster, cluster 2 followed by cluster 5 whose sectors, 9 and 10, hold
      ones: a read of a cluster's worth from the middle of the first succeeds, and its 513th
      byte is a zero from cluster 3. */
  lemma UnalignedReadFails(buf: seq<Byte>)
    requires |buf| == 1024
    ensures var v := ExampleVolume(2, 1, 5, 9, 11);
            && HoldsFile(v, 2, 5) && Addressable(v, 2, LastWalked(v, 512, 1024))
            && Follow(v, 2, 1) == Some(5) && HasByte(v, 2, 1024)
            && var r := ReadChunks(v, 2, 512, 1024, buf, 0);
               r.res == ALL_OK && !FromFile(v, 2, r.buf[512], 1024)
  {
    hide ExampleDisk, FatEntry, HoldsFile;
    var v := ExampleVolume(2, 1, 5, 9, 11);
    ExampleHolds(2, 1, 5, 9, 11);
    EntryOfExample(v, 2, 5);
    OneLink(v, 2);
    assert Follow(v, 2, 0) == Some(2);
    assert Quot(512, 1024) == 0 && Quot(1023, 1024) == 0 && Quot(1024, 1024) == 1;
    ReadSources(v, 2, 512, 1024, buf, 0);
    ClusterBytes();
    assert Sourced(v, 2, 512, 1024, buf, 0, ReadChunks(v, 2, 512, 1024, buf, 0).buf, 512);
  }

  lemma ClusterBytes()
    ensures var disk := ExampleDisk(2, 1, 5, 9, 11);
            ByteAt(disk, 5 * SECTOR_SIZE) == 0 && ByteAt(disk, 9 * SECTOR_SIZE) == 1
  {
  }

  lemma EntryOfExample(v: Volume, rootSector: nat, entry: nat)
    requires HoldsFile(v, rootSector, entry)
    ensures Mountable(v) && FatEntry(v, 2) == entry
  {
  }

  // ---- files on which the stop values differ

  /** What a read of byte 512 makes of the file, with one sector a cluster. */
  lemma SecondCluster(entry: nat, buf: seq<Byte>)
    requires entry < 0x1_0000 && |buf| == 1
    ensures var v := ExampleVolume(1, 256, entry, 0, 0);
            && HoldsFile(v, 257, entry) && Addressable(v, 2, LastWalked(v, 512, 1))
            && ReadChunks(v, 2, 512, 1, buf, 0).res == (if Stops(entry) then -EIO else ALL_OK)
            && SpecFollow(v, 2, 1) == if SpecStops(entry) then None else Some(entry)
  {
    hide FatEntry, Stops, SpecStops, Delivered, ByteAt, ExampleSector, HoldsFile;
    var v := ExampleVolume(1, 256, entry, 0, 0);
    ExampleHolds(1, 256, entry, 0, 0);
    EntryOfExample(v, 257, entry);
    OneLink(v, 2);
    assert Quot(512, 512) == 1 && Quot(0, 512) == 0;
    assert SpecStops(entry) || SpecFollow(v, entry, 0) == Some(entry);
    assert Follow(v, 2, 0) == Some(2);
    ReadSources(v, 2, 512, 1, buf, 0);
  }

  /** A file whose second cluster is 0xff7 is cut short: the specification has a second
      cluster, the code reports an error. */
  lemma FileCutShort(buf: seq<Byte>)
    requires |buf| == 1
    ensures var v := ExampleVolume(1, 256, 0xff7, 0, 0);
            && HoldsFile(v, 257, 0xff7) && SpecFollow(v, 2, 1) == Some(0xff7)
            && Addressable(v, 2, LastWalked(v, 512, 1)) && ReadChunks(v, 2, 512, 1, buf, 0).res == -EIO
  {
    SecondCluster(0xff7, buf);
  }

  /** A file that ends with the mark 0xfff9 goes on: the specification has no second
      cluster, the code reads one. */
  lemma FileReadPastItsEnd(buf: seq<Byte>)
    requires |buf| == 1
    ensures var v := ExampleVolume(1, 256, 0xfff9, 0, 0);
            && HoldsFile(v, 257, 0xfff9) && SpecFollow(v, 2, 1) == None
            && Addressable(v, 2, LastWalked(v, 512, 1)) && ReadChunks(v, 2, 512, 1, buf, 0).res == ALL_OK
  {
    SecondCluster(0xfff9, buf);
  }
}
