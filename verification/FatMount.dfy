/** Mounting: the geometry that fat16_resolve takes from the boot sector. */
module FatMount {
  import opened DiskStreams
  import opened FatChains

  const SIGNATURE := 0x29
  const HEADER_SIZE := 62    // the header and the extended header, without padding
  const ITEM_SIZE := 32      // of a directory item

  function Header(disk: Disk): (h: seq<Byte>)
    ensures |h| == HEADER_SIZE
  {
    disk(0)[..HEADER_SIZE]
  }

  function Word(header: seq<Byte>, at: nat): nat
    requires at + 1 < |header|
  {
    var low: nat, high: nat := header[at], header[at + 1];
    low + 256 * high
  }

  /** The sectors of a root directory of n items. */
  function RootSectors(n: nat): nat {
    (n * ITEM_SIZE + SECTOR_SIZE - 1) / SECTOR_SIZE
  }

  /** The sector behind the reserved ones and all copies of the FAT. */
  function RootStart(copies: nat, perFat: nat, reserved: nat): nat {
    copies * perFat + reserved
  }

  /** The volume on a disk; none if the signature is missing. */
  function VolumeOn(disk: Disk): Option<Volume> {
    var h := Header(disk);
    if h[38] != SIGNATURE then None
    else
      var rootEnd := RootStart(h[16], Word(h, 22), Word(h, 14)) + RootSectors(Word(h, 17));
      Some(Volume(disk, Word(h, 14), h[13], rootEnd))
  }

  /** The fields of a boot sector that matter. */
  datatype Boot = Boot(perCluster: Byte, reserved: nat, copies: Byte, rootItems: nat, perFat: nat)

  predicate Fits(boot: Boot) {
    boot.reserved < 0x1_0000 && boot.rootItems < 0x1_0000 && boot.perFat < 0x1_0000
  }

  /** Byte i of such a boot sector. */
  function BootByte(i: int, boot: Boot): Byte
    requires Fits(boot)
  {
    if i == 12 then 2                        // 512 bytes a sector
    else if i == 13 then boot.perCluster
    else if i == 14 then boot.reserved % 256
    else if i == 15 then boot.reserved / 256
    else if i == 16 then boot.copies
    else if i == 17 then boot.rootItems % 256
    else if i == 18 then boot.rootItems / 256
    else if i == 22 then boot.perFat % 256
    else if i == 23 then boot.perFat / 256
    else if i == 38 then 0x29
    else 0
  }

  /** A disk with that boot sector holds the volume with its FAT behind the reserved sectors
      and its clusters behind these, all copies of the FAT, and as many sectors of root
      directory as just hold its items of 32 bytes. */
  lemma Mounted(disk: Disk, boot: Boot)
    requires Fits(boot) && forall i | 0 <= i < SECTOR_SIZE :: disk(0)[i] == BootByte(i, boot)
    ensures VolumeOn(disk).Some?
    ensures var v := VolumeOn(disk).value;
            var rootSectors := v.rootEnd - boot.reserved - boot.copies * boot.perFat;
            && v == Volume(disk, boot.reserved, boot.perCluster, v.rootEnd)
            && 512 * (rootSectors - 1) < 32 * boot.rootItems <= 512 * rootSectors
  {
    var h := Header(disk);
    assert Word(h, 14) == boot.reserved && Word(h, 17) == boot.rootItems && Word(h, 22) == boot.perFat;
    assert h[16] == boot.copies;
    hide Word;
    assert VolumeOn(disk).value.rootEnd
           == RootStart(boot.copies, boot.perFat, boot.reserved) + RootSectors(boot.rootItems);
  }

  class Mounter {
    const stream: DiskStream

    constructor (disk: Disk)
      ensures stream.disk == disk && stream.pos == 0 && fresh(stream)
    {
      stream := new DiskStream(disk);
    }

    /** fat16_resolve and the sums of fat16_root_directory_setup. */
    method Resolve() returns (volume: Option<Volume>)
      requires stream.pos == 0
      modifies stream
      ensures volume == VolumeOn(stream.disk)
    {
      var header := ReadHeader();
      if header[38] != SIGNATURE {
        return None;
      }
      var copies, perFat := header[16], Word(header, 22);
      var rootSectorPos := copies * perFat + Word(header, 14);
      var rootSize := Word(header, 17) * ITEM_SIZE;
      var totalSectors := rootSize / SECTOR_SIZE;
      if rootSize % SECTOR_SIZE != 0 {
        totalSectors := totalSectors + 1;
      }
      assert totalSectors == RootSectors(Word(header, 17));
      assert rootSectorPos == RootStart(copies, perFat, Word(header, 14));
      return Some(Volume(stream.disk, Word(header, 14), header[13], rootSectorPos + totalSectors));
    }

    method ReadHeader() returns (header: seq<Byte>)
      requires stream.pos == 0
      modifies stream
      ensures header == Header(stream.disk)
    {
      var buffer := new Byte[HEADER_SIZE](_ => 0);
      HeaderRead(stream.disk, buffer[..]);
      hide Bytes, Written;
      var _ := stream.Read(buffer, 0, HEADER_SIZE);
      header := buffer[..];
    }
  }

  lemma HeaderRead(disk: Disk, before: seq<Byte>)
    requires |before| == HEADER_SIZE
    ensures Delivered(0, HEADER_SIZE) == HEADER_SIZE
    ensures Written(before, 0, Bytes(disk, 0, HEADER_SIZE)) == Header(disk)
  {
  }
}
