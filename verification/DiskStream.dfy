/** The byte stream over 512-byte disk sectors. The sector read itself is hardware
    and never fails here; the disk is a function from sector number to contents. */
module DiskStreams {
  import opened Status

  const SECTOR_SIZE := 512
  const INT_LIMIT := 0x8000_0000

  type Byte = b: int | 0 <= b < 256
  type Sector = s: seq<Byte> | |s| == SECTOR_SIZE witness seq(SECTOR_SIZE, _ => 0)
  type Disk = int -> Sector

  function ByteAt(disk: Disk, pos: nat): Byte {
    disk(pos / SECTOR_SIZE)[pos % SECTOR_SIZE]
  }

  function Bytes(disk: Disk, pos: nat, n: nat): (r: seq<Byte>)
    ensures |r| == n
  {
    seq(n, j requires 0 <= j < n => ByteFrom(disk, pos, j))
  }

  function ByteFrom(disk: Disk, pos: nat, j: nat): Byte {
    ByteAt(disk, pos + j)
  }

  /** buf with data written over it from index at on. */
  function Written(buf: seq<Byte>, at: nat, data: seq<Byte>): (r: seq<Byte>)
    requires at + |data| <= |buf|
    ensures |r| == |buf|
  {
    seq(|buf|, i requires 0 <= i < |buf| => if at <= i < at + |data| then data[i - at] else buf[i])
  }

  predicate Overflows(pos: nat, total: int) {
    pos % SECTOR_SIZE + total >= SECTOR_SIZE
  }

  /** How many bytes a read delivers. Past the first sector the code subtracts a whole
      sector from the request whatever part of it the first sector supplied. */
  function Delivered(pos: nat, total: int): nat {
    var k := pos % SECTOR_SIZE;
    if !Overflows(pos, total) then (if total > 0 then total else 0)
    else (if total > SECTOR_SIZE then total else SECTOR_SIZE) - k
  }

  /** Where a read leaves the stream. */
  function EndOf(pos: nat, total: int): int {
    if Overflows(pos, total) then pos + total - pos % SECTOR_SIZE else pos + total
  }

  class DiskStream {
    const disk: Disk
    var pos: int

    constructor (disk: Disk)
      ensures this.disk == disk && pos == 0
    {
      this.disk, pos := disk, 0;
    }

    method Seek(pos: int) returns (res: int)
      modifies this
      ensures this.pos == pos && res == ALL_OK
    {
      this.pos := pos;
      res := ALL_OK;
    }

    /** diskstreamer_read into out from index at on; the recursion may end on a
        negative total, which moves the stream back. */
    method Read(out: array<Byte>, at: nat, total: int) returns (res: int)
      requires 0 <= pos && pos + total < INT_LIMIT - SECTOR_SIZE
      requires at + Delivered(pos, total) <= out.Length
      modifies this, out
      ensures res == ALL_OK && pos == EndOf(old(pos), total)
      ensures out[..] == Written(old(out[..]), at, Bytes(disk, old(pos), Delivered(old(pos), total)))
      decreases total
    {
      hide Bytes, Written, ByteAt;
      ghost var p, before := pos, out[..];
      NothingWritten(disk, before, at, p);
      var sector, offset := pos / SECTOR_SIZE, pos % SECTOR_SIZE;
      var totalToRead := total;
      var overflow := offset + totalToRead >= SECTOR_SIZE;
      if overflow {
        totalToRead := totalToRead - ((offset + totalToRead) - SECTOR_SIZE);
      }
      var buf := disk(sector);
      var i := 0;
      while i < totalToRead
        invariant 0 <= i && (i <= totalToRead || i == 0)
        invariant pos == p
        invariant out[..] == Written(before, at, Bytes(disk, p, i))
      {
        OneMoreByte(disk, before, at, p, i);
        out[at + i] := buf[offset + i];
        i := i + 1;
      }
      pos := pos + totalToRead;
      res := ALL_OK;
      if overflow {
        res := Read(out, at + totalToRead, total - SECTOR_SIZE);
        ReadsJoin(disk, before, at, p, totalToRead, Delivered(p + totalToRead, total - SECTOR_SIZE));
      }
    }
  }

  lemma NothingWritten(disk: Disk, buf: seq<Byte>, at: nat, pos: nat)
    requires at <= |buf|
    ensures Written(buf, at, Bytes(disk, pos, 0)) == buf
  {
  }

  /** The next byte of a sector extends what has been written by one. */
  lemma OneMoreByte(disk: Disk, buf: seq<Byte>, at: nat, pos: nat, i: nat)
    requires at + i < |buf| && pos % SECTOR_SIZE + i < SECTOR_SIZE
    ensures Written(buf, at, Bytes(disk, pos, i))[at + i := disk(pos / SECTOR_SIZE)[pos % SECTOR_SIZE + i]]
            == Written(buf, at, Bytes(disk, pos, i + 1))
  {
    SameSector(pos, i);
  }

  lemma SameSector(pos: nat, i: nat)
    requires pos % SECTOR_SIZE + i < SECTOR_SIZE
    ensures (pos + i) / SECTOR_SIZE == pos / SECTOR_SIZE && (pos + i) % SECTOR_SIZE == pos % SECTOR_SIZE + i
  {
  }

  lemma ReadsJoin(disk: Disk, buf: seq<Byte>, at: nat, pos: nat, n: nat, m: nat)
    requires at + n + m <= |buf|
    ensures Written(Written(buf, at, Bytes(disk, pos, n)), at + n, Bytes(disk, pos + n, m))
            == Written(buf, at, Bytes(disk, pos, n + m))
  {
  }

  /** A read delivers what was asked for exactly when it starts on a sector boundary
      or ends by the end of its sector; it ends at pos + total exactly when it starts
      on a boundary or stops short of the sector's end. */
  lemma StreamExactly(pos: nat, total: nat)
    ensures Delivered(pos, total) <= total
    ensures Delivered(pos, total) == total <==> pos % SECTOR_SIZE == 0 || pos % SECTOR_SIZE + total <= SECTOR_SIZE
    ensures EndOf(pos, total) == pos + total <==> pos % SECTOR_SIZE == 0 || pos % SECTOR_SIZE + total < SECTOR_SIZE
    ensures var k := pos % 512;
            k + total >= 512 ==>
              Delivered(pos, total) == (if total > 512 then total else 512) - k && EndOf(pos, total) == pos + total - k
  {
  }

  lemma DeliveredAtMost(pos: nat, total: nat)
    ensures Delivered(pos, total) <= total
  {
  }
}
