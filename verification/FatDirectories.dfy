/** Directories on a FAT16 volume: counting and loading their records, and walking a
    path from the root. */
module FatDirectories {
  import opened Status
  import opened Division
  import opened DiskStreams
  import opened FatChains
  import opened FatNames
  import opened Fat16

  const SECTOR_RECORDS := 16

  function RecordAt(disk: Disk, pos: nat, j: nat): Record {
    Bytes(disk, pos + RECORD_SIZE * j, RECORD_SIZE)
  }

  /** The number of records from record j on before the one whose name starts with 0,
      looking no further than the first sector. */
  function EndMarker(disk: Disk, pos: nat, j: nat): (e: nat)
    requires j <= SECTOR_RECORDS
    ensures j <= e <= SECTOR_RECORDS
    ensures e < SECTOR_RECORDS ==> RecordAt(disk, pos, e)[0] == 0
    ensures forall i | j <= i < e :: RecordAt(disk, pos, i)[0] != 0
    decreases SECTOR_RECORDS - j
  {
    if j == SECTOR_RECORDS || RecordAt(disk, pos, j)[0] == 0 then j else EndMarker(disk, pos, j + 1)
  }

  function LiveAmong(disk: Disk, pos: nat, n: nat): (k: nat)
    ensures k <= n
  {
    if n == 0 then 0
    else LiveAmong(disk, pos, n - 1) + if RecordAt(disk, pos, n - 1)[0] == DELETED then 0 else 1
  }

  /** The records a directory is taken to have: as many from its start on as it has live
      ones before the end marker. */
  function Records(disk: Disk, pos: nat): seq<Record> {
    seq(LiveAmong(disk, pos, EndMarker(disk, pos, 0)), j requires 0 <= j => RecordAt(disk, pos, j))
  }

  /** The directory at a sector boundary ends within its first sector. */
  predicate Ends(disk: Disk, pos: nat) {
    pos % SECTOR_SIZE == 0 && pos + 2 * SECTOR_SIZE < INT_LIMIT - SECTOR_SIZE
    && EndMarker(disk, pos, 0) < SECTOR_RECORDS
  }

  lemma {:induction false} LiveAll(disk: Disk, pos: nat, n: nat)
    ensures LiveAmong(disk, pos, n) == n <==> forall j | 0 <= j < n :: RecordAt(disk, pos, j)[0] != DELETED
  {
    if n > 0 {
      LiveAll(disk, pos, n - 1);
    }
  }

  /** The records taken are all those before the end marker exactly when none of them is
      deleted. */
  lemma RecordsComplete(disk: Disk, pos: nat)
    ensures |Records(disk, pos)| == EndMarker(disk, pos, 0)
            <==> forall j | 0 <= j < EndMarker(disk, pos, 0) :: RecordAt(disk, pos, j)[0] != DELETED
    ensures forall j | 0 <= j < |Records(disk, pos)| :: Records(disk, pos)[j] == RecordAt(disk, pos, j)
  {
    LiveAll(disk, pos, EndMarker(disk, pos, 0));
  }

  // ---- why the end marker has to be among the first sixteen records

  /** The number of the record that the stream is at after n reads: the sixteenth read
      takes it back to the second. */
  function SlotAfter(n: nat): (j: nat)
    ensures j < SECTOR_RECORDS
  {
    if n < SECTOR_RECORDS then n else SlotAfter(n - 15)
  }

  /** The n-th record that counting reads from a directory, if it gets there. */
  function RecordRead(disk: Disk, pos: nat, n: nat): Record {
    Bytes(disk, CursorAfter(pos, n), RECORD_SIZE)
  }

  function CursorAfter(pos: nat, n: nat): nat {
    if n == 0 then pos
    else
      var end := EndOf(CursorAfter(pos, n - 1), RECORD_SIZE);
      if end < 0 then 0 else end
  }

  lemma {:induction false} CursorIsSlot(pos: nat, n: nat)
    requires pos % SECTOR_SIZE == 0
    ensures CursorAfter(pos, n) == pos + RECORD_SIZE * SlotAfter(n)
  {
    hide EndOf, SlotAfter;
    if n > 0 {
      CursorIsSlot(pos, n - 1);
      NextSlot(n - 1);
      EndOfSlot(pos, SlotAfter(n - 1));
    } else {
      assert SlotAfter(0) == 0 by { NextSlot(0); }
    }
  }

  lemma EndOfSlot(pos: nat, j: nat)
    requires pos % SECTOR_SIZE == 0 && j < SECTOR_RECORDS
    ensures EndOf(pos + RECORD_SIZE * j, RECORD_SIZE) == pos + RECORD_SIZE * if j == 15 then 1 else j + 1
  {
    assert (pos + RECORD_SIZE * j) % SECTOR_SIZE == RECORD_SIZE * j;
  }

  lemma {:induction false} NextSlot(n: nat)
    ensures SlotAfter(n + 1) == (if SlotAfter(n) == 15 then 1 else SlotAfter(n) + 1) && SlotAfter(0) == 0
  {
    if n >= SECTOR_RECORDS { NextSlot(n - 15); }
  }

  /** Counting ever reads an end marker if and only if one of the first sixteen records is
      one; otherwise it goes round in the first sector for ever. */
  lemma CountingEndsExactly(disk: Disk, pos: nat)
    requires pos % SECTOR_SIZE == 0
    ensures (exists n: nat :: RecordRead(disk, pos, n)[0] == 0) <==> EndMarker(disk, pos, 0) < SECTOR_RECORDS
  {
    hide Bytes;
    var e := EndMarker(disk, pos, 0);
    if e < SECTOR_RECORDS {
      CursorIsSlot(pos, e);
      assert RecordRead(disk, pos, e)[0] == 0;
    }
    forall n: nat | e == SECTOR_RECORDS ensures RecordRead(disk, pos, n)[0] != 0 {
      CursorIsSlot(pos, n);
      assert RecordRead(disk, pos, n) == RecordAt(disk, pos, SlotAfter(n));
    }
  }

  // ---- directories that are not read as intended

  /** A disk whose sector 1 starts with the given records and is zero behind them; names are
      one character long. */
  function NamedSector(names: seq<Byte>): Disk {
    sector => NamedBytes(sector, names)
  }

  function NamedBytes(sector: int, names: seq<Byte>): Sector {
    seq(SECTOR_SIZE, i requires 0 <= i < SECTOR_SIZE =>
      if sector == 1 && i % RECORD_SIZE == 0 && i / RECORD_SIZE < |names| then names[i / RECORD_SIZE] else 0)
  }

  lemma NameAt(names: seq<Byte>, j: nat)
    requires j < SECTOR_RECORDS
    ensures RecordAt(NamedSector(names), SECTOR_SIZE, j)[0] == if j < |names| then names[j] else 0
  {
    var pos := SECTOR_SIZE + RECORD_SIZE * j;
    assert pos / SECTOR_SIZE == 1 && pos % SECTOR_SIZE == RECORD_SIZE * j;
  }

  /** A deleted record in front of a live one: the deleted one is taken, the live one is not. */
  lemma DeletedHidesLive()
    ensures var disk, pos := NamedSector([0xe5, 65]), SECTOR_SIZE;
            EndMarker(disk, pos, 0) == 2 && Records(disk, pos) == [RecordAt(disk, pos, 0)]
            && RecordAt(disk, pos, 0)[0] == 0xe5 && RecordAt(disk, pos, 1)[0] == 65
  {
    hide NamedSector;
    var disk, pos, names := NamedSector([DELETED, 65]), SECTOR_SIZE, [DELETED, 65];
    NameAt(names, 0);
    NameAt(names, 1);
    NameAt(names, 2);
    assert EndMarker(disk, pos, 2) == 2 && EndMarker(disk, pos, 1) == 2;
    assert LiveAmong(disk, pos, 0) == 0 && LiveAmong(disk, pos, 1) == 0 && LiveAmong(disk, pos, 2) == 1;
  }

  /** Sixteen live records: counting them never comes to an end marker. */
  lemma FullSectorNeverEnds(names: seq<Byte>, n: nat)
    requires |names| == SECTOR_RECORDS && 0 !in names
    ensures EndMarker(NamedSector(names), SECTOR_SIZE, 0) == SECTOR_RECORDS
    ensures RecordRead(NamedSector(names), SECTOR_SIZE, n)[0] != 0
  {
    hide NamedSector;
    var disk, e := NamedSector(names), EndMarker(NamedSector(names), SECTOR_SIZE, 0);
    if e < SECTOR_RECORDS { NameAt(names, e); }
    CountingEndsExactly(disk, SECTOR_SIZE);
  }

  class DirectoryReader {
    const reader: FatReader
    const directoryStream: DiskStream

    constructor (volume: Volume)
      requires Mountable(volume)
      ensures Valid() && reader.volume == volume
    {
      reader := new FatReader(volume);
      directoryStream := new DiskStream(volume.disk);
    }

    ghost predicate Valid() {
      && reader.Valid() && directoryStream.disk == reader.volume.disk
      && directoryStream != reader.clusterStream && directoryStream != reader.fatStream
    }

    /** fat16_get_total_items_for_directory. The sixteenth record is the last the stream
        reads in step, so the loop ends when the end marker comes no later. */
    method CountItems(pos: nat) returns (res: int)
      requires Valid() && Ends(reader.volume.disk, pos)
      modifies directoryStream
      ensures res == |Records(reader.volume.disk, pos)|
    {
      hide Bytes;
      var disk := reader.volume.disk;
      ghost var e := EndMarker(disk, pos, 0);
      ghost var j := 0;
      var item := new Byte[RECORD_SIZE](_ => 0);
      res := directoryStream.Seek(pos);
      var i := 0;
      while true
        invariant 0 <= j <= e && directoryStream.pos == pos + RECORD_SIZE * j
        invariant i == LiveAmong(disk, pos, j)
        decreases e - j
      {
        RecordInSector(pos, j);
        ghost var before := item[..];
        res := directoryStream.Read(item, 0, RECORD_SIZE);
        WrittenWhole(before, RecordAt(disk, pos, j));
        if item[0] == 0 {
          break;
        }
        j := j + 1;
        if item[0] == DELETED {
          continue;
        }
        i := i + 1;
      }
      res := i;
    }

    /** fat16_root_directory_setup: the root directory's records. */
    method LoadRoot(rootSector: nat, entries: nat) returns (records: seq<Record>)
      requires Valid() && Ends(reader.volume.disk, rootSector * SECTOR_SIZE)
      requires |Records(reader.volume.disk, rootSector * SECTOR_SIZE)| <= entries
      requires rootSector * SECTOR_SIZE + RECORD_SIZE * entries < INT_LIMIT - SECTOR_SIZE
      modifies directoryStream
      ensures records == Records(reader.volume.disk, rootSector * SECTOR_SIZE)
    {
      hide Bytes, Records;
      var pos := rootSector * SECTOR_SIZE;
      var total := CountItems(pos);
      var dir := new Byte[RECORD_SIZE * entries](_ => 0);
      var _ := directoryStream.Seek(pos);
      ghost var before := dir[..];
      StreamExactly(pos, RECORD_SIZE * entries);
      var _ := directoryStream.Read(dir, 0, RECORD_SIZE * entries);
      WrittenWhole(before, Bytes(reader.volume.disk, pos, RECORD_SIZE * entries));
      records := Split(dir[..], total);
      SplitBytes(reader.volume.disk, pos, RECORD_SIZE * entries, total);
      RecordsAre(reader.volume.disk, pos, records);
    }

    /** fat16_load_fat_directory. */
    method LoadDirectory(r: Record) returns (records: seq<Record>)
      requires Valid() && LoadableDirectory(reader.volume, r)
      modifies directoryStream, reader.clusterStream, reader.fatStream
      ensures records == DirectoryOf(reader.volume, r)
    {
      hide Bytes, Records;
      var v := reader.volume;
      var cluster := FirstCluster(r);
      var pos := ClusterPosition(v, cluster);
      var total := CountItems(pos);
      RecordsFit(v.disk, pos);
      var dir := new Byte[RECORD_SIZE * total](_ => 0);
      ghost var before := dir[..];
      FirstClusterRead(v, cluster, RECORD_SIZE * total, before);
      var _ := reader.ReadInternal(cluster, 0, RECORD_SIZE * total, dir, 0);
      records := Split(dir[..], total);
      SplitBytes(v.disk, pos, RECORD_SIZE * total, total);
      RecordsAre(v.disk, pos, records);
    }

    /** fat16_new_fat_item_for_directory_item. */
    method NewItem(r: Record) returns (item: FatItem)
      requires Valid() && (IsDirectory(r) ==> LoadableDirectory(reader.volume, r))
      modifies directoryStream, reader.clusterStream, reader.fatStream
      ensures item == ItemOf(reader.volume, r)
    {
      if IsDirectory(r) {
        var records := LoadDirectory(r);
        return DirectoryItem(records);
      }
      item := FileItem(r);
    }

    /** fat16_find_item_in_directory: the loop goes on after a match. */
    method FindItem(records: seq<Record>, name: seq<Byte>) returns (item: Option<FatItem>)
      requires Valid() && 0 !in name && MatchesLoadable(reader.volume, records, name)
      modifies directoryStream, reader.clusterStream, reader.fatStream
      ensures item == ItemNamed(reader.volume, records, name)
    {
      hide FullName, SameName, LoadableDirectory;
      item := None;
      var i := 0;
      while i < |records|
        invariant 0 <= i <= |records|
        invariant MatchesLoadable(reader.volume, records[..i], name)
        invariant item == ItemNamed(reader.volume, records[..i], name)
      {
        assert records[..i + 1][..i] == records[..i] && records[..i + 1][i] == records[i];
        FullNameIsText(records[i]);
        var filename := GetFullName(records[i]);
        var order := CompareNames(filename, name, MAX_PATH);
        if order == 0 {
          var found := NewItem(records[i]);
          item := Some(found);
        }
        i := i + 1;
      }
      assert records[..i] == records;
    }

    /** fat16_get_directory_entry: the item the path leads to, part by part. */
    method GetDirectoryEntry(root: seq<Record>, path: seq<seq<Byte>>) returns (item: Option<FatItem>)
      requires Valid() && path != [] && (forall i | 0 <= i < |path| :: 0 !in path[i])
      requires WalkReady(reader.volume, root, path)
      modifies directoryStream, reader.clusterStream, reader.fatStream
      ensures item == Walk(reader.volume, root, path)
    {
      hide ItemNamed, MatchesLoadable;
      var v := reader.volume;
      item := FindItem(root, path[0]);
      if item == None {
        NothingNamed(v, root, path);
        return;
      }
      OneStep(v, root, path);
      var n := 1;
      while n < |path|
        invariant 1 <= n <= |path|
        invariant n < |path| ==> item.Some?
        invariant n < |path| && item.value.DirectoryItem? ==> WalkReady(v, item.value.records, path[n..])
        invariant n + 1 < |path| && item.value.DirectoryItem? ==> ItemNamed(v, item.value.records, path[n]).Some?
        invariant Walk(v, root, path) ==
                  if n == |path| then item
                  else if item.value.FileItem? then None else Walk(v, item.value.records, path[n..])
      {
        if !item.value.DirectoryItem? {
          item := None;
          return;
        }
        ghost var here, rest := item.value.records, path[n..];
        assert rest[0] == path[n] && rest[1..] == path[n + 1..];
        ReadyHere(v, here, rest);
        item := FindItem(item.value.records, path[n]);
        if item == None {
          NothingNamed(v, here, rest);
        } else {
          OneStep(v, here, rest);
        }
        n := n + 1;
      }
    }
  }

  datatype FatItem = FileItem(record: Record) | DirectoryItem(records: seq<Record>)

  /** A subdirectory whose first cluster is placed, whose records end within its first
      sector, and that has at least one of them. */
  predicate LoadableDirectory(v: Volume, r: Record) {
    && Mountable(v) && Placed(v, FirstCluster(r)) && FatPosition(v, FirstCluster(r)) < INT_LIMIT - 2 * SECTOR_SIZE
    && Ends(v.disk, ClusterPosition(v, FirstCluster(r)))
    && Records(v.disk, ClusterPosition(v, FirstCluster(r))) != []
  }

  function DirectoryOf(v: Volume, r: Record): seq<Record>
    requires LoadableDirectory(v, r)
  {
    Records(v.disk, ClusterPosition(v, FirstCluster(r)))
  }

  function ItemOf(v: Volume, r: Record): FatItem
    requires IsDirectory(r) ==> LoadableDirectory(v, r)
  {
    if IsDirectory(r) then DirectoryItem(DirectoryOf(v, r)) else FileItem(r)
  }

  ghost predicate MatchesLoadable(v: Volume, records: seq<Record>, name: seq<Byte>) {
    forall i | 0 <= i < |records| && Matches(records[i], name) && IsDirectory(records[i]) ::
      LoadableDirectory(v, records[i])
  }

  ghost function ItemNamed(v: Volume, records: seq<Record>, name: seq<Byte>): Option<FatItem>
    requires MatchesLoadable(v, records, name)
  {
    FindLastIs(records, name);
    match FindLast(records, name)
    case None => None
    case Some(r) => Some(ItemOf(v, r))
  }

  /** The tree walk: each part names a record of the directory reached so far, and all
      but the last must be directories. */
  ghost function Walk(v: Volume, records: seq<Record>, path: seq<seq<Byte>>): Option<FatItem>
    requires path != [] && WalkReady(v, records, path)
    decreases |path|
  {
    match ItemNamed(v, records, path[0])
    case None => None
    case Some(FileItem(r)) => if |path| == 1 then Some(FileItem(r)) else None
    case Some(DirectoryItem(next)) => if |path| == 1 then Some(DirectoryItem(next)) else Walk(v, next, path[1..])
  }

  /** The directories on the way can be loaded, and every component but the last exists,
      except that the first may be missing. */
  ghost predicate WalkReady(v: Volume, records: seq<Record>, path: seq<seq<Byte>>)
    requires path != []
    decreases |path|
  {
    && MatchesLoadable(v, records, path[0])
    && (|path| > 1 ==>
          match ItemNamed(v, records, path[0])
          case None => true
          case Some(FileItem(_)) => true
          case Some(DirectoryItem(next)) =>
            WalkReady(v, next, path[1..]) && (|path| > 2 ==> ItemNamed(v, next, path[1]).Some?))
  }

  lemma ReadyHere(v: Volume, records: seq<Record>, path: seq<seq<Byte>>)
    requires path != [] && WalkReady(v, records, path)
    ensures MatchesLoadable(v, records, path[0])
  {
  }

  lemma NothingNamed(v: Volume, records: seq<Record>, path: seq<seq<Byte>>)
    requires path != [] && WalkReady(v, records, path) && ItemNamed(v, records, path[0]) == None
    ensures Walk(v, records, path) == None
  {
  }

  lemma OneStep(v: Volume, records: seq<Record>, path: seq<seq<Byte>>)
    requires path != [] && WalkReady(v, records, path) && ItemNamed(v, records, path[0]).Some?
    ensures var item := ItemNamed(v, records, path[0]);
            Walk(v, records, path) ==
            if |path| == 1 then item
            else if item.value.FileItem? then None
            else Walk(v, item.value.records, path[1..])
    ensures var item := ItemNamed(v, records, path[0]);
            |path| > 1 && item.value.DirectoryItem? ==>
              && WalkReady(v, item.value.records, path[1..])
              && (|path| > 2 ==> ItemNamed(v, item.value.records, path[1]).Some?)
  {
  }

  /** The first n records in a buffer. */
  function Split(buf: seq<Byte>, n: nat): (r: seq<Record>)
    requires RECORD_SIZE * n <= |buf|
    ensures |r| == n
  {
    seq(n, j requires 0 <= j < n => Piece(buf, j))
  }

  function Piece(buf: seq<Byte>, j: nat): Record
    requires RECORD_SIZE * (j + 1) <= |buf|
  {
    buf[RECORD_SIZE * j..RECORD_SIZE * j + RECORD_SIZE]
  }

  lemma SplitBytes(disk: Disk, pos: nat, size: nat, n: nat)
    requires RECORD_SIZE * n <= size
    ensures forall j | 0 <= j < n :: Split(Bytes(disk, pos, size), n)[j] == RecordAt(disk, pos, j)
  {
    forall j | 0 <= j < n ensures Split(Bytes(disk, pos, size), n)[j] == RecordAt(disk, pos, j) {
      PieceBytes(disk, pos, size, j);
    }
  }

  lemma PieceBytes(disk: Disk, pos: nat, size: nat, j: nat)
    requires RECORD_SIZE * (j + 1) <= size
    ensures Piece(Bytes(disk, pos, size), j) == RecordAt(disk, pos, j)
  {
  }

  lemma RecordsAre(disk: Disk, pos: nat, records: seq<Record>)
    requires |records| == |Records(disk, pos)|
    requires forall j | 0 <= j < |records| :: records[j] == RecordAt(disk, pos, j)
    ensures records == Records(disk, pos)
  {
  }

  lemma RecordsFit(disk: Disk, pos: nat)
    requires Ends(disk, pos)
    ensures RECORD_SIZE * |Records(disk, pos)| < SECTOR_SIZE
  {
  }

  /** Reading less than a sector from the start of a cluster's chain. */
  lemma FirstClusterRead(v: Volume, c: nat, total: nat, buf: seq<Byte>)
    requires Mountable(v) && Placed(v, c) && FatPosition(v, c) < INT_LIMIT - 2 * SECTOR_SIZE
    requires total < SECTOR_SIZE && |buf| == total
    ensures Addressable(v, c, LastWalked(v, 0, total))
    ensures ReadChunks(v, c, 0, total, buf, 0) == ReadResult(ALL_OK, Bytes(v.disk, ClusterPosition(v, c), total))
  {
    hide Quot, Rem, ClusterPosition, Bytes;
    QuotSmall(if total == 0 then 0 else total - 1, ClusterSize(v));
    QuotSmall(0, ClusterSize(v));
    AlignedDelivery(v, c, total);
    WrittenWhole(buf, Bytes(v.disk, ClusterPosition(v, c), total));
  }

  /** Record j of a directory is read whole, and below the sixteenth the stream goes on
      to the next. */
  lemma RecordInSector(pos: nat, j: nat)
    requires pos % SECTOR_SIZE == 0 && j < SECTOR_RECORDS
    ensures Delivered(pos + RECORD_SIZE * j, RECORD_SIZE) == RECORD_SIZE
    ensures j + 1 < SECTOR_RECORDS ==> EndOf(pos + RECORD_SIZE * j, RECORD_SIZE) == pos + RECORD_SIZE * (j + 1)
  {
  }

  lemma WrittenWhole(buf: seq<Byte>, data: seq<Byte>)
    requires |buf| == |data|
    ensures Written(buf, 0, data) == data
  {
  }
}
