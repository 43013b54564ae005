/** What a read through the recursive cluster reader delivers, from any offset: where
    each of its bytes comes from, and exactly when these are the bytes of the file. */
module FatReads {
  import opened Status
  import opened Division
  import opened DiskStreams
  import opened FatChains

  // ---- where the bytes come from

  /** The disk position that byte i of a read is copied from, if it is copied at all. */
  function SourceOf(v: Volume, start: nat, offset: nat, total: nat, i: nat): Option<nat>
    requires Mountable(v) && Addressable(v, start, LastWalked(v, offset, total)) && i < total
    decreases total
  {
    match Follow(v, start, Quot(offset, ClusterSize(v)))
    case None => None
    case Some(c) =>
      assert Placed(v, c);
      var pos := ClusterPosition(v, c) + Rem(offset, ClusterSize(v));
      var chunk := ChunkOf(v, total);
      if i < Delivered(pos, chunk) then Some(pos + i)
      else if i < chunk then None
      else
        WalkStep(v, offset, total);
        SourceOf(v, start, offset + chunk, total - chunk, i - chunk)
  }

  /** Byte i of a read into before at index at, as found in after: the byte at its source,
      or the byte its place held before. */
  predicate Sourced(v: Volume, start: nat, offset: nat, total: nat,
                    before: seq<Byte>, at: nat, after: seq<Byte>, i: nat)
    requires Mountable(v) && Addressable(v, start, LastWalked(v, offset, total)) && i < total
    requires at + total <= |before| == |after|
  {
    after[at + i] ==
    match SourceOf(v, start, offset, total, i) { case None => before[at + i] case Some(p) => ByteAt(v.disk, p) }
  }

  ghost predicate AllSourced(v: Volume, start: nat, offset: nat, total: nat,
                             before: seq<Byte>, at: nat, after: seq<Byte>)
    requires Mountable(v) && Addressable(v, start, LastWalked(v, offset, total))
    requires at + total <= |before| == |after|
  {
    forall i | 0 <= i < total :: Sourced(v, start, offset, total, before, at, after, i)
  }

  /** Only the bytes of the request matter. */
  lemma SourcedAnyway(v: Volume, start: nat, offset: nat, total: nat,
                      before: seq<Byte>, before': seq<Byte>, at: nat, after: seq<Byte>, after': seq<Byte>)
    requires Mountable(v) && Addressable(v, start, LastWalked(v, offset, total))
    requires at + total <= |before| == |before'| == |after| == |after'|
    requires forall j | at <= j < at + total :: before'[j] == before[j] && after'[j] == after[j]
    requires AllSourced(v, start, offset, total, before, at, after)
    ensures AllSourced(v, start, offset, total, before', at, after')
  {
    hide SourceOf, LastWalked, Addressable;
    forall i | 0 <= i < total ensures Sourced(v, start, offset, total, before', at, after', i) {
      assert Sourced(v, start, offset, total, before, at, after, i);
      assert before'[at + i] == before[at + i] && after'[at + i] == after[at + i];
    }
  }

  predicate Fails(v: Volume, start: nat, offset: nat, total: nat)
    requires Mountable(v)
  {
    Follow(v, start, LastWalked(v, offset, total)).None?
  }

  /** A read fails exactly when the walk meets a stop value. Otherwise every byte of the
      request is what its source holds, and bytes without a source are left as they were. */
  lemma {:induction false} ReadSources(v: Volume, start: nat, offset: nat, total: nat, buf: seq<Byte>, at: nat)
    requires Mountable(v) && Addressable(v, start, LastWalked(v, offset, total)) && at + total <= |buf|
    ensures var r := ReadChunks(v, start, offset, total, buf, at);
            && r.res == (if Fails(v, start, offset, total) then -EIO else ALL_OK)
            && (r.res == ALL_OK ==> AllSourced(v, start, offset, total, buf, at, r.buf))
            && forall j | 0 <= j < |buf| && !(at <= j < at + total) :: r.buf[j] == buf[j]
    decreases total
  {
    hide Quot, Rem, ClusterPosition, ByteAt, Delivered;
    var m := ClusterSize(v);
    match Follow(v, start, Quot(offset, m))
    case None =>
      if !Fails(v, start, offset, total) {
        FollowPrefix(v, start, Quot(offset, m), LastWalked(v, offset, total));
      }
    case Some(c) =>
      assert Placed(v, c);
      var chunk, pos := ChunkOf(v, total), ClusterPosition(v, c) + Rem(offset, m);
      DeliveredAtMost(pos, chunk);
      if total <= m {
        if total > 0 { QuotSmall(total - 1, m); }
      } else {
        WalkStep(v, offset, total);
        var buf' := Written(buf, at, Bytes(v.disk, pos, Delivered(pos, chunk)));
        ReadSources(v, start, offset + m, total - m, buf', at + m);
        var r := ReadChunks(v, start, offset, total, buf, at);
        forall i | 0 <= i < total && r.res == ALL_OK ensures Sourced(v, start, offset, total, buf, at, r.buf, i) {
          if i >= m {
            assert Sourced(v, start, offset + m, total - m, buf', at + m, r.buf, i - m);
            assert buf'[at + m + (i - m)] == buf[at + i];
          } else {
            assert r.buf[at + i] == buf'[at + i];
          }
        }
      }
  }

  // ---- when they are the bytes of the file

  /** The last cluster of the chain that holds bytes of the request. */
  function LastNeeded(v: Volume, offset: nat, total: nat): nat
    requires Mountable(v)
  {
    Quot(if total == 0 then offset else offset + total - 1, ClusterSize(v))
  }

  /** The walk ends at the last cluster needed or, when the last chunk runs on into the
      next cluster, one before it. */
  lemma WalkedOrNext(v: Volume, offset: nat, total: nat)
    requires Mountable(v) && total >= 1
    ensures var m := ClusterSize(v);
            LastNeeded(v, offset, total) == LastWalked(v, offset, total)
                                            + if Rem(offset, m) + Rem(total - 1, m) < m then 0 else 1
  {
    var m := ClusterSize(v);
    QuotRem(offset, m);
    QuotRem(total - 1, m);
    hide Quot, Rem;
    var q, o := Quot(offset, m) + Quot(total - 1, m), Rem(offset, m) + Rem(total - 1, m);
    assert q * m == Quot(offset, m) * m + Quot(total - 1, m) * m;
    if o < m {
      QuotIs(offset + total - 1, m, q, o);
    } else {
      assert (q + 1) * m == q * m + m;
      QuotIs(offset + total - 1, m, q + 1, o - m);
    }
  }

  /** The FAT links cluster j of the chain to the cluster behind it on the disk. */
  predicate RunsOn(v: Volume, start: nat, j: nat) {
    match Follow(v, start, j)
    case None => false
    case Some(c) => FatEntry(v, c) == c + 1
  }

  /** The part of a sector in front of position o is not lost count of. */
  predicate InStep(o: nat, total: nat) {
    o % SECTOR_SIZE == 0 || o % SECTOR_SIZE + total <= SECTOR_SIZE
  }

  /** What a caller can check in the FAT: the clusters exist, and unless the read starts on
      a cluster boundary it is in step with the sectors and its clusters lie in a row. */
  predicate Whole(v: Volume, start: nat, offset: nat, total: nat)
    requires Mountable(v)
  {
    var o, last := Rem(offset, ClusterSize(v)), LastNeeded(v, offset, total);
    && Follow(v, start, last).Some?
    && (o == 0 || (InStep(o, total) && forall j | Quot(offset, ClusterSize(v)) <= j < last :: RunsOn(v, start, j)))
  }

  /** One byte at a time is right from every offset. */
  lemma OneByteIsWhole(v: Volume, start: nat, offset: nat)
    requires Mountable(v)
    ensures Whole(v, start, offset, 1) <==> Follow(v, start, Quot(offset, ClusterSize(v))).Some?
  {
  }

  /** Byte i of a read is copied from where byte offset + i of the file lies. */
  ghost predicate RightSource(v: Volume, start: nat, offset: nat, total: nat, i: nat)
    requires Mountable(v) && Addressable(v, start, LastWalked(v, offset, total)) && i < total
  {
    && HasByte(v, start, offset + i)
    && SourceOf(v, start, offset, total, i) == Some(FilePosition(v, start, offset + i))
  }

  ghost predicate AllRight(v: Volume, start: nat, offset: nat, total: nat)
    requires Mountable(v) && Addressable(v, start, LastWalked(v, offset, total))
  {
    forall i | 0 <= i < total :: RightSource(v, start, offset, total, i)
  }

  /** Disk position pos + i is where byte offset + i of the file lies. */
  ghost predicate Agrees(v: Volume, start: nat, offset: nat, pos: int, i: nat)
    requires Mountable(v)
  {
    HasByte(v, start, offset + i) && FilePosition(v, start, offset + i) == pos + i
  }

  ghost predicate NextPlaced(v: Volume, start: nat, q: nat)
    requires Mountable(v)
  {
    forall d | Follow(v, start, q + 1) == Some(d) :: Placed(v, d)
  }

  /** Byte i from a cluster agrees exactly when it still lies in it, or in a next cluster
      that follows on the disk. */
  lemma AgreesExactly(v: Volume, start: nat, offset: nat, i: nat, c: nat)
    requires Mountable(v) && i < ClusterSize(v)
    requires Follow(v, start, Quot(offset, ClusterSize(v))) == Some(c) && Placed(v, c)
    requires Rem(offset, ClusterSize(v)) + i >= ClusterSize(v) ==> NextPlaced(v, start, Quot(offset, ClusterSize(v)))
    ensures var m, o := ClusterSize(v), Rem(offset, ClusterSize(v));
            Agrees(v, start, offset, ClusterPosition(v, c) + o, i)
            <==> o + i < m || (Follow(v, start, Quot(offset, m) + 1).Some? && FatEntry(v, c) == c + 1)
  {
    hide Quot, Rem, Follow, ClusterPosition, FatEntry;
    var m, o := ClusterSize(v), Rem(offset, ClusterSize(v));
    if o + i < m {
      WithinBlock(offset, m, i);
    } else {
      QuotRem(offset, m);
      assert (Quot(offset, m) + 1) * m == Quot(offset, m) * m + m;
      QuotIs(offset + i, m, Quot(offset, m) + 1, o + i - m);
      FollowFurther(v, start, Quot(offset, m), 1);
      OneLink(v, c);
      match Follow(v, start, Quot(offset, m) + 1) {
        case None =>
        case Some(d) => NextOnDisk(v, c, d);
      }
    }
  }

  lemma NextOnDisk(v: Volume, c: nat, d: nat)
    requires Mountable(v)
    ensures ClusterPosition(v, d) == ClusterPosition(v, c) + ClusterSize(v) <==> d == c + 1
  {
    var n := v.sectorsPerCluster;
    if d < c + 1 {
      MulGap(d - 2, c + 1 - 2, n);
    } else if d > c + 1 {
      MulGap(c + 1 - 2, d - 2, n);
    }
    assert (c + 1 - 2) * n == (c - 2) * n + n;
  }

  /** The stream is in step, and the chunk ends in its cluster c or the next one follows. */
  ghost predicate ChunkIsRight(v: Volume, start: nat, offset: nat, chunk: nat, c: nat)
    requires Mountable(v)
  {
    var m, o := ClusterSize(v), Rem(offset, ClusterSize(v));
    InStep(o, chunk) && (o + chunk <= m || (Follow(v, start, Quot(offset, m) + 1).Some? && FatEntry(v, c) == c + 1))
  }

  /** One chunk, from anywhere in a cluster, comes from the right places if and only if the
      stream is in step and the chunk ends in its cluster or runs on into the next. */
  lemma ChunkExactly(v: Volume, start: nat, offset: nat, chunk: nat, c: nat)
    requires Mountable(v) && 1 <= chunk <= ClusterSize(v)
    requires Follow(v, start, Quot(offset, ClusterSize(v))) == Some(c) && Placed(v, c)
    requires Rem(offset, ClusterSize(v)) + chunk > ClusterSize(v) ==> NextPlaced(v, start, Quot(offset, ClusterSize(v)))
    ensures var m, o := ClusterSize(v), Rem(offset, ClusterSize(v));
            var pos := ClusterPosition(v, c) + o;
            (Delivered(pos, chunk) == chunk && forall i | 0 <= i < chunk :: Agrees(v, start, offset, pos, i))
            <==> ChunkIsRight(v, start, offset, chunk, c)
  {
    hide Quot, Rem, HasByte, Follow, Agrees, Delivered, FatEntry;
    var m, o := ClusterSize(v), Rem(offset, ClusterSize(v));
    var pos := ClusterPosition(v, c) + o;
    SectorOffset(v.rootEnd + (c - 2) * v.sectorsPerCluster, o);
    StreamExactly(pos, chunk);
    var runsOn := Follow(v, start, Quot(offset, m) + 1).Some? && FatEntry(v, c) == c + 1;
    forall i | 0 <= i < chunk ensures Agrees(v, start, offset, pos, i) <==> o + i < m || runsOn {
      AgreesExactly(v, start, offset, i, c);
    }
    assert o + chunk > m ==> (Agrees(v, start, offset, pos, m - o) <==> runsOn);
  }

  /** The first chunk of a read has the right sources exactly when it comes from there. */
  lemma FirstChunkSources(v: Volume, start: nat, offset: nat, total: nat, c: nat)
    requires Mountable(v) && Addressable(v, start, LastWalked(v, offset, total)) && total >= 1
    requires Follow(v, start, Quot(offset, ClusterSize(v))) == Some(c) && Placed(v, c)
    ensures var pos, chunk := ClusterPosition(v, c) + Rem(offset, ClusterSize(v)), ChunkOf(v, total);
            (forall i | 0 <= i < chunk :: RightSource(v, start, offset, total, i))
            <==>
            Delivered(pos, chunk) == chunk && forall i | 0 <= i < chunk :: Agrees(v, start, offset, pos, i)
  {
    hide Quot, Rem, ClusterPosition, Delivered, HasByte, FilePosition, Follow, LastWalked, Addressable;
    var pos, chunk := ClusterPosition(v, c) + Rem(offset, ClusterSize(v)), ChunkOf(v, total);
    DeliveredAtMost(pos, chunk);
    forall i | 0 <= i < chunk
      ensures RightSource(v, start, offset, total, i) <==> i < Delivered(pos, chunk) && Agrees(v, start, offset, pos, i)
    {
    }
    assert RightSource(v, start, offset, total, chunk - 1) ==> chunk - 1 < Delivered(pos, chunk);
  }

  /** Wholeness of a read of at most one chunk. */
  lemma WholeChunk(v: Volume, start: nat, offset: nat, total: nat, c: nat)
    requires Mountable(v) && 1 <= total <= ClusterSize(v)
    requires Follow(v, start, Quot(offset, ClusterSize(v))) == Some(c)
    ensures Whole(v, start, offset, total) <==> ChunkIsRight(v, start, offset, total, c)
  {
    hide Quot, Rem, Follow, FatEntry;
    var m := ClusterSize(v);
    QuotSmall(total - 1, m);
    WalkedOrNext(v, offset, total);
    assert RunsOn(v, start, Quot(offset, m)) <==> FatEntry(v, c) == c + 1;
  }

  /** Wholeness of a longer read is that of its first chunk and of the rest. */
  lemma WholeSplits(v: Volume, start: nat, offset: nat, total: nat, c: nat)
    requires Mountable(v) && total > ClusterSize(v)
    requires Follow(v, start, Quot(offset, ClusterSize(v))) == Some(c)
    ensures Whole(v, start, offset, total) <==>
              ChunkIsRight(v, start, offset, ClusterSize(v), c)
              && Whole(v, start, offset + ClusterSize(v), total - ClusterSize(v))
  {
    hide Quot, Rem, Follow, FatEntry;
    var m := ClusterSize(v);
    var q, last := Quot(offset, m), LastNeeded(v, offset, total);
    WalkStep(v, offset, total);
    QuotMono(offset + m, offset + total - 1, m);
    if Follow(v, start, last).Some? { FollowPrefix(v, start, q + 1, last); }
    assert RunsOn(v, start, q) <==> FatEntry(v, c) == c + 1;
  }

  /** A chunk that leaves its cluster needs the next one. */
  lemma NextNeeded(v: Volume, start: nat, offset: nat, total: nat)
    requires Mountable(v) && total >= 1 && Addressable(v, start, LastNeeded(v, offset, total))
    ensures Rem(offset, ClusterSize(v)) + ChunkOf(v, total) > ClusterSize(v) ==>
              NextPlaced(v, start, Quot(offset, ClusterSize(v)))
  {
    hide Quot, Rem, Placed;
    var m := ClusterSize(v);
    if Rem(offset, m) + ChunkOf(v, total) > m {
      NextBlock(offset, m);
      if total <= m {
        QuotSmall(total - 1, m);
        WalkedOrNext(v, offset, total);
      } else {
        QuotMono(offset + m, offset + total - 1, m);
      }
    }
  }

  lemma NothingWithoutCluster(v: Volume, start: nat, offset: nat, total: nat)
    requires Mountable(v) && total >= 1 && Addressable(v, start, LastWalked(v, offset, total))
    requires Follow(v, start, Quot(offset, ClusterSize(v))).None?
    ensures !RightSource(v, start, offset, total, 0) && !Whole(v, start, offset, total)
  {
    hide Quot, Rem;
    QuotMono(offset, offset + total - 1, ClusterSize(v));
    if Follow(v, start, LastNeeded(v, offset, total)).Some? {
      FollowPrefix(v, start, Quot(offset, ClusterSize(v)), LastNeeded(v, offset, total));
    }
  }

  /** The sources of later bytes are those of the rest of the read. */
  lemma LaterSources(v: Volume, start: nat, offset: nat, total: nat, c: nat)
    requires Mountable(v) && total > ClusterSize(v) && Addressable(v, start, LastWalked(v, offset, total))
    requires Follow(v, start, Quot(offset, ClusterSize(v))) == Some(c)
    ensures var m := ClusterSize(v);
            && LastWalked(v, offset + m, total - m) == LastWalked(v, offset, total)
            && ((forall i | m <= i < total :: RightSource(v, start, offset, total, i))
                <==> AllRight(v, start, offset + m, total - m))
  {
    hide RightSource, LastWalked, Addressable, Follow, Quot;
    var m := ClusterSize(v);
    var next, rest := offset + m, total - m;
    WalkStep(v, offset, total);
    forall i | m <= i < total
      ensures RightSource(v, start, offset, total, i) <==> RightSource(v, start, next, rest, i - m)
    {
      LaterSource(v, start, offset, total, c, i);
    }
    if forall i | m <= i < total :: RightSource(v, start, offset, total, i) {
      forall i | 0 <= i < rest ensures RightSource(v, start, next, rest, i) {
        assert RightSource(v, start, offset, total, m + i);
      }
    }
  }

  lemma LaterSource(v: Volume, start: nat, offset: nat, total: nat, c: nat, i: nat)
    requires Mountable(v) && ClusterSize(v) <= i < total && Addressable(v, start, LastWalked(v, offset, total))
    requires Follow(v, start, Quot(offset, ClusterSize(v))) == Some(c)
    ensures LastWalked(v, offset + ClusterSize(v), total - ClusterSize(v)) == LastWalked(v, offset, total)
    ensures RightSource(v, start, offset, total, i)
            <==> RightSource(v, start, offset + ClusterSize(v), total - ClusterSize(v), i - ClusterSize(v))
  {
    hide Quot, Rem, ClusterPosition, Delivered, HasByte, FilePosition;
    var m := ClusterSize(v);
    WalkStep(v, offset, total);
    assert Placed(v, c);
    DeliveredAtMost(ClusterPosition(v, c) + Rem(offset, m), m);
    assert offset + i == offset + m + (i - m);
  }

  /** A read of any length from any offset takes every byte from where the file has it if
      and only if it is whole. */
  lemma {:induction false} ReadExactly(v: Volume, start: nat, offset: nat, total: nat)
    requires Mountable(v) && total >= 1
    requires Addressable(v, start, LastWalked(v, offset, total)) && Addressable(v, start, LastNeeded(v, offset, total))
    ensures AllRight(v, start, offset, total) <==> Whole(v, start, offset, total)
    decreases total
  {
    hide Quot, Rem, ClusterPosition, Delivered, Agrees, RightSource, Whole, ChunkIsRight, LastNeeded;
    var m := ClusterSize(v);
    match Follow(v, start, Quot(offset, m))
    case None =>
      NothingWithoutCluster(v, start, offset, total);
    case Some(c) =>
      var chunk := ChunkOf(v, total);
      NextNeeded(v, start, offset, total);
      FirstChunkSources(v, start, offset, total, c);
      ChunkExactly(v, start, offset, chunk, c);
      if total <= m {
        WholeChunk(v, start, offset, total, c);
      } else {
        WalkStep(v, offset, total);
        WholeSplits(v, start, offset, total, c);
        SameNeeded(v, offset, total);
        LaterSources(v, start, offset, total, c);
        ReadExactly(v, start, offset + m, total - m);
      }
  }

  lemma SameNeeded(v: Volume, offset: nat, total: nat)
    requires Mountable(v) && total > ClusterSize(v)
    ensures LastNeeded(v, offset + ClusterSize(v), total - ClusterSize(v)) == LastNeeded(v, offset, total)
  {
  }

  // ---- what the buffer holds

  /** A whole read succeeds and fills its part of the buffer with the file's bytes. */
  lemma WholeRead(v: Volume, start: nat, offset: nat, total: nat, buf: seq<Byte>, at: nat)
    requires Mountable(v) && total >= 1 && at + total <= |buf| && Whole(v, start, offset, total)
    requires Addressable(v, start, LastWalked(v, offset, total)) && Addressable(v, start, LastNeeded(v, offset, total))
    ensures var r := ReadChunks(v, start, offset, total, buf, at);
            r.res == ALL_OK && forall j | at <= j < at + total :: FromFile(v, start, r.buf[j], offset + (j - at))
  {
    var r := ReadChunks(v, start, offset, total, buf, at);
    ReadSources(v, start, offset, total, buf, at);
    ReadExactly(v, start, offset, total);
    WalkedOrNext(v, offset, total);
    FollowPrefix(v, start, LastWalked(v, offset, total), LastNeeded(v, offset, total));
    hide ReadChunks, SourceOf, HasByte, LastWalked, LastNeeded, Whole;
    forall j | at <= j < at + total ensures FromFile(v, start, r.buf[j], offset + (j - at)) {
      assert RightSource(v, start, offset, total, j - at);
      assert Sourced(v, start, offset, total, buf, at, r.buf, j - at);
    }
  }

  /** From a cluster boundary the walk ends at the last cluster needed. */
  lemma AlignedWalk(v: Volume, offset: nat, total: nat)
    requires Mountable(v) && Rem(offset, ClusterSize(v)) == 0
    ensures LastWalked(v, offset, total) == LastNeeded(v, offset, total)
  {
    if total >= 1 { WalkedOrNext(v, offset, total); }
  }

  /** From a cluster-aligned offset the read fails exactly when a needed cluster lies
      beyond a stop value, and otherwise fills the buffer with the file's bytes. */
  lemma AlignedRead(v: Volume, start: nat, offset: nat, total: nat, buf: seq<Byte>, at: nat)
    requires Mountable(v) && Addressable(v, start, LastWalked(v, offset, total)) && at + total <= |buf|
    requires Rem(offset, ClusterSize(v)) == 0
    ensures var r := ReadChunks(v, start, offset, total, buf, at);
            && r.res == (if Follow(v, start, LastNeeded(v, offset, total)).None? then -EIO else ALL_OK)
            && (r.res == ALL_OK ==> forall j | at <= j < at + total :: FromFile(v, start, r.buf[j], offset + (j - at)))
            && forall i | 0 <= i < |buf| && !(at <= i < at + total) :: r.buf[i] == buf[i]
  {
    hide ReadChunks, Sourced, LastWalked, LastNeeded, FromFile;
    AlignedWalk(v, offset, total);
    ReadSources(v, start, offset, total, buf, at);
    if total >= 1 && Whole(v, start, offset, total) {
      WholeRead(v, start, offset, total, buf, at);
    }
  }

  // ---- slices of the joined clusters

  /** A whole read, aligned or not, yields a slice of the joined clusters, the same a
      single pass along the chain would yield. */
  lemma WholeReadIsSlice(v: Volume, start: nat, offset: nat, total: nat, buf: seq<Byte>, at: nat)
    requires Mountable(v) && total >= 1 && at + total <= |buf| && Whole(v, start, offset, total)
    requires Addressable(v, start, LastWalked(v, offset, total)) && Addressable(v, start, LastNeeded(v, offset, total))
    ensures var r := ReadChunks(v, start, offset, total, buf, at);
            var n := LastNeeded(v, offset, total) + 1;
            && r.res == ALL_OK && Reaches(v, start, n) && offset + total <= |ChainBytes(v, start, n)|
            && r.buf[at..at + total] == ChainBytes(v, start, n)[offset..offset + total]
  {
    hide ReadChunks, LastWalked, FromFile, ChainBytes;
    var r := ReadChunks(v, start, offset, total, buf, at);
    var n := LastNeeded(v, offset, total) + 1;
    WholeRead(v, start, offset, total, buf, at);
    ReachesAll(v, start, n);
    ChainBytesLength(v, start, n);
    NeededCovers(v, offset, total);
    var part, whole := r.buf[at..at + total], ChainBytes(v, start, n);
    forall j | 0 <= j < total ensures FromFile(v, start, part[j], offset + j) { assert part[j] == r.buf[at + j]; }
    forall i | 0 <= i < |whole| ensures FromFile(v, start, whole[i], i) { ChainBytesAt(v, start, n, i); }
    SameBytes(v, start, part, whole, offset);
  }

  /** Every successful read of some bytes from a cluster boundary is such a slice. */
  lemma AlignedReadIsSlice(v: Volume, start: nat, offset: nat, total: nat, buf: seq<Byte>, at: nat)
    requires Mountable(v) && Addressable(v, start, LastWalked(v, offset, total)) && at + total <= |buf|
    requires Rem(offset, ClusterSize(v)) == 0
    ensures var r := ReadChunks(v, start, offset, total, buf, at);
            var n := LastNeeded(v, offset, total) + 1;
            r.res == ALL_OK ==>
              && Reaches(v, start, n) && offset + total <= |ChainBytes(v, start, n)|
              && r.buf[at..at + total] == ChainBytes(v, start, n)[offset..offset + total]
  {
    hide ReadChunks, LastWalked, FromFile, ChainBytes;
    AlignedRead(v, start, offset, total, buf, at);
    AlignedWalk(v, offset, total);
    if Follow(v, start, LastNeeded(v, offset, total)).Some? {
      if total >= 1 {
        WholeReadIsSlice(v, start, offset, total, buf, at);
      } else {
        ReachesAll(v, start, LastNeeded(v, offset, total) + 1);
        ChainBytesLength(v, start, LastNeeded(v, offset, total) + 1);
        NeededCovers(v, offset, total);
      }
    }
  }

  lemma NeededCovers(v: Volume, offset: nat, total: nat)
    requires Mountable(v)
    ensures (LastNeeded(v, offset, total) + 1) * ClusterSize(v) >= offset + total
  {
    QuotRem(if total == 0 then offset else offset + total - 1, ClusterSize(v));
    hide Quot, Rem;
  }

  lemma SameBytes(v: Volume, start: nat, part: seq<Byte>, whole: seq<Byte>, offset: nat)
    requires Mountable(v) && offset + |part| <= |whole|
    requires forall j | 0 <= j < |part| :: FromFile(v, start, part[j], offset + j)
    requires forall i | 0 <= i < |whole| :: FromFile(v, start, whole[i], i)
    ensures part == whole[offset..offset + |part|]
  {
    hide HasByte, FilePosition;
    forall j | 0 <= j < |part| ensures part[j] == whole[offset + j] {
      assert FromFile(v, start, part[j], offset + j) && FromFile(v, start, whole[offset + j], offset + j);
    }
  }
}
