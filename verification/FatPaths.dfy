/** What looking up a path means: the item found is the end of the one trail of directory
    entries, on the disk, that the path names. */
module FatPaths {
  import opened DiskStreams
  import opened FatChains
  import opened FatNames
  import opened FatDirectories

  /** r is an entry of the directory at pos: in front of its end marker and not deleted. */
  ghost predicate Listed(disk: Disk, pos: nat, r: Record) {
    r[0] != DELETED && exists j :: 0 <= j < EndMarker(disk, pos, 0) && RecordAt(disk, pos, j) == r
  }

  /** No deleted records in the directory, and no two names alike. */
  ghost predicate Tidy(disk: Disk, pos: nat) {
    && UniqueNames(Records(disk, pos))
    && forall j | 0 <= j < EndMarker(disk, pos, 0) :: RecordAt(disk, pos, j)[0] != DELETED
  }

  function PlaceOf(v: Volume, r: Record): nat
    requires LoadableDirectory(v, r)
  {
    ClusterPosition(v, FirstCluster(r))
  }

  /** One entry a part: each matches its part and is listed in the directory that the one
      before it names, the first in the directory at pos. */
  ghost predicate Trail(v: Volume, pos: nat, path: seq<seq<Byte>>, trail: seq<Record>)
    requires path != []
    decreases |path|
  {
    && |trail| == |path| && Listed(v.disk, pos, trail[0]) && Matches(trail[0], path[0])
    && (|path| > 1 ==> IsDirectory(trail[0]) && LoadableDirectory(v, trail[0])
                       && Trail(v, PlaceOf(v, trail[0]), path[1..], trail[1..]))
  }

  /** A trail whose last entry is the item. */
  ghost predicate LeadsTo(v: Volume, pos: nat, path: seq<seq<Byte>>, trail: seq<Record>, item: FatItem)
    requires path != []
  {
    && Trail(v, pos, path, trail)
    && var last := trail[|trail| - 1]; (IsDirectory(last) ==> LoadableDirectory(v, last)) && item == ItemOf(v, last)
  }

  /** The directory at pos, and every directory the path can lead through, is tidy. */
  ghost predicate TidyWay(v: Volume, pos: nat, path: seq<seq<Byte>>)
    requires path != []
    decreases |path|
  {
    && Tidy(v.disk, pos)
    && (|path| > 1 ==> forall r | Passes(v, pos, path[0], r) :: TidyWay(v, PlaceOf(v, r), path[1..]))
  }

  ghost predicate Passes(v: Volume, pos: nat, part: seq<Byte>, r: Record) {
    Listed(v.disk, pos, r) && Matches(r, part) && IsDirectory(r) && LoadableDirectory(v, r)
  }

  lemma TidyLists(disk: Disk, pos: nat, r: Record)
    requires Tidy(disk, pos)
    ensures Listed(disk, pos, r) <==> r in Records(disk, pos)
  {
    RecordsComplete(disk, pos);
  }

  /** In a tidy directory the search finds exactly the entry that matches. */
  lemma FindsEntry(disk: Disk, pos: nat, name: seq<Byte>, r: Record)
    requires Tidy(disk, pos)
    ensures FindLast(Records(disk, pos), name) == Some(r) <==> Listed(disk, pos, r) && Matches(r, name)
  {
    hide Records, FindLast, Matches;
    var records := Records(disk, pos);
    TidyLists(disk, pos, r);
    FindLastIs(records, name);
    if r in records && Matches(r, name) {
      var k :| 0 <= k < |records| && records[k] == r;
      FindIsMatch(records, name, k);
    }
  }

  ghost predicate OnlyMatch(v: Volume, pos: nat, part: seq<Byte>, r: Record) {
    forall r' :: Listed(v.disk, pos, r') && Matches(r', part) <==> r' == r
  }

  /** Behind the only entry that matches the first part, trails are those of the rest. */
  lemma TrailsThrough(v: Volume, pos: nat, path: seq<seq<Byte>>, r: Record, item: FatItem)
    requires |path| > 1 && OnlyMatch(v, pos, path[0], r) && IsDirectory(r) && LoadableDirectory(v, r)
    ensures (exists trail :: LeadsTo(v, pos, path, trail, item))
            <==> exists rest :: LeadsTo(v, PlaceOf(v, r), path[1..], rest, item)
  {
    hide Listed, Matches, LoadableDirectory;
    if trail :| LeadsTo(v, pos, path, trail, item) {
      assert LeadsTo(v, PlaceOf(v, r), path[1..], trail[1..], item);
    }
    if rest :| LeadsTo(v, PlaceOf(v, r), path[1..], rest, item) {
      var trail := [r] + rest;
      assert trail[1..] == rest;
      assert LeadsTo(v, pos, path, trail, item);
    }
  }

  /** What the search finds among the records of a tidy directory is their only match. */
  lemma FoundIsOnlyMatch(v: Volume, pos: nat, part: seq<Byte>, r: Record)
    requires Tidy(v.disk, pos) && FindLast(Records(v.disk, pos), part) == Some(r)
    ensures OnlyMatch(v, pos, part, r) && r in Records(v.disk, pos) && Matches(r, part)
  {
    hide Records, FindLast, Listed, Matches;
    TidyLists(v.disk, pos, r);
    forall r' ensures Listed(v.disk, pos, r') && Matches(r', part) <==> r' == r {
      FindsEntry(v.disk, pos, part, r');
    }
  }

  /** Without a match there is no trail. */
  lemma NoTrail(v: Volume, pos: nat, path: seq<seq<Byte>>, trail: seq<Record>)
    requires path != [] && Tidy(v.disk, pos) && FindLast(Records(v.disk, pos), path[0]) == None
    ensures !Trail(v, pos, path, trail)
  {
    hide Records, FindLast, Listed, Matches;
    if |trail| > 0 { FindsEntry(v.disk, pos, path[0], trail[0]); }
  }

  /** Where every directory on the way is tidy the lookup returns an item if and only if a
      trail of entries on the disk leads to it. */
  lemma {:induction false} WalkIsTrail(v: Volume, pos: nat, path: seq<seq<Byte>>, item: FatItem)
    requires path != [] && WalkReady(v, Records(v.disk, pos), path) && TidyWay(v, pos, path)
    ensures Walk(v, Records(v.disk, pos), path) == Some(item) <==> exists trail :: LeadsTo(v, pos, path, trail, item)
    decreases |path|
  {
    hide Records, Matches, Listed, Tidy, LoadableDirectory, FindLast;
    var records := Records(v.disk, pos);
    match FindLast(records, path[0])
    case None =>
      forall trail ensures !Trail(v, pos, path, trail) { NoTrail(v, pos, path, trail); }
    case Some(r) =>
      FoundIsOnlyMatch(v, pos, path[0], r);
      if |path| == 1 {
        LastPart(v, pos, path, r, item);
      } else if IsDirectory(r) {
        assert Passes(v, pos, path[0], r);
        WalkIsTrail(v, PlaceOf(v, r), path[1..], item);
        TrailsThrough(v, pos, path, r, item);
      } else {
        forall trail ensures !Trail(v, pos, path, trail) {}
      }
  }

  lemma LastPart(v: Volume, pos: nat, path: seq<seq<Byte>>, r: Record, item: FatItem)
    requires |path| == 1 && OnlyMatch(v, pos, path[0], r) && (IsDirectory(r) ==> LoadableDirectory(v, r))
    ensures (exists trail :: LeadsTo(v, pos, path, trail, item)) <==> item == ItemOf(v, r)
  {
    hide Listed, Matches, LoadableDirectory;
    assert item == ItemOf(v, r) ==> LeadsTo(v, pos, path, [r], item);
  }

  // ---- letter case

  ghost predicate SamePath(a: seq<seq<Byte>>, b: seq<seq<Byte>>) {
    |a| == |b| && forall i | 0 <= i < |a| :: SameName(a[i], b[i])
  }

  lemma {:induction false} FindIgnoresCase(records: seq<Record>, a: seq<Byte>, b: seq<Byte>)
    requires SameName(a, b)
    ensures FindLast(records, a) == FindLast(records, b)
  {
    hide FullName;
    if records != [] {
      FindIgnoresCase(records[..|records| - 1], a, b);
    }
  }

  lemma NamedIgnoresCase(v: Volume, records: seq<Record>, a: seq<Byte>, b: seq<Byte>)
    requires SameName(a, b) && MatchesLoadable(v, records, a)
    ensures MatchesLoadable(v, records, b) && ItemNamed(v, records, a) == ItemNamed(v, records, b)
  {
    hide FullName, FindLast, LoadableDirectory;
    FindIgnoresCase(records, a, b);
  }

  /** A path written in other letter case leads to the same item. */
  lemma {:induction false} WalkIgnoresCase(v: Volume, records: seq<Record>, a: seq<seq<Byte>>, b: seq<seq<Byte>>)
    requires a != [] && SamePath(a, b) && WalkReady(v, records, a)
    ensures WalkReady(v, records, b) && Walk(v, records, a) == Walk(v, records, b)
    decreases |a|
  {
    hide SameName, MatchesLoadable, ItemNamed;
    NamedIgnoresCase(v, records, a[0], b[0]);
    if |a| > 1 {
      match ItemNamed(v, records, a[0])
      case Some(DirectoryItem(next)) =>
        WalkIgnoresCase(v, next, a[1..], b[1..]);
        NamedIgnoresCase(v, next, a[1], b[1]);
      case _ =>
    }
  }
}
