/** The path parser: "d:/a/b/c" becomes a drive number and a linked list of parts, each
    part and its string in a heap block of its own. */
module PathParser {
  import opened Words
  import opened HeapTable
  import opened KernelHeap
  import opened Tokenising

  const NUL := '\0'
  const MAX_PATH := 108
  const PART_SIZE := 8
  const ROOT_SIZE := 8

  class PathPart {
    const part: string
    const partAddress: Word   // the block of the string
    const address: Word       // the block of this node
    var next: PathPart?

    constructor (part: string, partAddress: Word, address: Word)
      ensures this.part == part && this.partAddress == partAddress && this.address == address && next == null
    {
      this.part, this.partAddress, this.address, this.next := part, partAddress, address, null;
    }
  }

  class PathRoot {
    const driveNo: int
    const address: Word
    var first: PathPart?

    constructor (driveNo: int, address: Word)
      ensures this.driveNo == driveNo && this.address == address && first == null
    {
      this.driveNo, this.address, this.first := driveNo, address, null;
    }
  }

  // ---- the parts of a path

  /** Slash-separated parts from position i on, up to the first empty one. */
  function Parts(s: string, i: nat): seq<string>
    requires i <= |s|
    decreases |s| - i
  {
    var e := EndFrom(s, "/", i);
    if e == i then [] else [s[i..e]] + Parts(s, Past(s, e))
  }

  predicate IsDigit(c: char) {
    '0' <= c <= '9'
  }

  /** What is checked of a path: only its first character, since the comparison of the
      next two with ":/" never reports a difference. */
  predicate Accepted(path: string) {
    path != [] && IsDigit(path[0])
  }

  ghost predicate PartNames(parts: seq<string>) {
    forall i | 0 <= i < |parts| :: parts[i] != [] && '/' !in parts[i]
  }

  /** The text behind the first part of a joined path. */
  function Behind(parts: seq<string>, tail: string): string
    requires parts != []
  {
    if |parts| == 1 then tail else "/" + Join(parts[1..], '/') + tail
  }

  lemma JoinSplits(before: string, parts: seq<string>, tail: string)
    requires parts != []
    ensures before + Join(parts, '/') + tail == before + parts[0] + Behind(parts, tail)
    ensures |parts| > 1 ==>
              before + Join(parts, '/') + tail == (before + parts[0] + "/") + Join(parts[1..], '/') + tail
  {
    if |parts| > 1 {
      assert Join(parts, '/') == parts[0] + "/" + Join(parts[1..], '/');
      hide Join;
      Regroup(before, parts[0], Join(parts[1..], '/'), tail);
    }
  }

  lemma Regroup(a: string, b: string, c: string, d: string)
    ensures a + (b + "/" + c) + d == a + b + ("/" + c + d)
    ensures a + (b + "/" + c) + d == (a + b + "/") + c + d
  {
  }

  /** Nothing, one slash, or two slashes and anything. */
  predicate Tail(tail: string) {
    tail == "" || tail == "/" || "//" <= tail
  }

  /** Parts joined by slashes come back, with or without a slash behind the last, and nothing
      behind two slashes does. */
  lemma {:induction false} PartsOfJoin(parts: seq<string>, before: string, tail: string)
    requires PartNames(parts) && parts != [] && Tail(tail)
    ensures Parts(before + Join(parts, '/') + tail, |before|) == parts
    decreases |parts|
  {
    hide EndFrom, Join, Parts;
    var w, s := parts[0], before + Join(parts, '/') + tail;
    JoinSplits(before, parts, tail);
    WordEnd(before, w, Behind(parts, tail));
    FirstPart(s, |before|);
    assert s[|before|..|before| + |w|] == w;
    if |parts| > 1 {
      PartsOfJoin(parts[1..], before + w + "/", tail);
    } else {
      EmptyTail(s, before + w, tail);
    }
  }

  lemma FirstPart(s: string, i: nat)
    requires i <= |s|
    ensures var e := EndFrom(s, "/", i);
            Parts(s, i) == if e == i then [] else [s[i..e]] + Parts(s, Past(s, e))
  {
  }

  lemma EmptyTail(s: string, before: string, tail: string)
    requires s == before + tail && Tail(tail)
    ensures Parts(s, Past(s, |before|)) == []
  {
    if |tail| > 1 {
      assert s[|before| + 1] == tail[1] == '/';
    }
  }

  lemma WordEnd(before: string, w: string, rest: string)
    requires w != [] && '/' !in w && (rest == [] || rest[0] == '/')
    ensures EndFrom(before + w + rest, "/", |before|) == |before| + |w|
  {
    var s := before + w + rest;
    assert s[|before|..] == w + rest;
    SkipShift(s, "/", |before|, 0);
    LeadingWord(w, rest, "/", 0);
  }

  // ---- blocks of the heap

  function BlockOf(start: Word, address: Word): int {
    (address - start) / BLOCK_SIZE
  }

  ghost function FreeCount(heap: Heap): nat
    reads heap, heap.entries
  {
    |FreeBlocks(heap.entries[..])|
  }

  /** The allocation of a kzalloc of at most one block: a free block if there is one, else 0.
      What is zeroed there is kept as strings, not as words of the block. */
  method AllocateBlock(heap: Heap, size: Word) returns (address: Word)
    requires heap.Valid() && 0 < size <= BLOCK_SIZE
    modifies heap`live, heap.entries
    ensures heap.Valid()
    ensures address == 0 <==> old(FreeCount(heap)) == 0
    ensures address == 0 ==> heap.live == old(heap.live) && FreeCount(heap) == old(FreeCount(heap))
    ensures address != 0 ==>
              var b := BlockOf(heap.start, address);
              && heap.start <= address && b !in old(heap.live) && heap.live == old(heap.live)[b := 1]
              && FreeCount(heap) == old(FreeCount(heap)) - 1
  {
    hide Decodes, HeapStep, FreeBlocks, MallocSafe;
    ghost var h := HeapState(heap.entries[..], heap.live);
    SmallRequest(h.table, size);
    address := heap.Malloc(size);
    ghost var h' := HeapState(heap.entries[..], heap.live);
    ghost var r :| HeapStep(h, HeapOp.Malloc(size, r), h') && address == if r < 0 then 0 else heap.BlockToAddress(r);
    SmallMalloc(h, size, r, h');
  }

  lemma SmallRequest(t: Table, size: Word)
    requires 0 < size <= BLOCK_SIZE
    ensures BlocksFor(size) == 1 && MallocSafe(t, BlocksFor(size))
  {
  }

  lemma SmallMalloc(h: HeapState, size: Word, r: int, h': HeapState)
    requires Decodes(h.table, h.live) && 0 < size <= BLOCK_SIZE && HeapStep(h, HeapOp.Malloc(size, r), h')
    ensures r < 0 <==> |FreeBlocks(h.table)| == 0
    ensures r < 0 ==> h' == h
    ensures r >= 0 ==> r !in h.live && h'.live == h.live[r := 1] && |FreeBlocks(h'.table)| == |FreeBlocks(h.table)| - 1
  {
    assert BlocksFor(size) == 1;
    SingleBlockSearch(h.table, r);
    if r >= 0 {
      SingleStep(h.table, h.live, r);
    } else {
      assert FreeBlocks(h.table) == {};
    }
  }

  /** kfree of a live one-block allocation. */
  method ReleaseBlock(heap: Heap, address: Word)
    requires heap.Valid() && heap.start <= address
    requires BlockOf(heap.start, address) in heap.live && heap.live[BlockOf(heap.start, address)] == 1
    modifies heap`live, heap.entries
    ensures heap.Valid() && heap.live == old(heap.live) - {BlockOf(heap.start, address)}
    ensures FreeCount(heap) == old(FreeCount(heap)) + 1
  {
    FreeReturnsBlocks(heap.entries[..], heap.live, BlockOf(heap.start, address));
    heap.Free(address);
  }

  // ---- parsing

  /** pathparser_get_path_part and pathparser_parse_path_part: one part from position i,
      if two blocks are free for it; otherwise nothing is kept. */
  method ParsePart(heap: Heap, last: PathPart?, path: string, i: nat) returns (part: PathPart?, next: nat)
    requires heap.Valid() && i <= |path| && NUL !in path
    modifies heap`live, heap.entries, if last != null then {last} else {}
    ensures heap.Valid() && i <= next <= |path|
    ensures part != null <==> EndFrom(path, "/", i) > i && old(FreeCount(heap)) >= 2
    ensures part == null ==> heap.live == old(heap.live) && FreeCount(heap) == old(FreeCount(heap))
    ensures part == null && last != null ==> last.next == old(last.next)
    ensures part != null ==>
              var e := EndFrom(path, "/", i);
              var b, c := BlockOf(heap.start, part.partAddress), BlockOf(heap.start, part.address);
              && fresh(part) && part.next == null && part.part == path[i..e] && next == Past(path, e)
              && heap.start <= part.partAddress && heap.start <= part.address
              && b !in old(heap.live) && c !in old(heap.live) && b != c
              && heap.live == old(heap.live)[b := 1][c := 1]
              && FreeCount(heap) == old(FreeCount(heap)) - 2
    ensures part != null && last != null ==> last.next == part
  {
    hide Decodes, FreeBlocks;
    part, next := null, i;
    ghost var live0 := heap.live;
    var partAddress := AllocateBlock(heap, MAX_PATH);
    if partAddress == 0 {
      return;
    }
    ghost var b := BlockOf(heap.start, partAddress);
    ghost var e := EndFrom(path, "/", i);
    var text := "";
    while next < |path| && path[next] != '/'
      invariant i <= next <= |path| && text == path[i..next]
      invariant EndFrom(path, "/", next) == e
    {
      text := text + [path[next]];
      next := next + 1;
    }
    if next < |path| {
      next := next + 1;
    }
    assert live0[b := 1] - {b} == live0;
    if text == "" {
      ReleaseBlock(heap, partAddress);
      return;
    }
    var address := AllocateBlock(heap, PART_SIZE);
    if address == 0 {
      ReleaseBlock(heap, partAddress);
      return;
    }
    part := new PathPart(text, partAddress, address);
    if last != null {
      last.next := part;
    }
  }
}
