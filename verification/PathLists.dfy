/** Parsing a whole path and freeing it again: the list, the blocks it holds, and the
    heap it leaves behind. */
module PathLists {
  import opened Words
  import opened HeapTable
  import opened KernelHeap
  import opened Tokenising
  import opened PathParser

  /** The nodes in order, each linked to the next. */
  ghost predicate Chain(nodes: seq<PathPart>)
    reads nodes
  {
    && (forall i, j | 0 <= i < j < |nodes| :: nodes[i] != nodes[j])
    && forall i {:trigger nodes[i].next} | 0 <= i < |nodes| ::
         nodes[i].next == if i + 1 < |nodes| then nodes[i + 1] else null
  }

  ghost predicate InHeap(start: Word, nodes: seq<PathPart>) {
    forall i | 0 <= i < |nodes| :: start <= nodes[i].partAddress && start <= nodes[i].address
  }

  /** The blocks of the nodes: string and node, part by part. */
  ghost function PartBlocks(start: Word, nodes: seq<PathPart>): seq<int> {
    if nodes == [] then []
    else [BlockOf(start, nodes[0].partAddress), BlockOf(start, nodes[0].address)] + PartBlocks(start, nodes[1..])
  }

  ghost function PathBlocks(start: Word, root: PathRoot, nodes: seq<PathPart>): seq<int> {
    [BlockOf(start, root.address)] + PartBlocks(start, nodes)
  }

  /** Beyond the allocations in base the heap holds exactly the given single blocks. */
  ghost predicate Holds(heap: Heap, base: Live, blocks: seq<int>)
    reads heap, heap.entries
  {
    && heap.Valid() && Distinct(blocks) && heap.live == WithSingles(base, blocks)
    && forall i | 0 <= i < |blocks| :: blocks[i] !in base
  }

  lemma {:induction false} PartBlocksAppend(start: Word, nodes: seq<PathPart>, node: PathPart)
    ensures PartBlocks(start, nodes + [node])
            == PartBlocks(start, nodes) + [BlockOf(start, node.partAddress), BlockOf(start, node.address)]
  {
    if nodes == [] {
      assert nodes + [node] == [node];
    } else {
      assert (nodes + [node])[1..] == nodes[1..] + [node];
      PartBlocksAppend(start, nodes[1..], node);
    }
  }

  lemma HoldsMore(base: Live, blocks: seq<int>, b: int, c: int)
    requires Distinct(blocks) && forall i | 0 <= i < |blocks| :: blocks[i] !in base
    requires b !in WithSingles(base, blocks) && c !in WithSingles(base, blocks) && b != c
    ensures WithSingles(base, blocks)[b := 1][c := 1] == WithSingles(base, blocks + [b, c])
    ensures Distinct(blocks + [b, c]) && forall i | 0 <= i < |blocks + [b, c]| :: (blocks + [b, c])[i] !in base
  {
    WithSinglesAppend(base, blocks, b);
    WithSinglesAppend(base, blocks + [b], c);
    assert blocks + [b] + [c] == blocks + [b, c];
  }

  lemma HoldsLess(base: Live, a: int, b: int, c: int, rest: seq<int>)
    requires var blocks := [a] + ([b, c] + rest);
             Distinct(blocks) && forall i | 0 <= i < |blocks| :: blocks[i] !in base
    ensures var live := WithSingles(base, [a] + ([b, c] + rest));
            && b in live && c in live && b != c && live[b] == 1 && live[c] == 1
            && live - {b} - {c} == WithSingles(base, [a] + rest)
    ensures Distinct([a] + rest) && forall i | 0 <= i < |[a] + rest| :: ([a] + rest)[i] !in base
  {
    hide WithSingles;
    var blocks := [a] + ([b, c] + rest);
    assert blocks[0] == a && blocks[1] == b && blocks[2] == c;
    assert forall i | 0 <= i < |rest| :: blocks[i + 3] == rest[i];
    SingleIsLive(base, blocks, b);
    SingleIsLive(base, blocks, c);
    DropSingles(base, blocks, [a] + rest, b, c);
  }

  lemma SingleIsLive(base: Live, blocks: seq<int>, b: int)
    requires b in blocks
    ensures b in WithSingles(base, blocks) && WithSingles(base, blocks)[b] == 1
  {
  }

  lemma DropSingles(base: Live, blocks: seq<int>, fewer: seq<int>, b: int, c: int)
    requires forall x :: x in blocks <==> x in fewer || x == b || x == c
    requires b !in base && c !in base && b !in fewer && c !in fewer
    ensures WithSingles(base, blocks) - {b} - {c} == WithSingles(base, fewer)
  {
    var left, right := WithSingles(base, blocks) - {b} - {c}, WithSingles(base, fewer);
    forall x ensures (x in left <==> x in right) && (x in left ==> left[x] == right[x]) {
      assert x in blocks <==> x in fewer || x == b || x == c;
    }
  }

  /** How many parts fit into f free blocks, after one for the root. */
  function Affordable(n: nat, f: nat): (k: nat)
    ensures k <= n && (k > 0 ==> 1 + 2 * k <= f) && (k == n || 1 + 2 * (k + 1) > f)
  {
    if f == 0 then 0 else if 2 * n <= f - 1 then n else (f - 1) / 2
  }

  lemma AffordableIs(n: nat, f: nat, k: nat)
    requires k <= n && 2 * k <= f - 1 && (k == n || f - 1 - 2 * k < 2)
    ensures Affordable(n, f) == k
  {
  }

  /** In the middle of parsing: the nodes hold the leading parts, what is left starts
      at i, and the heap holds the blocks of the root and of the nodes. */
  ghost predicate Progress(heap: Heap, root: PathRoot, path: string, i: nat, nodes: seq<PathPart>,
                           base: Live, f: nat, parts: seq<string>)
    reads heap, heap.entries, nodes
  {
    && i <= |path| && |nodes| <= |parts| && parts[|nodes|..] == Parts(path, i)
    && (forall k | 0 <= k < |nodes| :: nodes[k].part == parts[k])
    && Chain(nodes) && heap.start <= root.address && InHeap(heap.start, nodes)
    && Holds(heap, base, PathBlocks(heap.start, root, nodes))
    && FreeCount(heap) == f - 1 - 2 * |nodes|
  }

  /** All the parts there are blocks for have their nodes. */
  ghost predicate Finished(heap: Heap, root: PathRoot, nodes: seq<PathPart>, base: Live, f: nat, parts: seq<string>)
    reads heap, heap.entries, nodes
  {
    && |nodes| == Affordable(|parts|, f) && |nodes| <= |parts|
    && (forall k | 0 <= k < |nodes| :: nodes[k].part == parts[k])
    && Chain(nodes) && heap.start <= root.address && InHeap(heap.start, nodes)
    && Holds(heap, base, PathBlocks(heap.start, root, nodes))
  }

  /** One part more, or the end: no part is left, or the blocks are used up. */
  method AddPart(heap: Heap, root: PathRoot, last: PathPart?, path: string, i: nat,
                 ghost nodes: seq<PathPart>, ghost base: Live, ghost f: nat, ghost parts: seq<string>)
      returns (part: PathPart?, next: nat)
    requires Progress(heap, root, path, i, nodes, base, f, parts) && NUL !in path
    requires last == if nodes == [] then null else nodes[|nodes| - 1]
    modifies heap`live, heap.entries, if last != null then {last} else {}
    ensures part != null ==> fresh(part) && Progress(heap, root, path, next, nodes + [part], base, f, parts)
    ensures part == null ==> Finished(heap, root, nodes, base, f, parts)
  {
    hide Decodes, FreeBlocks, EndFrom, Parts, WithSingles, Affordable, BlockOf;
    FirstPart(path, i);
    ghost var blocks := PathBlocks(heap.start, root, nodes);
    part, next := ParsePart(heap, last, path, i);
    if part != null {
      hide Distinct, PathBlocks, Progress;
      Progressed(heap, root, path, next, nodes, part, base, f, parts, blocks);
    } else {
      assert |parts[|nodes|..]| == |parts| - |nodes|;
      AffordableIs(|parts|, f, |nodes|);
    }
  }

  /** The blocks and links of one more node, on top of the progress made so far. */
  lemma Progressed(heap: Heap, root: PathRoot, path: string, next: nat, nodes: seq<PathPart>, part: PathPart,
                   base: Live, f: nat, parts: seq<string>, blocks: seq<int>)
    requires heap.Valid() && heap.start <= root.address && InHeap(heap.start, nodes)
    requires heap.start <= part.partAddress && heap.start <= part.address
    requires next <= |path| && |nodes| < |parts| && parts[|nodes|..] == [part.part] + Parts(path, next)
    requires forall k | 0 <= k < |nodes| :: nodes[k].part == parts[k]
    requires blocks == PathBlocks(heap.start, root, nodes)
    requires Distinct(blocks) && forall i | 0 <= i < |blocks| :: blocks[i] !in base
    requires var b, c := BlockOf(heap.start, part.partAddress), BlockOf(heap.start, part.address);
             && b != c && b !in WithSingles(base, blocks) && c !in WithSingles(base, blocks)
             && heap.live == WithSingles(base, blocks)[b := 1][c := 1]
    requires FreeCount(heap) == f - 1 - 2 * |nodes| - 2
    requires part !in nodes && part.next == null
    requires forall i, j | 0 <= i < j < |nodes| :: nodes[i] != nodes[j]
    requires forall i {:trigger nodes[i].next} | 0 <= i < |nodes| ::
               nodes[i].next == if i + 1 < |nodes| then nodes[i + 1] else part
    ensures Progress(heap, root, path, next, nodes + [part], base, f, parts)
  {
    hide Decodes, FreeBlocks, EndFrom, Parts, WithSingles, BlockOf, Chain;
    var b, c := BlockOf(heap.start, part.partAddress), BlockOf(heap.start, part.address);
    PartBlocksAppend(heap.start, nodes, part);
    HoldsMore(base, blocks, b, c);
    assert PathBlocks(heap.start, root, nodes + [part]) == blocks + [b, c];
    RestOfParts(parts, |nodes|);
    Appended(nodes, part);
  }

  lemma RestOfParts(parts: seq<string>, n: nat)
    requires n < |parts|
    ensures parts[n..][1..] == parts[n + 1..] && parts[n..][0] == parts[n]
  {
  }

  lemma Appended(nodes: seq<PathPart>, node: PathPart)
    requires node !in nodes && node.next == null
    requires forall i, j | 0 <= i < j < |nodes| :: nodes[i] != nodes[j]
    requires forall i {:trigger nodes[i].next} | 0 <= i < |nodes| ::
               nodes[i].next == if i + 1 < |nodes| then nodes[i + 1] else node
    ensures Chain(nodes + [node])
  {
    var all := nodes + [node];
    forall i | 0 <= i < |all| ensures all[i].next == if i + 1 < |all| then all[i + 1] else null {
      if i + 1 < |nodes| {
        assert all[i] == nodes[i] && all[i + 1] == nodes[i + 1];
        assert nodes[i].next == nodes[i + 1];
      } else if i < |nodes| {
        assert all[i] == nodes[i] && all[i + 1] == node;
        assert nodes[i].next == node;
      } else {
        assert all[i] == node;
      }
    }
  }

  lemma StartedWith(heap: Heap, base: Live, f: nat, root: PathRoot, path: string)
    requires heap.Valid() && |path| >= 3 && heap.start <= root.address && FreeCount(heap) == f - 1
    requires BlockOf(heap.start, root.address) !in base && heap.live == base[BlockOf(heap.start, root.address) := 1]
    ensures Progress(heap, root, path, 3, [], base, f, Parts(path, 3))
  {
    var b := BlockOf(heap.start, root.address);
    assert PathBlocks(heap.start, root, []) == [b];
    assert [] + [b] == [b];
    WithSinglesAppend(base, [], b);
    assert WithSingles(base, []) == base;
  }

  /** The only block left to free when no part could be parsed. */
  method FreeRoot(heap: Heap, root: PathRoot, ghost base: Live)
    requires heap.start <= root.address && Holds(heap, base, [BlockOf(heap.start, root.address)])
    modifies heap`live, heap.entries
    ensures heap.Valid() && heap.live == base
  {
    hide Decodes, FreeBlocks;
    ghost var b := BlockOf(heap.start, root.address);
    assert [b][0] == b;
    assert WithSingles(base, [b]) - {b} == base;
    ReleaseBlock(heap, root.address);
  }

  lemma FinishedMeans(heap: Heap, root: PathRoot, nodes: seq<PathPart>, base: Live, f: nat, parts: seq<string>)
    requires Finished(heap, root, nodes, base, f, parts)
    ensures |nodes| == Affordable(|parts|, f) && |nodes| <= |parts|
    ensures forall k | 0 <= k < |nodes| :: nodes[k].part == parts[k]
    ensures Chain(nodes) && heap.start <= root.address && InHeap(heap.start, nodes)
    ensures Holds(heap, base, PathBlocks(heap.start, root, nodes))
    ensures nodes == [] ==> PathBlocks(heap.start, root, nodes) == [BlockOf(heap.start, root.address)]
  {
  }

  lemma SomeParts(heap: Heap, root: PathRoot, path: string, i: nat, part: PathPart, base: Live, f: nat,
                  parts: seq<string>)
    requires Progress(heap, root, path, i, [] + [part], base, f, parts)
    ensures parts != [] && f >= 3
  {
  }

  lemma NotAllYet(heap: Heap, root: PathRoot, path: string, i: nat, nodes: seq<PathPart>, part: PathPart,
                  base: Live, f: nat, parts: seq<string>)
    requires Progress(heap, root, path, i, nodes + [part], base, f, parts)
    ensures |nodes| < |parts|
  {
  }

  /** pathparser_parse. A path whose first character is a digit has at least the three
      characters that are skipped, and its parts fit their buffers. */
  method ParsePath(heap: Heap, path: string) returns (root: PathRoot?, ghost nodes: seq<PathPart>)
    requires heap.Valid() && NUL !in path && (Accepted(path) ==> |path| >= 3)
    requires Accepted(path) ==> forall i | 0 <= i < |Parts(path, 3)| :: |Parts(path, 3)[i]| < MAX_PATH
    modifies heap`live, heap.entries
    ensures heap.Valid()
    ensures root == null <==> !Accepted(path) || Parts(path, 3) == [] || old(FreeCount(heap)) < 3
    ensures root == null ==> nodes == [] && heap.live == old(heap.live)
    ensures root != null ==>
              && fresh(root) && root.driveNo == path[0] as int - '0' as int
              && nodes != [] && root.first == nodes[0] && Chain(nodes)
              && |nodes| == Affordable(|Parts(path, 3)|, old(FreeCount(heap)))
              && (forall i | 0 <= i < |nodes| :: fresh(nodes[i]) && nodes[i].part == Parts(path, 3)[i])
              && heap.start <= root.address && InHeap(heap.start, nodes)
              && Holds(heap, old(heap.live), PathBlocks(heap.start, root, nodes))
  {
    hide Decodes, FreeBlocks, EndFrom, Parts, Progress, Finished, Chain, PathBlocks;
    root, nodes := null, [];
    if path == "" || !IsDigit(path[0]) {
      return;
    }
    ghost var base, f, parts := heap.live, FreeCount(heap), Parts(path, 3);
    var driveNo := path[0] as int - '0' as int;
    var address := AllocateBlock(heap, ROOT_SIZE);
    if address == 0 {
      return;
    }
    root := new PathRoot(driveNo, address);
    StartedWith(heap, base, f, root, path);
    var part, i := AddPart(heap, root, null, path, 3, [], base, f, parts);
    if part == null {
      FinishedMeans(heap, root, [], base, f, parts);
      FreeRoot(heap, root, base);
      return null, [];
    }
    SomeParts(heap, root, path, i, part, base, f, parts);
    root.first := part;
    nodes := [part];
    assert [] + [part] == [part];
    var last := part;
    part, i := AddPart(heap, root, last, path, i, nodes, base, f, parts);
    while part != null
      invariant nodes != [] && last == nodes[|nodes| - 1] && root.first == nodes[0]
      invariant forall k | 0 <= k < |nodes| :: fresh(nodes[k])
      invariant part != null ==> fresh(part) && Progress(heap, root, path, i, nodes + [part], base, f, parts)
      invariant part == null ==> Finished(heap, root, nodes, base, f, parts)
      decreases |parts| - |nodes|
    {
      NotAllYet(heap, root, path, i, nodes, part, base, f, parts);
      nodes := nodes + [part];
      last := part;
      part, i := AddPart(heap, root, last, path, i, nodes, base, f, parts);
    }
    FinishedMeans(heap, root, nodes, base, f, parts);
  }

  // ---- freeing

  /** pathparser_free: string, node, next, and the root last. Whatever table encodes the
      allocations there were before parsing is the table again, byte for byte. */
  method FreePath(heap: Heap, root: PathRoot, ghost nodes: seq<PathPart>, ghost base: Live)
    requires Holds(heap, base, PathBlocks(heap.start, root, nodes))
    requires nodes != [] && root.first == nodes[0] && Chain(nodes)
    requires heap.start <= root.address && InHeap(heap.start, nodes)
    modifies heap`live, heap.entries
    ensures heap.Valid() && heap.live == base
    ensures forall t | Decodes(t, base) && |t| == heap.entries.Length :: heap.entries[..] == t
  {
    hide Decodes, FreeBlocks, WithSingles, Distinct;
    var part := root.first;
    ghost var k := 0;
    assert nodes[0..] == nodes;
    while part != null
      invariant 0 <= k <= |nodes| && part == if k < |nodes| then nodes[k] else null
      invariant Chain(nodes) && Holds(heap, base, PathBlocks(heap.start, root, nodes[k..]))
      decreases |nodes| - k
    {
      var nextPart := part.next;
      assert nodes[k].next == if k + 1 < |nodes| then nodes[k + 1] else null;
      ghost var b, c := BlockOf(heap.start, part.partAddress), BlockOf(heap.start, part.address);
      assert nodes[k..][1..] == nodes[k + 1..] && nodes[k..][0] == part;
      HoldsLess(base, BlockOf(heap.start, root.address), b, c, PartBlocks(heap.start, nodes[k + 1..]));
      ReleaseBlock(heap, part.partAddress);
      ReleaseBlock(heap, part.address);
      part := nextPart;
      k := k + 1;
    }
    assert nodes[k..] == [];
    assert PathBlocks(heap.start, root, []) == [BlockOf(heap.start, root.address)];
    FreeRoot(heap, root, base);
    forall t | Decodes(t, base) && |t| == heap.entries.Length ensures heap.entries[..] == t {
      SameTable(heap.entries[..], t, base);
    }
  }

  /** Two slashes in a row end the path: what is behind them is not parsed. */
  lemma EmptyPartEnds(digit: char, parts: seq<string>, rest: string)
    requires PartNames(parts) && parts != []
    ensures Parts([digit] + ":/" + Join(parts, '/') + ("//" + rest), 3) == parts
  {
    PartsOfJoin(parts, [digit] + ":/", "//" + rest);
  }

  /** A drive digit, ":/", and non-empty slash-free parts joined by slashes parse to that
      drive and those parts, with or without a slash at the end. */
  lemma PathRoundTrip(digit: char, parts: seq<string>, tail: string)
    requires IsDigit(digit) && PartNames(parts) && parts != [] && (tail == "" || tail == "/")
    ensures var path := [digit] + ":/" + Join(parts, '/') + tail;
            && Accepted(path) && |path| >= 3 && path[0] == digit && Parts(path, 3) == parts
            && ((forall i | 0 <= i < |parts| :: NUL !in parts[i]) ==> NUL !in path)
  {
    PartsOfJoin(parts, [digit] + ":/", tail);
    if forall i | 0 <= i < |parts| :: NUL !in parts[i] { JoinIsText(parts); }
  }

  lemma {:induction false} JoinIsText(parts: seq<string>)
    requires forall i | 0 <= i < |parts| :: NUL !in parts[i]
    ensures NUL !in Join(parts, '/')
    decreases |parts|
  {
    if |parts| > 1 {
      JoinIsText(parts[1..]);
      assert NUL !in parts[0] + ['/'];
    }
  }

  /** Any two characters behind the digit are accepted, not only ":/". */
  lemma SeparatorUnchecked(digit: char, a: char, b: char, rest: string)
    requires IsDigit(digit) && NUL !in [digit, a, b] + rest
    ensures Accepted([digit, a, b] + rest) && Parts([digit, a, b] + rest, 3) == Parts(rest, 0)
  {
    var s := [digit, a, b] + rest;
    assert s[3..] == rest;
    PartsShift(s, 3, 0);
  }

  lemma {:induction false} PartsShift(s: string, m: nat, i: nat)
    requires m + i <= |s|
    ensures Parts(s[m..], i) == Parts(s, m + i)
    decreases |s| - m - i
  {
    hide Parts, EndFrom;
    var r := s[m..];
    SkipShift(s, "/", m, i);
    FirstPart(r, i);
    FirstPart(s, m + i);
    var e := EndFrom(r, "/", i);
    if e > i {
      assert r[i..e] == s[m + i..m + e];
      PartsShift(s, m, Past(r, e));
    }
  }
}
