/** Building and tearing down page directories in heap memory. */
module PageDirectories {
  import opened Words
  import opened HeapTable
  import opened KernelHeap
  import opened AddressSpaces
  import opened AddressSpaceRuns
  import opened Paging

  // ---- zeroed memory

  /** A frame with its first n bytes zeroed; words are little-endian. */
  function ZeroPrefix(f: Frame, n: int): Frame {
    seq(ENTRIES, k requires 0 <= k < ENTRIES => ZeroBytes(f[k], n - 4 * k))
  }

  /** A word with its n lowest bytes zeroed. */
  function ZeroBytes(w: Word, n: int): (r: Word)
    ensures r <= w
    decreases n
  {
    if n <= 0 then w
    else if n >= 4 then 0
    else 0x100 * ZeroBytes(w / 0x100, n - 1)
  }

  /** memset(address of block b, 0, size). */
  function Zeroed(frames: seq<Frame>, b: int, size: int): (r: seq<Frame>)
    ensures |r| == |frames|
  {
    seq(|frames|, i requires 0 <= i < |frames| =>
      if b <= i then ZeroPrefix(frames[i], size - BLOCK_SIZE * (i - b)) else frames[i])
  }

  /** Byte j of memory from block b on, and byte m of a word. */
  function MemoryByte(frames: seq<Frame>, b: int, j: nat): int
    requires 0 <= b && j < 4096 * (|frames| - b)
  {
    WordByte(frames[b + j / 4096][j / 4 % 1024], j % 4)
  }

  function WordByte(w: Word, m: int): int {
    if m == 0 then w % 256
    else if m == 1 then w / 0x100 % 256
    else if m == 2 then w / 0x1_0000 % 256
    else w / 0x100_0000 % 256
  }

  /** From block b on the first size bytes are 0 and the others what they were; so is all
      that lies in front of the block. */
  ghost predicate ClearedBytes(before: seq<Frame>, after: seq<Frame>, b: int, size: int) {
    && 0 <= b && |after| == |before|
    && (forall i | 0 <= i < |before| && i < b :: after[i] == before[i])
    && forall j: nat | j < 4096 * (|before| - b) ::
         MemoryByte(after, b, j) == if j < size then 0 else MemoryByte(before, b, j)
  }

  lemma NextByte(w: Word, m: int)
    requires 1 <= m < 4
    ensures WordByte(w, m) == WordByte(w / 0x100, m - 1)
  {
    assert w / 0x100 / 0x100 == w / 0x1_0000;
    assert w / 0x1_0000 / 0x100 == w / 0x100_0000;
  }

  /** Zeroing the first n bytes of a word. */
  lemma {:induction false} ZeroedBytes(w: Word, n: int, m: int)
    requires 0 <= m < 4
    ensures WordByte(ZeroBytes(w, n), m) == if m < n then 0 else WordByte(w, m)
    decreases m
  {
    if 0 < n < 4 && m > 0 {
      NextByte(w, m);
      NextByte(ZeroBytes(w, n), m);
      ZeroedBytes(w / 0x100, n - 1, m - 1);
    }
  }

  lemma ZeroedIsCleared(frames: seq<Frame>, b: int, size: int)
    requires 0 <= b
    ensures ClearedBytes(frames, Zeroed(frames, b, size), b, size)
  {
    var after := Zeroed(frames, b, size);
    forall j: nat | j < 4096 * (|frames| - b)
      ensures MemoryByte(after, b, j) == if j < size then 0 else MemoryByte(frames, b, j)
    {
      ZeroedByte(frames, b, size, j);
    }
  }

  lemma ZeroedByte(frames: seq<Frame>, b: int, size: int, j: nat)
    requires 0 <= b && j < 4096 * (|frames| - b)
    ensures MemoryByte(Zeroed(frames, b, size), b, j) == if j < size then 0 else MemoryByte(frames, b, j)
  {
    hide WordByte, ZeroBytes;
    var i, k, m := j / 4096, j / 4 % 1024, j % 4;
    assert j == 4096 * i + 4 * k + m;
    ZeroedBytes(frames[b + i][k], size - 4096 * i - 4 * k, m);
  }

  lemma ZeroedBeyond(frames: seq<Frame>, b: int, size: int, i: int)
    requires 0 <= i < |frames| && (i < b || size <= BLOCK_SIZE * (i - b))
    ensures Zeroed(frames, b, size)[i] == frames[i]
  {
    if b <= i { assert ZeroPrefix(frames[i], size - BLOCK_SIZE * (i - b)) == frames[i]; }
  }

  /** memset of a heap address to 0. */
  method Memset0(mem: Memory, address: Word, size: Word)
    requires 0 <= mem.BlockAt(address)
    requires size > 0 ==> BLOCK_SIZE * (mem.frames.Length - mem.BlockAt(address)) >= size
    modifies mem.frames
    ensures ClearedBytes(old(mem.frames[..]), mem.frames[..], mem.BlockAt(address), size)
    ensures mem.frames[..] == Zeroed(old(mem.frames[..]), mem.BlockAt(address), size)
  {
    ghost var before := mem.frames[..];
    var b := mem.BlockAt(address);
    var i := 0;
    while BLOCK_SIZE * i < size
      invariant 0 <= i && (i > 0 ==> BLOCK_SIZE * (i - 1) < size)
      invariant forall j | 0 <= j < mem.frames.Length ::
                  mem.frames[j] == if j < b + i then Zeroed(before, b, size)[j] else before[j]
    {
      mem.frames[b + i] := ZeroPrefix(mem.frames[b + i], size - BLOCK_SIZE * i);
      i := i + 1;
    }
    forall j | 0 <= j < |before| ensures mem.frames[j] == Zeroed(before, b, size)[j] {
      if b + i <= j { ZeroedBeyond(before, b, size, j); }
    }
    assert mem.frames[..] == Zeroed(before, b, size);
    ZeroedIsCleared(before, b, size);
  }

  lemma AllocationFits(h: HeapState, size: Word, r: int, h': HeapState)
    requires HeapStep(h, HeapOp.Malloc(size, r), h') && r >= 0 && size <= 0xffff_f000
    ensures size > 0 ==> BLOCK_SIZE * (|h.table| - r) >= size
  {
    BlocksCoverSize(size);
    OverrunExactly(h.table, BlocksFor(size), r);
  }

  /** kzalloc: heap_malloc, then zeroes over the requested size. */
  method Kzalloc(mem: Memory, size: Word) returns (address: Word)
    requires mem.heap.Valid() && mem.frames as object != mem.heap.entries
    requires mem.frames.Length == mem.heap.entries.Length
    requires MallocSafe(mem.heap.entries[..], BlocksFor(size)) && size <= 0xffff_f000
    modifies mem.heap`live, mem.heap.entries, mem.frames
    ensures mem.heap.Valid() && address % PAGE_SIZE == 0
    ensures exists r ::
              && (address == 0 <==> r < 0)
              && HeapStep(HeapState(old(mem.heap.entries[..]), old(mem.heap.live)), HeapOp.Malloc(size, r),
                          HeapState(mem.heap.entries[..], mem.heap.live))
              && address == (if r < 0 then 0 else mem.heap.BlockToAddress(r))
              && mem.frames[..] == (if r < 0 then old(mem.frames[..]) else Zeroed(old(mem.frames[..]), r, size))
              && (r >= 0 ==> ClearedBytes(old(mem.frames[..]), mem.frames[..], r, size))
  {
    hide HeapStep, Zeroed, MallocSafe, Decodes;
    ghost var h := HeapState(mem.heap.entries[..], mem.heap.live);
    address := mem.heap.Malloc(size);
    ghost var h' := HeapState(mem.heap.entries[..], mem.heap.live);
    ghost var r :| HeapStep(h, HeapOp.Malloc(size, r), h')
                   && address == if r < 0 then 0 else mem.heap.BlockToAddress(r);
    if address == 0 {
      assert r < 0;
      return;
    }
    AllocationFits(h, size, r, h');
    Memset0(mem, address, size);
    assert HeapState(mem.heap.entries[..], mem.heap.live) == h';
  }

  // ---- paging_new_4gb

  /** The heap after taking the given single blocks, one after another. */
  ghost predicate TakenSingly(mem: Memory, t: Table, live: Live, taken: seq<int>)
    reads mem, mem.heap, mem.heap.entries
  {
    && mem.heap.Valid() && mem.frames as object != mem.heap.entries
    && mem.frames.Length == mem.heap.entries.Length
    && Decodes(t, live) && FirstFits(t, taken)
    && mem.heap.entries[..] == MarkedAll(t, taken) && mem.heap.live == WithSingles(live, taken)
  }

  lemma NothingTaken(mem: Memory)
    requires mem.Valid()
    ensures TakenSingly(mem, mem.heap.entries[..], mem.heap.live, [])
  {
    assert WithSingles(mem.heap.live, []) == mem.heap.live;
  }

  /** kzalloc of at most a block while blocks are free: one more single block. */
  method KzallocBlock(mem: Memory, size: Word, ghost t: Table, ghost live: Live, ghost taken: seq<int>)
      returns (address: Word, ghost b: int)
    requires TakenSingly(mem, t, live, taken) && |taken| < |FreeBlocks(t)| && 0 < size <= BLOCK_SIZE
    modifies mem.heap`live, mem.heap.entries, mem.frames
    ensures TakenSingly(mem, t, live, taken + [b]) && AllNew(t, live, taken + [b])
    ensures 0 <= b < mem.frames.Length && address == Address(mem.heap.start, b)
    ensures mem.frames[..] == old(mem.frames[..])[b := ZeroPrefix(old(mem.frames[b]), size)]
  {
    hide ClearedBytes, Zeroed, HeapStep, FirstFits, MarkedAll, WithSingles, FreeBlocks;
    ghost var before, t1, live1 := mem.frames[..], mem.heap.entries[..], mem.heap.live;
    SingleBlockSafe(t1, size);
    address := Kzalloc(mem, size);
    b :| HeapStep(HeapState(t1, live1), HeapOp.Malloc(size, b), HeapState(mem.heap.entries[..], mem.heap.live))
         && address == (if b < 0 then 0 else mem.heap.BlockToAddress(b))
         && mem.frames[..] == if b < 0 then before else Zeroed(before, b, size);
    TakeOneMore(t, live, taken, size, b, mem.heap.entries[..], mem.heap.live);
    ZeroedOneBlock(before, b, size);
    assert address == mem.heap.BlockToAddress(b) == mem.heap.start + b * BLOCK_SIZE;
  }

  lemma SingleBlockSafe(t: Table, size: Word)
    requires 0 < size <= BLOCK_SIZE
    ensures MallocSafe(t, BlocksFor(size))
  {
  }

  lemma TakeOneMore(t: Table, live: Live, taken: seq<int>, size: Word, b: int, t': Table, live': Live)
    requires Decodes(t, live) && FirstFits(t, taken) && |taken| < |FreeBlocks(t)| && 0 < size <= BLOCK_SIZE
    requires HeapStep(HeapState(MarkedAll(t, taken), WithSingles(live, taken)), HeapOp.Malloc(size, b),
                      HeapState(t', live'))
    ensures 0 <= b < |t| && FirstFits(t, taken + [b]) && AllNew(t, live, taken + [b])
    ensures t' == MarkedAll(t, taken + [b]) && live' == WithSingles(live, taken + [b]) && |t'| == |t|
  {
    assert BlocksFor(size) == 1;
    SinglesKeepDecoding(t, live, taken);
    SomeBlockFree(MarkedAll(t, taken));
    SingleBlockSearch(MarkedAll(t, taken), b);
    FirstFitsAppend(t, taken, b);
    WithSinglesAppend(live, taken, b);
    SinglesKeepDecoding(t, live, taken + [b]);
    var bs := taken + [b];
    assert bs[|taken|] == b;
  }

  lemma ZeroedOneBlock(frames: seq<Frame>, b: int, size: Word)
    requires 0 <= b < |frames| && size <= BLOCK_SIZE
    ensures Zeroed(frames, b, size) == frames[b := ZeroPrefix(frames[b], size)]
  {
    forall i | 0 <= i < |frames| && i != b ensures Zeroed(frames, b, size)[i] == frames[i] {
      ZeroedBeyond(frames, b, size, i);
    }
  }

  lemma OffsetEntry(i: int, k: int, offset: Word)
    requires offset == Wrap(i * TABLE_SPAN)
    ensures Wrap(offset + k * PAGE_SIZE) == Wrap(PAGE_SIZE * (ENTRIES * i + k))
  {
  }

  /** The inner loop of paging_new_4gb. */
  method FillTable(mem: Memory, table: Word, i: int, offset: Word, flags: Word)
    requires 0 <= mem.BlockAt(table) < mem.frames.Length
    requires offset == Wrap(i * TABLE_SPAN)
    modifies mem.frames
    ensures mem.frames[..] == old(mem.frames[..])[mem.BlockAt(table) := IdentityTable(i, flags)]
  {
    var b := 0;
    ghost var before := mem.frames[..];
    while b < ENTRIES
      invariant 0 <= b <= ENTRIES
      invariant forall k | 0 <= k < b :: mem.frames[mem.BlockAt(table)][k] == IdentityEntry(i, k, flags)
      invariant forall j | 0 <= j < mem.frames.Length && j != mem.BlockAt(table) :: mem.frames[j] == before[j]
    {
      OffsetEntry(i, b, offset);
      var f := mem.frames[mem.BlockAt(table)];
      mem.frames[mem.BlockAt(table)] := f[b := Or(Wrap(offset + b * PAGE_SIZE), flags)];
      b := b + 1;
    }
    assert mem.frames[mem.BlockAt(table)] == IdentityTable(i, flags);
  }

  /** The tables written so far by paging_new_4gb and the directory words naming them. */
  ghost predicate Partial(start: int, frames: seq<Frame>, now: seq<Frame>, dir: int, tables: seq<int>, flags: Word) {
    && |now| == |frames| && 0 <= dir < |frames| && |tables| <= ENTRIES && Geometry(start, |frames|)
    && (forall j | 0 <= j < |tables| :: 0 <= tables[j] < |frames|)
    && (forall j | 0 <= j < |tables| :: now[tables[j]] == IdentityTable(j, flags))
    && (forall j | 0 <= j < |tables| :: now[dir][j] == Or(Or(Address(start, tables[j]), flags), IS_WRITEABLE))
    && forall b | 0 <= b < |frames| && b != dir && b !in tables :: now[b] == frames[b]
  }

  lemma PartialStep(start: int, frames: seq<Frame>, now: seq<Frame>, dir: int, tables: seq<int>, flags: Word,
                    b: int, now': seq<Frame>)
    requires Partial(start, frames, now, dir, tables, flags) && |tables| < ENTRIES
    requires Distinct([dir] + (tables + [b])) && 0 <= b < |frames|
    requires now' == now[b := IdentityTable(|tables|, flags)]
                        [dir := now[dir][|tables| := Or(Or(Address(start, b), flags), IS_WRITEABLE)]]
    ensures Partial(start, frames, now', dir, tables + [b], flags)
  {
    var bs := [dir] + (tables + [b]);
    assert bs[0] == dir && bs[|tables| + 1] == b;
    assert forall j | 0 <= j < |tables| :: bs[j + 1] == tables[j];
  }

  lemma PartialIsBuilt(start: int, frames: seq<Frame>, now: seq<Frame>, sp: Space, flags: Word, f: Frame)
    requires Partial(start, frames, now, sp.dir, sp.tables, flags) && |sp.tables| == ENTRIES
    requires Distinct(sp.Blocks()) && 0 <= sp.chunk < |frames|
    requires f == frames[sp.chunk][0 := Address(start, sp.dir)]
    ensures Built(start, frames, sp, flags, now[sp.chunk := f])
  {
    var bs := sp.Blocks();
    assert bs[0] == sp.dir && bs[1025] == sp.chunk;
    assert forall j | 0 <= j < ENTRIES :: bs[j + 1] == sp.tables[j];
    assert now[sp.dir] == DirectoryFrame(start, sp.tables, flags);
    forall b | 0 <= b < |frames| && !sp.Owns(b) ensures now[b] == frames[b] { OwnsExactly(sp, b); }
  }

  /** One round of the outer loop: a fresh table, filled and entered in the directory. */
  method AddTable(mem: Memory, directory: Word, i: int, offset: Word, flags: Word,
                  ghost m: Machine, ghost dir: int, ghost tables: seq<int>)
      returns (ghost b: int)
    requires TakenSingly(mem, m.table, m.live, [dir] + tables)
    requires Partial(mem.heap.start, m.frames, mem.frames[..], dir, tables, flags)
    requires i == |tables| < ENTRIES && |FreeBlocks(m.table)| >= 1026
    requires offset == Wrap(i * TABLE_SPAN) && directory == Address(mem.heap.start, dir)
    modifies mem.heap`live, mem.heap.entries, mem.frames
    ensures TakenSingly(mem, m.table, m.live, [dir] + (tables + [b]))
    ensures Partial(mem.heap.start, m.frames, mem.frames[..], dir, tables + [b], flags)
  {
    hide FirstFits, Decodes, MarkedAll, WithSingles, IdentityTable;
    ghost var now := mem.frames[..];
    var entry;
    entry, b := KzallocBlock(mem, 4 * ENTRIES, m.table, m.live, [dir] + tables);
    assert [dir] + tables + [b] == [dir] + (tables + [b]);
    NotDirectory(dir, tables, b);
    mem.BlockAtAddress(b);
    mem.BlockAtAddress(dir);
    FillTable(mem, entry, i, offset, flags);
    var f := mem.frames[mem.BlockAt(directory)];
    mem.frames[mem.BlockAt(directory)] := f[i := Or(Or(entry, flags), IS_WRITEABLE)];
    PartialStep(mem.heap.start, m.frames, now, dir, tables, flags, b, mem.frames[..]);
  }

  lemma NotDirectory(dir: int, tables: seq<int>, b: int)
    requires Distinct([dir] + (tables + [b]))
    ensures b != dir
  {
    var bs := [dir] + (tables + [b]);
    assert bs[0] == dir && bs[|tables| + 1] == b;
  }

  /** The last allocation: the chunk that points to the directory. */
  method AddChunk(mem: Memory, directory: Word, flags: Word, ghost m: Machine, ghost dir: int, ghost tables: seq<int>)
      returns (chunk: Word, ghost sp: Space)
    requires TakenSingly(mem, m.table, m.live, [dir] + tables)
    requires Partial(mem.heap.start, m.frames, mem.frames[..], dir, tables, flags)
    requires |tables| == ENTRIES && |FreeBlocks(m.table)| >= 1026
    requires directory == Address(mem.heap.start, dir)
    modifies mem.heap`live, mem.heap.entries, mem.frames
    ensures sp.dir == dir && sp.tables == tables
    ensures TakenSingly(mem, m.table, m.live, sp.Blocks())
    ensures Built(mem.heap.start, m.frames, sp, flags, mem.frames[..])
    ensures chunk == Address(mem.heap.start, sp.chunk)
  {
    hide FirstFits, Decodes, MarkedAll, WithSingles, IdentityTable;
    ghost var now, c := mem.frames[..], 0;
    chunk, c := KzallocBlock(mem, 4, m.table, m.live, [dir] + tables);
    sp := Space(dir, tables, c);
    assert [dir] + tables + [c] == sp.Blocks();
    mem.BlockAtAddress(c);
    ChunkUntouched(mem.heap.start, m.frames, now, sp, flags);
    var f := mem.frames[mem.BlockAt(chunk)];
    mem.frames[mem.BlockAt(chunk)] := f[0 := directory];
    assert mem.frames[c] == now[c][0 := directory];
    assert mem.frames[..] == now[c := now[c][0 := directory]];
    PartialIsBuilt(mem.heap.start, m.frames, now, sp, flags, mem.frames[c]);
  }

  lemma ChunkUntouched(start: int, frames: seq<Frame>, now: seq<Frame>, sp: Space, flags: Word)
    requires Partial(start, frames, now, sp.dir, sp.tables, flags) && |sp.tables| == ENTRIES
    requires Distinct(sp.Blocks()) && 0 <= sp.chunk < |frames|
    ensures now[sp.chunk] == frames[sp.chunk]
  {
    var bs := sp.Blocks();
    assert bs[0] == sp.dir && bs[1025] == sp.chunk;
    assert forall j | 0 <= j < ENTRIES :: bs[j + 1] == sp.tables[j];
  }

  /** paging_new_4gb with enough free blocks. */
  method New4Gb(mem: Memory, flags: Word) returns (chunk: Word, ghost sp: Space)
    requires mem.Valid() && flags < 256 && |FreeBlocks(mem.heap.entries[..])| >= 1026
    modifies mem`spaces, mem.heap`live, mem.heap.entries, mem.frames
    ensures mem.Valid() && sp in mem.spaces && chunk == Address(mem.heap.start, sp.chunk)
    ensures Step(old(mem.State()), Op.New(flags, sp), mem.State())
  {
    hide FirstFits, MarkedAll, WithSingles, AllNew, IdentityTable;
    ghost var m := mem.State();
    var offset: Word := 0;
    var directory;
    ghost var dir, tables: seq<int> := 0, [];
    NothingTaken(mem);
    directory, dir := KzallocBlock(mem, 4 * ENTRIES, m.table, m.live, []);
    assert [] + [dir] == [dir] + tables;
    var i := 0;
    while i < ENTRIES
      invariant 0 <= i <= ENTRIES && |tables| == i
      invariant mem.heap.start == m.start && mem.spaces == m.spaces
      invariant offset == Wrap(i * TABLE_SPAN)
      invariant TakenSingly(mem, m.table, m.live, [dir] + tables)
      invariant Partial(m.start, m.frames, mem.frames[..], dir, tables, flags)
    {
      ghost var b := AddTable(mem, directory, i, offset, flags, m, dir, tables);
      offset := Wrap(offset + ENTRIES * PAGE_SIZE);
      tables := tables + [b];
      i := i + 1;
    }
    chunk, sp := AddChunk(mem, directory, flags, m, dir, tables);
    mem.spaces := mem.spaces + {sp};
    NewSafe(m, flags, sp, mem.State());
  }
}
