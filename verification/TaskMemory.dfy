/** The borrowed page of copy_string_from_task: a kernel buffer is mapped into the
    task's address space for the copy and the task's own entry is put back. */
module TaskMemory {
  import opened Status
  import opened Words
  import opened HeapTable
  import opened KernelHeap
  import opened AddressSpaces
  import opened AddressSpaceRuns
  import opened Paging
  import opened PageDirectories
  import opened Translation

  /** A zeroed allocation touches no address space. */
  lemma KzallocSafe(m: Machine, size: Word, r: int, m': Machine)
    requires Inv(m) && r >= 0 && size <= 0xffff_f000
    requires HeapStep(HeapState(m.table, m.live), HeapOp.Malloc(size, r), HeapState(m'.table, m'.live))
    requires m' == m.(table := m'.table, live := m'.live, frames := Zeroed(m.frames, r, size))
    ensures Inv(m')
    ensures forall sp | sp in m.spaces :: Undisturbed(m, m', sp)
  {
    var mid := m.(table := m'.table, live := m'.live);
    HeapTrafficSafe(m, Op.Alloc(size, r), mid);
    HeapStepKeepsDecoding(HeapState(m.table, m.live), HeapOp.Malloc(size, r), HeapState(m'.table, m'.live));
    forall b, sp | sp in m.spaces && sp.Owns(b) && 0 <= b < |m.frames| ensures m'.frames[b] == m.frames[b] {
      HeldDistinct(m.live, sp);
      assert Covers(m.live, b, b);
      OutsideAllocation(size, r, b);
      ZeroedBeyond(m.frames, r, size, b);
    }
    forall sp | sp in m.spaces ensures Linked(m.start, m'.frames, sp) && Undisturbed(m, m', sp) {
      UntouchedSpace(m.start, m.frames, m'.frames, sp);
    }
  }

  lemma OutsideAllocation(size: Word, r: int, b: int)
    requires size <= 0xffff_f000 && (BlocksFor(size) >= 1 ==> !(r <= b < r + BlocksFor(size)))
    ensures b < r || size <= BLOCK_SIZE * (b - r)
  {
    BlocksCoverSize(size);
  }

  /** Where an allocation starts, nothing belonged to an address space. */
  lemma StartUnowned(m: Machine, size: Word, r: int, h: HeapState, sp: Space)
    requires Inv(m) && sp in m.spaces && r >= 0 && size <= 0xffff_f000
    requires HeapStep(HeapState(m.table, m.live), HeapOp.Malloc(size, r), h)
    ensures r < |m.frames| && !sp.Owns(r)
  {
    OverrunExactly(m.table, BlocksFor(size), r);
    HeldDistinct(m.live, sp);
    assert IsFree(m.table[r]);
    CoveredIsTaken(m.table, m.live, r);
    if sp.Owns(r) { assert Covers(m.live, r, r); }
  }

  /** New contents for a block that belongs to no address space. */
  lemma OverwriteSafe(m: Machine, r: int, f: Frame)
    requires Inv(m) && 0 <= r < |m.frames| && forall sp | sp in m.spaces :: !sp.Owns(r)
    ensures var m' := m.(frames := m.frames[r := f]);
            Inv(m') && forall sp | sp in m.spaces :: Undisturbed(m, m', sp)
  {
    var m' := m.(frames := m.frames[r := f]);
    forall sp | sp in m.spaces ensures Linked(m.start, m'.frames, sp) && Undisturbed(m, m', sp) {
      UntouchedSpace(m.start, m.frames, m'.frames, sp);
    }
  }

  lemma UndisturbedFurther(m: Machine, m': Machine, m'': Machine, sp: Space)
    requires Undisturbed(m, m', sp) && Undisturbed(m', m'', sp)
    ensures Undisturbed(m, m'', sp)
  {
    hide Entry;
  }

  /** copy_string_from_task, given what the copying makes of the buffer's block: whatever
      happens, every page of every address space ends as it began; on success the buffer
      stays allocated and holds the copy. */
  method BorrowPage(mem: Memory, chunk: Word, max: Word, copied: Frame, ghost sp: Space) returns (res: int)
    requires mem.Valid() && sp in mem.spaces && chunk == Address(mem.heap.start, sp.chunk)
    modifies mem.heap`live, mem.heap.entries, mem.frames
    ensures mem.Valid()
    ensures max >= PAGE_SIZE ==> res == -EINVARG && mem.State() == old(mem.State())
    ensures max < PAGE_SIZE ==> res == ALL_OK || (res == -ENOMEM && mem.State() == old(mem.State()))
    ensures max < PAGE_SIZE ==>
              exists r ::
                && HeapStep(HeapState(old(mem.heap.entries[..]), old(mem.heap.live)), HeapOp.Malloc(max, r),
                            HeapState(mem.heap.entries[..], mem.heap.live))
                && (res == ALL_OK <==> 0 <= r < mem.frames.Length) && (res == ALL_OK ==> mem.frames[r] == copied)
    ensures forall sp' | sp' in mem.spaces :: Undisturbed(old(mem.State()), mem.State(), sp')
  {
    hide HeapStep, Zeroed, ClearedBytes, Undisturbed, Decodes, Inv;
    ghost var m := mem.State();
    NothingDisturbed(m);
    if max >= PAGE_SIZE {
      return -EINVARG;
    }
    assert BlocksFor(max) <= 1;
    SmallAllocation(m, max);
    var tmp := Kzalloc(mem, max);
    ghost var h := HeapState(mem.heap.entries[..], mem.heap.live);
    ghost var r :| && (tmp == 0 <==> r < 0) && tmp == (if r < 0 then 0 else mem.heap.BlockToAddress(r))
                   && HeapStep(HeapState(m.table, m.live), HeapOp.Malloc(max, r), h)
                   && mem.frames[..] == if r < 0 then m.frames else Zeroed(m.frames, r, max);
    if tmp == 0 {
      FailedMalloc(m, max, r, h);
      return -ENOMEM;
    }
    ghost var mid := mem.State();
    KzallocSafe(m, max, r, mid);
    forall sp' | sp' in m.spaces ensures r < |m.frames| && !sp'.Owns(r) { StartUnowned(m, max, r, h, sp'); }
    assert tmp == Address(mem.heap.start, r);
    mem.ValidWalks(sp);
    res := CopyThroughPage(mem, chunk, tmp, copied, sp, r);
    OverwriteSafe(mid, r, copied);
    assert mem.State() == mid.(frames := mid.frames[r := copied]);
    forall sp' | sp' in m.spaces ensures Undisturbed(m, mem.State(), sp') {
      UndisturbedFurther(m, mid, mem.State(), sp');
    }
  }

  lemma SmallAllocation(m: Machine, max: Word)
    requires max < PAGE_SIZE
    ensures MallocSafe(m.table, BlocksFor(max))
  {
  }

  lemma NothingDisturbed(m: Machine)
    requires Inv(m)
    ensures forall sp | sp in m.spaces :: Undisturbed(m, m, sp)
  {
  }

  lemma FailedMalloc(m: Machine, size: Word, r: int, h: HeapState)
    requires r < 0 && HeapStep(HeapState(m.table, m.live), HeapOp.Malloc(size, r), h)
    ensures h == HeapState(m.table, m.live)
  {
  }

  /** Map the buffer's page to itself, copy, and set the entry the page had. */
  method CopyThroughPage(mem: Memory, chunk: Word, tmp: Word, copied: Frame, ghost sp: Space, ghost r: int)
      returns (res: int)
    requires mem.Walk(sp) && chunk == Address(mem.heap.start, sp.chunk)
    requires 0 <= r < mem.frames.Length && !sp.Owns(r) && tmp == Address(mem.heap.start, r)
    modifies mem.frames
    ensures mem.frames[..] == old(mem.frames[..])[r := copied] && res == ALL_OK
  {
    hide Entry;
    ghost var before := mem.frames[..];
    OwnsExactly(sp, r);
    var directory := mem.DirectoryOf(chunk, sp);
    var oldEntry := mem.Get(directory, tmp, sp);
    var _ := mem.Map(chunk, tmp, tmp, 7, sp);
    BorrowedPage(before, sp, tmp);
    WriteThrough(mem, directory, tmp, copied, sp, r);
    res := mem.Set(directory, tmp, oldEntry, sp);
    RestoringBehindCopy(before, sp, PageOf(tmp), Or(tmp, 7), r, copied);
  }

  lemma BorrowedPage(frames: seq<Frame>, sp: Space, tmp: Word)
    requires Sized(frames, sp) && Distinct(sp.tables) && tmp % PAGE_SIZE == 0
    ensures Lookup(SetEntry(frames, sp, PageOf(tmp), Or(tmp, 7)), sp, tmp) == tmp + 7
  {
    FlagsAdd(tmp, 7);
    SetEntryExact(frames, sp, PageOf(tmp), Or(tmp, 7), PageOf(tmp));
  }

  lemma RestoringBehindCopy(frames: seq<Frame>, sp: Space, p: int, borrowed: Word, r: int, copied: Frame)
    requires Sized(frames, sp) && Distinct(sp.tables) && 0 <= p < PAGES && 0 <= r < |frames| && r !in sp.tables
    ensures Sized(SetEntry(frames, sp, p, borrowed)[r := copied], sp)
    ensures SetEntry(SetEntry(frames, sp, p, borrowed)[r := copied], sp, p, Entry(frames, sp, p)) == frames[r := copied]
  {
    var t, k := sp.tables[p / ENTRIES], p % ENTRIES;
    assert frames[t][k := borrowed][k := frames[t][k]] == frames[t];
  }

  /** A store of a page's contents by the task: it goes to the frame that the task's own
      directory names, present, writeable and for user programs. */
  method WriteThrough(mem: Memory, directory: Word, virt: Word, contents: Frame, ghost sp: Space, ghost r: int)
    requires mem.Walk(sp) && directory == Address(mem.heap.start, sp.dir)
    requires 0 <= r < mem.frames.Length && !sp.Owns(r)
    requires virt % PAGE_SIZE == 0 && Lookup(mem.frames[..], sp, virt) == Address(mem.heap.start, r) + 7
    modifies mem.frames
    ensures mem.Walk(sp) && mem.frames[..] == old(mem.frames[..])[r := contents]
  {
    hide Lookup;
    var entry := mem.Get(directory, virt, sp);
    AlignedPart(Address(mem.heap.start, r), 7);
    mem.BlockAtAddress(r);
    OwnsExactly(sp, r);
    mem.frames[mem.BlockAt(PageBase(entry))] := contents;
    assert mem.frames[..] == old(mem.frames[..])[r := contents];
  }
}
