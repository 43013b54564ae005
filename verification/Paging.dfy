/** The kernel's memory: the heap, the frames behind its blocks, and the paging
    functions that build, walk, edit and free page directories stored in them. */
module Paging {
  import opened Status
  import opened Words
  import opened HeapTable
  import opened KernelHeap
  import opened AddressSpaces
  import opened AddressSpaceRuns

  class Memory {
    const heap: Heap
    const frames: array<Frame>     // the block behind entry b of the heap table
    ghost var spaces: set<Space>   // the chunks in existence

    ghost predicate Valid()
      reads this, heap, heap.entries, frames
    {
      && heap.Valid()
      && frames as object != heap.entries && frames.Length == heap.entries.Length
      && Inv(State())
    }

    ghost function State(): Machine
      reads this, heap, heap.entries, frames
    {
      Machine(heap.start, heap.entries[..], heap.live, frames[..], spaces)
    }

    constructor (heap: Heap, frames: array<Frame>)
      requires heap.Valid() && frames as object != heap.entries && frames.Length == heap.entries.Length
      ensures Valid() && this.heap == heap && this.frames == frames && spaces == {}
    {
      this.heap, this.frames, this.spaces := heap, frames, {};
    }

    /** The block an address points into. */
    function BlockAt(address: Word): int
      reads this, heap
    {
      (address - heap.start) / BLOCK_SIZE
    }

    lemma BlockAtAddress(b: int)
      requires heap.start % BLOCK_SIZE == 0
      requires 0 <= Address(heap.start, b) < TWO_32
      ensures BlockAt(Address(heap.start, b)) == b
    {
    }

    ghost predicate Walk(sp: Space)
      reads this, heap, frames
    {
      Walkable(heap.start, frames[..], sp)
    }

    lemma ValidWalks(sp: Space)
      requires Valid() && sp in spaces
      ensures Walk(sp)
    {
      HeldDistinct(heap.live, sp);
    }

    /** paging_set on the directory at the given address. */
    method Set(directory: Word, virt: Word, entry: Word, ghost sp: Space) returns (res: int)
      requires Walk(sp) && directory == Address(heap.start, sp.dir)
      modifies frames
      ensures Walk(sp)
      ensures res == if virt % PAGE_SIZE == 0 then ALL_OK else -EINVARG
      ensures frames[..] == if res < 0 then old(frames[..])
                            else SetEntry(old(frames[..]), sp, PageOf(virt), entry)
    {
      if virt % PAGE_SIZE != 0 {
        return -EINVARG;
      }
      var directoryIndex := virt / TABLE_SPAN;
      var tableIndex := virt % TABLE_SPAN / PAGE_SIZE;
      PageIndexes(virt);
      BlockAtAddress(sp.dir);
      var table := PageBase(frames[BlockAt(directory)][directoryIndex]);
      BlockAtAddress(sp.tables[directoryIndex]);
      SetEntryKeepsWalk(heap.start, frames[..], sp, PageOf(virt), entry);
      frames[BlockAt(table)] := frames[BlockAt(table)][tableIndex := entry];
      assert frames[..] == SetEntry(old(frames[..]), sp, PageOf(virt), entry);
      res := ALL_OK;
    }

    lemma PageIndexes(virt: Word)
      requires virt % PAGE_SIZE == 0
      ensures virt / TABLE_SPAN == PageOf(virt) / ENTRIES && virt % TABLE_SPAN / PAGE_SIZE == PageOf(virt) % ENTRIES
    {
    }

    /** paging_get: an unaligned address leaves both indexes at 0. */
    method Get(directory: Word, virt: Word, ghost sp: Space) returns (entry: Word)
      requires Walk(sp) && directory == Address(heap.start, sp.dir)
      ensures entry == Lookup(frames[..], sp, virt)
    {
      var directoryIndex, tableIndex := 0, 0;
      if virt % PAGE_SIZE == 0 {
        directoryIndex := virt / TABLE_SPAN;
        tableIndex := virt % TABLE_SPAN / PAGE_SIZE;
        PageIndexes(virt);
      }
      BlockAtAddress(sp.dir);
      var table := PageBase(frames[BlockAt(directory)][directoryIndex]);
      BlockAtAddress(sp.tables[directoryIndex]);
      entry := frames[BlockAt(table)][tableIndex];
    }

    /** paging_get_physical_address. */
    method GetPhysicalAddress(directory: Word, virt: Word, ghost sp: Space) returns (phys: Word)
      requires Walk(sp) && directory == Address(heap.start, sp.dir)
      ensures phys == Physical(frames[..], sp, virt)
    {
      var lower := virt - virt % PAGE_SIZE;
      var entry := Get(directory, lower, sp);
      phys := Wrap(PageBase(entry) + (virt - lower));
    }

    /** The directory a chunk points to. */
    method DirectoryOf(chunk: Word, ghost sp: Space) returns (directory: Word)
      requires Walk(sp) && chunk == Address(heap.start, sp.chunk)
      ensures directory == Address(heap.start, sp.dir)
    {
      BlockAtAddress(sp.chunk);
      directory := frames[BlockAt(chunk)][0];
    }

    /** paging_map: one page, both addresses aligned. */
    method Map(chunk: Word, virt: Word, phys: Word, flags: Word, ghost sp: Space) returns (res: int)
      requires Walk(sp) && chunk == Address(heap.start, sp.chunk)
      modifies frames
      ensures Walk(sp)
      ensures res == if virt % PAGE_SIZE == 0 && phys % PAGE_SIZE == 0 then ALL_OK else -EINVARG
      ensures frames[..] == if res < 0 then old(frames[..])
                            else SetEntry(old(frames[..]), sp, PageOf(virt), Or(phys, flags))
    {
      if virt % PAGE_SIZE != 0 || phys % PAGE_SIZE != 0 {
        return -EINVARG;
      }
      var directory := DirectoryOf(chunk, sp);
      res := Set(directory, virt, Or(phys, flags), sp);
    }

    /** paging_map_range: count pages, stopping at the first error. */
    method MapPages(chunk: Word, virt: Word, phys: Word, count: int, flags: Word, ghost sp: Space) returns (res: int)
      requires Walk(sp) && chunk == Address(heap.start, sp.chunk)
      modifies frames
      ensures Walk(sp)
      ensures res == if count <= 0 || (virt % PAGE_SIZE == 0 && phys % PAGE_SIZE == 0) then ALL_OK else -EINVARG
      ensures frames[..] == if res < 0 || count <= 0 then old(frames[..])
                            else MapRange(old(frames[..]), sp, virt, phys, count, flags)
    {
      ghost var before := frames[..];
      var v: Word, p: Word := virt, phys;
      var i := 0;
      res := ALL_OK;
      while i < count
        invariant 0 <= i && (i <= count || i == 0)
        invariant Walk(sp) && res == ALL_OK
        invariant v % PAGE_SIZE == virt % PAGE_SIZE && p % PAGE_SIZE == phys % PAGE_SIZE
        invariant i > 0 ==> virt % PAGE_SIZE == 0 && phys % PAGE_SIZE == 0
        invariant i == 0 ==> frames[..] == before && v == virt && p == phys
        invariant count >= 0 ==>
                    MapRange(frames[..], sp, v, p, count - i, flags) == MapRange(before, sp, virt, phys, count, flags)
      {
        res := Map(chunk, v, p, flags, sp);
        if res < 0 {
          break;
        }
        NextPage(v);
        NextPage(p);
        v, p := Wrap(v + PAGE_SIZE), Wrap(p + PAGE_SIZE);
        i := i + 1;
      }
    }

    lemma NextPage(v: Word)
      ensures Wrap(v + PAGE_SIZE) % PAGE_SIZE == v % PAGE_SIZE
    {
    }

    /** paging_map_to; as a step of the kernel it touches the one address space only. */
    method MapTo(chunk: Word, virt: Word, phys: Word, physEnd: Word, flags: Word, ghost sp: Space) returns (res: int)
      requires Walk(sp) && chunk == Address(heap.start, sp.chunk)
      modifies frames
      ensures Walk(sp)
      ensures res == if MapToRejects(virt, phys, physEnd) then -EINVARG else ALL_OK
      ensures res == 0 <==> virt % 4096 == 0 && phys % 4096 == 0 && physEnd % 4096 == 0 && phys <= physEnd
      ensures frames[..] == if res < 0 then old(frames[..])
                            else MapRange(old(frames[..]), sp, virt, phys, (physEnd - phys) / PAGE_SIZE, flags)
    {
      if virt % PAGE_SIZE != 0 || phys % PAGE_SIZE != 0 || physEnd % PAGE_SIZE != 0 || physEnd < phys {
        return -EINVARG;
      }
      var totalBytes := physEnd - phys;
      var totalPages := totalBytes / PAGE_SIZE;
      res := MapPages(chunk, virt, phys, totalPages, flags, sp);
    }

    twostate lemma MapToIsStep(sp: Space, virt: Word, phys: Word, physEnd: Word, flags: Word)
      requires old(Valid()) && sp in old(spaces) && old(Walk(sp))
      requires State() == old(State()).(frames := frames[..])
      requires frames as object != heap.entries
      requires frames[..] == if MapToRejects(virt, phys, physEnd) then old(frames[..])
                             else MapRange(old(frames[..]), sp, virt, phys, (physEnd - phys) / PAGE_SIZE, flags)
      ensures Valid() && Step(old(State()), Op.MapTo(sp, virt, phys, physEnd, flags), State())
    {
      StepSafe(old(State()), Op.MapTo(sp, virt, phys, physEnd, flags), State());
    }
  }
}
