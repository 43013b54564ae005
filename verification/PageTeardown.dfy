/** Freeing page directories: the blocks of a space are recovered from its own words. */
module PageTeardown {
  import opened Words
  import opened HeapTable
  import opened KernelHeap
  import opened AddressSpaces
  import opened AddressSpaceRuns
  import opened Paging

  // ---- paging_free_4gb

  /** The heap after freeing the given live single blocks. */
  ghost predicate FreedSo(mem: Memory, m: Machine, freed: seq<int>)
    reads mem, mem.heap, mem.heap.entries
  {
    && mem.heap.Valid() && mem.heap.start == m.start
    && (forall i | 0 <= i < |freed| :: freed[i] >= 0)
    && mem.heap.entries[..] == FreedAll(m.table, freed) && mem.heap.live == Without(m.live, freed)
  }

  lemma FreedAppend(t: Table, live: Live, freed: seq<int>, b: int)
    requires b >= 0 && forall i | 0 <= i < |freed| :: freed[i] >= 0
    ensures FreedAll(t, freed + [b]) == Freed(FreedAll(t, freed), b)
    ensures Without(live, freed + [b]) == Without(live, freed) - {b}
  {
    var bs := freed + [b];
    assert bs[..|bs| - 1] == freed;
    assert forall x :: x in bs <==> x in freed || x == b;
  }

  lemma StillLive(live: Live, freed: seq<int>, b: int)
    requires b in live && b !in freed
    ensures b in Without(live, freed)
  {
  }

  method FreeOne(mem: Memory, address: Word, ghost m: Machine, ghost freed: seq<int>, ghost b: int)
    requires FreedSo(mem, m, freed) && b in m.live && b !in freed && b >= 0
    requires address == Address(mem.heap.start, b)
    modifies mem.heap`live, mem.heap.entries
    ensures FreedSo(mem, m, freed + [b])
  {
    hide FreedAll, Freed, Without, Decodes;
    FreedAppend(m.table, m.live, freed, b);
    StillLive(m.live, freed, b);
    mem.BlockAtAddress(b);
    mem.heap.Free(address);
  }

  /** paging_free_4gb: the table addresses come from the flagged directory words,
      and exactly the blocks of the space are given back. */
  method Free4Gb(mem: Memory, chunk: Word, ghost sp: Space)
    requires mem.Valid() && sp in mem.spaces && chunk == Address(mem.heap.start, sp.chunk)
    modifies mem`spaces, mem.heap`live, mem.heap.entries
    ensures mem.Valid()
    ensures Step(old(mem.State()), Op.Drop(sp), mem.State())
  {
    hide FreedAll, Without, Decodes;
    ghost var m := mem.State();
    mem.ValidWalks(sp);
    HeldDistinct(m.live, sp);
    FreeingIsOwned(m.live, sp);
    var directory := mem.DirectoryOf(chunk, sp);
    mem.BlockAtAddress(sp.dir);
    ghost var order := sp.Freeing();
    NoneFreed(mem);
    var i := 0;
    while i < ENTRIES
      invariant 0 <= i <= ENTRIES
      invariant FreedSo(mem, m, order[..i]) && mem.spaces == m.spaces
    {
      var entry := mem.frames[mem.BlockAt(directory)][i];
      var table := PageBase(entry);
      assert order[..i] + [order[i]] == order[..i + 1];
      FreeOne(mem, table, m, order[..i], order[i]);
      i := i + 1;
    }
    assert order[..i] + [sp.dir] == order[..i + 1];
    FreeOne(mem, directory, m, order[..i], sp.dir);
    assert order[..i + 1] + [sp.chunk] == order;
    FreeOne(mem, chunk, m, order[..i + 1], sp.chunk);
    mem.spaces := mem.spaces - {sp};
    DropSafe(m, sp, mem.State());
  }

  lemma NoneFreed(mem: Memory)
    requires mem.Valid()
    ensures FreedSo(mem, mem.State(), [])
  {
    assert Without(mem.heap.live, []) == mem.heap.live;
  }
}
