/** The kernel heap itself: the loops that search, mark and clear the block table
    in place, proved against the table functions of HeapTable. */
module KernelHeap {
  import opened Status
  import opened Words
  import opened HeapTable

  class Heap {
    var start: Word           // start_address
    var entries: array<bv8>   // table->entries; its length is table->total
    ghost var live: Live

    ghost predicate Valid()
      reads this, entries
    {
      && start % BLOCK_SIZE == 0 && 0 < start
      && start + BLOCK_SIZE * entries.Length <= TWO_32
      && Decodes(entries[..], live)
    }

    constructor (table: array<bv8>)
      ensures start == 0 && entries == table && live == map[]
    {
      start, entries, live := 0, table, map[];
    }

    /** heap_create: both ends aligned and a table of the right size, or -EINVARG. */
    method Create(ptr: Word, end: Word, table: array<bv8>) returns (res: int)
      modifies this, table
      ensures res == if ptr % BLOCK_SIZE == 0 && end % BLOCK_SIZE == 0
                        && table.Length == Wrap(end - ptr) / BLOCK_SIZE
                     then ALL_OK else -EINVARG
      ensures res == ALL_OK && 0 < ptr <= end ==> Valid() && live == map[]
      ensures res == ALL_OK ==> start == ptr && entries == table
      ensures res != ALL_OK ==> table[..] == old(table[..])
    {
      if ptr % BLOCK_SIZE != 0 || end % BLOCK_SIZE != 0 {
        return -EINVARG;
      }
      start, entries := ptr, table;
      if table.Length != Wrap(end - ptr) / BLOCK_SIZE {
        return -EINVARG;
      }
      forall i | 0 <= i < table.Length {
        table[i] := ENTRY_FREE;
      }
      live := map[];
      res := ALL_OK;
    }

    method GetStartBlock(totalBlocks: Word) returns (res: int)
      ensures StartBlockIs(entries[..], totalBlocks, res)
    {
      ghost var t := entries[..];
      var blockCount, startingBlock := 0, -1;
      var i := 0;
      while i < entries.Length
        invariant 0 <= i <= entries.Length
        invariant startingBlock == -1 ==> blockCount == 0 && (i == 0 || !IsFree(t[i - 1]))
        invariant startingBlock != -1 ==>
                    && 0 <= startingBlock < i && blockCount == i - startingBlock
                    && Fits(t, startingBlock, blockCount)
                    && (startingBlock == 0 || !IsFree(t[startingBlock - 1]))
        invariant totalBlocks >= 1 ==> blockCount < totalBlocks
        invariant totalBlocks >= 1 ==> forall s | Fits(t, s, totalBlocks) :: s + totalBlocks > i
      {
        if !IsFree(entries[i]) {
          blockCount, startingBlock, i := 0, -1, i + 1;
          continue;
        }
        if startingBlock == -1 {
          startingBlock := i;
        }
        blockCount := blockCount + 1;
        if blockCount == totalBlocks {
          assert Fits(t, startingBlock, totalBlocks);
          break;
        }
        i := i + 1;
      }
      res := if startingBlock == -1 then -ENOMEM else startingBlock;
    }

    function BlockToAddress(block: int): int
      reads this
    {
      start + block * BLOCK_SIZE
    }

    method MarkBlocksTaken(startBlock: nat, totalBlocks: nat)
      requires startBlock + totalBlocks <= entries.Length
      modifies entries
      ensures entries[..] == Marked(old(entries[..]), startBlock, totalBlocks)
    {
      var endBlock := startBlock + totalBlocks - 1;
      var entry := ENTRY_TAKEN | IS_FIRST;
      if totalBlocks > 1 {
        entry := entry | HAS_NEXT;
      }
      var i := startBlock;
      while i <= endBlock
        invariant startBlock <= i <= endBlock + 1
        invariant i <= endBlock ==> entry == EntryOf(i - startBlock, totalBlocks)
        invariant forall j | 0 <= j < entries.Length ::
                    entries[j] == if startBlock <= j < i then EntryOf(j - startBlock, totalBlocks)
                                  else old(entries[j])
      {
        entries[i] := entry;
        entry := ENTRY_TAKEN;
        if i != endBlock - 1 {
          entry := entry | HAS_NEXT;
        }
        i := i + 1;
      }
    }

    /** heap_malloc: the address of the blocks found, or 0 when the search fails.
        The search and the marking are those of HeapStep. */
    method Malloc(size: Word) returns (address: Word)
      requires Valid() && MallocSafe(entries[..], BlocksFor(size))
      modifies this`live, entries
      ensures Valid()
      ensures exists r :: HeapStep(HeapState(old(entries[..]), old(live)), HeapOp.Malloc(size, r),
                                   HeapState(entries[..], live))
                          && address == if r < 0 then 0 else BlockToAddress(r)
    {
      ghost var h := HeapState(entries[..], live);
      var totalBlocks := BlocksFor(size);
      var startBlock := GetStartBlock(totalBlocks);
      OverrunExactly(h.table, totalBlocks, startBlock);
      if startBlock < 0 {
        assert HeapStep(h, HeapOp.Malloc(size, startBlock), HeapState(entries[..], live));
        return 0;
      }
      address := BlockToAddress(startBlock);
      MarkBlocksTaken(startBlock, totalBlocks);
      if totalBlocks >= 1 {
        live := live[startBlock := totalBlocks];
      } else {
        assert Marked(h.table, startBlock, 0) == h.table;
      }
      ghost var op := HeapOp.Malloc(size, startBlock);
      assert HeapStep(h, op, HeapState(entries[..], live));
      HeapStepKeepsDecoding(h, op, HeapState(entries[..], live));
    }

    method MarkBlocksFree(startingBlock: nat)
      modifies entries
      ensures entries[..] == Freed(old(entries[..]), startingBlock)
    {
      ghost var t := entries[..];
      var i := startingBlock;
      while i < entries.Length
        invariant startingBlock <= i
        invariant i > entries.Length ==> i == startingBlock
        invariant startingBlock <= entries.Length ==>
                    i <= entries.Length && ChainEnd(t, startingBlock) == ChainEnd(t, i)
        invariant forall j | 0 <= j < entries.Length ::
                    entries[j] == if startingBlock <= j < i then ENTRY_FREE else t[j]
      {
        var entry := entries[i];
        entries[i] := ENTRY_FREE;
        i := i + 1;
        if !HasNext(entry) {
          break;
        }
      }
    }

    /** heap_free of a live pointer: that allocation goes, nothing else changes. */
    method Free(ptr: Word)
      requires Valid() && start <= ptr && (ptr - start) / BLOCK_SIZE in live
      modifies this`live, entries
      ensures Valid()
      ensures live == old(live) - {(ptr - start) / BLOCK_SIZE}
      ensures HeapStep(HeapState(old(entries[..]), old(live)), HeapOp.Free((ptr - start) / BLOCK_SIZE),
                       HeapState(entries[..], live))
    {
      var block := (ptr - start) / BLOCK_SIZE;
      FreeKeepsDecoding(entries[..], live, block);
      MarkBlocksFree(block);
      live := live - {block};
    }
  }
}
