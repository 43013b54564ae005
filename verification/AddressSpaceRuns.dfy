/** Runs of the kernel over its address spaces: building, mapping and tearing
    down page directories, mixed with ordinary heap traffic and stores, never lets
    one address space see another. */
module AddressSpaceRuns {
  import opened Words
  import opened HeapTable
  import opened AddressSpaces

  datatype Op =
    | New(flags: Word, sp: Space)                                        // paging_new_4gb
    | Set(sp: Space, virt: Word, entry: Word)                            // paging_set
    | MapTo(sp: Space, virt: Word, phys: Word, physEnd: Word, flags: Word)
    | Drop(sp: Space)                                                    // paging_free_4gb
    | Alloc(size: Word, block: int)                                      // any other kmalloc
    | Release(block: int)                                                // any other kfree
    | Store(block: int, index: int, value: Word)                         // a write to such memory

  ghost predicate Built(start: int, frames: seq<Frame>, sp: Space, flags: Word, frames': seq<Frame>) {
    && Geometry(start, |frames|) && |frames'| == |frames| && Sized(frames, sp)
    && frames'[sp.dir] == DirectoryFrame(start, sp.tables, flags)
    && (forall i | 0 <= i < ENTRIES :: frames'[sp.tables[i]] == IdentityTable(i, flags))
    && frames'[sp.chunk] == frames[sp.chunk][0 := Address(start, sp.dir)]
    && forall b | 0 <= b < |frames| && !sp.Owns(b) :: frames'[b] == frames[b]
  }

  ghost predicate NewStep(m: Machine, flags: Word, sp: Space, m': Machine) {
    && FirstFits(m.table, sp.Blocks())
    && m'.table == MarkedAll(m.table, sp.Blocks())
    && m'.live == WithSingles(m.live, sp.Blocks())
    && m'.start == m.start && m'.spaces == m.spaces + {sp}
    && Built(m.start, m.frames, sp, flags, m'.frames)
  }

  ghost predicate SetStep(m: Machine, sp: Space, virt: Word, entry: Word, m': Machine) {
    && sp in m.spaces && Sized(m.frames, sp)
    && m' == if virt % PAGE_SIZE != 0 then m
             else m.(frames := SetEntry(m.frames, sp, PageOf(virt), entry))
  }

  predicate MapToRejects(virt: Word, phys: Word, physEnd: Word) {
    virt % PAGE_SIZE != 0 || phys % PAGE_SIZE != 0 || physEnd % PAGE_SIZE != 0 || physEnd < phys
  }

  ghost predicate MapToStep(m: Machine, sp: Space, virt: Word, phys: Word, physEnd: Word, flags: Word, m': Machine) {
    && sp in m.spaces && Sized(m.frames, sp)
    && m' == if MapToRejects(virt, phys, physEnd) then m
             else m.(frames := MapRange(m.frames, sp, virt, phys, (physEnd - phys) / PAGE_SIZE, flags))
  }

  ghost predicate DropStep(m: Machine, sp: Space, m': Machine) {
    && sp in m.spaces && (forall i | 0 <= i < |sp.Freeing()| :: sp.Freeing()[i] >= 0)
    && m' == m.(table := FreedAll(m.table, sp.Freeing()), live := Without(m.live, sp.Freeing()),
                spaces := m.spaces - {sp})
  }

  ghost predicate Step(m: Machine, op: Op, m': Machine) {
    match op
    case New(flags, sp) => flags < 256 && NewStep(m, flags, sp, m')
    case Set(sp, virt, entry) => SetStep(m, sp, virt, entry, m')
    case MapTo(sp, virt, phys, physEnd, flags) => MapToStep(m, sp, virt, phys, physEnd, flags, m')
    case Drop(sp) => DropStep(m, sp, m')
    case Alloc(size, r) =>
      && HeapStep(HeapState(m.table, m.live), HeapOp.Malloc(size, r), HeapState(m'.table, m'.live))
      && m' == m.(table := m'.table, live := m'.live)
    case Release(b) =>
      && (forall sp | sp in m.spaces :: !sp.Owns(b))
      && HeapStep(HeapState(m.table, m.live), HeapOp.Free(b), HeapState(m'.table, m'.live))
      && m' == m.(table := m'.table, live := m'.live)
    case Store(b, k, w) =>
      && (forall sp | sp in m.spaces :: !sp.Owns(b))
      && 0 <= b < |m.frames| && 0 <= k < ENTRIES
      && m' == m.(frames := m.frames[b := m.frames[b][k := w]])
  }

  predicate Targets(op: Op, sp: Space) {
    match op
    case New(_, sp') => sp == sp'
    case Set(sp', _, _) => sp == sp'
    case MapTo(sp', _, _, _, _) => sp == sp'
    case Drop(sp') => sp == sp'
    case _ => false
  }

  // ---- one step

  lemma OwnsExactly(sp: Space, b: int)
    ensures sp.Owns(b) <==> b == sp.dir || b == sp.chunk || b in sp.tables
  {
    var bs := sp.Blocks();
    assert bs[0] == sp.dir && bs[|bs| - 1] == sp.chunk;
    assert forall i | 0 <= i < |sp.tables| :: bs[i + 1] == sp.tables[i];
  }

  lemma HeldDistinct(live: Live, sp: Space)
    requires Held(live, sp)
    ensures Distinct(sp.tables) && sp.dir != sp.chunk && sp.dir !in sp.tables && sp.chunk !in sp.tables
    ensures forall b | sp.Owns(b) :: b in live && live[b] == 1
  {
    var bs := sp.Blocks();
    assert bs[0] == sp.dir && bs[|bs| - 1] == sp.chunk;
    assert forall i | 0 <= i < |sp.tables| :: bs[i + 1] == sp.tables[i];
  }

  /** A space whose own blocks keep their contents keeps its links and its translation. */
  lemma UntouchedSpace(start: int, frames: seq<Frame>, frames': seq<Frame>, sp: Space)
    requires Linked(start, frames, sp) && |frames'| == |frames|
    requires forall b | 0 <= b < |frames| && sp.Owns(b) :: frames'[b] == frames[b]
    ensures Linked(start, frames', sp) && SameTranslation(frames, frames', sp)
  {
    OwnsExactly(sp, sp.dir);
    OwnsExactly(sp, sp.chunk);
    forall i | 0 <= i < ENTRIES ensures frames'[sp.tables[i]] == frames[sp.tables[i]] { OwnsExactly(sp, sp.tables[i]); }
  }

  ghost predicate Undisturbed(m: Machine, m': Machine, sp: Space) {
    Sized(m.frames, sp) && Sized(m'.frames, sp) && SameTranslation(m.frames, m'.frames, sp)
  }

  /** Changing frames that no other space owns keeps the invariant and every other translation. */
  lemma WriteSafe(m: Machine, frames': seq<Frame>, target: Space)
    requires Inv(m) && |frames'| == |m.frames|
    requires target in m.spaces ==> Linked(m.start, frames', target)
    requires forall b, sp | sp in m.spaces && sp != target && sp.Owns(b) && 0 <= b < |m.frames| ::
               frames'[b] == m.frames[b]
    ensures Inv(m.(frames := frames'))
    ensures forall sp | sp in m.spaces && sp != target :: Undisturbed(m, m.(frames := frames'), sp)
  {
    forall sp | sp in m.spaces && sp != target
      ensures Linked(m.start, frames', sp) && Undisturbed(m, m.(frames := frames'), sp)
    {
      UntouchedSpace(m.start, m.frames, frames', sp);
    }
  }

  /** Writes to the tables of one space leave all other blocks alone. */
  lemma TableWritesSafe(m: Machine, frames': seq<Frame>, sp: Space)
    requires Inv(m) && sp in m.spaces && |frames'| == |m.frames|
    requires forall b | 0 <= b < |m.frames| && b !in sp.tables :: frames'[b] == m.frames[b]
    ensures Inv(m.(frames := frames'))
    ensures forall sp' | sp' in m.spaces && sp' != sp :: Undisturbed(m, m.(frames := frames'), sp')
  {
    HeldDistinct(m.live, sp);
    forall b, sp' | sp' in m.spaces && sp' != sp && sp'.Owns(b) && 0 <= b < |m.frames|
      ensures frames'[b] == m.frames[b]
    {
      assert Apart(sp', sp);
      OwnsExactly(sp, b);
    }
    WriteSafe(m, frames', sp);
  }

  lemma BuiltLinks(start: int, frames: seq<Frame>, sp: Space, flags: Word, frames': seq<Frame>)
    requires Built(start, frames, sp, flags, frames') && flags < 256
    ensures Linked(start, frames', sp)
  {
    hide Or, PageBase, IdentityTable;
    forall i | 0 <= i < ENTRIES ensures PageBase(frames'[sp.dir][i]) == Address(start, sp.tables[i]) {
      FlagsMaskOffTwice(Address(start, sp.tables[i]), flags, IS_WRITEABLE);
    }
  }

  /** The blocks of a new space were free, so it shares none with an older space. */
  lemma NewIsApart(t: Table, live: Live, spaces: set<Space>, sp: Space)
    requires AllNew(t, live, sp.Blocks()) && AllHeld(live, spaces) && AllApart(spaces)
    ensures sp !in spaces && AllApart(spaces + {sp})
    ensures forall sp' | sp' in spaces :: Apart(sp, sp')
    ensures AllHeld(WithSingles(live, sp.Blocks()), spaces + {sp})
  {
    forall sp' | sp' in spaces
      ensures sp' != sp && Apart(sp, sp') && Apart(sp', sp) && Held(WithSingles(live, sp.Blocks()), sp')
    {
      HeldDistinct(live, sp');
      OwnsExactly(sp, sp.dir);
    }
  }

  lemma NewLinks(m: Machine, flags: Word, sp: Space, frames': seq<Frame>)
    requires AllLinked(m.start, m.frames, m.spaces) && Built(m.start, m.frames, sp, flags, frames') && flags < 256
    requires forall sp' | sp' in m.spaces :: Apart(sp, sp')
    ensures AllLinked(m.start, frames', m.spaces + {sp})
    ensures forall sp' | sp' in m.spaces :: Undisturbed(m, m.(frames := frames'), sp')
  {
    BuiltLinks(m.start, m.frames, sp, flags, frames');
    forall sp' | sp' in m.spaces
      ensures Linked(m.start, frames', sp') && Undisturbed(m, m.(frames := frames'), sp')
    {
      UntouchedSpace(m.start, m.frames, frames', sp');
    }
  }

  lemma NewSafe(m: Machine, flags: Word, sp: Space, m': Machine)
    requires Inv(m) && flags < 256 && NewStep(m, flags, sp, m')
    ensures Inv(m')
    ensures sp !in m.spaces && forall sp' | sp' in m.spaces :: Undisturbed(m, m', sp')
  {
    SinglesKeepDecoding(m.table, m.live, sp.Blocks());
    NewIsApart(m.table, m.live, m.spaces, sp);
    NewLinks(m, flags, sp, m'.frames);
  }

  lemma DropSafe(m: Machine, sp: Space, m': Machine)
    requires Inv(m) && DropStep(m, sp, m')
    ensures Inv(m')
    ensures forall sp' | sp' in m'.spaces :: Undisturbed(m, m', sp')
  {
    FreeingIsOwned(m.live, sp);
    FreeEachKeepsDecoding(m.table, m.live, sp.Freeing());
    forall sp' | sp' in m'.spaces ensures Held(m'.live, sp') {
      assert Apart(sp', sp);
      HeldDistinct(m.live, sp');
      forall b | b in sp.Freeing() ensures sp.Owns(b) { assert b in sp.Blocks(); }
    }
  }

  lemma FreeingIsOwned(live: Live, sp: Space)
    requires Held(live, sp)
    ensures Distinct(sp.Freeing())
    ensures forall b :: b in sp.Freeing() <==> sp.Owns(b)
    ensures forall i | 0 <= i < |sp.Freeing()| :: sp.Freeing()[i] in live && live[sp.Freeing()[i]] == 1
  {
    HeldDistinct(live, sp);
    var fs, n := sp.Freeing(), |sp.tables|;
    assert fs[n] == sp.dir && fs[n + 1] == sp.chunk;
    assert forall i | 0 <= i < n :: fs[i] == sp.tables[i];
    forall b ensures b in fs <==> sp.Owns(b) { OwnsExactly(sp, b); }
    forall i | 0 <= i < |fs| ensures fs[i] in live && live[fs[i]] == 1 { assert sp.Owns(fs[i]); }
  }

  lemma HeapTrafficSafe(m: Machine, op: Op, m': Machine)
    requires Inv(m) && (op.Alloc? || op.Release?) && Step(m, op, m')
    ensures Inv(m')
    ensures forall sp | sp in m.spaces :: Undisturbed(m, m', sp)
  {
    var hop := if op.Alloc? then HeapOp.Malloc(op.size, op.block) else HeapOp.Free(op.block);
    HeapStepKeepsDecoding(HeapState(m.table, m.live), hop, HeapState(m'.table, m'.live));
    forall sp | sp in m.spaces ensures Held(m'.live, sp) {
      HeldDistinct(m.live, sp);
      forall b | sp.Owns(b) ensures b in m'.live && m'.live[b] == 1 {
        if op.Alloc? && b == op.block { assert Covers(m.live, b, b); }
      }
    }
  }

  /** One step keeps the invariant and every translation but that of its own target. */
  lemma StepSafe(m: Machine, op: Op, m': Machine)
    requires Inv(m) && Step(m, op, m')
    ensures Inv(m')
    ensures forall sp | sp in m.spaces && sp in m'.spaces && !Targets(op, sp) :: Undisturbed(m, m', sp)
  {
    match op
    case New(flags, sp) => NewSafe(m, flags, sp, m');
    case Drop(sp) => DropSafe(m, sp, m');
    case Set(sp, virt, entry) =>
      if virt % PAGE_SIZE == 0 {
        forall b | 0 <= b < |m.frames| && b !in sp.tables ensures m'.frames[b] == m.frames[b] {
          SetEntryFrame(m.frames, sp, PageOf(virt), entry, b);
        }
        TableWritesSafe(m, m'.frames, sp);
      }
    case MapTo(sp, virt, phys, physEnd, flags) =>
      if !MapToRejects(virt, phys, physEnd) {
        forall b | 0 <= b < |m.frames| && b !in sp.tables ensures m'.frames[b] == m.frames[b] {
          MapRangeFrame(m.frames, sp, virt, phys, (physEnd - phys) / PAGE_SIZE, flags, b);
        }
        TableWritesSafe(m, m'.frames, sp);
      }
    case Store(b, k, w) =>
      forall sp | sp in m.spaces ensures Linked(m.start, m'.frames, sp) && Undisturbed(m, m', sp) {
        UntouchedSpace(m.start, m.frames, m'.frames, sp);
      }
    case Alloc(_, _) => HeapTrafficSafe(m, op, m');
    case Release(_) => HeapTrafficSafe(m, op, m');
  }

  // ---- whole runs

  ghost predicate Run(ms: seq<Machine>, ops: seq<Op>) {
    |ms| == |ops| + 1 && forall i {:trigger ops[i]} | 0 <= i < |ops| :: Step(ms[i], ops[i], ms[i + 1])
  }

  lemma {:induction false} RunKeepsInv(ms: seq<Machine>, ops: seq<Op>, k: nat)
    requires Run(ms, ops) && Inv(ms[0]) && k <= |ops|
    ensures Inv(ms[k])
  {
    if k > 0 {
      RunKeepsInv(ms, ops, k - 1);
      StepSafe(ms[k - 1], ops[k - 1], ms[k]);
    }
  }

  /** Separation: over any stretch of any run in which a space exists and is not
      itself the target, each of its pages keeps its entry, whatever is done to
      other spaces and to the heap. And no two spaces ever share a block. */
  lemma {:induction false} Separation(ms: seq<Machine>, ops: seq<Op>, first: nat, last: nat, sp: Space)
    requires Run(ms, ops) && Inv(ms[0]) && first <= last <= |ops|
    requires forall i | first <= i <= last :: sp in ms[i].spaces
    requires forall i | first <= i < last :: !Targets(ops[i], sp)
    ensures Undisturbed(ms[first], ms[last], sp)
    ensures forall sp' | sp' in ms[last].spaces && sp' != sp :: Apart(sp, sp')
    decreases last
  {
    RunKeepsInv(ms, ops, last);
    if first < last {
      Separation(ms, ops, first, last - 1, sp);
      RunKeepsInv(ms, ops, last - 1);
      StepSafe(ms[last - 1], ops[last - 1], ms[last]);
    }
  }

  /** Building a space, remapping spaces at will and tearing the space down leaves
      the heap table as it was, byte for byte. */
  lemma BuildAndDropIsNeutral(before: Machine, flags: Word, sp: Space, ms: seq<Machine>, ops: seq<Op>, after: Machine)
    requires Run(ms, ops) && forall i | 0 <= i < |ops| :: ops[i].Set? || ops[i].MapTo?
    requires Inv(before) && NewStep(before, flags, sp, ms[0])
    requires DropStep(ms[|ops|], sp, after)
    ensures after.table == before.table && after.live == before.live
    ensures |FreeBlocks(ms[0].table)| == |FreeBlocks(before.table)| - 1026
  {
    MappingKeepsHeap(ms, ops, |ops|);
    NewThenDrop(before, sp, ms[0].table, ms[0].live);
  }

  lemma NewThenDrop(m: Machine, sp: Space, t: Table, live: Live)
    requires HeapSound(m) && FirstFits(m.table, sp.Blocks()) && |sp.tables| == ENTRIES
    requires t == MarkedAll(m.table, sp.Blocks()) && live == WithSingles(m.live, sp.Blocks())
    ensures forall i | 0 <= i < |sp.Freeing()| :: sp.Freeing()[i] >= 0
    ensures FreedAll(t, sp.Freeing()) == m.table && Without(live, sp.Freeing()) == m.live
    ensures |FreeBlocks(t)| == |FreeBlocks(m.table)| - 1026
  {
    SinglesKeepDecoding(m.table, m.live, sp.Blocks());
    FreeingExactlyBlocks(m.live, sp);
    FreeingIsOwned(live, sp);
    FreeEachKeepsDecoding(t, live, sp.Freeing());
    SameTable(FreedAll(t, sp.Freeing()), m.table, m.live);
  }

  lemma {:induction false} MappingKeepsHeap(ms: seq<Machine>, ops: seq<Op>, k: nat)
    requires Run(ms, ops) && k <= |ops|
    requires forall i | 0 <= i < k :: ops[i].Set? || ops[i].MapTo?
    ensures ms[k].table == ms[0].table && ms[k].live == ms[0].live
  {
    if k > 0 {
      MappingKeepsHeap(ms, ops, k - 1);
      assert Step(ms[k - 1], ops[k - 1], ms[k]);
    }
  }

  lemma FreeingExactlyBlocks(live: Live, sp: Space)
    requires forall i | 0 <= i < |sp.Blocks()| :: sp.Blocks()[i] !in live
    ensures Without(WithSingles(live, sp.Blocks()), sp.Freeing()) == live
  {
    forall b ensures b in sp.Freeing() <==> b in sp.Blocks() {
      OwnsExactly(sp, b);
      var fs, n := sp.Freeing(), |sp.tables|;
      assert fs[n] == sp.dir && fs[n + 1] == sp.chunk;
      assert forall i | 0 <= i < n :: fs[i] == sp.tables[i];
    }
  }
}
