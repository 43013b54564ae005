/** Mapping a program into its task's address space: the segments of an ELF file or
    a flat binary, then the user stack. */
module ProcessImage {
  import opened Status
  import opened Words
  import opened Division
  import opened HeapTable
  import opened AddressSpaces
  import opened AddressSpaceRuns
  import opened Paging
  import opened Translation

  const PRESENT: Word := 1
  const ACCESS_FROM_ALL: Word := 4
  const PF_W: Word := 2
  const PROGRAM_ADDRESS: Word := 0x40_0000
  const STACK_SIZE: Word := 0x4000
  const STACK_END: Word := 0x3f_f000 - 0x4000

  /** An ELF program header, as far as mapping reads it. */
  datatype Segment = Segment(vaddr: Word, offset: Word, memsz: Word, flags: Word)

  datatype Program = Elf(memory: Word, segments: seq<Segment>) | Binary(ptr: Word, size: Word)

  function LowerPage(address: Word): Word {
    address - address % PAGE_SIZE
  }

  /** paging_align_address, wrapping at the top of the address space. */
  function AlignAddress(address: Word): Word {
    if address % PAGE_SIZE != 0 then Wrap(address + PAGE_SIZE - address % PAGE_SIZE) else address
  }

  predicate Writeable(flags: Word) {
    flags / 2 % 2 == 1
  }

  function PageFlags(seg: Segment): Word {
    if Writeable(seg.flags) then 7 else 5
  }

  function Phys(elf: Word, seg: Segment): Word {
    Wrap(elf + seg.offset)
  }

  function PhysEnd(elf: Word, seg: Segment): Word {
    AlignAddress(Wrap(Phys(elf, seg) + seg.memsz))
  }

  predicate Rejected(elf: Word, seg: Segment) {
    PhysEnd(elf, seg) < LowerPage(Phys(elf, seg))
  }

  function SegmentPages(elf: Word, seg: Segment): int {
    (PhysEnd(elf, seg) - LowerPage(Phys(elf, seg))) / PAGE_SIZE
  }

  function MapSegment(frames: seq<Frame>, sp: Space, elf: Word, seg: Segment): (r: seq<Frame>)
    requires Sized(frames, sp) && !Rejected(elf, seg)
    ensures |r| == |frames|
  {
    MapRange(frames, sp, LowerPage(seg.vaddr), LowerPage(Phys(elf, seg)), SegmentPages(elf, seg), PageFlags(seg))
  }

  /** The segments in file order, up to the first that is rejected. */
  function MapSegments(frames: seq<Frame>, sp: Space, elf: Word, segs: seq<Segment>): (r: seq<Frame>)
    requires Sized(frames, sp)
    ensures |r| == |frames|
    decreases |segs|
  {
    if segs == [] || Rejected(elf, segs[0]) then frames
    else MapSegments(MapSegment(frames, sp, elf, segs[0]), sp, elf, segs[1..])
  }

  predicate AnyRejected(elf: Word, segs: seq<Segment>) {
    exists i :: 0 <= i < |segs| && Rejected(elf, segs[i])
  }

  /** process_map_elf. */
  method MapElf(mem: Memory, chunk: Word, elf: Word, segs: seq<Segment>, ghost sp: Space) returns (res: int)
    requires mem.Walk(sp) && chunk == Address(mem.heap.start, sp.chunk)
    modifies mem.frames
    ensures mem.Walk(sp)
    ensures res == if AnyRejected(elf, segs) then -EINVARG else ALL_OK
    ensures mem.frames[..] == MapSegments(old(mem.frames[..]), sp, elf, segs)
  {
    hide MapRange, MapToRejects, Rejected, LowerPage, AlignAddress, Wrap, Or, Writeable;
    ghost var before := mem.frames[..];
    res := ALL_OK;
    var i := 0;
    while i < |segs|
      invariant 0 <= i <= |segs| && mem.Walk(sp) && res == ALL_OK
      invariant forall j | 0 <= j < i :: !Rejected(elf, segs[j])
      invariant MapSegments(mem.frames[..], sp, elf, segs[i..]) == MapSegments(before, sp, elf, segs)
    {
      var seg := segs[i];
      var phys := Wrap(elf + seg.offset);
      var flags := Or(PRESENT, ACCESS_FROM_ALL);
      if Writeable(seg.flags) {
        flags := Or(flags, IS_WRITEABLE);
      }
      FlagValues();
      SegmentAccepted(elf, seg);
      assert segs[i..][1..] == segs[i + 1..];
      res := mem.MapTo(chunk, LowerPage(seg.vaddr), LowerPage(phys), AlignAddress(Wrap(phys + seg.memsz)), flags, sp);
      if res < 0 {
        return;
      }
      i := i + 1;
    }
  }

  lemma FlagValues()
    ensures Or(PRESENT, ACCESS_FROM_ALL) == 5 && Or(5, IS_WRITEABLE) == 7
  {
  }

  /** Alignment never rejects a segment; only an end below its start does. */
  lemma SegmentAccepted(elf: Word, seg: Segment)
    ensures MapToRejects(LowerPage(seg.vaddr), LowerPage(Phys(elf, seg)), PhysEnd(elf, seg)) <==> Rejected(elf, seg)
  {
  }

  /** process_map_binary. */
  method MapBinary(mem: Memory, chunk: Word, ptr: Word, size: Word, ghost sp: Space) returns (res: int)
    requires mem.Walk(sp) && chunk == Address(mem.heap.start, sp.chunk)
    modifies mem.frames
    ensures mem.Walk(sp)
    ensures res == if ptr % PAGE_SIZE != 0 || AlignAddress(Wrap(ptr + size)) < ptr then -EINVARG else ALL_OK
    ensures mem.frames[..] == if res < 0 then old(mem.frames[..])
                              else MapSegment(old(mem.frames[..]), sp, ptr, BinarySegment(size))
  {
    hide MapRange, Or, AlignAddress;
    FlagValues();
    var flags := Or(Or(PRESENT, ACCESS_FROM_ALL), IS_WRITEABLE);
    AlignedToPage(Wrap(ptr + size));
    res := mem.MapTo(chunk, PROGRAM_ADDRESS, ptr, AlignAddress(Wrap(ptr + size)), flags, sp);
  }

  lemma AlignedToPage(address: Word)
    ensures AlignAddress(address) % PAGE_SIZE == 0
  {
  }

  /** A flat binary is one writeable segment at the program address. */
  function BinarySegment(size: Word): Segment {
    Segment(PROGRAM_ADDRESS, 0, size, PF_W)
  }

  function MapStack(frames: seq<Frame>, sp: Space, stack: Word): (r: seq<Frame>)
    requires Sized(frames, sp)
    ensures |r| == |frames|
  {
    var end := AlignAddress(Wrap(stack + STACK_SIZE));
    if MapToRejects(STACK_END, stack, end) then frames
    else MapRange(frames, sp, STACK_END, stack, (end - stack) / PAGE_SIZE, 7)
  }

  /** What the program contributes to the mapping, and whether it is accepted. */
  function MapProgram(frames: seq<Frame>, sp: Space, program: Program): (r: seq<Frame>)
    requires Sized(frames, sp)
    ensures |r| == |frames|
  {
    match program
    case Elf(memory, segs) => MapSegments(frames, sp, memory, segs)
    case Binary(ptr, size) =>
      if Refused(program) then frames else MapSegment(frames, sp, ptr, BinarySegment(size))
  }

  predicate Refused(program: Program) {
    match program
    case Elf(memory, segs) => AnyRejected(memory, segs)
    case Binary(ptr, size) => ptr % PAGE_SIZE != 0 || AlignAddress(Wrap(ptr + size)) < ptr
  }

  method MapImage(mem: Memory, chunk: Word, program: Program, ghost sp: Space) returns (res: int)
    requires mem.Walk(sp) && chunk == Address(mem.heap.start, sp.chunk)
    modifies mem.frames
    ensures mem.Walk(sp)
    ensures res == if Refused(program) then -EINVARG else ALL_OK
    ensures mem.frames[..] == MapProgram(old(mem.frames[..]), sp, program)
  {
    hide MapRange, MapSegments, MapSegment, AnyRejected;
    match program
    case Elf(memory, segs) => {
      res := MapElf(mem, chunk, memory, segs, sp);
    }
    case Binary(ptr, size) => {
      res := MapBinary(mem, chunk, ptr, size, sp);
    }
  }

  method MapUserStack(mem: Memory, chunk: Word, stack: Word, ghost sp: Space)
    requires mem.Walk(sp) && chunk == Address(mem.heap.start, sp.chunk)
    modifies mem.frames
    ensures mem.Walk(sp)
    ensures mem.frames[..] == MapStack(old(mem.frames[..]), sp, stack)
  {
    FlagValues();
    var flags := Or(Or(PRESENT, ACCESS_FROM_ALL), IS_WRITEABLE);
    var _ := mem.MapTo(chunk, STACK_END, stack, AlignAddress(Wrap(stack + STACK_SIZE)), flags, sp);
  }

  /** process_map_memory: the program, then the stack; the stack's result is ignored. */
  method MapMemory(mem: Memory, chunk: Word, program: Program, stack: Word, ghost sp: Space) returns (res: int)
    requires mem.Walk(sp) && chunk == Address(mem.heap.start, sp.chunk)
    modifies mem.frames
    ensures mem.Walk(sp)
    ensures res == if Refused(program) then -EINVARG else ALL_OK
    ensures res < 0 && program.Binary? ==> mem.frames[..] == old(mem.frames[..])
    ensures mem.frames[..] == MapAll(old(mem.frames[..]), sp, program, stack)
  {
    res := MapImage(mem, chunk, program, sp);
    if res < 0 {
      return;
    }
    MapUserStack(mem, chunk, stack, sp);
  }

  function MapAll(frames: seq<Frame>, sp: Space, program: Program, stack: Word): (r: seq<Frame>)
    requires Sized(frames, sp)
    ensures |r| == |frames|
  {
    var mapped := MapProgram(frames, sp, program);
    if Refused(program) then mapped else MapStack(mapped, sp, stack)
  }

  // ---- what the mapped image means

  /** Page q belongs to the segment's virtual range. */
  predicate OnSegment(elf: Word, seg: Segment, q: int) {
    PagesAfter(LowerPage(seg.vaddr), q) < SegmentPages(elf, seg)
  }

  predicate OnStack(q: int) {
    PagesAfter(STACK_END, q) < STACK_SIZE / PAGE_SIZE
  }

  /** The file is page-aligned and the segment's bytes lie below the top of memory. */
  predicate WellPlaced(elf: Word, seg: Segment) {
    elf % PAGE_SIZE == 0 && elf + seg.offset + seg.memsz + PAGE_SIZE <= TWO_32
  }

  /** Virtual address and file offset agree within the page. */
  predicate InPhase(seg: Segment) {
    seg.vaddr % PAGE_SIZE == seg.offset % PAGE_SIZE
  }

  /** What the linker and the loader promise: segments are well placed, and the page
      ranges of the segments and of the stack are disjoint. */
  ghost predicate WellFormedImage(elf: Word, segs: seq<Segment>, stack: Word) {
    && (forall i | 0 <= i < |segs| :: WellPlaced(elf, segs[i]))
    && (forall i, j, q | 0 <= i < j < |segs| && 0 <= q < PAGES ::
          !(OnSegment(elf, segs[i], q) && OnSegment(elf, segs[j], q)))
    && (forall i, q | 0 <= i < |segs| && 0 <= q < PAGES :: !(OnSegment(elf, segs[i], q) && OnStack(q)))
    && stack % PAGE_SIZE == 0 && stack + STACK_SIZE < TWO_32
  }

  /** The entry a segment gives its page q. */
  function SegmentWord(elf: Word, seg: Segment, q: int): Word {
    Or(Wrap(LowerPage(Phys(elf, seg)) + PAGE_SIZE * PagesAfter(LowerPage(seg.vaddr), q)), PageFlags(seg))
  }

  lemma WellPlacedAccepted(elf: Word, seg: Segment)
    requires WellPlaced(elf, seg)
    ensures Phys(elf, seg) == elf + seg.offset && !Rejected(elf, seg)
    ensures elf + seg.offset + seg.memsz <= PhysEnd(elf, seg) && PhysEnd(elf, seg) % PAGE_SIZE == 0
  {
  }

  /** One segment's effect on one page. */
  lemma SegmentEntry(frames: seq<Frame>, sp: Space, elf: Word, seg: Segment, q: int)
    requires Sized(frames, sp) && Distinct(sp.tables) && WellPlaced(elf, seg) && 0 <= q < PAGES
    ensures !Rejected(elf, seg)
    ensures Entry(MapSegment(frames, sp, elf, seg), sp, q) ==
            if OnSegment(elf, seg, q)
            then SegmentWord(elf, seg, q)
            else Entry(frames, sp, q)
  {
    WellPlacedAccepted(elf, seg);
    SegmentAccepted(elf, seg);
    hide Entry, Or, MapRange, PagesAfter, PageFlags;
    PageDistance(LowerPage(seg.vaddr), 0, q);
    var virt, phys := LowerPage(seg.vaddr), LowerPage(Phys(elf, seg));
    MapRangeExact(frames, sp, virt, phys, SegmentPages(elf, seg), PageFlags(seg), q);
  }

  /** A page on no segment keeps its entry through all of them. */
  lemma {:induction false} OffSegments(frames: seq<Frame>, sp: Space, elf: Word, segs: seq<Segment>, q: int)
    requires Sized(frames, sp) && Distinct(sp.tables) && 0 <= q < PAGES
    requires forall i | 0 <= i < |segs| :: WellPlaced(elf, segs[i]) && !OnSegment(elf, segs[i], q)
    ensures Entry(MapSegments(frames, sp, elf, segs), sp, q) == Entry(frames, sp, q)
    decreases |segs|
  {
    hide WellPlaced, OnSegment, SegmentWord, Entry, MapSegment;
    if segs != [] {
      SegmentEntry(frames, sp, elf, segs[0], q);
      OffSegments(MapSegment(frames, sp, elf, segs[0]), sp, elf, segs[1..], q);
    }
  }

  /** A page on segment i and on no later one ends with segment i's entry. */
  lemma {:induction false} OnSegments(frames: seq<Frame>, sp: Space, elf: Word, segs: seq<Segment>, i: nat, q: int)
    requires Sized(frames, sp) && Distinct(sp.tables) && 0 <= q < PAGES && i < |segs|
    requires forall j | 0 <= j < |segs| :: WellPlaced(elf, segs[j])
    requires OnSegment(elf, segs[i], q) && forall j | i < j < |segs| :: !OnSegment(elf, segs[j], q)
    ensures Entry(MapSegments(frames, sp, elf, segs), sp, q) ==
            SegmentWord(elf, segs[i], q)
    decreases |segs|
  {
    hide WellPlaced, OnSegment, SegmentWord, Entry, MapSegment;
    SegmentEntry(frames, sp, elf, segs[0], q);
    var rest := MapSegment(frames, sp, elf, segs[0]);
    if i == 0 {
      OffSegments(rest, sp, elf, segs[1..], q);
    } else {
      OnSegments(rest, sp, elf, segs[1..], i - 1, q);
    }
  }

  lemma StackEntry(frames: seq<Frame>, sp: Space, stack: Word, q: int)
    requires Sized(frames, sp) && Distinct(sp.tables) && 0 <= q < PAGES
    requires stack % PAGE_SIZE == 0 && stack + STACK_SIZE < TWO_32
    ensures Entry(MapStack(frames, sp, stack), sp, q) ==
            if OnStack(q) then Or(stack + PAGE_SIZE * PagesAfter(STACK_END, q), 7) else Entry(frames, sp, q)
  {
    hide Entry, Or, MapRange, PagesAfter;
    PageDistance(STACK_END, 0, q);
    MapRangeExact(frames, sp, STACK_END, stack, STACK_SIZE / PAGE_SIZE, 7, q);
  }

  /** Byte j of a segment lies on one of the segment's pages, at the page distance and
      offset that its physical byte has from the segment's first frame. */
  lemma SegmentByte(elf: Word, seg: Segment, j: int)
    requires WellPlaced(elf, seg) && InPhase(seg) && 0 <= j < seg.memsz
    ensures var virt := Wrap(seg.vaddr + j);
            var k := PagesAfter(LowerPage(seg.vaddr), PageOf(virt));
            && 0 <= PageOf(virt) < PAGES
            && OnSegment(elf, seg, PageOf(virt))
            && 0 <= LowerPage(Phys(elf, seg)) + PAGE_SIZE * k < TWO_32
            && LowerPage(Phys(elf, seg)) + PAGE_SIZE * k + virt % PAGE_SIZE == elf + seg.offset + j
            && LowerPage(Phys(elf, seg)) % PAGE_SIZE == 0
  {
    hide PagesAfter, Wrap, PageOf, PhysEnd;
    WellPlacedAccepted(elf, seg);
    VirtualByte(seg.vaddr, j);
    PhysicalByte(elf + seg.offset, seg.vaddr % PAGE_SIZE, j);
  }

  lemma VirtualByte(vaddr: Word, j: int)
    requires 0 <= j < TWO_32 - PAGE_SIZE
    ensures var off, virt := vaddr % PAGE_SIZE, Wrap(vaddr + j);
            && 0 <= PageOf(virt) < PAGES
            && PagesAfter(LowerPage(vaddr), PageOf(virt)) == (off + j) / PAGE_SIZE
            && virt % PAGE_SIZE == (off + j) % PAGE_SIZE
  {
    var off, p := vaddr % PAGE_SIZE, vaddr / PAGE_SIZE;
    assert PAGE_SIZE * p + (off + j) == vaddr + j;
    assert PageOf(LowerPage(vaddr)) == p;
    WrappedPage(p, off + j);
  }

  lemma PhysicalByte(phys: Word, off: int, j: int)
    requires off == phys % PAGE_SIZE && j >= 0
    ensures LowerPage(phys) % PAGE_SIZE == 0
    ensures LowerPage(phys) + PAGE_SIZE * ((off + j) / PAGE_SIZE) + (off + j) % PAGE_SIZE == phys + j
  {
  }

  /** Counting bytes from page p on, around the address space. */
  lemma WrappedPage(p: int, b: int)
    requires 0 <= p < PAGES && 0 <= b < TWO_32
    ensures PageOf(Wrap(PAGE_SIZE * p + b)) == (p + b / PAGE_SIZE) % PAGES
    ensures Wrap(PAGE_SIZE * p + b) % PAGE_SIZE == b % PAGE_SIZE
    ensures ((p + b / PAGE_SIZE) % PAGES - p) % PAGES == b / PAGE_SIZE
  {
  }

  lemma FlagsOf(seg: Segment)
    ensures PageFlags(seg) == if seg.flags / 2 % 2 == 1 then 7 else 5
    ensures Writeable(seg.flags) <==> PageFlags(seg) == 7
  {
  }

  /** A page that holds a segment's entry translates the segment's byte. */
  lemma SegmentByteTranslates(frames: seq<Frame>, sp: Space, elf: Word, seg: Segment, j: nat)
    requires Sized(frames, sp) && WellPlaced(elf, seg) && InPhase(seg) && j < seg.memsz
    requires var q := PageOf(Wrap(seg.vaddr + j));
             0 <= q < PAGES && Entry(frames, sp, q) == SegmentWord(elf, seg, q)
    ensures var virt := Wrap(seg.vaddr + j);
            && Physical(frames, sp, virt) == elf + seg.offset + j
            && (Writeable(Lookup(frames, sp, LowerPage(virt))) <==> Writeable(seg.flags))
            && Lookup(frames, sp, LowerPage(virt)) % 4096 == if seg.flags / 2 % 2 == 1 then 7 else 5
  {
    hide Entry, Or, PagesAfter, OnSegment, Physical, Lookup, PageOf, PageFlags, Writeable, LowerPage;
    var virt := Wrap(seg.vaddr + j);
    SegmentByte(elf, seg, j);
    FlagsOf(seg);
    var frame := LowerPage(Phys(elf, seg)) + PAGE_SIZE * PagesAfter(LowerPage(seg.vaddr), PageOf(virt));
    UserPage(frames, sp, virt, frame, PageFlags(seg));
  }

  /** A page whose entry is a frame with the flags 5 or 7. */
  lemma UserPage(frames: seq<Frame>, sp: Space, virt: Word, frame: Word, flags: Word)
    requires Sized(frames, sp) && frame % PAGE_SIZE == 0 && (flags == 5 || flags == 7)
    requires Entry(frames, sp, PageOf(virt)) == Or(frame, flags)
    ensures Physical(frames, sp, virt) == frame + virt % PAGE_SIZE
    ensures var entry := Lookup(frames, sp, LowerPage(virt));
            entry % 4096 == flags && (Writeable(entry) <==> flags == 7)
  {
    hide Entry, Or, Physical, Lookup;
    MappedPageTranslates(frames, sp, virt, frame, flags);
    FlagBit(frame, flags);
  }

  /** Every byte of a segment in phase translates to its byte of the loaded file, on a page
      that is writeable exactly when the segment is. */
  lemma SegmentsMapped(frames: seq<Frame>, sp: Space, elf: Word, segs: seq<Segment>, stack: Word, i: nat, j: nat)
    requires Sized(frames, sp) && Distinct(sp.tables) && WellFormedImage(elf, segs, stack)
    requires i < |segs| && InPhase(segs[i]) && j < segs[i].memsz
    ensures var after, virt := MapAll(frames, sp, Elf(elf, segs), stack), Wrap(segs[i].vaddr + j);
            && Physical(after, sp, virt) == elf + segs[i].offset + j
            && (Writeable(Lookup(after, sp, LowerPage(virt))) <==> Writeable(segs[i].flags))
            && Lookup(after, sp, LowerPage(virt)) % 4096 == if segs[i].flags / 2 % 2 == 1 then 7 else 5
  {
    hide Entry, SegmentWord, MapSegments, MapStack, PagesAfter, OnSegment, OnStack;
    hide Physical, Lookup, PageOf, Wrap, WellPlaced;
    var q := PageOf(Wrap(segs[i].vaddr + j));
    SegmentByte(elf, segs[i], j);
    AllAccepted(elf, segs, stack);
    OnSegments(frames, sp, elf, segs, i, q);
    StackEntry(MapSegments(frames, sp, elf, segs), sp, stack, q);
    SegmentByteTranslates(MapAll(frames, sp, Elf(elf, segs), stack), sp, elf, segs[i], j);
  }

  /** Byte j of the segment is mapped, present and for user programs, writeable as the
      segment is. */
  ghost predicate ByteMapped(frames: seq<Frame>, sp: Space, elf: Word, seg: Segment, j: int)
    requires Sized(frames, sp)
  {
    var virt := Wrap(seg.vaddr + j);
    && Physical(frames, sp, virt) == elf + seg.offset + j
    && Lookup(frames, sp, LowerPage(virt)) % 4096 == if seg.flags / 2 % 2 == 1 then 7 else 5
  }

  /** The bytes of a segment translate to its bytes of the file if and only if virtual
      address and file offset agree within the page. */
  lemma SegmentMappedExactly(frames: seq<Frame>, sp: Space, elf: Word, segs: seq<Segment>, stack: Word, i: nat)
    requires Sized(frames, sp) && Distinct(sp.tables) && WellFormedImage(elf, segs, stack)
    requires i < |segs| && segs[i].memsz >= 1
    ensures var after := MapAll(frames, sp, Elf(elf, segs), stack);
            (forall j | 0 <= j < segs[i].memsz :: ByteMapped(after, sp, elf, segs[i], j)) <==> InPhase(segs[i])
  {
    hide Physical, MapAll, Lookup, OnSegment, OnStack, Wrap;
    var after, seg := MapAll(frames, sp, Elf(elf, segs), stack), segs[i];
    if InPhase(seg) {
      forall j | 0 <= j < seg.memsz ensures ByteMapped(after, sp, elf, seg, j) {
        SegmentsMapped(frames, sp, elf, segs, stack, i, j);
      }
    } else {
      PhaseKept(after, sp, seg.vaddr);
      assert Wrap(seg.vaddr + 0) == seg.vaddr;
      assert WellPlaced(elf, seg) && !ByteMapped(after, sp, elf, seg, 0);
    }
  }

  /** Translation never changes the place within the page. */
  lemma PhaseKept(frames: seq<Frame>, sp: Space, virt: Word)
    requires Sized(frames, sp)
    ensures Physical(frames, sp, virt) % PAGE_SIZE == virt % PAGE_SIZE
  {
    hide Lookup;
  }

  lemma FlagBit(frame: Word, flags: Word)
    requires frame % PAGE_SIZE == 0 && (flags == 5 || flags == 7) && frame + flags < TWO_32
    ensures (Writeable(frame + flags) <==> flags == 7) && (frame + flags) % 4096 == flags
  {
    QuotRem(frame, 4096);
    LowBits(Quot(frame, 4096), flags);
  }

  lemma LowBits(q: nat, flags: nat)
    requires flags == 5 || flags == 7
    ensures (q * 4096 + flags) % 4096 == flags && ((q * 4096 + flags) / 2 % 2 == 1 <==> flags == 7)
  {
    QuotIs(q * 4096 + flags, 4096, q, flags);
    QuotIs(q * 4096 + flags, 2, q * 2048 + flags / 2, 1);
    QuotIs(q * 2048 + flags / 2, 2, q * 1024 + 1, flags / 2 - 2);
  }

  lemma AllAccepted(elf: Word, segs: seq<Segment>, stack: Word)
    requires WellFormedImage(elf, segs, stack)
    ensures !Refused(Elf(elf, segs))
  {
    forall i | 0 <= i < |segs| ensures !Rejected(elf, segs[i]) { WellPlacedAccepted(elf, segs[i]); }
  }

  /** Every stack address translates into the stack memory, writeable. */
  lemma StackMapped(frames: seq<Frame>, sp: Space, program: Program, stack: Word, virt: Word)
    requires Sized(frames, sp) && Distinct(sp.tables) && !Refused(program)
    requires stack % PAGE_SIZE == 0 && stack + STACK_SIZE < TWO_32
    requires 0x3f_b000 <= virt < 0x3f_f000
    ensures var after := MapAll(frames, sp, program, stack);
            && Physical(after, sp, virt) == stack + (virt - 0x3f_b000)
            && Writeable(Lookup(after, sp, LowerPage(virt)))
            && Lookup(after, sp, LowerPage(virt)) % 4096 == 7
  {
    hide Entry, Or, MapProgram, MapStack, Physical, Lookup, Refused;
    var mapped, k := MapProgram(frames, sp, program), (virt - STACK_END) / PAGE_SIZE;
    assert PagesAfter(STACK_END, PageOf(virt)) == k;
    StackEntry(mapped, sp, stack, PageOf(virt));
    var frame := stack + PAGE_SIZE * k;
    UserPage(MapStack(mapped, sp, stack), sp, virt, frame, 7);
  }

  /** The stack's pages. */
  lemma OnStackExactly(q: int)
    requires 0 <= q < PAGES
    ensures OnStack(q) <==> 0x3fb <= q < 0x3ff
  {
  }

  /** The pages of a segment in phase are those its bytes lie on. */
  lemma OnSegmentExactly(elf: Word, seg: Segment, q: int)
    requires WellPlaced(elf, seg) && InPhase(seg) && seg.memsz >= 1 && 0 <= q < PAGES
    ensures OnSegment(elf, seg, q) <==> exists j :: 0 <= j < seg.memsz && ByteOnPage(seg, j, q)
  {
    hide OnSegment;
    if j :| 0 <= j < seg.memsz && ByteOnPage(seg, j, q) {
      SegmentByte(elf, seg, j);
    }
    if OnSegment(elf, seg, q) {
      PageHasByte(elf, seg, q);
    }
  }

  predicate ByteOnPage(seg: Segment, j: int, q: int) {
    PageOf(Wrap(seg.vaddr + j)) == q
  }

  lemma PageHasByte(elf: Word, seg: Segment, q: int)
    requires WellPlaced(elf, seg) && InPhase(seg) && seg.memsz >= 1 && 0 <= q < PAGES && OnSegment(elf, seg, q)
    ensures exists j :: 0 <= j < seg.memsz && ByteOnPage(seg, j, q)
  {
    WellPlacedAccepted(elf, seg);
    var off, p := seg.vaddr % PAGE_SIZE, seg.vaddr / PAGE_SIZE;
    var k := PagesAfter(LowerPage(seg.vaddr), q);
    assert PageOf(LowerPage(seg.vaddr)) == p && k == (q - p) % PAGES;
    var j := if k == 0 then 0 else PAGE_SIZE * k - off;
    PagesOfSegment(elf, seg, k);
    WrappedPage(p, off + j);
    assert PAGE_SIZE * p + (off + j) == seg.vaddr + j;
    assert (p + (q - p) % PAGES) % PAGES == q;
    assert ByteOnPage(seg, j, q);
  }

  lemma PagesOfSegment(elf: Word, seg: Segment, k: int)
    requires WellPlaced(elf, seg) && InPhase(seg) && seg.memsz >= 1 && 0 <= k < SegmentPages(elf, seg)
    ensures PAGE_SIZE * k < seg.vaddr % PAGE_SIZE + seg.memsz
  {
    WellPlacedAccepted(elf, seg);
  }

  /** A refused ELF file leaves the segments in front of the first rejected one mapped, and
      nothing else: no stack. */
  lemma {:induction false} RefusedElf(frames: seq<Frame>, sp: Space, elf: Word, segs: seq<Segment>, stack: Word, k: nat)
    requires Sized(frames, sp) && k < |segs|
    requires Rejected(elf, segs[k]) && forall i | 0 <= i < k :: !Rejected(elf, segs[i])
    ensures MapAll(frames, sp, Elf(elf, segs), stack) == MapSegments(frames, sp, elf, segs[..k])
    decreases k
  {
    hide Rejected, MapSegment, MapStack;
    assert AnyRejected(elf, segs);
    if k > 0 {
      assert segs[..k][1..] == segs[1..][..k - 1] && segs[1..][k - 1] == segs[k];
      RefusedElf(MapSegment(frames, sp, elf, segs[0]), sp, elf, segs[1..], stack, k - 1);
    }
  }

  // ---- either kind of program

  function Base(program: Program): Word {
    match program
    case Elf(memory, _) => memory
    case Binary(ptr, _) => ptr
  }

  function Segments(program: Program): seq<Segment> {
    match program
    case Elf(_, segs) => segs
    case Binary(_, size) => [BinarySegment(size)]
  }

  ghost predicate WellFormed(program: Program, stack: Word) {
    WellFormedImage(Base(program), Segments(program), stack)
  }

  /** A well-formed flat binary is mapped like an ELF file with its one segment. */
  lemma MappedAsSegments(frames: seq<Frame>, sp: Space, program: Program, stack: Word)
    requires Sized(frames, sp) && WellFormed(program, stack)
    ensures !Refused(program)
    ensures MapAll(frames, sp, program, stack) == MapAll(frames, sp, Elf(Base(program), Segments(program)), stack)
  {
    hide MapSegment, MapStack;
    var elf, segs := Base(program), Segments(program);
    AllAccepted(elf, segs, stack);
    if program.Binary? {
      WellPlacedAccepted(elf, segs[0]);
      assert segs[1..] == [];
      assert MapSegments(frames, sp, elf, segs) == MapSegment(frames, sp, elf, segs[0]);
    }
  }

  /** Page q is on no segment and not on the stack. */
  predicate Outside(program: Program, q: int) {
    !OnStack(q) && forall i | 0 <= i < |Segments(program)| :: !OnSegment(Base(program), Segments(program)[i], q)
  }

  /** Pages of no segment and not of the stack keep their earlier entry. */
  lemma OtherPagesKept(frames: seq<Frame>, sp: Space, program: Program, stack: Word, q: int)
    requires Sized(frames, sp) && Distinct(sp.tables) && WellFormed(program, stack) && 0 <= q < PAGES
    requires Outside(program, q)
    ensures Entry(MapAll(frames, sp, program, stack), sp, q) == Entry(frames, sp, q)
  {
    hide Entry, MapSegments, MapStack, OnSegment, OnStack, Segments, Base;
    var elf, segs := Base(program), Segments(program);
    MappedAsSegments(frames, sp, program, stack);
    AllAccepted(elf, segs, stack);
    OffSegments(frames, sp, elf, segs, q);
    StackEntry(MapSegments(frames, sp, elf, segs), sp, stack, q);
  }

  /** In a process with a fresh directory every address outside its program and its stack
      still translates to itself. */
  lemma OutsideIsIdentity(m: Machine, flags: Word, sp: Space, m': Machine, program: Program, stack: Word, virt: Word)
    requires Inv(m) && flags < 256 && NewStep(m, flags, sp, m') && WellFormed(program, stack)
    requires Outside(program, PageOf(virt))
    ensures Sized(m'.frames, sp)
    ensures Physical(MapAll(m'.frames, sp, program, stack), sp, virt) == virt
  {
    hide NewStep, Inv, WellFormed, MapAll, Entry, Outside;
    NewSafe(m, flags, sp, m');
    FreshTables(m, flags, sp, m');
    FreshIsIdentity(m, flags, sp, m', virt);
    var page := virt - virt % PAGE_SIZE;
    assert page % PAGE_SIZE == 0 && PageOf(page) == PageOf(virt);
    OtherPagesKept(m'.frames, sp, program, stack, PageOf(virt));
  }

  lemma FreshTables(m: Machine, flags: Word, sp: Space, m': Machine)
    requires NewStep(m, flags, sp, m') && Inv(m')
    ensures Distinct(sp.tables)
  {
    HeldDistinct(m'.live, sp);
  }

  /** A flat binary at a page-aligned address is mapped byte for byte, writeable. */
  lemma BinaryMapped(frames: seq<Frame>, sp: Space, ptr: Word, size: Word, stack: Word, j: nat)
    requires Sized(frames, sp) && Distinct(sp.tables) && WellFormed(Binary(ptr, size), stack) && j < size
    ensures var after, virt := MapAll(frames, sp, Binary(ptr, size), stack), Wrap(0x40_0000 + j);
            && Physical(after, sp, virt) == ptr + j
            && Writeable(Lookup(after, sp, LowerPage(virt)))
            && Lookup(after, sp, LowerPage(virt)) % 4096 == 7
  {
    hide Physical, Lookup, MapAll, OnSegment, OnStack;
    SegmentsMapped(frames, sp, ptr, Segments(Binary(ptr, size)), stack, 0, j);
    MappedAsSegments(frames, sp, Binary(ptr, size), stack);
  }

  // ---- a program's image is its own

  /** Mapping a program and its stack keeps the kernel's invariant and disturbs no
      other address space. */
  lemma ImageIsPrivate(m: Machine, sp: Space, program: Program, stack: Word)
    requires Inv(m) && sp in m.spaces
    ensures Sized(m.frames, sp)
    ensures var m' := m.(frames := MapAll(m.frames, sp, program, stack));
            Inv(m') && forall sp' | sp' in m.spaces && sp' != sp :: Undisturbed(m, m', sp')
  {
    assert Linked(m.start, m.frames, sp);
    forall b | 0 <= b < |m.frames| && b !in sp.tables
      ensures MapAll(m.frames, sp, program, stack)[b] == m.frames[b]
    {
      MapAllFrame(m.frames, sp, program, stack, b);
    }
    TableWritesSafe(m, MapAll(m.frames, sp, program, stack), sp);
  }

  lemma MapAllFrame(frames: seq<Frame>, sp: Space, program: Program, stack: Word, b: int)
    requires Sized(frames, sp) && 0 <= b < |frames| && b !in sp.tables
    ensures MapAll(frames, sp, program, stack)[b] == frames[b]
  {
    hide MapSegments, MapSegment, MapStack, Rejected;
    match program {
      case Elf(memory, segs) => SegmentsFrame(frames, sp, memory, segs, b);
      case Binary(ptr, size) =>
        if !Refused(program) {
          BinaryAccepted(ptr, size);
          SegmentFrame(frames, sp, ptr, BinarySegment(size), b);
        }
    }
    StackFrame(MapProgram(frames, sp, program), sp, stack, b);
  }

  lemma BinaryAccepted(ptr: Word, size: Word)
    requires !Refused(Binary(ptr, size))
    ensures !Rejected(ptr, BinarySegment(size))
  {
  }

  lemma StackFrame(frames: seq<Frame>, sp: Space, stack: Word, b: int)
    requires Sized(frames, sp) && 0 <= b < |frames| && b !in sp.tables
    ensures MapStack(frames, sp, stack)[b] == frames[b]
  {
    var end := AlignAddress(Wrap(stack + STACK_SIZE));
    if !MapToRejects(STACK_END, stack, end) {
      MapRangeFrame(frames, sp, STACK_END, stack, (end - stack) / PAGE_SIZE, 7, b);
    }
  }

  lemma SegmentFrame(frames: seq<Frame>, sp: Space, elf: Word, seg: Segment, b: int)
    requires Sized(frames, sp) && 0 <= b < |frames| && b !in sp.tables && !Rejected(elf, seg)
    ensures MapSegment(frames, sp, elf, seg)[b] == frames[b]
  {
    var virt, phys := LowerPage(seg.vaddr), LowerPage(Phys(elf, seg));
    MapRangeFrame(frames, sp, virt, phys, SegmentPages(elf, seg), PageFlags(seg), b);
  }

  lemma {:induction false} SegmentsFrame(frames: seq<Frame>, sp: Space, elf: Word, segs: seq<Segment>, b: int)
    requires Sized(frames, sp) && 0 <= b < |frames| && b !in sp.tables
    ensures MapSegments(frames, sp, elf, segs)[b] == frames[b]
    decreases |segs|
  {
    if segs != [] && !Rejected(elf, segs[0]) {
      SegmentFrame(frames, sp, elf, segs[0], b);
      SegmentsFrame(MapSegment(frames, sp, elf, segs[0]), sp, elf, segs[1..], b);
    }
  }
}
