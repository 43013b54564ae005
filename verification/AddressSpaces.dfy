/** Page directories as values: what a directory and its tables say about every
    page, what each paging operation does to the frames, and why address spaces
    built from heap blocks never disturb each other. */
module AddressSpaces {
  import opened Words
  import opened HeapTable

  const ENTRIES := 1024
  const PAGES := 0x10_0000          // pages of the 4 GB address space
  const TABLE_SPAN := 0x40_0000     // bytes one table maps
  const IS_WRITEABLE: Word := 2

  /** The contents of one heap block, as words. */
  type Frame = f: seq<Word> | |f| == ENTRIES witness seq(1024, _ => 0)

  /** One paging_4gb_chunk: the heap blocks of its directory, its tables and itself. */
  datatype Space = Space(dir: int, tables: seq<int>, chunk: int) {
    /** In the order in which they are allocated. */
    function Blocks(): seq<int> { [dir] + tables + [chunk] }

    /** In the order in which they are freed. */
    function Freeing(): seq<int> { tables + [dir, chunk] }

    predicate Owns(b: int) { b in Blocks() }
  }

  /** The heap, the memory behind its blocks, and the chunks in existence. */
  datatype Machine = Machine(start: Word, table: Table, live: Live, frames: seq<Frame>, spaces: set<Space>)

  ghost predicate Geometry(start: int, blocks: int) {
    start % PAGE_SIZE == 0 && 0 < start && start + PAGE_SIZE * blocks <= TWO_32
  }

  function Address(start: int, b: int): int {
    start + PAGE_SIZE * b
  }

  ghost predicate Sized(frames: seq<Frame>, sp: Space) {
    && |sp.tables| == ENTRIES
    && 0 <= sp.dir < |frames| && 0 <= sp.chunk < |frames|
    && forall i | 0 <= i < ENTRIES :: 0 <= sp.tables[i] < |frames|
  }

  /** The words that link a chunk to its directory and the directory to its tables. */
  ghost predicate Linked(start: int, frames: seq<Frame>, sp: Space) {
    && Sized(frames, sp)
    && frames[sp.chunk][0] == Address(start, sp.dir)
    && forall i | 0 <= i < ENTRIES :: PageBase(frames[sp.dir][i]) == Address(start, sp.tables[i])
  }

  /** The blocks of a space are distinct one-block allocations. */
  ghost predicate Held(live: Live, sp: Space) {
    && Distinct(sp.Blocks())
    && forall i | 0 <= i < |sp.Blocks()| :: sp.Blocks()[i] in live && live[sp.Blocks()[i]] == 1
  }

  ghost predicate Apart(sp: Space, sp': Space) {
    forall b :: !(sp.Owns(b) && sp'.Owns(b))
  }

  ghost predicate HeapSound(m: Machine) {
    Geometry(m.start, |m.table|) && |m.table| == |m.frames| && Decodes(m.table, m.live)
  }

  ghost predicate AllLinked(start: int, frames: seq<Frame>, spaces: set<Space>) {
    forall sp | sp in spaces :: Linked(start, frames, sp)
  }

  ghost predicate AllHeld(live: Live, spaces: set<Space>) {
    forall sp | sp in spaces :: Held(live, sp)
  }

  ghost predicate AllApart(spaces: set<Space>) {
    forall sp, sp' | sp in spaces && sp' in spaces && sp != sp' :: Apart(sp, sp')
  }

  ghost predicate Inv(m: Machine) {
    && HeapSound(m)
    && AllLinked(m.start, m.frames, m.spaces)
    && AllHeld(m.live, m.spaces)
    && AllApart(m.spaces)
  }

  // ---- what a space says about a page

  /** The entry of page p (0 <= p < 2^20). */
  ghost function Entry(frames: seq<Frame>, sp: Space, p: int): Word
    requires Sized(frames, sp) && 0 <= p < PAGES
  {
    frames[sp.tables[p / ENTRIES]][p % ENTRIES]
  }

  ghost predicate SameTranslation(frames: seq<Frame>, frames': seq<Frame>, sp: Space)
    requires Sized(frames, sp) && Sized(frames', sp)
  {
    forall p | 0 <= p < PAGES :: Entry(frames', sp, p) == Entry(frames, sp, p)
  }

  function PageOf(virt: Word): int {
    virt / PAGE_SIZE
  }

  /** paging_get: an unaligned address reads the entry of page 0, because its
      index computation fails and leaves both indexes at 0. */
  ghost function Lookup(frames: seq<Frame>, sp: Space, virt: Word): Word
    requires Sized(frames, sp)
  {
    Entry(frames, sp, if virt % PAGE_SIZE == 0 then PageOf(virt) else 0)
  }

  /** paging_get_physical_address. */
  ghost function Physical(frames: seq<Frame>, sp: Space, virt: Word): Word
    requires Sized(frames, sp)
  {
    Wrap(PageBase(Lookup(frames, sp, virt - virt % PAGE_SIZE)) + virt % PAGE_SIZE)
  }

  // ---- the operations on frames

  /** A fresh table i: every page points to itself. */
  function IdentityTable(i: int, flags: Word): Frame {
    seq(ENTRIES, k => IdentityEntry(i, k, flags))
  }

  function IdentityEntry(i: int, k: int, flags: Word): Word {
    Or(Wrap(PAGE_SIZE * (ENTRIES * i + k)), flags)
  }

  function DirectoryFrame(start: int, tables: seq<int>, flags: Word): Frame
    requires |tables| == ENTRIES
    requires forall i | 0 <= i < ENTRIES :: 0 <= Address(start, tables[i]) < TWO_32
  {
    seq(ENTRIES, i requires 0 <= i < ENTRIES => Or(Or(Address(start, tables[i]), flags), IS_WRITEABLE))
  }

  function SetEntry(frames: seq<Frame>, sp: Space, p: int, entry: Word): (r: seq<Frame>)
    requires Sized(frames, sp) && 0 <= p < PAGES
    ensures |r| == |frames|
  {
    var t := sp.tables[p / ENTRIES];
    frames[t := frames[t][p % ENTRIES := entry]]
  }

  /** n pages in a row, both addresses wrapping at 2^32. */
  function MapRange(frames: seq<Frame>, sp: Space, virt: Word, phys: Word, n: nat, flags: Word): (r: seq<Frame>)
    requires Sized(frames, sp)
    ensures |r| == |frames|
    decreases n
  {
    if n == 0 then frames
    else MapRange(SetEntry(frames, sp, PageOf(virt), Or(phys, flags)), sp,
                  Wrap(virt + PAGE_SIZE), Wrap(phys + PAGE_SIZE), n - 1, flags)
  }

  lemma SetEntryExact(frames: seq<Frame>, sp: Space, p: int, entry: Word, q: int)
    requires Sized(frames, sp) && Distinct(sp.tables) && 0 <= p < PAGES && 0 <= q < PAGES
    ensures Entry(SetEntry(frames, sp, p, entry), sp, q) == if q == p then entry else Entry(frames, sp, q)
  {
  }

  lemma SetEntryFrame(frames: seq<Frame>, sp: Space, p: int, entry: Word, b: int)
    requires Sized(frames, sp) && 0 <= p < PAGES && 0 <= b < |frames| && b !in sp.tables
    ensures SetEntry(frames, sp, p, entry)[b] == frames[b]
  {
  }

  /** What walking from a chunk to an entry relies on. */
  ghost predicate Walkable(start: int, frames: seq<Frame>, sp: Space) {
    && Geometry(start, |frames|) && Linked(start, frames, sp)
    && Distinct(sp.tables) && sp.dir !in sp.tables && sp.chunk !in sp.tables
  }

  lemma SetEntryKeepsWalk(start: int, frames: seq<Frame>, sp: Space, p: int, entry: Word)
    requires Walkable(start, frames, sp) && 0 <= p < PAGES
    ensures Walkable(start, SetEntry(frames, sp, p, entry), sp)
  {
  }

  /** How many pages after virt page q comes, around the address space. */
  function PagesAfter(virt: Word, q: int): int {
    (q - PageOf(virt)) % PAGES
  }

  /** Range mapping is exact: the k-th page gets the k-th frame, no other page changes. */
  lemma {:induction false} MapRangeExact(frames: seq<Frame>, sp: Space, virt: Word, phys: Word, n: nat, flags: Word,
                                         q: int)
    requires Sized(frames, sp) && Distinct(sp.tables) && virt % PAGE_SIZE == 0 && 0 <= q < PAGES && n <= PAGES
    ensures Entry(MapRange(frames, sp, virt, phys, n, flags), sp, q) ==
            var k := PagesAfter(virt, q);
            if k < n then Or(Wrap(phys + PAGE_SIZE * k), flags) else Entry(frames, sp, q)
    decreases n
  {
    hide PagesAfter, PageOf, Wrap, Entry, SetEntry, Or;
    PageDistance(virt, phys, q);
    if n > 0 {
      var virt', phys' := Wrap(virt + PAGE_SIZE), Wrap(phys + PAGE_SIZE);
      MapRangeExact(SetEntry(frames, sp, PageOf(virt), Or(phys, flags)), sp, virt', phys', n - 1, flags, q);
      SetEntryExact(frames, sp, PageOf(virt), Or(phys, flags), q);
    }
  }

  lemma PageDistance(virt: Word, phys: Word, q: int)
    requires virt % PAGE_SIZE == 0 && 0 <= q < PAGES
    ensures 0 <= PageOf(virt) < PAGES && Wrap(virt + PAGE_SIZE) % PAGE_SIZE == 0
    ensures var k, k' := PagesAfter(virt, q), PagesAfter(Wrap(virt + PAGE_SIZE), q);
            && 0 <= k < PAGES
            && if k == 0 then q == PageOf(virt) && k' == PAGES - 1 && Wrap(phys + PAGE_SIZE * k) == phys
               else q != PageOf(virt) && k' == k - 1 &&
                    Wrap(Wrap(phys + PAGE_SIZE) + PAGE_SIZE * k') == Wrap(phys + PAGE_SIZE * k)
  {
    NextPageDistance(PageOf(virt), q);
    var k := PagesAfter(virt, q);
    if k > 0 { WrapTwice(phys + PAGE_SIZE, PAGE_SIZE * (k - 1)); }
  }

  lemma NextPageDistance(p: int, q: int)
    requires 0 <= p < PAGES && 0 <= q < PAGES
    ensures var k, k' := (q - p) % PAGES, (q - (p + 1) % PAGES) % PAGES;
            if k == 0 then q == p && k' == PAGES - 1 else q != p && k' == k - 1
  {
    assert (p + 1) % PAGES == if p + 1 == PAGES then 0 else p + 1;
    assert (q - p) % PAGES == if q >= p then q - p else q - p + PAGES;
  }

  lemma WrapTwice(a: int, b: int)
    ensures Wrap(Wrap(a) + b) == Wrap(a + b)
  {
  }

  lemma {:induction false} MapRangeFrame(frames: seq<Frame>, sp: Space, virt: Word, phys: Word, n: nat, flags: Word,
                                         b: int)
    requires Sized(frames, sp) && 0 <= b < |frames| && b !in sp.tables
    ensures MapRange(frames, sp, virt, phys, n, flags)[b] == frames[b]
    decreases n
  {
    if n > 0 {
      MapRangeFrame(SetEntry(frames, sp, PageOf(virt), Or(phys, flags)), sp,
                    Wrap(virt + PAGE_SIZE), Wrap(phys + PAGE_SIZE), n - 1, flags, b);
      SetEntryFrame(frames, sp, PageOf(virt), Or(phys, flags), b);
    }
  }
}
