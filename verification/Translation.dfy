/** What page directories mean for addresses: fresh directories are the identity,
    range mapping is exact, and a borrowed page goes back as it was. */
module Translation {
  import opened Words
  import opened HeapTable
  import opened AddressSpaces
  import opened AddressSpaceRuns

  /** After paging_new_4gb every address translates to itself, and the entry of every
      page is its own address with the flags, up to and including the last page. */
  lemma FreshIsIdentity(m: Machine, flags: Word, sp: Space, m': Machine, virt: Word)
    requires NewStep(m, flags, sp, m') && flags < 256
    ensures Sized(m'.frames, sp)
    ensures virt % PAGE_SIZE == 0 ==> Lookup(m'.frames, sp, virt) == virt + flags
    ensures Physical(m'.frames, sp, virt) == virt
  {
    hide NewStep, Entry, PageBase, IdentityEntry;
    var page := virt - virt % PAGE_SIZE;
    FreshEntry(page, flags);
    EntryOfFresh(m, flags, sp, m', PageOf(page));
  }

  lemma EntryOfFresh(m: Machine, flags: Word, sp: Space, m': Machine, p: int)
    requires NewStep(m, flags, sp, m') && 0 <= p < PAGES
    ensures Sized(m'.frames, sp)
    ensures Entry(m'.frames, sp, p) == IdentityEntry(p / ENTRIES, p % ENTRIES, flags)
  {
    assert m'.frames[sp.tables[p / ENTRIES]] == IdentityTable(p / ENTRIES, flags);
  }

  lemma FreshEntry(page: Word, flags: Word)
    requires page % PAGE_SIZE == 0 && flags < 256
    ensures 0 <= PageOf(page) < PAGES
    ensures IdentityEntry(PageOf(page) / ENTRIES, PageOf(page) % ENTRIES, flags) == page + flags
    ensures PageBase(page + flags) == page
  {
    var p := PageOf(page);
    assert ENTRIES * (p / ENTRIES) + p % ENTRIES == p;
    FlagsAdd(page, flags);
    FlagsMaskOff(page, flags);
  }

  /** The words of a fresh directory: the address of each table with the flags, writeable in
      any case. */
  lemma DirectoryWords(m: Machine, flags: Word, sp: Space, m': Machine, i: nat)
    requires NewStep(m, flags, sp, m') && flags < 256 && i < ENTRIES
    ensures Sized(m'.frames, sp)
    ensures m'.frames[sp.dir][i] ==
            m.start + 4096 * sp.tables[i] + (if flags / 2 % 2 == 1 then flags else flags + 2)
  {
    hide NewStep, Or;
    DirectoryWord(m, flags, sp, m', i);
    OrAboveFlags(Address(m.start, sp.tables[i]), 0, flags);
    OrNothing(flags);
    OrAboveFlags(Address(m.start, sp.tables[i]), flags, IS_WRITEABLE);
    OrTwo(flags);
  }

  lemma DirectoryWord(m: Machine, flags: Word, sp: Space, m': Machine, i: nat)
    requires NewStep(m, flags, sp, m') && i < ENTRIES
    ensures Sized(m'.frames, sp)
    ensures Geometry(m.start, |m.frames|) && 0 <= sp.tables[i] < |m.frames|
    ensures m'.frames[sp.dir][i] == Or(Or(Address(m.start, sp.tables[i]), flags), IS_WRITEABLE)
  {
    hide Or;
    assert m'.frames[sp.dir] == DirectoryFrame(m.start, sp.tables, flags);
  }

  /** The processor's walk: the top ten bits of an address choose a word of the directory,
      whose upper bits are the address of a table, and the next ten bits a word of that. */
  lemma ProcessorWalk(start: int, frames: seq<Frame>, sp: Space, virt: Word)
    requires Linked(start, frames, sp) && virt % 4096 == 0
    ensures 0 <= virt / 0x40_0000 < 1024 && 0 <= virt / 0x1000 % 0x400 < 1024
    ensures var word, t := frames[sp.dir][virt / 0x40_0000], sp.tables[virt / 0x40_0000];
            && word - word % 4096 == start + 4096 * t
            && Lookup(frames, sp, virt) == frames[t][virt / 0x1000 % 0x400]
  {
  }

  // ---- range mapping

  /** A successful paging_map_to gives the k-th page from virt on (around the address
      space) the k-th frame from phys on with the flags, and changes no other page. */
  lemma MapToExact(m: Machine, sp: Space, virt: Word, phys: Word, physEnd: Word, flags: Word, m': Machine, q: int)
    requires Inv(m) && MapToStep(m, sp, virt, phys, physEnd, flags, m') && !MapToRejects(virt, phys, physEnd)
    requires 0 <= q < PAGES
    ensures Sized(m.frames, sp) && Sized(m'.frames, sp)
    ensures var k := PagesAfter(virt, q);
            if PAGE_SIZE * k < physEnd - phys
            then Entry(m'.frames, sp, q) == Or(phys + PAGE_SIZE * k, flags)
            else Entry(m'.frames, sp, q) == Entry(m.frames, sp, q)
  {
    HeldDistinct(m.live, sp);
    RangeEntry(m.frames, sp, virt, phys, physEnd, flags, q);
  }

  lemma RangeEntry(frames: seq<Frame>, sp: Space, virt: Word, phys: Word, physEnd: Word, flags: Word, q: int)
    requires Sized(frames, sp) && Distinct(sp.tables) && 0 <= q < PAGES
    requires !MapToRejects(virt, phys, physEnd)
    ensures var k := PagesAfter(virt, q);
            Entry(MapRange(frames, sp, virt, phys, (physEnd - phys) / PAGE_SIZE, flags), sp, q) ==
            if PAGE_SIZE * k < physEnd - phys then Or(phys + PAGE_SIZE * k, flags) else Entry(frames, sp, q)
  {
    hide Entry, Or, MapRange, PagesAfter;
    MapRangeExact(frames, sp, virt, phys, (physEnd - phys) / PAGE_SIZE, flags, q);
    PageDistance(virt, phys, q);
  }

  /** With flags below 4096 such a page translates to its frame. */
  lemma MappedPageTranslates(frames: seq<Frame>, sp: Space, virt: Word, frame: Word, flags: Word)
    requires Sized(frames, sp) && frame % PAGE_SIZE == 0 && flags < PAGE_SIZE
    requires Entry(frames, sp, PageOf(virt)) == Or(frame, flags)
    ensures Lookup(frames, sp, virt - virt % PAGE_SIZE) == frame + flags
    ensures Physical(frames, sp, virt) == frame + virt % PAGE_SIZE
  {
    hide Entry, Or, PageBase;
    FlagsAdd(frame, flags);
    FlagsMaskOff(frame, flags);
    assert PageOf(virt - virt % PAGE_SIZE) == PageOf(virt);
  }

  // ---- a borrowed page

  /** Mapping a page over and then setting its old entry again changes nothing. */
  lemma RestoringEntry(frames: seq<Frame>, sp: Space, p: int, borrowed: Word)
    requires Sized(frames, sp) && Distinct(sp.tables) && 0 <= p < PAGES
    ensures SetEntry(SetEntry(frames, sp, p, borrowed), sp, p, Entry(frames, sp, p)) == frames
  {
    var t, k := sp.tables[p / ENTRIES], p % ENTRIES;
    assert frames[t][k := borrowed][k := frames[t][k]] == frames[t];
  }
}
