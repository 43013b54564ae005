/** The block table of the kernel heap as a value: how one byte a block encodes a
    set of allocations, and what marking and freeing do to that set. */
module HeapTable {
  import opened Status
  import opened Words

  const ENTRY_FREE: bv8 := 0x00
  const ENTRY_TAKEN: bv8 := 0x01
  const IS_FIRST: bv8 := 0x40
  const HAS_NEXT: bv8 := 0x80
  const BLOCK_SIZE := 4096

  type Table = seq<bv8>

  /** The live allocations: first block to number of blocks. */
  type Live = map<int, int>

  predicate IsFree(e: bv8) {
    e & 0x0f == ENTRY_FREE
  }

  predicate HasNext(e: bv8) {
    e & HAS_NEXT != 0
  }

  /** The byte of block k of an allocation of n blocks. */
  function EntryOf(k: int, n: int): bv8 {
    ENTRY_TAKEN | (if k == 0 then IS_FIRST else 0) | (if k < n - 1 then HAS_NEXT else 0)
  }

  lemma EntryBits(k: int, n: int)
    ensures !IsFree(EntryOf(k, n))
    ensures HasNext(EntryOf(k, n)) <==> k < n - 1
    ensures EntryOf(k, n) & IS_FIRST != 0 <==> k == 0
  {
  }

  /** The bytes of an allocation, and what the two tests see in any byte. */
  lemma EntryBytes(e: bv8, n: int)
    requires n >= 1
    ensures EntryOf(0, n) == if n == 1 then 0x41 else 0xc1
    ensures forall k | 0 < k < n :: EntryOf(k, n) == if k == n - 1 then 0x01 else 0x81
    ensures (IsFree(e) <==> e % 16 == 0) && (HasNext(e) <==> e >= 128)
  {
  }

  predicate Covers(live: Live, s: int, i: int) {
    s in live && s <= i < s + live[s]
  }

  ghost predicate Covered(live: Live, i: int) {
    exists s :: Covers(live, s, i)
  }

  /** The table encodes exactly the allocations in live. */
  ghost predicate Decodes(t: Table, live: Live) {
    && (forall s | s in live :: 0 <= s && 1 <= live[s] && s + live[s] <= |t|)
    && (forall s, i | Covers(live, s, i) :: t[i] == EntryOf(i - s, live[s]))
    && (forall i | 0 <= i < |t| && !Covered(live, i) :: t[i] == ENTRY_FREE)
  }

  /** The FIRST bit alone keeps two encoded allocations apart. */
  lemma LiveDisjoint(t: Table, live: Live, s: int, s': int, i: int)
    requires Decodes(t, live) && Covers(live, s, i) && Covers(live, s', i)
    ensures s == s'
  {
    var head := if s < s' then s' else s;
    assert Covers(live, s, head) && Covers(live, s', head);
    EntryBits(head - s, live[s]);
    EntryBits(head - s', live[s']);
  }

  lemma CoveredIsTaken(t: Table, live: Live, i: int)
    requires Decodes(t, live) && 0 <= i < |t|
    ensures IsFree(t[i]) <==> !Covered(live, i)
    ensures IsFree(t[i]) <==> t[i] == ENTRY_FREE
  {
    if Covered(live, i) {
      var s :| Covers(live, s, i);
      EntryBits(i - s, live[s]);
    }
  }

  /** A table decodes in at most one way. */
  lemma DecodesUniquely(t: Table, a: Live, b: Live)
    requires Decodes(t, a) && Decodes(t, b)
    ensures a == b
  {
    forall s ensures s in a ==> s in b && b[s] == a[s] { if s in a { SameAllocation(t, a, b, s); } }
    forall s ensures s in b ==> s in a && a[s] == b[s] { if s in b { SameAllocation(t, b, a, s); } }
  }

  lemma SameAllocation(t: Table, a: Live, b: Live, s: int)
    requires Decodes(t, a) && Decodes(t, b) && s in a
    ensures s in b && a[s] == b[s]
  {
    assert Covers(a, s, s);
    EntryBits(0, a[s]);
    CoveredIsTaken(t, b, s);
    var s' :| Covers(b, s', s);
    EntryBits(s - s', b[s']);
    assert s' == s;
    var last := s + (if a[s] < b[s] then a[s] else b[s]) - 1;
    assert Covers(a, s, last) && Covers(b, s, last);
    EntryBits(last - s, a[s]);
    EntryBits(last - s, b[s]);
  }

  /** Two tables of one size that encode the same allocations are byte for byte equal. */
  lemma SameTable(t: Table, t': Table, live: Live)
    requires Decodes(t, live) && Decodes(t', live) && |t| == |t'|
    ensures t == t'
  {
    forall i | 0 <= i < |t| ensures t[i] == t'[i] {
      if Covered(live, i) {
        var s :| Covers(live, s, i);
        assert t[i] == EntryOf(i - s, live[s]) == t'[i];
      }
    }
  }

  // ---- searching for free blocks

  ghost predicate Fits(t: Table, s: int, n: int) {
    0 <= s && s + n <= |t| && forall i | s <= i < s + n :: IsFree(t[i])
  }

  ghost predicate Fitting(t: Table, n: int) {
    exists s :: Fits(t, s, n)
  }

  /** r is the start of the free run that reaches the end of the table. */
  ghost predicate TrailingRun(t: Table, r: int) {
    0 <= r < |t| && Fits(t, r, |t| - r) && (r == 0 || !IsFree(t[r - 1]))
  }

  ghost predicate LastIsTaken(t: Table) {
    |t| == 0 || !IsFree(t[|t| - 1])
  }

  /** The answer of the search: the lowest fit if there is one, otherwise no
      memory, or the trailing run when the last block is free. */
  ghost predicate StartBlockIs(t: Table, n: nat, r: int) {
    if n >= 1 && Fitting(t, n) then
      Fits(t, r, n) && forall s | Fits(t, s, n) :: r <= s
    else if LastIsTaken(t) then r == -ENOMEM
    else TrailingRun(t, r)
  }

  lemma StartBlockUnique(t: Table, n: nat, r: int, r': int)
    requires StartBlockIs(t, n, r) && StartBlockIs(t, n, r')
    ensures r == r'
  {
    if !(n >= 1 && Fitting(t, n)) && !LastIsTaken(t) {
      assert forall i | r <= i < |t| :: IsFree(t[i]);
      assert forall i | r' <= i < |t| :: IsFree(t[i]);
    }
  }

  /** n consecutive entries from s on with their low four bits 0. */
  ghost predicate FreeRun(t: Table, s: int, n: int) {
    0 <= s && s + n <= |t| && forall i | s <= i < s + n :: t[i] % 16 == 0
  }

  /** First fit: the search answers with a run of n free entries and none lower, if there is
      one; otherwise with no memory if the last entry is taken, else with the start of the
      free entries at the end, which are fewer than n. */
  lemma FirstFitExactly(t: Table, n: nat, r: int)
    requires n >= 1 && StartBlockIs(t, n, r)
    ensures (exists s :: FreeRun(t, s, n)) ==> FreeRun(t, r, n) && forall s | FreeRun(t, s, n) :: r <= s
    ensures (forall s :: !FreeRun(t, s, n)) ==>
              if |t| == 0 || t[|t| - 1] % 16 != 0 then r == -3
              else 0 <= r < |t| && FreeRun(t, r, |t| - r) && |t| - r < n && (r == 0 || t[r - 1] % 16 != 0)
  {
    forall i | 0 <= i < |t| ensures IsFree(t[i]) <==> t[i] % 16 == 0 { EntryBytes(t[i], 1); }
    forall s, k ensures Fits(t, s, k) <==> FreeRun(t, s, k) {}
    if (forall s :: !FreeRun(t, s, n)) && TrailingRun(t, r) && |t| - r >= n {
      assert FreeRun(t, r, n);
    }
  }

  /** A request of n blocks never makes the marking run over the table's end. */
  ghost predicate MallocSafe(t: Table, n: nat) {
    n <= 1 || Fitting(t, n) || LastIsTaken(t)
  }

  /** The search answers with a range inside the table exactly when the request is
      safe; in the remaining case the range starts in the trailing run and sticks out. */
  lemma OverrunExactly(t: Table, n: nat, r: int)
    requires StartBlockIs(t, n, r)
    ensures r < 0 || r + n <= |t| <==> MallocSafe(t, n)
    ensures r >= 0 && n >= 1 && MallocSafe(t, n) ==> Fits(t, r, n)
  {
    if n == 1 && !LastIsTaken(t) {
      assert Fits(t, |t| - 1, 1);
    }
    assert r >= 0 && r + n <= |t| && n >= 1 ==> Fits(t, r, n);
  }

  /** For one block the search fails exactly when no block is free. */
  lemma SingleBlockSearch(t: Table, r: int)
    requires StartBlockIs(t, 1, r)
    ensures r < 0 <==> forall i | 0 <= i < |t| :: !IsFree(t[i])
    ensures r < 0 ==> r == -ENOMEM
    ensures r >= 0 ==> Fits(t, r, 1)
  {
    OverrunExactly(t, 1, r);
    if i :| 0 <= i < |t| && IsFree(t[i]) {
      assert Fits(t, i, 1);
    }
    if r >= 0 {
      assert IsFree(t[r]);
    }
  }

  /** The request that fails: with one free block, the last, a search for two blocks
      answers with that block, and marking two would leave the table. */
  lemma OverrunExample()
    ensures StartBlockIs([0x41, 0x00], 2, 1) && !MallocSafe([0x41, 0x00], 2)
  {
    var t: Table := [0x41, 0x00];
    assert !IsFree(t[0]) && IsFree(t[1]);
    assert !Fits(t, 0, 2);
    assert TrailingRun(t, 1);
  }

  // ---- taking and freeing blocks

  /** The table with n blocks from s on marked as one allocation. */
  function Marked(t: Table, s: int, n: int): Table {
    seq(|t|, i requires 0 <= i < |t| => if s <= i < s + n then EntryOf(i - s, n) else t[i])
  }

  lemma MarkKeepsDecoding(t: Table, live: Live, s: int, n: int)
    requires Decodes(t, live) && n >= 1 && Fits(t, s, n)
    ensures forall i | s <= i < s + n :: !Covered(live, i)
    ensures s !in live
    ensures Decodes(Marked(t, s, n), live[s := n])
  {
    forall i | s <= i < s + n ensures !Covered(live, i) { CoveredIsTaken(t, live, i); }
    assert s in live ==> Covers(live, s, s);
    var t', live' := Marked(t, s, n), live[s := n];
    forall s', i | Covers(live', s', i) ensures t'[i] == EntryOf(i - s', live'[s']) {
      if s' != s { assert Covers(live, s', i); }
    }
    forall i | 0 <= i < |t'| && !Covered(live', i) ensures t'[i] == ENTRY_FREE {
      if Covered(live, i) {
        var s' :| Covers(live, s', i);
        assert Covers(live', s', i);
      }
      assert !Covers(live', s, i);
    }
  }

  /** One past the block at which freeing from block b stops. */
  function ChainEnd(t: Table, b: nat): (e: int)
    requires b <= |t|
    ensures b <= e <= |t|
    decreases |t| - b
  {
    if b == |t| then b
    else if !HasNext(t[b]) then b + 1
    else ChainEnd(t, b + 1)
  }

  function Cleared(t: Table, s: int, e: int): Table {
    seq(|t|, i requires 0 <= i < |t| => if s <= i < e then ENTRY_FREE else t[i])
  }

  function Freed(t: Table, b: nat): Table {
    if b >= |t| then t else Cleared(t, b, ChainEnd(t, b))
  }

  /** From any block of an allocation the chain ends where the allocation ends. */
  lemma {:induction false} ChainEndsWithAllocation(t: Table, live: Live, s: int, b: nat)
    requires Decodes(t, live) && Covers(live, s, b)
    ensures ChainEnd(t, b) == s + live[s]
    decreases |t| - b
  {
    EntryBits(b - s, live[s]);
    if b < s + live[s] - 1 {
      assert Covers(live, s, b + 1);
      ChainEndsWithAllocation(t, live, s, b + 1);
    }
  }

  /** Freeing a live pointer clears that allocation's blocks and no others. */
  lemma FreeKeepsDecoding(t: Table, live: Live, s: int)
    requires Decodes(t, live) && s in live
    ensures s >= 0 && Freed(t, s) == Cleared(t, s, s + live[s])
    ensures Decodes(Freed(t, s), live - {s})
  {
    assert Covers(live, s, s);
    ChainEndsWithAllocation(t, live, s, s);
    var t', live' := Freed(t, s), live - {s};
    forall s', i | Covers(live', s', i) ensures t'[i] == EntryOf(i - s', live'[s']) {
      assert Covers(live, s', i);
      if Covers(live, s, i) { LiveDisjoint(t, live, s, s', i); }
    }
    forall i | 0 <= i < |t'| && !Covered(live', i) ensures t'[i] == ENTRY_FREE {
      if !Covers(live, s, i) && Covered(live, i) {
        var s' :| Covers(live, s', i);
        assert Covers(live', s', i);
      }
    }
  }

  /** Freeing from any block of the table leaves an encoding of allocations if and only if the
      block is free or the start of a live one. */
  lemma FreeDecodesExactly(t: Table, live: Live, b: nat)
    requires Decodes(t, live) && b < |t|
    ensures (exists live' :: Decodes(Freed(t, b), live')) <==> IsFree(t[b]) || b in live
  {
    CoveredIsTaken(t, live, b);
    if IsFree(t[b]) {
      assert Freed(t, b) == t;
    } else if b in live {
      FreeKeepsDecoding(t, live, b);
    } else {
      var s :| Covers(live, s, b);
      forall live' ensures !Decodes(Freed(t, b), live') { CutOffTail(t, live, s, b, live'); }
    }
  }

  /** Freed from its middle, an allocation keeps a block that claims a next one. */
  lemma CutOffTail(t: Table, live: Live, s: int, b: nat, live': Live)
    requires Decodes(t, live) && Covers(live, s, b) && s < b
    ensures !Decodes(Freed(t, b), live')
  {
    var t' := Freed(t, b);
    assert Covers(live, s, b - 1);
    EntryBits(b - 1 - s, live[s]);
    assert t'[b - 1] == t[b - 1] && t'[b] == ENTRY_FREE;
    if Decodes(t', live') {
      CoveredIsTaken(t', live', b - 1);
      var s' :| Covers(live', s', b - 1);
      EntryBits(b - 1 - s', live'[s']);
      assert Covers(live', s', b);
    }
  }

  /** Free right after malloc gives the table back, byte for byte. */
  lemma FreeUndoesMark(t: Table, live: Live, s: int, n: int)
    requires Decodes(t, live) && n >= 1 && Fits(t, s, n)
    ensures Freed(Marked(t, s, n), s) == t
  {
    MarkKeepsDecoding(t, live, s, n);
    FreeKeepsDecoding(Marked(t, s, n), live[s := n], s);
    assert live[s := n] - {s} == live;
    SameTable(Freed(Marked(t, s, n), s), t, live);
  }

  function FreedAll(t: Table, order: seq<int>): Table
    requires forall i | 0 <= i < |order| :: order[i] >= 0
  {
    if order == [] then t
    else Freed(FreedAll(t, order[..|order| - 1]), order[|order| - 1])
  }

  predicate Distinct(blocks: seq<int>) {
    forall i, j | 0 <= i < j < |blocks| :: blocks[i] != blocks[j]
  }

  ghost function Without(live: Live, blocks: seq<int>): Live {
    live - (set b | b in blocks)
  }

  /** Freeing distinct live pointers one after another removes just those allocations. */
  lemma {:induction false} FreeEachKeepsDecoding(t: Table, live: Live, order: seq<int>)
    requires Decodes(t, live) && Distinct(order)
    requires forall i | 0 <= i < |order| :: order[i] in live && order[i] >= 0
    ensures |FreedAll(t, order)| == |t|
    ensures Decodes(FreedAll(t, order), Without(live, order))
  {
    if order == [] {
      assert Without(live, order) == live;
    } else {
      var init, b := order[..|order| - 1], order[|order| - 1];
      FreeEachKeepsDecoding(t, live, init);
      FreeKeepsDecoding(FreedAll(t, init), Without(live, init), b);
      assert Without(live, init) - {b} == Without(live, order);
    }
  }

  /** Freeing every live pointer once, in any order, leaves the all-free table. */
  lemma FreeingAllEmptiesTable(t: Table, live: Live, order: seq<int>)
    requires Decodes(t, live) && Distinct(order)
    requires forall s :: s in live ==> s in order
    requires forall i | 0 <= i < |order| :: order[i] in live && order[i] >= 0
    ensures FreedAll(t, order) == seq(|t|, _ => ENTRY_FREE)
  {
    FreeEachKeepsDecoding(t, live, order);
    var t' := FreedAll(t, order);
    forall i | 0 <= i < |t| ensures t'[i] == ENTRY_FREE { assert !Covered(Without(live, order), i); }
  }

  // ---- several one-block allocations in a row

  function MarkedAll(t: Table, blocks: seq<int>): Table {
    if blocks == [] then t
    else Marked(MarkedAll(t, blocks[..|blocks| - 1]), blocks[|blocks| - 1], 1)
  }

  /** Each block is what the search answers for one block after the previous ones are taken. */
  ghost predicate FirstFits(t: Table, blocks: seq<int>) {
    forall i | 0 <= i < |blocks| :: blocks[i] >= 0 && StartBlockIs(MarkedAll(t, blocks[..i]), 1, blocks[i])
  }

  ghost function WithSingles(live: Live, blocks: seq<int>): Live {
    live + map b | b in blocks :: 1
  }

  lemma FirstFitsAppend(t: Table, blocks: seq<int>, b: int)
    requires FirstFits(t, blocks) && b >= 0 && StartBlockIs(MarkedAll(t, blocks), 1, b)
    ensures FirstFits(t, blocks + [b]) && MarkedAll(t, blocks + [b]) == Marked(MarkedAll(t, blocks), b, 1)
  {
    var bs := blocks + [b];
    assert bs[..|blocks|] == blocks;
    forall i | 0 <= i < |bs| ensures bs[i] >= 0 && StartBlockIs(MarkedAll(t, bs[..i]), 1, bs[i]) {
      if i < |blocks| { assert bs[..i] == blocks[..i]; }
    }
  }

  /** Because the search answers with free blocks only, blocks taken one at a time
      are distinct, and none of them belongs to an allocation that was live before. */
  lemma {:induction false} SinglesKeepDecoding(t: Table, live: Live, blocks: seq<int>)
    requires Decodes(t, live) && FirstFits(t, blocks)
    ensures |MarkedAll(t, blocks)| == |t|
    ensures Decodes(MarkedAll(t, blocks), WithSingles(live, blocks))
    ensures |FreeBlocks(MarkedAll(t, blocks))| == |FreeBlocks(t)| - |blocks|
    ensures AllNew(t, live, blocks)
  {
    if blocks == [] {
      assert WithSingles(live, blocks) == live;
    } else {
      var init, b := Prefix(t, blocks);
      SinglesKeepDecoding(t, live, init);
      SingleStep(MarkedAll(t, init), WithSingles(live, init), b);
      WithSinglesAppend(live, init, b);
      NewAppend(t, live, init, b);
    }
  }

  ghost predicate AllNew(t: Table, live: Live, blocks: seq<int>) {
    && Distinct(blocks)
    && forall i | 0 <= i < |blocks| :: 0 <= blocks[i] < |t| && blocks[i] !in live && !Covered(live, blocks[i])
  }

  lemma WithSinglesAppend(live: Live, blocks: seq<int>, b: int)
    ensures WithSingles(live, blocks + [b]) == WithSingles(live, blocks)[b := 1]
  {
    assert forall x :: x in blocks + [b] <==> x in blocks || x == b;
  }

  lemma Prefix(t: Table, blocks: seq<int>) returns (init: seq<int>, b: int)
    requires FirstFits(t, blocks) && blocks != []
    ensures blocks == init + [b] && init == blocks[..|blocks| - 1] && b == blocks[|blocks| - 1]
    ensures FirstFits(t, init) && b >= 0 && StartBlockIs(MarkedAll(t, init), 1, b)
  {
    init, b := blocks[..|blocks| - 1], blocks[|blocks| - 1];
    forall i | 0 <= i < |init| ensures init[i] >= 0 && StartBlockIs(MarkedAll(t, init[..i]), 1, init[i]) {
      assert init[..i] == blocks[..i];
    }
  }

  lemma NewAppend(t: Table, live: Live, blocks: seq<int>, b: int)
    requires AllNew(t, live, blocks) && 0 <= b < |t|
    requires b !in WithSingles(live, blocks) && !Covered(WithSingles(live, blocks), b)
    ensures AllNew(t, live, blocks + [b])
  {
    assert forall s | Covers(live, s, b) :: s !in blocks && Covers(WithSingles(live, blocks), s, b);
  }

  lemma SingleStep(t: Table, live: Live, b: int)
    requires Decodes(t, live) && b >= 0 && StartBlockIs(t, 1, b)
    ensures b < |t| && b !in live && !Covered(live, b)
    ensures Decodes(Marked(t, b, 1), live[b := 1])
    ensures |FreeBlocks(Marked(t, b, 1))| == |FreeBlocks(t)| - 1
  {
    SingleBlockSearch(t, b);
    MarkKeepsDecoding(t, live, b, 1);
    MarkTakesBlocks(t, b, 1);
  }

  // ---- counting free blocks

  ghost function FreeBlocks(t: Table): set<int> {
    set i | 0 <= i < |t| && IsFree(t[i])
  }

  ghost function Interval(a: int, n: nat): (r: set<int>)
    ensures |r| == n
    ensures forall i :: i in r <==> a <= i < a + n
  {
    if n == 0 then {} else Interval(a, n - 1) + {a + n - 1}
  }

  lemma MarkTakesBlocks(t: Table, s: int, n: nat)
    requires Fits(t, s, n)
    ensures |FreeBlocks(Marked(t, s, n))| == |FreeBlocks(t)| - n
  {
    var t' := Marked(t, s, n);
    forall i | 0 <= i < |t| ensures IsFree(t'[i]) <==> IsFree(t[i]) && !(s <= i < s + n) { EntryBits(i - s, n); }
    IntervalTaken(t, t', s, n);
  }

  lemma IntervalTaken(t: Table, t': Table, s: int, n: nat)
    requires |t'| == |t| && 0 <= s && s + n <= |t|
    requires forall i | s <= i < s + n :: IsFree(t[i])
    requires forall i | 0 <= i < |t| :: IsFree(t'[i]) <==> IsFree(t[i]) && !(s <= i < s + n)
    ensures |FreeBlocks(t')| == |FreeBlocks(t)| - n
  {
    hide IsFree;
    assert FreeBlocks(t) == FreeBlocks(t') + Interval(s, n);
  }

  lemma FreeReturnsBlocks(t: Table, live: Live, s: int)
    requires Decodes(t, live) && s in live
    ensures s >= 0 && |FreeBlocks(Freed(t, s))| == |FreeBlocks(t)| + live[s]
  {
    FreeKeepsDecoding(t, live, s);
    var t' := Freed(t, s);
    forall i | s <= i < s + live[s] ensures !IsFree(t[i]) && IsFree(t'[i]) {
      assert Covers(live, s, i);
      EntryBits(i - s, live[s]);
    }
    assert FreeBlocks(t') == FreeBlocks(t) + Interval(s, live[s]);
  }

  lemma SomeBlockFree(t: Table)
    requires |FreeBlocks(t)| >= 1
    ensures exists i :: 0 <= i < |t| && IsFree(t[i])
  {
    var i :| i in FreeBlocks(t);
  }

  // ---- runs

  /** heap_align_value_to_upper on 32 bits. */
  function AlignUp(val: Word): Word {
    if val % BLOCK_SIZE == 0 then val
    else Wrap(val - val % BLOCK_SIZE + BLOCK_SIZE)
  }

  function BlocksFor(size: Word): nat {
    AlignUp(size) / BLOCK_SIZE
  }

  /** The reserved blocks cover the request exactly when rounding up does not wrap. */
  lemma BlocksCoverSize(size: Word)
    ensures BlocksFor(size) * BLOCK_SIZE >= size <==> size <= 0xffff_f000
    ensures BlocksFor(size) == 0 <==> size == 0 || size > 0xffff_f000
    ensures BLOCK_SIZE * (BlocksFor(size) - 1) < size || size == 0 || size > 0xffff_f000
  {
  }

  datatype HeapState = HeapState(table: Table, live: Live)
  datatype HeapOp = Malloc(size: Word, block: int) | Free(block: int)

  /** One malloc or free as the code performs it; block is malloc's answer. */
  ghost predicate HeapStep(h: HeapState, op: HeapOp, h': HeapState) {
    match op
    case Malloc(size, r) =>
      var n := BlocksFor(size);
      && MallocSafe(h.table, n)
      && StartBlockIs(h.table, n, r)
      && if r < 0 || n == 0 then h' == h
         else h' == HeapState(Marked(h.table, r, n), h.live[r := n])
    case Free(b) =>
      b in h.live && b >= 0 && h' == HeapState(Freed(h.table, b), h.live - {b})
  }

  lemma HeapStepKeepsDecoding(h: HeapState, op: HeapOp, h': HeapState)
    requires Decodes(h.table, h.live) && HeapStep(h, op, h')
    ensures Decodes(h'.table, h'.live) && |h'.table| == |h.table|
    ensures op.Malloc? && op.block >= 0 && BlocksFor(op.size) >= 1 ==>
              && op.size <= BlocksFor(op.size) * BLOCK_SIZE
              && op.block + BlocksFor(op.size) <= |h.table|
              && forall i | op.block <= i < op.block + BlocksFor(op.size) :: !Covered(h.live, i)
  {
    match op
    case Malloc(size, r) =>
      BlocksCoverSize(size);
      OverrunExactly(h.table, BlocksFor(size), r);
      if r >= 0 && BlocksFor(size) >= 1 {
        MarkKeepsDecoding(h.table, h.live, r, BlocksFor(size));
      }
    case Free(b) =>
      FreeKeepsDecoding(h.table, h.live, b);
  }

  ghost predicate HeapRun(states: seq<HeapState>, ops: seq<HeapOp>) {
    |states| == |ops| + 1 && forall i {:trigger ops[i]} | 0 <= i < |ops| :: HeapStep(states[i], ops[i], states[i + 1])
  }

  /** In every run the table stays the encoding of exactly one set of allocations,
      and no block belongs to two of them. */
  lemma {:induction false} HeapRunsDecode(states: seq<HeapState>, ops: seq<HeapOp>, k: nat)
    requires HeapRun(states, ops) && Decodes(states[0].table, states[0].live) && k <= |ops|
    ensures Decodes(states[k].table, states[k].live) && |states[k].table| == |states[0].table|
    ensures forall live | Decodes(states[k].table, live) :: live == states[k].live
    ensures forall s, s', i | Covers(states[k].live, s, i) && Covers(states[k].live, s', i) :: s == s'
  {
    if k > 0 {
      HeapRunsDecode(states, ops, k - 1);
      HeapStepKeepsDecoding(states[k - 1], ops[k - 1], states[k]);
    }
    var h := states[k];
    forall live | Decodes(h.table, live) ensures live == h.live { DecodesUniquely(h.table, live, h.live); }
    forall s, s', i | Covers(h.live, s, i) && Covers(h.live, s', i) ensures s == s' {
      LiveDisjoint(h.table, h.live, s, s', i);
    }
  }

  /** A run that ends with the live set it began with ends with the same table. */
  lemma RunsConserveTable(states: seq<HeapState>, ops: seq<HeapOp>)
    requires HeapRun(states, ops) && Decodes(states[0].table, states[0].live)
    requires states[|ops|].live == states[0].live
    ensures states[|ops|].table == states[0].table
  {
    HeapRunsDecode(states, ops, |ops|);
    SameTable(states[0].table, states[|ops|].table, states[0].live);
  }
}
