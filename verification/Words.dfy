/** 32-bit machine words kept as integers, with C's bitwise `|` and `&` written
    out bit by bit so that flag arithmetic on page entries can be proved. */
module Words {
  import opened Division

  const TWO_32 := 0x1_0000_0000

  /** An unsigned 32-bit value or an address. */
  type Word = x: int | 0 <= x < TWO_32

  function Wrap(x: int): (w: Word)
    ensures 0 <= x < TWO_32 ==> w == x
  {
    x % TWO_32
  }

  function BitOr(a: nat, b: nat): (r: nat)
    decreases a + b
  {
    if a == 0 && b == 0 then 0
    else (if a % 2 == 1 || b % 2 == 1 then 1 else 0) + 2 * BitOr(a / 2, b / 2)
  }

  function BitAnd(a: nat, b: nat): (r: nat)
    decreases a
  {
    if a == 0 then 0
    else (if a % 2 == 1 && b % 2 == 1 then 1 else 0) + 2 * BitAnd(a / 2, b / 2)
  }

  function Pow2(k: nat): (p: nat)
    ensures p >= 1
  {
    if k == 0 then 1 else 2 * Pow2(k - 1)
  }

  lemma Pow2Values()
    ensures Pow2(12) == 4096
    ensures Pow2(32) == TWO_32
  {
    assert Pow2(4) == 16;
    assert Pow2(8) == 256;
    assert Pow2(16) == 0x1_0000;
    assert Pow2(20) == 0x10_0000;
    assert Pow2(24) == 0x100_0000;
    assert Pow2(28) == 0x1000_0000;
  }

  // ---- what the two mean, bit by bit

  /** Bit k of a number. */
  predicate Bit(a: nat, k: nat) {
    a / Pow2(k) % 2 == 1
  }

  /** Bit k of a is bit k - 1 of its half. */
  lemma BitOfHalf(a: nat, k: nat)
    requires k > 0
    ensures Bit(a, k) <==> Bit(a / 2, k - 1)
  {
    var p := Pow2(k - 1);
    QuotRem(a / 2, p);
    assert a / 2 == Quot(a / 2, p) * p + Rem(a / 2, p);
    assert 2 * (Quot(a / 2, p) * p) == Quot(a / 2, p) * (2 * p);
    QuotIs(a, 2 * p, Quot(a / 2, p), 2 * Rem(a / 2, p) + a % 2);
  }

  lemma BitZero(a: nat)
    ensures Bit(a, 0) <==> a % 2 == 1
  {
  }

  lemma Halves(a: nat, b: nat)
    ensures BitOr(a, b) / 2 == BitOr(a / 2, b / 2) && (BitOr(a, b) % 2 == 1 <==> a % 2 == 1 || b % 2 == 1)
    ensures BitAnd(a, b) / 2 == BitAnd(a / 2, b / 2) && (BitAnd(a, b) % 2 == 1 <==> a % 2 == 1 && b % 2 == 1)
  {
  }

  /** C's inclusive or and C's and: a bit is set exactly when it is set on either side, or
      on both. */
  lemma {:induction false} OrAndBits(a: nat, b: nat, k: nat)
    ensures Bit(BitOr(a, b), k) <==> Bit(a, k) || Bit(b, k)
    ensures Bit(BitAnd(a, b), k) <==> Bit(a, k) && Bit(b, k)
  {
    hide Bit, BitOr, BitAnd;
    Halves(a, b);
    if k == 0 {
      BitZero(a);
      BitZero(b);
      BitZero(BitOr(a, b));
      BitZero(BitAnd(a, b));
    } else {
      BitOfHalf(a, k);
      BitOfHalf(b, k);
      BitOfHalf(BitOr(a, b), k);
      BitOfHalf(BitAnd(a, b), k);
      OrAndBits(a / 2, b / 2, k - 1);
    }
  }

  /** A word stays a word. */
  lemma {:induction false} BitOrBound(a: nat, b: nat, k: nat)
    requires a < Pow2(k) && b < Pow2(k)
    ensures BitOr(a, b) < Pow2(k)
  {
    if k > 0 {
      BitOrBound(a / 2, b / 2, k - 1);
    }
  }

  /** The k lowest bits of a are 0. */
  predicate Multiple(a: nat, k: nat) {
    k == 0 || (a % 2 == 0 && Multiple(a / 2, k - 1))
  }

  lemma {:induction false} MultipleOf(q: nat, k: nat)
    ensures Multiple(q * Pow2(k), k)
  {
    if k > 0 {
      Doubled(q, k);
      MultipleOf(q, k - 1);
    }
  }

  /** Bits below a multiple of a power of two do not reach above it. */
  lemma {:induction false} BitOrLow(a: nat, f: nat, g: nat, k: nat)
    requires Multiple(a, k) && f < Pow2(k) && g < Pow2(k)
    ensures BitOr(a + f, g) == a + BitOr(f, g)
  {
    if k == 0 {
      BitOrZero(a);
    } else {
      BitOrLow(a / 2, f / 2, g / 2, k - 1);
      BitOrDouble(a / 2, a, f, g);
    }
  }

  lemma BitOrDouble(half: nat, a: nat, f: nat, g: nat)
    requires a == 2 * half && BitOr(half + f / 2, g / 2) == half + BitOr(f / 2, g / 2)
    ensures BitOr(a + f, g) == a + BitOr(f, g)
  {
    assert (a + f) / 2 == half + f / 2 && (a + f) % 2 == f % 2;
  }

  lemma Doubled(q: nat, k: nat)
    requires k > 0
    ensures q * Pow2(k) == 2 * (q * Pow2(k - 1))
  {
    var p := Pow2(k - 1);
    assert Pow2(k) == 2 * p;
    assert q * (2 * p) == 2 * (q * p);
  }

  lemma {:induction false} BitOrZero(a: nat)
    ensures BitOr(a, 0) == a && BitOr(0, a) == a
  {
    if a != 0 {
      BitOrZero(a / 2);
    }
  }

  /** A mask of ones from bit k up to bit w keeps the part above bit k. */
  lemma {:induction false} BitAndMask(a: nat, r: nat, mask: nat, w: nat, k: nat)
    requires k <= w && Multiple(a, k) && r < Pow2(k) && a + r < Pow2(w)
    requires mask == Pow2(w) - Pow2(k)
    ensures BitAnd(a + r, mask) == a
    decreases w
  {
    if w > 0 && k == 0 {
      assert mask % 2 == 1 && mask / 2 == Pow2(w - 1) - 1;
      BitAndMask(a / 2, 0, mask / 2, w - 1, 0);
    } else if w > 0 {
      assert (a + r) / 2 == a / 2 + r / 2;
      assert mask % 2 == 0 && mask / 2 == Pow2(w - 1) - Pow2(k - 1);
      BitAndMask(a / 2, r / 2, mask / 2, w - 1, k - 1);
    }
  }

  // ---- page entries: a frame address in the high 20 bits, flags in the low 12

  const PAGE_SIZE := 4096
  const PAGE_MASK := 0xfffff000

  function Or(a: Word, b: Word): Word {
    Pow2Values();
    BitOrBound(a, b, 32);
    BitOr(a, b)
  }

  function PageBase(entry: Word): (r: Word)
    ensures r == entry - entry % PAGE_SIZE
  {
    PageBaseBound(entry);
    BitAnd(entry, PAGE_MASK)
  }

  lemma PageBaseBound(entry: Word)
    ensures BitAnd(entry, PAGE_MASK) == entry - entry % PAGE_SIZE
  {
    Pow2Values();
    var q := entry / PAGE_SIZE;
    MultipleOf(q, 12);
    assert q * Pow2(12) == entry - entry % PAGE_SIZE;
    BitAndMask(entry - entry % PAGE_SIZE, entry % PAGE_SIZE, PAGE_MASK, 32, 12);
  }

  lemma OrAboveFlags(address: Word, f: Word, g: Word)
    requires address % PAGE_SIZE == 0 && f < PAGE_SIZE && g < PAGE_SIZE
    ensures Or(address + f, g) == address + Or(f, g) && Or(f, g) < PAGE_SIZE
  {
    Pow2Values();
    var q := address / PAGE_SIZE;
    MultipleOf(q, 12);
    assert q * Pow2(12) == address;
    BitOrLow(address, f, g, 12);
    BitOrBound(f, g, 12);
  }

  lemma OrNothing(f: Word)
    ensures Or(0, f) == f
  {
    BitOrZero(f);
  }

  /** Bit k of a word is set in Or exactly when it is set on either side. */
  lemma OrWordBit(a: Word, b: Word, k: nat)
    requires k < 32
    ensures Or(a, b) / Pow2(k) % 2 == 1 <==> a / Pow2(k) % 2 == 1 || b / Pow2(k) % 2 == 1
  {
    OrAndBits(a, b, k);
  }

  /** Setting bit 1 adds 2 unless it is set. */
  lemma OrTwo(f: Word)
    ensures Or(f, 2) == if f / 2 % 2 == 1 then f else f + 2
  {
    BitOrZero(f / 2 / 2);
    assert BitOr(f / 2, 1) == 1 + 2 * BitOr(f / 2 / 2, 0);
  }

  /** Setting flags below 4096 in a page-aligned address adds them. */
  lemma FlagsAdd(address: Word, flags: Word)
    requires address % PAGE_SIZE == 0 && flags < PAGE_SIZE
    ensures Or(address, flags) == address + flags
  {
    OrAboveFlags(address, 0, flags);
    OrNothing(flags);
  }

  /** Masking the flags off again gives the address back. */
  lemma FlagsMaskOff(address: Word, flags: Word)
    requires address % PAGE_SIZE == 0 && flags < PAGE_SIZE
    ensures PageBase(Or(address, flags)) == address
  {
    FlagsAdd(address, flags);
    AlignedPart(address, flags);
  }

  lemma FlagsMaskOffTwice(address: Word, flags: Word, more: Word)
    requires address % PAGE_SIZE == 0 && flags < PAGE_SIZE && more < PAGE_SIZE
    ensures PageBase(Or(Or(address, flags), more)) == address
  {
    FlagsAdd(address, flags);
    OrAboveFlags(address, flags, more);
    AlignedPart(address, Or(flags, more));
  }

  lemma AlignedPart(address: int, low: int)
    requires address % PAGE_SIZE == 0 && 0 <= low < PAGE_SIZE
    ensures (address + low) - (address + low) % PAGE_SIZE == address
  {
  }
}
