/** The values that end a cluster chain: those of the code beside those of Microsoft's FAT
    specification (section "FAT Data Structure"), and what the difference does to a file. */
module FatStops {
  import opened DiskStreams
  import opened FatChains

  /** For FAT16: a free cluster, the bad cluster mark, and every end of chain mark. */
  predicate SpecStops(entry: int) {
    entry == 0 || entry == 0xfff7 || 0xfff8 <= entry <= 0xffff
  }

  /** The cluster n links after c by the specification. */
  function SpecFollow(v: Volume, c: nat, n: nat): Option<nat>
    decreases n
  {
    if n == 0 then Some(c)
    else if SpecStops(FatEntry(v, c)) then None
    else SpecFollow(v, FatEntry(v, c), n - 1)
  }

  /** The entries on which the two differ, written out. */
  lemma StopsDiffer(entry: nat)
    requires entry < 0x1_0000
    ensures Stops(entry) && !SpecStops(entry) <==> entry == 0xff0 || entry == 0xff6 || entry == 0xff7
    ensures !Stops(entry) && SpecStops(entry) <==> entry == 0xfff7 || 0xfff9 <= entry <= 0xfffe
  {
  }

  /** The code reads the entry of cluster j of the chain as the specification does. */
  predicate SameStop(v: Volume, start: nat, j: nat) {
    match Follow(v, start, j)
    case None => true
    case Some(c) => Stops(FatEntry(v, c)) == SpecStops(FatEntry(v, c))
  }

  /** The chains agree for n links exactly when no entry met on the walk is one on which
      the stop values differ. */
  lemma {:induction false} ChainsAgreeExactly(v: Volume, start: nat, n: nat)
    ensures (forall j | 0 <= j <= n :: Follow(v, start, j) == SpecFollow(v, start, j))
            <==> forall j | 0 <= j < n :: SameStop(v, start, j)
  {
    hide Stops, SpecStops, FatEntry;
    hide Follow, SpecFollow, SameStop;
    if n > 0 {
      var k := n - 1;
      ChainsAgreeExactly(v, start, k);
      if forall j | 0 <= j < k :: SameStop(v, start, j) {
        assert Follow(v, start, k) == SpecFollow(v, start, k);
        LastLink(v, start, k);
        assert SameStop(v, start, k) <==> Follow(v, start, n) == SpecFollow(v, start, n);
      } else {
        var j :| 0 <= j <= k && Follow(v, start, j) != SpecFollow(v, start, j);
      }
    } else {
      BothStart(v, start);
    }
  }

  lemma BothStart(v: Volume, start: nat)
    ensures Follow(v, start, 0) == SpecFollow(v, start, 0)
  {
  }

  lemma LastLink(v: Volume, start: nat, j: nat)
    requires Follow(v, start, j) == SpecFollow(v, start, j)
    ensures Follow(v, start, j + 1) == SpecFollow(v, start, j + 1) <==> SameStop(v, start, j)
  {
    hide Stops, SpecStops, FatEntry;
    FollowFurther(v, start, j, 1);
    SpecFollowFurther(v, start, j, 1);
    match Follow(v, start, j)
    case None =>
    case Some(c) =>
      OneLink(v, c);
      assert SpecStops(FatEntry(v, c)) || SpecFollow(v, FatEntry(v, c), 0) == Some(FatEntry(v, c));
  }

  lemma {:induction false} SpecFollowFurther(v: Volume, c: nat, n: nat, m: nat)
    ensures SpecFollow(v, c, n + m) ==
            match SpecFollow(v, c, n) { case None => None case Some(d) => SpecFollow(v, d, m) }
    decreases n
  {
    if n > 0 && !SpecStops(FatEntry(v, c)) {
      SpecFollowFurther(v, FatEntry(v, c), n - 1, m);
    }
  }
}
