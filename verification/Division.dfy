/** Quotient and remainder by a divisor that is not a constant. */
module Division {
  lemma MulGap(a: int, b: int, m: nat)
    requires a < b
    ensures b * m >= a * m + m
  {
    assert (b - a - 1) * m >= 0;
    assert b * m == a * m + m + (b - a - 1) * m;
  }

  lemma UniqueQuotient(q: int, r: int, q': int, r': int, m: nat)
    requires q * m + r == q' * m + r' && 0 <= r < m && 0 <= r' < m
    ensures q == q' && r == r'
  {
    if q < q' { MulGap(q, q', m); }
    if q' < q { MulGap(q', q, m); }
  }

  function Quot(i: nat, m: nat): (q: nat)
    requires m > 0
  { i / m }

  function Rem(i: nat, m: nat): (r: nat)
    requires m > 0
    ensures r < m
  { i % m }

  lemma QuotRem(i: nat, m: nat)
    requires m > 0
    ensures i == Quot(i, m) * m + Rem(i, m)
  {
  }

  lemma QuotIs(i: nat, m: nat, q: nat, r: nat)
    requires i == q * m + r && r < m
    ensures Quot(i, m) == q && Rem(i, m) == r
  {
    QuotRem(i, m);
    hide Quot, Rem;
    UniqueQuotient(q, r, Quot(i, m), Rem(i, m), m);
  }

  lemma WithinBlock(i: nat, m: nat, j: nat)
    requires m > 0 && Rem(i, m) + j < m
    ensures Quot(i + j, m) == Quot(i, m) && Rem(i + j, m) == Rem(i, m) + j
  {
    hide Quot, Rem;
    QuotRem(i, m);
    QuotIs(i + j, m, Quot(i, m), Rem(i, m) + j);
  }

  lemma NextBlock(i: nat, m: nat)
    requires m > 0
    ensures Quot(i + m, m) == Quot(i, m) + 1 && Rem(i + m, m) == Rem(i, m)
  {
    hide Quot, Rem;
    QuotRem(i, m);
    assert (Quot(i, m) + 1) * m == Quot(i, m) * m + m;
    QuotIs(i + m, m, Quot(i, m) + 1, Rem(i, m));
  }

  lemma QuotMono(a: nat, b: nat, m: nat)
    requires m > 0 && a <= b
    ensures Quot(a, m) <= Quot(b, m)
  {
    hide Quot, Rem;
    QuotRem(a, m);
    QuotRem(b, m);
    if Quot(b, m) < Quot(a, m) { MulGap(Quot(b, m), Quot(a, m), m); }
  }

  lemma QuotSmall(i: nat, m: nat)
    requires i < m
    ensures Quot(i, m) == 0 && Rem(i, m) == i
  {
    QuotIs(i, m, 0, i);
  }

  lemma RemSum(a: nat, b: nat, m: nat)
    requires m > 0 && Rem(a, m) == 0 && Rem(b, m) == 0
    ensures Rem(a + b, m) == 0
  {
    hide Quot, Rem;
    QuotRem(a, m);
    QuotRem(b, m);
    assert (Quot(a, m) + Quot(b, m)) * m == Quot(a, m) * m + Quot(b, m) * m;
    QuotIs(a + b, m, Quot(a, m) + Quot(b, m), 0);
  }
}
