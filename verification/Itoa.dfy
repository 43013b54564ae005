/** itoa: decimal numerals of 32-bit integers, written right to left. */
module Itoa {
  const NUL := '\0'
  const TEXT_SIZE := 12

  type Int32 = i: int | -0x8000_0000 <= i < 0x8000_0000

  /** C's division and remainder by 10, truncating toward zero. */
  function Quotient(i: int): int {
    if i < 0 then -((-i) / 10) else i / 10
  }

  function Remainder(i: int): int {
    i - 10 * Quotient(i)
  }

  function Digit(d: int): char
    requires 0 <= d < 10
  {
    ('0' as int + d) as char
  }

  function Pow10(k: nat): (p: nat)
    ensures p >= 1
  {
    if k == 0 then 1 else 10 * Pow10(k - 1)
  }

  // ---- numerals, defined by what they are worth

  predicate Digits(s: string) {
    forall i | 0 <= i < |s| :: '0' <= s[i] <= '9'
  }

  /** The value of a string of digits. */
  function Worth(s: string): nat
    requires Digits(s)
  {
    if s == [] then 0
    else 10 * Worth(s[..|s| - 1]) + (s[|s| - 1] as int - '0' as int)
  }

  /** A minus sign only in front of a negative number, and no leading zeros. */
  predicate Canonical(s: string) {
    s == "0" || (Unsigned(s) != [] && Digits(Unsigned(s)) && Unsigned(s)[0] != '0')
  }

  function Unsigned(s: string): string {
    if s != [] && s[0] == '-' then s[1..] else s
  }

  function Value(s: string): int
    requires Canonical(s)
  {
    var n: int := Worth(Unsigned(s));
    if s != [] && s[0] == '-' then -n else n
  }

  // ---- numerals, digit by digit

  function Decimal(n: nat): (s: string)
  {
    if n == 0 then "" else Decimal(n / 10) + [Digit(n % 10)]
  }

  function Numeral(i: int): string {
    if i == 0 then "0" else if i < 0 then "-" + Decimal(-i) else Decimal(i)
  }

  lemma {:induction false} DecimalIsWorth(n: nat)
    ensures Digits(Decimal(n)) && Worth(Decimal(n)) == n
    ensures n > 0 ==> Decimal(n) != [] && Decimal(n)[0] != '0'
  {
    if n > 0 {
      DecimalIsWorth(n / 10);
      var s := Decimal(n);
      assert s[..|s| - 1] == Decimal(n / 10);
      if n >= 10 { assert s[0] == Decimal(n / 10)[0]; }
    }
  }

  lemma {:induction false} WorthIsDecimal(s: string)
    requires Digits(s) && (s == [] || s[0] != '0')
    ensures s == Decimal(Worth(s))
  {
    if s != [] {
      var init := s[..|s| - 1];
      WorthIsDecimal(init);
      if init != [] { DecimalPositive(init); }
      var d := s[|s| - 1] as int - '0' as int;
      assert Worth(s) == 10 * Worth(init) + d && Worth(s) / 10 == Worth(init) && Worth(s) % 10 == d;
      assert s == init + [Digit(d)];
    }
  }

  lemma DecimalPositive(s: string)
    requires s != [] && Digits(s) && s == Decimal(Worth(s))
    ensures Worth(s) > 0
  {
  }

  function Magnitude(i: int): nat {
    if i < 0 then -i else i
  }

  lemma NumeralMeans(i: int)
    ensures Canonical(Numeral(i)) && Value(Numeral(i)) == i
  {
    DecimalIsWorth(Magnitude(i));
    hide Decimal, Worth;
    if i == 0 {
      ZeroIsWorthless();
    } else if i < 0 {
      assert Unsigned(Numeral(i)) == Decimal(-i);
    } else {
      assert Unsigned(Numeral(i)) == Decimal(i) by { assert Decimal(i)[0] != '-'; }
    }
  }

  lemma ZeroIsWorthless()
    ensures Worth("0") == 0 && Digits("0")
  {
    assert "0"[..0] == "";
  }

  lemma MeansNumeral(s: string)
    requires Canonical(s)
    ensures s == Numeral(Value(s))
  {
    if s == "0" {
      ZeroIsWorthless();
    } else {
      WorthIsDecimal(Unsigned(s));
      DecimalPositive(Unsigned(s));
      hide Decimal, Worth;
      if s[0] == '-' { assert s == "-" + Unsigned(s); }
    }
  }

  /** A string is the numeral of i exactly when it is canonical and worth i. */
  lemma NumeralExactly(s: string, i: int)
    ensures s == Numeral(i) <==> Canonical(s) && Value(s) == i
  {
    hide Canonical, Value, Numeral;
    NumeralMeans(i);
    if Canonical(s) { MeansNumeral(s); }
  }

  /** itoa on its 12-byte buffer: the numeral of i ends at the terminator. */
  method Itoa(text: array<char>, i: Int32) returns (loc: nat)
    requires text.Length == TEXT_SIZE
    modifies text
    ensures loc < TEXT_SIZE - 1 && text[TEXT_SIZE - 1] == NUL
    ensures text[loc..TEXT_SIZE - 1] == Numeral(i)
  {
    hide Decimal, Pow10, Quotient, Remainder, Digit;
    loc := 11;
    text[11] := NUL;
    var neg := true;
    var n: int := i;
    if n >= 0 {
      neg := false;
      n := -n;
    }
    ghost var m := -n;
    PowersOfTen();
    while n != 0
      invariant n <= 0 && 1 <= loc <= 11 && -n < Pow10(loc - 1)
      invariant text[11] == NUL
      invariant Decimal(m) == Decimal(-n) + text[loc..11]
      invariant loc == 11 <==> n == -m
      decreases -n
    {
      DigitOff(n, loc - 1);
      loc := WriteBefore(text, loc, ('0' as int - Remainder(n)) as char);
      n := Quotient(n);
    }
    if loc == 11 {
      loc := WriteBefore(text, loc, '0');
    }
    if neg {
      loc := WriteBefore(text, loc, '-');
    }
  }

  /** text[--loc] = c. */
  method WriteBefore(text: array<char>, loc: nat, c: char) returns (before: nat)
    requires text.Length == TEXT_SIZE && 1 <= loc <= 11
    modifies text
    ensures before == loc - 1 && text[before..11] == [c] + old(text[loc..11]) && text[11] == old(text[11])
  {
    before := loc - 1;
    text[before] := c;
  }

  /** Taking the last digit off a number, negated as in the loop, leaves room for one
      digit less. */
  lemma DigitOff(n: int, k: nat)
    requires n < 0 && -n < Pow10(k)
    ensures k >= 1 && n < Quotient(n) <= 0 && -Quotient(n) < Pow10(k - 1) && -9 <= Remainder(n) <= 0
    ensures Decimal(-n) == Decimal(-Quotient(n)) + [('0' as int - Remainder(n)) as char]
  {
    var m := -n;
    assert Quotient(n) == -(m / 10) && Remainder(n) == -(m % 10);
  }

  lemma PowersOfTen()
    ensures 0x8000_0000 < Pow10(10) && Decimal(0) == ""
  {
    assert Pow10(5) == 100_000;
  }

  /** What the numeral printed for an integer says is that integer, for every one of
      them, INT_MIN included, and it fits the buffer. */
  lemma ItoaRoundTrip(i: Int32)
    ensures Canonical(Numeral(i)) && Value(Numeral(i)) == i
    ensures |Numeral(i)| < TEXT_SIZE
  {
    NumeralMeans(i);
    PowersOfTen();
    DecimalLength(Magnitude(i), 10);
  }

  lemma {:induction false} DecimalLength(n: nat, k: nat)
    requires n < Pow10(k)
    ensures |Decimal(n)| <= k
  {
    if n > 0 {
      DecimalLength(n / 10, k - 1);
    }
  }
}
