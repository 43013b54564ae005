/** Directory records and their 8.3 names, and finding a name among records. */
module FatNames {
  import opened DiskStreams
  import opened FatChains

  const RECORD_SIZE := 32
  const NAME_SIZE := 8
  const EXT_SIZE := 3
  const MAX_PATH := 108
  const DELETED := 0xe5
  const DOT := 0x2e

  /** A directory entry as it lies on the disk. */
  type Record = r: seq<Byte> | |r| == RECORD_SIZE witness seq(RECORD_SIZE, _ => 0)

  predicate IsDirectory(r: Record) {
    r[11] / 0x10 % 2 == 1
  }

  function FirstCluster(r: Record): nat {
    Word16(r[26], r[27]) + 0x1_0000 * Word16(r[20], r[21])
  }

  function Word16(low: int, high: int): int {
    low + 256 * high
  }

  predicate Blank(b: Byte) {
    b == 0 || b == 0x20
  }

  /** A padded field up to its first blank. */
  function Trimmed(field: seq<Byte>): seq<Byte> {
    if field == [] || Blank(field[0]) then [] else [field[0]] + Trimmed(field[1..])
  }

  /** The name, and the extension behind a dot if there is one. */
  function FullName(r: Record): seq<Byte> {
    Trimmed(r[..NAME_SIZE]) +
    if Blank(r[NAME_SIZE]) then [] else [DOT] + Trimmed(r[NAME_SIZE..NAME_SIZE + EXT_SIZE])
  }

  function ToLower(b: Byte): Byte {
    if 65 <= b <= 90 then b + 32 else b
  }

  /** Equal but for the case of letters. */
  predicate SameName(a: seq<Byte>, b: seq<Byte>) {
    |a| == |b| && forall i | 0 <= i < |a| :: ToLower(a[i]) == ToLower(b[i])
  }

  predicate Matches(r: Record, name: seq<Byte>) {
    SameName(FullName(r), name)
  }

  /** The last record with the name: the search does not stop at the first. */
  function FindLast(records: seq<Record>, name: seq<Byte>): Option<Record> {
    if records == [] then None
    else if Matches(records[|records| - 1], name) then Some(records[|records| - 1])
    else FindLast(records[..|records| - 1], name)
  }

  ghost predicate UniqueNames(records: seq<Record>) {
    forall i, j | 0 <= i < j < |records| :: !SameName(FullName(records[i]), FullName(records[j]))
  }

  /** None is found exactly when none matches; otherwise the last match is. */
  lemma {:induction false} FindLastIs(records: seq<Record>, name: seq<Byte>)
    ensures FindLast(records, name).None? <==> forall i | 0 <= i < |records| :: !Matches(records[i], name)
    ensures FindLast(records, name).Some? ==>
              exists k :: 0 <= k < |records| && records[k] == FindLast(records, name).value && Matches(records[k], name)
                          && forall i | k < i < |records| :: !Matches(records[i], name)
  {
    hide Matches;
    if records != [] && !Matches(records[|records| - 1], name) {
      var init := records[..|records| - 1];
      FindLastIs(init, name);
      if FindLast(init, name).Some? {
        var k :| 0 <= k < |init| && init[k] == FindLast(init, name).value && Matches(init[k], name)
                 && forall i | k < i < |init| :: !Matches(init[i], name);
        assert records[k] == init[k];
        assert forall i | k < i < |init| :: records[i] == init[i];
      } else {
        assert forall i | 0 <= i < |init| :: records[i] == init[i];
      }
    }
  }

  /** With unique names the record found is the one that matches, whichever it is. */
  lemma FindIsMatch(records: seq<Record>, name: seq<Byte>, k: nat)
    requires UniqueNames(records) && k < |records|
    ensures FindLast(records, name) == Some(records[k]) <== Matches(records[k], name)
  {
    hide FindLast, FullName;
    FindLastIs(records, name);
    if Matches(records[k], name) {
      var i :| 0 <= i < |records| && records[i] == FindLast(records, name).value && Matches(records[i], name);
      AlikeThrough(FullName(records[i]), FullName(records[k]), name);
    }
  }

  lemma AlikeThrough(a: seq<Byte>, b: seq<Byte>, c: seq<Byte>)
    requires SameName(a, c) && SameName(b, c)
    ensures SameName(a, b) && SameName(b, a)
  {
  }

  // ---- the loops over names

  lemma {:induction false} TrimmedStep(field: seq<Byte>, n: nat)
    requires n < |field| && forall i | 0 <= i < n :: !Blank(field[i])
    ensures if Blank(field[n]) then Trimmed(field) == field[..n]
            else Trimmed(field[..n + 1]) == field[..n + 1] && (n + 1 == |field| ==> Trimmed(field) == field)
  {
    if n > 0 {
      TrimmedStep(field[1..], n - 1);
      assert field[1..][..n - 1] == field[1..n];
      assert field[..n + 1][1..] == field[1..][..n];
      assert field[..n] == [field[0]] + field[1..n];
      assert field[..n + 1] == [field[0]] + field[1..][..n];
    } else {
      assert field[..1][1..] == [];
    }
  }

  /** fat16_to_proper_string: appends the trimmed field. */
  method ToProperString(field: seq<Byte>) returns (out: seq<Byte>)
    requires field != []
    ensures out == Trimmed(field)
  {
    out := [];
    var i := 0;
    while !Blank(field[i])
      invariant 0 <= i < |field| && out == field[..i]
      invariant forall j | 0 <= j < i :: !Blank(field[j])
      decreases |field| - i
    {
      TrimmedStep(field, i);
      out := out + [field[i]];
      if i >= |field| - 1 {
        return;
      }
      i := i + 1;
    }
    TrimmedStep(field, i);
  }

  /** fat16_get_full_relative_filename. */
  method GetFullName(r: Record) returns (name: seq<Byte>)
    ensures name == FullName(r)
  {
    name := ToProperString(r[..NAME_SIZE]);
    if r[NAME_SIZE] != 0 && r[NAME_SIZE] != 0x20 {
      var ext := ToProperString(r[NAME_SIZE..NAME_SIZE + EXT_SIZE]);
      name := name + [DOT] + ext;
      assert name == FullName(r);
    }
  }

  lemma {:induction false} TrimmedIsText(field: seq<Byte>)
    ensures |Trimmed(field)| <= |field| && 0 !in Trimmed(field)
  {
    if field != [] {
      TrimmedIsText(field[1..]);
    }
  }

  lemma FullNameIsText(r: Record)
    ensures |FullName(r)| <= NAME_SIZE + 1 + EXT_SIZE && 0 !in FullName(r)
  {
    TrimmedIsText(r[..NAME_SIZE]);
    TrimmedIsText(r[NAME_SIZE..NAME_SIZE + EXT_SIZE]);
  }

  /** istrncmp on two terminated strings equals 0 exactly for names alike but for case. */
  method CompareNames(a: seq<Byte>, b: seq<Byte>, n: nat) returns (res: int)
    requires 0 !in a && 0 !in b && |a| < n
    ensures res == 0 <==> SameName(a, b)
  {
    var i := 0;
    while i < n
      invariant 0 <= i <= n && i <= |a| && i <= |b|
      invariant forall j | 0 <= j < i :: ToLower(a[j]) == ToLower(b[j])
    {
      var u1: Byte, u2: Byte := if i < |a| then a[i] else 0, if i < |b| then b[i] else 0;
      if u1 != u2 && ToLower(u1) != ToLower(u2) {
        return u1 - u2;
      }
      if u1 == 0 {
        return 0;
      }
      i := i + 1;
    }
    res := 0;
  }
}
