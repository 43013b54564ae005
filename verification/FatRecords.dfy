/** What a directory record says, byte by byte: its name, its attribute, its cluster. */
module FatRecords {
  import opened DiskStreams
  import opened FatChains
  import opened FatNames

  // ---- names

  /** Neither zero nor blank. */
  predicate Text(s: seq<Byte>) {
    forall i | 0 <= i < |s| :: s[i] != 0 && s[i] != 0x20
  }

  /** A field of n bytes: the text, padded with blanks. */
  function Padded(s: seq<Byte>, n: nat): (r: seq<Byte>)
    requires |s| <= n
    ensures |r| == n
  {
    s + seq(n - |s|, _ => 0x20)
  }

  /** The stem, and a dot and the extension if there is one. */
  function NameText(stem: seq<Byte>, ext: seq<Byte>): seq<Byte> {
    if ext == [] then stem else stem + [0x2e] + ext
  }

  predicate ValidName(stem: seq<Byte>, ext: seq<Byte>) {
    1 <= |stem| <= 8 && |ext| <= 3 && Text(stem) && Text(ext)
  }

  lemma {:induction false} TrimmedPadded(s: seq<Byte>, n: nat)
    requires |s| <= n && Text(s)
    ensures Trimmed(Padded(s, n)) == s
    decreases n
  {
    var field := Padded(s, n);
    if s != [] {
      assert field[1..] == Padded(s[1..], n - 1);
      TrimmedPadded(s[1..], n - 1);
      assert s == [s[0]] + s[1..];
    } else if n > 0 {
      assert field[0] == 0x20;
    }
  }

  /** Of any field the part in front of the first zero or blank is the text. */
  lemma {:induction false} TrimmedExactly(field: seq<Byte>)
    ensures Text(Trimmed(field)) && Trimmed(field) <= field
    ensures var n := |Trimmed(field)|; n < |field| ==> field[n] == 0 || field[n] == 0x20
  {
    if field != [] {
      TrimmedExactly(field[1..]);
    }
  }

  /** A record whose first eleven bytes are a padded stem and a padded extension has the
      name written with a dot between them. */
  lemma NameOfRecord(r: Record, stem: seq<Byte>, ext: seq<Byte>)
    requires ValidName(stem, ext) && r[..8] == Padded(stem, 8) && r[8..11] == Padded(ext, 3)
    ensures FullName(r) == NameText(stem, ext)
  {
    TrimmedPadded(stem, 8);
    TrimmedPadded(ext, 3);
    assert r[8] == r[8..11][0];
    if ext != [] { assert r[8] == ext[0]; } else { assert r[8] == 0x20; }
  }

  predicate NoDot(s: seq<Byte>) {
    forall i | 0 <= i < |s| :: s[i] != 0x2e
  }

  lemma StemNotLonger(stem: seq<Byte>, ext: seq<Byte>, stem': seq<Byte>, ext': seq<Byte>)
    requires NoDot(stem') && NameText(stem, ext) == NameText(stem', ext')
    ensures |stem'| <= |stem|
  {
    var a := NameText(stem, ext);
    assert |a| > |stem| ==> a[|stem|] == 0x2e;
    assert forall i | 0 <= i < |stem'| :: a[i] == stem'[i];
  }

  /** Names without other dots tell stem and extension apart. */
  lemma NameTextUnique(stem: seq<Byte>, ext: seq<Byte>, stem': seq<Byte>, ext': seq<Byte>)
    requires NoDot(stem) && NoDot(stem') && NameText(stem, ext) == NameText(stem', ext')
    ensures stem == stem' && ext == ext'
  {
    StemNotLonger(stem, ext, stem', ext');
    StemNotLonger(stem', ext', stem, ext);
    var a := NameText(stem, ext);
    assert stem == a[..|stem|] && stem' == a[..|stem|];
    assert ext == (if |a| == |stem| then [] else a[|stem| + 1..]);
    assert ext' == (if |a| == |stem| then [] else a[|stem| + 1..]);
  }

  /** A padded record has a name exactly when its bytes are those of the name. */
  lemma NameExactly(r: Record, stem: seq<Byte>, ext: seq<Byte>, stem': seq<Byte>, ext': seq<Byte>)
    requires ValidName(stem, ext) && ValidName(stem', ext') && NoDot(stem) && NoDot(stem')
    requires r[..8] == Padded(stem', 8) && r[8..11] == Padded(ext', 3)
    ensures FullName(r) == NameText(stem, ext) <==> r[..8] == Padded(stem, 8) && r[8..11] == Padded(ext, 3)
  {
    NameOfRecord(r, stem', ext');
    if r[..8] == Padded(stem, 8) && r[8..11] == Padded(ext, 3) {
      NameOfRecord(r, stem, ext);
    }
    if FullName(r) == NameText(stem, ext) {
      NameTextUnique(stem, ext, stem', ext');
    }
  }

  /** Two bytes are alike if they are equal, or a letter and its capital. */
  lemma LettersAlike(a: Byte, b: Byte)
    ensures SameName([a], [b]) <==>
              a == b || (65 <= a <= 90 && b == a + 32) || (65 <= b <= 90 && a == b + 32)
  {
    assert SameName([a], [b]) ==> ToLower([a][0]) == ToLower([b][0]);
  }

  /** Names are alike if they are of one length and alike byte for byte. */
  lemma NamesAlike(a: seq<Byte>, b: seq<Byte>)
    ensures SameName(a, b) <==> |a| == |b| && forall i | 0 <= i < |a| :: SameName([a[i]], [b[i]])
  {
    forall i | 0 <= i < |a| && |a| == |b|
      ensures SameName([a[i]], [b[i]]) <==> ToLower(a[i]) == ToLower(b[i])
    {
      assert SameName([a[i]], [b[i]]) ==> ToLower([a[i]][0]) == ToLower([b[i]][0]);
    }
  }

  // ---- attribute and cluster

  /** The attribute byte marks a directory exactly when its bit of value 16 is set. */
  lemma DirectoryBit(r: Record)
    ensures IsDirectory(r) <==> r[11] % 32 >= 16
  {
  }

  /** The four bytes of a cluster number, low word and high word apart. */
  lemma ClusterBytes(r: Record, c: nat)
    requires c < 0x1_0000_0000
    ensures FirstCluster(r) == c <==>
              && r[26] == c % 0x100 && r[27] == c / 0x100 % 0x100
              && r[20] == c / 0x1_0000 % 0x100 && r[21] == c / 0x100_0000
  {
    var low, high := c % 0x1_0000, c / 0x1_0000;
    TwoBytes(low);
    TwoBytes(high);
    OneWord(r[26], r[27], low);
    OneWord(r[20], r[21], high);
    assert c / 0x100_0000 == high / 0x100 && c / 0x100 % 0x100 == low / 0x100 && c % 0x100 == low % 0x100;
    var w, u := Word16(r[26], r[27]), Word16(r[20], r[21]);
    assert 0 <= w < 0x1_0000;
    assert w + 0x1_0000 * u == low + 0x1_0000 * high <==> w == low && u == high;
  }

  lemma TwoBytes(w: int)
    requires 0 <= w < 0x1_0000
    ensures w == w % 0x100 + 0x100 * (w / 0x100) && 0 <= w / 0x100 < 0x100
  {
  }

  lemma OneWord(a: Byte, b: Byte, w: int)
    requires 0 <= w < 0x1_0000
    ensures Word16(a, b) == w <==> a == w % 0x100 && b == w / 0x100
    ensures 0 <= Word16(a, b) < 0x1_0000
  {
  }
}
