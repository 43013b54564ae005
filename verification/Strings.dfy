/** NUL-terminated strings in character buffers, the bounded copy, and the tokeniser
    with its global cursor. */
module Strings {
  import opened Tokenising

  const NUL := '\0'

  /** The index of the terminator of the string at pos; the length if there is none. */
  function Terminator(s: string, pos: nat): (e: nat)
    requires pos <= |s|
    ensures pos <= e <= |s|
  {
    EndFrom(s, [NUL], pos)
  }

  predicate Terminated(s: string, pos: nat) {
    pos < |s| && Terminator(s, pos) < |s|
  }

  /** The C string that starts at pos. */
  function CString(s: string, pos: nat): string
    requires pos <= |s|
  {
    s[pos..Terminator(s, pos)]
  }

  lemma {:induction false} TerminatorIs(s: string, pos: nat, e: nat)
    requires pos <= e < |s| && s[e] == NUL && forall i | pos <= i < e :: s[i] != NUL
    ensures Terminator(s, pos) == e
    decreases e - pos
  {
    if pos < e {
      TerminatorIs(s, pos + 1, e);
    }
  }

  function Cut(s: string, n: nat): (r: string)
    ensures r <= s && |r| == if |s| <= n then |s| else n
  {
    if |s| <= n then s else s[..n]
  }

  /** strncpy: at most count - 1 characters, always terminated. */
  method Strncpy(dest: array<char>, src: array<char>, from: nat, count: nat)
    requires 1 <= count <= dest.Length && dest != src && Terminated(src[..], from)
    modifies dest
    ensures Terminated(dest[..], 0) && CString(dest[..], 0) == Cut(CString(src[..], from), count - 1)
  {
    ghost var text := CString(src[..], from);
    var i := 0;
    while i < count - 1
      invariant 0 <= i <= count - 1 && i <= |text|
      invariant forall j | 0 <= j < i :: dest[j] == text[j]
    {
      assert i < |text| ==> src[from + i] == text[i];
      if src[from + i] == NUL {
        break;
      }
      dest[i] := src[from + i];
      i := i + 1;
    }
    dest[i] := NUL;
    TerminatorIs(dest[..], 0, i);
  }

  datatype Ptr = Null | At(buf: array<char>, pos: nat)

  ghost predicate ValidPtr(p: Ptr)
    reads if p.At? then {p.buf} else {}
  {
    p.At? ==> Terminated(p.buf[..], p.pos)
  }

  ghost function Text(p: Ptr): string
    requires p.At? && ValidPtr(p)
    reads if p.At? then {p.buf} else {}
  {
    CString(p.buf[..], p.pos)
  }

  /** A terminated string cut at one of its own positions is two strings. */
  lemma CutString(s: string, pos: nat, k: nat, e: nat)
    requires Terminated(s, pos) && k <= e <= |CString(s, pos)|
    ensures var text, s' := CString(s, pos), if e < |CString(s, pos)| then s[pos + e := NUL] else s;
            && Terminated(s', pos + k) && CString(s', pos + k) == text[k..e]
            && Terminated(s', pos + Past(text, e)) && CString(s', pos + Past(text, e)) == text[Past(text, e)..]
  {
    var text, z := CString(s, pos), Terminator(s, pos);
    var s' := if e < |text| then s[pos + e := NUL] else s;
    TerminatorIs(s', pos + k, pos + e);
    var part := s'[pos + k..pos + e];
    assert forall j | 0 <= j < e - k :: part[j] == s'[pos + k + j] == s[pos + k + j] == text[k + j];
    assert part == text[k..e];
    TerminatorIs(s', pos + Past(text, e), z);
  }

  /** What one call makes of the string s that was at pos: no word left and no cursor,
      or the first word, cut off in place, with the cursor on what is behind it. */
  ghost predicate Tokenised(buf: array<char>, pos: nat, s: string, d: string, token: Ptr, sp: Ptr)
    requires Terminated(s, pos)
    reads buf
  {
    var text := CString(s, pos);
    var k := SkipFrom(text, d, 0);
    if k == |text| then token == Null && sp == Null && buf[..] == s
    else
      var e := EndFrom(text, d, k);
      && token == At(buf, pos + k) && sp == At(buf, pos + Past(text, e))
      && buf[..] == (if e < |text| then s[pos + e := NUL] else s)
      && ValidPtr(token) && Text(token) == text[k..e]
      && ValidPtr(sp) && Text(sp) == text[Past(text, e)..]
  }

  lemma NoWord(buf: array<char>, pos: nat, s: string, d: string)
    requires Terminated(s, pos) && SkipFrom(CString(s, pos), d, 0) == |CString(s, pos)| && buf[..] == s
    ensures Tokenised(buf, pos, s, d, Null, Null)
  {
  }

  lemma WordTaken(buf: array<char>, pos: nat, s: string, d: string)
    requires Terminated(s, pos)
    requires var text := CString(s, pos);
             var k := SkipFrom(text, d, 0);
             k < |text| && var e := EndFrom(text, d, k); buf[..] == if e < |text| then s[pos + e := NUL] else s
    ensures var text := CString(s, pos);
            var k := SkipFrom(text, d, 0);
            var e := EndFrom(text, d, k);
            && ValidPtr(At(buf, pos + Past(text, e)))
            && Tokenised(buf, pos, s, d, At(buf, pos + k), At(buf, pos + Past(text, e)))
  {
    hide Terminator, CString, SkipFrom, EndFrom;
    var text := CString(s, pos);
    var k := SkipFrom(text, d, 0);
    CutString(s, pos, k, EndFrom(text, d, k));
  }

  class Tokenizer {
    var sp: Ptr

    constructor ()
      ensures sp == Null
    {
      sp := Null;
    }

    /** The string a call works on: the saved cursor if there is one, else the argument. */
    function Cursor(str: Ptr): Ptr
      reads this
    {
      if sp == Null then str else sp
    }

    ghost predicate Ready(str: Ptr)
      reads this, if Cursor(str).At? then {Cursor(str).buf} else {}
    {
      ValidPtr(Cursor(str))
    }

    method Strtok(str: Ptr, delimiters: string) returns (token: Ptr)
      requires Ready(str) && NUL !in delimiters
      modifies this, if Cursor(str).At? then {Cursor(str).buf} else {}
      ensures ValidPtr(sp)
      ensures old(Cursor(str)) == Null ==> token == Null && sp == Null
      ensures old(Cursor(str)).At? ==>
                Tokenised(old(Cursor(str)).buf, old(Cursor(str)).pos, old(Cursor(str).buf[..]), delimiters, token, sp)
    {
      if str == Null && sp == Null {
        return Null;
      }
      if sp == Null {
        sp := str;
      }
      hide Tokenised, Terminated;
      var buf, start := sp.buf, sp.pos;
      token, sp := NextToken(buf, start, delimiters);
    }
  }

  /** strtok once its cursor is known: the word, and the new cursor. */
  method NextToken(buf: array<char>, start: nat, delimiters: string) returns (token: Ptr, next: Ptr)
    requires Terminated(buf[..], start) && NUL !in delimiters
    modifies buf
    ensures ValidPtr(next) && Tokenised(buf, start, old(buf[..]), delimiters, token, next)
  {
    hide Terminator, CString, SkipFrom, EndFrom, Tokenised;
    ghost var s, text := buf[..], CString(buf[..], start);
    var pStart := SkipDelimiters(buf, start, delimiters);
    StringAt(s, start, SkipFrom(text, delimiters, 0));
    if buf[pStart] == NUL {
      NoWord(buf, start, s, delimiters);
      return Null, Null;
    }
    var cursor := ScanWord(buf, start, pStart, delimiters);
    WordTaken(buf, start, s, delimiters);
    return At(buf, pStart), At(buf, cursor);
  }

  /** Position k of a string: its character, or the terminator at its end. */
  lemma StringAt(s: string, pos: nat, k: nat)
    requires Terminated(s, pos) && k <= |CString(s, pos)|
    ensures pos + k < |s| && s[pos + k] == (if k < |CString(s, pos)| then CString(s, pos)[k] else NUL)
    ensures k < |CString(s, pos)| ==> s[pos + k] != NUL
  {
  }

  /** The first loop of strtok: past the delimiters from start on. */
  method SkipDelimiters(buf: array<char>, start: nat, delimiters: string) returns (p: nat)
    requires Terminated(buf[..], start) && NUL !in delimiters
    ensures p == start + SkipFrom(CString(buf[..], start), delimiters, 0)
  {
    hide Terminator, CString;
    ghost var s, text := buf[..], CString(buf[..], start);
    p := start;
    while true
      invariant start <= p <= start + |text|
      invariant SkipFrom(text, delimiters, p - start) == SkipFrom(text, delimiters, 0)
      decreases start + |text| - p
    {
      StringAt(s, start, p - start);
      var i := FindDelimiter(buf[p], delimiters);
      if i == |delimiters| {
        break;
      }
      p := p + 1;
    }
  }

  /** The second loop of strtok: to the end of the word at p, whose delimiter, if it
      has one, becomes a terminator. */
  method ScanWord(buf: array<char>, ghost start: nat, p: nat, delimiters: string) returns (cursor: nat)
    requires Terminated(buf[..], start) && NUL !in delimiters
    requires start <= p <= start + |CString(buf[..], start)|
    modifies buf
    ensures var s, text := old(buf[..]), CString(old(buf[..]), start);
            var e := EndFrom(text, delimiters, p - start);
            cursor == start + Past(text, e) && buf[..] == if e < |text| then s[start + e := NUL] else s
  {
    hide Terminator, CString;
    ghost var s, text := buf[..], CString(buf[..], start);
    StringAt(s, start, p - start);
    cursor := p;
    while buf[cursor] != NUL
      invariant p <= cursor <= start + |text| && cursor < |s|
      invariant EndFrom(text, delimiters, cursor - start) == EndFrom(text, delimiters, p - start)
      invariant buf[..] == s
      decreases start + |text| - cursor
    {
      StringAt(s, start, cursor - start);
      var i := FindDelimiter(buf[cursor], delimiters);
      if i < |delimiters| {
        buf[cursor] := NUL;
      } else {
        StringAt(s, start, cursor - start + 1);
      }
      cursor := cursor + 1;
      if i < |delimiters| {
        return;
      }
    }
    StringAt(s, start, cursor - start);
  }

  /** The index of c among the delimiters, or their number. */
  method FindDelimiter(c: char, delimiters: string) returns (i: nat)
    ensures i <= |delimiters|
    ensures i < |delimiters| <==> c in delimiters
  {
    i := 0;
    while i < |delimiters|
      invariant i <= |delimiters| && c !in delimiters[..i]
    {
      if c == delimiters[i] {
        return;
      }
      i := i + 1;
    }
  }
}
