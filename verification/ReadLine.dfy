/** simpos_terminal_readline: a line edited key by key, with a position that moves both
    ways. The keys typed are a parameter; echoing them is the terminal's affair. */
module ReadLine {
  import opened Tokenising
  import opened Strings

  const ENTER := 13 as char
  const BACKSPACE := 8 as char

  datatype Line = Typing(text: string) | Done(text: string)

  /** What the line is after some keys: a zero is no key, backspace takes a character back
      if there is one, and the line is done at enter or when it has cap characters. */
  function Edit(t: string, keys: string, cap: int): Line
    decreases |keys|
  {
    if |t| >= cap then Done(t)
    else if keys == [] then Typing(t)
    else if keys[0] == NUL then Edit(t, keys[1..], cap)
    else if keys[0] == ENTER then Done(t)
    else if keys[0] == BACKSPACE && t != [] then Edit(t[..|t| - 1], keys[1..], cap)
    else Edit(t + [keys[0]], keys[1..], cap)
  }

  predicate Printing(c: char) {
    c != NUL && c != ENTER && c != BACKSPACE
  }

  /** The text of a line: no zero, no enter, and a backspace only as its first character,
      where there was nothing to take back. */
  predicate LineText(t: string) {
    NUL !in t && ENTER !in t && forall i | 1 <= i < |t| :: t[i] != BACKSPACE
  }

  lemma {:induction false} EditIsText(t: string, keys: string, cap: int)
    requires LineText(t)
    ensures LineText(Edit(t, keys, cap).text)
    ensures |t| <= cap ==> |Edit(t, keys, cap).text| <= cap
    ensures Edit(t, keys, cap).Typing? ==> |Edit(t, keys, cap).text| < cap
    decreases |keys|
  {
    if |t| < cap && keys != [] {
      EditIsText(t, keys[1..], cap);
      if keys[0] == BACKSPACE && t != [] {
        EditIsText(t[..|t| - 1], keys[1..], cap);
      } else if keys[0] != NUL && keys[0] != ENTER {
        EditIsText(t + [keys[0]], keys[1..], cap);
      }
    }
  }

  /** More keys go on from the line as it was, unless it was done. */
  lemma {:induction false} EditFurther(t: string, keys: string, more: string, cap: int)
    ensures Edit(t, keys + more, cap) ==
            match Edit(t, keys, cap) { case Done(u) => Done(u) case Typing(u) => Edit(u, more, cap) }
    decreases |keys|
  {
    if keys == [] {
      assert keys + more == more;
    } else if |t| < cap {
      assert (keys + more)[1..] == keys[1..] + more;
      if keys[0] == NUL {
        EditFurther(t, keys[1..], more, cap);
      } else if keys[0] == BACKSPACE && t != [] {
        EditFurther(t[..|t| - 1], keys[1..], more, cap);
      } else if keys[0] != ENTER {
        EditFurther(t + [keys[0]], keys[1..], more, cap);
      }
    }
  }

  lemma Corrected(t: string, c: char, rest: string, cap: int)
    requires Printing(c) && |t| + 1 != cap
    ensures Edit(t, [c, BACKSPACE] + rest, cap) == Edit(t, rest, cap)
  {
    if |t| + 1 < cap {
      var keys := [c, BACKSPACE] + rest;
      assert keys[1..] == [BACKSPACE] + rest && keys[1..][1..] == rest;
      assert (t + [c])[..|t|] == t;
    }
  }

  /** Backspace undoes a key, whatever is typed next, unless that key filled the line. */
  lemma BackspaceUndoesExactly(t: string, c: char, cap: int)
    requires Printing(c)
    ensures (forall rest :: Edit(t, [c, BACKSPACE] + rest, cap) == Edit(t, rest, cap)) <==> |t| + 1 != cap
  {
    if |t| + 1 != cap {
      forall rest ensures Edit(t, [c, BACKSPACE] + rest, cap) == Edit(t, rest, cap) { Corrected(t, c, rest, cap); }
    } else {
      var rest := [ENTER];
      assert ([c, BACKSPACE] + rest)[1..] == [BACKSPACE] + rest;
      assert Edit(t, [c, BACKSPACE] + rest, cap).text != Edit(t, rest, cap).text;
    }
  }

  /** So a mistyped key taken back at once changes nothing, wherever it is typed. */
  lemma CorrectionAnywhere(keys: string, c: char, rest: string, cap: int)
    requires Printing(c) && |Edit("", keys, cap).text| + 1 < cap
    ensures Edit("", keys + ([c, BACKSPACE] + rest), cap) == Edit("", keys + rest, cap)
  {
    EditFurther("", keys, [c, BACKSPACE] + rest, cap);
    EditFurther("", keys, rest, cap);
    Corrected(Edit("", keys, cap).text, c, rest, cap);
  }

  // ---- a backspace with nothing to take back

  /** The n-th key is a backspace on an empty line that has not been empty since. */
  ghost predicate StoredAt(keys: string, cap: int, n: int) {
    && 0 <= n < |keys| && keys[n] == BACKSPACE && Edit("", keys[..n], cap) == Typing("")
    && forall m | n < m <= |keys| :: Edit("", keys[..m], cap).text != ""
  }

  /** One more key: a backspace stays in the line unless the line empties, and comes into it
      only when typed on the empty line. */
  lemma OneMoreKey(keys: string, key: char, cap: int)
    ensures var before, after := Edit("", keys, cap), Edit("", keys + [key], cap);
            BACKSPACE in after.text <==>
              after.text != "" && (BACKSPACE in before.text || (before == Typing("") && key == BACKSPACE))
  {
    EditIsText("", keys, cap);
    EditFurther("", keys, [key], cap);
    var before := Edit("", keys, cap);
    if before.Typing? && key == BACKSPACE && before.text != "" {
      var t := before.text[..|before.text| - 1];
      assert Edit(before.text, [key], cap).text == t;
      assert BACKSPACE in before.text && t != "" ==> t[0] == BACKSPACE;
    }
  }

  /** One more key: what was stored and not taken back, or is stored by the key itself. */
  lemma StoredFurther(keys: string, key: char, cap: int, n: int)
    ensures StoredAt(keys + [key], cap, n) <==>
              Edit("", keys + [key], cap).text != ""
              && (StoredAt(keys, cap, n) || (n == |keys| && Edit("", keys, cap) == Typing("") && key == BACKSPACE))
  {
    hide Edit;
    var more := keys + [key];
    assert more[..|more|] == more && more[..|keys|] == keys && keys[..|keys|] == keys;
    forall m | 0 <= m <= |keys| ensures more[..m] == keys[..m] {}
  }

  /** A line holds a backspace if and only if one was typed on the empty line and the line
      has not been empty since. */
  lemma {:induction false} BackspaceStoredExactly(keys: string, cap: int)
    ensures BACKSPACE in Edit("", keys, cap).text <==> exists n :: StoredAt(keys, cap, n)
    decreases |keys|
  {
    if keys != [] {
      hide Edit, StoredAt;
      var init, key := keys[..|keys| - 1], keys[|keys| - 1];
      assert keys == init + [key];
      BackspaceStoredExactly(init, cap);
      OneMoreKey(init, key, cap);
      forall n ensures StoredAt(keys, cap, n) <==>
                         Edit("", keys, cap).text != ""
                         && (StoredAt(init, cap, n)
                             || (n == |init| && Edit("", init, cap) == Typing("") && key == BACKSPACE))
      {
        StoredFurther(init, key, cap, n);
      }
      assert StoredAt(keys, cap, |init|) <==>
               Edit("", keys, cap).text != ""
               && (StoredAt(init, cap, |init|) || (Edit("", init, cap) == Typing("") && key == BACKSPACE));
    }
  }

  /** Such a line: a backspace and then enter. */
  lemma StoredBackspace(cap: int)
    requires cap >= 1
    ensures Edit("", [8 as char, 13 as char], cap).text == [8 as char]
  {
    assert [BACKSPACE, ENTER][1..] == [ENTER] && "" + [BACKSPACE] == [BACKSPACE];
    assert cap == 1 || Edit([BACKSPACE], [ENTER], cap) == Done([BACKSPACE]);
  }

  /** Characters typed without corrections, then enter: the line is what was typed, cut to
      its size. */
  lemma {:induction false} PlainLine(t: string, typed: string, rest: string, cap: nat)
    requires |t| <= cap && forall i | 0 <= i < |typed| :: Printing(typed[i])
    ensures Edit(t, typed + [13 as char] + rest, cap) == Done(Cut(t + typed, cap))
    decreases |typed|
  {
    var keys := typed + [ENTER] + rest;
    if |t| == cap {
      assert (t + typed)[..cap] == t;
    } else if typed == [] {
      assert t + typed == t && keys[0] == ENTER;
    } else {
      assert keys[0] == typed[0] && keys[1..] == typed[1..] + [ENTER] + rest;
      assert t + [typed[0]] + typed[1..] == t + typed;
      PlainLine(t + [typed[0]], typed[1..], rest, cap);
    }
  }

  /** Words typed with single spaces between them are the words of the command, if the
      line has room for them. */
  lemma TypedCommand(words: seq<string>, rest: string, cap: nat)
    requires Words(words, ' ') && |Join(words, ' ')| <= cap
    requires forall i | 0 <= i < |Join(words, ' ')| :: Printing(Join(words, ' ')[i])
    ensures var line := Edit("", Join(words, ' ') + [ENTER] + rest, cap);
            line.Done? && Tokens(line.text, " ", 0) == words
  {
    PlainLine("", Join(words, ' '), rest, cap);
    assert "" + Join(words, ' ') == Join(words, ' ');
    TokensOfJoin(words, ' ');
  }

  // ---- the loops

  /** simpos_getkeyblock: asks until there is a key. */
  method GetKeyBlock(keys: string, from: nat, ghost t: string, ghost cap: int) returns (key: char, next: nat)
    requires from <= |keys| && |t| < cap && Edit(t, keys[from..], cap).Done?
    ensures from < next <= |keys| && key == keys[next - 1] && key != NUL
    ensures Edit(t, keys[from..], cap) == Edit(t, keys[next - 1..], cap)
  {
    next := from;
    key := NUL;
    while key == NUL
      invariant from <= next <= |keys|
      invariant key == NUL ==> Edit(t, keys[from..], cap) == Edit(t, keys[next..], cap)
      invariant key != NUL ==> from < next && key == keys[next - 1]
                               && Edit(t, keys[from..], cap) == Edit(t, keys[next - 1..], cap)
      decreases |keys| - next, key == NUL
    {
      key := keys[next];
      assert keys[next..][1..] == keys[next + 1..];
      next := next + 1;
    }
  }

  /** simpos_terminal_readline, given the keys that will be typed. They must complete a
      line: until then the call would wait. */
  method ReadTerminalLine(out: array<char>, max: int, keys: string)
    requires 1 <= out.Length && max <= out.Length && Edit("", keys, max - 1).Done?
    modifies out
    ensures Terminated(out[..], 0) && CString(out[..], 0) == Edit("", keys, max - 1).text
    ensures forall j | 1 <= j < out.Length && max <= j :: out[j] == old(out[j])
    ensures forall j | |Edit("", keys, max - 1).text| < j < out.Length :: out[j] == NUL || out[j] == old(out[j])
  {
    var i, at: nat := 0, 0;
    assert keys[0..] == keys && out[..0] == "";
    while i < max - 1
      invariant 0 <= i && (i < max || i == 0) && at <= |keys| && LineText(out[..i])
      invariant Edit(out[..i], keys[at..], max - 1) == Edit("", keys, max - 1)
      invariant forall j | 1 <= j < out.Length && max <= j :: out[j] == old(out[j])
      invariant forall j | i <= j < out.Length :: out[j] == NUL || out[j] == old(out[j])
      decreases |keys| - at
    {
      var key;
      ghost var text := out[..i];
      key, at := GetKeyBlock(keys, at, text, max - 1);
      assert keys[at - 1..][1..] == keys[at..];
      if key == ENTER {
        break;
      }
      if key == BACKSPACE && i >= 1 {
        out[i - 1] := NUL;
        i := i - 1;
        assert out[..i] == text[..i];
        continue;
      }
      out[i] := key;
      i := i + 1;
      assert out[..i] == text + [key];
    }
    assert Edit("", keys, max - 1).text == out[..i];
    ghost var text := out[..i];
    out[i] := NUL;
    assert out[..i] == text;
    TerminatorIs(out[..], 0, i);
  }
}
