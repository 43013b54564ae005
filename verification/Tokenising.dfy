/** Tokenising as a value: the words of a string between delimiters, the spans they
    come from, and joining them again. */
module Tokenising {

  /** The first position from i on that is not a delimiter. */
  function SkipFrom(s: string, d: string, i: nat): (k: nat)
    requires i <= |s|
    ensures i <= k <= |s|
    ensures forall j | i <= j < k :: s[j] in d
    ensures k < |s| ==> s[k] !in d
    decreases |s| - i
  {
    if i == |s| || s[i] !in d then i else SkipFrom(s, d, i + 1)
  }

  /** The first position from i on that is a delimiter. */
  function EndFrom(s: string, d: string, i: nat): (e: nat)
    requires i <= |s|
    ensures i <= e <= |s|
    ensures forall j | i <= j < e :: s[j] !in d
    ensures e < |s| ==> s[e] in d
    decreases |s| - i
  {
    if i == |s| || s[i] in d then i else EndFrom(s, d, i + 1)
  }

  /** Past the delimiter at e, if there is one. */
  function Past(s: string, e: nat): nat {
    if e < |s| then e + 1 else e
  }

  /** The words of s from position i on: skip delimiters, take up to the next one. */
  function Tokens(s: string, d: string, i: nat): seq<string>
    requires i <= |s|
    decreases |s| - i
  {
    var k := SkipFrom(s, d, i);
    if k == |s| then []
    else
      var e := EndFrom(s, d, k);
      [s[k..e]] + Tokens(s, d, Past(s, e))
  }

  // ---- the tokens are the maximal delimiter-free runs

  ghost predicate IsRun(s: string, d: string, a: int, b: int) {
    && 0 <= a < b <= |s|
    && (forall i | a <= i < b :: s[i] !in d)
    && (a == 0 || s[a - 1] in d)
    && (b == |s| || s[b] in d)
  }

  function Spans(s: string, d: string, i: nat): seq<(int, int)>
    requires i <= |s|
    decreases |s| - i
  {
    var k := SkipFrom(s, d, i);
    if k == |s| then []
    else
      var e := EndFrom(s, d, k);
      [(k, e)] + Spans(s, d, Past(s, e))
  }

  /** The first run from i on is the span found by skipping and measuring. */
  lemma FirstRun(s: string, d: string, i: nat, a: int, b: int)
    requires i <= |s| && (i == 0 || i == |s| || s[i - 1] in d) && i <= a && IsRun(s, d, a, b)
    ensures var k := SkipFrom(s, d, i);
            k < |s| && var e := EndFrom(s, d, k); (a == k && b == e) || a > e
  {
    var k := SkipFrom(s, d, i);
    assert s[a] !in d;
    assert a >= k;
    var e := EndFrom(s, d, k);
    assert forall j | a <= j < b :: s[j] !in d;
  }

  /** A pair is the span of a token exactly when it is a maximal delimiter-free run. */
  lemma {:induction false} SpansAreRuns(s: string, d: string, i: nat, a: int, b: int)
    requires i <= |s| && (i == 0 || i == |s| || s[i - 1] in d)
    ensures (a, b) in Spans(s, d, i) <==> IsRun(s, d, a, b) && i <= a
    decreases |s| - i
  {
    var k := SkipFrom(s, d, i);
    if IsRun(s, d, a, b) && i <= a {
      FirstRun(s, d, i, a, b);
    }
    if k < |s| {
      SpansAreRuns(s, d, Past(s, EndFrom(s, d, k)), a, b);
    }
  }

  /** Spans come in order: each begins behind the end of the one before it. */
  lemma {:induction false} SpansInOrder(s: string, d: string, i: nat, t: nat)
    requires i <= |s| && t + 1 < |Spans(s, d, i)|
    ensures Spans(s, d, i)[t].1 < Spans(s, d, i)[t + 1].0
    decreases |s| - i
  {
    var i' := Past(s, EndFrom(s, d, SkipFrom(s, d, i)));
    assert SkipFrom(s, d, i') < |s|;
    if t > 0 {
      SpansInOrder(s, d, i', t - 1);
    }
  }

  /** Token t is the text of span t. */
  lemma {:induction false} SpanText(s: string, d: string, i: nat, t: nat)
    requires i <= |s|
    ensures |Spans(s, d, i)| == |Tokens(s, d, i)|
    ensures t < |Spans(s, d, i)| ==>
              var (a, b) := Spans(s, d, i)[t]; i <= a <= b <= |s| && Tokens(s, d, i)[t] == s[a..b]
    decreases |s| - i
  {
    var k := SkipFrom(s, d, i);
    if k < |s| {
      SpanText(s, d, Past(s, EndFrom(s, d, k)), if t > 0 then t - 1 else 0);
    }
  }

  // ---- tokenising a suffix

  lemma {:induction false} SkipShift(s: string, d: string, m: nat, i: nat)
    requires m + i <= |s|
    ensures SkipFrom(s[m..], d, i) + m == SkipFrom(s, d, m + i)
    ensures EndFrom(s[m..], d, i) + m == EndFrom(s, d, m + i)
    decreases |s| - i
  {
    if m + i < |s| {
      SkipShift(s, d, m, i + 1);
    }
  }

  lemma {:induction false} TokensShift(s: string, d: string, m: nat, i: nat)
    requires m + i <= |s|
    ensures Tokens(s[m..], d, i) == Tokens(s, d, m + i)
    decreases |s| - m - i
  {
    hide Tokens, SkipFrom, EndFrom;
    var r := s[m..];
    var k := SkipFrom(r, d, i);
    SkipShift(s, d, m, i);
    TokensUnfold(r, d, i);
    TokensUnfold(s, d, m + i);
    if k < |r| {
      SkipShift(s, d, m, k);
      var e := EndFrom(r, d, k);
      assert r[k..e] == s[m + k..m + e];
      TokensShift(s, d, m, Past(r, e));
    }
  }

  lemma TokensUnfold(s: string, d: string, i: nat)
    requires i <= |s|
    ensures var k := SkipFrom(s, d, i);
            Tokens(s, d, i) == if k == |s| then []
                               else [s[k..EndFrom(s, d, k)]] + Tokens(s, d, Past(s, EndFrom(s, d, k)))
  {
  }

  /** The words of s: the first, then the words of what is left behind it. */
  lemma FirstToken(s: string, d: string)
    ensures var k := SkipFrom(s, d, 0);
            Tokens(s, d, 0) == if k == |s| then []
                               else [s[k..EndFrom(s, d, k)]] + Tokens(s[Past(s, EndFrom(s, d, k))..], d, 0)
  {
    var k := SkipFrom(s, d, 0);
    if k < |s| {
      TokensShift(s, d, Past(s, EndFrom(s, d, k)), 0);
    }
  }

  // ---- joining and splitting again

  function Join(words: seq<string>, separator: char): string {
    if words == [] then ""
    else if |words| == 1 then words[0]
    else words[0] + [separator] + Join(words[1..], separator)
  }

  ghost predicate Words(words: seq<string>, c: char) {
    forall i | 0 <= i < |words| :: words[i] != [] && c !in words[i]
  }

  lemma {:induction false} LeadingWord(w: string, rest: string, d: string, i: nat)
    requires forall j | 0 <= j < |w| :: w[j] !in d
    requires rest == [] || rest[0] in d
    requires i <= |w|
    ensures EndFrom(w + rest, d, i) == |w|
    decreases |w| - i
  {
    if i < |w| {
      LeadingWord(w, rest, d, i + 1);
    }
  }

  /** Non-empty words without the separator come back from their join. */
  lemma {:induction false} TokensOfJoin(words: seq<string>, c: char)
    requires Words(words, c)
    ensures Tokens(Join(words, c), [c], 0) == words
  {
    hide Tokens, SkipFrom, EndFrom;
    var s := Join(words, c);
    FirstToken(s, [c]);
    if words != [] {
      var w := words[0];
      var rest := if |words| == 1 then "" else [c] + Join(words[1..], c);
      assert s == w + rest && s[0] == w[0];
      LeadingWord(w, rest, [c], 0);
      assert s[..|w|] == w;
      if |words| == 1 {
        FirstToken([], [c]);
        assert s[|w|..] == [];
      } else {
        assert s[|w| + 1..] == Join(words[1..], c);
        TokensOfJoin(words[1..], c);
      }
    }
  }
}
