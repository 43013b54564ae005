/** simpos_parse_command: a command line becomes a linked list of its words. */
module CommandLine {
  import opened Tokenising
  import opened Strings

  const COMMAND_SIZE := 1025
  const ARGUMENT_SIZE := 512

  /** One word of a command; the 512-byte buffer is filled once, so the string it
      holds stands for it. */
  class CommandArgument {
    const argument: string
    var next: CommandArgument?

    constructor (argument: string)
      ensures this.argument == argument && next == null
    {
      this.argument, next := argument, null;
    }
  }

  /** The nodes hold the leading words, at most 511 characters of each. */
  ghost predicate HoldsAll(nodes: seq<CommandArgument>, words: seq<string>) {
    |nodes| <= |words| && forall i | 0 <= i < |nodes| :: nodes[i].argument == Cut(words[i], ARGUMENT_SIZE - 1)
  }

  /** The nodes, in order, each linked to the next. */
  ghost predicate Chain(nodes: seq<CommandArgument>)
    reads nodes
  {
    && (forall i, j | 0 <= i < j < |nodes| :: nodes[i] != nodes[j])
    && forall i {:trigger nodes[i].next} | 0 <= i < |nodes| ::
         nodes[i].next == if i + 1 < |nodes| then nodes[i + 1] else null
  }

  /** A new argument holding the string at token. */
  method NewArgument(token: Ptr) returns (node: CommandArgument)
    requires token.At? && ValidPtr(token)
    ensures fresh(node) && node.next == null && node.argument == Cut(Text(token), ARGUMENT_SIZE - 1)
  {
    var buffer := new char[ARGUMENT_SIZE];
    Strncpy(buffer, token.buf, token.pos, ARGUMENT_SIZE);
    node := new CommandArgument(CString(buffer[..], 0));
  }

  /** The words that strtok delivers from a cursor on. */
  ghost function Rest(sp: Ptr): seq<string>
    requires ValidPtr(sp)
    reads if sp.At? then {sp.buf} else {}
  {
    if sp == Null then [] else Tokens(Text(sp), " ", 0)
  }

  /** The text a command is split from: the command, cut to 1024 characters, unless an
      earlier tokenisation left its cursor behind, which then wins. */
  ghost function Source(tok: Tokenizer, command: array<char>): string
    requires Terminated(command[..], 0) && tok.Ready(Null)
    reads tok, command, if tok.sp.At? then {tok.sp.buf} else {}
  {
    if tok.sp == Null then Cut(CString(command[..], 0), COMMAND_SIZE - 1) else Text(tok.sp)
  }

  /** One strtok call on the single delimiter " ": the next word, if any. */
  method NextWord(tok: Tokenizer, str: Ptr) returns (token: Ptr)
    requires tok.Ready(str)
    modifies tok, if tok.Cursor(str).At? then {tok.Cursor(str).buf} else {}
    ensures ValidPtr(tok.sp) && ValidPtr(token)
    ensures tok.sp.At? ==> old(tok.Cursor(str)).At? && tok.sp.buf == old(tok.Cursor(str)).buf
    ensures token.At? ==> old(tok.Cursor(str)).At? && token.buf == old(tok.Cursor(str)).buf && tok.sp.At?
    ensures old(Rest(tok.Cursor(str))) == if token == Null then [] else [Text(token)] + Rest(tok.sp)
    ensures token == Null ==> tok.sp == Null
  {
    ghost var cursor := tok.Cursor(str);
    if cursor.At? { FirstToken(Text(cursor), " "); }
    token := tok.Strtok(str, " ");
  }

  /** current->next = node. */
  method Link(current: CommandArgument, node: CommandArgument, ghost nodes: seq<CommandArgument>)
    requires Chain(nodes) && nodes != [] && current == nodes[|nodes| - 1]
    requires node !in nodes && node.next == null
    modifies current
    ensures Chain(nodes + [node])
  {
    current.next := node;
  }

  lemma NextOf(words: seq<string>, n: nat, word: string, rest: seq<string>)
    requires n <= |words| && words[n..] == [word] + rest
    ensures n < |words| && words[n] == word && words[n + 1..] == rest
  {
    assert words[n..][1..] == rest;
  }

  function Least(a: nat, b: nat): nat {
    if a <= b then a else b
  }

  lemma SourceRest(tok: Tokenizer, command: array<char>, scommand: array<char>)
    requires Terminated(command[..], 0) && tok.Ready(Null) && Terminated(scommand[..], 0)
    requires CString(scommand[..], 0) == Cut(CString(command[..], 0), COMMAND_SIZE - 1)
    ensures tok.Ready(At(scommand, 0))
    ensures Rest(tok.Cursor(At(scommand, 0))) == Tokens(Source(tok, command), " ", 0)
  {
  }

  /** Between two words: n words are done, token is the next one, and the cursor of the
      tokeniser, in buf, is on what follows it. */
  ghost predicate Pending(tok: Tokenizer, token: Ptr, buf: array<char>, words: seq<string>, n: nat)
    reads tok, buf, if tok.sp.At? then {tok.sp.buf} else {}, if token.At? then {token.buf} else {}
  {
    && ValidPtr(tok.sp) && ValidPtr(token)
    && (tok.sp.At? ==> tok.sp.buf == buf) && (token.At? ==> token.buf == buf && tok.sp.At?)
    && (token == Null ==> tok.sp == Null)
    && n <= |words| && words[n..] == if token == Null then [] else [Text(token)] + Rest(tok.sp)
  }

  lemma PendingMeans(tok: Tokenizer, token: Ptr, buf: array<char>, words: seq<string>, n: nat)
    requires Pending(tok, token, buf, words, n)
    ensures if token == Null then n == |words| && tok.sp == Null else n < |words|
  {
    assert |words[n..]| == |words| - n;
  }

  /** The root argument and the word after it. */
  method ParseHead(tok: Tokenizer, token: Ptr, ghost buf: array<char>, ghost words: seq<string>)
      returns (node: CommandArgument, next: Ptr)
    requires Pending(tok, token, buf, words, 0) && token.At?
    modifies tok, buf
    ensures fresh(node) && Pending(tok, next, buf, words, 1)
    ensures Chain([node]) && HoldsAll([node], words)
  {
    hide Terminated, CString, Tokens, Rest;
    NextOf(words, 0, Text(token), Rest(tok.sp));
    node := NewArgument(token);
    next := NextWord(tok, Null);
  }

  lemma HoldsAllBounds(nodes: seq<CommandArgument>, words: seq<string>)
    requires HoldsAll(nodes, words)
    ensures |nodes| <= |words|
  {
  }

  lemma HoldsOneMore(nodes: seq<CommandArgument>, words: seq<string>, node: CommandArgument)
    requires HoldsAll(nodes, words) && |nodes| < |words|
    requires node.argument == Cut(words[|nodes|], ARGUMENT_SIZE - 1)
    ensures HoldsAll(nodes + [node], words)
  {
  }

  /** One round of the loop: a node for the pending word, and the word after it. */
  method ParseNext(tok: Tokenizer, current: CommandArgument, token: Ptr,
                   ghost buf: array<char>, ghost nodes: seq<CommandArgument>, ghost words: seq<string>)
      returns (node: CommandArgument, next: Ptr)
    requires Pending(tok, token, buf, words, |nodes|) && token.At?
    requires nodes != [] && current == nodes[|nodes| - 1] && Chain(nodes) && HoldsAll(nodes, words)
    modifies tok, buf, current
    ensures fresh(node) && Pending(tok, next, buf, words, |nodes| + 1)
    ensures Chain(nodes + [node]) && HoldsAll(nodes + [node], words)
  {
    hide Terminated, CString, Tokens, Rest, Chain, HoldsAll, Cut;
    HoldsAllBounds(nodes, words);
    NextOf(words, |nodes|, Text(token), Rest(tok.sp));
    node := NewArgument(token);
    HoldsOneMore(nodes, words, node);
    Link(current, node, nodes);
    next := NextWord(tok, Null);
  }

  /** The local copy of the command and the first strtok call on it. */
  method FirstWord(tok: Tokenizer, command: array<char>) returns (token: Ptr, ghost buf: array<char>)
    requires Terminated(command[..], 0) && tok.Ready(Null)
    modifies tok, if tok.sp.At? then {tok.sp.buf} else {}
    ensures if old(tok.sp).At? then buf == old(tok.sp).buf else fresh(buf)
    ensures Pending(tok, token, buf, Tokens(old(Source(tok, command)), " ", 0), 0)
  {
    hide Terminated, CString, Tokens, Rest;
    var scommand := new char[COMMAND_SIZE];
    Strncpy(scommand, command, 0, COMMAND_SIZE);
    ghost var words := Tokens(Source(tok, command), " ", 0);
    buf := if tok.sp == Null then scommand else tok.sp.buf;
    SourceRest(tok, command, scommand);
    token := NextWord(tok, At(scommand, 0));
    assert words[0..] == words;
  }

  /** simpos_parse_command; mallocs is the number of allocations that will succeed. */
  method ParseCommand(tok: Tokenizer, command: array<char>, max: int, mallocs: nat)
      returns (root: CommandArgument?, ghost nodes: seq<CommandArgument>)
    requires Terminated(command[..], 0) && tok.Ready(Null)
    modifies tok, if tok.sp.At? then {tok.sp.buf} else {}
    ensures root == if nodes == [] then null else nodes[0]
    ensures Chain(nodes)
    ensures max >= COMMAND_SIZE ==> nodes == [] && tok.sp == old(tok.sp)
    ensures max < COMMAND_SIZE ==>
              var words := Tokens(old(Source(tok, command)), " ", 0);
              && |nodes| == Least(|words|, mallocs) && HoldsAll(nodes, words)
              && (mallocs >= |words| ==> tok.sp == Null)
  {
    hide Terminated, CString, Tokens, Pending;
    root, nodes := null, [];
    if max >= COMMAND_SIZE {
      return;
    }
    ghost var words := Tokens(Source(tok, command), " ", 0);
    var token;
    ghost var buf;
    token, buf := FirstWord(tok, command);
    PendingMeans(tok, token, buf, words, 0);
    var left := mallocs;
    if token == Null || left == 0 {
      return;
    }
    root, token := ParseHead(tok, token, buf, words);
    left := left - 1;
    nodes := [root];
    var current := root;
    while token != Null
      invariant Pending(tok, token, buf, words, |nodes|)
      invariant nodes != [] && root == nodes[0] && current == nodes[|nodes| - 1]
      invariant Chain(nodes) && HoldsAll(nodes, words)
      invariant fresh(current)
      invariant 0 <= left && left + |nodes| == mallocs
      decreases |words| - |nodes|
    {
      PendingMeans(tok, token, buf, words, |nodes|);
      if left == 0 {
        return;
      }
      var node;
      node, token := ParseNext(tok, current, token, buf, nodes, words);
      left := left - 1;
      nodes := nodes + [node];
      current := node;
    }
    PendingMeans(tok, token, buf, words, |nodes|);
  }

  /** With all allocations, and words of at most 511 characters whose join fits the
      buffer, splitting a joined command gives the words back. */
  lemma CommandRoundTrip(words: seq<string>)
    requires Words(words, ' ') && forall i | 0 <= i < |words| :: |words[i]| < 512
    requires |Join(words, ' ')| <= 1024
    ensures Tokens(Cut(Join(words, ' '), COMMAND_SIZE - 1), " ", 0) == words
    ensures forall i | 0 <= i < |words| :: Cut(words[i], ARGUMENT_SIZE - 1) == words[i]
  {
    TokensOfJoin(words, ' ');
  }
}
