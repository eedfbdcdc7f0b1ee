/**
 * The superseded draft of cli.c: an earlier line reader (`get_input`), an
 * earlier lexer (`parse_input`) without the `parsing` guard, its own
 * `get_argc`/`get_argv`, and the `main` loop that prints the numbered
 * arguments of every line until a line reads `exit` in any case.
 *
 * As in the utils.c model, the argument list is the sequence of the nodes'
 * strings, head first, and the input stream is a parameter.
 */
module DraftCli {
  import opened Prelude
  import opened Tokenizer
  import opened LineReader

  // ---------------------------------------------------------------------------
  // The draft lexer
  // ---------------------------------------------------------------------------

  /** The draft lexer's variables: `marks`, the accumulator `buffer`, and the arguments stored so far. */
  datatype Draft = Draft(marks: bool, buffer: string, tokens: seq<string>)

  /** Before the first character: outside quotes, an empty buffer, and an empty head node. */
  const DraftStart: Draft := Draft(false, "", [""])

  /** One iteration of the draft loop on character `c`: every unquoted space
      flushes, and the final character is always added to the last argument. */
  function DraftStep(st: Draft, c: char, last: bool): Draft
    requires |st.tokens| > 0
  {
    if (c == ' ' && !st.marks) || last then
      var arg := if last then st.buffer + [c] else st.buffer;
      Draft(st.marks, "", Flush(st.tokens, arg))
    else if c == '"' && !st.marks then st.(marks := true)
    else if c == '"' && st.marks then st.(marks := false)
    else st.(buffer := st.buffer + [c])
  }

  /** The arguments produced by running the draft loop from `st` over `rest`. */
  function DraftLex(st: Draft, rest: string): (tokens: seq<string>)
    requires |st.tokens| > 0
    ensures |tokens| >= |st.tokens|
    decreases |rest|
  {
    if rest == [] then st.tokens
    else DraftLex(DraftStep(st, rest[0], |rest| == 1), rest[1..])
  }

  /** The argument list the draft `parse_input` builds for `line`. */
  function DraftParse(line: string): seq<string> {
    DraftLex(DraftStart, line)
  }

  lemma DraftLexAt(st: Draft, line: string, i: nat)
    requires |st.tokens| > 0 && i < |line|
    ensures DraftLex(st, line[i..]) == DraftLex(DraftStep(st, line[i], i == |line| - 1), line[i + 1..])
  {
    assert line[i..][0] == line[i] && line[i..][1..] == line[i + 1..];
  }

  /** The draft `parse_input`: the character loop with its quote flag, its accumulator and the tail append. */
  method DraftParseLoop(line: string) returns (tokens: seq<string>)
    ensures tokens == DraftParse(line)
  {
    var marks := false;
    var buffer := "";
    tokens := [""];
    var i := 0;
    assert line[0..] == line;
    while i < |line|
      invariant 0 <= i <= |line| && |tokens| > 0
      invariant DraftLex(Draft(marks, buffer, tokens), line[i..]) == DraftParse(line)
    {
      DraftLexAt(Draft(marks, buffer, tokens), line, i);
      var c := line[i];
      if (c == ' ' && !marks) || i == |line| - 1 {
        if i == |line| - 1 {
          buffer := buffer + [c];
        }
        if tokens[0] == "" {
          tokens := tokens[0 := buffer];
        } else {
          tokens := tokens + [buffer];
        }
        buffer := "";
      } else if c == '"' && !marks {
        marks := true;
      } else if c == '"' && marks {
        marks := false;
      } else {
        buffer := buffer + [c];
      }
      i := i + 1;
    }
    assert line[i..] == [];
  }

  // ---------------------------------------------------------------------------
  // What the draft keeps of a line
  // ---------------------------------------------------------------------------

  /** Whether the draft keeps character `i`: the final character always, any
      other unless it is a quote or an unquoted space. */
  predicate DraftKeptAt(line: string, i: nat)
    requires i < |line|
  {
    i == |line| - 1 || (line[i] != '"' && (line[i] != ' ' || InQuotes(line, i)))
  }

  /** The characters the draft keeps among the first `k` of `line`, in order. */
  function DraftKeptUpTo(line: string, k: nat): string
    requires k <= |line|
  {
    if k == 0 then [] else DraftKeptUpTo(line, k - 1) + (if DraftKeptAt(line, k - 1) then [line[k - 1]] else [])
  }

  lemma DraftStepKept(line: string, i: nat, st: Draft)
    requires i < |line|
    requires HeadEmptyAlone(st.tokens)
    requires Concat(st.tokens) + st.buffer == DraftKeptUpTo(line, i)
    requires st.marks == InQuotes(line, i)
    ensures var st' := DraftStep(st, line[i], i == |line| - 1);
      && HeadEmptyAlone(st'.tokens)
      && Concat(st'.tokens) + st'.buffer == DraftKeptUpTo(line, i + 1)
      && (i + 1 < |line| ==> st'.marks == InQuotes(line, i + 1))
      && (i + 1 == |line| ==> st'.buffer == "")
  {
    var c, last := line[i], i == |line| - 1;
    var kept := DraftKeptUpTo(line, i);
    assert DraftKeptUpTo(line, i + 1) == kept + (if DraftKeptAt(line, i) then [c] else []);
    if (c == ' ' && !st.marks) || last {
      var arg := if last then st.buffer + [c] else st.buffer;
      FlushConcat(st.tokens, arg);
      assert Concat(st.tokens) + arg == DraftKeptUpTo(line, i + 1);
    } else if c == '"' {
      assert !DraftKeptAt(line, i);
      assert InQuotes(line, i + 1) == !InQuotes(line, i);
    } else {
      assert DraftKeptAt(line, i);
      assert Concat(st.tokens) + (st.buffer + [c]) == kept + [c];
    }
  }

  lemma {:induction false} DraftLexKept(line: string, i: nat, st: Draft)
    requires i <= |line|
    requires HeadEmptyAlone(st.tokens)
    requires Concat(st.tokens) + st.buffer == DraftKeptUpTo(line, i)
    requires i < |line| ==> st.marks == InQuotes(line, i)
    requires i == |line| ==> st.buffer == ""
    ensures Concat(DraftLex(st, line[i..])) == DraftKeptUpTo(line, |line|)
    decreases |line| - i
  {
    if i == |line| {
      assert line[i..] == [];
    } else {
      DraftLexAt(st, line, i);
      DraftStepKept(line, i, st);
      DraftLexKept(line, i + 1, DraftStep(st, line[i], i == |line| - 1));
    }
  }

  /** Joined together, the draft's arguments are exactly the characters it keeps. */
  lemma DraftTokensAreKeptCharacters(line: string)
    ensures Concat(DraftParse(line)) == DraftKeptUpTo(line, |line|)
  {
    assert line[0..] == line;
    assert Concat([""]) == "";
    DraftLexKept(line, 0, DraftStart);
  }

  lemma {:induction false} KeptAgree(line: string, k: nat)
    requires k <= |line| && (line != [] ==> line[|line| - 1] != '"')
    ensures DraftKeptUpTo(line, k) == KeptUpTo(line, k)
  {
    if k > 0 {
      KeptAgree(line, k - 1);
      assert DraftKeptAt(line, k - 1) == KeptAt(line, k - 1);
    }
  }

  /** Both lexers keep the same characters of a line that does not end in a
      quote; the draft differs only in where it splits them. */
  lemma SameCharactersUnlessClosingQuote(line: string)
    requires line != [] ==> line[|line| - 1] != '"'
    ensures Concat(DraftParse(line)) == Concat(ParseInput(line))
  {
    DraftTokensAreKeptCharacters(line);
    TokensAreKeptCharacters(line);
    KeptAgree(line, |line|);
  }

  // ---------------------------------------------------------------------------
  // The draft on words and spaces
  // ---------------------------------------------------------------------------

  lemma {:induction false} DraftPlainPrefix(acc: string, tokens: seq<string>, w: string, tail: string)
    requires |tokens| > 0 && Plain(w) && |tail| > 0
    ensures DraftLex(Draft(false, acc, tokens), w + tail) == DraftLex(Draft(false, acc + w, tokens), tail)
    decreases |w|
  {
    if w != [] {
      assert (w + tail)[0] == w[0] && (w + tail)[1..] == w[1..] + tail;
      assert w[0] in w;
      assert Plain(w[1..]) by { assert forall x :: x in w[1..] ==> x in w; }
      DraftPlainPrefix(acc + [w[0]], tokens, w[1..], tail);
      assert acc + [w[0]] + w[1..] == acc + w;
    } else {
      assert w + tail == tail && acc + w == acc;
    }
  }

  lemma DraftLastWord(tokens: seq<string>, w: string)
    requires |tokens| > 0 && w != "" && Plain(w)
    ensures DraftLex(Draft(false, "", tokens), w) == Flush(tokens, w)
  {
    var last := w[|w| - 1];
    var init := w[..|w| - 1];
    assert init + [last] == w;
    var st := Draft(false, init, tokens);
    assert DraftStep(st, last, true) == Draft(false, "", Flush(tokens, w));
    assert DraftLex(st, [last]) == Flush(tokens, w) by {
      assert [last][0] == last && [last][1..] == [];
    }
    assert Plain(init) by { assert forall x :: x in init ==> x in w; }
    DraftPlainPrefix("", tokens, init, [last]);
    assert "" + init == init;
  }

  lemma DraftWordThenSpace(tokens: seq<string>, w: string, more: string)
    requires |tokens| > 0 && Plain(w) && more != ""
    ensures DraftLex(Draft(false, "", tokens), w + " " + more)
         == DraftLex(Draft(false, "", Flush(tokens, w)), more)
  {
    DraftPlainPrefix("", tokens, w, " " + more);
    assert w + " " + more == w + (" " + more);
    assert (" " + more)[0] == ' ' && (" " + more)[1..] == more;
    var st := Draft(false, "" + w, tokens);
    assert DraftLex(st, " " + more) == DraftLex(DraftStep(st, ' ', false), more);
    assert "" + w == w;
  }

  lemma {:induction false} DraftWordsFrom(tokens: seq<string>, ws: seq<string>)
    requires |tokens| > 0 && (tokens == [""] || tokens[0] != "")
    requires |ws| > 0 && forall k :: 0 <= k < |ws| ==> ws[k] != "" && Plain(ws[k])
    ensures DraftLex(Draft(false, "", tokens), JoinWords(ws)) == if tokens == [""] then ws else tokens + ws
    decreases |ws|
  {
    var w := ws[0];
    if |ws| == 1 {
      DraftLastWord(tokens, w);
    } else {
      DraftWordThenSpace(tokens, w, JoinWords(ws[1..]));
      DraftWordsFrom(Flush(tokens, w), ws[1..]);
      if tokens == [""] {
        assert [w] + ws[1..] == ws;
      } else {
        assert tokens + [w] + ws[1..] == tokens + ws;
      }
    }
  }

  /** On non-empty plain words joined by single spaces the draft agrees with
      the utils.c lexer: both give the words back. */
  lemma DraftWordsRoundTrip(ws: seq<string>)
    requires |ws| > 0 && forall k :: 0 <= k < |ws| ==> ws[k] != "" && Plain(ws[k])
    ensures DraftParse(JoinWords(ws)) == ws
    ensures DraftParse(JoinWords(ws)) == ParseInput(JoinWords(ws))
  {
    DraftWordsFrom([""], ws);
    WordsRoundTrip(ws);
  }

  /** `n` spaces. */
  function Spaces(n: nat): (s: string)
    ensures |s| == n && AllSpaces(s)
  {
    if n == 0 then [] else Spaces(n - 1) + " "
  }

  /** `n` empty arguments. */
  function Empties(n: nat): (ts: seq<string>)
    ensures |ts| == n && forall k :: 0 <= k < n ==> ts[k] == ""
  {
    if n == 0 then [] else Empties(n - 1) + [""]
  }

  lemma {:induction false} DraftSpaceRun(tokens: seq<string>, n: nat, more: string)
    requires |tokens| > 0 && tokens[0] != "" && more != ""
    ensures DraftLex(Draft(false, "", tokens), Spaces(n) + more)
         == DraftLex(Draft(false, "", tokens + Empties(n)), more)
    decreases n
  {
    if n > 0 {
      assert Spaces(n) + more == Spaces(n - 1) + (" " + more);
      DraftSpaceRun(tokens, n - 1, " " + more);
      var ts := tokens + Empties(n - 1);
      assert (" " + more)[0] == ' ' && (" " + more)[1..] == more;
      assert DraftLex(Draft(false, "", ts), " " + more) == DraftLex(DraftStep(Draft(false, "", ts), ' ', false), more);
      assert ts[0] != "";
      assert ts + [""] == tokens + Empties(n);
    } else {
      assert Spaces(0) + more == more && tokens + Empties(0) == tokens;
    }
  }

  lemma {:induction false} UtilsSpaceRun(tokens: seq<string>, n: nat, more: string)
    requires |tokens| > 0 && more != ""
    ensures Lex(Lexer(false, true, "", tokens), Spaces(n) + more) == Lex(Lexer(false, true, "", tokens), more)
    decreases n
  {
    if n > 0 {
      assert Spaces(n) + more == Spaces(n - 1) + (" " + more);
      UtilsSpaceRun(tokens, n - 1, " " + more);
      assert (" " + more)[0] == ' ' && (" " + more)[1..] == more;
      var st := Lexer(false, true, "", tokens);
      assert Lex(st, " " + more) == Lex(Step(st, ' ', false), more);
    } else {
      assert Spaces(0) + more == more;
    }
  }

  /** Each extra space between two words makes the draft store one more empty
      argument, where the utils.c lexer stores none: `a  b` gives `[a, "", b]`
      against `[a, b]`. */
  lemma DraftEmptyTokensForSpaceRuns(a: string, n: nat, b: string)
    requires a != "" && Plain(a) && b != "" && Plain(b)
    ensures DraftParse(a + " " + Spaces(n) + b) == [a] + Empties(n) + [b]
    ensures ParseInput(a + " " + Spaces(n) + b) == [a, b]
  {
    var line := a + " " + (Spaces(n) + b);
    assert a + " " + Spaces(n) + b == line;
    DraftWordThenSpace([""], a, Spaces(n) + b);
    assert Flush([""], a) == [a];
    DraftSpaceRun([a], n, b);
    DraftLastWord([a] + Empties(n), b);
    assert ([a] + Empties(n))[0] == a;
    LexWordThenSpace(false, [""], a, Spaces(n) + b);
    UtilsSpaceRun([a], n, b);
    LexLastWord(true, [a], b);
  }

  lemma DoubleSpaceExample()
    ensures DraftParse("ls  -l") == ["ls", "", "-l"]
    ensures ParseInput("ls  -l") == ["ls", "-l"]
  {
    DraftEmptyTokensForSpaceRuns("ls", 1, "-l");
    assert Spaces(1) == " ";
    assert "ls" + " " + Spaces(1) + "-l" == "ls  -l";
    assert Empties(1) == [""];
  }

  // ---------------------------------------------------------------------------
  // A closing quote at the end of the line
  // ---------------------------------------------------------------------------

  lemma {:induction false} DraftQuotedPrefix(acc: string, tokens: seq<string>, q: string, tail: string)
    requires |tokens| > 0 && '"' !in q && |tail| > 0
    ensures DraftLex(Draft(true, acc, tokens), q + tail) == DraftLex(Draft(true, acc + q, tokens), tail)
    decreases |q|
  {
    if q != [] {
      assert (q + tail)[0] == q[0] && (q + tail)[1..] == q[1..] + tail;
      assert q[0] in q;
      assert '"' !in q[1..] by { assert forall x :: x in q[1..] ==> x in q; }
      DraftQuotedPrefix(acc + [q[0]], tokens, q[1..], tail);
      assert acc + [q[0]] + q[1..] == acc + q;
    } else {
      assert q + tail == tail && acc + q == acc;
    }
  }

  /** A quoted span that ends the line: the draft keeps its closing quote in
      the last argument, `cmd "q"` gives `[cmd, q"]`, while the utils.c lexer
      drops it and gives `[cmd, q]`. */
  lemma ClosingQuoteKept(cmd: string, q: string)
    requires cmd != "" && Plain(cmd) && '"' !in q
    ensures DraftParse(cmd + " " + (['"'] + q + ['"'])) == [cmd, q + ['"']]
    ensures ParseInput(cmd + " " + (['"'] + q + ['"'])) == [cmd, q]
  {
    var span := ['"'] + (q + ['"']);
    assert ['"'] + q + ['"'] == span;
    DraftClosingQuote(cmd, q, span);
    LexClosingQuote(cmd, q, span);
  }

  lemma DraftClosingQuote(cmd: string, q: string, span: string)
    requires cmd != "" && Plain(cmd) && '"' !in q && span == ['"'] + (q + ['"'])
    ensures DraftParse(cmd + " " + span) == [cmd, q + ['"']]
  {
    assert span[0] == '"' && span[1..] == q + ['"'];
    DraftWordThenSpace([""], cmd, span);
    assert Flush([""], cmd) == [cmd];
    assert DraftLex(Draft(false, "", [cmd]), span) == DraftLex(Draft(true, "", [cmd]), q + ['"']);
    var st := Draft(true, q, [cmd]);
    assert DraftStep(st, '"', true) == Draft(true, "", [cmd, q + ['"']]);
    assert DraftLex(st, ['"']) == [cmd, q + ['"']] by {
      assert ['"'][0] == '"' && ['"'][1..] == [];
    }
    DraftQuotedPrefix("", [cmd], q, ['"']);
    assert "" + q == q;
  }

  lemma LexClosingQuote(cmd: string, q: string, span: string)
    requires cmd != "" && Plain(cmd) && '"' !in q && span == ['"'] + (q + ['"'])
    ensures ParseInput(cmd + " " + span) == [cmd, q]
  {
    assert span[0] == '"' && span[1..] == q + ['"'];
    LexWordThenSpace(false, [""], cmd, span);
    assert Flush([""], cmd) == [cmd];
    assert Lex(Lexer(false, true, "", [cmd]), span) == Lex(Lexer(true, true, "", [cmd]), q + ['"']);
    var ut := Lexer(true, if q == [] then true else false, q, [cmd]);
    assert Step(ut, '"', true) == Lexer(true, true, "", [cmd, q]);
    assert Lex(ut, ['"']) == [cmd, q] by {
      assert ['"'][0] == '"' && ['"'][1..] == [];
    }
    LexQuotedPrefix("", true, [cmd], q, ['"']);
    assert "" + q == q;
  }

  lemma ClosingQuoteExample()
    ensures DraftParse("echo \"abc\"") == ["echo", "abc\""]
    ensures ParseInput("echo \"abc\"") == ["echo", "abc"]
  {
    ClosingQuoteKept("echo", "abc");
    assert "echo" + " " + (['"'] + "abc" + ['"']) == "echo \"abc\"";
    assert "abc" + ['"'] == "abc\"";
  }

  // ---------------------------------------------------------------------------
  // The list accessors of the draft
  // ---------------------------------------------------------------------------

  /** The draft `get_argc`: the number of nodes. */
  method DraftGetArgc(tokens: seq<string>) returns (argc: nat)
    ensures argc == |tokens|
  {
    argc := 0;
    var node := tokens;
    while node != []
      invariant argc + |node| == |tokens|
    {
      node := node[1..];
      argc := argc + 1;
    }
  }

  /** The draft `get_argv`: walks `n` nodes from the head; running off the
      list reports `index out of range` (`outOfRange`) and gives NULL. */
  method DraftGetArgv(tokens: seq<string>, n: int) returns (arg: Option<string>, outOfRange: bool)
    requires |tokens| > 0
    ensures outOfRange <==> n >= |tokens|
    ensures outOfRange <==> arg == None
    ensures 0 <= n < |tokens| ==> arg == Some(tokens[n])
    ensures n < 0 ==> arg == Some(tokens[0])
  {
    var node := tokens;
    var i := 0;
    while i < n
      invariant 0 <= i
      invariant n >= 0 ==> i <= n
      invariant n < 0 ==> i == 0
      invariant i < |tokens| && node == tokens[i..]
    {
      if |node| == 1 {
        return None, true;
      }
      node := node[1..];
      i := i + 1;
    }
    return Some(node[0]), false;
  }

  // ---------------------------------------------------------------------------
  // The draft line reader
  // ---------------------------------------------------------------------------

  /** `sizeof(ptr)`: the draft clears this many bytes, the size of a `char *`,
      not of the buffer. */
  const CLEARED_BYTES: nat := 8

  /** The stream holds a character that is not a space, and a newline after it. */
  predicate DraftReadable(input: string) {
    Lead(input) < |input| && '\n' in input[Lead(input) + 1..]
  }

  /** Position of the newline that ends what the draft reads: the first one
      after the first non-space character. */
  function DraftEnd(input: string): (e: nat)
    requires DraftReadable(input)
    ensures Lead(input) < e < |input| && input[e] == '\n'
    ensures forall j :: Lead(input) < j < e ==> input[j] != '\n'
  {
    var l := Lead(input);
    var k := NewlineAt(input[l + 1..]);
    assert forall j :: l < j < l + 1 + k ==> input[j] == input[l + 1..][j - l - 1];
    l + 1 + k
  }

  /** What the draft stores: from the first non-space character up to the
      newline. On a blank line that first character is the newline itself. */
  function DraftLine(input: string): string
    requires DraftReadable(input)
  {
    input[Lead(input)..DraftEnd(input)]
  }

  /** Streams on which the draft stays inside its buffer: a stored line of
      exactly SIZE_INPUT characters with no NUL in it leaves no terminator
      for `strlen`. */
  predicate DraftDefined(input: string) {
    && DraftReadable(input)
    && (|DraftLine(input)| != SIZE_INPUT || '\0' in DraftLine(input))
  }

  /** On a line with a non-space character the draft reads up to the
      newline utils.c `get_input` reads up to, but stores the line only from
      its first non-space character on. Its text is shorter by the leading
      spaces, so it fits the buffer whenever the utils.c line does; without
      trailing spaces the two texts are the same. */
  lemma DraftAgreesOnNonBlankLines(input: string)
    requires '\n' in input && !AllSpaces(FirstLine(input))
    ensures DraftReadable(input)
    ensures DraftEnd(input) == NewlineAt(input)
    ensures DraftLine(input) == FirstLine(input)[Lead(input)..]
    ensures Lead(input) + |DraftLine(input)| == |FirstLine(input)|
    ensures |FirstLine(input)| <= SIZE_INPUT ==> |DraftLine(input)| <= SIZE_INPUT
    ensures DropTrailing(DraftLine(input)) == Trim(FirstLine(input))
  {
    var line := FirstLine(input);
    var nl := NewlineAt(input);
    var k :| 0 <= k < |line| && line[k] != ' ';
    LeadOfPrefix(input, nl);
    assert Lead(input) <= k;
    assert Lead(input) < nl;
    assert input[Lead(input) + 1..][nl - Lead(input) - 1] == '\n';
    assert '\n' in input[Lead(input) + 1..];
    var e := DraftEnd(input);
    assert input[e] == '\n' && input[nl] == '\n';
    assert e == nl;
    assert Lead(line) < |line|;
    assert StartIndex(line) == Lead(input);
  }

  /** On a line with a non-space character, whenever utils.c `get_input`
      stores the line the draft stores it too (status 0), and the C strings
      the two readers then leave in their buffers (by their postconditions)
      are the same: the line up to its first NUL, without its leading and
      trailing spaces. */
  lemma DraftBufferAgrees(input: string)
    requires '\n' in input && !AllSpaces(FirstLine(input))
    ensures DraftReadable(input)
    ensures |FirstLine(input)| <= SIZE_INPUT ==> |DraftLine(input)| <= SIZE_INPUT
    ensures DropTrailing(UpToNul(DraftLine(input))) == Trim(UpToNul(FirstLine(input)))
  {
    DraftAgreesOnNonBlankLines(input);
    var f := FirstLine(input);
    var l := Lead(input);
    var x := UpToNul(f);
    LeadOfPrefix(input, NewlineAt(input));
    assert Lead(f) == l;
    assert l <= |x|;
    UpToNulSuffix(f, l);
    LeadOfPrefix(f, |x|);
    if l == |x| {
      assert AllSpaces(x);
      DropAllSpaces(x);
      assert x[l..] == [];
    }
  }

  /** Leading spaces count toward the limit in utils.c but not in the
      draft: `n` spaces before a word `w` that fits the buffer on its own
      make utils.c refuse the line while the draft stores `w`. */
  lemma LeadingSpacesOverflowOnlyInUtils(n: nat, w: string, r: string)
    requires w != [] && w[0] != ' ' && '\n' !in w
    requires |w| <= SIZE_INPUT < n + |w|
    ensures var input := Spaces(n) + w + "\n" + r;
      && '\n' in input && |FirstLine(input)| > SIZE_INPUT
      && DraftReadable(input) && DraftLine(input) == w
  {
    var input := Spaces(n) + w + "\n" + r;
    SpacedLine(n, w, r);
    DraftAgreesOnNonBlankLines(input);
    assert (Spaces(n) + w)[n..] == w;
  }

  /** The first line of `n` spaces, a word and a newline: the spaces and the
      word, the spaces being its leading spaces. */
  lemma SpacedLine(n: nat, w: string, r: string)
    requires w != [] && w[0] != ' ' && '\n' !in w
    ensures var input := Spaces(n) + w + "\n" + r;
      && '\n' in input && FirstLine(input) == Spaces(n) + w
      && Lead(input) == n && !AllSpaces(FirstLine(input))
  {
    var line := Spaces(n) + w;
    var t := w + "\n" + r;
    assert '\n' !in line by {
      assert forall j :: 0 <= j < |line| ==> line[j] == ' ' || line[j] == w[j - n];
    }
    FirstLineOf(line, r);
    assert line[n] == w[0];
    LeadOfSpaces(n, t);
    assert line + "\n" + r == Spaces(n) + t;
  }

  /** The first line of `line + "\n" + r`, when `line` holds no newline, is `line`. */
  lemma FirstLineOf(line: string, r: string)
    requires '\n' !in line
    ensures '\n' in line + "\n" + r && FirstLine(line + "\n" + r) == line
  {
    var input := line + "\n" + r;
    assert input[|line|] == '\n';
    assert forall j :: 0 <= j < |line| ==> input[j] == line[j];
    assert NewlineAt(input) == |line|;
    assert input[..|line|] == line;
  }

  /** `n` spaces before a text not starting with one are its leading spaces. */
  lemma {:induction false} LeadOfSpaces(n: nat, t: string)
    requires t != [] && t[0] != ' '
    ensures Lead(Spaces(n) + t) == n
  {
    if n > 0 {
      var s := Spaces(n) + t;
      assert s[0] == ' ';
      assert s[1..] == Spaces(n - 1) + t by {
        SpacesCons(n);
      }
      LeadOfSpaces(n - 1, t);
    } else {
      assert Spaces(0) + t == t;
    }
  }

  /** `n` spaces are one space followed by `n - 1` spaces. */
  lemma SpacesCons(n: nat)
    requires n > 0
    ensures Spaces(n) == " " + Spaces(n - 1)
  {
    assert AllSpaces(Spaces(n)) && AllSpaces(Spaces(n - 1));
    assert forall j :: 0 <= j < n ==> Spaces(n)[j] == ' ';
  }

  /** A NUL inside the line ends the C string the loop sees: of a line
      `w<NUL>c`, only the word `w` is parsed and printed. */
  lemma NulCutsLine(w: string, c: string, r: string)
    requires w != "" && Plain(w) && '\n' !in w[1..] && '\0' !in w
    requires '\n' !in c && |w| + 1 + |c| <= SIZE_INPUT
    ensures DraftDefined(w + "\0" + c + "\n" + r)
    ensures Turn(w + "\0" + c + "\n" + r) == [Prompt, Numbered(1, w)]
  {
    var line := w + "\0" + c;
    assert line[0] == w[0] && w[0] in w;
    assert '\n' !in line[1..] by {
      assert forall j :: 1 <= j < |line| ==> line[j] == '\0' || line[j] in w[1..] || line[j] in c;
    }
    var input := w + "\0" + c + "\n" + r;
    assert input == line + "\n" + r;
    LineBeforeNewline(line, r);
    assert '\0' in line by { assert line[|w|] == '\0'; }
    UpToNulOfWord(w, c);
    assert w[|w| - 1] in w;
    assert DropTrailing(w) == w;
    WordBufferTurn(input, w);
  }

  /** What the loop stores of `w<NUL>c` reads, as a C string, as `w`. */
  lemma UpToNulOfWord(w: string, c: string)
    requires '\0' !in w
    ensures UpToNul(w + "\0" + c) == w
  {
    var s := w + "\0" + c;
    assert s[|w|] == '\0';
    assert forall j :: 0 <= j < |w| ==> s[j] == w[j];
    assert s[..|w|] == w;
  }

  /** A line whose first character is not a space, read up to its newline. */
  lemma LineBeforeNewline(line: string, r: string)
    requires line != [] && line[0] != ' ' && '\n' !in line[1..]
    ensures var input := line + "\n" + r;
      && DraftReadable(input)
      && DraftEnd(input) == |line|
      && DraftLine(input) == line
  {
    var input := line + "\n" + r;
    assert input[0] == line[0];
    assert input[|line|] == '\n';
    assert input[1..][|line| - 1] == '\n';
    assert DraftEnd(input) == |line| by {
      assert forall j :: 1 <= j < |line| ==> input[j] == line[1..][j - 1];
    }
    assert input[0..|line|] == line;
  }

  /** A turn whose buffer holds one plain word prints that word as argument 1. */
  lemma WordBufferTurn(input: string, w: string)
    requires DraftReadable(input) && |DraftLine(input)| <= SIZE_INPUT
    requires BufferAfter(input) == w && w != "" && Plain(w)
    ensures Turn(input) == [Prompt, Numbered(1, w)]
  {
    DraftLastWord([""], w);
    assert Flush([""], w) == [w];
  }

  /** Cutting at the first NUL commutes with dropping a prefix that holds no NUL. */
  lemma {:induction false} UpToNulSuffix(s: string, l: nat)
    requires l <= |UpToNul(s)|
    ensures UpToNul(s[l..]) == UpToNul(s)[l..]
  {
    if l > 0 {
      UpToNulSuffix(s[1..], l - 1);
      assert s[1..][l - 1..] == s[l..];
    }
  }

  /** The leading spaces of a stream and of its first `n` characters agree while a non-space remains among them. */
  lemma {:induction false} LeadOfPrefix(s: string, n: nat)
    requires n <= |s|
    ensures Lead(s) < n ==> Lead(s[..n]) == Lead(s)
    ensures Lead(s) >= n ==> Lead(s[..n]) == n
  {
    if s != [] && s[0] == ' ' && n > 0 {
      LeadOfPrefix(s[1..], n - 1);
      assert s[..n][1..] == s[1..][..n - 1];
    }
  }

  /** A blank line is not refused: the draft stores its newline and goes on
      reading the next line into the same buffer. */
  lemma BlankLineReadsNext(input: string)
    requires DraftReadable(input) && input[Lead(input)] == '\n'
    ensures var rest := input[Lead(input) + 1..];
      '\n' in rest && DraftLine(input) == "\n" + FirstLine(rest)
  {
    var l := Lead(input);
    var rest := input[l + 1..];
    var k := NewlineAt(rest);
    assert rest[k] == '\n';
    SliceSplit(input, l, DraftEnd(input));
  }

  lemma SliceSplit(s: string, i: nat, j: nat)
    requires i < j <= |s|
    ensures s[i..j] == [s[i]] + s[i + 1..][..j - i - 1]
  {
  }

  /** The first loop of the draft `get_input`: reads characters while they are spaces. */
  method SkipSpaces(input: string) returns (character: char, pos: nat)
    requires DraftReadable(input)
    ensures pos == Lead(input) + 1 && character == input[Lead(input)]
  {
    ghost var lead := Lead(input);
    pos := 1;
    character := input[0];
    while character == ' '
      invariant 1 <= pos <= lead + 1
      invariant character == input[pos - 1]
      invariant forall j :: 0 <= j < pos - 1 ==> input[j] == ' '
      decreases lead + 1 - pos
    {
      character := input[pos];
      pos := pos + 1;
    }
  }

  /** Empties the stream up to and including the newline at `e`, the first
      one from position `from` on. */
  method Drain(input: string, from: nat, ghost e: nat) returns (rest: string)
    requires from <= e < |input| && input[e] == '\n'
    requires forall j :: from <= j < e ==> input[j] != '\n'
    ensures rest == input[e + 1..]
  {
    var pos := from;
    var d := input[pos];
    pos := pos + 1;
    while d != '\n'
      invariant from < pos <= e + 1
      invariant d == input[pos - 1]
      decreases e + 1 - pos
    {
      d := input[pos];
      pos := pos + 1;
    }
    rest := input[pos..];
  }

  /** The storing loop of the draft `get_input` on the line `input[lead..e]`,
      whose first character `first` has been read and whose newline is at
      `e`: stores the character read last and reads the next one until the
      newline; once SIZE_INPUT characters are stored and another follows,
      empties the stream and gives up. */
  method StoreLine(ptr: array<char>, input: string, first: char, from: nat, ghost lead: nat, ghost e: nat)
      returns (overflow: bool, rest: string)
    requires ptr.Length == SIZE_INPUT
    requires forall j :: 0 <= j < SIZE_INPUT ==> ptr[j] == '\0'
    requires lead < e < |input| && input[e] == '\n'
    requires forall j :: lead < j < e ==> input[j] != '\n'
    requires from == lead + 1 && first == input[lead]
    modifies ptr
    ensures rest == input[e + 1..]
    ensures overflow <==> e - lead > SIZE_INPUT
    ensures !overflow ==> ptr[..e - lead] == input[lead..e]
    ensures !overflow ==> forall j :: e - lead <= j < SIZE_INPUT ==> ptr[j] == '\0'
  {
    var character, pos := first, from;
    var index := 0;
    while true
      invariant lead + 1 <= pos <= e
      invariant character == input[pos - 1]
      invariant index == pos - 1 - lead <= SIZE_INPUT
      invariant forall j :: 0 <= j < index ==> ptr[j] == input[lead + j]
      invariant forall j :: index <= j < SIZE_INPUT ==> ptr[j] == '\0'
      decreases e - pos
    {
      if index > SIZE_INPUT - 1 {
        rest := Drain(input, pos, e);
        return true, rest;
      }
      ptr[index] := character;
      index := index + 1;
      character := input[pos];
      pos := pos + 1;
      if character == '\n' {
        break;
      }
    }
    assert pos == e + 1 && index == e - lead;
    assert ptr[..index] == input[lead..e];
    return false, input[pos..];
  }

  /** The draft `get_input`, run on a buffer that `main` has cleared. It
      skips leading spaces, stores characters up to the newline, and on a
      line longer than SIZE_INPUT empties the stream up to the newline and
      returns 1. Otherwise it strips the trailing spaces of the C string
      stored (the line up to its first NUL) and returns 0. */
  method DraftGetInput(ptr: array<char>, input: string) returns (status: int, rest: string)
    requires ptr.Length == SIZE_INPUT
    requires forall j :: 0 <= j < SIZE_INPUT ==> ptr[j] == '\0'
    requires DraftDefined(input)
    modifies ptr
    ensures rest == input[DraftEnd(input) + 1..]
    ensures status == 0 || status == 1
    ensures status == 1 <==> |DraftLine(input)| > SIZE_INPUT
    ensures status == 0 ==> var t := DropTrailing(UpToNul(DraftLine(input)));
      |t| < SIZE_INPUT && ptr[..|t|] == t && ptr[|t|] == '\0'
    ensures status == 1 ==> ptr[0] == '\0'
  {
    ghost var full := DraftLine(input);
    forall k | 0 <= k < CLEARED_BYTES {
      ptr[k] := '\0';
    }
    var character, pos := SkipSpaces(input);
    var overflow;
    overflow, rest := StoreLine(ptr, input, character, pos, Lead(input), DraftEnd(input));
    if overflow {
      forall k | 0 <= k < CLEARED_BYTES {
        ptr[k] := '\0';
      }
      return 1, rest;
    }
    var len := StoredLength(ptr, full);
    StripTrailing(ptr, len);
    status := 0;
  }

  // ---------------------------------------------------------------------------
  // The read-print loop
  // ---------------------------------------------------------------------------

  /** What `main` writes: the prompt, the overflow error of `get_input`, and one numbered line per argument. */
  datatype Out = Prompt | TooLong | Numbered(index: nat, arg: string)

  /** `strcasecmp(s, "exit") == 0`: `s` spells `exit` in any mix of cases. */
  predicate IsExit(s: string) {
    |s| == 4 && forall k :: 0 <= k < 4 ==> ToLower(s[k]) == "exit"[k]
  }

  /** The buffer as a C string after one read: empty after an overflow,
      otherwise the line up to its first NUL without trailing spaces. */
  function BufferAfter(input: string): (b: string)
    requires DraftReadable(input)
    ensures '\0' !in b
  {
    if |DraftLine(input)| > SIZE_INPUT then ""
    else
      var t := DropTrailing(UpToNul(DraftLine(input)));
      assert forall j :: 0 <= j < |t| ==> t[j] == UpToNul(DraftLine(input))[j];
      t
  }

  /** The lines printed for a list of arguments, numbered from 1. */
  function Listing(tokens: seq<string>): (out: seq<Out>)
    ensures |out| == |tokens|
    ensures forall k :: 0 <= k < |tokens| ==> out[k] == Numbered(k + 1, tokens[k])
  {
    seq(|tokens|, k requires 0 <= k < |tokens| => Numbered(k + 1, tokens[k]))
  }

  /** What one turn of the loop writes for the line at the head of `input`. */
  function Turn(input: string): seq<Out>
    requires DraftReadable(input)
  {
    if |DraftLine(input)| > SIZE_INPUT then [Prompt, TooLong]
    else [Prompt] + Listing(DraftParse(BufferAfter(input)))
  }

  /** Everything `main` writes while reading `input`: one turn per line,
      ending after the turn whose buffer reads `exit`, or when the stream
      has no further complete line. */
  function Session(input: string): seq<Out>
    decreases |input|
  {
    if !DraftDefined(input) then []
    else if IsExit(BufferAfter(input)) then Turn(input)
    else Turn(input) + Session(input[DraftEnd(input) + 1..])
  }

  /** The C string held by a buffer: its characters up to the first NUL. */
  method CString(a: array<char>) returns (s: string)
    requires exists k :: 0 <= k < a.Length && a[k] == '\0'
    ensures |s| < a.Length && s == a[..|s|] && a[|s|] == '\0'
    ensures '\0' !in s
  {
    var n := StrLen(a);
    s := a[..n];
  }

  lemma SameCString(a: seq<char>, s: string, t: string)
    requires |s| < |a| && s == a[..|s|] && a[|s|] == '\0' && '\0' !in s
    requires |t| < |a| && t == a[..|t|] && a[|t|] == '\0' && '\0' !in t
    ensures s == t
  {
  }

  /** The read of one turn: `main` clears the buffer, `get_input` fills it,
      and the loop then sees the buffer as a C string. */
  method ReadLine(buf: array<char>, input: string) returns (status: int, line: string, rest: string)
    requires buf.Length == SIZE_INPUT
    requires DraftDefined(input)
    modifies buf
    ensures status == 0 <==> |DraftLine(input)| <= SIZE_INPUT
    ensures line == BufferAfter(input)
    ensures rest == input[DraftEnd(input) + 1..]
  {
    forall k | 0 <= k < buf.Length {
      buf[k] := '\0';
    }
    status, rest := DraftGetInput(buf, input);
    ghost var t := BufferAfter(input);
    assert buf[|t|] == '\0';
    line := CString(buf);
    SameCString(buf[..], line, t);
  }

  /** One turn of `main`: prompt, read, and print the numbered arguments. */
  method RunTurn(buf: array<char>, input: string) returns (out: seq<Out>, line: string, rest: string)
    requires buf.Length == SIZE_INPUT
    requires DraftDefined(input)
    modifies buf
    ensures out == Turn(input)
    ensures line == BufferAfter(input)
    ensures rest == input[DraftEnd(input) + 1..]
  {
    out := [Prompt];
    var status;
    status, line, rest := ReadLine(buf, input);
    if status == 0 {
      var tokens := DraftParseLoop(line);
      var argc := DraftGetArgc(tokens);
      var i := 0;
      while i < argc
        invariant 0 <= i <= argc
        invariant out == [Prompt] + Listing(tokens[..i])
      {
        var arg, _ := DraftGetArgv(tokens, i);
        assert tokens[..i + 1] == tokens[..i] + [tokens[i]];
        out := out + [Numbered(i + 1, arg.value)];
        i := i + 1;
      }
      assert tokens[..argc] == tokens;
    } else {
      out := out + [TooLong];
    }
  }

  lemma SessionStep(input: string)
    requires DraftDefined(input)
    ensures IsExit(BufferAfter(input)) ==> Session(input) == Turn(input)
    ensures !IsExit(BufferAfter(input)) ==> Session(input) == Turn(input) + Session(input[DraftEnd(input) + 1..])
  {
  }

  /** `main`: runs turns over the stream until the buffer reads `exit` in any case. */
  method Repl(input: string) returns (out: seq<Out>)
    ensures out == Session(input)
  {
    var buf := new char[SIZE_INPUT];
    var rest := input;
    out := [];
    while true
      invariant out + Session(rest) == Session(input)
      decreases |rest|
    {
      if !DraftDefined(rest) {
        assert out == Session(input);
        return;
      }
      var turn, line, rest';
      turn, line, rest' := RunTurn(buf, rest);
      SessionStep(rest);
      if IsExit(line) {
        out := out + turn;
        return;
      }
      AppendAssoc(out, turn, Session(rest'));
      out := out + turn;
      rest := rest';
    }
  }

  // ---------------------------------------------------------------------------
  // Properties of the loop
  // ---------------------------------------------------------------------------

  /** A line holding one plain word `w` (at most SIZE_INPUT - 1 characters,
      no newline after its first character) followed by a newline. */
  lemma WordLine(w: string, r: string)
    requires w != "" && Plain(w) && '\n' !in w[1..] && '\0' !in w && |w| < SIZE_INPUT
    ensures var input := w + "\n" + r;
      && DraftDefined(input)
      && DraftEnd(input) == |w|
      && DraftLine(input) == w
      && BufferAfter(input) == w
      && Turn(input) == [Prompt, Numbered(1, w)]
  {
    var input := w + "\n" + r;
    assert w[0] in w;
    LineBeforeNewline(w, r);
    UpToNulCuts(w);
    assert w[|w| - 1] in w;
    assert DropTrailing(w) == w;
    WordBufferTurn(input, w);
  }

  /** A line that reads `exit` in any mix of cases ends the loop after its
      turn: its numbered argument is the last thing written and nothing
      after it is read. */
  lemma ExitEndsSession(w: string, r: string)
    requires IsExit(w)
    ensures Session(w + "\n" + r) == [Prompt, Numbered(1, w)]
  {
    assert forall k :: 0 <= k < 4 ==> w[k] != ' ' && w[k] != '"' && w[k] != '\n' && w[k] != '\0' by {
      forall k | 0 <= k < 4 ensures w[k] != ' ' && w[k] != '"' && w[k] != '\n' && w[k] != '\0' {
        assert ToLower(w[k]) == "exit"[k];
      }
    }
    assert forall x :: x in w[1..] ==> x in w;
    WordLine(w, r);
  }

  lemma ExitExample()
    ensures Session("ExIt\nls\n") == [Prompt, Numbered(1, "ExIt")]
  {
    var input := "ExIt\nls\n";
    assert input == "ExIt" + "\n" + "ls\n";
    assert IsExit("ExIt");
    ExitEndsSession("ExIt", "ls\n");
  }

  /** Any other one-word line is printed as argument 1 and the loop reads on. */
  lemma WordLineContinues(w: string, r: string)
    requires w != "" && Plain(w) && '\n' !in w[1..] && '\0' !in w && |w| < SIZE_INPUT && !IsExit(w)
    ensures Session(w + "\n" + r) == [Prompt, Numbered(1, w)] + Session(r)
  {
    WordLine(w, r);
    var input := w + "\n" + r;
    assert input[|w| + 1..] == r;
  }

  /** A blank line joins the next line: the draft prints a single argument
      made of a newline and the next line's word. */
  lemma BlankLineJoinsNextInSession(w: string, r: string)
    requires w != "" && Plain(w) && '\n' !in w && '\0' !in w && |w| < SIZE_INPUT - 1
    ensures Session("\n" + w + "\n" + r) == [Prompt, Numbered(1, "\n" + w)] + Session(r)
  {
    var v := "\n" + w;
    assert forall x :: x in v ==> x == '\n' || x in w;
    assert v[1..] == w;
    assert !IsExit(v) by { assert ToLower(v[0]) == '\n'; }
    WordLineContinues(v, r);
    assert "\n" + w + "\n" + r == v + "\n" + r;
  }
}
