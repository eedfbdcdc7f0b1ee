/**
 * The quote-aware lexer of utils.c (`parse_input`) and the token list
 * accessors (`get_argc`, `get_argv`, `is_option`).
 *
 * The C code keeps the arguments in a singly linked list of `Token` nodes
 * whose head is allocated empty; here the list is the sequence of the
 * nodes' `argument` strings, head first.
 */
module Tokenizer {
  import opened Prelude

  /** The lexer's variables: `marks` (inside a quoted span), `parsing` (just flushed),
      the accumulator `buffer`, and the arguments stored so far. */
  datatype Lexer = Lexer(marks: bool, parsing: bool, buffer: string, tokens: seq<string>)

  /** Before the first character: both flags clear, an empty buffer, and an empty head node. */
  const Start: Lexer := Lexer(false, false, "", [""])

  /** Store a finished argument: while the head node is still empty it is
      overwritten, otherwise a node is appended at the tail. */
  function Flush(tokens: seq<string>, arg: string): seq<string>
    requires |tokens| > 0
  {
    if tokens[0] == "" then tokens[0 := arg] else tokens + [arg]
  }

  /** One iteration of the parsing loop on character `c`; `last` says whether `c` ends the line. */
  function Step(st: Lexer, c: char, last: bool): Lexer
    requires |st.tokens| > 0
  {
    if (c == ' ' && !st.parsing && !st.marks) || last then
      var arg := if last && c != '"' then st.buffer + [c] else st.buffer;
      Lexer(st.marks, true, "", Flush(st.tokens, arg))
    else if c == '"' && !st.marks then st.(marks := true)
    else if c == '"' && st.marks then st.(marks := false)
    else if c != ' ' || st.marks then st.(buffer := st.buffer + [c], parsing := false)
    else st
  }

  /** The arguments produced by running the loop from state `st` over the remaining characters `rest`. */
  function Lex(st: Lexer, rest: string): (tokens: seq<string>)
    requires |st.tokens| > 0
    ensures |tokens| > 0
    ensures |tokens| >= |st.tokens|
    decreases |rest|
  {
    if rest == [] then st.tokens
    else Lex(Step(st, rest[0], |rest| == 1), rest[1..])
  }

  /** The argument list `parse_input` builds for `line` (allocation failures aside). */
  function ParseInput(line: string): seq<string> {
    Lex(Start, line)
  }

  /** `parse_input`: the character loop with its two flags, its accumulator and the tail append. */
  method ParseInputLoop(line: string) returns (tokens: seq<string>)
    ensures tokens == ParseInput(line)
  {
    var marks, parsing := false, false;
    var buffer: string := "";
    tokens := [""];
    var i := 0;
    while i < |line|
      invariant 0 <= i <= |line|
      invariant |tokens| > 0
      invariant Lex(Lexer(marks, parsing, buffer, tokens), line[i..]) == ParseInput(line)
    {
      var c := line[i];
      var last := i == |line| - 1;
      assert line[i..][1..] == line[i + 1..];
      if (c == ' ' && !parsing && !marks) || last {
        parsing := true;
        if last && c != '"' {
          buffer := buffer + [c];
        }
        if tokens[0] == "" {
          tokens := tokens[0 := buffer];
        } else {
          tokens := tokens + [buffer];
        }
        buffer := "";
      } else if c == '"' && !marks {
        marks := true;
      } else if c == '"' && marks {
        marks := false;
      } else if c != ' ' || marks {
        buffer := buffer + [c];
        parsing := false;
      }
      i := i + 1;
    }
  }

  /** `get_argc`: walks the list from the head, counting nodes. */
  method GetArgc(tokens: seq<string>) returns (argc: nat)
    ensures argc == |tokens|
  {
    argc := 0;
    var node := tokens;
    while node != []
      invariant argc + |node| == |tokens|
    {
      node := node[1..];
      argc := argc + 1;
    }
  }

  /** `get_argv`: follows `index` links from the head; None (after an
      "index out of range" message) when the list ends first. A negative
      index takes no step and yields the head. */
  method GetArgv(tokens: seq<string>, index: int) returns (arg: Option<string>)
    requires |tokens| > 0
    ensures 0 <= index < |tokens| ==> arg == Some(tokens[index])
    ensures index < 0 ==> arg == Some(tokens[0])
    ensures index >= |tokens| ==> arg == None
  {
    var node := tokens;
    var i := 0;
    while i < index
      invariant 0 <= i
      invariant index >= 0 ==> i <= index
      invariant index < 0 ==> i == 0
      invariant i < |tokens| && node == tokens[i..]
    {
      if |node| == 1 {
        return None;
      }
      node := node[1..];
      i := i + 1;
    }
    arg := Some(node[0]);
  }

  /** `is_option`: a non-NULL string of at least two characters starting with `'-'`. */
  predicate IsOption(arg: Option<string>) {
    arg.Some? && |arg.value| > 1 && arg.value[0] == '-'
  }

  /** An option is exactly a dash followed by a non-empty flag string; a
      lone "-" and the NULL argument are not options. */
  lemma OptionIsDashThenFlags(arg: Option<string>)
    ensures IsOption(arg) <==> exists flags :: flags != [] && arg == Some(['-'] + flags)
  {
    if IsOption(arg) {
      var v := arg.value;
      assert v == [v[0]] + v[1..];
      assert arg == Some(['-'] + v[1..]);
    }
  }

  // ---------------------------------------------------------------------------
  // Properties of the lexer
  // ---------------------------------------------------------------------------

  /** No `'"'` anywhere in the stored arguments or the accumulator. */
  predicate QuoteFree(st: Lexer) {
    '"' !in st.buffer && forall t :: t in st.tokens ==> '"' !in t
  }

  lemma {:induction false} LexQuoteFree(st: Lexer, rest: string)
    requires |st.tokens| > 0 && QuoteFree(st)
    ensures forall t :: t in Lex(st, rest) ==> '"' !in t
    decreases |rest|
  {
    if rest != [] {
      var st' := Step(st, rest[0], |rest| == 1);
      assert QuoteFree(st') by {
        if st'.tokens != st.tokens {
          forall t | t in st'.tokens ensures '"' !in t {
            if t !in st.tokens {
              assert t == (if |rest| == 1 && rest[0] != '"' then st.buffer + [rest[0]] else st.buffer);
            }
          }
        }
      }
      LexQuoteFree(st', rest[1..]);
    }
  }

  /** Quote marks are delimiters only: no argument ever contains `'"'`. */
  lemma NoQuoteInTokens(line: string)
    ensures forall t :: t in ParseInput(line) ==> '"' !in t
  {
    LexQuoteFree(Start, line);
  }

  /** The states the loop passes through before the last character:
      either nothing was stored yet, or every stored argument is non-empty;
      and a clear `parsing` flag after a store means the buffer holds something. */
  predicate Settled(st: Lexer) {
    && |st.tokens| > 0
    && (st.tokens == [""] || forall k :: 0 <= k < |st.tokens| ==> st.tokens[k] != "")
    && (!st.parsing ==> st.buffer != "" || st.tokens == [""])
  }

  /** Every argument but the last is non-empty. */
  predicate InteriorNonEmpty(ts: seq<string>) {
    forall k :: 0 <= k < |ts| - 1 ==> ts[k] != ""
  }

  lemma {:induction false} LexInteriorNonEmpty(st: Lexer, rest: string)
    requires Settled(st)
    ensures InteriorNonEmpty(Lex(st, rest))
    decreases |rest|
  {
    if rest != [] {
      var st' := Step(st, rest[0], |rest| == 1);
      assert Lex(st, rest) == Lex(st', rest[1..]);
      if |rest| == 1 {
        assert rest[1..] == [];
        assert InteriorNonEmpty(st'.tokens);
      } else {
        assert Settled(st');
        LexInteriorNonEmpty(st', rest[1..]);
      }
    }
  }

  /** A run of unquoted spaces never produces an empty argument: only the
      final argument of the list can be empty. */
  lemma OnlyLastTokenMayBeEmpty(line: string)
    ensures InteriorNonEmpty(ParseInput(line))
  {
    assert Settled(Start);
    LexInteriorNonEmpty(Start, line);
  }

  /** Whether position `i` of `line` lies inside a quoted span: an odd number of `'"'` precede it. */
  function InQuotes(line: string, i: nat): bool
    requires i <= |line|
  {
    if i == 0 then false else InQuotes(line, i - 1) != (line[i - 1] == '"')
  }

  /** Whether the lexer keeps character `i` in some argument: the final
      character unless it is a quote; any other character unless it is a
      quote or an unquoted space. */
  predicate KeptAt(line: string, i: nat)
    requires i < |line|
  {
    if i == |line| - 1 then line[i] != '"'
    else line[i] != '"' && (line[i] != ' ' || InQuotes(line, i))
  }

  /** The kept characters among the first `k` of `line`, in order. */
  function KeptUpTo(line: string, k: nat): string
    requires k <= |line|
  {
    if k == 0 then [] else KeptUpTo(line, k - 1) + (if KeptAt(line, k - 1) then [line[k - 1]] else [])
  }

  /** The head node is empty only while it is the only node. */
  predicate HeadEmptyAlone(tokens: seq<string>) {
    |tokens| > 0 && (tokens[0] == "" ==> tokens == [""])
  }

  lemma FlushConcat(tokens: seq<string>, arg: string)
    requires HeadEmptyAlone(tokens)
    ensures HeadEmptyAlone(Flush(tokens, arg))
    ensures Concat(Flush(tokens, arg)) == Concat(tokens) + arg
  {
    if tokens[0] == "" {
      assert Flush(tokens, arg) == [] + [arg];
      ConcatSnoc([], arg);
    } else {
      ConcatSnoc(tokens, arg);
    }
  }

  /** One loop iteration keeps the correspondence between what was stored and the kept characters. */
  lemma StepKept(line: string, i: nat, st: Lexer)
    requires i < |line|
    requires HeadEmptyAlone(st.tokens)
    requires Concat(st.tokens) + st.buffer == KeptUpTo(line, i)
    requires st.marks == InQuotes(line, i)
    ensures var st' := Step(st, line[i], i == |line| - 1);
      && HeadEmptyAlone(st'.tokens)
      && Concat(st'.tokens) + st'.buffer == KeptUpTo(line, i + 1)
      && (i + 1 < |line| ==> st'.marks == InQuotes(line, i + 1))
      && (i + 1 == |line| ==> st'.buffer == "")
  {
    var c, last := line[i], i == |line| - 1;
    var kept := KeptUpTo(line, i);
    assert KeptUpTo(line, i + 1) == kept + (if KeptAt(line, i) then [c] else []);
    if (c == ' ' && !st.parsing && !st.marks) || last {
      var arg := if last && c != '"' then st.buffer + [c] else st.buffer;
      FlushConcat(st.tokens, arg);
      assert Concat(st.tokens) + arg == KeptUpTo(line, i + 1);
    } else if c == '"' {
      assert !KeptAt(line, i);
      assert InQuotes(line, i + 1) == !InQuotes(line, i);
    } else if c != ' ' || st.marks {
      assert KeptAt(line, i);
      assert Concat(st.tokens) + (st.buffer + [c]) == kept + [c];
    } else {
      assert !KeptAt(line, i);
    }
  }

  lemma {:induction false} LexKept(line: string, i: nat, st: Lexer)
    requires i <= |line|
    requires HeadEmptyAlone(st.tokens)
    requires Concat(st.tokens) + st.buffer == KeptUpTo(line, i)
    requires i < |line| ==> st.marks == InQuotes(line, i)
    requires i == |line| ==> st.buffer == ""
    ensures Concat(Lex(st, line[i..])) == KeptUpTo(line, |line|)
    decreases |line| - i
  {
    if i == |line| {
      assert line[i..] == [];
    } else {
      assert line[i..][0] == line[i] && line[i..][1..] == line[i + 1..];
      var st' := Step(st, line[i], i == |line| - 1);
      StepKept(line, i, st);
      LexKept(line, i + 1, st');
    }
  }

  /** Nothing but quote marks and unquoted spaces is dropped: joined
      together, the arguments are exactly the kept characters of the line. */
  lemma TokensAreKeptCharacters(line: string)
    ensures Concat(ParseInput(line)) == KeptUpTo(line, |line|)
  {
    assert line[0..] == line;
    assert Concat([""]) == "";
    LexKept(line, 0, Start);
  }

  // ---------------------------------------------------------------------------
  // Space-separated words round-trip through the lexer
  // ---------------------------------------------------------------------------

  /** A word that the lexer copies as is: no space and no quote mark. */
  predicate Plain(w: string) {
    ' ' !in w && '"' !in w
  }

  /** Words joined by single spaces. */
  function JoinWords(ws: seq<string>): (line: string)
    requires |ws| > 0
    ensures |line| >= |ws[0]|
  {
    if |ws| == 1 then ws[0] else ws[0] + " " + JoinWords(ws[1..])
  }

  lemma {:induction false} LexPlainPrefix(acc: string, p: bool, tokens: seq<string>, w: string, tail: string)
    requires |tokens| > 0 && Plain(w) && |tail| > 0
    ensures Lex(Lexer(false, p, acc, tokens), w + tail)
         == Lex(Lexer(false, if w == [] then p else false, acc + w, tokens), tail)
    decreases |w|
  {
    if w != [] {
      assert (w + tail)[0] == w[0] && (w + tail)[1..] == w[1..] + tail;
      assert w[0] in w;
      assert Plain(w[1..]) by { assert forall x :: x in w[1..] ==> x in w; }
      LexPlainPrefix(acc + [w[0]], false, tokens, w[1..], tail);
      assert acc + [w[0]] + w[1..] == acc + w;
    } else {
      assert w + tail == tail && acc + w == acc;
    }
  }

  lemma LexLastWord(p: bool, tokens: seq<string>, w: string)
    requires |tokens| > 0 && w != "" && Plain(w)
    ensures Lex(Lexer(false, p, "", tokens), w) == Flush(tokens, w)
  {
    var last := w[|w| - 1];
    assert last in w;
    var init := w[..|w| - 1];
    assert Plain(init) by { assert forall x :: x in init ==> x in w; }
    LexPlainPrefix("", p, tokens, init, [last]);
    assert init + [last] == w && "" + init == init;
    var st := Lexer(false, if init == [] then p else false, init, tokens);
    assert Lex(st, [last]) == Lex(Step(st, last, true), []);
  }

  lemma LexWordThenSpace(p: bool, tokens: seq<string>, w: string, more: string)
    requires |tokens| > 0 && w != "" && Plain(w) && more != ""
    ensures Lex(Lexer(false, p, "", tokens), w + " " + more)
         == Lex(Lexer(false, true, "", Flush(tokens, w)), more)
  {
    LexPlainPrefix("", p, tokens, w, " " + more);
    assert w + " " + more == w + (" " + more);
    assert (" " + more)[0] == ' ' && (" " + more)[1..] == more;
    var st := Lexer(false, false, "" + w, tokens);
    assert Lex(st, " " + more) == Lex(Step(st, ' ', false), more);
    assert "" + w == w;
  }

  lemma {:induction false} LexWordsFrom(p: bool, tokens: seq<string>, ws: seq<string>)
    requires |tokens| > 0 && (tokens == [""] || tokens[0] != "")
    requires |ws| > 0 && forall k :: 0 <= k < |ws| ==> ws[k] != "" && Plain(ws[k])
    ensures Lex(Lexer(false, p, "", tokens), JoinWords(ws)) == if tokens == [""] then ws else tokens + ws
    decreases |ws|
  {
    var w := ws[0];
    if |ws| == 1 {
      LexLastWord(p, tokens, w);
    } else {
      var more := JoinWords(ws[1..]);
      LexWordThenSpace(p, tokens, w, more);
      LexWordsFrom(true, Flush(tokens, w), ws[1..]);
      if tokens == [""] {
        assert [w] + ws[1..] == ws;
      } else {
        assert tokens + [w] + ws[1..] == tokens + ws;
      }
    }
  }

  /** Joining non-empty plain words with single spaces and lexing the result gives the words back. */
  lemma WordsRoundTrip(ws: seq<string>)
    requires |ws| > 0 && forall k :: 0 <= k < |ws| ==> ws[k] != "" && Plain(ws[k])
    ensures ParseInput(JoinWords(ws)) == ws
  {
    LexWordsFrom(false, [""], ws);
  }

  // ---------------------------------------------------------------------------
  // Quoted spans
  // ---------------------------------------------------------------------------

  lemma {:induction false} LexQuotedPrefix(acc: string, p: bool, tokens: seq<string>, q: string, tail: string)
    requires |tokens| > 0 && '"' !in q && |tail| > 0
    ensures Lex(Lexer(true, p, acc, tokens), q + tail)
         == Lex(Lexer(true, if q == [] then p else false, acc + q, tokens), tail)
    decreases |q|
  {
    if q != [] {
      assert (q + tail)[0] == q[0] && (q + tail)[1..] == q[1..] + tail;
      assert q[0] in q;
      assert '"' !in q[1..] by { assert forall x :: x in q[1..] ==> x in q; }
      LexQuotedPrefix(acc + [q[0]], false, tokens, q[1..], tail);
      assert acc + [q[0]] + q[1..] == acc + q;
    } else {
      assert q + tail == tail && acc + q == acc;
    }
  }

  /** A span `"q"` followed by more characters adds `q`, spaces included, to the argument being built. */
  lemma LexQuotedSpan(acc: string, p: bool, tokens: seq<string>, q: string, tail: string)
    requires |tokens| > 0 && '"' !in q && |tail| > 0
    ensures Lex(Lexer(false, p, acc, tokens), ['"'] + q + ['"'] + tail)
         == Lex(Lexer(false, if q == [] then p else false, acc + q, tokens), tail)
  {
    var closing := ['"'] + tail;
    var line := ['"'] + (q + closing);
    assert ['"'] + q + ['"'] + tail == line;
    assert line[0] == '"' && line[1..] == q + closing;
    assert Lex(Lexer(false, p, acc, tokens), line) == Lex(Lexer(true, p, acc, tokens), q + closing);
    LexQuotedPrefix(acc, p, tokens, q, closing);
    var st := Lexer(true, if q == [] then p else false, acc + q, tokens);
    assert closing[0] == '"' && closing[1..] == tail;
    assert Lex(st, closing) == Lex(Step(st, '"', false), tail);
  }

  /** An unterminated quote: the rest of the line, spaces included, ends up in the last argument. */
  lemma LexUnterminatedQuote(p: bool, tokens: seq<string>, q: string)
    requires |tokens| > 0 && '"' !in q && q != ""
    ensures Lex(Lexer(false, p, "", tokens), ['"'] + q) == Flush(tokens, q)
  {
    var last := q[|q| - 1];
    var init := q[..|q| - 1];
    assert init + [last] == q;
    assert last != '"' by { assert last in q; }
    var st := Lexer(true, if init == [] then p else false, init, tokens);
    assert Step(st, last, true) == Lexer(true, true, "", Flush(tokens, q));
    assert Lex(st, [last]) == Flush(tokens, q) by {
      assert [last][0] == last && [last][1..] == [];
    }
    assert '"' !in init by { assert forall x :: x in init ==> x in q; }
    LexQuotedPrefix("", p, tokens, init, [last]);
    assert "" + init == init;
    var line := ['"'] + q;
    assert line[0] == '"' && line[1..] == q;
    assert Step(Lexer(false, p, "", tokens), '"', false) == Lexer(true, p, "", tokens);
  }

  /** An unquoted space after a non-empty argument stores it. */
  lemma LexSpaceFlush(acc: string, tokens: seq<string>, more: string)
    requires |tokens| > 0 && more != ""
    ensures Lex(Lexer(false, false, acc, tokens), " " + more)
         == Lex(Lexer(false, true, "", Flush(tokens, acc)), more)
  {
    assert (" " + more)[0] == ' ' && (" " + more)[1..] == more;
  }

  /** A quoted span between two words stays one argument, spaces included:
      `cmd "q" w` gives `[cmd, q, w]` (for instance `echo "hello world" foo`). */
  lemma QuotedArgument(cmd: string, q: string, w: string)
    requires cmd != "" && Plain(cmd) && w != "" && Plain(w) && q != "" && '"' !in q
    ensures ParseInput(cmd + " " + (['"'] + q + ['"'] + " " + w)) == [cmd, q, w]
  {
    assert ParseInput(cmd + " " + (['"'] + q + ['"'] + " " + w))
        == Lex(Lexer(false, false, "", [""]), cmd + " " + (['"'] + q + ['"'] + " " + w));
    LexWordThenSpace(false, [""], cmd, ['"'] + q + ['"'] + " " + w);
    assert Flush([""], cmd) == [cmd];
    LexQuotedSpan("", true, [cmd], q, " " + w);
    assert ['"'] + q + ['"'] + " " + w == ['"'] + q + ['"'] + (" " + w);
    assert "" + q == q;
    LexSpaceFlush(q, [cmd], w);
    assert Flush([cmd], q) == [cmd, q];
    LexLastWord(true, [cmd, q], w);
    assert Flush([cmd, q], w) == [cmd, q, w];
  }

  lemma QuotedSpanExample()
    ensures ParseInput("echo \"hello world\" foo") == ["echo", "hello world", "foo"]
  {
    QuotedArgument("echo", "hello world", "foo");
    assert "echo" + " " + (['"'] + "hello world" + ['"'] + " " + "foo") == "echo \"hello world\" foo";
  }

  /** An unterminated quote is not an error: the rest of the line becomes the
      last argument, so `cmd "q` gives `[cmd, q]` (for instance `echo "abc`). */
  lemma UnterminatedQuote(cmd: string, q: string)
    requires cmd != "" && Plain(cmd) && q != "" && '"' !in q
    ensures ParseInput(cmd + " " + (['"'] + q)) == [cmd, q]
  {
    assert ParseInput(cmd + " " + (['"'] + q)) == Lex(Lexer(false, false, "", [""]), cmd + " " + (['"'] + q));
    LexWordThenSpace(false, [""], cmd, ['"'] + q);
    assert Flush([""], cmd) == [cmd];
    LexUnterminatedQuote(true, [cmd], q);
    assert Flush([cmd], q) == [cmd, q];
  }

  lemma UnterminatedQuoteExample()
    ensures ParseInput("echo \"abc") == ["echo", "abc"]
  {
    UnterminatedQuote("echo", "abc");
    assert "echo" + " " + (['"'] + "abc") == "echo \"abc";
  }

  /** The empty line still yields one (empty) argument: the list is never empty. */
  lemma EmptyLineExample()
    ensures ParseInput("") == [""]
  {
  }
}
