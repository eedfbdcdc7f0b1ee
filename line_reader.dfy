/**
 * The line reader of utils.c (`get_input`): reads one line of the input
 * stream into a fixed buffer of SIZE_INPUT characters, rejects empty and
 * over-long lines, and strips leading and trailing spaces in place.
 *
 * The stream that `getchar` reads is a parameter; what the reader leaves of
 * it is returned.
 */
module LineReader {
  import opened Prelude

  /** `SIZE_INPUT`: the capacity of the input buffer, in characters. */
  const SIZE_INPUT: nat := 100

  /** Position of the first newline of the stream. */
  function NewlineAt(input: string): (k: nat)
    requires '\n' in input
    ensures k < |input| && input[k] == '\n'
    ensures forall j :: 0 <= j < k ==> input[j] != '\n'
  {
    if input[0] == '\n' then 0
    else
      assert forall j :: 0 <= j < |input| - 1 ==> input[1..][j] == input[j + 1];
      assert '\n' in input[1..];
      1 + NewlineAt(input[1..])
  }

  /** The characters before the first newline: the line being entered. */
  function FirstLine(input: string): string
    requires '\n' in input
  {
    input[..NewlineAt(input)]
  }

  /** The C string a stored line reads as: its characters before the first
      NUL, which is where `strlen` stops. */
  function UpToNul(s: string): (c: string)
    ensures |c| <= |s| && c == s[..|c|]
    ensures '\0' !in c
    ensures |c| < |s| ==> s[|c|] == '\0'
  {
    if s == [] || s[0] == '\0' then []
    else
      var c := [s[0]] + UpToNul(s[1..]);
      assert s[..|c|] == [s[0]] + s[1..][..|c| - 1];
      c
  }

  /** A line without NUL reads whole; a NUL cuts it, and a NUL first leaves nothing. */
  lemma UpToNulCuts(s: string)
    ensures '\0' !in s <==> UpToNul(s) == s
    ensures UpToNul(s) == [] <==> s == [] || s[0] == '\0'
  {
  }

  /** Number of leading spaces of `s`. */
  function Lead(s: string): (n: nat)
    ensures n <= |s|
    ensures forall j :: 0 <= j < n ==> s[j] == ' '
    ensures n < |s| ==> s[n] != ' '
  {
    if s != [] && s[0] == ' ' then 1 + Lead(s[1..]) else 0
  }

  /** `start_index`: the position of the first non-space character, or 0 when there is none. */
  function StartIndex(s: string): nat {
    if Lead(s) == |s| then 0 else Lead(s)
  }

  /** `s` without its trailing spaces. */
  function DropTrailing(s: string): (r: string)
    ensures |r| <= |s| && r == s[..|r|]
    ensures forall j :: |r| <= j < |s| ==> s[j] == ' '
    ensures |r| > 0 ==> s[|r| - 1] != ' '
  {
    if s != [] && s[|s| - 1] == ' ' then DropTrailing(s[..|s| - 1]) else s
  }

  /** What a successful `get_input` leaves in the buffer: the line from
      `start_index` on, without its trailing spaces. */
  function Trim(s: string): string {
    DropTrailing(s[StartIndex(s)..])
  }

  /** The trimmed line is the line with its leading and trailing spaces cut
      off and its interior unchanged; it starts and ends with a non-space. */
  lemma TrimIsInterior(s: string)
    ensures Lead(s) + |Trim(s)| <= |s|
    ensures Trim(s) == s[Lead(s)..Lead(s) + |Trim(s)|]
    ensures forall j :: Lead(s) + |Trim(s)| <= j < |s| ==> s[j] == ' '
    ensures Trim(s) != [] ==> Trim(s)[0] != ' ' && Trim(s)[|Trim(s)| - 1] != ' '
  {
    if Lead(s) == |s| {
      TrimBlank(s);
    } else {
      TrimNonBlank(s);
    }
  }

  lemma {:induction false} DropAllSpaces(u: string)
    requires AllSpaces(u)
    ensures DropTrailing(u) == []
    decreases |u|
  {
    if u != [] {
      DropAllSpaces(u[..|u| - 1]);
    }
  }

  lemma TrimBlank(s: string)
    requires Lead(s) == |s|
    ensures Trim(s) == []
  {
    assert s[StartIndex(s)..] == s;
    DropAllSpaces(s);
  }

  lemma TrimNonBlank(s: string)
    requires Lead(s) < |s|
    ensures Lead(s) + |Trim(s)| <= |s|
    ensures Trim(s) == s[Lead(s)..Lead(s) + |Trim(s)|]
    ensures forall j :: Lead(s) + |Trim(s)| <= j < |s| ==> s[j] == ' '
    ensures Trim(s) != [] && Trim(s)[0] != ' ' && Trim(s)[|Trim(s)| - 1] != ' '
  {
    var l := Lead(s);
    assert StartIndex(s) == l;
    var u := s[l..];
    assert u[0] == s[l];
    var t := DropTrailing(u);
    assert Trim(s) == t;
    DropNonBlank(u);
    SliceOfSuffix(s, l, |t|);
    TrailingOfSuffix(s, l, |t|);
  }

  lemma DropNonBlank(u: string)
    requires u != [] && u[0] != ' '
    ensures var t := DropTrailing(u); t != [] && t[0] != ' ' && t[|t| - 1] != ' '
  {
    var t := DropTrailing(u);
    assert |t| > 0;
    assert t[0] == u[0];
  }

  lemma SliceOfSuffix(s: string, l: nat, n: nat)
    requires l + n <= |s|
    ensures s[l..][..n] == s[l..l + n]
  {
  }

  lemma TrailingOfSuffix(s: string, l: nat, n: nat)
    requires l + n <= |s|
    requires forall j :: n <= j < |s| - l ==> s[l..][j] == ' '
    ensures forall j :: l + n <= j < |s| ==> s[j] == ' '
  {
    forall j | l + n <= j < |s| ensures s[j] == ' ' {
      assert s[l..][j - l] == s[j];
    }
  }

  /** A line of spaces only trims to the empty string, and only such a line does. */
  lemma TrimEmptyIffAllSpaces(s: string)
    ensures Trim(s) == [] <==> AllSpaces(s)
  {
    TrimIsInterior(s);
    assert AllSpaces(s) ==> Lead(s) == |s|;
  }

  /** Lines on which the C code stays inside its buffer. A stored line of
      exactly SIZE_INPUT characters with no NUL in it leaves no terminator
      for `strlen`; on a C string of SIZE_INPUT - 1 characters with two or
      more leading spaces the shifting loop reads one character past the
      buffer. Longer lines are refused before either can happen. */
  predicate InBounds(line: string) {
    || |line| > SIZE_INPUT
    || ((|line| < SIZE_INPUT || '\0' in line)
        && (|UpToNul(line)| < SIZE_INPUT - 1 || StartIndex(UpToNul(line)) < 2))
  }

  /** `strlen`: the position of the first NUL. */
  method StrLen(a: array<char>) returns (n: nat)
    requires exists k :: 0 <= k < a.Length && a[k] == '\0'
    ensures n < a.Length && a[n] == '\0'
    ensures forall j :: 0 <= j < n ==> a[j] != '\0'
  {
    n := 0;
    while a[n] != '\0'
      invariant n < a.Length
      invariant forall j :: 0 <= j < n ==> a[j] != '\0'
      invariant exists k :: n <= k < a.Length && a[k] == '\0'
      decreases a.Length - n
    {
      n := n + 1;
    }
  }

  /** The reading loop of `get_input`: stores the characters of the line
      into the cleared buffer, or, once SIZE_INPUT characters are stored
      and more follow, empties the stream up to the newline and gives up. */
  method FetchLine(ptr: array<char>, input: string) returns (stored: bool, rest: string)
    requires ptr.Length == SIZE_INPUT
    requires '\n' in input
    requires forall j :: 0 <= j < SIZE_INPUT ==> ptr[j] == '\0'
    modifies ptr
    ensures rest == input[NewlineAt(input) + 1..]
    ensures stored <==> |FirstLine(input)| <= SIZE_INPUT
    ensures stored ==> ptr[..|FirstLine(input)|] == FirstLine(input)
    ensures stored ==> forall j :: |FirstLine(input)| <= j < SIZE_INPUT ==> ptr[j] == '\0'
    ensures !stored ==> ptr[..] == FirstLine(input)[..SIZE_INPUT]
  {
    ghost var nl := NewlineAt(input);
    var index := 0;
    var pos := 0;
    var character := input[pos];
    pos := pos + 1;
    while character != '\n'
      invariant 1 <= pos <= nl + 1
      decreases nl + 1 - pos
      invariant character == input[pos - 1]
      invariant index == pos - 1 <= SIZE_INPUT
      invariant ptr[..index] == input[..index]
      invariant forall j :: index <= j < SIZE_INPUT ==> ptr[j] == '\0'
    {
      if index > SIZE_INPUT - 1 {
        assert index < nl && ptr[..] == ptr[..index];
        assert FirstLine(input)[..SIZE_INPUT] == input[..SIZE_INPUT];
        // Empty the stream up to the newline
        while input[pos] != '\n'
          invariant pos <= nl
          decreases nl - pos
        {
          pos := pos + 1;
        }
        return false, input[pos + 1..];
      }
      ptr[index] := character;
      index := index + 1;
      character := input[pos];
      pos := pos + 1;
    }
    return true, input[pos..];
  }

  /** The loop computing `start_index` over the first `len` characters. */
  method FirstNonSpace(ptr: array<char>, len: nat) returns (start: nat)
    requires len <= ptr.Length
    ensures start == StartIndex(ptr[..len])
  {
    ghost var s := ptr[..len];
    start := 0;
    var i := 0;
    while i < len
      invariant 0 <= i <= len
      invariant forall j :: 0 <= j < i ==> ptr[j] == ' '
    {
      if ptr[i] != ' ' {
        start := i;
        break;
      }
      i := i + 1;
    }
    assert Lead(s) < |s| ==> s[Lead(s)] == ptr[Lead(s)];
    assert i < len ==> s[i] != ' ';
  }

  /** The shifting loop of `get_input`: moves the line `start` places to the
      left. Its bound `i > len + 1` writes `start - 2` spaces, not NULs,
      after the copied terminator; they lie past the string's end. */
  method ShiftLeft(ptr: array<char>, len: nat, start: nat)
    requires start <= len < ptr.Length && ptr[len] == '\0'
    requires start < 2 || len + 1 < ptr.Length
    modifies ptr
    ensures forall j :: 0 <= j < len - start ==> ptr[j] == old(ptr[j + start])
    ensures ptr[len - start] == '\0'
    ensures forall j :: len - start < j < len ==>
      ptr[j] == if j + start <= len + 1 then old(ptr[j + start]) else ' '
    ensures forall j :: len <= j < ptr.Length ==> ptr[j] == old(ptr[j])
  {
    ghost var line := ptr[..];
    var i := start;
    while i < len + start
      invariant start <= i <= len + start
      invariant forall j :: 0 <= j < i - start ==>
        ptr[j] == (if j + start <= len + 1 then line[j + start] else ' ')
      invariant forall j :: i - start <= j < ptr.Length ==> ptr[j] == line[j]
    {
      if i > len + 1 {
        ptr[i - start] := ' ';
      } else {
        ptr[i - start] := ptr[i];
      }
      i := i + 1;
    }
  }

  /** The loop removing trailing spaces: NULs over every space at the end
      of the C string of length `len`. */
  method StripTrailing(ptr: array<char>, len: nat)
    requires len < ptr.Length && ptr[len] == '\0'
    modifies ptr
    ensures var t := DropTrailing(old(ptr[..len]));
      ptr[..|t|] == t && forall j :: |t| <= j <= len ==> ptr[j] == '\0'
    ensures forall j :: len < j < ptr.Length ==> ptr[j] == old(ptr[j])
  {
    ghost var u := ptr[..len];
    ghost var before := ptr[..];
    var k := len as int - 1;
    while k >= 0
      invariant -1 <= k < len
      invariant ptr[..k + 1] == u[..k + 1]
      invariant forall j :: k < j < len ==> ptr[j] == '\0' && u[j] == ' '
      invariant ptr[len] == '\0'
      invariant forall j :: len < j < ptr.Length ==> ptr[j] == before[j]
    {
      if ptr[k] != ' ' {
        break;
      }
      ptr[k] := '\0';
      k := k - 1;
    }
    if k >= 0 {
      DropTrailingAt(u, k);
    } else {
      DropAllSpaces(u);
    }
  }

  /** Dropping the trailing spaces of `u` stops at its last non-space character `k`. */
  lemma {:induction false} DropTrailingAt(u: string, k: nat)
    requires k < |u| && u[k] != ' '
    requires forall j :: k < j < |u| ==> u[j] == ' '
    ensures DropTrailing(u) == u[..k + 1]
    decreases |u|
  {
    if k + 1 < |u| {
      var v := u[..|u| - 1];
      assert v[k] == u[k];
      DropTrailingAt(v, k);
      assert v[..k + 1] == u[..k + 1];
    } else {
      assert u[..k + 1] == u;
    }
  }

  /** `get_input`: on success the buffer holds the trimmed line as a C
      string. Lines longer than SIZE_INPUT are refused after being consumed
      up to their newline; so is a line whose C string is empty (an empty
      line, or one starting with a NUL). A NUL inside the line cuts it
      there. A line of spaces only is accepted and becomes the empty string. */
  method GetInput(ptr: array<char>, input: string) returns (ok: bool, rest: string)
    requires ptr.Length == SIZE_INPUT
    requires '\n' in input
    requires InBounds(FirstLine(input))
    modifies ptr
    ensures rest == input[NewlineAt(input) + 1..]
    ensures ok <==> |FirstLine(input)| <= SIZE_INPUT && UpToNul(FirstLine(input)) != []
    ensures ok ==> var t := Trim(UpToNul(FirstLine(input)));
      |t| < SIZE_INPUT && ptr[..|t|] == t && ptr[|t|] == '\0'
    ensures !ok && |FirstLine(input)| > SIZE_INPUT ==> ptr[..] == FirstLine(input)[..SIZE_INPUT]
    ensures !ok && |FirstLine(input)| <= SIZE_INPUT ==>
      ptr[..|FirstLine(input)|] == FirstLine(input) &&
      forall j :: |FirstLine(input)| <= j < SIZE_INPUT ==> ptr[j] == '\0'
  {
    ghost var full := FirstLine(input);
    forall k | 0 <= k < ptr.Length {
      ptr[k] := '\0';
    }
    var stored;
    stored, rest := FetchLine(ptr, input);
    if !stored {
      return false, rest;
    }
    var len := StoredLength(ptr, full);
    if len == 0 {
      return false, rest;
    }
    TrimStored(ptr, UpToNul(full), len);
    ok := true;
  }

  /** `strlen` on the buffer just filled with the line `full`: the length of
      the line's C string. */
  method StoredLength(ptr: array<char>, ghost full: string) returns (len: nat)
    requires ptr.Length == SIZE_INPUT && |full| <= SIZE_INPUT
    requires |full| < SIZE_INPUT || '\0' in full
    requires ptr[..|full|] == full
    requires forall j :: |full| <= j < SIZE_INPUT ==> ptr[j] == '\0'
    ensures len == |UpToNul(full)| < SIZE_INPUT
    ensures ptr[..len] == UpToNul(full) && ptr[len] == '\0'
  {
    ghost var line := UpToNul(full);
    assert forall j :: 0 <= j < |line| ==> ptr[j] == line[j] && line[j] != '\0';
    assert |line| < SIZE_INPUT && ptr[|line|] == '\0' by {
      if |line| == |full| {
        UpToNulCuts(full);
      }
    }
    len := StrLen(ptr);
    assert len == |line|;
  }

  /** The three post-processing loops of `get_input` on the stored C string
      `line`: find its first non-space, shift it left, strip trailing spaces. */
  method TrimStored(ptr: array<char>, ghost line: string, len: nat)
    requires ptr.Length == SIZE_INPUT
    requires len == |line| < SIZE_INPUT && '\0' !in line
    requires ptr[..len] == line && ptr[len] == '\0'
    requires len < SIZE_INPUT - 1 || StartIndex(line) < 2
    modifies ptr
    ensures var t := Trim(line);
      |t| < SIZE_INPUT && ptr[..|t|] == t && ptr[|t|] == '\0'
  {
    var start := FirstNonSpace(ptr, len);
    ShiftLeft(ptr, len, start);
    ghost var u := line[start..];
    assert forall j :: 0 <= j < len - start ==> ptr[j] == u[j] && u[j] != '\0';
    var len2 := StrLen(ptr);
    assert len2 == len - start;
    assert ptr[..len2] == u;
    StripTrailing(ptr, len2);
  }
}
