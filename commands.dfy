/**
 * The command handlers of commands.c: their argument-count checks, option
 * parsing and the system calls they issue, in order.
 *
 * A handler receives the token list of the command line (`args[0]` is the
 * command name, `|args|` is `argc`) and returns the log of what it does:
 * messages it prints and system calls it makes. Whether a system call
 * succeeds is an oracle: the calls in `fails` are refused.
 */
module Commands {
  import opened Prelude
  import opened Tokenizer

  /** `S_IRUSR | S_IWUSR | S_IXUSR | S_IRGRP | S_IROTH`: octal 0744. */
  const DEFAULT_MODE: bv32 := 0x1E4

  datatype SysCall =
    | Chdir(path: string)
    | Creat(path: string, mode: bv32)
    | Mkdir(path: string, mode: bv32)
    | Rmdir(path: string)
    | Unlink(path: string)
    | Rename(from: string, to: string)
    | Open(path: string)
    | System(command: string)
    | DeleteTree(path: string)   // `recursive_deletion(path)`: one opaque call here, not linked to Deletion's walk

  datatype Message =
    | MissingOperand
    | TooManyArguments
    | InvalidOption(arg: string)
    | RemoveWarning(arg: string)   // "Warning: Remove '<arg>'?"
    | ConfirmPrompt                // "->[y/N] "
    | NotCSource(file: string)

  /** A printed message, or a system call with whether it succeeded. The
      error report a handler prints after a failed call is part of the
      failed `Call`. */
  datatype Event = Say(msg: Message) | Call(call: SysCall, ok: bool)

  /** `recursive_deletion` reports nothing to its caller, so from the
      caller's side it always completes; every other call fails exactly
      when the system refuses it. */
  predicate Succeeds(c: SysCall, fails: set<SysCall>) {
    c.DeleteTree? || c !in fails
  }

  /** Issue the calls in order, stopping after the first one that fails. */
  function UntilFailure(calls: seq<SysCall>, fails: set<SysCall>): seq<Event> {
    if calls == [] then []
    else if Succeeds(calls[0], fails) then [Call(calls[0], true)] + UntilFailure(calls[1..], fails)
    else [Call(calls[0], false)]
  }

  /** `UntilFailure` issues a prefix of the planned calls, each with its
      true outcome; every call but the last succeeds, and it stops short
      of the whole plan only right after a failure. */
  lemma {:induction false} UntilFailureStops(calls: seq<SysCall>, fails: set<SysCall>)
    ensures var log := UntilFailure(calls, fails);
      && |log| <= |calls|
      && (forall k :: 0 <= k < |log| ==> log[k] == Call(calls[k], Succeeds(calls[k], fails)))
      && (forall k :: 0 <= k < |log| - 1 ==> Succeeds(calls[k], fails))
      && (|log| < |calls| ==> |log| > 0 && !Succeeds(calls[|log| - 1], fails))
      && ((forall k :: 0 <= k < |calls| ==> Succeeds(calls[k], fails)) ==> |log| == |calls|)
  {
    if calls != [] {
      UntilFailureStops(calls[1..], fails);
      var log := UntilFailure(calls, fails);
      if Succeeds(calls[0], fails) {
        var tail := UntilFailure(calls[1..], fails);
        assert forall k :: 1 <= k < |log| ==> log[k] == tail[k - 1] && calls[k] == calls[1..][k - 1];
      }
    }
  }

  /** One step of `UntilFailure` at position `i` of the plan. */
  lemma UntilFailureAt(calls: seq<SysCall>, i: nat, fails: set<SysCall>)
    requires i < |calls|
    ensures UntilFailure(calls[i..], fails)
      == if Succeeds(calls[i], fails) then [Call(calls[i], true)] + UntilFailure(calls[i + 1..], fails)
         else [Call(calls[i], false)]
  {
    assert calls[i..][0] == calls[i] && calls[i..][1..] == calls[i + 1..];
  }

  /** Issue every call, whatever the outcome of the previous ones. */
  function AllCalls(calls: seq<SysCall>, fails: set<SysCall>): (log: seq<Event>)
    ensures |log| == |calls|
    ensures forall k :: 0 <= k < |log| ==> log[k] == Call(calls[k], Succeeds(calls[k], fails))
  {
    seq(|calls|, k requires 0 <= k < |calls| => Call(calls[k], Succeeds(calls[k], fails)))
  }

  /** The path a relative operand is resolved to: "./<arg>". */
  function Local(arg: string): string {
    "./" + arg
  }

  // ---------------------------------------------------------------------------
  // echo
  // ---------------------------------------------------------------------------

  /** Every word followed by one space. */
  function Spaced(ws: seq<string>): string {
    if ws == [] then "" else ws[0] + " " + Spaced(ws[1..])
  }

  /** `echo`: prints its operands, each followed by a space, then a newline. */
  method Echo(args: seq<string>) returns (out: string)
    requires |args| > 0
    ensures out == Spaced(args[1..]) + "\n"
  {
    out := "";
    var i := 1;
    while i < |args|
      invariant 1 <= i <= |args|
      invariant out + Spaced(args[i..]) == Spaced(args[1..])
    {
      assert args[i..][0] == args[i] && args[i..][1..] == args[i + 1..];
      out := out + args[i] + " ";
      i := i + 1;
    }
    assert args[i..] == [];
    out := out + "\n";
  }

  lemma {:induction false} SpacedIsJoinWords(ws: seq<string>)
    requires ws != []
    ensures Spaced(ws) == JoinWords(ws) + " "
  {
    if |ws| > 1 {
      SpacedIsJoinWords(ws[1..]);
    }
  }

  /** `echo w1 ... wn` typed with single spaces between plain words prints
      the operands back, separated by single spaces, with one trailing
      space before the newline. */
  lemma EchoRepeatsWords(ws: seq<string>)
    requires |ws| > 1 && forall k :: 0 <= k < |ws| ==> ws[k] != "" && Plain(ws[k])
    ensures Spaced(ParseInput(JoinWords(ws))[1..]) + "\n" == JoinWords(ws[1..]) + " \n"
  {
    WordsRoundTrip(ws);
    SpacedIsJoinWords(ws[1..]);
  }

  // ---------------------------------------------------------------------------
  // cd and mv: exact operand counts
  // ---------------------------------------------------------------------------

  /** Where `cd` goes: an absolute path as given, anything else below ".". */
  function CdTarget(path: string): (t: string)
    ensures |path| > 0 && path[0] == '/' ==> t == path
    ensures !(|path| > 0 && path[0] == '/') ==> t == Local(path)
  {
    if |path| > 0 && path[0] == '/' then path else Local(path)
  }

  /** `cd`: needs exactly one operand. */
  function Cd(args: seq<string>, fails: set<SysCall>): (log: seq<Event>)
    ensures |args| < 2 <==> log == [Say(MissingOperand)]
    ensures |args| > 2 <==> log == [Say(TooManyArguments)]
    ensures |args| == 2 ==> log == [Call(Chdir(CdTarget(args[1])), Chdir(CdTarget(args[1])) !in fails)]
  {
    if |args| < 2 then [Say(MissingOperand)]
    else if |args| > 2 then [Say(TooManyArguments)]
    else var c := Chdir(CdTarget(args[1])); [Call(c, c !in fails)]
  }

  /** `mv`: needs exactly two operands, renames the first to the second. */
  function Mv(args: seq<string>, fails: set<SysCall>): (log: seq<Event>)
    ensures |args| < 3 <==> log == [Say(MissingOperand)]
    ensures |args| > 3 <==> log == [Say(TooManyArguments)]
    ensures |args| == 3 ==> log == [Call(Rename(args[1], args[2]), Rename(args[1], args[2]) !in fails)]
  {
    if |args| < 3 then [Say(MissingOperand)]
    else if |args| > 3 then [Say(TooManyArguments)]
    else var c := Rename(args[1], args[2]); [Call(c, c !in fails)]
  }

  // ---------------------------------------------------------------------------
  // touch, mkdir, rmdir, cat: one call per operand
  // ---------------------------------------------------------------------------

  function Creats(ops: seq<string>): (calls: seq<SysCall>)
    ensures |calls| == |ops| && forall k :: 0 <= k < |ops| ==> calls[k] == Creat(ops[k], DEFAULT_MODE)
  {
    seq(|ops|, k requires 0 <= k < |ops| => Creat(ops[k], DEFAULT_MODE))
  }

  function Mkdirs(ops: seq<string>): (calls: seq<SysCall>)
    ensures |calls| == |ops| && forall k :: 0 <= k < |ops| ==> calls[k] == Mkdir(Local(ops[k]), DEFAULT_MODE)
  {
    seq(|ops|, k requires 0 <= k < |ops| => Mkdir(Local(ops[k]), DEFAULT_MODE))
  }

  function Rmdirs(ops: seq<string>): (calls: seq<SysCall>)
    ensures |calls| == |ops| && forall k :: 0 <= k < |ops| ==> calls[k] == Rmdir(Local(ops[k]))
  {
    seq(|ops|, k requires 0 <= k < |ops| => Rmdir(Local(ops[k])))
  }

  function Opens(ops: seq<string>): (calls: seq<SysCall>)
    ensures |calls| == |ops| && forall k :: 0 <= k < |ops| ==> calls[k] == Open(ops[k])
  {
    seq(|ops|, k requires 0 <= k < |ops| => Open(ops[k]))
  }

  /** `touch`: creates every operand with mode 0744, ignoring failures. */
  method Touch(args: seq<string>, fails: set<SysCall>) returns (log: seq<Event>)
    ensures |args| < 2 ==> log == [Say(MissingOperand)]
    ensures |args| >= 2 ==> log == AllCalls(Creats(args[1..]), fails)
  {
    if |args| < 2 {
      return [Say(MissingOperand)];
    }
    log := [];
    var i := 1;
    while i < |args|
      invariant 1 <= i <= |args|
      invariant log == AllCalls(Creats(args[1..i]), fails)
    {
      var c := Creat(args[i], DEFAULT_MODE);
      log := log + [Call(c, Succeeds(c, fails))];
      i := i + 1;
    }
    assert args[1..i] == args[1..];
  }

  /** The loop shared by `mkdir_cli`, `rmdir_cli` and `cat`: one call per
      operand, in order, stopping at the first that fails. */
  method IssueUntilFailure(calls: seq<SysCall>, fails: set<SysCall>) returns (log: seq<Event>)
    ensures log == UntilFailure(calls, fails)
  {
    log := [];
    var i := 0;
    while i < |calls|
      invariant 0 <= i <= |calls|
      invariant UntilFailure(calls, fails) == log + UntilFailure(calls[i..], fails)
    {
      UntilFailureAt(calls, i, fails);
      if !Succeeds(calls[i], fails) {
        return log + [Call(calls[i], false)];
      }
      log := log + [Call(calls[i], true)];
      i := i + 1;
    }
  }

  /** `mkdir_cli`: creates "./<arg>" for each operand with mode 0744,
      stopping at the first failure. */
  method MkdirCli(args: seq<string>, fails: set<SysCall>) returns (log: seq<Event>)
    ensures |args| < 2 ==> log == [Say(MissingOperand)]
    ensures |args| >= 2 ==> log == UntilFailure(Mkdirs(args[1..]), fails)
  {
    if |args| < 2 {
      return [Say(MissingOperand)];
    }
    log := IssueUntilFailure(Mkdirs(args[1..]), fails);
  }

  /** `rmdir_cli`: removes the directory "./<arg>" for each operand,
      stopping at the first failure. */
  method RmdirCli(args: seq<string>, fails: set<SysCall>) returns (log: seq<Event>)
    ensures |args| < 2 ==> log == [Say(MissingOperand)]
    ensures |args| >= 2 ==> log == UntilFailure(Rmdirs(args[1..]), fails)
  {
    if |args| < 2 {
      return [Say(MissingOperand)];
    }
    log := IssueUntilFailure(Rmdirs(args[1..]), fails);
  }

  /** `cat`: opens each operand in turn (its contents go to the output),
      stopping at the first that cannot be opened. */
  method Cat(args: seq<string>, fails: set<SysCall>) returns (log: seq<Event>)
    ensures |args| < 2 ==> log == [Say(MissingOperand)]
    ensures |args| >= 2 ==> log == UntilFailure(Opens(args[1..]), fails)
  {
    if |args| < 2 {
      return [Say(MissingOperand)];
    }
    log := IssueUntilFailure(Opens(args[1..]), fails);
  }

  // ---------------------------------------------------------------------------
  // make: name and extension at the first '.'
  // ---------------------------------------------------------------------------

  /** The split of a file name at its first '.': the name before it and the
      extension from it on; without a '.', the extension is empty. */
  function SplitAtFirstDot(full: string): (parts: (string, string))
    ensures parts.0 + parts.1 == full
    ensures '.' !in parts.0
    ensures parts.1 == [] || parts.1[0] == '.'
  {
    if full == [] then ([], [])
    else if full[0] == '.' then ([], full)
    else
      var rest := SplitAtFirstDot(full[1..]);
      assert [full[0]] + full[1..] == full;
      ([full[0]] + rest.0, rest.1)
  }

  /** Those three facts determine the split. */
  lemma {:induction false} SplitUnique(full: string, name: string, ext: string)
    requires name + ext == full && '.' !in name && (ext == [] || ext[0] == '.')
    ensures SplitAtFirstDot(full) == (name, ext)
  {
    if name != [] {
      assert full[0] == name[0] && full[1..] == name[1..] + ext;
      SplitUnique(full[1..], name[1..], ext);
      assert [name[0]] + name[1..] == name;
    } else {
      assert ext == full;
    }
  }

  /** The loop of `make` that copies the characters before the first '.'
      into `name` and the rest, from that '.' on, into `extension`. */
  method SplitName(full: string) returns (name: string, extension: string)
    ensures (name, extension) == SplitAtFirstDot(full)
  {
    name := "";
    extension := "";
    var extExist := false;
    var j := 0;
    while j < |full|
      invariant 0 <= j <= |full|
      invariant name + extension == full[..j]
      invariant '.' !in name
      invariant extExist <==> extension != []
      invariant extension == [] || extension[0] == '.'
    {
      if full[j] == '.' || extExist {
        extExist := true;
        extension := extension + [full[j]];
      } else {
        name := name + [full[j]];
      }
      j := j + 1;
    }
    assert full[..j] == full;
    SplitUnique(full, name, extension);
  }

  /** The shell command `make` runs for a C source file. */
  function GccCommand(name: string, full: string): string {
    "gcc -o " + name + " " + full + "\n"
  }

  /** What `make` does with one file: report a file that is not C source,
      otherwise compile it. */
  function MakeStep(full: string, fails: set<SysCall>): Event {
    var (name, ext) := SplitAtFirstDot(full);
    if ext != ".c" then Say(NotCSource(full))
    else var c := System(GccCommand(name, full)); Call(c, Succeeds(c, fails))
  }

  /** The file loop of `make`: a file that is not C source is reported and
      skipped; a failed `system` ends the loop. */
  function MakeFiles(files: seq<string>, fails: set<SysCall>): seq<Event> {
    if files == [] then []
    else
      var e := MakeStep(files[0], fails);
      if e.Call? && !e.ok then [e] else [e] + MakeFiles(files[1..], fails)
  }

  /** `make`: compiles every operand whose extension is exactly ".c". */
  method Make(args: seq<string>, fails: set<SysCall>) returns (log: seq<Event>)
    ensures |args| < 2 ==> log == [Say(MissingOperand)]
    ensures |args| >= 2 ==> log == MakeFiles(args[1..], fails)
  {
    if |args| < 2 {
      return [Say(MissingOperand)];
    }
    log := [];
    var i := 1;
    while i < |args|
      invariant 1 <= i <= |args|
      invariant MakeFiles(args[1..], fails) == log + MakeFiles(args[i..], fails)
    {
      var e := MakeOne(args[i], fails);
      ghost var now := MakeFiles(args[i..], fails);
      ghost var next := MakeFiles(args[i + 1..], fails);
      MakeFilesNext(args, i, fails, e);
      if e.Call? && !e.ok {
        return log + [e];
      }
      LogStep(MakeFiles(args[1..], fails), log, e, now, next);
      log := log + [e];
      i := i + 1;
    }
  }

  /** The body of `make`'s loop for one operand: a file whose extension is
      not ".c" is reported, any other is compiled by `system`. */
  method MakeOne(full: string, fails: set<SysCall>) returns (e: Event)
    ensures e == MakeStep(full, fails)
  {
    var name, extension := SplitName(full);
    if extension != ".c" {
      e := Say(NotCSource(full));
    } else {
      var c := System(GccCommand(name, full));
      e := Call(c, Succeeds(c, fails));
    }
  }

  lemma MakeFilesNext(args: seq<string>, i: nat, fails: set<SysCall>, e: Event)
    requires 1 <= i < |args| && e == MakeStep(args[i], fails)
    ensures MakeFiles(args[i..], fails) == if e.Call? && !e.ok then [e] else [e] + MakeFiles(args[i + 1..], fails)
  {
    assert args[i..][0] == args[i] && args[i..][1..] == args[i + 1..];
  }

  /** While no `system` call fails, `make` handles every operand, in order:
      exactly the files with extension ".c" are compiled, as
      "gcc -o <name> <file>", and every other file is reported. */
  lemma {:induction false} MakeHandlesEveryFile(files: seq<string>, fails: set<SysCall>)
    requires forall k :: 0 <= k < |files| ==> !MakeStep(files[k], fails).Call? || MakeStep(files[k], fails).ok
    ensures var log := MakeFiles(files, fails);
      && |log| == |files|
      && forall k :: 0 <= k < |files| ==>
           var (name, ext) := SplitAtFirstDot(files[k]);
           (ext == ".c" ==> log[k] == Call(System(GccCommand(name, files[k])), true))
           && (ext != ".c" ==> log[k] == Say(NotCSource(files[k])))
  {
    if files != [] {
      MakeHandlesEveryFile(files[1..], fails);
      var log := MakeFiles(files, fails);
      assert forall k :: 1 <= k < |files| ==> log[k] == MakeFiles(files[1..], fails)[k - 1] && files[k] == files[1..][k - 1];
    }
  }

  /** `make hello.c` runs "gcc -o hello hello.c". */
  lemma MakeCompilesHello()
    ensures MakeStep("hello.c", {}) == Call(System("gcc -o hello hello.c\n"), true)
  {
    var name, ext := "hello", ".c";
    assert name + ext == "hello.c";
    assert '.' !in name;
    SplitUnique("hello.c", name, ext);
    assert GccCommand(name, "hello.c") == "gcc -o hello hello.c\n";
    assert ext == ".c";
  }

  /** The extension of "lib.tar.c" starts at its first '.', so `make`
      reports it instead of compiling it. */
  lemma MakeRejectsDoubleExtension()
    ensures MakeStep("lib.tar.c", {}) == Say(NotCSource("lib.tar.c"))
  {
    var name, ext := "lib", ".tar.c";
    assert name + ext == "lib.tar.c";
    assert '.' !in name;
    SplitUnique("lib.tar.c", name, ext);
    assert ext != ".c";
  }

  // ---------------------------------------------------------------------------
  // Option flags, shared by ls and rm
  // ---------------------------------------------------------------------------

  predicate OptionArg(a: string) {
    IsOption(Some(a))
  }

  /** `c` is one of the flag characters of `a` (after its leading '-'). */
  predicate FlagIn(a: string, c: char) {
    exists j :: 1 <= j < |a| && a[j] == c
  }

  /** Some option among `args[1..n]` carries the flag `c`. */
  predicate HasFlagBefore(args: seq<string>, n: int, c: char) {
    exists i :: 1 <= i < n && i < |args| && OptionArg(args[i]) && FlagIn(args[i], c)
  }

  /** Some option among the operands carries the flag `c`. */
  predicate HasFlag(args: seq<string>, c: char) {
    HasFlagBefore(args, |args|, c)
  }

  lemma HasFlagBeforeStep(args: seq<string>, n: int, c: char)
    requires 1 <= n < |args|
    ensures HasFlagBefore(args, n + 1, c)
       <==> HasFlagBefore(args, n, c) || (OptionArg(args[n]) && FlagIn(args[n], c))
  {
  }

  // ---------------------------------------------------------------------------
  // ls
  // ---------------------------------------------------------------------------

  /** What `readdir` and `stat` report for one directory entry. */
  datatype DirEntry = DirEntry(name: string, mode: bv32, size: int)

  /** One line `ls` prints. */
  datatype Line =
    | Header                                        // "mode\t\tsize\tname"
    | Detailed(mode: string, size: int, name: string)
    | Name(name: string)
    | CannotOpen
    | CannotRead

  const S_IFMT: bv32 := 0xF000
  const S_IFDIR: bv32 := 0x4000

  /** `S_IRUSR` ... `S_IWOTH`: the bits the eight permission columns show, in order. */
  const PERM_BITS: seq<bv32> := [0x100, 0x80, 0x40, 0x20, 0x10, 0x8, 0x4, 0x2]

  /** One permission column: its letter when the bit is set, '-' otherwise. */
  function Perm(m: bv32, bit: bv32, c: char): char {
    if m & bit != 0 then c else '-'
  }

  /** The nine-character mode column of `ls -l`: `d` for a directory, then
      the user, group and others permission bits from 0x100 down to 0x2,
      each shown by its letter when set. */
  function ModeString(m: bv32): (s: string)
    ensures |s| == 9
    ensures s[0] == 'd' <==> m & S_IFMT == S_IFDIR
    ensures s[0] == 'd' || s[0] == '-'
    ensures forall k :: 1 <= k < 9 ==> s[k] == Perm(m, PERM_BITS[k - 1], "rwxrwxrw"[k - 1])
  {
    [TypeColumn(m)] + PermColumns(m)
  }

  /** The first column: `d` for a directory, `-` for anything else. */
  function TypeColumn(m: bv32): (c: char)
    ensures c == 'd' <==> m & S_IFMT == S_IFDIR
    ensures c == 'd' || c == '-'
  {
    if m & S_IFMT == S_IFDIR then 'd' else '-'
  }

  /** The eight permission columns, one per bit of PERM_BITS. */
  function PermColumns(m: bv32): (cs: string)
    ensures |cs| == 8
    ensures forall k :: 0 <= k < 8 ==> cs[k] == Perm(m, PERM_BITS[k], "rwxrwxrw"[k])
  {
    seq(8, k requires 0 <= k < 8 => Perm(m, PERM_BITS[k], "rwxrwxrw"[k]))
  }

  lemma LowBitIrrelevant(m: bv32, mask: bv32)
    requires mask & 1 == 0
    ensures (m ^ 1) & mask == m & mask
  {
  }

  /** The others-execute bit (0x1) never shows. */
  lemma OthersExecuteHidden(m: bv32)
    ensures ModeString(m) == ModeString(m ^ 1)
  {
    LowBitIrrelevant(m, S_IFMT);
    assert TypeColumn(m) == TypeColumn(m ^ 1);
    PermBitsEven();
    var a, b := PermColumns(m), PermColumns(m ^ 1);
    forall k | 0 <= k < 8
      ensures a[k] == b[k]
    {
      LowBitIrrelevant(m, PERM_BITS[k]);
    }
    assert a == b;
  }

  /** None of the permission bits is the others-execute bit 0x1. */
  lemma PermBitsEven()
    ensures forall k :: 0 <= k < 8 ==> PERM_BITS[k] & 1 == 0
  {
  }

  /** A file created with `touch`'s mode 0744 lists as "-rwxr--r-"; a
      directory with mode 0755 as "drwxr-xr-"; full permissions show as
      "rwxrwxrw", the others-execute bit missing. */
  lemma ModeStringExamples()
    ensures ModeString(0x8000 | DEFAULT_MODE) == "-rwxr--r-"
    ensures ModeString(0x41ED) == "drwxr-xr-"
    ensures ModeString(0x81FF) == "-rwxrwxrw"
  {
  }

  predicate Hidden(name: string) {
    |name| > 0 && name[0] == '.'
  }

  /** The entries `ls` shows: all of them with -a, the others otherwise. */
  function Visible(es: seq<DirEntry>, invisible: bool): (r: seq<DirEntry>)
    ensures forall e :: e in r <==> e in es && (invisible || !Hidden(e.name))
  {
    if es == [] then []
    else (if invisible || !Hidden(es[0].name) then [es[0]] else []) + Visible(es[1..], invisible)
  }

  function Row(e: DirEntry, details: bool): Line {
    if details then Detailed(ModeString(e.mode), e.size, e.name) else Name(e.name)
  }

  function Rows(es: seq<DirEntry>, details: bool): (r: seq<Line>)
    ensures |r| == |es| && forall k :: 0 <= k < |es| ==> r[k] == Row(es[k], details)
  {
    if es == [] then [] else [Row(es[0], details)] + Rows(es[1..], details)
  }

  /** The entry loop of `ls`, with `flag` recording that the header is out. */
  function Listing(es: seq<DirEntry>, details: bool, invisible: bool, flag: bool): seq<Line> {
    if es == [] then []
    else if !invisible && Hidden(es[0].name) then Listing(es[1..], details, invisible, flag)
    else
      (if details && !flag then [Header] else [])
        + [Row(es[0], details)]
        + Listing(es[1..], details, invisible, flag || details)
  }

  /** `ls`'s output for a listing of the current directory (None: it could
      not be opened). */
  function LsLines(details: bool, invisible: bool, listing: Option<seq<DirEntry>>): seq<Line> {
    if listing.None? then [CannotOpen]
    else if listing.value == [] then [CannotRead]
    else Listing(listing.value, details, invisible, false)
  }

  /** The entry loop prints a header at most once, before the first row and
      only with -l, then one row per visible entry, in order. */
  lemma {:induction false} ListingShape(es: seq<DirEntry>, details: bool, invisible: bool, flag: bool)
    ensures Listing(es, details, invisible, flag)
      == (if details && !flag && Visible(es, invisible) != [] then [Header] else [])
         + Rows(Visible(es, invisible), details)
  {
    if es != [] {
      var v := Visible(es, invisible);
      var rest := Visible(es[1..], invisible);
      if !invisible && Hidden(es[0].name) {
        ListingShape(es[1..], details, invisible, flag);
        assert v == rest;
      } else {
        ListingShape(es[1..], details, invisible, flag || details);
        assert v == [es[0]] + rest;
        assert v != [] && v[0] == es[0] && v[1..] == rest;
        assert Rows(v, details) == [Row(es[0], details)] + Rows(rest, details);
        var h: seq<Line> := if details && !flag then [Header] else [];
        var tail := Listing(es[1..], details, invisible, flag || details);
        var r := Rows(rest, details);
        assert tail == r;
        var row := [Row(es[0], details)];
        calc {
          Listing(es, details, invisible, flag);
          h + row + tail;
          { AppendAssoc(h, row, r); }
          h + (row + r);
        }
      }
    }
  }

  /** The option loop of `ls`: -l turns on details, -a shows hidden names,
      any other flag character is ignored. */
  method LsFlags(args: seq<string>) returns (details: bool, invisible: bool)
    ensures details == HasFlag(args, 'l')
    ensures invisible == HasFlag(args, 'a')
  {
    details, invisible := false, false;
    var i := 1;
    while i < |args|
      invariant 1 <= i <= |args| || (|args| == 0 && i == 1)
      invariant details == HasFlagBefore(args, i, 'l')
      invariant invisible == HasFlagBefore(args, i, 'a')
    {
      var argument := args[i];
      HasFlagBeforeStep(args, i, 'l');
      HasFlagBeforeStep(args, i, 'a');
      if OptionArg(argument) {
        var j := 1;
        while j < |argument|
          invariant 1 <= j <= |argument|
          invariant details == (HasFlagBefore(args, i, 'l') || exists k :: 1 <= k < j && argument[k] == 'l')
          invariant invisible == (HasFlagBefore(args, i, 'a') || exists k :: 1 <= k < j && argument[k] == 'a')
        {
          if argument[j] == 'l' {
            details := true;
          } else if argument[j] == 'a' {
            invisible := true;
          }
          j := j + 1;
        }
      }
      i := i + 1;
    }
    if |args| == 0 {
      assert !HasFlag(args, 'l') && !HasFlag(args, 'a');
    }
  }

  /** `ls`: lists the current directory; `listing` is what `opendir` and
      `readdir` yield. */
  method Ls(args: seq<string>, listing: Option<seq<DirEntry>>) returns (out: seq<Line>)
    ensures out == LsLines(HasFlag(args, 'l'), HasFlag(args, 'a'), listing)
  {
    var details, invisible := LsFlags(args);
    if listing.None? {
      return [CannotOpen];
    }
    if |listing.value| == 0 {
      return [CannotRead];
    }
    out := ListEntries(listing.value, details, invisible);
  }

  /** One entry of the loop: a visible entry adds its row, preceded by the
      header if details are on and the header is not out yet. */
  lemma ListingStep(es: seq<DirEntry>, i: nat, details: bool, invisible: bool, flag: bool)
    requires i < |es|
    ensures !invisible && Hidden(es[i].name) ==>
      Listing(es[i..], details, invisible, flag) == Listing(es[i + 1..], details, invisible, flag)
    ensures invisible || !Hidden(es[i].name) ==>
      Listing(es[i..], details, invisible, flag)
        == (if details && !flag then [Header] else []) + [Row(es[i], details)]
           + Listing(es[i + 1..], details, invisible, flag || details)
  {
    assert es[i..][0] == es[i] && es[i..][1..] == es[i + 1..];
  }

  /** What the loop writes for entry `i`, and the header flag after it, unfold the listing by one entry. */
  lemma ListingAdvance(es: seq<DirEntry>, i: nat, details: bool, invisible: bool, flag: bool, next: bool, piece: seq<Line>)
    requires i < |es|
    requires piece == if invisible || !Hidden(es[i].name)
      then (if details && !flag then [Header] else []) + [Row(es[i], details)] else []
    requires next == (flag || ((invisible || !Hidden(es[i].name)) && details))
    ensures Listing(es[i..], details, invisible, flag) == piece + Listing(es[i + 1..], details, invisible, next)
  {
    ListingStep(es, i, details, invisible, flag);
    if invisible || !Hidden(es[i].name) {
      AppendAssoc(if details && !flag then [Header] else [], [Row(es[i], details)],
        Listing(es[i + 1..], details, invisible, next));
    }
  }

  /** The entry loop of `ls`. */
  method ListEntries(es: seq<DirEntry>, details: bool, invisible: bool) returns (out: seq<Line>)
    ensures out == Listing(es, details, invisible, false)
  {
    out := [];
    var flag := false;
    var i := 0;
    assert es[0..] == es;
    while i < |es|
      invariant 0 <= i <= |es|
      invariant Listing(es, details, invisible, false) == out + Listing(es[i..], details, invisible, flag)
    {
      var e := es[i];
      var piece: seq<Line> := [];
      var next := flag;
      if invisible || !Hidden(e.name) {
        if details && !flag {
          piece := [Header];
          next := true;
        }
        piece := piece + [Row(e, details)];
      }
      ListingAdvance(es, i, details, invisible, flag, next, piece);
      AppendAssoc(out, piece, Listing(es[i + 1..], details, invisible, next));
      out := out + piece;
      flag := next;
      i := i + 1;
    }
    assert es[i..] == [];
  }

  // ---------------------------------------------------------------------------
  // rm
  // ---------------------------------------------------------------------------

  /** An option of `rm` carrying a flag character other than i, d and r. */
  predicate BadRmOption(a: string) {
    OptionArg(a) && exists j :: 1 <= j < |a| && a[j] !in "idr"
  }

  /** The first operand position at or after `i` holding a bad option, or
      `|args|` when there is none. */
  function FirstBadRmOption(args: seq<string>, i: nat): (k: nat)
    requires i <= |args|
    ensures i <= k <= |args|
    ensures k < |args| ==> BadRmOption(args[k])
    ensures forall m :: i <= m < k ==> !BadRmOption(args[m])
    decreases |args| - i
  {
    if i == |args| then i
    else if BadRmOption(args[i]) then i
    else FirstBadRmOption(args, i + 1)
  }

  datatype RmFlags = RmFlags(confirm: bool, directory: bool, removeAll: bool)

  /** The flags of `rm` once every option is known to be valid. */
  function RmFlagsOf(args: seq<string>): RmFlags {
    RmFlags(HasFlag(args, 'i'), HasFlag(args, 'd'), HasFlag(args, 'r'))
  }

  /** The `switch` loop of `rm` over the flag characters of one option:
      i, d and r set their flags; any other character rejects the option. */
  method ScanRmFlags(argument: string, before: RmFlags) returns (ok: bool, flags: RmFlags)
    requires OptionArg(argument)
    ensures ok <==> !BadRmOption(argument)
    ensures ok ==> flags == RmFlags(before.confirm || FlagIn(argument, 'i'),
      before.directory || FlagIn(argument, 'd'), before.removeAll || FlagIn(argument, 'r'))
  {
    flags := before;
    var j := 1;
    while j < |argument|
      invariant 1 <= j <= |argument|
      invariant forall k :: 1 <= k < j ==> argument[k] in "idr"
      invariant flags.confirm == (before.confirm || exists k :: 1 <= k < j && argument[k] == 'i')
      invariant flags.directory == (before.directory || exists k :: 1 <= k < j && argument[k] == 'd')
      invariant flags.removeAll == (before.removeAll || exists k :: 1 <= k < j && argument[k] == 'r')
    {
      var c := argument[j];
      if c == 'i' {
        flags := flags.(confirm := true);
      } else if c == 'd' {
        flags := flags.(directory := true);
      } else if c == 'r' {
        flags := flags.(removeAll := true);
      } else {
        return false, flags;
      }
      j := j + 1;
    }
    return true, flags;
  }

  /** The option loop of `rm`: every operand is scanned before anything
      is done; the first option with an unknown flag is reported. */
  method ScanRmOptions(args: seq<string>) returns (bad: Option<string>, flags: RmFlags)
    requires |args| >= 1
    ensures var k := FirstBadRmOption(args, 1);
      bad == if k < |args| then Some(args[k]) else None
    ensures bad.None? ==> flags == RmFlagsOf(args)
  {
    flags := RmFlags(false, false, false);
    var i := 1;
    while i < |args|
      invariant 1 <= i <= |args|
      invariant FirstBadRmOption(args, 1) == FirstBadRmOption(args, i)
      invariant flags == RmFlags(HasFlagBefore(args, i, 'i'), HasFlagBefore(args, i, 'd'), HasFlagBefore(args, i, 'r'))
    {
      var argument := args[i];
      HasFlagBeforeStep(args, i, 'i');
      HasFlagBeforeStep(args, i, 'd');
      HasFlagBeforeStep(args, i, 'r');
      if OptionArg(argument) {
        var ok;
        ok, flags := ScanRmFlags(argument, flags);
        if !ok {
          return Some(argument), flags;
        }
      }
      i := i + 1;
    }
    bad := None;
  }

  /** The operands that are not options, in order: the targets of `rm`. */
  function Operands(args: seq<string>): seq<string> {
    if args == [] then []
    else (if OptionArg(args[0]) then [] else [args[0]]) + Operands(args[1..])
  }

  /** The targets are exactly the operands that are not options. */
  lemma {:induction false} OperandsMembers(args: seq<string>)
    ensures forall a :: a in Operands(args) <==> a in args && !OptionArg(a)
  {
    if args != [] {
      OperandsMembers(args[1..]);
      assert args == [args[0]] + args[1..];
    }
  }

  lemma OperandsStep(args: seq<string>, i: nat)
    requires i < |args|
    ensures Operands(args[i..]) == (if OptionArg(args[i]) then [] else [args[i]]) + Operands(args[i + 1..])
  {
    assert args[i..][0] == args[i] && args[i..][1..] == args[i + 1..];
  }

  /** The one removal `rm` attempts on a target: -r deletes the tree at
      "./<arg>", otherwise -d removes the directory "./<arg>", otherwise
      the target is unlinked. */
  function Removal(a: string, f: RmFlags): (c: SysCall)
    ensures c.DeleteTree? <==> f.removeAll
    ensures c.Rmdir? <==> !f.removeAll && f.directory
    ensures c.Unlink? <==> !f.removeAll && !f.directory
    ensures c.DeleteTree? || c.Rmdir? ==> c.path == Local(a)
    ensures c.Unlink? ==> c.path == a
  {
    if f.removeAll then DeleteTree(Local(a))
    else if f.directory then Rmdir(Local(a))
    else Unlink(a)
  }

  function Removals(ops: seq<string>, f: RmFlags): seq<SysCall> {
    if ops == [] then [] else [Removal(ops[0], f)] + Removals(ops[1..], f)
  }

  lemma {:induction false} RemovalsAt(ops: seq<string>, f: RmFlags)
    ensures |Removals(ops, f)| == |ops|
    ensures forall k :: 0 <= k < |ops| ==> Removals(ops, f)[k] == Removal(ops[k], f)
  {
    if ops != [] {
      RemovalsAt(ops[1..], f);
    }
  }

  function Warnings(ops: seq<string>): seq<Event> {
    if ops == [] then [] else [Say(RemoveWarning(ops[0]))] + Warnings(ops[1..])
  }

  lemma {:induction false} WarningsAreSay(ops: seq<string>)
    ensures forall e :: e in Warnings(ops) ==> e.Say?
  {
    if ops != [] {
      WarningsAreSay(ops[1..]);
    }
  }

  /** What `rm` does, given the first character `reply` it reads back
      after asking for confirmation (None: end of input). */
  function Rm(args: seq<string>, reply: Option<char>, fails: set<SysCall>): seq<Event> {
    if |args| < 2 then [Say(MissingOperand)]
    else
      var k := FirstBadRmOption(args, 1);
      if k < |args| then [Say(InvalidOption(args[k]))]
      else
        var f := RmFlagsOf(args);
        var ops := Operands(args[1..]);
        var asked := if f.confirm then Warnings(ops) + [Say(ConfirmPrompt)] else [];
        if f.confirm && reply != Some('y') then asked
        else asked + UntilFailure(Removals(ops, f), fails)
  }

  lemma RemovalStep(args: seq<string>, i: nat, f: RmFlags, fails: set<SysCall>)
    requires i < |args|
    ensures OptionArg(args[i]) ==>
      UntilFailure(Removals(Operands(args[i..]), f), fails) == UntilFailure(Removals(Operands(args[i + 1..]), f), fails)
    ensures !OptionArg(args[i]) ==>
      UntilFailure(Removals(Operands(args[i..]), f), fails)
        == if Succeeds(Removal(args[i], f), fails)
           then [Call(Removal(args[i], f), true)] + UntilFailure(Removals(Operands(args[i + 1..]), f), fails)
           else [Call(Removal(args[i], f), false)]
  {
    OperandsStep(args, i);
    var rest := Operands(args[i + 1..]);
    if !OptionArg(args[i]) {
      assert Operands(args[i..]) == [args[i]] + rest;
      assert ([args[i]] + rest)[0] == args[i] && ([args[i]] + rest)[1..] == rest;
      var calls := Removals(rest, f);
      assert Removals(Operands(args[i..]), f) == [Removal(args[i], f)] + calls;
      assert ([Removal(args[i], f)] + calls)[0] == Removal(args[i], f);
      assert ([Removal(args[i], f)] + calls)[1..] == calls;
    } else {
      assert Operands(args[i..]) == [] + rest == rest;
    }
  }

  lemma WarningStep(args: seq<string>, i: nat)
    requires i < |args|
    ensures Warnings(Operands(args[i..]))
      == (if OptionArg(args[i]) then [] else [Say(RemoveWarning(args[i]))]) + Warnings(Operands(args[i + 1..]))
  {
    OperandsStep(args, i);
    var rest := Operands(args[i + 1..]);
    if !OptionArg(args[i]) {
      assert Operands(args[i..]) == [args[i]] + rest;
      assert ([args[i]] + rest)[0] == args[i] && ([args[i]] + rest)[1..] == rest;
    } else {
      assert Operands(args[i..]) == [] + rest == rest;
      assert Warnings(rest) == [] + Warnings(rest);
    }
  }

  /** The removal loop of `rm`. */
  method RemoveTargets(args: seq<string>, f: RmFlags, fails: set<SysCall>) returns (log: seq<Event>)
    requires |args| >= 1
    ensures log == UntilFailure(Removals(Operands(args[1..]), f), fails)
  {
    log := [];
    var i := 1;
    while i < |args|
      invariant 1 <= i <= |args|
      invariant UntilFailure(Removals(Operands(args[1..]), f), fails)
        == log + UntilFailure(Removals(Operands(args[i..]), f), fails)
    {
      var argument := args[i];
      RemovalStep(args, i, f, fails);
      if !OptionArg(argument) {
        var c := Removal(argument, f);
        if !Succeeds(c, fails) {
          return log + [Call(c, false)];
        }
        AppendAssoc(log, [Call(c, true)], UntilFailure(Removals(Operands(args[i + 1..]), f), fails));
        log := log + [Call(c, true)];
      }
      i := i + 1;
    }
    assert args[i..] == [];
  }

  /** The warning loop of `rm -i`. */
  method WarnTargets(args: seq<string>) returns (log: seq<Event>)
    requires |args| >= 1
    ensures log == Warnings(Operands(args[1..]))
  {
    log := [];
    var i := 1;
    while i < |args|
      invariant 1 <= i <= |args|
      invariant Warnings(Operands(args[1..])) == log + Warnings(Operands(args[i..]))
    {
      WarningStep(args, i);
      if !OptionArg(args[i]) {
        AppendAssoc(log, [Say(RemoveWarning(args[i]))], Warnings(Operands(args[i + 1..])));
        log := log + [Say(RemoveWarning(args[i]))];
      }
      i := i + 1;
    }
    assert args[i..] == [];
  }

  /** `rm`: scans the options, asks for confirmation with -i, then removes
      the targets in order. */
  method RmCommand(args: seq<string>, reply: Option<char>, fails: set<SysCall>) returns (log: seq<Event>)
    ensures log == Rm(args, reply, fails)
  {
    if |args| < 2 {
      return [Say(MissingOperand)];
    }
    var bad, flags := ScanRmOptions(args);
    if bad.Some? {
      return [Say(InvalidOption(bad.value))];
    }
    log := [];
    if flags.confirm {
      log := WarnTargets(args);
      log := log + [Say(ConfirmPrompt)];
      if reply != Some('y') {
        return;
      }
    }
    var removed := RemoveTargets(args, flags, fails);
    log := log + removed;
  }

  /** An unknown flag anywhere on the line stops `rm` before it prompts or
      removes anything: its only output is the report of the first bad
      option. */
  lemma RmInvalidOptionFirst(args: seq<string>, reply: Option<char>, fails: set<SysCall>, i: nat)
    requires 1 <= i < |args| && BadRmOption(args[i])
    ensures var log := Rm(args, reply, fails);
      |log| == 1 && log[0].Say? && log[0].msg.InvalidOption? && BadRmOption(log[0].msg.arg)
  {
  }

  /** With -i and any answer but 'y', `rm` removes nothing. */
  lemma RmRefusedRemovesNothing(args: seq<string>, reply: Option<char>, fails: set<SysCall>)
    requires HasFlag(args, 'i') && reply != Some('y')
    ensures forall e :: e in Rm(args, reply, fails) ==> e.Say?
  {
    if |args| >= 2 {
      WarningsAreSay(Operands(args[1..]));
    }
  }

  lemma {:induction false} UntilFailureIssuesPlanned(calls: seq<SysCall>, fails: set<SysCall>)
    ensures forall e :: e in UntilFailure(calls, fails) ==> e.Call? && e.call in calls
  {
    if calls != [] {
      UntilFailureIssuesPlanned(calls[1..], fails);
    }
  }

  /** When no call fails, every planned call is issued. */
  lemma {:induction false} UntilFailureAllSucceed(calls: seq<SysCall>, fails: set<SysCall>)
    requires forall k :: 0 <= k < |calls| ==> Succeeds(calls[k], fails)
    ensures UntilFailure(calls, fails) == AllCalls(calls, fails)
  {
    if calls != [] {
      UntilFailureAllSucceed(calls[1..], fails);
      assert AllCalls(calls, fails) == [Call(calls[0], true)] + AllCalls(calls[1..], fails);
    }
  }

  lemma {:induction false} RemovalsOfOperands(ops: seq<string>, f: RmFlags)
    ensures forall c :: c in Removals(ops, f) ==> exists a :: a in ops && c == Removal(a, f)
  {
    if ops != [] {
      RemovalsOfOperands(ops[1..], f);
      assert forall a :: a in ops[1..] ==> a in ops;
    }
  }

  /** Every call `rm` makes acts on an operand that is not an option, and
      is the one removal its flags select. */
  lemma RmTouchesOnlyOperands(args: seq<string>, reply: Option<char>, fails: set<SysCall>)
    ensures forall e :: e in Rm(args, reply, fails) && e.Call? ==>
      exists a :: a in args[1..] && !OptionArg(a) && e.call == Removal(a, RmFlagsOf(args))
  {
    if |args| >= 2 && FirstBadRmOption(args, 1) == |args| {
      var f := RmFlagsOf(args);
      var ops := Operands(args[1..]);
      var calls := Removals(ops, f);
      var asked := if f.confirm then Warnings(ops) + [Say(ConfirmPrompt)] else [];
      var removed := UntilFailure(calls, fails);
      WarningsAreSay(ops);
      UntilFailureIssuesPlanned(calls, fails);
      RemovalsOfOperands(ops, f);
      OperandsMembers(args[1..]);
      assert forall e :: e in asked ==> e.Say?;
      assert forall e :: e in Rm(args, reply, fails) ==> e in asked || e in removed;
    }
  }

  /** With -r every target gets `recursive_deletion`, whatever happens
      inside it: the first refused `rmdir` or `unlink` ends the command
      only without -r. */
  lemma RmRecursiveNeverStops(args: seq<string>, reply: Option<char>, fails: set<SysCall>)
    requires |args| >= 2 && FirstBadRmOption(args, 1) == |args|
    requires HasFlag(args, 'r') && (!HasFlag(args, 'i') || reply == Some('y'))
    ensures var ops := Operands(args[1..]);
      TreesAfter(Rm(args, reply, fails), if HasFlag(args, 'i') then |ops| + 1 else 0, ops)
  {
    var ops := Operands(args[1..]);
    var n := if HasFlag(args, 'i') then |ops| + 1 else 0;
    var asked := if HasFlag(args, 'i') then Warnings(ops) + [Say(ConfirmPrompt)] else [];
    var removed := UntilFailure(Removals(ops, RmFlagsOf(args)), fails);
    RmProceeds(args, reply, fails);
    assert |asked| == n by {
      WarningsLength(ops);
    }
    RecursiveRemovalsAllRun(ops, RmFlagsOf(args), fails);
    ShiftedCalls(Rm(args, reply, fails), asked, removed, ops, n);
  }

  /** After its first `n` events, `log` is one successful `recursive_deletion` per operand, in order. */
  predicate TreesAfter(log: seq<Event>, n: nat, ops: seq<string>) {
    |log| == n + |ops| && forall k :: 0 <= k < |ops| ==> log[n + k] == Call(DeleteTree(Local(ops[k])), true)
  }

  /** Valid options and, with -i, a `y` reply: the prompt (if any) and then the removals. */
  lemma RmProceeds(args: seq<string>, reply: Option<char>, fails: set<SysCall>)
    requires |args| >= 2 && FirstBadRmOption(args, 1) == |args|
    requires !HasFlag(args, 'i') || reply == Some('y')
    ensures var ops := Operands(args[1..]);
      Rm(args, reply, fails)
        == (if HasFlag(args, 'i') then Warnings(ops) + [Say(ConfirmPrompt)] else [])
           + UntilFailure(Removals(ops, RmFlagsOf(args)), fails)
  {
  }

  lemma ShiftedCalls(log: seq<Event>, asked: seq<Event>, removed: seq<Event>, ops: seq<string>, n: nat)
    requires log == asked + removed && |removed| == |ops| && |asked| == n
    requires forall k :: 0 <= k < |ops| ==> removed[k] == Call(DeleteTree(Local(ops[k])), true)
    ensures TreesAfter(log, n, ops)
  {
    AppendIndex(asked, removed);
  }

  /** With -r every removal is a `recursive_deletion`, and none stops the loop. */
  lemma RecursiveRemovalsAllRun(ops: seq<string>, f: RmFlags, fails: set<SysCall>)
    requires f.removeAll
    ensures var removed := UntilFailure(Removals(ops, f), fails);
      |removed| == |ops| && forall k :: 0 <= k < |ops| ==> removed[k] == Call(DeleteTree(Local(ops[k])), true)
  {
    var calls := Removals(ops, f);
    RemovalsAt(ops, f);
    assert forall k :: 0 <= k < |calls| ==> calls[k] == DeleteTree(Local(ops[k]));
    UntilFailureAllSucceed(calls, fails);
  }

  /** One more event moves from what is left to do onto the log. */
  lemma LogStep(whole: seq<Event>, log: seq<Event>, e: Event, now: seq<Event>, next: seq<Event>)
    requires whole == log + now && now == [e] + next
    ensures whole == (log + [e]) + next
  {
  }

  lemma AppendIndex(a: seq<Event>, b: seq<Event>)
    ensures forall k :: 0 <= k < |b| ==> (a + b)[|a| + k] == b[k]
  {
  }

  lemma {:induction false} WarningsLength(ops: seq<string>)
    ensures |Warnings(ops)| == |ops|
  {
    if ops != [] {
      WarningsLength(ops[1..]);
    }
  }
}
