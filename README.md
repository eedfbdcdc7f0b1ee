# A model of the cs50xfp shell core

This project models in Dafny the core of a small interactive shell written in C. It covers three parts.

- **`utils.c`**:
  - the line reader `get_input`, which reads into a 100-character buffer and cuts off leading and trailing spaces in place;
  - the quote-aware tokenizer `parse_input` and the token accessors `get_argc` / `get_argv`;
  - the option test `is_option`;
  - the post-order tree walk `recursive_deletion`.
- **`commands.c`**: the decision logic of the built-in commands. This covers argument-count checks, flag parsing, which system calls are issued and in what order, and where a handler stops after a failure. The commands are `echo`, `cd`, `mv`, `touch`, `mkdir`, `rmdir`, `cat`, `make`, `ls` and `rm`.
- **`cli.c`**: an earlier draft of the program. Its own `get_input` and `parse_input` differ observably from those of `utils.c`. Its `main` loop prints the tokens of each line, numbered from 1, until the line reads `exit` in any letter case.

The modules are:

- `Prelude`: `Option`, `Concat`, `ToLower`.
- `Tokenizer`: `parse_input`, `get_argc`, `get_argv`, `is_option` of `utils.c`.
- `LineReader`: `get_input` of `utils.c`, working on an `array<char>` of `SIZE_INPUT` = 100 cells.
- `Deletion`: `recursive_deletion`.
- `Commands`: the handlers of `commands.c`.
- `DraftCli`: `cli.c`.

How the model stands in for the parts of the C program it leaves out:

- **Token list.** The linked list of tokens becomes a `seq<string>`. A flush into a list whose head is still empty overwrites the head, as the C code does.
- **Input.** Standard input is a `string` parameter. Each reader returns what is left of it after the read.
- **System calls.** Each handler returns a log of events: the messages it prints, and the system calls it makes, each with its outcome. The outcome comes from an oracle: the set `fails` of calls the system refuses.
- **Deletion.** The file tree for `recursive_deletion` is a value: `File`, or `Dir` holding a sequence of named entries in `readdir` order. That order includes `.` and `..`.
- **Loops.** Every loop of the core is a `method` with its invariants. The loops of the tokenizers, the tree walk, the command handlers and the read-eval loop are proved equal to recursive specification functions, and the properties the source promises are proved about those functions as lemmas. The small buffer loops (`strlen`, the fetch loop, the three trimming loops, `get_argc`, `get_argv`) state their result directly in their `ensures`. The loops of `touch` and of the draft's token listing are proved equal to a sequence comprehension.

## Model

| member | source | states |
|---|---|---|
| Tokenizer.ParseInputLoop | utils.c:79-176 | The character loop of `parse_input`, with its `marks` and `parsing` flags, its accumulator and its tail append, yields exactly the token sequence `ParseInput(line)`. |
| Tokenizer.NoQuoteInTokens | utils.c:153-172 | No token contains a double quote: quotes only switch the quoted state and are never copied. |
| Tokenizer.OnlyLastTokenMayBeEmpty | utils.c:107-110 | Only the last token can be empty. The `parsing` flag stops a run of unquoted spaces from flushing empty tokens. |
| Tokenizer.TokensAreKeptCharacters | utils.c:101-173 | Concatenated in order, the tokens are exactly the kept characters of the line. Kept means a character that is neither a quote nor an unquoted space; the last character is kept unless it is a quote. So tokens come out in left-to-right order and nothing else is dropped or added. |
| Tokenizer.WordsRoundTrip | utils.c:107-172 | Plain non-empty words (no space, no quote) joined by single spaces tokenize back to exactly those words. |
| Tokenizer.QuotedArgument | utils.c:153-172 | `cmd "q" w` tokenizes to `[cmd, q, w]`: the spaces inside the quotes stay in one token and the quotes are stripped. |
| Tokenizer.QuotedSpanExample | utils.c:153-172 | `echo "hello world" foo` gives `[echo, hello world, foo]`. |
| Tokenizer.UnterminatedQuote | utils.c:107-128 | An unterminated quote keeps the rest of the line in the last token: `cmd "q` gives `[cmd, q]`. |
| Tokenizer.UnterminatedQuoteExample | utils.c:107-128 | `echo "abc` gives `[echo, abc]`. |
| Tokenizer.EmptyLineExample | utils.c:93-98 | The empty line still yields a list with one node, holding the empty token. |
| Tokenizer.GetArgc | utils.c:179-188 | Counting the nodes gives the number of tokens. |
| Tokenizer.GetArgv | utils.c:191-204 | Index i in range gives token i. An index past the last token gives NULL (`None`). A negative index gives the head. |
| Tokenizer.IsOption | utils.c:218-231 | An argument is an option exactly when it is present, starts with `-` and has at least one character after it. |
| Tokenizer.OptionIsDashThenFlags | utils.c:218-231 | `is_option` holds exactly for a dash followed by a non-empty flag string. It is false for NULL and for a lone `-`. |
| LineReader.UpToNul | utils.c:35 | The C string of a stored line is its prefix before the first NUL: it holds no NUL, and when shorter than the line, a NUL follows it. |
| LineReader.UpToNulCuts | utils.c:35-41 | A line reads whole exactly when it holds no NUL. It reads as empty, so `get_input` reports no input, exactly when it is empty or starts with a NUL. |
| LineReader.FetchLine | utils.c:18-34 | The fetch loop consumes the input through the first newline. It stores the line exactly when the line has at most `SIZE_INPUT` characters, and then leaves the cells after it zero. Otherwise the buffer holds the first `SIZE_INPUT` characters of the line. |
| LineReader.StrLen | utils.c:35 | `strlen` returns the position of the first NUL. |
| LineReader.StoredLength | utils.c:35 | On the buffer just filled with a line, `strlen` gives the length of the line's C string, which fits the buffer with its terminator. |
| LineReader.FirstNonSpace | utils.c:49-57 | The first loop finds the first non-space position, or 0 on an all-space line. |
| LineReader.ShiftLeft | utils.c:58-66 | The second loop moves the line left by the start index, and its terminator with it. |
| LineReader.StripTrailing | utils.c:67-74 | The third loop leaves the buffer holding the line without its trailing spaces, with NULs from there up to the old terminator. The cells after the terminator are unchanged. |
| LineReader.TrimStored | utils.c:49-74 | The three trimming loops leave the buffer holding the C string without its leading and trailing spaces, NUL-terminated. |
| LineReader.GetInput | utils.c:14-76 | `get_input` consumes input through the first newline. It succeeds exactly when the line is at most `SIZE_INPUT` long and its C string (the part before any NUL) is non-empty. On success the buffer holds that C string trimmed of leading and trailing spaces, NUL-terminated. So a non-empty all-space line that fits succeeds and leaves the buffer empty, its trim being empty by `TrimEmptyIffAllSpaces`. On failure the buffer holds the first `SIZE_INPUT` characters of a line that is too long, or else the raw line followed by zeros. |
| LineReader.TrimIsInterior | utils.c:49-75 | The trimmed line is a slice of the line between its leading and trailing spaces, with the interior unchanged. When non-empty it starts and ends with a non-space. |
| LineReader.TrimEmptyIffAllSpaces | utils.c:35-75 | The trimmed line is empty exactly when the line is all spaces. |
| Deletion.RecursiveDeletion | utils.c:234-284 | The readdir loop with its recursion produces exactly the steps and the remaining tree given by the specification `Delete`. |
| Deletion.SweepLoop | utils.c:250-276 | The entry loop equals `DeleteEntries`: it descends into directories, unlinks files, skips `.` and `..`, and stops at a failed unlink. |
| Deletion.SweepEntry | utils.c:254-274 | One pass of the entry loop: a failed unlink ends the loop with the result of `DeleteEntries`; otherwise it logs that entry's steps, keeps or drops it, and the loop goes on with the next entry. |
| Deletion.DeletePostOrder | utils.c:250-284 | Every step acts on a path strictly below the directory, except possibly the last, which may act on the directory itself. So the directory's `rmdir` comes after all its children. |
| Deletion.SweepBelow | utils.c:252-276 | Every step of the entry loop acts strictly below the directory being swept. |
| Deletion.SweepAbortEndsWithUnlink | utils.c:266-273 | When the entry loop stops early, its last step is a failed unlink. |
| Deletion.DotsIgnored | utils.c:258-266 | Removing the `.` and `..` entries changes neither the steps nor the outcome: they are neither recursed into nor unlinked. |
| Deletion.AbortedIffUnlinkFails | utils.c:252-276 | The entry loop stops early exactly when a file directly inside the directory cannot be unlinked. A failure inside a subdirectory is not reported upward. |
| Deletion.DeleteEndsWithRmdir | utils.c:266-284 | Without a failed unlink, the last step is the directory's `rmdir`, and the directory is gone exactly when it succeeds. With one, the last step is that failed unlink and the directory remains. |
| Deletion.RemovesEverything | utils.c:234-284 | When the system refuses nothing, a readable directory is removed completely. |
| Deletion.ClearsEntries | utils.c:252-276 | When nothing is refused, the entry loop runs to the end and only `.` and `..` are left. |
| Deletion.SampleRemoval | utils.c:234-284 | For `a/b/c.txt`, the steps are: unlink `c.txt`, then `rmdir b`, then `rmdir a`. |
| Deletion.SampleRemovedCompletely | utils.c:234-284 | The sample tree `a/b/c.txt`, with its `.` and `..` entries, is readable, and with nothing refused it is removed completely. |
| Deletion.SampleFailedUnlink | utils.c:266-284 | A refused unlink of `c.txt` skips `rmdir b`. `rmdir a` is still tried, and it fails. |
| Deletion.NoDots | utils.c:258-261 | The entries left after dropping `.` and `..` are exactly the entries that are not dot directories. |
| Commands.UntilFailureStops | commands.c:265-308 | Issuing calls until a failure logs a prefix of the plan, each call with its real outcome. Every call but the last succeeds, and it stops short of the plan only right after a failure. |
| Commands.UntilFailureAllSucceed | commands.c:229-261 | When every planned call succeeds, all of them are issued. |
| Commands.UntilFailureIssuesPlanned | commands.c:229-261 | Only planned calls are ever issued. |
| Commands.Echo | commands.c:16-23 | `echo` prints each operand followed by one space, then a newline. |
| Commands.EchoRepeatsWords | commands.c:16-23 | Typing `echo` and plain words separated by single spaces prints those words back, separated by single spaces, plus a trailing space and a newline. |
| Commands.CdTarget | commands.c:131-149 | A path starting with `/` is used as given; any other is prefixed with `./`. |
| Commands.Cd | commands.c:115-150 | `cd` reports a missing operand exactly when it has none, and too many arguments exactly when it has more than one. With one operand it issues a single `chdir`, whose outcome it reports. |
| Commands.Mv | commands.c:311-333 | `mv` reports a missing operand exactly when it has fewer than two operands, and too many arguments exactly when it has more than two. With two it issues a single rename of the first to the second. |
| Commands.Touch | commands.c:153-172 | `touch` reports a missing operand when it has none. Otherwise it creates every operand with mode 0744, whatever the earlier outcomes. |
| Commands.IssueUntilFailure | commands.c:265-308 | The shared operand loop issues the planned calls in order and stops after the first failure. |
| Commands.MkdirCli | commands.c:265-285 | `mkdir` reports a missing operand when it has none. Otherwise it creates `./<arg>` with mode 0744 for each operand and stops at the first failure. |
| Commands.RmdirCli | commands.c:288-308 | `rmdir` reports a missing operand when it has none. Otherwise it removes `./<arg>` for each operand and stops at the first failure. |
| Commands.Cat | commands.c:336-369 | `cat` reports a missing operand when it has none. Otherwise it opens each operand and stops at the first that cannot be opened. |
| Commands.SplitAtFirstDot | commands.c:404-418 | Name and extension together give the file name back. The name holds no `.`. The extension is empty or starts with `.`. |
| Commands.SplitUnique | commands.c:404-418 | Those three facts determine the split uniquely. |
| Commands.SplitName | commands.c:404-418 | The character loop with its `ext_exist` flag computes the split at the first `.`. |
| Commands.Make | commands.c:372-437 | `make` reports a missing operand when it has none. Otherwise it handles each file in turn and stops only when a `system` call fails. |
| Commands.MakeOne | commands.c:404-434 | The body of `make`'s loop handles one operand exactly as the specification step `MakeStep`. |
| Commands.MakeHandlesEveryFile | commands.c:404-434 | While no `system` call fails (returns -1), every file is handled, in order. Exactly the files whose extension is `.c` are compiled, as `gcc -o <name> <file>`; every other file is reported and skipped. |
| Commands.MakeCompilesHello | commands.c:426-429 | `hello.c` is compiled with `gcc -o hello hello.c`. |
| Commands.MakeRejectsDoubleExtension | commands.c:404-424 | `lib.tar.c` has extension `.tar.c` and is reported, not compiled. |
| Commands.LsFlags | commands.c:43-61 | `details` is set exactly when some option argument holds `l`, and `invisible` exactly when some holds `a`. Other flag characters are ignored. |
| Commands.Ls | commands.c:39-112 | Output of `ls`: a message when the directory cannot be opened, another when no entry can be read, and otherwise the listing for the flags given. |
| Commands.ListEntries | commands.c:78-110 | The entry loop, with its `flag` variable, yields the listing. |
| Commands.ListingShape | commands.c:78-110 | The listing is one header, present only with `-l` and only when some entry is shown, followed by one row per visible entry, in order. |
| Commands.Visible | commands.c:80-84 | An entry is shown exactly when `-a` is given or its name does not start with `.`. |
| Commands.ModeString | commands.c:96-105 | The mode string has 9 columns. The first is `d` exactly for a directory and `-` otherwise; each of the other 8 shows its letter from `rwxrwxrw` exactly when the matching permission bit, owner read down to others write, is set, and `-` otherwise. |
| Commands.OthersExecuteHidden | commands.c:96-105 | The mode string never depends on the others-execute bit. |
| Commands.ModeStringExamples | commands.c:96-105 | Mode 0744 for a file reads `-rwxr--r-`, 0755 for a directory reads `drwxr-xr-`, and 0777 for a file reads `-rwxrwxrw`. |
| Commands.ScanRmFlags | commands.c:190-207 | The `switch` over one option's characters fails exactly when the option holds a flag other than `i`, `d` or `r`. Otherwise it adds to the flags so far exactly the flags the option carries. |
| Commands.ScanRmOptions | commands.c:185-209 | The option scan reports the first option that holds a flag other than `i`, `d` or `r`. Without one, it sets exactly the flags that some option carries. |
| Commands.Removal | commands.c:237-259 | The call `rm` issues for one target: `recursive_deletion` of `./<arg>` exactly with `-r`; otherwise `rmdir` of `./<arg>` exactly with `-d`; otherwise `unlink` of the argument as given. |
| Commands.RemoveTargets | commands.c:229-261 | The removal loop issues that call for each non-option operand in order, and stops after the first failure. |
| Commands.WarnTargets | commands.c:211-221 | The prompt loop of `rm -i` prints one warning per non-option operand, in order. |
| Commands.RmCommand | commands.c:175-262 | The `rm` handler produces exactly the log of the specification `Rm`. |
| Commands.RmInvalidOptionFirst | commands.c:185-209 | With any bad option, `rm` prints only the invalid-option message: no prompt and no removal. |
| Commands.RmRefusedRemovesNothing | commands.c:211-227 | With `-i` and a reply other than `y`, `rm` only prints. It issues no system call. |
| Commands.RmTouchesOnlyOperands | commands.c:229-261 | Every call `rm` issues is the removal chosen by its flags for an operand that is not an option. |
| Commands.RmRecursiveNeverStops | commands.c:237-241 | With valid options and `-r`, after any prompt, `rm` issues `recursive_deletion("./<arg>")` for every non-option operand, in order. No failure stops it. |
| Commands.OperandsMembers | commands.c:213-232 | The targets are exactly the arguments that are not options. |
| Commands.FirstBadRmOption | commands.c:185-209 | Finds the first argument holding a bad flag, scanning left to right. |
| DraftCli.DraftParseLoop | cli.c:204-283 | The draft's character loop yields exactly `DraftParse(line)`. |
| DraftCli.DraftTokensAreKeptCharacters | cli.c:228-279 | Concatenated, the draft's tokens are exactly its kept characters: everything except quotes that are not the last character, and unquoted spaces that are not the last character. |
| DraftCli.SameCharactersUnlessClosingQuote | cli.c:228-279 | When the line does not end with a quote, both tokenizers keep the same characters. |
| DraftCli.DraftWordsRoundTrip | cli.c:228-264 | Plain words joined by single spaces tokenize back to those words, just as with `utils.c`. |
| DraftCli.DraftEmptyTokensForSpaceRuns | cli.c:228-264 | Between two words, n extra spaces give n empty tokens in the draft; `utils.c` gives none. |
| DraftCli.DoubleSpaceExample | cli.c:228-264 | `ls  -l` gives `[ls, "", -l]` in the draft and `[ls, -l]` in `utils.c`. |
| DraftCli.ClosingQuoteKept | cli.c:228-234 | `cmd "q"` gives `[cmd, q"]` in the draft, which keeps the closing quote, and `[cmd, q]` in `utils.c`. |
| DraftCli.ClosingQuoteExample | cli.c:228-234 | `echo "abc"` gives `[echo, abc"]` in the draft and `[echo, abc]` in `utils.c`. |
| DraftCli.DraftGetArgc | cli.c:286-295 | Counting the nodes gives the number of tokens. |
| DraftCli.DraftGetArgv | cli.c:298-311 | The out-of-range report happens exactly when n is past the last token, and exactly then the result is NULL. In range, the result is token n; a negative index gives the head. |
| DraftCli.SkipSpaces | cli.c:171 | The first loop stops on the first character that is not a space and leaves the stream just after it. |
| DraftCli.Drain | cli.c:180 | The draining loop consumes the stream through the newline that ends the line. |
| DraftCli.StoreLine | cli.c:174-188 | The do-while loop consumes the line through its newline. It reports an overflow exactly when the text from the first non-space character is longer than `SIZE_INPUT`. Otherwise it stores that text, with zeros after it. |
| DraftCli.DraftEnd | cli.c:171-188 | The draft's read ends at the first newline after the first non-space character. |
| DraftCli.DraftGetInput | cli.c:164-201 | The draft reader consumes input through that newline. It returns 1 exactly when the text read from the first non-space character is longer than `SIZE_INPUT`, and the buffer then starts with a NUL. Otherwise it returns 0 and the buffer holds the C string of that text (the part before any NUL) without trailing spaces. |
| DraftCli.DraftAgreesOnNonBlankLines | cli.c:164-201 | On a line with a non-space character, the draft reads up to the same newline as `utils.c`. Its text is the line without its leading spaces, so it is shorter by exactly those spaces, and it fits the buffer whenever the `utils.c` line does. Without trailing spaces the two texts are equal as strings. |
| DraftCli.DraftBufferAgrees | cli.c:164-201 | On a line with a non-space character, whenever the `utils.c` line fits the buffer the draft returns 0 too. The C strings the two readers leave after trimming are then equal as strings: with the postconditions of `LineReader.GetInput` and `DraftCli.DraftGetInput`, the buffers agree whenever `utils.c` succeeds. |
| DraftCli.LeadingSpacesOverflowOnlyInUtils | cli.c:171-188 | The converse fails: `n` leading spaces before a word that fits the buffer on its own, with more than `SIZE_INPUT` characters in all, make `utils.c` refuse the line while the draft stores the word. |
| DraftCli.BlankLineReadsNext | cli.c:171-188 | On a blank line, the draft stores the newline itself and goes on reading the next line into the same buffer. |
| DraftCli.ReadLine | cli.c:135-138 | One read of a turn clears the buffer and calls the draft `get_input`: it succeeds exactly when the text read fits, leaves the C string the exit test reads, and returns the rest of the stream. |
| DraftCli.NulCutsLine | cli.c:189-201 | A NUL typed inside a line ends the C string: a word followed by a NUL and more text prints just the word as its one token. |
| DraftCli.Listing | cli.c:147-152 | One output per token, numbered from 1, in order. |
| DraftCli.RunTurn | cli.c:132-155 | One turn prints the prompt, reads, and on success prints the numbered tokens. It leaves the buffer holding what the exit test reads. |
| DraftCli.Repl | cli.c:121-161 | The do-while loop produces exactly the outputs of the specification `Session`. |
| DraftCli.ExitEndsSession | cli.c:157 | A line that reads `exit` in any letter case ends the loop after its turn; the lines after it are never read. |
| DraftCli.ExitExample | cli.c:157 | `ExIt` followed by `ls` prints one prompt and `1: ExIt`, and then stops. |
| DraftCli.WordLineContinues | cli.c:132-157 | Any other one-word line prints its numbered token, and the loop goes on with the rest of the input. |
| DraftCli.BlankLineJoinsNextInSession | cli.c:171-188 | A blank line followed by word `w` gives a single turn whose one token is a newline followed by `w`. |
| DraftCli.CString | cli.c:157 | The C string in the buffer is the prefix up to the first NUL. |

## Left out

- **Input and output.** `getchar`, `printf` and `perror` are left out. Input is a string parameter, and output is a log of values. The exact wording of messages is not modelled: a handler's error report after a failed call is folded into that failed `Call` event.
- **System calls.** `unlink`, `rmdir`, `chdir`, `creat`, `mkdir`, `rename`, `fopen` and `system` in `commands.c` are outcomes drawn from the oracle set `fails` of calls. Two identical calls therefore share one outcome. `system` fails only when it returns -1; a compiler error inside it does not stop `make`, and is not modelled.
- **Directory reads.** For `ls`, the outcomes of `opendir` and `readdir` and the result of `stat` come from the `listing` parameter: `None` when the directory cannot be opened, otherwise the entries with their mode and size. For recursive deletion they come from the `Node` value, and the oracle `fails` is a set of paths whose `unlink` or `rmdir` is refused.
- **`ls` and `stat`.** `ls` does not check the result of `stat`; when it fails, the C code prints the mode and size left in `buf` by the previous entry. The model assumes every `stat` succeeds, so each row shows its own entry's mode and size.
- **`run`.** It forks, execs and waits for a child process, so it is out of scope.
- **`pwd`.** It is pure I/O.
- **`cat`.** Its byte-copy loop is not modelled; only the `fopen` calls and where they stop.
- **`make`.** The compiler is not run. The model keeps only the name/extension decision, the command string, and whether `system` fails.
- **Memory.** `free_tokens`, `malloc`/`calloc`/`free` and the failure paths for allocation (`parse_input` returning NULL) are not modelled. `main`'s `Parsing failed` branch is left out with them.
- **C buffer limits.** A stored line of exactly 100 characters with no NUL leaves the buffer without a terminator, so `strlen` reads past it. A 99-character C string with two or more leading spaces makes the shift loop read past the buffer. Both are excluded by preconditions: `LineReader.InBounds` and `DraftCli.DraftDefined`. A NUL typed inside a line is modelled: `strlen` stops at it, so the C string is the part before it. Tokens are unbounded here, while `Token.argument` holds 100 bytes in C. Paths are not truncated to `PATH_MAX`.
- **Recursive deletion.**
  - Symbolic links are not modelled, and `stat` is assumed to succeed.
  - `readdir` order is the given entry sequence.
  - The missing `closedir` on early returns is not modelled.
  - `opendir` fails exactly when the node is a file: the walk logs `OpenFailed` and removes nothing. Permissions are not modelled.
  - A `Dir` with no entries stands for `readdir` failing at once: the walk logs `ReadFailed` and removes nothing. `Readable` asks only that every directory the walk descends into list at least one entry, as a real directory always lists `.` and `..`. The nodes behind `.` and `..` are never opened, so nothing is asked of them.
- **`rm -i`.** The newline left in standard input after the `y` reply is not modelled. The reply is a single `Option<char>` parameter.
- **Dispatch.** No command-name-to-handler table exists in the source, so none is modelled.
- **DraftCli.Session: ends at the end of input.** It also ends on a line whose result is not defined (see C buffer limits). The C loop would instead spin forever at end of file, since `getchar` then returns `EOF` on every call.
- LineReader.GetInput: requires a newline in the input. At end of input without one, the fetch loop never ends, because `getchar` keeps returning `EOF`; that non-terminating path is not modelled.
- DraftCli.DraftGetInput: requires a non-space character and a newline after it. At end of input the C loops never end, because `getchar` keeps returning `EOF`; that non-terminating path is not modelled.
- **DraftCli.DraftGetInput: overflow clearing.** On overflow only the first 8 bytes are cleared (`memset` of `sizeof(ptr)`), and the contract states only the first byte. That is what the exit test reads.

Notable behaviours of the C code that the model keeps:

- **All-space line.** It is not an empty-input failure: `get_input` succeeds with an empty buffer, and `parse_input` then yields one empty token.
- **Failures in recursive deletion.** A failure inside a subdirectory does not abort the enclosing deletion: the parent goes on with its remaining entries and still tries its `rmdir`.
- **Leading spaces and the limit.** `utils.c` counts leading spaces toward its 100-character limit, while the draft skips them before counting. A long line padded with leading spaces is refused by one and stored by the other.
- **`rm -r`.** It reports nothing and never stops on a failed target.
- **Out-of-range `get_argv`.** It returns NULL rather than raising an error.
- **Negative index.** `get_argv` with a negative index returns the head token.
