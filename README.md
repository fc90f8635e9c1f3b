# nMSh command loop

A Dafny model of the shell at the heart of nMUD (`main.c`), a descendant
of the "lsh" tutorial shell. The shell prints a prompt, reads one line from
standard input, splits it into words, and runs the first word. That word
is either one of three built-in commands (`cd`, `help`, `exit`) or the
name of a program, which is started in a child process. The shell keeps
going until a command answers 0, and only `exit` does.

The model follows the C code function by function:

- `cstring.dfy` (module `CStrings`): C strings and `realloc`. A C string
  is the part of a buffer before its first NUL.
- `reader.dfy` (module `LineReader`): `lsh_read_line`. Standard input is
  a `Stdin` object with a cursor, read one `getchar` at a time into a heap
  `array<char>`. The array starts at 1024 characters and grows by 1024.
  The method is proved against `NextLine`, a function of the input text.
- `tokenizer.dfy` (module `Tokenizer`): `lsh_split_line`.
  - `strtok` is a method (`StrTok`) that overwrites a delimiter in the
    line array with NUL. It follows its function (`StrTokCall`), which
    is the `strtok` of section 7.24.5.8 of ISO C11.
  - `SplitLine` fills a NULL-terminated table of `Entry` values. Each
    entry is a pointer into the line, given as an offset. The table
    starts at 64 entries and grows by 64.
  - The words the table denotes are proved equal to `Split`, an
    independent definition: the maximal runs of non-delimiters.
- `process.dfy` (module `Os`): the operating system as a value
  (`Process`). It holds:
  - the working directory and the directories that exist;
  - a log of `chdir` attempts and of launched programs;
  - the text written to standard output and standard error.

  The module also models `chdir`, the result of `lsh_launch`, and the
  parent's `waitpid` loop.
- `builtins.dfy` (module `Builtins`): `builtin_str`, `builtin_func`,
  `lsh_num_builtins`, `lsh_cd`, `lsh_help`, `lsh_exit` and
  `lsh_execute`. The dispatcher is a method with the scan loop, proved
  against the function `Dispatch`. The promises of `lsh_execute` are
  lemmas about `Dispatch`.
- `loop.dfy` (module `CommandLoop`): `lsh_loop`. One round is: prompt,
  `ReadLine`, `SplitLine`, reading the table as an argument vector, then
  `Execute`. The round repeats while the status is non-zero, for at most
  a given number of rounds. The method is proved against the function
  `Session`.

## Model

| member | source | states |
|---|---|---|
| CStrings.Realloc | main.c:178-185 | the grown buffer has the new size and starts with every element of the old one |
| CStrings.CStrOfTerminated | main.c:168-171 | characters free of NUL and followed by a NUL are read back in full as the C string |
| CStrings.CStrCut | main.c:170 | a NUL cuts a C string short; whatever follows it is not part of the string |
| LineReader.Stdin.GetChar | main.c:166 | `getchar` yields the next character and advances by one, or yields EOF for ever at the end without advancing |
| LineReader.NextLine | main.c:164-186 | the line is exactly the characters from the cursor up to the first newline or the end of input, with no newline in it; the newline is consumed, EOF is not |
| LineReader.NextLineOfLine | main.c:169-171 | a line followed by a newline is returned whole, and the cursor stops right after that newline whatever comes next |
| LineReader.NextLineAtEof | main.c:169-171 | at end of input the line is empty and nothing is consumed |
| LineReader.ReadLine | main.c:152-187 | the buffer holds `NextLine` of the input followed by a NUL, which lies in bounds; the cursor lands where `NextLine` says; the buffer size is the smallest multiple of 1024 above the final position, so it grew by exactly 1024 each time the position reached it, and contents survive every growth (loop invariant) |
| LineReader.ReadLineString | main.c:168-171 | the string handed back is the line, cut at its first NUL if it has one |
| Tokenizer.SplitYieldsWords | main.c:189-190 | no token is empty and no token contains a delimiter |
| Tokenizer.SplitAppend | main.c:190 | a delimiter separates: the tokens of `a + [d] + b` are those of `a` followed by those of `b` |
| Tokenizer.SplitEmptyIffAllDelims | main.c:207-208 | a line has no tokens if and only if it is empty or all delimiters |
| Tokenizer.SplitKeepsNonDelims | main.c:196-225 | the tokens, put end to end, are exactly the line's non-delimiter characters in order |
| Tokenizer.SplitUnwords | main.c:196-225 | round trip: words joined by single spaces split back into the same words |
| Tokenizer.SplitWord | main.c:207 | a single word is one token |
| Tokenizer.SplitLeadingDelims | main.c:207 | leading delimiters produce nothing |
| Tokenizer.SplitAcrossDelims | main.c:221 | a run of delimiters of any length separates like one; repeated and trailing delimiters produce no empty tokens |
| Tokenizer.StrTokCall | main.c:207 | `strtok` skips delimiters. When it finds nothing it returns NULL and leaves the buffer unchanged. A token it returns starts at or after the saved position and before the new one. The buffer keeps its length |
| Tokenizer.StrTokCallDone | main.c:221 | on a NUL-terminated string, `strtok` returns NULL exactly when only delimiters remain. Otherwise it returns the start of the next run of non-delimiters, overwrites the delimiter after it with NUL, and resumes just past that delimiter |
| Tokenizer.StrTokStep | main.c:221 | each `strtok` call yields the first token of the rest of the line per `Split`, and the rest of the split is still to come |
| Tokenizer.StrTok | main.c:207 | the in-place `strtok` leaves the token, the saved position and the array exactly as `StrTokCall` says |
| Tokenizer.SplitLine | main.c:196-225 | the table is a positive multiple of 64 entries, holds every token `strtok` returned in order, and has NULL at index count, in bounds |
| Tokenizer.Push | main.c:209-219 | a token goes in at `position`; the table grows by 64 exactly when `position` reaches its size, and the earlier entries are kept |
| Tokenizer.TokenizeSettled | main.c:208-222 | every round of the `strtok` loop keeps the invariant: the found entries point at the leading tokens of the line, and the rest is still to be found |
| Tokenizer.TokenizeSplits | main.c:196-225 | the table returned, read through its pointers up to NULL, spells exactly `Split` of the line's C string; the count equals the number of tokens; only delimiters were overwritten |
| Tokenizer.TableSpellsWords | main.c:209-223 | each table entry before NULL points at its token's characters, and a NUL follows them |
| Tokenizer.TokenizeNothing | main.c:207-223 | the first table entry is NULL if and only if the line is empty or all delimiters before its first NUL |
| Os.Resolve | main.c:57 | the path `cd` is given always ends the directory `chdir` looks for, and from an absolute working directory that directory is absolute |
| Os.Chdir | main.c:57 | `chdir` returns 0 exactly when the target exists, and then moves there; it returns -1 and leaves the directory alone otherwise; each call is recorded and nothing else changes |
| Os.Launch | main.c:99-122 | launching records the argument vector and always answers 1 |
| Os.WaitForChild | main.c:116-118 | the wait loop stops at the first report that the child exited or was killed; stopped reports keep it waiting |
| Builtins.NumBuiltins | main.c:39-41 | the builtin count is the size of builtin_str, and builtin_func has the same size |
| Builtins.Lookup | main.c:138-142 | the scan finds the first index whose name matches, or none when no name matches, both ways |
| Builtins.Cd | main.c:52-62 | `cd` always answers 1. Without a second argument it only reports an error. Otherwise it makes one `chdir` attempt, on that argument. It then either moves or stays put and reports the failure |
| Builtins.ListingShowsEach | main.c:76-78 | the help listing names every built-in on its own line, in table order |
| Builtins.Help | main.c:69-82 | `help` answers 1 and appends the header, one line per built-in and the footer to standard output, and nothing else |
| Builtins.Exit | main.c:89-92 | `exit` answers 0 and changes nothing |
| Builtins.Run | main.c:140 | calling a builtin_func entry does what that function's model says |
| Builtins.Execute | main.c:129-145 | the dispatcher's scan loop returns exactly what `Dispatch` says: empty command, first matching built-in, or launch |
| Builtins.DispatchEmpty | main.c:133-136 | an empty command answers 1 and invokes nothing |
| Builtins.LookupFinds | main.c:138-142 | every name of builtin_str is found at its own index: the names are distinct, so the first match is the only one |
| Builtins.DispatchBuiltin | main.c:138-142 | a command named in builtin_str runs the function at the same index of builtin_func |
| Builtins.DispatchLaunches | main.c:144 | any other command is launched with its whole argument vector and answers 1 |
| Builtins.DispatchStops | main.c:129-145 | the status is 0 or 1, and it is 0 if and only if the command is `exit` |
| Builtins.DispatchCdAlone | main.c:54-55 | `cd` without a directory reports an error and changes nothing else |
| Builtins.DispatchCdMoves | main.c:56-61 | `cd dir` makes exactly one `chdir` attempt, on `dir`. It moves when the target exists, stays put with an error report when it does not, and answers 1 either way |
| Builtins.DispatchHelp | main.c:69-82 | `help` prints the help text whatever its arguments and changes nothing else |
| CommandLoop.Session | main.c:230-245 | the rounds run never exceed the bound, the input only moves forward, and an unstopped run used every round |
| CommandLoop.Loop | main.c:230-245 | the loop's state, input position, round count and stop flag are exactly what `Session` says (loop invariant) |
| CommandLoop.SessionRound | main.c:236-244 | one round prompts, reads a line and runs its words; the loop goes on from the next line unless the command was `exit` |
| CommandLoop.SessionReadsOneLinePerRound | main.c:238 | the loop reads exactly one line per round, so no line after the stopping one is read |
| CommandLoop.SessionStopsAtFirstExit | main.c:236-244 | a stopped loop's last command is `exit` and none before it is; an unstopped loop ran every round and met no `exit` |
| CommandLoop.SessionExit | main.c:240-244 | if the first line is `exit`, the loop stops after that one round, and its only effect is the prompt it printed |
| CommandLoop.SessionAtEof | main.c:236-244 | at end of input the loop never stops: every round prints a prompt and does nothing else |

## Left out

- `main` (screen clearing, banner, clock, login and account prompts) is not part of this model. Neither are the terminal colour codes.
- The prompt and the help text are modelled without their colour escape sequences.
- Builtins.Cd: the system's error text that `perror` prints after `nMSh:` is not modelled. Only the tag `nMSh` is recorded on standard error.
- Os.Launch: `fork`, `execvp` and the child side are left out, since they are calls into the operating system. A failed `fork` or `exec` prints an error and still answers 1, which is all the model records. The parent's `waitpid` loop is modelled on its own by `WaitForChild` and is not composed into `Launch`, so the dispatcher's model does not show the shell blocking until the child is gone.
- Os.WaitForChild: `waitpid` is given as the sequence of reports it will make. The model requires that some report says the child is gone. A child that never ends keeps the C loop waiting for ever.
- Os.Chdir: paths are not normalised (`.`, `..`, repeated `/`, symbolic links), and the reasons `chdir` can fail are not distinguished.
- CommandLoop.Loop: the C loop has no bound. It prompts for ever at end of input, because the reader returns an empty line there (see `SessionAtEof`). The model runs at most `fuel` rounds.
- Allocation failure in `malloc` and `realloc` is not modelled. That path prints an error and exits the process.
- `free`, and the aliasing between the token table and the line it points into, are not modelled. Table entries are offsets into the line array.
- `int` widths: the buffer and table sizes are unbounded naturals, so the overflow of `bufsize` past 2^31 is not modelled.
- LineReader.ReadLine: characters are `char`; the `int` returned by `getchar` is modelled as a character or EOF.
- `ReadLine` and `SplitLine` return their final `position` as a ghost value. It is the index of the NUL in the buffer and of the NULL in the table.
