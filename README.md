# A verified model of the mini-shell's command-line front end

This project models the text-processing part of the small Unix shell in
`ex1.c`, and its in-memory shell-variable table. It covers:

- how an input line is cut into `;`-separated statements, with quotes
  respected;
- how a pipeline statement is cut into `|`-separated stages;
- how one statement becomes an argument vector, a variable assignment, an
  `exit`, a `bg` request or an error;
- how `echo` lines are cut into words;
- the helpers that remove quotes and spaces, split a word around `>`, test
  for an assignment and count arguments;
- the bounded table behind `my_setenv`, `my_getenv` and `free_env_vars`;
- the command and argument counters shown in the prompt.

Strings are `seq<char>`. The C routines that walk strings with loops become
methods with loop invariants. Each one is proved equal to a recursive
specification function, and the properties are proved as lemmas about those
functions. The variable table is a class over a fixed array of 100 slots and
a count. The shell's counters live in a `Shell` class, and its methods update
them as `split_single_command` and `execute_pipe_commands` do.

Modules:

| module | file | contents |
|---|---|---|
| `ShellBase` | `base.dfy` | constants (`MAX_ARGS` = 10, `MAX_ENV_VARS` = 100) and the four status codes |
| `Text` | `text.dfy` | `strchr` and `strtok` on one delimiter, character filtering and counting, blank trimming |
| `Quotes` | `quotes.dfy` | `remove_quotes`, `remove_spaces_and_quotes` |
| `Helpers` | `helpers.dfy` | `divide_string`, `is_assignment`, `count_arguments`, the redirection search of `make_exec` |
| `EnvStore` | `env.dfy` | the variable table |
| `LineSplit` | `split.dfy` | the `;` splitter of `split_multiple_commands`; the `\|` splitter of `execute_pipe_commands` |
| `Echo` | `echo.dfy` | `deal_with_echo` |
| `Parser` | `parser.dfy` | `split_single_command`, the counter updates, and the `Shell` state |

Three behaviours of the code that a reader might not expect, all modelled as
written:

- The assignment test scans from just after the name's first non-space
  character up to **and including** the first character of the value. So
  `x= 5` is refused because of the space at the start of the value.
- A statement refused by the `>` check still adds 1 to the argument counter
  when it had a background `&` stripped. The stripping, at ex1.c:234-246,
  counts the `&` before the check runs.
- A full variable table makes `my_setenv` return SYSTEM_FAILURES.
  `split_single_command` passes that on, and the whole shell then stops. The
  statement is not merely skipped.

The argument loop of `split_single_command` is modelled with the corrected
too-many-arguments test; see "Findings".

## Model

| member | source | states |
|---|---|---|
| Text.IndexOf | ex1.c:698 | `strchr`: the index of the first occurrence of the character, and -1 exactly when the character does not occur |
| Text.NextToken | ex1.c:177 | one `strtok` call: None exactly when only delimiters remain; otherwise the token is a maximal run of non-delimiters, preceded only by delimiters and followed by a delimiter or the end |
| Text.TokensShape | ex1.c:177-224 | every `strtok` token is non-empty and holds no delimiter |
| Text.TokensKeepContent | ex1.c:433-434 | the tokens, concatenated, are exactly the input with the delimiters removed |
| Text.TokensBound | ex1.c:421-426 | there are never more tokens than delimiters plus one, which is the size of `commands[num_pipes]` |
| Text.SkipSpaces | ex1.c:581-582 | the first non-space position at or after the start, with only spaces skipped |
| Text.TrimLeft | ex1.c:436-438 | the result is a suffix of the input, only blanks were dropped, and it does not start with a blank |
| Text.TrimRight | ex1.c:443-446 | the result is a prefix of the input, only blanks were dropped, and it does not end with a blank |
| Quotes.RemoveQuotes | ex1.c:563-574 | `remove_quotes` leaves the input with every `"` filtered out, keeps every other character with its count, and is never longer |
| Quotes.RemoveSpacesAndQuotes | ex1.c:545-561 | `remove_spaces_and_quotes` computes the specified copy: a character is kept unless it is a quote or a space after a space, and then one trailing space is dropped; the result holds no quote and is never longer |
| Quotes.SpacesNormalised | ex1.c:545-561 | on quote-free input the result has no leading space, no trailing space and no two adjacent spaces |
| Quotes.SpacesAndQuotesRemovedKeepsLetters | ex1.c:551-556 | only spaces and quotes are dropped: every other character survives, in order |
| Helpers.Divide | ex1.c:695-728 | `divide_string` covers five cases: no `>` gives one piece; exactly `>` gives one piece; a leading `>` gives `[">", rest]`; a trailing `>` gives `[prefix, ">"]`; otherwise `[prefix, ">", suffix]`. The pieces always concatenate back to the input, and none is empty |
| Helpers.IsAssignment | ex1.c:577-591 | `is_assignment` answers true exactly when no space lies between just after the name's first non-space character and the value's first character, inclusive |
| Helpers.CountArguments | ex1.c:730-754 | `count_arguments` equals the specified count: spaces outside quotes, the extra words a `>` stands for, and a last word per string, with the quote state carried from one string to the next |
| Helpers.CountMatchesTokens | ex1.c:730-754 | on a plain stage (no quotes, no `>`, no leading or double space), the count equals the number of words `strtok` finds |
| Helpers.LastGtBefore | ex1.c:339-342 | the index of the last `>` among the first n arguments, or 0: no `>` lies after it |
| Helpers.FindRedirect | ex1.c:338-342 | `make_exec`'s search: a non-zero result points at a `>` that has a file name after it, and no later argument before the last is a `>` |
| EnvStore.FindName | ex1.c:774-780 | the index of the first entry with the name, or -1 exactly when no entry has it |
| EnvStore.AssignThenLookup | ex1.c:772-809 | after a successful `my_setenv(n, v)`, `my_getenv(n)` returns `v` |
| EnvStore.AssignKeepsOthers | ex1.c:774-798 | setting one name changes no other name's value |
| EnvStore.AssignSize | ex1.c:774-796 | re-setting a name keeps the count; a new name is appended; the call fails exactly for a new name when 100 entries are already in use |
| EnvStore.AssignKeepsNamesUnique | ex1.c:774-796 | names stay unique |
| EnvStore.EnvTable.Find | ex1.c:774-780 | the search loop returns the slot of the first entry with the name, or -1 |
| EnvStore.EnvTable.Set | ex1.c:772-798 | `my_setenv` updates the slots as specified: in place for a known name, appended for a new one; it reports SYSTEM_FAILURES and leaves the table unchanged when full |
| EnvStore.EnvTable.Get | ex1.c:801-809 | `my_getenv` returns the value of the first entry with the name, or None |
| EnvStore.EnvTable.Clear | ex1.c:811-818 | `free_env_vars` leaves the table empty |
| LineSplit.SplitStatements | ex1.c:286-301 | the statements dispatched, in left-to-right order, are the non-empty pieces between `;` outside quotes |
| LineSplit.JoinPieces | ex1.c:286-299 | the `;` splitter loses nothing: the pieces joined with `;` give back the line |
| LineSplit.SemicolonSplitting | ex1.c:287-295 | a line without a `;` outside quotes is one piece; a line with one has at least two |
| LineSplit.PiecesAtSeparators | ex1.c:286-299 | the splitter cuts exactly at the `;` outside quotes: there is one piece more than such separators; laid out in order, each piece but the last is followed by one; no piece holds one, so a quoted `;` stays inside its piece |
| LineSplit.StagesOf | ex1.c:433-456 | every stage kept is non-empty, with no blank at either end |
| LineSplit.SkipBlanks | ex1.c:436-438 | the leading-blank loop stops where the left trim does |
| LineSplit.CutBlanks | ex1.c:443-446 | the trailing-blank loop stops where the right trim does |
| LineSplit.TrimToken | ex1.c:436-446 | one token is trimmed of spaces and tabs at both ends |
| LineSplit.SplitPipeline | ex1.c:433-458 | the stages are the trimmed, non-empty `\|` tokens, in order; the pipeline is in the background exactly when the last stage ends in `&` |
| LineSplit.CollectStages | ex1.c:433-456 | the `strtok_r` loop on `\|` collects exactly the trimmed, non-empty tokens, in order |
| LineSplit.StagesBound | ex1.c:421-426 | there are at most as many stages as `\|` characters plus one |
| LineSplit.StagesNoBar | ex1.c:433-434 | no stage holds a `\|`: every `\|` splits, quoted or not |
| LineSplit.StagesKeepContent | ex1.c:433-456 | every character other than bars, spaces and tabs survives the splitter, in order |
| LineSplit.StagesInPlace | ex1.c:433-456 | each stage is a contiguous piece of the command, inner blanks included; the stages come in order, at least one `\|` separates consecutive stages, and only bars and blanks lie before, between and after them |
| Echo.ScanWord | ex1.c:616-621 | the word scan stops at the end of the line, or at a space outside quotes |
| Echo.ScanStopsFirst | ex1.c:616-621 | the scan stops at the first position that is the end of the line or a space outside quotes, the quote flag at each position being the parity of the quotes passed; the flag where it stops is that parity |
| Echo.NameEnd | ex1.c:636-641 | the variable name ends at the word's first quote, or at its end |
| Echo.WordAt | ex1.c:604-621 | the word found lies after the start; a word ending before the end of the line ends at an unquoted space, after the start |
| Echo.WordAtShape | ex1.c:604-621 | the word starts after the leading spaces, and after an opening quote, which sets the quote flag; it ends at the first end of line or space outside quotes from there |
| Echo.FindWord | ex1.c:604-621 | the pointer walk delimits the specified word, with the quote flag where it stops |
| Echo.WordArguments | ex1.c:634-671 | one word is substituted, has its quotes removed and is divided around `>`, as specified |
| Echo.DealWithEcho | ex1.c:594-692 | `deal_with_echo` returns the specified words, or the too-many-words or unbalanced-quotes error |
| Echo.WordParity | ex1.c:610-621 | after one word the quote flag is the parity of the quotes passed |
| Echo.EchoParity | ex1.c:603-688 | short of the word limit, unbalanced quotes are reported exactly when the rest of the line holds an odd number of `"` |
| Echo.UnbalancedQuotes | ex1.c:683-688 | an odd number of quotes never succeeds, and an even number never reports unbalanced quotes |
| Echo.EchoBound | ex1.c:673-678 | a successful echo never yields more than MAX_ARGS words |
| Echo.EchoTooManyWords | ex1.c:673-678 | a line of more than MAX_ARGS non-empty words, `echo` included, reports too many words |
| Echo.EchoNoQuotes | ex1.c:662 | no word produced holds a quote |
| Echo.UnknownVariable | ex1.c:659-660 | `$name` for an unknown name becomes a single space, not an error |
| Echo.KnownVariable | ex1.c:643-658 | `$name` for a known name becomes its value followed by the text after the name, without quotes |
| Echo.QuotedSpan | ex1.c:610-621 | a double-quoted span is one word, spaces included, and once its quotes are removed it is the span's text |
| Echo.QuotedEchoExample | ex1.c:593 | `echo "a b" c` gives the words `echo`, `a b`, `c` |
| Echo.UnknownEchoExample | ex1.c:659-660 | `echo $X` with no variable X gives the words `echo` and a single space |
| Parser.AssignLine | ex1.c:156-176 | an assignment statement never reports SUCCESS: INVALID_INPUT, or SYSTEM_FAILURES with the table unchanged |
| Parser.AssignLineStores | ex1.c:156-176 | for `name=value` with no space, quote or second `=` (and no `>` in the value), the name is the text before the `=` and the value the text after it: the table becomes `my_setenv`'s result, and the name then reads back as the value; a full table refuses a new name with SYSTEM_FAILURES |
| Parser.GrowText | ex1.c:220-223 | taking a token adds its text to the arguments, and a lone space adds nothing |
| Parser.ArgsBound | ex1.c:199-225 | with the corrected test the loop never collects more than MAX_ARGS + 2 arguments, so the closing NULL fits the MAX_ARGS + 3 slots of ex1.c:278 |
| Parser.CdRejected | ex1.c:216-219 | a `cd` token anywhere rejects the statement |
| Parser.UnsetRejected | ex1.c:205-213 | a `$name` for an unset name anywhere rejects the statement |
| Parser.ArgsKeepText | ex1.c:199-225 | the collected arguments, joined, are the substituted tokens: no text is lost or invented |
| Parser.GuardSkipped | ex1.c:199-227 | as written, `a b c d e f g h i j>k l` is accepted with 13 arguments, so the NULL at ex1.c:227 goes to `args[13]` |
| Parser.GuardHolds | ex1.c:200-204 | with the corrected test the same tokens are refused |
| Parser.TooManyRejected | ex1.c:199-225 | with the corrected test, a statement whose first MAX_ARGS + 1 tokens each stand for an argument (set, not a lone space, not `cd`) is refused |
| Parser.CorrectedRefusesInBounds | ex1.c:199-227 | `a b c d e f g h i>j k`: as written the C collects 12 arguments, whose NULL still fits; the corrected test refuses it |
| Parser.Finish | ex1.c:234-253 | the marker is exactly a last argument ending in `&`, and it sets the background flag; with arguments, the statement succeeds exactly when what is left neither starts nor ends with a bare `>`; with none it succeeds and leaves the flag alone; with the marker the arguments before the last are kept, a lone `&` argument is dropped and any other last argument loses only its final `&`; without it the arguments are untouched |
| Parser.FinishStripsMarker | ex1.c:234-246 | the marker is exactly a final `&` character; stripping keeps the arguments before the last, drops a lone `&` argument and otherwise takes only the final `&` off the last argument, so the concatenated arguments lose that one character; without the marker the arguments are untouched |
| Parser.Conclude | ex1.c:234-256 | success counts one command and adds the argument count plus 1 for a stripped `&`; a refusal counts no command and adds exactly that 1 for a stripped `&` |
| Parser.ParseCounters | ex1.c:146-257 | only SUCCESS counts a command, and it adds the argument count plus the `&` stripped from the arguments gathered; a failure adds exactly that `&` (the `>` refusal), or one command and one argument for a lone `bg` that resumes a stopped process; EXIT and SYSTEM_FAILURES count nothing |
| Parser.BackgroundExample | ex1.c:199-257 | `ls &` succeeds with the argument `ls`, runs in the background, and counts one command and two arguments |
| Parser.ParseWellFormed | ex1.c:199-253 | a successful statement has at most MAX_ARGS + 2 arguments, and neither the first nor the last is a bare `>` |
| Parser.ParseExit | ex1.c:181-183 | a first word `exit` returns EXIT and counts nothing |
| Parser.ParseTable | ex1.c:156-176 | only an assignment changes the table, and an assignment is never a command and counts nothing |
| Parser.ParseRejects | ex1.c:205-219 | a `cd` word or an unset `$name` makes a plain statement INVALID_INPUT, counting nothing and leaving the table as it was |
| Parser.AssignThenSubstitute | ex1.c:168-214 | after an accepted assignment, a later `$name` token stands for the value, divided around any `>` |
| Parser.Shell.Assignment | ex1.c:156-176 | the assignment branch returns the specified status and leaves the table as specified |
| Parser.Shell.CollectArguments | ex1.c:199-225 | the `strtok` loop collects exactly the specified arguments, or fails exactly when the specification rejects |
| Parser.Shell.SplitSingleCommand | ex1.c:146-257 | `split_single_command` returns the specified status, arguments and background flag, and moves the counters and the table as specified |
| Parser.Shell.SplitWords | ex1.c:177-225 | the first word selects `exit`, `echo`, `bg` or the argument loop |
| Parser.Shell.EchoBranch | ex1.c:184-189 | the echo branch concludes on `deal_with_echo`'s words, or passes its error on |
| Parser.Shell.BgBranch | ex1.c:190-197 | a lone `bg` with a stopped process still there counts one command and one argument; `bg` always returns INVALID_INPUT |
| Parser.Shell.LoopBranch | ex1.c:199-225 | the argument loop, then the end of the statement |
| Parser.Shell.CountCollected | ex1.c:227-256 | the counters move as `Conclude` specifies |
| Parser.Shell.ExecutePipeCommands | ex1.c:420-540 | every stage counts as a command; `count_arguments` of the stages, plus one for a trailing `&`, is added to the argument counter; the statement reports INVALID_INPUT |

## Left out

- Process execution is not modelled: `fork`, `execvp` and `waitpid` in `execute_single_command` and in `make_exec` after its redirection search. These are operating-system calls.
- Pipe wiring with `pipe`, `dup2` and `close` is not modelled. It is file-descriptor plumbing.
- The signal handlers `catch_child` and `catch_stop` are not modelled. They run asynchronously.
- Parser.Shell.BgBranch: the `waitpid` test of the `bg` branch is the parameter `stoppedAlive`, and the `kill(SIGCONT)` it guards is not modelled. Both are operating-system calls.
- Reading input, printing the prompt and the messages, and `getcwd` are not modelled. They are terminal I/O.
- Allocation failures of `malloc` and `strdup` (ex1.c:227-233, ex1.c:626-630, ex1.c:647-651, ex1.c:785-795) are not modelled: allocation always succeeds here. `free` bookkeeping is not modelled either.
- The exit status a child passes back to the parent is not modelled. It is a process-level channel.
- The dispatch in `split_multiple_commands` (ex1.c:303-328) is not modelled. It hands each statement to the pipeline or single-command path, runs it, frees the arguments, and exits on EXIT or SYSTEM_FAILURES. The two paths are modelled as `ExecutePipeCommands` and `SplitSingleCommand`; execution is not.
- `run_in_background` is the caller's flag and lives on from one statement to the next. It is modelled as the parameter `bgIn`, which is returned unchanged whenever the statement does not set it.
- Some temporary buffers are one byte too short for their NUL (ex1.c:548, 566, 647, 665, 696). The model uses sequences, so every copy is complete.
- `sub_command` is read before it is first set on any line of two or more characters that does not start with a separating `;` (ex1.c:300). That read can only clear a flag that is already clear, so the model leaves it out.
- Parser.Shell.CollectArguments and Parser.ParseSingle use the corrected `>=` test, which also refuses some statements the C handles without overflow: in `a b c d e f g h i>j k`, `i>j` takes the index from 8 to 11, and the C then stores `k` at `args[11]` and the NULL at `args[12]`, inside the array, and succeeds with 12 arguments. The model refuses it (Parser.CorrectedRefusesInBounds shows both behaviours).
- `args[-1]` is read when the only argument is `&` (ex1.c:249). The model treats it as not `>`, so the statement succeeds with no arguments.
- `str[j - 1]` is read at `j == 0` (ex1.c:743). The model takes the character before the start to be not a space.
- `strlen(...) - 1` of an empty last argument (ex1.c:241, ex1.c:457) is taken as "does not end in `&`".
- `make_exec` reads `args[1]` when there is no argument (ex1.c:339). `FindRedirect` returns 0 in that case.
- Echo.DealWithEcho: a word holding `>` can take the word index from 10 to 13. The too-many-words branch then writes its NULL at `argv[13]` (ex1.c:676), one past the 13 slots of ex1.c:278. The model reports the too-many-words error and does not model the array.
- Tabs are not word separators for `strtok` on spaces, as in the C. They are trimmed only around pipeline stages.
- The three-empty-lines exit counter of the main loop is not modelled. It is part of the interactive input loop.

## Findings

| source | as written | input that shows it | evidently intended | confidence | as-written member | corrected member |
|---|---|---|---|---|---|---|
| ex1.c:200 | `if (args_index == MAX_ARGS)`: `divide_string` can raise the index by 3, jumping over 10 | `a b c d e f g h i j>k l`: nine words bring the index to 9; `j>k` takes it to 12; `l` is stored at `args[12]`; the NULL of ex1.c:227 goes to `args[13]`, one past `args[MAX_ARGS + 3]` (ex1.c:278) | `args_index >= MAX_ARGS`, which refuses the statement; the model's argument loop uses this test | not executed | Parser.GuardSkipped | Parser.ArgsBound |
