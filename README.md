# A one-line pipeline shell, modelled in Dafny

The program reads one command line, for example `ls -l | grep a.c | wc -l`, and runs it as a
pipeline. Each `|`-separated stage becomes a child process, and its standard output is wired
to the standard input of the next stage.

Three pieces make up the core.

- `parse_input` splits the line on `|` with `strtok`, then splits each field on blanks with
  `strtok_r`. It makes two passes each time: one to count, one to fill. It builds one
  `FunctionsCommand` record per field, holding a NULL-terminated argument array, its length
  and the program to run. When the first word is longer than three characters and ends in
  `.sh`, `bash` is inserted in front of it.
- `execute_pipeline` forks one child per stage. It creates a pipe between consecutive stages
  only, closes every pipe end the parent holds, and then waits once per stage.
- `main` reads one line into a 4096-byte buffer and turns every newline into NUL. It does
  nothing for an empty line; otherwise it parses, runs and frees, and it always exits with
  status 0.

Modules, one per file:

- `Wrappers` (`wrappers.dfy`): `Option`, used for NULL and for unset fields.
- `Strtok` (`strtok.dfy`):
  - `Split` is the reference meaning of a strtok loop: the maximal runs of non-delimiters, in
    order, with empty fields dropped.
  - Lemmas describe `Split`: the tokens it yields, how it distributes over a delimiter, how
    many tokens there are, and that no text is lost.
  - `NextToken` is one scanning call and `CountTokens` is a counting pass, both proved
    against `Split`.
- `Parse` (`parse.dfy`):
  - the script rule `ArgVector`;
  - the stage record `Stage` and the predicate `BuiltFrom`, which says what record a field
    yields;
  - the imperative `ParseField`, `CopyArgs` and `ParseInput`. They work on arrays sized as in
    the C code, so every store is proved in bounds.
- `Pipeline` (`pipeline.dfy`): the parent's calls, as a log of events replayed over the set
  of pipe ends the parent holds. `ExecutePipeline` mirrors the C loop.
- `Lab2` (`lab2.dfy`): the newline-clearing loop on a buffer, and `Run`, which is `main` with
  the input as a parameter and the calls it makes as its result.

Two behaviours of the code are easy to misread, and the model follows the code in both:

- **Empty fields.** A shell would treat `ls || wc` as having an empty stage in the middle.
  - `strtok` drops empty fields, so `ls || wc` gives two stages
    (`EmptyFieldExample`).
  - A field of blanks (`ls |   | wc`) is kept. It becomes a record with no arguments and no
    program (`BlankFieldExample`, `BlankFieldStage`).
  - The executor forks for that record like any other: no stage is rejected before forking.
- **Blank lines.** A line of blanks only might be expected to give zero stages.
  - `main` counts only a line whose first byte is NUL as empty.
  - A blank line gives one stage with no program, and one child is forked for it
    (`BlankLineForksOnce`).

## Model

| member | source | states |
|---|---|---|
| Strtok.Split | funciones.c:34-40 | definition: what a strtok loop returns; delimiters are skipped, and each token is the maximal run of non-delimiters that follows, in order |
| Strtok.SplitTokens | funciones.c:34-40 | every token strtok returns is non-empty and holds no delimiter: empty fields are dropped |
| Strtok.SplitAppend | funciones.c:34-40 | splitting at a delimiter splits each side on its own: the tokens of `a + d + b` are those of `a` followed by those of `b` |
| Strtok.EmptyFieldDropped | funciones.c:34-40 | two adjacent delimiters produce no empty token between them |
| Strtok.OuterDelimsDropped | funciones.c:34-40 | delimiters at either end of the line produce no token |
| Strtok.SplitSingle | funciones.c:54 | a line without a pipe character is exactly one field |
| Strtok.SplitOnlyDelims | funciones.c:64-69 | a string of delimiters only yields no token |
| Strtok.SplitEmptyOnlyDelims | funciones.c:64-69 | conversely, a string that yields no token holds only delimiters |
| Strtok.SplitKeepsText | funciones.c:34-40 | joining the tokens gives back the input with exactly its delimiters removed, in the original order |
| Strtok.TokenCountIsRunCount | funciones.c:37-40 | the number of tokens equals the number of positions holding a non-delimiter at the start or right after a delimiter |
| Strtok.NextToken | funciones.c:39 | one strtok/strtok_r call: no token exactly when only delimiters remain, and then `Split` of the rest is empty; otherwise the token is the next element of `Split` and the saved position moves past it |
| Strtok.CountTokens | funciones.c:64-69 | a counting pass returns exactly the number of tokens `Split` yields |
| Parse.IsScript | funciones.c:88-89 | the script test: the word is longer than 3 characters and its last three characters are `.sh` |
| Parse.ScriptRuleExamples | funciones.c:87-94 | `a.sh` becomes `bash a.sh`; `.sh` and `x.shx` are unchanged, and so is a script that is not the first word |
| Parse.CopyArgs | funciones.c:77-103 | the fill pass stores exactly the argument list in the first slots of an array of args_count + 2 slots, leaves a slot free for the NULL, and leaves every slot from `totalArgs` on untouched |
| Parse.ParseField | funciones.c:59-114 | a field's record has args_count + 2 slots holding the arguments then NULL; its program is the first argument when there is one and unset otherwise |
| Parse.ParseInput | funciones.c:21-123 | one record per field of the line, each built from its field, with the returned count equal to the first pass's field count and the array length |
| Parse.StageProgram | funciones.c:106-114 | a record has a program exactly when its field has a word; the program is `bash`, with the script as first argument, for a script, and the first word otherwise |
| Parse.BlankFieldStage | funciones.c:74-114 | a field of blanks gives a record with no arguments, NULL first and no program |
| Parse.EmptyFieldExample | funciones.c:54-57 | `ls`, two adjacent pipe characters, `wc`: two fields, `ls ` and ` wc` |
| Parse.BlankFieldExample | funciones.c:54-57 | `ls`, a pipe, three blanks, a pipe, `wc`: three fields, the middle one of blanks |
| Parse.OuterPipesExample | funciones.c:54-57 | `ls` between a leading and a trailing pipe character: the single field `ls` |
| Pipeline.StageLog | funciones.c:141-188 | definition: the parent's calls for stage i; a pipe unless i is the last stage, the fork wired to the previous read end and the new write end, then closing the previous read end and the new write end |
| Pipeline.SpawnLog | funciones.c:139-191 | definition: the parent's calls for stages 0 to i-1, in order |
| Pipeline.AllEndsClosed | funciones.c:139-198 | every close and fork wiring of the parent uses an end it holds, and after the pipeline it holds no pipe end |
| Pipeline.ReplaySpawn | funciones.c:177-189 | after spawning stages 0 to i-1 the parent holds only the read end stage i will read from |
| Pipeline.PipelineCounts | funciones.c:139-198 | a pipeline of n stages creates n-1 pipes (none for a single stage), forks n times and waits n times |
| Pipeline.ExecutePipeline | funciones.c:134-199 | the parent's calls are, in order, pipe/fork/close per stage and then one wait per stage; replaying them is legal and leaves no end held |
| Lab2.ClearNewlines | lab2.c:19-25 | definition: the buffer after the loop; every newline before the first NUL is NUL, every other byte is unchanged, and the length is kept |
| Lab2.ClearNewlinesInPlace | lab2.c:19-25 | the loop turns every newline before the terminating NUL into NUL and changes nothing else |
| Lab2.ClearedLine | lab2.c:19-25 | after the loop the buffer holds exactly the line up to its first newline |
| Lab2.BlankLineForksOnce | lab2.c:28-38 | a non-empty line of blanks is one field, and one child is forked for it |
| Lab2.Run | lab2.c:10-44 | status is 0 on every path; at end of input nothing is called; an empty line calls nothing; otherwise parse, run and free are called in that order with the parser's field count |

## Left out

- Process creation, `dup2`, `execvp` and the child branch of `execute_pipeline`. A fork is
  recorded only with the pipe ends the child is wired to.
- Allocation and system-call failures. The model assumes every allocation succeeds.
  - A NULL from `strdup` at funciones.c:27, from `malloc` at funciones.c:44, or a failing
    `pipe` or `fork`, makes the C code print an error and exit with status 1.
  - A NULL from `strdup` at funciones.c:60 or from `malloc` at funciones.c:74 is not checked,
    and the code then dereferences it.
  - A NULL from `strdup` at funciones.c:92 or funciones.c:98 is not checked either. It is
    stored as an argument, so the argument vector ends early at that slot.
- `fgets` and standard input. Whether input ended, and the buffer as `fgets` left it, are
  parameters of `Run`.
- `free_memory`. Releasing memory has no observable state in the model, so `Run` records
  the call and nothing else.
- `strtok` writing NUL bytes into the line. Tokens are taken as sub-strings of an unchanged
  value, and the saved position stands for the position `strtok` keeps between calls.
- Parse.ParseField: the record holds a value copy of the argument array. The slot after the
  NULL, which C leaves uninitialised when there is no script, is left unspecified.
- Parse.ParseField: the unset `Command` of a record without arguments is `None`, an
  uninitialised field in C. What `execvp` then does in the child is not modelled.
- Pipeline.ExecutePipeline: descriptors are fresh numbers 3 + 2k and 4 + 2k for pipe k. The
  real `pipe` reuses the lowest free descriptors. The claim about closing every end does not
  depend on the numbering.
- Parse.ParseInput: a line made only of `|` needs zero records, and C then calls `malloc(0)`.
  - The C standard lets `malloc(0)` return NULL. funciones.c:45 then reports a failure and
    exits with status 1.
  - Where the result is not NULL, as on glibc, it is never dereferenced. The
    model covers only this case: it allocates an empty array, and `Run` returns status 0.
- Parse.ParseInput: counts are unbounded naturals rather than C `int`. A 4096-byte line
  cannot overflow them.
- Waiting is a bare `Waited` event. Which child is reaped, and its exit status, are not
  modelled.
