# Minishell pipeline core in Dafny

This project models the core of a small interactive C shell. Each input line
goes through four steps:

1. It is read into a heap buffer (`readString`).
2. It is cut on `|` into stages (`extractPipeOps`).
3. Each stage is cut on `<` and `>` into a command and optional files
   (`extractPathInputOutput`), and the command is cut on spaces into an
   argument vector (`sepPathAndArgs`). Every piece is trimmed in place
   (`trimWhiteSpace`).
4. One `ProgramNode` is built per stage, each with its own pipe. Then one
   child per stage is forked, wired and exec'd. Afterwards the shell closes
   every pipe end.

The model works on the C program's own memory. The line is an
`array<char>` with NUL terminators. A `char*` is a `Ptr` (`Null` or
`At(index)`). `strtok_r` and `trimWhiteSpace` are methods that write NULs
into the buffer, as the C functions do.

Each method is proved against a specification function on values:
- `Fields` — POSIX `strtok_r` splitting;
- `Trim`;
- `TrimmedFields`;
- `ParseStage`;
- `Plan` — the stages of a line.

The lemmas then state what those functions mean.

The descriptor table is a class `FdTable`. It is a map from descriptor
numbers to endpoints, and `pipe`, `open`, `dup2` and `close` update it in
place. `pipe` and `open` take the lowest free descriptor. A `fork` copies
the table.

Every call the model cannot perform is a parameter:
- an allocation that fails;
- an `open` that returns -1;
- an `execvp` that fails;
- a `fork` that fails.

Modules, in dependency order:

| module | file | models |
|---|---|---|
| `CStrings` | cstrings.dfy | NUL-terminated strings in a buffer, `isspace`, in-place NUL writes |
| `Tokens` | tokens.dfy | `strtok_r` and its specification `Fields` |
| `Growth` | growth.dfy | capacity doubling and `realloc` |
| `Utils` | utils.dfy | `trimWhiteSpace`, `readString` |
| `Split` | split.dfy | `extractPipeOps`, `sepPathAndArgs` |
| `Redirect` | redirect.dfy | `extractPathInputOutput` |
| `Descriptors` | descriptors.dfy | the descriptor table |
| `Pipeline` | pipeline.dfy | `ProgramNode`, `New_ProgramNode`, the build loop |
| `Wiring` | wiring.dfy | the fork loop, child wiring, the closing loops |
| `Shell` | shell.dfy | one turn of the shell loop end to end |

## Behaviour of the code worth knowing

The model follows the code in the first four of these cases. In the last
one the end-to-end builder uses the corrected splitter; see "Left out" and
"Findings".

- **The input file keeps a leading `>`.** For a stage with a `<`, the code
  stores as the input file the pointer to the whole trimmed right half
  (`src/main.c:215`), not the trimmed first `>` field of it. As a result:
  - that pointer reads the first `>` field only because the `>` split
    wrote a NUL after it;
  - any `>` characters in front of the field stay part of the name, so
    `cmd < >in` opens `>in`.

  `Redirect.ReadAfterSplit` and `Redirect.InputKeepsLeadingMarker` model
  this.
- **Empty pieces are skipped, not kept.** Every split goes through
  `strtok_r` (`src/main.c:191`, `194`, `200`, `208`, `213`, `216`), and
  `strtok_r` skips leading and repeated separators. So `<in` has no input
  file: `in` is the command.
- **No `pipe` failure.** `New_ProgramNode` ignores what `pipe` returns
  (`src/main.c:40`).
- **A failed allocation crashes only sometimes.** When the stage array
  cannot be allocated, `extractPipeOps` returns NULL (`src/main.c:233`)
  and the count stays 0 (`src/main.c:67`), so the line runs nothing and
  does not crash. When an argument vector cannot be allocated, the loop
  reads `pathAndArgs[0]` through NULL (`src/main.c:82`). When a node
  cannot be allocated, `New_ProgramNode` writes through NULL
  (`src/main.c:34-35`). The model reports both of those as a crash.
- **The argument vector can overflow.** `sepPathAndArgs` grows the array
  only before storing a word (`src/main.c:174-177`), so the NULL stored
  after the last word (`src/main.c:182`) lands one past the block when the
  word count is a power of two of at least 2 (see "Findings").

## Model

| member | source | states |
|---|---|---|
| `Tokens.Fields` | src/main.c:238-248 | every field `strtok_r` can return is non-empty and free of the separator |
| `Tokens.StrTokR` | src/main.c:238 | `strtok_r(s, d, &save)` returns the first field of the text it resumes at, past the leading separators. It writes one NUL at the end of that field and leaves the remaining fields at the saved position. It returns NULL exactly when no field is left, and then writes nothing |
| `Tokens.FieldsConcat` | src/main.c:238-248 | splitting `a + d + b` on `d` gives the fields of `a` followed by those of `b` |
| `Tokens.FieldsOfWord` | src/main.c:238-248 | a non-empty text without the separator is its own single field |
| `Tokens.FieldsSkip` | src/main.c:238 | leading separators do not change the fields |
| `Utils.Trim` | src/utils.c:29-46 | the trim is empty exactly when the text is all whitespace, and otherwise starts and ends with a non-space |
| `Utils.TrimIsSlice` | src/utils.c:33-44 | the trim is a slice of the text with only whitespace cut from each end |
| `Utils.TrimIdempotent` | src/utils.c:29-46 | trimming twice is trimming once |
| `Utils.TrimPadded` | src/utils.c:29-46 | a trimmed text padded with whitespace on both sides trims back to itself |
| `Utils.TrimWhiteSpace` | src/utils.c:29-46 | the returned pointer reads the trim of the old text and skips only whitespace. An all-space text is not written. Otherwise exactly one NUL is written, just after the content. An already trimmed text comes back unchanged with the same pointer. Otherwise, the original pointer reads the text with its trailing whitespace cut |
| `Utils.ReadAfterTrimNoLead` | src/utils.c:34-44 | without leading whitespace, the original pointer reads the trim itself |
| `Utils.LineLength` | src/utils.c:16 | the line is the bytes before the first newline or EOF |
| `Utils.ReadString` | src/utils.c:6-27 | the result is NULL exactly when one of the allocation calls the line needs fails. Otherwise it holds the line's bytes, then a NUL, in a block of exactly that size; the newline is consumed and EOF is not. On failure the stream is read up to the first failing call: nothing for the first allocation, exactly the bytes that filled the block for a doubling, the whole line for the final shrink |
| `Utils.ReadFailsAt` | src/utils.c:18-21 | a failing doubling makes the whole read fail |
| `Growth.GrowStep` | src/main.c:174-177 | capacity doubles exactly when the buffer was full |
| `Growth.GrownFull` | src/main.c:174-177 | from a power-of-two start, the buffer is full exactly when the count is a power of two at least as large as the start |
| `Growth.Realloc` | src/main.c:176 | `realloc` gives a block of the new size that keeps the common prefix |
| `Split.TrimmedFields` | src/main.c:238-248 | the pieces a splitter stores are the trimmed `strtok_r` fields, one per field, none holding the separator |
| `Split.TrimmedFieldsConcat` | src/main.c:238-248 | splitting a joined text gives the pieces of each part in order |
| `Split.RepeatedSeparator` | src/main.c:238-248 | a doubled separator splits like a single one |
| `Split.NextField` | src/main.c:247 | one `strtok_r` step of the splitting loop keeps the loop's invariant |
| `Split.GrowIfFull` | src/main.c:241-244 | the array doubles when it is full and keeps its stored pointers |
| `Split.StoreToken` | src/main.c:241-246 | growing, trimming and storing one token extends the stored pieces by that token's trim |
| `Split.CollectTrimmedFields` | src/main.c:229-248 | the shared loop stores, in order, pointers that read the trimmed fields of the text, all inside it. Its capacity is the doubled one, and it writes only NULs inside the text |
| `Split.ExtractPipeOps` | src/main.c:227-251 | the stage array is NULL with size 0 exactly when its first allocation fails, and then nothing is written. Otherwise it has exactly one pointer per field of the line split on the pipe character, each reading the trimmed field |
| `Split.SepPathAndArgs` | src/main.c:161-185 | the argument vector holds pointers to the trimmed space-separated words of the command, in order, then one NULL, in a block of exactly that size. It is NULL when the first allocation fails |
| `Split.SepPathAndArgsAsWritten` | src/main.c:161-185 | the sentinel store runs past the block exactly when the word count is a power of two of at least 2 |
| `Split.EchoHelloOverflows` | src/main.c:182 | `echo hello` has two words, which fill the initial capacity of two, so the sentinel has no slot |
| `Redirect.ParseStageClean` | src/main.c:191-219 | a parsed command holds no marker and is trimmed, and so is an output file; an input file holds no `<` |
| `Redirect.ParseNoMarkers` | src/main.c:191-198 | without markers the trimmed stage is the command and no file is set; a blank stage crashes |
| `Redirect.OutThenIn` | src/main.c:187-224 | `cmd > out < in` gives the command, the input and the output |
| `Redirect.InThenOut` | src/main.c:187-224 | `cmd < in > out` gives the command, the input and the output |
| `Redirect.RedirectionOrderIndependent` | src/main.c:187-224 | both orders of the two markers give the same command and files |
| `Redirect.LaterOutputWins` | src/main.c:217-220 | an output file after `<` replaces the one before it |
| `Redirect.InputKeepsLeadingMarker` | src/main.c:213-215 | `cmd < >in` takes `>in` as the input file |
| `Redirect.ExtraOutputDropped` | src/main.c:205 | a third `>` field is ignored |
| `Redirect.ExtraInputDropped` | src/main.c:222 | a third `<` field is ignored |
| `Redirect.ExtraFieldsDropped` | src/main.c:205-222 | fields after the second, on either split, are ignored |
| `Redirect.LaterInputFieldsIgnored` | src/main.c:208-222 | for any stage with a `<`, appending `<` and any text at all leaves the parse unchanged: only the first two `<` fields are looked at |
| `Redirect.LaterOutputFieldsIgnored` | src/main.c:194-205 | for any trimmed stage without `<` that has two `>` fields, appending `>` and any text without `<` that does not end in whitespace leaves the parse unchanged: only the first two `>` fields are looked at |
| `Redirect.RightExtraOutputDropped` | src/main.c:213-220 | in `cmd < in > out > extra`, the third `>` field of the right half is ignored, so the output file is `out` |
| `Redirect.FirstOutPiece` | src/main.c:194-195 | the `>` split of a half crashes exactly when it has no field. Otherwise it trims the first field, and a pointer to the half reads its leading `>` characters and that field |
| `Redirect.NextOutPiece` | src/main.c:200-205 | the second `>` field is found exactly when it exists, and it reads trimmed |
| `Redirect.SplitOnOutput` | src/main.c:194-205 | splitting one half on `>` gives its first and second fields, trimmed, writing NULs only inside the half |
| `Redirect.LeftHalf` | src/main.c:191-206 | the left of `<` crashes exactly when there is no field or its trim has no `>` field; otherwise it gives the command and any output |
| `Redirect.RightHalf` | src/main.c:208-223 | the right of `<`, when present, crashes exactly when its trim has no `>` field; otherwise it gives the input and any later output |
| `Redirect.ExtractPathInputOutput` | src/main.c:187-224 | the call crashes exactly when `ParseStage` fails. Otherwise the three pointers read the parsed command and files, and a file pointer that is not set keeps the caller's value. Every write is a NUL inside the stage |
| `Pipeline.CollectMeaning` | src/main.c:71-84 | the stages exist exactly when every stage parsed, and then stage `k` is the `k`-th parse |
| `Pipeline.PlanMeaning` | src/main.c:67-84 | a line's plan exists exactly when each of its pieces between pipe characters parses, and then holds one stage per piece, in order |
| `Pipeline.PlanOfSimpleCommand` | src/main.c:67-84 | a line without markers runs its trimmed words with no files |
| `Pipeline.ProgramNode.constructor` | src/main.c:33-44 | `New_ProgramNode` records its four arguments and makes a pipe on the two lowest free descriptors, read end first (a failed `malloc` is modelled by `Pipeline.BuildStage`) |
| `Pipeline.BuildStage` | src/main.c:73-82 | one loop body crashes exactly when the stage does not parse, its argument vector cannot be allocated or its node cannot be allocated (the `malloc` of `src/main.c:34`); a failed node allocation makes no pipe. Otherwise the node denotes the parsed stage in place and adds one pipe |
| `Pipeline.AddStage` | src/main.c:73-82 | one loop body keeps the builder's progress invariant or reports the stage's crash |
| `Pipeline.StageAt` | src/main.c:73-82 | the loop body on the `i`th stage text of the split line crashes exactly when that text does not parse or one of its two allocations fails. Otherwise its node denotes the parsed stage where the text lies and adds one pipe |
| `Pipeline.BuildNodes` | src/main.c:71-84 | the build loop either stops at a stage that crashes, or builds one node per stage denoting the parsed stages, with one fresh pipe each |
| `Pipeline.BuildLoop` | src/main.c:71-84 | the loop body runs once per stage in order; the loop either stops at the first stage that crashes, with every write inside the line, or keeps the builder's progress invariant up to the last stage: every node denotes its parsed stage where its text lies and owns one fresh pipe |
| `Pipeline.CrashMeans` | src/main.c:77-82 | a crash in the loop means the plan fails or some stage's argument vector or node could not be allocated |
| `Pipeline.NoCrashMeans` | src/main.c:71-84 | a loop that built every stage means the plan succeeded with those stages, and no stage had a failed allocation |
| `Pipeline.BuildPipeline` | src/main.c:67-84 | the builder crashes exactly when the plan fails or some stage's argument vector or node cannot be allocated. Otherwise the nodes denote the plan's stages, in order, with one fresh pipe each and the shell's descriptors kept |
| `Descriptors.FdTable.LowestFree` | src/main.c:40 | the descriptor chosen is the lowest one not in use |
| `Descriptors.FdTable.Pipe` | src/main.c:40 | `pipe` takes the two lowest free descriptors for the two ends of a new channel |
| `Descriptors.FdTable.Open` | src/main.c:100 | `open` takes the lowest free descriptor for the file |
| `Descriptors.FdTable.Dup2` | src/main.c:101 | `dup2` makes the target refer to what the source refers to, and changes nothing when the source is not open |
| `Descriptors.FdTable.Close` | src/main.c:102 | `close` removes the descriptor |
| `Descriptors.FdTable.Copy` | src/main.c:88 | a forked child starts with the parent's descriptors |
| `Descriptors.PipeEndsFresh` | src/main.c:40-42 | a pipe's two ends are distinct descriptors that were free |
| `Wiring.OpenOnto` | src/main.c:100-102 | open, `dup2` onto the target and close leave only the target changed, to the file |
| `Wiring.CloseAll` | src/main.c:122-125 | the closing loop removes exactly the pipe ends of every node |
| `Wiring.WireChild` | src/main.c:99-125 | the child's table sets descriptor 0 and descriptor 1 as the stage's position and files say, and has every pipe end closed |
| `Wiring.SpawnChild` | src/main.c:88-129 | a child has the wired copy of the shell's table and ends in `execvp` of its node, or exits 255 |
| `Wiring.LaunchAll` | src/main.c:86-135 | one child per stage, in order, up to the first failing `fork`, after which the shell exits with 1 |
| `Wiring.ChildChannels` | src/main.c:99-125 | the child's table has exactly the shell's descriptors. Descriptor 0 reads the previous stage's channel, or the input file for the first stage. Descriptor 1 is the output file, or writes this stage's own channel unless the stage is last. The rest are the shell's |
| `Wiring.NeighboursShareChannel` | src/main.c:105-119 | without an output file, stage `i` writes the very channel stage `i + 1` reads |
| `Wiring.PipesClosed` | src/main.c:141-146 | closing every pipe end gives back the table the shell had before the builder |
| `Shell.NodesMeaning` | src/main.c:82 | each node's `execvp` runs its stage's words with a NULL-terminated vector, and its file pointers name its files |
| `Shell.ChildMeaning` | src/main.c:99-125 | each child's table, read in terms of the shell's table and the stage |
| `Shell.LaunchAndClose` | src/main.c:86-148 | once the nodes are built: one child per stage up to the first failing `fork`, each with its table wired for its stage and running its stage's words or exiting 255; after a normal run the shell's table is back as it was before the builder |
| `Shell.RunLine` | src/main.c:67-148 | one line crashes exactly when the plan fails or some stage's argument vector or node cannot be allocated. Otherwise the stages are the plan, or none when the stage array could not be allocated. Each child is wired for its stage and runs the stage's words or exits 255. A failed `fork` ends the shell. After a normal run the shell's table is back as it was |

## Left out

- Signal dispositions (`src/main.c:51-56`, `92-97`) are not modelled, and neither are the console output of `printf` and `perror`.
- The prompt loop, reading from `stdin` and the comparison with `exit` (`src/main.c:58-65`) are outside the model. `Shell.RunLine` covers one turn for a line that is not `exit`. `Utils.ReadString` reads from a sequence of `fgetc` results.
- `waitpid` (`src/main.c:139`) is left out, together with what the children do after `execvp`. Running a program is an `Outcome`, not an execution.
- `free` calls (`src/main.c:147`, `151-153`) are left out: freed memory is not modelled.
- `Descriptors.FdTable.Pipe`: `pipe` always succeeds, because the code ignores its result.
- `Descriptors.FdTable.Open`: only the effect of a successful `open` is modelled. An `open` that returns -1 is a flag of the caller, and the `dup2` and `close` on -1 that follow change nothing.
- `Split.ExtractPipeOps`: only the first allocation may fail. A failing doubling `realloc` inside the loop is not modelled.
- `Split.SepPathAndArgs`: same as `Split.ExtractPipeOps`.
- The final shrinking `realloc` of both splitters is modelled as a fresh block of the exact size. For zero stages, `realloc(result, 0)` is an empty block rather than NULL. Either way the loop body never runs.
- `Pipeline.BuildPipeline`: the `nodes` array itself never fails to allocate.
- `Pipeline.BuildStage`, `Pipeline.StageAt`, `Pipeline.AddStage`, `Pipeline.BuildLoop`, `Pipeline.BuildNodes`, `Pipeline.BuildPipeline`, `Shell.LaunchAndClose`, `Shell.RunLine`: these split each stage's words with the corrected `Split.SepPathAndArgs` of the `src/main.c:182` finding. Their contracts describe a vector with the NULL sentinel at slot `|words|` inside the block for every word count. For word counts that are powers of two of at least 2, the code as written stores that sentinel one past the block instead; `Split.SepPathAndArgsAsWritten` models that case on its own.
- Descriptors 0 and 1 are taken to be open in the shell.
- What a crash does beyond stopping the line (the rest of the process image) is not modelled.

## Findings

| source | as written | input that shows it | evidently intended | confidence | as-written member | corrected member |
|---|---|---|---|---|---|---|
| src/main.c:182 | the NULL sentinel is stored at `argsSize` without a capacity check, so when the word count is a power of two of at least 2 the store lands one slot past the block | `echo hello` (two words fill the capacity of 2) | grow the block, as the loop does, before storing the sentinel, so the vector has exactly one slot per word plus the sentinel | not executed | `Split.SepPathAndArgsAsWritten`, `Split.EchoHelloOverflows` | `Split.SepPathAndArgs` |
