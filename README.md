# vol_wrapper: a verified model of the Volatility batch dispatcher

vol_wrapper runs a list of Volatility modules against one memory image.
Each module runs as its own goroutine. A buffered channel bounds how many
run at once. A WaitGroup lets `main` wait for all of them. While the batch
runs, a process-wide `sync.Map` records which modules are running and since
when. This project models the logic underneath that plumbing, in five
modules:

- `OutputPaths`: the image base name (everything after the last path
  separator) and each module's output file
  `<outputDir><sep><base>_<module>.csv`. The separator is a parameter.
- `ModuleList`: `main`'s loop that keeps the non-empty lines of the modules
  file in order, duplicates included. It is a method with a loop, proved
  against the function `NonEmptyLines`.
- `Limits`: the concurrency limit, `NumCPU - 1` but at least 1.
- `Registry`: the `runningModules` map as a class with `Store` and `Delete`.
- `Dispatch`: the semaphore, the WaitGroup, the goroutines and the registry
  as one sequential state machine (class `Dispatcher`).
  - Each goroutine steps through three phases: launched, inside
    `runModule` (stored in the registry), and returned from `runModule`
    (deleted, `wg.Done` done, token still held). A goroutine leaves the
    state machine when it gives its token back.
  - Which goroutine moves next, the clock reading, whether the output file
    could be created and whether the command succeeded are chosen
    nondeterministically.
  - One invariant (`Invariant`, made of `Consistent` and `StartTimesRecorded`) holds after every step:
    - tokens held = goroutines still holding one ≤ the limit;
    - the WaitGroup counter = goroutines whose `runModule` has not returned;
    - the registry keys are names of goroutines inside `runModule`;
    - when no module repeats, the keys are exactly those names;
    - every registry entry holds the start time of a goroutine of that
      name that is still inside `runModule` (`StartTimesRecorded`);
    - every launched module has either reported once or is still counted
      by the WaitGroup;
    - every report names its own module's output path, so two reports
      share a file exactly when they are of the same module.
- `Batch`: `main` from the filtered list to `wg.Wait()`, plus scenarios:
  - `TwoModulesTwoTokens`: under a limit of two, two modules are
    registered at once and every token is taken.
  - `TokenOutlivesDone`: the token is still held after `wg.Done`, and only
    its release admits the next module.
  - `RepeatedModule`: a module listed twice. The first copy to return
    deletes the shared key while the second copy is still running.

The model follows the code in two places:

- **Registration before file creation.** `runModule` stores its module at
  vol_wrapper.go:23, before it tries to create the output file at line 30.
  A file-creation failure therefore still inserts a registry entry and then
  deletes it: a job whose output file cannot be created is registered all
  the same. `Start` stores the name and `Return` deletes it on every
  outcome, `CreateFailed` included.
- **`wg.Done` before the token release.** `wg.Done` (line 20) runs before
  `<-sem` (line 153). So `RunAll` ends with the WaitGroup at zero and every
  body returned, while some tokens may still be held.

A repeated module name is an accepted anomaly of the program, not a bug.
Both goroutines store the same key, and the first to return deletes it.
The registry is therefore only guaranteed to be a subset of the running
names. It equals them when the list has no repeats.

## Model

| member | source | states |
|---|---|---|
| OutputPaths.LastIndex | vol_wrapper.go:26 | strings.LastIndex for one character: -1 or a position holding the character, with no occurrence after it |
| OutputPaths.LastIndexAppend | vol_wrapper.go:26 | The last occurrence in a concatenation lies in the second part if that part contains the character, otherwise it is the last occurrence in the first part |
| OutputPaths.ImageBaseName | vol_wrapper.go:26 | The base name contains no separator. It is a suffix of the image path and is preceded by a separator whenever it is shorter than the path. With no separator in the path it is the whole path |
| OutputPaths.OutputPath | vol_wrapper.go:27 | The path is exactly six characters (the separator, "_" and ".csv") longer than outputDir, the base name and the module together; OutputPathShape states where each part sits |
| OutputPaths.OutputPathShape | vol_wrapper.go:27 | The output path is outputDir, then the separator, then the base name, then "_", then the module, then ".csv": it starts with outputDir and ends in ".csv" |
| OutputPaths.OutputFileIsInOutputDir | vol_wrapper.go:26-27 | When the separator is none of the characters of "_.csv" and does not occur in the module name, the path's last separator is the one right after outputDir, and the file name is "<base>_<module>.csv" |
| OutputPaths.OutputPathInjective | vol_wrapper.go:26-27 | Two modules get the same output file exactly when they are the same module, so a rerun or a repeated module overwrites rather than duplicates |
| ModuleList.NonEmptyLines | vol_wrapper.go:119-120 | The job list contains no empty string |
| ModuleList.NonEmptyLinesCounts | vol_wrapper.go:115-122 | Each non-empty line keeps its multiplicity (duplicates stay), blank lines are dropped, and the job count is the number of non-empty lines |
| ModuleList.KeptPositions | vol_wrapper.go:117-121 | One kept position per job, each inside the line list |
| ModuleList.KeptPositionsPointAtLines | vol_wrapper.go:118-120 | The k-th job is the line at the k-th kept position |
| ModuleList.KeptPositionsIncrease | vol_wrapper.go:117-121 | Kept positions strictly increase, so the jobs keep the lines' relative order |
| ModuleList.KeptPositionsCoverNonEmpty | vol_wrapper.go:119-120 | Every non-empty line's position is kept |
| ModuleList.FilterModules | vol_wrapper.go:115-122 | The appending loop yields exactly the non-empty lines in order |
| ModuleList.NonEmptyLinesKeepsCleanList | vol_wrapper.go:119-120 | A list without blank lines passes through unchanged |
| ModuleList.NonEmptyLinesIdempotent | vol_wrapper.go:115-122 | Filtering an already filtered list changes nothing |
| ModuleList.NonEmptyLinesAppend | vol_wrapper.go:115-122 | Filtering a concatenation gives the concatenation of the filtered parts, since the loop handles lines one at a time |
| Limits.GoroutineLimit | vol_wrapper.go:130-133 | The limit is at least 1. It equals NumCPU - 1 when NumCPU >= 2 and equals 1 otherwise |
| Registry.RunRegistry.constructor | vol_wrapper.go:16 | The registry starts empty |
| Registry.RunRegistry.Store | vol_wrapper.go:23 | Store inserts or overwrites the module's start time and no other key appears or disappears |
| Registry.RunRegistry.Delete | vol_wrapper.go:24 | Delete removes the key, and is a no-op when the key is absent |
| Dispatch.BodyOutcome | vol_wrapper.go:29-46 | A job fails at file creation exactly when the file cannot be created. It completes exactly when the file is created and the command succeeds |
| Dispatch.LaunchEffect | vol_wrapper.go:149-151 | A launch adds its module to the goroutines the WaitGroup counts and leaves the running names unchanged |
| Dispatch.StartEffect | vol_wrapper.go:22-23 | Entering runModule keeps the goroutine counted and adds its name to the running names |
| Dispatch.ReturnEffect | vol_wrapper.go:20-24 | Returning from runModule removes exactly that goroutine from the ones the WaitGroup counts. Every other running name stays running |
| Dispatch.ReleaseEffect | vol_wrapper.go:153 | Giving the token back after runModule returned changes neither the counted goroutines nor the running names |
| Dispatch.RegistryWithinActive | vol_wrapper.go:20-24 | The registry never holds more names than the WaitGroup counts, and it is empty when the WaitGroup counts none |
| Dispatch.RunningNameUnique | vol_wrapper.go:148-154 | Without repeated modules, no two goroutines inside runModule share a name |
| Dispatch.ReturnRemovesOnlyItsName | vol_wrapper.go:24 | Without repeated modules, a return removes exactly its own name from the running names |
| Dispatch.ReportsShareFileOnlyForSameModule | vol_wrapper.go:26-27 | Two reports name the same output file exactly when they are of the same module: distinct modules never write the same file |
| Dispatch.LaunchKeepsStartTimes | vol_wrapper.go:149-151 | A launch keeps every registry entry's start time held by a running goroutine of that name |
| Dispatch.StartKeepsStartTimes | vol_wrapper.go:22-23 | After Store, the module's entry holds the start time of the goroutine that just stored it, and every other entry still holds one of a running goroutine |
| Dispatch.ReturnKeepsStartTimes | vol_wrapper.go:20-24 | After the deferred Delete, every remaining entry's start time still belongs to a goroutine inside runModule |
| Dispatch.ReleaseKeepsStartTimes | vol_wrapper.go:153 | Releasing a returned goroutine's token keeps every entry's start time held by a running goroutine |
| Dispatch.ReturnKeepsInvariant | vol_wrapper.go:20-46 | A body's return on any outcome keeps the whole invariant, registry start times included, once its Delete has run and its report is added |
| Dispatch.LaunchKeepsConsistent | vol_wrapper.go:149-151 | Acquire, wg.Add and the go statement keep the invariant when the channel has room |
| Dispatch.StartKeepsConsistent | vol_wrapper.go:22-23 | Store on entry keeps the invariant |
| Dispatch.ReturnKeepsConsistent | vol_wrapper.go:20-46 | The body's return keeps the invariant on every outcome. The WaitGroup decreases, the name leaves the registry and a report with the module's own output path is added |
| Dispatch.ReleaseKeepsConsistent | vol_wrapper.go:153 | Releasing the token of a returned goroutine keeps the invariant and frees a slot |
| Dispatch.ConsistentBounds | vol_wrapper.go:144-157 | Registry size ≤ WaitGroup count ≤ tokens held ≤ limit, and WaitGroup count ≤ modules launched. At zero the registry is empty, every goroutine has returned, and every launched module reported as often as it was launched |
| Dispatch.AllReturned | vol_wrapper.go:157 | When the WaitGroup counts no goroutine, every goroutine still holding a token has returned from runModule |
| Dispatch.Dispatcher.constructor | vol_wrapper.go:144-145 | An empty channel, a zero WaitGroup and an empty registry satisfy the invariant |
| Dispatch.Dispatcher.Launch | vol_wrapper.go:149-154 | Allowed only while fewer tokens than the limit are held. It takes one token, adds one to the WaitGroup and records the launch in list order |
| Dispatch.Dispatcher.Start | vol_wrapper.go:22-23 | The registry gets the module's start time and nothing else changes |
| Dispatch.Dispatcher.Return | vol_wrapper.go:20-46 | On every outcome the module's key is gone, the WaitGroup goes down by one, the token stays held, and a report for the module's own output file is added |
| Dispatch.Dispatcher.Release | vol_wrapper.go:153 | Only a goroutine whose body returned gives its token back. Tokens held go down by one and the WaitGroup is unchanged |
| Dispatch.Dispatcher.Step | vol_wrapper.go:151-154 | Any goroutine's next step keeps the invariant and makes progress |
| Dispatch.Dispatcher.Interleave | vol_wrapper.go:149 | The blocked send: goroutines progress in any order until the channel has room |
| Dispatch.Dispatcher.RunAll | vol_wrapper.go:144-157 | Every module is launched once in list order. When wg.Wait returns the WaitGroup is zero, every body has returned, the registry is empty and every module reported as often as it was launched |
| Batch.RunBatch | vol_wrapper.go:115-157 | The whole batch launches exactly the non-empty lines under GoroutineLimit(NumCPU) tokens and ends with an empty registry and one report per launch |

## Left out

- The subprocess (`exec.Command`, `cmd.Run`) is a nondeterministic success or failure. Its output stream and exit status are not modelled.
- File creation, closing and the stdout redirection are a nondeterministic "created" flag. The output path is recorded in the job's report, not written.
- `os.MkdirAll`, opening the modules file and the scanner's error are not modelled. They abort the batch before any job starts.
- The `bufio.Scanner` line splitting, including its CR stripping, is not modelled: the input is a sequence of lines that are already split.
- The key-press monitor and `sync.Map.Range` are not modelled: they are interactive I/O that only reads the registry and prints.
- Real goroutines, `sync.Map` thread safety and channel blocking are modelled as one sequential interleaving of atomic steps.
- Dispatch.Dispatcher.Return: the deferred `Delete` and `wg.Done` run as one atomic step, so no interleaving can observe the key gone while the WaitGroup still counts the goroutine.
- Clock readings are opaque integers supplied to `Start`. Durations and their float formatting are not modelled.
- Flag parsing, the usage text, the required-flag check and all console printing are not modelled.
- Dispatch.Dispatcher.Step: its contract does not say which phase the goroutine reached. Start, Return and Release state each phase.
