# py-venv-setup: the environment finder and its list-item text, in Dafny

`setup_venv.py` is a PyQt window that finds Python virtual environments
under a chosen folder, lists them, and creates new ones. Its logic apart
from the window is small, and this project models that logic:

- **The finder** (`FindVenvsThread.run` and its nested `search_directory`).
  This is a depth-first scan bounded by `max_depth`. It lists a directory
  with `os.scandir`. Each subdirectory entry is counted in `total_dirs` and
  logged. An entry holding a `pyvenv.cfg` file is recorded as
  `(basename(parent), entry.path)`, and then the **whole listing of the
  current directory ends** (the `return`). Any other entry is searched one
  level deeper and then counted in `found_dirs`, and progress is emitted.
  A listing that raises `PermissionError` is logged and skipped.
- **The list-item text**. `f"{project_name} ({path})"` is the format.
  `split(" (")`, a two-name unpacking and `rstrip(")")` is the parse.
- **Two path choices**: the environment `CreateVenvThread` creates
  (`parent/project/myenv`) and the activation script `activate_venv` runs
  (`Scripts/activate.bat` on Windows, `bin/activate` elsewhere).

The filesystem is a finite tree (`Finder.Dir`). Each node has a name, a
flag for the `pyvenv.cfg` marker, a flag for whether listing it succeeds,
and its subdirectories in `os.scandir` order. Paths are sequences of
components (`Paths.Path`), and `os.path.join` appends one component.

The scan is specified by `Finder.Trace`. This is the list of steps one call
of `search_directory` takes: count and log an entry, record an environment,
finish an entry and emit progress, or log a refused listing.
`Finder.Exec` gives the effect of one step on a `ScanState`, which holds
the `venvs` list, the two counters and every signal emitted so far, and
`Finder.Apply` performs a list of steps in order.
`Finder.SearchDirectory` is the recursive method with the `for` loop and
the early return. It threads the closure's variables through as a state
value, and it is proved to end in exactly the state `Apply` gives.
`Finder.Run` is `run`. The properties are proved in `FinderProperties`
about `Trace`, and so they hold of every run.

### Where the code decides against the intuitive reading

- **Only the first environment of each listing is found.** Take a root
  holding `a/pyvenv.cfg` and `b/c/pyvenv.cfg`, searched with `max_depth` 3.
  One might expect both environments to be found, but the code finds
  `root/b/c` only when `b` is listed before `a`. The model follows the
  code. `FinderProperties.ListingOrderDecides` computes both orders, and
  `FinderProperties.FindSound` states exactly which environments a run
  reports for any tree: in each listing it reaches, the first marked entry
  and whatever the entries before it report.
- **Counting.** `found_dirs` is incremented only for entries that were
  searched, not for environments. The invariant is therefore
  `total_dirs == found_dirs + len(venvs)`, not `total_dirs == found_dirs`.
- **Missing search path.** A search path that names no directory is not
  caught. `os.scandir` raises, the exception escapes `run`, and `finished`
  is never emitted. The model returns `Failure(NotADirectory)` for this case.
  Because the depth check comes first, this happens only when `max_depth`
  is not negative.

## Model

| member | source | states |
|---|---|---|
| `Finder.SearchDirectory` | setup_venv.py:40-60 | the recursive scan with its loop and early return ends in exactly the state the specification `Trace`/`Apply` prescribes |
| `Finder.Run` | setup_venv.py:34-64 | `run` returns `Find`'s outcome; on success it emits the initial log, the scan's signals and then `finished(venvs)`; on a missing root with `max_depth >= 0` only the initial log is emitted |
| `Finder.Find` | setup_venv.py:42-45 | the run fails exactly when the search path names no directory and the depth check lets `os.scandir` run (`max_depth >= 0`); the error names the search path |
| `Finder.ProjectName` | setup_venv.py:51 | the project name of an entry is the name of the directory whose listing held it (the second-to-last component), or the empty name when the entry lies at the top |
| `Finder.Trace` | setup_venv.py:40-60 | the specification of one `search_directory` call: it takes no step exactly when past the depth bound (lines 42-43) or on an empty listing, and a refused listing (lines 59-60) is its only step |
| `Finder.TraceEntries` | setup_venv.py:45-58 | the specification of the `for` loop: it takes a step exactly when the listing has an entry, and its first step counts the first entry (line 47) |
| `Finder.Exec` | setup_venv.py:47-60 | the effect of one scan statement: every step emits exactly one signal and keeps those already emitted; only counting an entry (line 47) raises `total_dirs`, only finishing one (line 57) raises `found_dirs`, only a report (line 52) appends to `venvs`; the signal is the scanning log for a counted entry (line 48), the found log for a report (line 53), the denied log for a refused listing (line 60) and the progress signal for a finished entry (line 58), which carries the counters as they are after the increment |
| `Finder.InitialState` | setup_venv.py:36-38 | `run` starts with no environments and both counters at zero, so `total_dirs == found_dirs + len(venvs)` holds at the start, and with the search path logged (line 62) as the only signal |
| `Finder.Percent` | setup_venv.py:58 | the emitted percentage is at most 100, and it is 100 exactly when `found_dirs == total_dirs` |
| `Finder.ApplyConcat` | setup_venv.py:45-58 | performing two runs of steps in turn is performing their concatenation |
| `FinderProperties.ApplyVenvs` | setup_venv.py:52 | the `venvs` list only grows, by appending the reported environments in order |
| `FinderProperties.EntryReports` | setup_venv.py:55-56 | a searched entry contributes what its own scan one level deeper reports, followed by the rest of the listing |
| `FinderProperties.TraceAccounting` | setup_venv.py:42-60 | a call of `search_directory` leaves `total_dirs - found_dirs - len(venvs)` unchanged; every progress signal it emits has `0 < total_dirs` and `found_dirs <= total_dirs` |
| `FinderProperties.EntriesAccounting` | setup_venv.py:45-58 | the same for the loop over one listing: each counted entry is later either finished (`found_dirs += 1`) or reported |
| `FinderProperties.RunAccounting` | setup_venv.py:36-38 | at the end of `run`, `total_dirs == found_dirs + len(venvs)`, and every emitted percentage lies in 0..100 with a non-zero divisor |
| `FinderProperties.TraceSound` | setup_venv.py:42-56 | (the plain rule, which ignores the early return) every reported environment is an entry holding the marker, reached from a listable directory within the depth bound through entries without the marker, and named after the directory whose listing held it |
| `FinderProperties.EntriesSound` | setup_venv.py:45-56 | every environment one listing reports comes from one of that listing's entries |
| `FinderProperties.TraceReportsIff` | setup_venv.py:40-60 | a call of `search_directory` reports exactly the environments `FirstFoundBy` describes: within the depth bound and in a listable directory, the first entry holding the marker, or any report of an earlier entry's deeper scan |
| `FinderProperties.EntriesReportsIff` | setup_venv.py:45-58 | one listing reports an environment exactly when an entry no later than its first marked entry yields it; entries after the first marked one contribute nothing |
| `FinderProperties.FirstMarkedReported` | setup_venv.py:50-54 | in every listing the scan reaches, the first entry holding the marker is reported, named after the listed directory |
| `FinderProperties.FoundByBounds` | setup_venv.py:42-43 | a found environment lies 1 to `max_depth - depth + 1` levels below the listed directory, under it, and its project name is `basename(dirname(path))` |
| `FinderProperties.FindSound` | setup_venv.py:34-64 | for an existing root, `run` hands to `finished` exactly the environments `FirstFoundBy` describes from the root; each of them is found by the plain rule, lies 1 to `max_depth + 1` levels below the search path (never the root itself), and is named after its containing directory |
| `FinderProperties.FindNotNested` | setup_venv.py:34-64 | for a tree whose directories list distinct entry names, no environment `run` hands to `finished` lies inside another one: the scan never looks into an entry it reported, and environments from different entries lie on separate branches |
| `FinderProperties.TraceNotNested` | setup_venv.py:40-56 | the same for the environments reported by the scan of one directory |
| `FinderProperties.EntriesNotNested` | setup_venv.py:45-56 | the same for one listing: a marked first entry ends it with one report (lines 50-54), and what a searched entry reports lies under that entry's own name, apart from what later siblings report |
| `FinderProperties.ListingStopsAtVenv` | setup_venv.py:50-54 | once an entry holding the marker is met, the entries after it are never counted, logged, checked or searched |
| `FinderProperties.OnlyLastIsDirect` | setup_venv.py:50-56 | of the environments one listing reports, only the last can be a direct entry of the listed directory; each listed directory contributes at most one environment of its own |
| `FinderProperties.ListingOrderDecides` | setup_venv.py:45-56 | for `root/a/pyvenv.cfg` and `root/b/c/pyvenv.cfg`, listing `a, b` yields only `(root, root/a)`; listing `b, a` yields `(b, root/b/c)` then `(root, root/a)` |
| `FinderProperties.TraceWithinDepth` | setup_venv.py:42-43 | no directory deeper than `max_depth` is listed: entries examined or reported lie 1 to `max_depth - depth + 1` levels down, refused listings at most `max_depth - depth` |
| `FinderProperties.EntriesWithinDepth` | setup_venv.py:56 | the same bound for one listing, whose entries are searched at `depth + 1` |
| `FinderProperties.UnreadableEntrySkipped` | setup_venv.py:56-60 | an entry whose listing raises `PermissionError` is counted once in each counter, reports nothing, logs the refusal, and the scan goes on with the next sibling |
| `FinderProperties.TraceMonotone` | setup_venv.py:40-56 | raising `max_depth` keeps every environment found before, in the same relative order (a subsequence) |
| `FinderProperties.EntriesMonotone` | setup_venv.py:45-56 | the same for one listing |
| `FinderProperties.FindMonotone` | setup_venv.py:29-32 | `run` with a larger `max_depth` on the same tree reports a supersequence, so every environment found before is still found |
| `ItemText.Format` | setup_venv.py:309 | the item text is the name, the separator, the path and `)`, so it always holds `" ("` and ends in `)` |
| `ItemText.Split` | setup_venv.py:343 | `split(" (")` gives one more piece than there are separators; the pieces joined with `" ("` give the text back; no piece holds the separator |
| `ItemText.RStripParen` | setup_venv.py:344 | `rstrip(")")` gives the longest prefix that does not end in `)` such that everything after it is `)` |
| `ItemText.Parse` | setup_venv.py:342-344 | the unpacking succeeds exactly when `" ("` occurs once (otherwise `ValueError`); the name is the text before it, and the path follows it with only `)` after the path |
| `ItemText.ParseFormat` | setup_venv.py:309 | round trip: a name and a path without `" ("`, where the path does not end in `)`, come back unchanged from their item text |
| `ItemText.FormatParsesIff` | setup_venv.py:343-344 | parsing an item's text succeeds exactly when neither name nor path holds `" ("`; the path comes back stripped of every trailing `)` |
| `ItemText.CountSepAround` | setup_venv.py:309 | the separator the format inserts adds exactly one occurrence to those of the name and the path |
| `ItemText.CountSepHasSep` | setup_venv.py:343 | the occurrence count is positive exactly when the separator occurs |
| `ItemText.SplitFirst` | setup_venv.py:343 | the corrected split: there is no result exactly when no separator occurs; otherwise the text is the part before the first separator, the separator and the rest |
| `ItemText.ParseCorrected` | setup_venv.py:343-344 | the corrected parse succeeds exactly when the text holds `" ("` and ends in `)`, and it then returns a pair whose item text is the input |
| `ItemText.ParseCorrectedFormat` | setup_venv.py:309 | the corrected parse inverts the format for every path, whenever the name holds no `" ("` |
| `Activation.ProjectPath` | setup_venv.py:81 | the project directory lies directly in the parent folder and is named after the project |
| `Activation.CreatedVenvPath` | setup_venv.py:81-86 | the created environment is `myenv` directly inside the project directory `parent/project_name` |
| `Activation.ActivateScript` | setup_venv.py:333-336 | the script is `Scripts/activate.bat` on Windows and `bin/activate` elsewhere, two levels inside the environment |
| `Activation.ActivationAfterCreate` | setup_venv.py:325 | the environment offered for activation after a creation is the one just created, and its script lies under the parent folder |

## Findings

| source | as written | input that shows it | evidently intended | confidence | as-written member | corrected member |
|---|---|---|---|---|---|---|
| setup_venv.py:343-344 | the clicked item's text is split at every `" ("` and unpacked into two names; then every trailing `)` is stripped from the path | path `D:/work (old)/myenv` gives three pieces, and the unpacking raises `ValueError`; path `D:/x)` comes back as `D:/x` | recover exactly the pair that line 309 formatted, for any path | medium, not executed | `ItemText.FormatParsesIff` | `ItemText.ParseCorrectedFormat` |

## Left out

- The window: widgets, layouts, styles, palette, dialogs and message boxes. This is presentation only.
- Qt threads and signal delivery, and `terminate()`. The signals a run emits are modelled as an ordered list (`Finder.Signal`). Concurrency is not modelled.
- The log texts (Chinese messages). A log signal carries its path or environment, not the text.
- Every `subprocess.run` call: creating the environment, running the activation script, the file explorer and VS Code. These are external processes. `os.makedirs`, the exit status and the `CalledProcessError` message are not modelled. The interpreter chosen at line 76 (`python` or `python3`) is only passed to that external process.
- `create_venv`'s check that the parent folder and the stripped name are non-empty. It is a dialog handler, and Python's `strip()` Unicode whitespace set is not modelled.
- `open_in_explorer` and `open_vscode`. These pass `dirname(path)` (and `realpath`) to an external program.
- Finder.Percent: computes `found * 100 / total` exactly. The source computes `int((found / total) * 100)` in floating point, which can be one lower (29/100 gives 28). Only the 0..100 bound is claimed for the source's value.
- The filesystem is a finite tree, so symbolic links, and the cycles they could form, do not exist in the model. `entry.is_dir()` following links is not modelled.
- Permissions are one flag per directory. That flag only decides whether `os.scandir` raises `PermissionError`. The marker check `os.path.isfile` is taken to see `pyvenv.cfg` whenever it exists. A `PermissionError` raised in the middle of an iteration, and every other `OSError`, are not modelled.
- A search path that is a file and one that does not exist are one case (`Finder.FindError.NotADirectory`). In the source, these raise `NotADirectoryError` and `FileNotFoundError` respectively.
- Path strings: trailing separators, `.`/`..`, and `os.path.join` with an absolute component are not modelled. The root `/` has basename `""`, as `Basename([])` gives.
- Entry names within a directory are not required to be distinct in the `Dir` type, though a real filesystem has them distinct. Only the no-nesting lemmas (`FindNotNested`, `TraceNotNested`, `EntriesNotNested`) assume it, through `DistinctNames`; with a repeated name, one entry can report `root/x/y` and a later entry of the same name `root/x`. Every other property holds without it.
