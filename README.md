# Directory change tracker — Dafny model

A model of the core of `PythonApplication2/PythonApplication2.py`, a small
tool that keeps a snapshot of a directory tree (a dictionary from file path
to MD5 hash), saves it to `snapshot.txt` on `commit`, and reports which files
were Added, Edited or Deleted since the last commit — on demand (`status`,
which also prints "No changes" lines) and from a background thread that polls
every second (`pasivestatus`, which does not). An `info <file>` command
prints counts for a named text or source file.

Modules, one per part of the program:

- `Snapshots` (snapshots.dfy): a snapshot is a Python dictionary, which keeps
  insertion order; it is a sequence of `Entry(path, hash)` with distinct keys,
  with `Lookup` (`d[k]`) and `Assign` (`d[k] = v`: an existing key keeps its
  place, a new key goes last).
- `Diff` (diff.dfy): the two loops of `status`/`pasivestatus` as a
  specification (`Compare`) and as methods (`ReportCurrent`, `ReportDeleted`,
  `Report`) proved equal to it, with the printed output (`Printed`: basename
  and status).
- `SnapshotStore` (store.dfy): `saveSnapshot` and `loadPreviousSnapshot` over
  the text of the snapshot file (`None` when the file does not exist).
- `Git` (git.dfy): what a `commit` followed by `pasivestatus` reports.
- `Poller` (poller.dfy): `GitBackgroundThread` as a class with its
  `isRunning` flag and thread handle, plus a ghost count of spawned threads.
- `Inspect` (inspect.dfy): `info`'s parsing of the `<name>` token and the
  extension, and its line, word, character and class counts.
- `PyStr` (pystr.dfy) and `Wrappers` (wrappers.dfy): the Python string
  operations the program relies on (`split`, `join`, iterating over a file's
  lines, `split()` on whitespace, `in`), and `Option`/`Result`.

The snapshot file is truncated and rewritten in place (no temporary file
and rename); loading does not give back the saved snapshot (see Findings);
`stop` only clears the flag and does not wait for the thread.

## Model

| member | source | states |
|---|---|---|
| `Snapshots.Assign` | PythonApplication2/PythonApplication2.py:97 | `d[k] = v` appends an absent key; a present key keeps its position and takes the new value, every other entry unchanged |
| `Snapshots.AssignLookup` | PythonApplication2/PythonApplication2.py:97 | after `d[k] = v`, `k` looks up `v` and every other key looks up what it did before |
| `Snapshots.AssignDistinct` | PythonApplication2/PythonApplication2.py:97 | assignment keeps the dictionary's keys distinct |
| `Snapshots.LookupEntry` | PythonApplication2/PythonApplication2.py:117-118 | in a dictionary each entry's key looks up that entry's hash |
| `Snapshots.Lookup` | PythonApplication2/PythonApplication2.py:117-118 | `file in previousSnapshot` holds iff the key is present, and then `previousSnapshot[file]` is a value stored under that key |
| `Diff.CurrentLines` | PythonApplication2/PythonApplication2.py:116-124 | the current-snapshot loop emits at most one line per path, never Deleted, and "No changes" only in `status` |
| `Diff.DeletedLines` | PythonApplication2/PythonApplication2.py:126-128 | the previous-snapshot loop emits only Deleted lines, at most one per previous path |
| `Diff.Compare` | PythonApplication2/PythonApplication2.py:111-146 | every Deleted line comes after every line of the current-snapshot loop, and only those lines are Deleted |
| `Diff.Basename` | PythonApplication2/PythonApplication2.py:120 | `os.path.basename` is the longest '/'-free suffix of the path |
| `Diff.ReportEntry` | PythonApplication2/PythonApplication2.py:117-124 | one pass of the first loop prints the basename with Edited, Added, or (only in `status`) "No changes", as the comparison specifies |
| `Diff.ReportCurrent` | PythonApplication2/PythonApplication2.py:116-124 | the first loop prints the specified current-snapshot lines in the current snapshot's order |
| `Diff.ReportDeleted` | PythonApplication2/PythonApplication2.py:126-128 | the second loop prints a Deleted line per previous path absent from the current snapshot, in the previous snapshot's order |
| `Diff.Report` | PythonApplication2/PythonApplication2.py:111-146 | `status` and `pasivestatus` print exactly the specified comparison, path by path, as basenames |
| `Diff.StatusClassifiesEveryPath` | PythonApplication2/PythonApplication2.py:116-124 | `status` gives each current path exactly one line, in order: Added iff absent before, Edited iff present with another hash, "No changes" iff the hashes are equal |
| `Diff.CurrentLinesAllEdited` | PythonApplication2/PythonApplication2.py:116-124 | when every current path was held before with another hash, the first loop reports each one Edited, in the current order |
| `Diff.NoneDeleted` | PythonApplication2/PythonApplication2.py:126-128 | when every previous path is still present, the second loop reports nothing |
| `Diff.DeletedExactly` | PythonApplication2/PythonApplication2.py:126-128 | a path has a Deleted line iff the previous snapshot has it and the current one does not |
| `Diff.DeletedInPreviousOrder` | PythonApplication2/PythonApplication2.py:144-146 | Deleted lines follow the previous snapshot's order |
| `Diff.PassiveIsStatusWithoutUnchanged` | PythonApplication2/PythonApplication2.py:111-146 | for the same snapshots, `pasivestatus`'s lines are `status`'s lines without the "No changes" ones, in the same order |
| `Diff.PassiveReportIsStatusReportWithoutUnchanged` | PythonApplication2/PythonApplication2.py:120-146 | the same holds of the printed basename/status lines |
| `Diff.SelfCompare` | PythonApplication2/PythonApplication2.py:116-146 | comparing a snapshot with itself: `pasivestatus` prints nothing, `status` prints "No changes" for every path in order |
| `Diff.FirstRunAllAdded` | PythonApplication2/PythonApplication2.py:116-128 | against the empty dictionary loaded when there is no snapshot file, every current path is Added, in order, and nothing is Deleted |
| `SnapshotStore.SaveSnapshot` | PythonApplication2/PythonApplication2.py:100-103 | the save loop writes the serialisation of the snapshot |
| `SnapshotStore.SaveWritesOneLinePerEntry` | PythonApplication2/PythonApplication2.py:100-103 | read back line by line, the saved file is one `key|value\n` line per entry, in dictionary order |
| `SnapshotStore.LoadPrevious` | PythonApplication2/PythonApplication2.py:90-98 | the loaded dictionary is empty when there is no snapshot file, and its keys are distinct |
| `SnapshotStore.LoadPreviousFixed` | PythonApplication2/PythonApplication2.py:90-98 | the corrected loader (newline stripped before splitting): empty with no file, distinct keys; its round trip is `SnapshotStore.LoadFixedAfterSave` |
| `SnapshotStore.LoadPreviousSnapshot` | PythonApplication2/PythonApplication2.py:90-98 | the load loop builds the specified dictionary (empty with no file), whose keys are distinct |
| `SnapshotStore.LoadKeys` | PythonApplication2/PythonApplication2.py:94-97 | a key is loaded iff some line splits on '|' into exactly two fields with that key first |
| `SnapshotStore.LoadLastRecordWins` | PythonApplication2/PythonApplication2.py:94-97 | a later two-field line for a key overwrites an earlier one: the loaded value is the second field of the key's last such line |
| `SnapshotStore.LoadAfterSaveKeepsNewline` | PythonApplication2/PythonApplication2.py:94-103 | for entries without '|' or newlines and distinct keys, loading a saved snapshot gives its keys in order, each with its hash followed by "\n" |
| `SnapshotStore.LoadFixedAfterSave` | PythonApplication2/PythonApplication2.py:94-103 | with the newline stripped before splitting, loading a saved snapshot gives back exactly that snapshot |
| `Git.CommitThenStatusReportsAllEdited` | PythonApplication2/PythonApplication2.py:84-98 | as written, a commit followed by `pasivestatus` on unchanged files reports every file Edited, in order; with unchanged paths included (what `status` would print if it keyed its snapshot as `commit` does) the same |
| `Git.CommitThenStatusReportsNoChanges` | PythonApplication2/PythonApplication2.py:84-88 | with the corrected load, a commit followed by `pasivestatus` reports nothing, and with unchanged paths included every file is "No changes" |
| `Poller.GitBackgroundThread.constructor` | PythonApplication2/PythonApplication2.py:8-12 | a new poller is stopped, has no thread handle and has spawned no thread |
| `Poller.GitBackgroundThread.Start` | PythonApplication2/PythonApplication2.py:14-20 | `start` while running changes nothing; from stopped it sets the flag and creates and starts exactly one new daemon thread |
| `Poller.GitBackgroundThread.Stop` | PythonApplication2/PythonApplication2.py:22-23 | `stop` clears the flag whatever it was and touches nothing else |
| `Poller.GitBackgroundThread.BackgroundStep` | PythonApplication2/PythonApplication2.py:25-29 | a pass of the background loop reports nothing once the flag is clear, and otherwise what `pasivestatus` prints |
| `Poller.PollAfterCommitReportsAllEdited` | PythonApplication2/PythonApplication2.py:25-29 | as written, right after a commit with no file changed, a pass of the running background loop prints every file's basename as Edited, in order |
| `Poller.Thread.constructor` | PythonApplication2/PythonApplication2.py:18 | a new `Thread` is neither a daemon nor started |
| `Poller.Thread.Start` | PythonApplication2/PythonApplication2.py:20 | `start()` marks the thread started and changes nothing else |
| `Poller.StartTwiceSpawnsOnce` | PythonApplication2/PythonApplication2.py:14-20 | starting twice in a row spawns a single thread |
| `Poller.StopIsIdempotent` | PythonApplication2/PythonApplication2.py:22-23 | stopping twice leaves the poller as stopping once does |
| `Poller.StopEndsReports` | PythonApplication2/PythonApplication2.py:22-29 | after `stop`, the next pass of the background loop ends without a report |
| `Inspect.TargetName` | PythonApplication2/PythonApplication2.py:45-48 | the name is the text between the first '<' and the next '<' (or the end) less one trailing '>'; no '<' is an error |
| `Inspect.Extension` | PythonApplication2/PythonApplication2.py:61-62 | the extension is the text between the first '.' and the next one (so "a.b.txt" gives "b"); no '.' is an error |
| `Inspect.TextMetrics` | PythonApplication2/PythonApplication2.py:63-71 | lines: one per newline plus an unterminated last line; words: the number of maximal non-whitespace runs; characters: the number of non-whitespace characters |
| `Inspect.JoinedWithSpace` | PythonApplication2/PythonApplication2.py:67 | joining a file's lines with ' ' before `split()` gives the same words as splitting the file's text |
| `Inspect.KindOf` | PythonApplication2/PythonApplication2.py:62-82 | the branch taken: text iff the extension is "txt", image iff it is jpg, jpeg, png or svg, code iff cs, java or py, none otherwise |
| `PyStr.ContainsAt` | PythonApplication2/PythonApplication2.py:81 | `"class" in line` holds iff "class" occurs at some position of the line |
| `Inspect.ClassCount` | PythonApplication2/PythonApplication2.py:81 | at most one per line; zero iff no line contains "class", all lines iff every line does |
| `Inspect.Info` | PythonApplication2/PythonApplication2.py:44-82 | `info` fails iff there is no '<', or the named file exists and its name has no '.'; a name that does not exist is reported missing |
| `PyStr.Split` | PythonApplication2/PythonApplication2.py:95 | `split` on a character gives one more field than separators, none containing the separator |
| `PyStr.JoinSplit` | PythonApplication2/PythonApplication2.py:95 | joining the fields of a split with the separator gives back the text |
| `PyStr.SplitJoin` | PythonApplication2/PythonApplication2.py:95 | splitting a join of separator-free fields gives back the fields |
| `PyStr.SplitSecond` | PythonApplication2/PythonApplication2.py:45 | field 1 of a split is the text between the first separator and the next one |
| `PyStr.Lines` | PythonApplication2/PythonApplication2.py:94 | iterating over a file yields pieces that concatenate to its text, each ending at its only newline except possibly the last |
| `PyStr.LinesOfConcat` | PythonApplication2/PythonApplication2.py:94 | whole lines written one after another are read back as the same lines |
| `PyStr.LinesCount` | PythonApplication2/PythonApplication2.py:64-65 | there is one line per newline plus one for an unterminated last line |
| `PyStr.Words` | PythonApplication2/PythonApplication2.py:67 | `split()` yields non-empty whitespace-free words |
| `PyStr.WordsAcrossSpace` | PythonApplication2/PythonApplication2.py:67 | a whitespace character separates the words before it from those after it |
| `PyStr.WordsCountRuns` | PythonApplication2/PythonApplication2.py:67-68 | `split()` yields one word per maximal non-whitespace run |
| `PyStr.WordsKeepNonSpace` | PythonApplication2/PythonApplication2.py:70 | the words' total length is the number of non-whitespace characters |

## Left out

- Building snapshots (`os.walk`, `os.listdir`, lines 86-87, 113, 133-134) and hashing (`calculateFileHash`, `hashlib.md5`, lines 105-109): file-system I/O and a foreign library; snapshots are inputs. So the model does not capture that `status` hashes the bare names `os.listdir` gives while `commit` and `pasivestatus` use joined paths from `os.walk`, which makes `status` see different keys from the committed ones.
- `commit` (lines 84-88) is modelled as `saveSnapshot` of the snapshot it builds; its timestamp print is left out.
- `Git.__init__` and `initializeRootDirectory` (lines 32-42): a search up the file system, which is I/O.
- Opening, reading and writing files, and the errors they raise: the snapshot file's text and a file's text are inputs; `None` stands for a missing snapshot file.
- Newline translation of Python's text mode (`\r\n` and `\r` read as `\n`): the file text is the string Python's text layer yields.
- `Diff.Basename` follows POSIX `os.path.basename` (split at '/'); on Windows `ntpath` also splits at '\\' and after a drive.
- Printing: the reports are sequences of (basename, status) lines; the exact text printed around them is left out.
- Threads: the thread's execution, the `daemon` flag's effect, `time.sleep` and the timing of the polling loop (lines 25-29) are concurrency; only the flag, the handle and one pass of the loop are modelled. The model does not capture that a `stop` followed by a `start` within one interval can leave the old thread polling beside the new one.
- `info`'s timestamps (lines 52-56), its image dimensions (line 73, PIL) and its "does not exist" message text: clock, file-system and foreign-library calls; the existence check and the file's text are inputs.
- `SnapshotStore.LoadKeys` states which keys are loaded from arbitrary text, not their order (order of first appearance); the order is stated for saved files by `SnapshotStore.LoadAfterSaveKeepsNewline`.

## Findings

| source | as written | input that shows it | evidently intended | confidence | as-written member | corrected member |
|---|---|---|---|---|---|---|
| PythonApplication2/PythonApplication2.py:94-97 | each line keeps its "\n", so every loaded hash ends in "\n" and never equals a freshly computed hash | commit a tree holding one file `t/a.txt` with hash `h`, change nothing, then poll: `pasivestatus` reports `a.txt - Edited` on every poll | strip the newline before splitting (`line.rstrip("\n").split("|")`), so that loading a saved snapshot gives it back and a commit followed by `pasivestatus` reports no changes | high; not executed | `Git.CommitThenStatusReportsAllEdited` | `Git.CommitThenStatusReportsNoChanges` |

The corrected loader is `SnapshotStore.LoadPreviousFixed`; its round trip is
`SnapshotStore.LoadFixedAfterSave`. The background poller keeps the loader as
written, so `Poller.PollAfterCommitReportsAllEdited` shows the same behaviour
at the poller.
