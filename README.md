# Game Center launcher: catalog and play-session model

This project models the bookkeeping at the heart of the Game Center launcher,
a desktop app that keeps a library of game executables. It launches the games and
keeps a running total of play time for each one. Stripped of its widgets, the
launcher holds three pieces of state:

- the **catalog**, an insertion-ordered list of entries (`name`, `path`, `cover`,
  `playtime`, `added_date`) in which the executable path acts as the key;
- the **running-session registry**, a map from executable path to the start time
  of the session last launched for it;
- the **catalog file**, which is rewritten in full after every change.

The model has five modules:

- `Paths` derives a new game's name from its executable path. This is
  `os.path.basename` followed by the root part of `os.path.splitext`. A leading dot
  is not an extension separator, so `.hidden` keeps its name.
- `Text` holds ASCII lower-casing and the substring test (Python's `in` on strings).
  The test is proved equal to an independent "occurs at some index" definition.
- `Filtering` is the order-preserving filter that a Python list comprehension
  performs. It is characterised exactly: the result is the subsequence of the input
  at precisely the indices that satisfy the condition, in increasing order.
- `Catalog` holds the catalog as a value and the pure operations on it: add (with
  the duplicate check and name derivation), delete, search, cover update and
  play-time accrual.
- `Launcher` holds the class `App`. Its fields are `games`, `running` and `store`.
  Its methods mirror the source's handlers: start-up load, add, delete, change
  cover, launch and session end.

Time is whole seconds (`nat`), passed in as parameters. Outside events become
method parameters:

- the file picker's answer is a path, where `""` means cancelled;
- whether the executable exists is `onDisk`;
- whether the process could be started is `spawned`;
- whether a write of the catalog file succeeded is `saveOk`;
- the loaded file's content is a `Store`.

A process exit is the explicit event `App.EndSession(session, endTime)`. The
`Session` value is what the background thread remembers about its own launch: the
path and the start time. The playtime credit therefore uses that session's own
start time, even when a later launch of the same path has overwritten the registry
record.

In these places the source's behaviour is questionable, and the model follows the
source:

- A second launch of a running game is not refused (main.py:309-347). It
  overwrites the registry record (main.py:324), and whichever session ends first
  removes the path from the registry (main.py:337-338).
  `Launcher.DoubleLaunch` proves this scenario: the path is gone from the registry
  while the second session still runs, yet both sessions are credited in full.
- A failure to start the process is not reported to the user. `Popen`
  (main.py:321) runs in the background thread, which is started at main.py:345,
  before the "launching" message at main.py:347, and runs concurrently with it. So
  the failure can come before or after the message appears. The outer
  `try`/`except` (main.py:319, 349) never sees the error: the exception ends the
  thread, and the "launching" message is shown anyway. The model still returns
  `SpawnFailed`, and the registry and catalog stay unchanged.
- Loaded records are not validated (main.py:362-371). A loaded catalog may hold duplicate paths, so
  uniqueness is stated as "preserved if it held before" rather than as a class
  invariant.

`App.UpdateCover` locates the entry by its path. Called with a path that no entry
has, it changes nothing and still writes the file. The source has no such case,
because each card updates its own entry dict (main.py:106).

## Model

| member | source | states |
|---|---|---|
| `Paths.LastSep` | main.py:289 | the result is -1 or the index of a separator, and no separator follows it |
| `Paths.BaseName` | main.py:289 | the file name is the longest suffix of the path with no separator: it has none, and the character just before it is one |
| `Paths.LastDot` | main.py:289 | the result is -1 or the index of a dot, and no dot follows it |
| `Paths.StripExtension` | main.py:289 | the root is a prefix of the file name. It is shorter exactly when it ends at the last dot and holds a character other than a dot. Otherwise every dot in the name has only dots before it |
| `Paths.GameName` | main.py:289 | the derived name is a prefix of the file name and holds no separator; `Paths.GameNameShape` adds that the rest of the file name is an extension |
| `Paths.GameNameShape` | main.py:289 | the derived name has no separator, and the file name is the name followed by an empty extension or by a dot-led extension with no further dot |
| `Paths.GameNameOfExe` | main.py:289 | `/games/foo.exe` gives `foo` |
| `Paths.GameNameOfDotFile` | main.py:289 | `C:\Games\.hidden` keeps its leading dot and gives `.hidden` |
| `Text.LowerStr` | main.py:244-247 | lower-casing keeps the length, changes only upper-case ASCII letters and leaves none; `Text.LowerStrSameIff` characterises it exactly |
| `Text.LowerStrIdempotent` | main.py:244-247 | lower-casing a lower-cased string changes nothing |
| `Text.LowerSame` | main.py:244-247 | two characters lower-case alike exactly when they are equal up to ASCII case |
| `Text.LowerStrSameIff` | main.py:244-247 | two strings lower-case alike if and only if they have the same length and agree character by character up to ASCII case |
| `Text.Contains` | main.py:247 | an empty needle is always found, and a needle longer than the text never is; `Text.ContainsIff` characterises it exactly |
| `Text.ContainsIff` | main.py:247 | the substring scan succeeds if and only if the needle occurs at some index of the text |
| `Filtering.Filter` | main.py:245-248 | the result is no longer than the input and every element of it passes the condition; `Filtering.FilterPicks` characterises it exactly |
| `Filtering.FilterPicks` | main.py:245-248 | the comprehension's result is the input restricted to exactly the indices whose element passes, in increasing index order |
| `Catalog.Add` | main.py:284-298 | an empty path is a cancellation. A path already present is rejected as a duplicate and the catalog is unchanged. Otherwise the catalog grows by one, the old entries form an unchanged prefix, and the new last entry has the given path, the derived name, an empty cover, zero play time and the given date. Unique paths stay unique |
| `Catalog.AppendFresh` | main.py:285-298 | appending an entry whose path is absent keeps the old entries as a prefix and keeps paths unique |
| `Catalog.AddAsWritten` | main.py:284-298 | as written, the handler raises exactly when the picker was cancelled, and otherwise does what the corrected `Catalog.Add` does |
| `Catalog.CancelledPickerRaises` | main.py:284-298 | as written, a cancelled picker reaches the append with the entry unbound and raises, before the append and the write. The corrected add reports a cancellation instead |
| `Catalog.AddedPathIsLast` | main.py:285-298 | after a successful add, even to a loaded catalog with duplicate paths, the new path occurs exactly once, at the last position |
| `Catalog.Delete` | main.py:305 | the result is no longer than the catalog and no entry of it has the deleted path; `Catalog.DeleteKeepsOthers` characterises it exactly |
| `Catalog.DeleteKeepsOthers` | main.py:305 | delete keeps exactly the entries with a different path, in their original relative order, and none with the deleted path remains |
| `Catalog.DeleteAbsent` | main.py:305 | deleting a path that no entry has leaves the catalog unchanged |
| `Catalog.OthersSurvive` | main.py:305 | with unique paths, the entries before and after entry i all survive deleting entry i's path |
| `Catalog.DeleteAround` | main.py:305 | deleting entry x's path from a + [x] + b, when a and b keep all their entries, leaves a + b |
| `Catalog.DeleteUnique` | main.py:305 | with unique paths, deleting entry i's path removes exactly entry i |
| `Catalog.DeletePreservesUnique` | main.py:305 | deleting keeps paths unique |
| `Catalog.DeleteUndoesAdd` | main.py:284-305 | deleting the path just added restores the catalog as it was before the add |
| `Catalog.Search` | main.py:242-248 | the result is no longer than the catalog, and for a non-empty filter every shown entry's lower-cased name contains the lower-cased filter; `Catalog.SearchEmpty` and `Catalog.SearchMatches` characterise it exactly |
| `Catalog.SearchEmpty` | main.py:242-243 | an empty filter shows the whole catalog, unchanged and in order |
| `Catalog.SearchMatches` | main.py:242-248 | a non-empty filter shows exactly the entries whose lower-cased name contains the lower-cased filter, as an order-preserving subsequence of the catalog |
| `Catalog.Update` | main.py:105-106 | the result has the same length, and each entry with the given path is transformed while every other entry is kept as it was |
| `Catalog.SetCover` | main.py:105-106 | a cover update sets the cover of the entries with that path and changes no other field and no other entry |
| `Catalog.Accrue` | main.py:332-335 | accrual adds the elapsed seconds to the matching entry's play time, so no play time decreases, and changes nothing else |
| `Catalog.AccrueAll` | main.py:320-340 | applying finished sessions in turn changes only play times, and none decreases; `Catalog.AccrueAllSums` gives each final value |
| `Catalog.AccrueAllSums` | main.py:320-340 | after any interleaving of finished sessions, each entry's play time is its old value plus the sum of its own sessions, and nothing else changes |
| `Launcher.App.constructor` | main.py:133-138 | start-up loads the file's entries. A missing or unreadable file gives an empty catalog, and no session is running |
| `Launcher.App.Save` | main.py:355-360 | a successful write stores the whole current catalog. A failed one leaves the file as it was |
| `Launcher.App.AddGame` | main.py:275-302 | the new state is the outcome of `Catalog.Add`. A duplicate or a cancellation changes and writes nothing. A success appends one entry, keeps the old entries as a prefix, preserves unique paths and writes the catalog |
| `Launcher.App.DeleteGame` | main.py:304-307 | the new catalog is the old one without the deleted path. An absent path changes nothing, unique paths stay unique, and the catalog is written |
| `Launcher.App.UpdateCover` | main.py:96-108 | a non-empty choice sets only the cover of the entry with that path and writes the catalog. A cancelled choice is a no-op |
| `Launcher.App.PlayGame` | main.py:309-350 | a missing executable gives `ExecutableNotFound` and a failed spawn gives `SpawnFailed`, neither touching the registry. A successful launch maps the path to its start time, overwriting any previous record |
| `Launcher.App.EndSession` | main.py:330-340 | the entry's play time becomes the old value plus (end - start), with no other entry or field changing. The path leaves the registry, other registry records stay, and the catalog is written |
| `Launcher.DoubleLaunch` | main.py:320-338 | launching one path twice and ending the first session drops the path from the registry while the second still runs. The final play time is the sum of both sessions |

## Findings

| source | as written | input that shows it | evidently intended | confidence | as-written member | corrected member |
|---|---|---|---|---|---|---|
| main.py:284-298 | `new_game` is bound only inside `if file_path:`, but `self.games.append(new_game)` runs unconditionally, which raises `UnboundLocalError` | the file picker is cancelled, so `file_path == ""` | a cancelled picker leaves the catalog unchanged and writes nothing | high (from reading the code; not executed) | `Catalog.CancelledPickerRaises` | `Catalog.Add` |

The as-written behaviour is `Catalog.AddAsWritten`, and
`Catalog.CancelledPickerRaises` exhibits it. The error is raised while the new
entry is being read, before the append and the write, so the catalog and the file
are untouched. Tk's callback wrapper reports the uncaught exception and the main
loop carries on, but the user sees no message. The rest of the model uses the
corrected `Catalog.Add`, whose `Cancelled` outcome `Launcher.App.AddGame` turns
into a no-op.

## Left out

- Widgets, layout, theming, message boxes, the confirmation dialog and the file pickers (main.py:14-72, 89-103, 113-123, 148-236, 250-269, 373-420) are all UI. A picker's answer is a string parameter, and `""` means cancelled.
- Loading and resizing cover images with PIL (main.py:73-87) is a foreign library and file I/O.
- JSON encoding and decoding are left out (main.py:355-371). `Store` holds parsed entries directly. A document that parses but has the wrong shape is not modelled; the source accepts it without validation.
- `Launcher.App.Save`: a failed write leaves the file unchanged. A write that fails after the file has been opened for writing can leave a truncated file in the source, and the model does not capture that.
- Process spawning, `process.wait()`, the daemon thread, `self.after` and the no-op timer `check_running_games` (main.py:320-353) are left out. The model has explicit launch and session-end events. Concurrency between the waiting threads and the UI thread is not modelled; the source guards none of its shared state with a lock.
- The registry also holds the process handle and the entry dict (main.py:324-328). Only the start time is modelled.
- `Launcher.App.EndSession`: play time is whole seconds instead of floating-point `time.time()` differences. The method requires end >= start, so the model does not capture a wall clock that runs backwards, which in the source would decrease play time.
- Formatting `added_date` with `datetime.now().strftime` (main.py:295) is left out. The date is an opaque string parameter.
- `Text.LowerStr` lower-cases ASCII only. Python's `str.lower` is full Unicode and can change a string's length.
- `Paths.BaseName` splits on both `/` and `\`. A Windows drive prefix with no separator (`C:game.exe`) is not split off. On POSIX hosts `\` would be an ordinary character.
- Entries are values located by path, while the source's card and waiting thread hold a reference to the entry dict itself. So with duplicate paths (possible only from a loaded file), a cover or play-time update applies to every entry with that path rather than the one clicked or launched. A session whose entry was deleted and then re-added credits the new entry, whereas the source credits the orphaned dict, which is never saved.
- Display-only code is left out: the card's `os.path.basename(name)` label and the hours formatting (main.py:31, 40, 121-123).
