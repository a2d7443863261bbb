# FileUpload batch-transfer model

This project models the batch-transfer logic of the React component
`FileUpload` (`src/components/file-upload.jsx`). The component lists the
members of a zip archive as a batch of entries. Each entry can be
duplicated under a "(Copy)" name or renamed. One button starts, pauses and
resumes a simulated transfer, in which a timer per unprocessed entry marks it
processed when it fires.

The model has four modules:

- `Naming` (`naming.dfy`): the copy-marker regular expression
  `/(\s?)\(Copy(\s?)(\d?)\)/g` as a greedy matcher, proved equal to a
  declarative description of the pattern, and a global replace (`Strip`)
  that leaves a name unchanged exactly when the name holds no match.
  It also has `split('.')` with its inverse, `includes` and the filtered
  count, the decimal rendering of the copy number, and the two template
  literals that build a duplicate's name.
- `Batch` (`batch.dfy`): the entry and descriptor records, the loop that
  builds the initial batch, rename, mark-processed and append-copy as
  positional updates, and the processed count and the unprocessed set.
- `Transfer` (`transfer.dfy`): the component state as a value. It holds
  the pure transitions for the button, timer firing, duplicate, rename,
  archive and folder selection, the button label, the row marks, and
  lemmas over single steps and whole runs.
- `Component` (`component.dfy`): `class FileUpload`. Its fields are the
  state the component keeps. Its methods are the event handlers, with
  loops where the source loops: the timer loop of `uploadFiles`, the
  `clearTimeout` loop and the entry-pushing loop. Each method is proved to
  produce the state that the matching `Transfer` function gives.

Timers are a set `pending` of entry indices. A timer firing is the event
`Fire(i)`, which can happen only while `i` is pending, in any order.

Edge cases of the component that the model keeps as the code has them:

- The duplicate is a `structuredClone` of the source entry (:64), so it
  keeps the source's `size` and `processed` flag.
- Earlier copies are found with `includes` (:68), anywhere in a filename,
  not only at its start.
- `\d?` matches at most one digit (:63), so " (Copy 10)" is not stripped.
- The name is split on every '.' (:66): only pieces 0 and 1 are used, and
  a name without '.' gets the extension "undefined".
- A click while running pauses (:146-150), even when every entry is
  processed.
- `uploading` is never set back to false: only :155 sets it.

## Model

| member | source | states |
|---|---|---|
| Naming.MarkerLenSpec | src/components/file-upload.jsx:63 | the matcher's result at a position is a match of the pattern, and no other prefix there is one |
| Naming.LongMarkerKept | src/components/file-upload.jsx:63 | " (Copy N)" with a numeral N of two digits or more is not a match, because `\d?` takes at most one digit |
| Naming.LongMarkerSurvives | src/components/file-upload.jsx:63-65 | for a stem and a rest without '(', stripping "stem (Copy N)rest" with a numeral N of two digits or more leaves it unchanged, so the marker of the tenth and every later copy stays in the name |
| Naming.Strip | src/components/file-upload.jsx:65 | the global replace never lengthens the name |
| Naming.StripIdentityIff | src/components/file-upload.jsx:63-65 | stripping leaves a name unchanged if and only if the name contains no match anywhere |
| Naming.StripIdempotentWhenClean | src/components/file-upload.jsx:63-65 | stripping twice equals stripping once whenever the first result contains no match |
| Naming.StripNotIdempotent | src/components/file-upload.jsx:63-65 | removing a match can join its neighbours into a new one: "(Co(Copy)py)" strips to "(Copy)", which contains a match and strips to "" |
| Naming.StripAppend | src/components/file-upload.jsx:63-65 | a text starting with " (" is stripped independently of what precedes it |
| Naming.SplitDot | src/components/file-upload.jsx:66 | `split('.')` yields at least one piece and no piece contains '.' |
| Naming.JoinSplit | src/components/file-upload.jsx:66 | joining the pieces with '.' gives back the name |
| Naming.SplitJoin | src/components/file-upload.jsx:66 | splitting a '.'-join of dot-free pieces gives back those pieces |
| Naming.ContainsIff | src/components/file-upload.jsx:68 | `includes` holds if and only if the pattern occurs at some position |
| Naming.ContainsChars | src/components/file-upload.jsx:68 | a name that includes a pattern holds every character of it |
| Naming.CountContaining | src/components/file-upload.jsx:68 | the filtered count is at most the number of names, and zero if and only if no name includes the pattern |
| Naming.CountContainingAppend | src/components/file-upload.jsx:68 | appending a name raises the count by one exactly when that name includes the pattern |
| Naming.Decimal | src/components/file-upload.jsx:75 | the rendering of a number is a non-empty digit string, one digit exactly below ten, starting with "0" only for zero (no leading zeros) |
| Naming.DecimalRoundTrip | src/components/file-upload.jsx:75 | reading the rendered digits back gives the number |
| Naming.NameForCases | src/components/file-upload.jsx:68-76 | "stem (Copy).ext" when no existing name includes "stem (Copy"; otherwise "stem (Copy N+1).ext" with N ≥ 1 the number of names that do |
| Naming.NameForShape | src/components/file-upload.jsx:72-75 | the new name is the stem, a copy marker, '.', and the extension |
| Naming.NameForParts | src/components/file-upload.jsx:66-76 | for a dot-free stem and extension the new name splits into exactly the marked stem and the extension |
| Naming.NameForIsCounted | src/components/file-upload.jsx:68-76 | the new name includes "stem (Copy", so appending it raises the count for that stem by one |
| Naming.NextCopyNumber | src/components/file-upload.jsx:68-76 | after one copy is appended, the next copy of the same stem is numbered N+2 |
| Naming.CopyMarkerMatches | src/components/file-upload.jsx:63-75 | below the tenth copy, the marker a copy receives is exactly one match of the strip pattern |
| Naming.NameForStripsBack | src/components/file-upload.jsx:63-76 | below the tenth copy, stripping the new name removes its marker and strips the stem and the extension separately: the result is Strip(stem) + "." + Strip(ext), so a match left in the stem (as in "a (Copy) (Copy).txt") goes too |
| Naming.CopyNameKeepsBaseName | src/components/file-upload.jsx:63-76 | below the tenth copy, for a clean source name with one '.', the copy's name strips back to the source's stripped name |
| Naming.CopyNameSameStrip | src/components/file-upload.jsx:64-76 | two sources with the same stripped name get the same copy name |
| Naming.FirstAndSecondCopy | src/components/file-upload.jsx:63-76 | "report.txt" gives "report (Copy).txt"; with that copy present, both "report.txt" and "report (Copy).txt" give "report (Copy 2).txt" (for any plain stem and extension) |
| Naming.NoDotCopy | src/components/file-upload.jsx:66-72 | a name without '.' such as "README" gives "README (Copy).undefined" |
| Naming.ManyDotsCopy | src/components/file-upload.jsx:66-72 | "archive.tar.gz" gives "archive (Copy).tar": pieces after the second are dropped |
| Batch.NewBatch | src/components/file-upload.jsx:31-41 | one entry per descriptor, in order, with the descriptor's filename and size and not processed |
| Batch.BuildEntries | src/components/file-upload.jsx:31-41 | the push loop builds exactly that batch |
| Batch.Filenames | src/components/file-upload.jsx:68 | the filenames of the batch, position by position |
| Batch.RenameAt | src/components/file-upload.jsx:98-108 | only entry idx's filename changes, to the given name; length, sizes and processed flags and all other entries are unchanged; an index out of range changes nothing |
| Batch.RenameCounts | src/components/file-upload.jsx:98-108 | renaming changes neither the processed count nor the unprocessed set |
| Batch.MarkProcessed | src/components/file-upload.jsx:120-126 | only entry i becomes processed; filenames, sizes and all other entries are unchanged; an index out of range changes nothing |
| Batch.MarkProcessedCounts | src/components/file-upload.jsx:117-126 | marking an unprocessed entry raises the count by one and removes exactly its index from the unprocessed set |
| Batch.MarkProcessedNoop | src/components/file-upload.jsx:120-126 | marking a processed entry or an out-of-range index changes nothing |
| Batch.AppendCopy | src/components/file-upload.jsx:64-82 | exactly one entry is appended and all earlier entries are unchanged; it keeps the source's size and processed flag and is named by the copy-naming rule against the current filenames |
| Batch.AppendCounts | src/components/file-upload.jsx:79-82 | appending an entry adds to the count and to the unprocessed set only what that entry contributes |
| Batch.ProcessedCount | src/components/file-upload.jsx:222-223 | the filtered count is at most the number of entries |
| Batch.AllProcessedIff | src/components/file-upload.jsx:222-223 | the count equals the length if and only if every entry is processed, vacuously for an empty batch |
| Batch.UnprocessedEmptyIff | src/components/file-upload.jsx:116-117 | the timer loop has nothing to schedule if and only if every entry is processed |
| Transfer.ActionOf | src/components/file-upload.jsx:140-157 | a click reports a missing destination exactly when no non-empty folder name is held; otherwise it pauses when running, resumes when paused and starts when idle |
| Transfer.ToggleWithoutDestination | src/components/file-upload.jsx:140-143 | with no destination a click changes nothing at all |
| Transfer.ToggleCases | src/components/file-upload.jsx:145-157 | with a destination a click leaves entries and folder alone and sets uploading; starting and resuming add a timer per unprocessed entry; pausing sets paused and clears every timer |
| Transfer.ToggleExact | src/components/file-upload.jsx:114-157 | with a destination chosen, from a consistent idle or paused state, a click leaves a running transfer with exactly the unprocessed entries scheduled |
| Transfer.ToggleAtDonePauses | src/components/file-upload.jsx:146-150 | with a destination chosen, a click while the label reads Done pauses, and the label then reads Paused |
| Transfer.ValidStep | src/components/file-upload.jsx:139-158 | every event keeps paused ⇒ uploading, and keeps the timer set empty unless running |
| Transfer.ScheduledStep | src/components/file-upload.jsx:114-158 | every event keeps each pending timer on an unprocessed entry of the batch; picking a new archive does so when no timer is set |
| Transfer.UploadingStep | src/components/file-upload.jsx:155 | once uploading is true no event makes it false |
| Transfer.ProcessedStep | src/components/file-upload.jsx:117-129 | no event other than picking a new archive makes a processed entry unprocessed or moves it |
| Transfer.CompleteChangesOneFlag | src/components/file-upload.jsx:119-129 | a firing timer sets exactly its own entry's processed flag, raises the count by one, removes only itself from the pending set, and leaves uploading, paused and the folder as they were |
| Transfer.RunKeeps | src/components/file-upload.jsx:139-158 | over any run of events the flags stay consistent and uploading never returns to false |
| Transfer.PausedRunHasNoCompletion | src/components/file-upload.jsx:146-150 | from a pause until the next click no timer can fire; the component stays paused with no timer set |
| Transfer.StatusIff | src/components/file-upload.jsx:220-223 | Upload iff idle, Paused iff transferring and paused, Uploading iff running with an unprocessed entry, Done iff running with every entry processed; no label only in the inconsistent state paused but not uploading |
| Transfer.EmptyBatchDone | src/components/file-upload.jsx:223 | a running transfer of an empty batch reads Done |
| Transfer.DoneShowsChecks | src/components/file-upload.jsx:202-211 | when the label reads Done every row shows the check mark |
| Transfer.ExactDoneIff | src/components/file-upload.jsx:220-223 | while running with exactly the unprocessed entries scheduled, the label reads Done iff no timer is left |
| Transfer.CompleteKeepsExact | src/components/file-upload.jsx:117-129 | a firing timer keeps the schedule equal to the unprocessed set |
| Transfer.AllFireReachesDone | src/components/file-upload.jsx:114-134 | from a running, exactly scheduled state, the timers firing once each in any order lead to Done with every entry processed |
| Transfer.DuplicateNotScheduled | src/components/file-upload.jsx:62-83 | an unprocessed copy made while running gets no timer, so the schedule is no longer exact |
| Transfer.UnscheduledStaysUnprocessed | src/components/file-upload.jsx:114-134 | in the model, which applies every event to the current list, such an entry stays unprocessed and unscheduled through later firings and duplicates, so the label does not read Done before the next click; in the component the copy is instead dropped at the next firing (see "## Left out") |
| Transfer.TwoEntryScenario | src/components/file-upload.jsx:139-158 | two unprocessed entries with a folder: start gives Uploading, pause gives Paused with nothing processed, resume gives Uploading, and both timers firing give Done with both processed |
| Component.FileUpload.constructor | src/components/file-upload.jsx:6-11 | the initial state: no entries, no folder, not uploading, not paused, no timers |
| Component.FileUpload.Toggle | src/components/file-upload.jsx:139-158 | the handler returns the branch taken and leaves the state the click transition gives; it keeps the flags consistent |
| Component.FileUpload.ClearTimers | src/components/file-upload.jsx:148-150 | the clearing loop empties the timer set and changes nothing else |
| Component.FileUpload.UploadFiles | src/components/file-upload.jsx:114-134 | the loop adds a timer for each unprocessed entry and changes nothing else |
| Component.FileUpload.Complete | src/components/file-upload.jsx:119-129 | a pending timer firing marks its entry processed and removes the timer |
| Component.FileUpload.Duplicate | src/components/file-upload.jsx:62-83 | the handler appends the named clone as the duplicate transition does |
| Component.FileUpload.Rename | src/components/file-upload.jsx:98-109 | the handler renames as the rename transition does |
| Component.FileUpload.SelectArchive | src/components/file-upload.jsx:30-41 | the listed members replace the batch; an empty pick changes nothing |
| Component.FileUpload.ChooseDestination | src/components/file-upload.jsx:54-55 | a picked folder name is stored; a cancelled pick changes nothing |

## Left out

- Zip decoding (`zip.BlobReader`, `ZipReader`, `getEntries`, `close`) and its promise handling: the archive's member descriptors are a parameter of `SelectArchive`. The `file` state only decides whether the list is shown, so it is not modelled.
- `window.showDirectoryPicker`: the folder name, or a cancelled pick, is a parameter of `ChooseDestination`.
- DOM refs and `handleSetName`: the new name is a parameter of `Rename`.
- Timer delays (`size * 0.001` milliseconds, floating point) and firing order: a pending timer may fire at any time, in any order.
- The `timers` list of ids is not kept apart from the set of live timers. Every click that passes the destination check (:140-143) empties the list (:145); a click without a destination returns before that and keeps it. A pause clears each timer the list recorded (:148-150), and a start or resume records one new timer per unprocessed entry (:131). So at each pause the list names exactly the timers set by the last start or resume, and clearing one that has already fired does nothing.
- Stale closures in the timer callbacks: each callback runs `files.map` on the list captured when its click ran (:120-128) and stores the result. Flags and renames survive this, since `value.processed = true` (:122) and `handleRename` (:102) change entry objects that the captured list shares. A copy appended after the timers were set is not in the captured list, so the next firing drops it, and once the remaining timers fire the label reads Done without it. In the same way, an archive chosen during a transfer is replaced by the old batch at the next firing. The model applies each event to the current list instead, so it keeps the copy and the new archive (`Transfer.UnscheduledStaysUnprocessed` states what follows from that in the model).
- `alert` and the rendering, apart from the button label and the row marks.
- List keys: rows are keyed by filename, and duplicate keys are not modelled.
- Sizes are unbounded naturals, not 64-bit.
- `Naming.StripIdempotentWhenClean`: stripping twice is proved equal to stripping once only when the first pass leaves no match. In general it is not, as `Naming.StripNotIdempotent` shows. For the same reason, "the stripped name holds no match" is proved only as the if-and-only-if `Naming.StripIdentityIff`.
- `Naming.CopyNameKeepsBaseName`: proved only when fewer than nine earlier copies are counted. From copy number 10 on, the marker's numeral has two digits or more, so the marker is not a match (`Naming.LongMarkerKept`) and survives the next strip (`Naming.LongMarkerSurvives`).
