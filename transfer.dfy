/** The transfer state machine of the component as values: the state it
    holds, the single upload/pause/resume button, timer completions, the
    edits to the batch, and the label the button shows. */
module Transfer {
  import opened Batch

  datatype Option<T> = None | Some(value: T)

  /** The component's state. `pending` holds the indices of the entries
      whose simulated-transfer timer is set and has neither fired nor been
      cleared. */
  datatype State = State(
    files: seq<Entry>,
    directory: Option<string>,
    uploading: bool,
    paused: bool,
    pending: set<nat>)

  /** What a click on the button does. */
  datatype Action = MissingDestination | Pause | Resume | Start

  /** The text of the button; `NoLabel` is what it shows when none of its
      four conditions holds. */
  datatype Label = Upload | Paused | Uploading | Done | NoLabel

  /** The state before anything is selected. */
  const Initial := State([], None, false, false, {})

  /** `!directory` is false: a folder was picked and its name is not empty. */
  predicate DestinationChosen(d: Option<string>) {
    d.Some? && d.value != ""
  }

  /** The state's flags agree with each other: pausing needs a transfer
      under way, and timers run only while transferring and not paused. */
  predicate Valid(s: State) {
    (s.paused ==> s.uploading) &&
    (!s.uploading || s.paused ==> s.pending == {})
  }

  /** A transfer is under way and not paused. */
  predicate Running(s: State) {
    s.uploading && !s.paused
  }

  /** Every pending timer belongs to an entry of the batch that is not yet processed. */
  predicate Scheduled(s: State) {
    forall i :: i in s.pending ==> i < |s.files| && !s.files[i].processed
  }

  /** Every unprocessed entry, and nothing else, has its timer set. */
  predicate Exact(s: State) {
    s.pending == Unprocessed(s.files)
  }

  // ---------------------------------------------------------------------
  // The button

  /** Which branch a click takes. */
  function ActionOf(s: State): (a: Action)
    ensures a == MissingDestination <==> !DestinationChosen(s.directory)
    ensures a == Pause <==> DestinationChosen(s.directory) && s.uploading && !s.paused
    ensures a == Resume <==> DestinationChosen(s.directory) && s.uploading && s.paused
    ensures a == Start <==> DestinationChosen(s.directory) && !s.uploading
  {
    if !DestinationChosen(s.directory) then MissingDestination
    else if s.uploading && !s.paused then Pause
    else if s.uploading then Resume
    else Start
  }

  /** One timer per unprocessed entry, added to those already set. */
  function Schedule(s: State): State {
    s.(pending := s.pending + Unprocessed(s.files))
  }

  /** A click: with no destination nothing changes; otherwise pause (and
      clear every timer), resume, or start, the last two scheduling the
      unprocessed entries. */
  function Toggle(s: State): State {
    match ActionOf(s)
    case MissingDestination => s
    case Pause => s.(paused := true, pending := {})
    case Resume => Schedule(s.(paused := false))
    case Start => Schedule(s.(uploading := true))
  }

  // ---------------------------------------------------------------------
  // The other events

  /** Timer `i` fires: entry `i`, if the batch has one, is marked processed. */
  function Complete(s: State, i: nat): State
    requires i in s.pending
  {
    s.(files := MarkProcessed(s.files, i), pending := s.pending - {i})
  }

  /** The Duplicate button on `source`. */
  function Duplicate(s: State, source: Entry): State {
    s.(files := AppendCopy(s.files, source))
  }

  /** The Okay button of the rename box of entry `idx`, holding `name`. */
  function Rename(s: State, idx: int, name: string): State {
    s.(files := RenameAt(s.files, idx, name))
  }

  /** An archive is picked (its members listed) or the picker is left empty. */
  function SelectArchive(s: State, picked: Option<seq<Descriptor>>): State {
    if picked.Some? then s.(files := NewBatch(picked.value)) else s
  }

  /** A folder is picked, or the picker is cancelled. */
  function ChooseDestination(s: State, picked: Option<string>): State {
    if picked.Some? then s.(directory := picked) else s
  }

  datatype Event =
    | Click
    | Fire(i: nat)
    | DuplicateOf(source: Entry)
    | RenameTo(idx: int, name: string)
    | PickArchive(archive: Option<seq<Descriptor>>)
    | PickFolder(folder: Option<string>)

  /** A timer can fire only while it is set. */
  predicate Enabled(s: State, e: Event) {
    e.Fire? ==> e.i in s.pending
  }

  function Step(s: State, e: Event): State
    requires Enabled(s, e)
  {
    match e
    case Click => Toggle(s)
    case Fire(i) => Complete(s, i)
    case DuplicateOf(source) => Duplicate(s, source)
    case RenameTo(idx, name) => Rename(s, idx, name)
    case PickArchive(archive) => SelectArchive(s, archive)
    case PickFolder(folder) => ChooseDestination(s, folder)
  }

  /** Each event of `es` can happen in the state the earlier ones leave. */
  predicate RunEnabled(s: State, es: seq<Event>)
    decreases |es|
  {
    es == [] || (Enabled(s, es[0]) && RunEnabled(Step(s, es[0]), es[1..]))
  }

  function Run(s: State, es: seq<Event>): State
    requires RunEnabled(s, es)
    decreases |es|
  {
    if es == [] then s else Run(Step(s, es[0]), es[1..])
  }

  // ---------------------------------------------------------------------
  // What the button and the rows show

  /** The button's text, from its four conditions. */
  function Status(s: State): Label {
    if !s.uploading && !s.paused then Upload
    else if s.uploading && s.paused then Paused
    else if s.uploading && ProcessedCount(s.files) != |s.files| then Uploading
    else if s.uploading then Done
    else NoLabel
  }

  /** The mark beside an entry's row. */
  datatype Indicator = Spinner | Check | Blank

  function RowIndicator(s: State, e: Entry): Indicator {
    if s.uploading && !e.processed then Spinner
    else if s.uploading && e.processed then Check
    else Blank
  }

  // ---------------------------------------------------------------------
  // Properties of the button

  /** Without a destination a click reports it and changes nothing. */
  lemma ToggleWithoutDestination(s: State)
    requires !DestinationChosen(s.directory)
    ensures ActionOf(s) == MissingDestination
    ensures Toggle(s) == s
  {
  }

  /** The three branches of a click with a destination chosen. None of them
      touches the entries or the destination; starting and resuming set a
      timer for each unprocessed entry, pausing clears them all, whatever
      has been processed. */
  lemma ToggleCases(s: State)
    requires DestinationChosen(s.directory)
    ensures var t := Toggle(s);
            t.files == s.files && t.directory == s.directory && t.uploading
    ensures !s.uploading ==> var t := Toggle(s);
              t.paused == s.paused && t.pending == s.pending + Unprocessed(s.files)
    ensures Running(s) ==> var t := Toggle(s);
              t.paused && t.pending == {}
    ensures s.uploading && s.paused ==> var t := Toggle(s);
              !t.paused && t.pending == s.pending + Unprocessed(s.files)
  {
  }

  /** From a consistent state, starting and resuming schedule exactly the
      unprocessed entries. */
  lemma ToggleExact(s: State)
    requires Valid(s) && DestinationChosen(s.directory) && !Running(s)
    ensures Running(Toggle(s)) && Exact(Toggle(s))
  {
  }

  /** Clicking while every entry is processed pauses: the button then reads
      Paused, not Done. */
  lemma ToggleAtDonePauses(s: State)
    requires DestinationChosen(s.directory) && Status(s) == Done
    ensures Status(Toggle(s)) == Paused
    ensures Toggle(s).pending == {}
  {
  }

  // ---------------------------------------------------------------------
  // Invariants of every step

  /** Every step keeps the flags consistent. */
  lemma ValidStep(s: State, e: Event)
    requires Valid(s) && Enabled(s, e)
    ensures Valid(Step(s, e))
  {
  }

  /** Every step except picking a new archive keeps the timers on
      unprocessed entries of the batch; picking an archive keeps them so when
      no timer is set. */
  lemma ScheduledStep(s: State, e: Event)
    requires Scheduled(s) && Enabled(s, e)
    requires e.PickArchive? ==> s.pending == {}
    ensures Scheduled(Step(s, e))
  {
    var t := Step(s, e);
    match e
    case Click =>
      forall i | i in t.pending ensures i < |t.files| && !t.files[i].processed {
        if i !in s.pending {
          assert i in Unprocessed(s.files);
        }
      }
    case Fire(j) =>
    case DuplicateOf(source) =>
      forall i | i in t.pending ensures i < |t.files| && !t.files[i].processed {
        assert t.files[..|s.files|] == s.files;
        assert t.files[i] == t.files[..|s.files|][i];
      }
    case RenameTo(idx, name) =>
    case PickArchive(archive) =>
    case PickFolder(folder) =>
  }

  /** Once a transfer has started it is never undone. */
  lemma UploadingStep(s: State, e: Event)
    requires s.uploading && Enabled(s, e)
    ensures Step(s, e).uploading
  {
  }

  /** Only picking a new archive can take an entry's processed flag away: a
      processed entry stays in place and processed. */
  lemma ProcessedStep(s: State, e: Event, k: nat)
    requires Enabled(s, e) && !e.PickArchive?
    requires k < |s.files| && s.files[k].processed
    ensures k < |Step(s, e).files| && Step(s, e).files[k].processed
  {
    if e.DuplicateOf? {
      var t := Step(s, e);
      assert t.files[..|s.files|] == s.files;
      assert t.files[k] == t.files[..|s.files|][k];
    }
  }

  /** A completion changes exactly one entry's processed flag and takes
      exactly one timer away. */
  lemma CompleteChangesOneFlag(s: State, i: nat)
    requires Scheduled(s) && i in s.pending
    ensures var t := Complete(s, i);
            |t.files| == |s.files| && t.files[i] == s.files[i].(processed := true) &&
            (forall k :: 0 <= k < |s.files| && k != i ==> t.files[k] == s.files[k]) &&
            t.pending == s.pending - {i} &&
            t.uploading == s.uploading && t.paused == s.paused && t.directory == s.directory
    ensures ProcessedCount(Complete(s, i).files) == ProcessedCount(s.files) + 1
  {
    assert i in Unprocessed(s.files);
    MarkProcessedCounts(s.files, i);
  }

  // ---------------------------------------------------------------------
  // Runs

  /** The invariants of single steps, over a whole run. */
  lemma {:induction false} RunKeeps(s: State, es: seq<Event>)
    requires Valid(s) && RunEnabled(s, es)
    ensures Valid(Run(s, es))
    ensures s.uploading ==> Run(s, es).uploading
    decreases |es|
  {
    if es != [] {
      ValidStep(s, es[0]);
      if s.uploading {
        UploadingStep(s, es[0]);
      }
      RunKeeps(Step(s, es[0]), es[1..]);
    }
  }

  /** While paused, and until the next click, no timer is set, so no timer
      fires: the run only renames, duplicates, picks folders or archives,
      and the transfer stays paused with nothing pending. */
  lemma {:induction false} PausedRunHasNoCompletion(s: State, es: seq<Event>)
    requires Valid(s) && s.paused && RunEnabled(s, es)
    requires forall k :: 0 <= k < |es| ==> !es[k].Click?
    ensures forall k :: 0 <= k < |es| ==> !es[k].Fire?
    ensures Run(s, es).paused && Run(s, es).pending == {}
    decreases |es|
  {
    if es != [] {
      assert !es[0].Fire?;
      ValidStep(s, es[0]);
      forall k | 0 <= k < |es[1..]| ensures !es[1..][k].Click? {
        assert es[1..][k] == es[k + 1];
      }
      PausedRunHasNoCompletion(Step(s, es[0]), es[1..]);
      forall k | 1 <= k < |es| ensures !es[k].Fire? {
        assert es[1..][k - 1] == es[k];
      }
    }
  }

  // ---------------------------------------------------------------------
  // The button's label

  /** The four labels and the state each one stands for. */
  lemma StatusIff(s: State)
    ensures Status(s) == Upload <==> !s.uploading && !s.paused
    ensures Status(s) == Paused <==> s.uploading && s.paused
    ensures Status(s) == Uploading <==> Running(s) && !AllProcessed(s.files)
    ensures Status(s) == Done <==>
              Running(s) && forall k :: 0 <= k < |s.files| ==> s.files[k].processed
    ensures Status(s) == NoLabel <==> !s.uploading && s.paused
    ensures Valid(s) ==> Status(s) != NoLabel
  {
    AllProcessedIff(s.files);
  }

  /** A running transfer of an empty batch reads Done at once. */
  lemma EmptyBatchDone(s: State)
    requires Running(s) && s.files == []
    ensures Status(s) == Done
  {
  }

  /** When the label reads Done every row shows the check mark. */
  lemma DoneShowsChecks(s: State)
    requires Status(s) == Done
    ensures forall k :: 0 <= k < |s.files| ==> RowIndicator(s, s.files[k]) == Check
  {
    StatusIff(s);
  }

  /** While transferring with exactly the unprocessed entries scheduled, the
      label reads Done exactly when no timer is left. */
  lemma ExactDoneIff(s: State)
    requires Running(s) && Exact(s)
    ensures Status(s) == Done <==> s.pending == {}
  {
    UnprocessedEmptyIff(s.files);
  }

  /** A completion keeps the schedule exact. */
  lemma CompleteKeepsExact(s: State, i: nat)
    requires Exact(s) && i in s.pending
    ensures Exact(Complete(s, i))
  {
    MarkProcessedCounts(s.files, i);
  }

  /** The timer events for the indices in `order`. */
  function Fires(order: seq<nat>): (es: seq<Event>)
    ensures |es| == |order|
    ensures forall k :: 0 <= k < |order| ==> es[k] == Fire(order[k])
  {
    seq(|order|, k requires 0 <= k < |order| => Fire(order[k]))
  }

  /** Once a transfer is running with every unprocessed entry scheduled, the
      timers firing in any order, each once, bring the label to Done with
      every entry processed. */
  lemma {:induction false} AllFireReachesDone(s: State, order: seq<nat>)
    requires Running(s) && Exact(s)
    requires forall a, b :: 0 <= a < b < |order| ==> order[a] != order[b]
    requires s.pending == set k | k in order
    ensures RunEnabled(s, Fires(order))
    ensures Status(Run(s, Fires(order))) == Done
    ensures AllProcessed(Run(s, Fires(order)).files)
    decreases |order|
  {
    if order == [] {
      ExactDoneIff(s);
    } else {
      var i := order[0];
      var t := Complete(s, i);
      CompleteKeepsExact(s, i);
      var rest := order[1..];
      assert t.pending == set k | k in rest by {
        forall k ensures k in t.pending <==> k in rest {
          if k in rest {
            var a :| 0 <= a < |rest| && rest[a] == k;
            assert order[a + 1] == k;
          }
          if k in s.pending && k != i {
            assert k in order;
            var a :| 0 <= a < |order| && order[a] == k;
            assert a != 0;
            assert rest[a - 1] == k;
          }
        }
      }
      AllFireReachesDone(t, rest);
      assert Fires(order)[1..] == Fires(rest);
      assert Step(s, Fires(order)[0]) == t;
    }
  }

  // ---------------------------------------------------------------------
  // Duplicates made during a transfer

  /** An unprocessed copy made while running gets no timer: it is not
      scheduled until the next pause and resume. */
  lemma DuplicateNotScheduled(s: State, source: Entry)
    requires Running(s) && Exact(s) && !source.processed
    ensures var t := Duplicate(s, source);
            |s.files| !in t.pending && |s.files| in Unprocessed(t.files) && !Exact(t)
  {
  }

  /** In this model, where every event applies to the current list,
      neither a completion nor a later duplicate schedules or processes
      such an entry, so the label cannot reach Done until the next click.
      (The component itself drops the copy at the next firing instead,
      because each timer callback maps the list captured when it was set.) */
  lemma {:induction false} UnscheduledStaysUnprocessed(s: State, es: seq<Event>, n: nat)
    requires RunEnabled(s, es)
    requires n < |s.files| && !s.files[n].processed && n !in s.pending
    requires forall k :: 0 <= k < |es| ==> es[k].Fire? || es[k].DuplicateOf?
    ensures var t := Run(s, es);
            n < |t.files| && !t.files[n].processed && n !in t.pending && Status(t) != Done
    decreases |es|
  {
    if es == [] {
      StatusIff(s);
    } else {
      var t := Step(s, es[0]);
      if es[0].DuplicateOf? {
        assert t.files[..|s.files|] == s.files;
        assert t.files[n] == t.files[..|s.files|][n];
      }
      forall k | 0 <= k < |es[1..]| ensures es[1..][k].Fire? || es[1..][k].DuplicateOf? {
        assert es[1..][k] == es[k + 1];
      }
      UnscheduledStaysUnprocessed(t, es[1..], n);
    }
  }

  // ---------------------------------------------------------------------
  // A worked scenario

  /** Two unprocessed entries and a chosen folder: a click starts the
      transfer, a click before any timer fires pauses it with nothing
      processed, a click resumes, and once both timers fire the label reads
      Done with both entries processed. */
  lemma TwoEntryScenario(a: Entry, b: Entry, folder: string)
    requires !a.processed && !b.processed && folder != ""
    ensures var s0 := State([a, b], Some(folder), false, false, {});
            var s1 := Toggle(s0);
            var s2 := Toggle(s1);
            var s3 := Toggle(s2);
            Status(s0) == Upload && Status(s1) == Uploading && s1.pending == {0, 1} &&
            Status(s2) == Paused && ProcessedCount(s2.files) == 0 && s2.pending == {} &&
            Status(s3) == Uploading && s3.pending == {0, 1} &&
            RunEnabled(s3, [Fire(1), Fire(0)]) &&
            Status(Run(s3, [Fire(1), Fire(0)])) == Done &&
            Run(s3, [Fire(1), Fire(0)]).files == [a.(processed := true), b.(processed := true)]
  {
    var s0 := State([a, b], Some(folder), false, false, {});
    PairCounts(a, b);
    var s3 := Toggle(Toggle(Toggle(s0)));
    assert s3 == s0.(uploading := true, pending := {0, 1});
    PairFires(s3, a, b);
  }

  /** The count and the scheduled set of a two-entry batch. */
  lemma PairCounts(a: Entry, b: Entry)
    ensures ProcessedCount([a, b]) == (if a.processed then 1 else 0) + (if b.processed then 1 else 0)
    ensures !a.processed && !b.processed ==> Unprocessed([a, b]) == {0, 1}
  {
    assert [a, b][..1] == [a];
    assert [a][..0] == [];
  }

  lemma PairFires(s: State, a: Entry, b: Entry)
    requires s.files == [a, b] && s.pending == {0, 1} && Running(s)
    ensures RunEnabled(s, [Fire(1), Fire(0)])
    ensures Run(s, [Fire(1), Fire(0)]).files == [a.(processed := true), b.(processed := true)]
    ensures Status(Run(s, [Fire(1), Fire(0)])) == Done
  {
    var u := Complete(s, 1);
    assert u.files == [a, b.(processed := true)];
    var v := Complete(u, 0);
    assert v.files == [a.(processed := true), b.(processed := true)];
    assert [Fire(1), Fire(0)][1..] == [Fire(0)];
    assert [Fire(0)][1..] == [];
    assert Run(s, [Fire(1), Fire(0)]) == v;
    PairCounts(a.(processed := true), b.(processed := true));
  }
}
