/** The component itself: an object whose fields are the state the
    component keeps, and whose methods are its event handlers. Each handler
    is proved to leave the object in the state the matching function of
    `Transfer` describes, so the properties proved there hold of it. */
module Component {
  import Naming
  import opened Batch
  import opened Transfer

  class FileUpload {
    var files: seq<Entry>
    var directory: Option<string>
    var uploading: bool
    var paused: bool
    var pending: set<nat>

    /** The fields as a value. */
    function Snapshot(): State
      reads this
    {
      State(files, directory, uploading, paused, pending)
    }

    predicate Valid()
      reads this
    {
      Transfer.Valid(Snapshot())
    }

    /** An empty batch, no destination, nothing transferring. */
    constructor()
      ensures Snapshot() == Initial
      ensures Valid()
    {
      files := [];
      directory := None;
      uploading := false;
      paused := false;
      pending := {};
    }

    /** The upload button. A missing destination is reported and changes
        nothing; otherwise the click pauses (clearing each timer), resumes
        or starts (setting a timer per unprocessed entry). */
    method Toggle() returns (action: Action)
      modifies this
      ensures action == ActionOf(old(Snapshot()))
      ensures Snapshot() == Transfer.Toggle(old(Snapshot()))
      ensures old(Valid()) ==> Valid()
    {
      action := ActionOf(Snapshot());
      if !DestinationChosen(directory) {
        return;
      }
      if uploading && !paused {
        paused := true;
        ClearTimers();
      } else if uploading && paused {
        paused := false;
        UploadFiles();
      } else {
        uploading := true;
        UploadFiles();
      }
      if old(Valid()) {
        ValidStep(old(Snapshot()), Click);
      }
    }

    /** Clears the timers one at a time. */
    method ClearTimers()
      modifies this
      ensures Snapshot() == old(Snapshot()).(pending := {})
    {
      while pending != {}
        invariant Snapshot() == old(Snapshot()).(pending := pending)
        decreases |pending|
      {
        var t :| t in pending;
        pending := pending - {t};
      }
    }

    /** Walks the batch in order and sets a timer for each entry not yet processed. */
    method UploadFiles()
      modifies this
      ensures Snapshot() == Schedule(old(Snapshot()))
    {
      var idx := 0;
      while idx < |files|
        invariant 0 <= idx <= |files|
        invariant Snapshot() == old(Snapshot()).(pending := old(pending) + Unprocessed(files[..idx]))
      {
        assert files[..idx + 1] == files[..idx] + [files[idx]];
        AppendCounts(files[..idx], files[idx]);
        if !files[idx].processed {
          pending := pending + {idx};
        }
        idx := idx + 1;
      }
      assert files[..idx] == files;
    }

    /** Timer `i` fires. */
    method Complete(i: nat)
      requires i in pending
      modifies this
      ensures Snapshot() == Transfer.Complete(old(Snapshot()), i)
      ensures old(Valid()) ==> Valid()
    {
      files := MarkProcessed(files, i);
      pending := pending - {i};
    }

    /** The Duplicate button on `source`: the clone gets the copy name
        against the current filenames and is appended. */
    method Duplicate(source: Entry)
      modifies this
      ensures Snapshot() == Transfer.Duplicate(old(Snapshot()), source)
      ensures old(Valid()) ==> Valid()
    {
      var stripped := Naming.Strip(source.filename);
      var name := Naming.NameFor(Filenames(files), Naming.Stem(stripped), Naming.Extension(stripped));
      var clone := source.(filename := name);
      files := files + [clone];
    }

    /** The Okay button of the rename box of entry `idx`. */
    method Rename(idx: int, name: string)
      modifies this
      ensures Snapshot() == Transfer.Rename(old(Snapshot()), idx, name)
      ensures old(Valid()) ==> Valid()
    {
      files := RenameAt(files, idx, name);
    }

    /** The archive input: the listed members replace the batch. */
    method SelectArchive(picked: Option<seq<Descriptor>>)
      modifies this
      ensures Snapshot() == Transfer.SelectArchive(old(Snapshot()), picked)
      ensures old(Valid()) ==> Valid()
    {
      if picked.Some? {
        files := BuildEntries(picked.value);
      }
    }

    /** The folder picker. */
    method ChooseDestination(picked: Option<string>)
      modifies this
      ensures Snapshot() == Transfer.ChooseDestination(old(Snapshot()), picked)
      ensures old(Valid()) ==> Valid()
    {
      if picked.Some? {
        directory := picked;
      }
    }
  }
}
