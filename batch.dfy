/** The entries of a batch: building them from the archive's member
    descriptors, renaming one, marking one processed, appending a copy, and
    the counts the status label and the timer loop read. */
module Batch {
  import Naming

  /** One file of the batch. */
  datatype Entry = Entry(filename: string, size: nat, processed: bool)

  /** What the archive reader reports for one member. */
  datatype Descriptor = Descriptor(filename: string, uncompressedSize: nat)

  // ---------------------------------------------------------------------
  // The initial batch

  /** An archive member as a batch entry that has not been transferred. */
  function NewEntry(d: Descriptor): Entry {
    Entry(d.filename, d.uncompressedSize, false)
  }

  /** One entry per descriptor, in the descriptors' order. */
  function NewBatch(descs: seq<Descriptor>): (entries: seq<Entry>)
    ensures |entries| == |descs|
    ensures forall k :: 0 <= k < |descs| ==>
              entries[k].filename == descs[k].filename &&
              entries[k].size == descs[k].uncompressedSize &&
              !entries[k].processed
    decreases |descs|
  {
    if descs == [] then []
    else NewBatch(descs[..|descs| - 1]) + [NewEntry(descs[|descs| - 1])]
  }

  /** The loop that pushes one entry per archive member. */
  method BuildEntries(descs: seq<Descriptor>) returns (entries: seq<Entry>)
    ensures entries == NewBatch(descs)
  {
    entries := [];
    var i := 0;
    while i < |descs|
      invariant 0 <= i <= |descs|
      invariant entries == NewBatch(descs[..i])
    {
      assert descs[..i + 1][..i] == descs[..i];
      entries := entries + [NewEntry(descs[i])];
      i := i + 1;
    }
    assert descs[..i] == descs;
  }

  /** The filenames of the batch, in order. */
  function Filenames(entries: seq<Entry>): (names: seq<string>)
    ensures |names| == |entries|
    ensures forall k :: 0 <= k < |entries| ==> names[k] == entries[k].filename
  {
    seq(|entries|, k requires 0 <= k < |entries| => entries[k].filename)
  }

  // ---------------------------------------------------------------------
  // Positional updates

  /** The list with entry `idx` renamed to `name`; any other index leaves it as it is. */
  function RenameAt(entries: seq<Entry>, idx: int, name: string): (r: seq<Entry>)
    ensures |r| == |entries|
    ensures forall k :: 0 <= k < |r| ==>
              r[k].size == entries[k].size && r[k].processed == entries[k].processed
    ensures forall k :: 0 <= k < |r| && k != idx ==> r[k] == entries[k]
    ensures 0 <= idx < |entries| ==> r[idx].filename == name
    ensures !(0 <= idx < |entries|) ==> r == entries
  {
    seq(|entries|, k requires 0 <= k < |entries| =>
      if k == idx then entries[k].(filename := name) else entries[k])
  }

  /** The list with entry `i` marked processed; any other index leaves it as it is. */
  function MarkProcessed(entries: seq<Entry>, i: int): (r: seq<Entry>)
    ensures |r| == |entries|
    ensures forall k :: 0 <= k < |r| ==>
              r[k].filename == entries[k].filename && r[k].size == entries[k].size
    ensures forall k :: 0 <= k < |r| && k != i ==> r[k] == entries[k]
    ensures 0 <= i < |entries| ==> r[i].processed
    ensures !(0 <= i < |entries|) ==> r == entries
  {
    seq(|entries|, k requires 0 <= k < |entries| =>
      if k == i then entries[k].(processed := true) else entries[k])
  }

  /** The copy of `source` appended to the batch: it keeps the source's size
      and processed flag and gets the name the naming rules give against the
      current filenames. */
  function AppendCopy(entries: seq<Entry>, source: Entry): (r: seq<Entry>)
    ensures |r| == |entries| + 1
    ensures r[..|entries|] == entries
    ensures r[|entries|].size == source.size && r[|entries|].processed == source.processed
    ensures r[|entries|].filename == Naming.CopyName(Filenames(entries), source.filename)
  {
    entries + [source.(filename := Naming.CopyName(Filenames(entries), source.filename))]
  }

  // ---------------------------------------------------------------------
  // Counts

  /** `files.filter(x => x.processed).length`. */
  function ProcessedCount(entries: seq<Entry>): (n: nat)
    ensures n <= |entries|
    decreases |entries|
  {
    if entries == [] then 0
    else
      ProcessedCount(entries[..|entries| - 1]) + (if entries[|entries| - 1].processed then 1 else 0)
  }

  /** Every entry has been transferred (true of the empty batch). */
  predicate AllProcessed(entries: seq<Entry>) {
    ProcessedCount(entries) == |entries|
  }

  /** The indices the timer loop schedules: those of the unprocessed entries. */
  function Unprocessed(entries: seq<Entry>): set<nat> {
    set k | 0 <= k < |entries| && !entries[k].processed
  }

  /** The count reaches the length exactly when every entry is processed. */
  lemma {:induction false} AllProcessedIff(entries: seq<Entry>)
    ensures AllProcessed(entries) <==> forall k :: 0 <= k < |entries| ==> entries[k].processed
    decreases |entries|
  {
    if entries != [] {
      var last := |entries| - 1;
      var prefix := entries[..last];
      AllProcessedIff(prefix);
      assert forall k :: 0 <= k < last ==> prefix[k] == entries[k];
    }
  }

  /** Nothing is left to schedule exactly when every entry is processed. */
  lemma UnprocessedEmptyIff(entries: seq<Entry>)
    ensures Unprocessed(entries) == {} <==> AllProcessed(entries)
  {
    AllProcessedIff(entries);
    if Unprocessed(entries) == {} {
      forall k | 0 <= k < |entries| ensures entries[k].processed {
        assert k !in Unprocessed(entries);
      }
    } else {
      var k :| k in Unprocessed(entries);
      assert !entries[k].processed;
    }
  }

  /** Appending one entry: the count and the scheduled set grow by that entry alone. */
  lemma AppendCounts(entries: seq<Entry>, x: Entry)
    ensures ProcessedCount(entries + [x]) == ProcessedCount(entries) + (if x.processed then 1 else 0)
    ensures Unprocessed(entries + [x]) == Unprocessed(entries) + (if x.processed then {} else {|entries|})
  {
    assert (entries + [x])[..|entries|] == entries;
    AppendUnprocessed(entries, x);
  }

  lemma AppendUnprocessed(entries: seq<Entry>, x: Entry)
    ensures Unprocessed(entries + [x]) == Unprocessed(entries) + (if x.processed then {} else {|entries|})
  {
    var r := entries + [x];
    forall k | 0 <= k < |entries| ensures r[k] == entries[k] {
    }
    assert r[|entries|] == x;
  }

  /** Marking an unprocessed entry raises the count by one and takes exactly
      its index out of the scheduled set. */
  lemma MarkProcessedCounts(entries: seq<Entry>, i: nat)
    requires i in Unprocessed(entries)
    ensures ProcessedCount(MarkProcessed(entries, i)) == ProcessedCount(entries) + 1
    ensures Unprocessed(MarkProcessed(entries, i)) == Unprocessed(entries) - {i}
  {
    MarkProcessedCount(entries, i);
    var r := MarkProcessed(entries, i);
    forall k ensures k in Unprocessed(r) <==> k in Unprocessed(entries) - {i} {
      if 0 <= k < |entries| && k != i {
        assert r[k] == entries[k];
      }
    }
  }

  lemma {:induction false} MarkProcessedCount(entries: seq<Entry>, i: nat)
    requires i < |entries| && !entries[i].processed
    ensures ProcessedCount(MarkProcessed(entries, i)) == ProcessedCount(entries) + 1
    decreases |entries|
  {
    var r := MarkProcessed(entries, i);
    var last := |entries| - 1;
    MarkProcessedPrefix(entries, i);
    assert ProcessedCount(r) == ProcessedCount(r[..last]) + (if r[last].processed then 1 else 0);
    if i < last {
      MarkProcessedCount(entries[..last], i);
      assert r[last] == entries[last];
    } else {
      MarkProcessedNoop(entries[..last], i);
    }
  }

  /** Marking commutes with dropping the last entry. */
  lemma MarkProcessedPrefix(entries: seq<Entry>, i: int)
    requires entries != []
    ensures MarkProcessed(entries, i)[..|entries| - 1] == MarkProcessed(entries[..|entries| - 1], i)
  {
  }

  /** Marking an entry that is already processed, or an index out of range, changes nothing. */
  lemma MarkProcessedNoop(entries: seq<Entry>, i: int)
    requires !(0 <= i < |entries|) || entries[i].processed
    ensures MarkProcessed(entries, i) == entries
  {
    var r := MarkProcessed(entries, i);
    if 0 <= i < |entries| {
      assert r[i] == entries[i];
    }
  }

  /** Renaming leaves the counts and the scheduled set as they are. */
  lemma {:induction false} RenameCounts(entries: seq<Entry>, idx: int, name: string)
    ensures ProcessedCount(RenameAt(entries, idx, name)) == ProcessedCount(entries)
    ensures Unprocessed(RenameAt(entries, idx, name)) == Unprocessed(entries)
    decreases |entries|
  {
    if entries != [] {
      var last := |entries| - 1;
      assert RenameAt(entries, idx, name)[..last] == RenameAt(entries[..last], idx, name);
      RenameCounts(entries[..last], idx, name);
    }
  }
}
