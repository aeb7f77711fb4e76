/** The coordinator: `main` and `readVcf` in main.go. The interval index is
    built, the header of the first variant file is printed, every file is
    scanned and the consumer drains what the scans send. The workers run in
    file order and the consumer drains their messages afterwards, which is
    one of the interleavings the goroutines allow. */
module Pipeline {
  import opened Common
  import opened Text
  import opened Bed
  import opened Header
  import opened Records
  import opened Dedup

  /** The messages of the files in file order, up to the first failure. */
  function AllBatches(files: seq<VcfFile>, index: Index): (b: Batch)
    requires Populated(index)
  {
    if files == [] then Batch([], None)
    else
      var first := FileBatch(files[0], index);
      if first.failure.Some? then first
      else
        var rest := AllBatches(files[1..], index);
        Batch(first.msgs + rest.msgs, rest.failure)
  }

  /** One more file: its batch ends the run when it fails, otherwise its
      messages come before those of the files after it. */
  lemma AllBatchesCons(files: seq<VcfFile>, i: nat, index: Index)
    requires Populated(index) && i < |files|
    ensures var b, first, rest := AllBatches(files[i..], index), FileBatch(files[i], index), AllBatches(files[i + 1..], index);
      (first.failure.Some? ==> b == first) &&
      (first.failure.None? ==> b.msgs == first.msgs + rest.msgs && b.failure == rest.failure)
  {
    assert files[i..][0] == files[i] && files[i..][1..] == files[i + 1..];
  }

  /** When no file fails, every key a worker sends is seen, and nothing
      else. */
  lemma {:induction false} AllKeys(files: seq<VcfFile>, index: Index)
    requires Populated(index) && AllBatches(files, index).failure == None
    ensures forall key :: key in KeysOf(AllBatches(files, index).msgs) <==>
      exists k :: 0 <= k < |files| && key in KeysOf(FileBatch(files[k], index).msgs)
  {
    if files != [] {
      AllKeys(files[1..], index);
      var first := FileBatch(files[0], index).msgs;
      var rest := AllBatches(files[1..], index).msgs;
      forall key ensures key in KeysOf(first + rest) <==> key in KeysOf(first) || key in KeysOf(rest) {
        assert forall m :: m in first + rest <==> m in first || m in rest;
      }
      forall key ensures key in KeysOf(rest) <==>
        exists k :: 1 <= k < |files| && key in KeysOf(FileBatch(files[k], index).msgs)
      {
        if key in KeysOf(rest) {
          var k :| 0 <= k < |files| - 1 && key in KeysOf(FileBatch(files[1..][k], index).msgs);
          assert files[1..][k] == files[k + 1];
        }
        if k :| 1 <= k < |files| && key in KeysOf(FileBatch(files[k], index).msgs) {
          assert files[1..][k - 1] == files[k];
        }
      }
    }
  }

  /** The workers of `readVcf` (main.go:235-236), one per file, in file
      order; the run ends at the first file that fails. */
  method RunWorkers(files: seq<VcfFile>, index: Index) returns (msgs: seq<Msg>, failure: Option<Failure>)
    requires Populated(index)
    ensures msgs == AllBatches(files, index).msgs && failure == AllBatches(files, index).failure
  {
    ghost var all := AllBatches(files, index);
    assert files[0..] == files;
    msgs := [];
    failure := None;
    var i := 0;
    while i < |files|
      invariant i <= |files|
      invariant msgs + AllBatches(files[i..], index).msgs == all.msgs
      invariant AllBatches(files[i..], index).failure == all.failure
    {
      var sent, fileFailure := ProcessLines(files[i].versionLine, files[i].text, files[i].eol,
                                            files[i].numChars, index);
      AllBatchesCons(files, i, index);
      Regroup(msgs, sent, AllBatches(files[i + 1..], index).msgs);
      msgs := msgs + sent;
      if fileFailure.Some? {
        assert msgs + [] == msgs;
        return msgs, fileFailure;
      }
      i := i + 1;
    }
    assert files[i..] == [];
    assert msgs + [] == msgs;
  }

  /** `main` with `readVcf`: builds the index from the interval file, prints
      the first file's header, scans every file and drains the messages
      through the consumer. Returns the index used, what was printed, the
      final `seen` map and the failure that ended the run, if any. */
  method Run(bedText: string, files: seq<VcfFile>)
    returns (index: Index, printed: seq<string>, seen: map<string, int>, failure: Option<Failure>)
    requires |files| > 0
    ensures var bed := ParseBed(Rows(bedText, '\n'));
      bed.Fail? ==> printed == [] && seen == map[] && failure == Some(bed.failure)
    ensures var bed := ParseBed(Rows(bedText, '\n'));
      bed.Ok? ==> IsIndexOf(index, bed.value) && Populated(index)
    ensures var bed, header := ParseBed(Rows(bedText, '\n')), HeaderOf(files[0]);
      bed.Ok? && header.failure.Some? ==>
        printed == header.printed && seen == map[] && failure == header.failure
    ensures var bed, header := ParseBed(Rows(bedText, '\n')), HeaderOf(files[0]);
      bed.Ok? && header.failure.None? && Populated(index) ==>
        var all := AllBatches(files, index);
        printed == header.printed + Drain(all.msgs).out &&
        seen == Drain(all.msgs).seen && failure == all.failure
  {
    var bed := ReadBed(bedText);
    if bed.Fail? {
      return map[], [], map[], Some(bed.failure);
    }
    index := bed.value;
    IndexPopulated(index, ParseBed(Rows(bedText, '\n')).value);
    var first := files[0];
    var headerFailure;
    printed, headerFailure := ReadHeader(first.versionLine, first.text, first.eol, first.numChars);
    if headerFailure.Some? {
      return index, printed, map[], headerFailure;
    }
    var msgs;
    msgs, failure := RunWorkers(files, index);
    var out;
    seen, out := RunConsumer(msgs);
    printed := printed + out;
  }
}
