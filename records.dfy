/** The record filter of `processLines` in main.go: every variant row that
    passes, lies on an indexed chromosome and whose position the containment
    test accepts is published with its variant key. */
module Records {
  import opened Common
  import opened Text
  import opened Strconv
  import opened Bufio
  import opened Bed
  import opened Query
  import Header

  /** Column positions of a variant row (main.go:22-30). */
  const ChromIdx: nat := 0
  const PosIdx: nat := 1
  const RefIdx: nat := 3
  const AltIdx: nat := 4
  const FilterIdx: nat := 6

  /** The only filter status that lets a record through. */
  const Pass: string := "PASS"

  /** The variant key `chrom_pos_ref_alt`. */
  function Key(chrom: string, pos: string, ref: string, alt: string): string
  {
    chrom + "_" + pos + "_" + ref + "_" + alt
  }

  /** The key is the four parts joined by `_`. */
  lemma KeyIsJoin(chrom: string, pos: string, ref: string, alt: string)
    ensures Key(chrom, pos, ref, alt) == Join([chrom, pos, ref, alt], '_')
  {
    JoinCons(ref, [alt], '_');
    JoinCons(pos, [ref, alt], '_');
    assert [pos, ref, alt] == [pos] + [ref, alt];
    JoinCons(chrom, [pos, ref, alt], '_');
    assert [chrom, pos, ref, alt] == [chrom] + [pos, ref, alt];
  }

  /** When no part holds `_`, the key splits back into its four parts, so
      distinct records get distinct keys. */
  lemma KeyRoundTrip(chrom: string, pos: string, ref: string, alt: string)
    requires Free(chrom, '_') && Free(pos, '_') && Free(ref, '_') && Free(alt, '_')
    ensures Split(Key(chrom, pos, ref, alt), '_') == [chrom, pos, ref, alt]
  {
    KeyIsJoin(chrom, pos, ref, alt);
    SplitJoin([chrom, pos, ref, alt], '_');
  }

  /** Keys of `_`-free parts are equal only when all four parts are. */
  lemma KeyInjective(a: seq<string>, b: seq<string>)
    requires |a| == 4 && |b| == 4
    requires forall k :: 0 <= k < 4 ==> Free(a[k], '_') && Free(b[k], '_')
    requires Key(a[0], a[1], a[2], a[3]) == Key(b[0], b[1], b[2], b[3])
    ensures a == b
  {
    KeyRoundTrip(a[0], a[1], a[2], a[3]);
    KeyRoundTrip(b[0], b[1], b[2], b[3]);
  }

  /** What one row of a variant file leads to. */
  datatype Outcome = Skip | Publish(msg: Msg) | Abort(failure: Failure)

  /** The loop body of `processLines` (main.go:290-351) for one row, with
      the containment test in closed form. Empty and `#` rows are skipped;
      dropping the terminator panics on a row shorter than it; a row of fewer
      than seven columns panics on the filter column; non-`PASS` rows and
      chromosomes without intervals are skipped; a position `Atoi` rejects is
      fatal. Seven columns make the row at least six characters long, so the
      `row[0:3]` slice cannot fail here. */
  function MatchRecord(row: string, numChars: nat, index: Index): (o: Outcome)
    requires Populated(index)
  {
    if row == "" || row[0] == '#' then Skip
    else if |row| < numChars then Abort(SliceOutOfRange)
    else
      var record := Split(row[..|row| - numChars], '\t');
      if |record| <= FilterIdx then Abort(IndexOutOfRange(FilterIdx))
      else if record[FilterIdx] != Pass then Skip
      else
        var chrom := if row[..3] == "chr" then record[ChromIdx] else "chr" + record[ChromIdx];
        if chrom !in index then Skip
        else
          match Atoi(record[PosIdx])
          case None => Abort(NotAnInteger(record[PosIdx]))
          case Some(pos) =>
            if FirstIntervalHit(index[chrom], pos) then
              Publish(Msg(Key(chrom, record[PosIdx], record[RefIdx], record[AltIdx]), row))
            else Skip
  }

  /** A row is published exactly when it is a `PASS` data row of at least
      seven columns on an indexed chromosome (after canonicalisation) whose
      position parses and passes the containment test; the message is the
      key of the canonical chromosome, the raw position text, the reference
      and the alternate, with the row itself, terminator included. */
  lemma MatchRecordPublishes(row: string, numChars: nat, index: Index)
    requires Populated(index)
    ensures var o := MatchRecord(row, numChars, index);
      o.Publish? <==>
        row != "" && row[0] != '#' && numChars <= |row| &&
        var f := Split(row[..|row| - numChars], '\t');
        |f| > FilterIdx && f[FilterIdx] == Pass && Canonical(f[ChromIdx]) in index &&
        Atoi(f[PosIdx]).Some? && FirstIntervalHit(index[Canonical(f[ChromIdx])], Atoi(f[PosIdx]).value)
    ensures var o := MatchRecord(row, numChars, index);
      o.Publish? ==>
        var f := Split(row[..|row| - numChars], '\t');
        o.msg == Msg(Key(Canonical(f[ChromIdx]), f[PosIdx], f[RefIdx], f[AltIdx]), row)
  {
    if row != "" && row[0] != '#' && numChars <= |row| {
      var line := row[..|row| - numChars];
      if |Split(line, '\t')| > FilterIdx {
        assert |row| >= 3;
        RowPrefixIsColumnPrefix(row, line);
      }
    }
  }

  /** A row stops the run exactly when it is a data row too short for the
      terminator, or has fewer than seven columns, or is a `PASS` row on an
      indexed chromosome whose position `Atoi` rejects. */
  lemma MatchRecordAborts(row: string, numChars: nat, index: Index)
    requires Populated(index)
    ensures var o := MatchRecord(row, numChars, index);
      o.Abort? <==>
        row != "" && row[0] != '#' &&
        (numChars > |row| ||
         var f := Split(row[..|row| - numChars], '\t');
         |f| <= FilterIdx ||
         (f[FilterIdx] == Pass && Canonical(f[ChromIdx]) in index && Atoi(f[PosIdx]).None?))
  {
    if row != "" && row[0] != '#' && numChars <= |row| {
      var line := row[..|row| - numChars];
      if |Split(line, '\t')| > FilterIdx {
        assert |row| >= 3;
        RowPrefixIsColumnPrefix(row, line);
      }
    }
  }

  /** The loop body of `processLines` for one row. The chromosome column is
      overwritten in place with its canonical name, as the program does. */
  method ProcessRow(row: string, numChars: nat, index: Index) returns (o: Outcome)
    requires Populated(index)
    ensures o == MatchRecord(row, numChars, index)
  {
    if row == "" || row[0] == '#' {
      return Skip;
    }
    if |row| < numChars {
      return Abort(SliceOutOfRange);
    }
    var record := Split(row[..|row| - numChars], '\t');
    if |record| <= FilterIdx {
      return Abort(IndexOutOfRange(FilterIdx));
    }
    if record[FilterIdx] != Pass {
      return Skip;
    }
    if row[..3] != "chr" {
      record := record[ChromIdx := "chr" + record[ChromIdx]];
    }
    if record[ChromIdx] !in index {
      return Skip;
    }
    var arr := index[record[ChromIdx]];
    var pos := Atoi(record[PosIdx]);
    if pos.None? {
      return Abort(NotAnInteger(record[PosIdx]));
    }
    var hit := ScanIntervals(arr, pos.value);
    if hit {
      return Publish(Msg(Key(record[ChromIdx], record[PosIdx], record[RefIdx], record[AltIdx]), row));
    }
    return Skip;
  }

  /** What a worker sends before it stops, and why it stopped: `None` at the
      end of the stream, otherwise the failure that ends the run. */
  datatype Batch = Batch(msgs: seq<Msg>, failure: Option<Failure>)

  /** The messages of the rows in order, up to the first row that aborts. */
  function ScanRecords(rows: seq<string>, numChars: nat, index: Index): (b: Batch)
    requires Populated(index)
    ensures |b.msgs| <= |rows|
  {
    if rows == [] then Batch([], None)
    else
      match MatchRecord(rows[0], numChars, index)
      case Skip => ScanRecords(rows[1..], numChars, index)
      case Abort(f) => Batch([], Some(f))
      case Publish(m) =>
        var rest := ScanRecords(rows[1..], numChars, index);
        Batch([m] + rest.msgs, rest.failure)
  }

  /** One step of the scan: how the row read first decides it. */
  lemma ScanRecordsCons(row: string, rest: seq<string>, numChars: nat, index: Index)
    requires Populated(index)
    ensures var s, t := ScanRecords([row] + rest, numChars, index), ScanRecords(rest, numChars, index);
      var o := MatchRecord(row, numChars, index);
      (o.Skip? ==> s == t) &&
      (o.Abort? ==> s == Batch([], Some(o.failure))) &&
      (o.Publish? ==> s.msgs == [o.msg] + t.msgs && s.failure == t.failure)
  {
    assert ([row] + rest)[0] == row && ([row] + rest)[1..] == rest;
  }

  /** Every message sent is the message of some row: message `i` comes
      from row `k`. */
  lemma {:induction false} ScanRecordsSound(rows: seq<string>, numChars: nat, index: Index, i: nat)
    returns (k: nat)
    requires Populated(index) && i < |ScanRecords(rows, numChars, index).msgs|
    ensures k < |rows| && MatchRecord(rows[k], numChars, index) == Publish(ScanRecords(rows, numChars, index).msgs[i])
  {
    var o := MatchRecord(rows[0], numChars, index);
    var msgs := ScanRecords(rows, numChars, index).msgs;
    var tail := ScanRecords(rows[1..], numChars, index).msgs;
    if o.Publish? && i == 0 {
      k := 0;
    } else {
      var j := if o.Publish? then i - 1 else i;
      assert j < |tail| && msgs[i] == tail[j];
      var k' := ScanRecordsSound(rows[1..], numChars, index, j);
      k := k' + 1;
      assert rows[1..][k'] == rows[k];
    }
  }

  /** When no row aborts, every row's message is sent. */
  lemma {:induction false} ScanRecordsComplete(rows: seq<string>, numChars: nat, index: Index)
    requires Populated(index)
    ensures var b := ScanRecords(rows, numChars, index);
      b.failure == None ==>
        forall k :: 0 <= k < |rows| && MatchRecord(rows[k], numChars, index).Publish? ==>
          MatchRecord(rows[k], numChars, index).msg in b.msgs
  {
    if rows != [] {
      ScanRecordsComplete(rows[1..], numChars, index);
      var b := ScanRecords(rows, numChars, index);
      if b.failure == None {
        forall k | 0 <= k < |rows| && MatchRecord(rows[k], numChars, index).Publish?
          ensures MatchRecord(rows[k], numChars, index).msg in b.msgs
        {
          if k > 0 {
            assert rows[k] == rows[1..][k - 1];
          }
        }
      }
    }
  }

  /** The scan stops with a failure exactly when some row aborts, and the
      failure is that of the first such row. */
  lemma {:induction false} ScanRecordsAborts(rows: seq<string>, numChars: nat, index: Index, k: nat)
    requires Populated(index)
    requires k < |rows| && MatchRecord(rows[k], numChars, index).Abort?
    requires forall j :: 0 <= j < k ==> !MatchRecord(rows[j], numChars, index).Abort?
    ensures ScanRecords(rows, numChars, index).failure == Some(MatchRecord(rows[k], numChars, index).failure)
    decreases k
  {
    if k > 0 {
      ScanRecordsAborts(rows[1..], numChars, index, k - 1);
    }
  }

  /** No row aborts, so the scan runs to the end of the stream. */
  lemma {:induction false} ScanRecordsFinishes(rows: seq<string>, numChars: nat, index: Index)
    requires Populated(index)
    requires forall j :: 0 <= j < |rows| ==> !MatchRecord(rows[j], numChars, index).Abort?
    ensures ScanRecords(rows, numChars, index).failure == None
  {
    if rows != [] {
      ScanRecordsFinishes(rows[1..], numChars, index);
    }
  }

  /** One row of the loop of main.go:289-351, stated as its effect on the
      scan of the rows from this one on. */
  method ScanStep(row: string, ghost rest: seq<string>, numChars: nat, index: Index) returns (o: Outcome)
    requires Populated(index)
    ensures var s, t := ScanRecords([row] + rest, numChars, index), ScanRecords(rest, numChars, index);
      (o.Skip? ==> s == t) &&
      (o.Abort? ==> s == Batch([], Some(o.failure))) &&
      (o.Publish? ==> s.msgs == [o.msg] + t.msgs && s.failure == t.failure)
  {
    ScanRecordsCons(row, rest, numChars, index);
    o := ProcessRow(row, numChars, index);
  }

  /** What the worker for `file` sends, and how it ends: nothing and a
      version failure when the version line lacks the pattern, otherwise
      the scan of the rows after it. */
  function FileBatch(file: VcfFile, index: Index): Batch
    requires Populated(index)
  {
    if !Contains(file.versionLine, Header.VersionPattern) then Batch([], Some(NotVcf))
    else ScanRecords(Rows(file.text, file.eol), file.numChars, index)
  }

  /** `processLines` for one variant file (main.go:283-351). `text` is the
      stream after the version line, `eol` the line terminator and
      `numChars` its length. The version line must contain the version
      pattern; then every row is read and handled until the stream ends or a
      row aborts the run. */
  method ProcessLines(versionLine: string, text: string, eol: char, numChars: nat, index: Index)
    returns (msgs: seq<Msg>, failure: Option<Failure>)
    requires Populated(index)
    ensures !Contains(versionLine, Header.VersionPattern) ==> msgs == [] && failure == Some(NotVcf)
    ensures Contains(versionLine, Header.VersionPattern) ==>
      var b := ScanRecords(Rows(text, eol), numChars, index);
      msgs == b.msgs && failure == b.failure
    ensures Batch(msgs, failure) == FileBatch(VcfFile(versionLine, text, eol, numChars), index)
  {
    if !Contains(versionLine, Header.VersionPattern) {
      return [], Some(NotVcf);
    }
    msgs := [];
    var reader := new Reader(text);
    ghost var left := ScanRecords(Rows(text, eol), numChars, index);
    ghost var whole := left;
    while true
      invariant reader.Valid() && reader.text == text
      invariant left == ScanRecords(Rows(reader.Rest(), eol), numChars, index)
      invariant msgs + left.msgs == whole.msgs && left.failure == whole.failure
      decreases |reader.Rest()|
    {
      var row, eof := reader.ReadString(eol);
      if eof {
        break;
      }
      ghost var after := ScanRecords(Rows(reader.Rest(), eol), numChars, index);
      var o := ScanStep(row, Rows(reader.Rest(), eol), numChars, index);
      if o.Abort? {
        return msgs, Some(o.failure);
      } else if o.Publish? {
        Regroup(msgs, [o.msg], after.msgs);
        msgs := msgs + [o.msg];
      }
      left := after;
    }
    failure := None;
  }
}
