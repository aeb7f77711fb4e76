/** The header scan of `readVcf` in main.go: after the version line, the
    first variant file's rows are read until the column row `#CHROM`, and
    every `#` row met on the way is echoed. */
module Header {
  import opened Common
  import opened Text
  import opened Bufio

  /** The pattern the version line must contain; it has no regular
      expression metacharacters, so matching it is a substring test. */
  const VersionPattern: string := "##fileformat=VCFv4"

  /** The first column of the column row. */
  const ColumnRowName: string := "#CHROM"

  /** A row the scan echoes: one that starts with `#`. */
  predicate IsComment(row: string)
  {
    |row| > 0 && row[0] == '#'
  }

  /** The rows of `rows` that start with `#`, in order. */
  function Comments(rows: seq<string>): (r: seq<string>)
    ensures |r| <= |rows|
    ensures forall k :: 0 <= k < |r| ==> IsComment(r[k])
  {
    if rows == [] then []
    else (if IsComment(rows[0]) then [rows[0]] else []) + Comments(rows[1..])
  }

  /** The first column of a row once its last `numChars` characters, the
      line terminator, are dropped. */
  function FirstColumn(row: string, numChars: nat): string
    requires numChars <= |row|
  {
    Split(row[..|row| - numChars], '\t')[0]
  }

  /** A row that ends the scan: a non-empty row too short to drop the line
      terminator from (the slice panics), or the column row. */
  predicate Stops(row: string, numChars: nat)
  {
    row != "" && (|row| < numChars || FirstColumn(row, numChars) == ColumnRowName)
  }

  /** What the scan echoes, and why it stops: `None` when the column row was
      found, otherwise the failure that ends the run. */
  datatype Scan = Scan(printed: seq<string>, failure: Option<Failure>)

  /** The header loop over the rows after the version line. Empty rows are
      skipped, `#` rows are echoed, the column row ends the scan, and running
      out of rows is fatal. */
  function ScanHeader(rows: seq<string>, numChars: nat): (s: Scan)
    ensures forall k :: 0 <= k < |s.printed| ==> IsComment(s.printed[k])
    ensures s.failure != Some(NotVcf)
  {
    if rows == [] then Scan([], Some(NoHeader))
    else
      var row := rows[0];
      if row == "" then ScanHeader(rows[1..], numChars)
      else if |row| < numChars then Scan([], Some(SliceOutOfRange))
      else
        var shown := if row[0] == '#' then [row] else [];
        if FirstColumn(row, numChars) == ColumnRowName then Scan(shown, None)
        else
          var rest := ScanHeader(rows[1..], numChars);
          Scan(shown + rest.printed, rest.failure)
  }

  lemma CommentsOne(row: string)
    ensures Comments([row]) == if IsComment(row) then [row] else []
  {
    assert [row][1..] == [];
  }

  /** One step of the scan: how the row read first decides it. */
  lemma ScanHeaderCons(row: string, rest: seq<string>, numChars: nat)
    ensures var s, t := ScanHeader([row] + rest, numChars), ScanHeader(rest, numChars);
      (row == "" ==> s == t) &&
      (row != "" && |row| < numChars ==> s == Scan([], Some(SliceOutOfRange))) &&
      (row != "" && |row| >= numChars && FirstColumn(row, numChars) == ColumnRowName ==>
        s.failure == None && s.printed == if row[0] == '#' then [row] else []) &&
      (row != "" && |row| >= numChars && FirstColumn(row, numChars) != ColumnRowName ==>
        s.failure == t.failure && s.printed == if row[0] == '#' then [row] + t.printed else t.printed)
  {
    assert ([row] + rest)[0] == row && ([row] + rest)[1..] == rest;
    assert [] + ScanHeader(rest, numChars).printed == ScanHeader(rest, numChars).printed;
  }

  /** When row `k` is the first that ends the scan, the scan echoes every `#`
      row before it, and the column row itself; a row too short for the
      terminator instead stops the run unechoed. */
  lemma {:induction false} ScanHeaderStops(rows: seq<string>, numChars: nat, k: nat)
    requires k < |rows| && Stops(rows[k], numChars)
    requires forall j :: 0 <= j < k ==> !Stops(rows[j], numChars)
    ensures |rows[k]| < numChars ==>
      ScanHeader(rows, numChars) == Scan(Comments(rows[..k]), Some(SliceOutOfRange))
    ensures |rows[k]| >= numChars ==>
      ScanHeader(rows, numChars) == Scan(Comments(rows[..k + 1]), None)
    decreases k
  {
    if k == 0 {
      CommentsOne(rows[0]);
      assert rows[..1] == [rows[0]];
    } else {
      var tail := rows[1..];
      ScanHeaderStops(tail, numChars, k - 1);
      assert rows[..k][1..] == tail[..k - 1];
      assert rows[..k + 1][1..] == tail[..k];
      assert rows[..k][0] == rows[..k + 1][0] == rows[0];
    }
  }

  /** When no row ends the scan, every `#` row is echoed and the run stops
      for want of a header. */
  lemma {:induction false} ScanHeaderMissing(rows: seq<string>, numChars: nat)
    requires forall j :: 0 <= j < |rows| ==> !Stops(rows[j], numChars)
    ensures ScanHeader(rows, numChars) == Scan(Comments(rows), Some(NoHeader))
  {
    if rows != [] {
      ScanHeaderMissing(rows[1..], numChars);
    }
  }

  /** The scan succeeds exactly when some row is the column row and every
      row before it has room for the terminator. */
  lemma {:induction false} ScanHeaderFound(rows: seq<string>, numChars: nat)
    ensures ScanHeader(rows, numChars).failure == None <==>
      exists k :: 0 <= k < |rows| && Stops(rows[k], numChars) && |rows[k]| >= numChars &&
        forall j :: 0 <= j < k ==> !Stops(rows[j], numChars)
  {
    if rows != [] {
      ScanHeaderFound(rows[1..], numChars);
      var tail := rows[1..];
      if !Stops(rows[0], numChars) {
        if k :| (0 <= k < |tail| && Stops(tail[k], numChars) && |tail[k]| >= numChars &&
                 forall j :: 0 <= j < k ==> !Stops(tail[j], numChars))
        {
          assert Stops(rows[k + 1], numChars) && |rows[k + 1]| >= numChars;
          assert forall j :: 0 <= j < k + 1 ==> !Stops(rows[j], numChars) by {
            forall j | 0 <= j < k + 1 ensures !Stops(rows[j], numChars) {
              if j > 0 {
                assert rows[j] == tail[j - 1];
              }
            }
          }
        }
        if k :| (0 <= k < |rows| && Stops(rows[k], numChars) && |rows[k]| >= numChars &&
                 forall j :: 0 <= j < k ==> !Stops(rows[j], numChars))
        {
          assert k > 0;
          assert Stops(tail[k - 1], numChars) && |tail[k - 1]| >= numChars;
          assert forall j :: 0 <= j < k - 1 ==> !Stops(tail[j], numChars) by {
            forall j | 0 <= j < k - 1 ensures !Stops(tail[j], numChars) {
              assert tail[j] == rows[j + 1];
            }
          }
        }
      } else if |rows[0]| >= numChars {
        assert Stops(rows[0], numChars) && |rows[0]| >= numChars;
      }
    }
  }

  /** What the header step prints for `file`, and how it ends: nothing and
      a version failure when the version line lacks the pattern, otherwise
      the version line with a newline followed by what the scan echoes. */
  function HeaderOf(file: VcfFile): Scan
  {
    if !Contains(file.versionLine, VersionPattern) then Scan([], Some(NotVcf))
    else
      var scan := ScanHeader(Rows(file.text, file.eol), file.numChars);
      Scan([file.versionLine + "\n"] + scan.printed, scan.failure)
  }

  /** The header loop of `readVcf` (main.go:195-232) over the first variant
      file. `text` is the stream after the version line, `eol` the line
      terminator and `numChars` its length. The version line must contain
      `VersionPattern`; it is then printed with a newline, followed by the
      rows the scan echoes. */
  method ReadHeader(versionLine: string, text: string, eol: char, numChars: nat)
    returns (printed: seq<string>, failure: Option<Failure>)
    ensures !Contains(versionLine, VersionPattern) ==> printed == [] && failure == Some(NotVcf)
    ensures Contains(versionLine, VersionPattern) ==>
      var scan := ScanHeader(Rows(text, eol), numChars);
      printed == [versionLine + "\n"] + scan.printed && failure == scan.failure
    ensures Scan(printed, failure) == HeaderOf(VcfFile(versionLine, text, eol, numChars))
  {
    if !Contains(versionLine, VersionPattern) {
      return [], Some(NotVcf);
    }
    printed := [versionLine + "\n"];
    ghost var whole := ScanHeader(Rows(text, eol), numChars);
    var reader := new Reader(text);
    var foundHeader := false;
    while true
      invariant reader.Valid() && reader.text == text && !foundHeader
      invariant printed + ScanHeader(Rows(reader.Rest(), eol), numChars).printed ==
        [versionLine + "\n"] + whole.printed
      invariant ScanHeader(Rows(reader.Rest(), eol), numChars).failure == whole.failure
      decreases |reader.Rest()|
    {
      var row, eof := reader.ReadString(eol);
      if eof {
        break;
      }
      ghost var after := ScanHeader(Rows(reader.Rest(), eol), numChars);
      ScanHeaderCons(row, Rows(reader.Rest(), eol), numChars);
      if row == "" {
        continue;
      }
      if |row| < numChars {
        return printed, Some(SliceOutOfRange);
      }
      if row[0] == '#' {
        Regroup(printed, [row], after.printed);
        printed := printed + [row];
      }
      if FirstColumn(row, numChars) == ColumnRowName {
        foundHeader := true;
        break;
      }
    }
    if !foundHeader {
      failure := Some(NoHeader);
    } else {
      failure := None;
    }
  }
}
