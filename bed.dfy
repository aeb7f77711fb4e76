/** The interval index: `readBed` in main.go. Each row of the interval file
    names a chromosome, a start and an end; rows are grouped by canonical
    chromosome name and each group is sorted by start. */
module Bed {
  import opened Common
  import opened Text
  import opened Strconv
  import opened Bufio

  /** An interval `[start, end]`, both ends inclusive; `start <= end` is not
      checked anywhere. */
  datatype Interval = Interval(start: int, end: int)

  /** One parsed row: the canonical chromosome and its interval. */
  datatype Entry = Entry(chrom: string, span: Interval)

  /** Canonical chromosome name to its intervals. */
  type Index = map<string, seq<Interval>>

  predicate HasChrPrefix(s: string)
  {
    |s| >= 3 && s[..3] == "chr"
  }

  /** The canonical name: `chr` is prepended unless already there. */
  function Canonical(name: string): (c: string)
    ensures HasChrPrefix(c)
    ensures |c| >= |name| && c[|c| - |name|..] == name
  {
    if HasChrPrefix(name) then name else "chr" + name
  }

  /** Canonicalising twice changes nothing. */
  lemma CanonicalIdempotent(name: string)
    ensures Canonical(Canonical(name)) == Canonical(name)
  {
  }

  /** Two names share a bucket exactly when they are equal or one is the
      other with `chr` prepended to a name that lacked it, as `1` and `chr1`. */
  lemma SameBucket(a: string, b: string)
    ensures Canonical(a) == Canonical(b) <==>
      a == b || (a == "chr" + b && !HasChrPrefix(b)) || (b == "chr" + a && !HasChrPrefix(a))
  {
    if a == "chr" + b {
      assert a[..3] == "chr";
    }
    if b == "chr" + a {
      assert b[..3] == "chr";
    }
  }

  /** The program tests the raw row, not the first column, for the `chr`
      prefix. When the row has a tab after its first column and at least
      three characters, the two tests agree. */
  lemma RowPrefixIsColumnPrefix(row: string, line: string)
    requires line <= row && |row| >= 3
    requires |Split(line, '\t')| >= 2
    ensures (row[..3] == "chr") <==> HasChrPrefix(Split(line, '\t')[0])
  {
    var f := Split(line, '\t')[0];
    FirstField(line, '\t');
    if |f| >= 3 {
      assert row[..3] == line[..3] == f[..3];
    } else {
      assert row[|f|] == line[|f|] == '\t';
      assert row[..3][|f|] == '\t';
    }
  }

  /** One row of the interval file, terminator included, as the loop body of
      `readBed` handles it. A row shorter than three characters makes
      `row[0:3]` panic; a missing column panics; a column `Atoi` rejects is
      fatal. */
  function ParseBedRow(row: string): Result<Entry>
    requires |row| > 0
  {
    var record := Split(row[..|row| - 1], '\t');
    if |row| < 3 then Fail(SliceOutOfRange)
    else
      var chr := if row[..3] == "chr" then record[0] else "chr" + record[0];
      if |record| < 2 then Fail(IndexOutOfRange(1))
      else
        match Atoi(record[1])
        case None => Fail(NotAnInteger(record[1]))
        case Some(start) =>
          if |record| < 3 then Fail(IndexOutOfRange(2))
          else
            match Atoi(record[2])
            case None => Fail(NotAnInteger(record[2]))
            case Some(end) => Ok(Entry(chr, Interval(start, end)))
  }

  /** A row is accepted exactly when it has three columns and the second and
      third are integers; it then yields the canonical first column and
      `[start, end]`. */
  lemma ParseBedRowMeaning(row: string)
    requires |row| > 0
    ensures var fields := Split(row[..|row| - 1], '\t');
      ParseBedRow(row).Ok? <==>
        |fields| >= 3 && Atoi(fields[1]).Some? && Atoi(fields[2]).Some?
    ensures var fields := Split(row[..|row| - 1], '\t');
      ParseBedRow(row).Ok? ==>
        ParseBedRow(row).value ==
          Entry(Canonical(fields[0]), Interval(Atoi(fields[1]).value, Atoi(fields[2]).value))
  {
    var line := row[..|row| - 1];
    var fields := Split(line, '\t');
    if |fields| >= 3 {
      assert |row| >= 3;
      RowPrefixIsColumnPrefix(row, line);
    }
  }

  /** The entries of all rows, or the failure of the first row that fails.
      An empty row is skipped, as the loop's `row == ""` branch does. */
  function ParseBed(rows: seq<string>): Result<seq<Entry>>
  {
    if rows == [] then Ok([])
    else
      var row := rows[|rows| - 1];
      match ParseBed(rows[..|rows| - 1])
      case Fail(f) => Fail(f)
      case Ok(entries) =>
        if row == [] then Ok(entries)
        else
          match ParseBedRow(row)
          case Fail(f) => Fail(f)
          case Ok(e) => Ok(entries + [e])
  }

  /** One more row: skipped when empty, otherwise its entry is appended or
      its failure ends the parse. */
  lemma ParseBedSnoc(done: seq<string>, row: string)
    requires ParseBed(done).Ok?
    ensures row == [] ==> ParseBed(done + [row]) == ParseBed(done)
    ensures row != [] && ParseBedRow(row).Fail? ==> ParseBed(done + [row]) == Fail(ParseBedRow(row).failure)
    ensures row != [] && ParseBedRow(row).Ok? ==>
      ParseBed(done + [row]) == Ok(ParseBed(done).value + [ParseBedRow(row).value])
  {
    assert (done + [row])[..|done|] == done;
  }

  lemma ParseBedFailSnoc(rows: seq<string>, row: string)
    requires ParseBed(rows).Fail?
    ensures ParseBed(rows + [row]) == ParseBed(rows)
  {
    assert (rows + [row])[..|rows|] == rows;
  }

  /** A failure is final: rows after it do not change the outcome. */
  lemma {:induction false} ParseBedFailureSticks(rows: seq<string>, more: seq<string>)
    requires ParseBed(rows).Fail?
    ensures ParseBed(rows + more) == ParseBed(rows)
    decreases |more|
  {
    if more == [] {
      assert rows + more == rows;
    } else {
      var init, last := more[..|more| - 1], more[|more| - 1];
      ParseBedFailureSticks(rows, init);
      ParseBedFailSnoc(rows + init, last);
      assert rows + more == (rows + init) + [last];
    }
  }

  /** Adds one entry the way `readBed` does: a new list for an unseen
      chromosome, otherwise appended to its list. */
  function AddEntry(index: Index, e: Entry): Index
  {
    if e.chrom in index then index[e.chrom := index[e.chrom] + [e.span]]
    else index[e.chrom := [e.span]]
  }

  /** The index before sorting: every entry appended in file order. */
  function Group(entries: seq<Entry>): Index
  {
    if entries == [] then map[]
    else AddEntry(Group(entries[..|entries| - 1]), entries[|entries| - 1])
  }

  lemma GroupSnoc(entries: seq<Entry>, e: Entry)
    ensures Group(entries + [e]) == AddEntry(Group(entries), e)
  {
    assert (entries + [e])[..|entries|] == entries;
  }

  /** The intervals of the entries for `chrom`, in file order. */
  function SpansOf(entries: seq<Entry>, chrom: string): seq<Interval>
  {
    if entries == [] then []
    else
      var e := entries[|entries| - 1];
      SpansOf(entries[..|entries| - 1], chrom) + (if e.chrom == chrom then [e.span] else [])
  }

  /** The chromosomes the entries name. */
  function ChromsOf(entries: seq<Entry>): set<string>
  {
    set k | 0 <= k < |entries| :: entries[k].chrom
  }

  lemma ChromsOfSnoc(entries: seq<Entry>, e: Entry)
    ensures ChromsOf(entries + [e]) == ChromsOf(entries) + {e.chrom}
  {
    var all := entries + [e];
    forall c | c in ChromsOf(all) ensures c in ChromsOf(entries) + {e.chrom} {
      var k :| 0 <= k < |all| && all[k].chrom == c;
      if k < |entries| {
        assert entries[k] == all[k];
      }
    }
    forall c | c in ChromsOf(entries) ensures c in ChromsOf(all) {
      var k :| 0 <= k < |entries| && entries[k].chrom == c;
      assert all[k] == entries[k];
    }
    assert all[|entries|] == e;
  }

  /** Grouping keeps exactly the chromosomes read, gives each at least one
      interval, and lists for each exactly its intervals in file order. */
  lemma {:induction false} GroupIsFilter(entries: seq<Entry>)
    ensures Group(entries).Keys == ChromsOf(entries)
    ensures forall c :: c in Group(entries) ==> Group(entries)[c] == SpansOf(entries, c) != []
    ensures forall c :: c !in Group(entries) ==> SpansOf(entries, c) == []
  {
    if entries != [] {
      var init, e := entries[..|entries| - 1], entries[|entries| - 1];
      GroupIsFilter(init);
      assert entries == init + [e];
      ChromsOfSnoc(init, e);
    }
  }

  predicate SortedByStart(s: seq<Interval>)
  {
    forall i, j :: 0 <= i < j < |s| ==> s[i].start <= s[j].start
  }

  /** The index `readBed` returns for these entries: the grouped lists, each
      sorted by start in some order (`sort.Slice` is not stable, so the
      order of intervals with equal starts is left open). */
  ghost predicate IsIndexOf(index: Index, entries: seq<Entry>)
  {
    index.Keys == Group(entries).Keys &&
    forall c :: c in index ==>
      SortedByStart(index[c]) && multiset(index[c]) == multiset(Group(entries)[c])
  }

  /** An empty interval file parses to no entries, and the only index of
      no entries is the empty map. */
  lemma EmptyFileEmptyIndex(index: Index)
    ensures ParseBed(Rows("", '\n')) == Ok([])
    ensures IsIndexOf(index, []) ==> index == map[]
  {
    var i := RowsUnfold("", '\n');
  }

  /** Every chromosome of the index has an interval, so `arr[0]` exists. */
  predicate Populated(index: Index)
  {
    forall c :: c in index ==> |index[c]| > 0
  }

  /** The first interval of a chromosome's list was read for that chromosome
      and has the smallest start of all of them. */
  lemma IndexFirstIsLeast(index: Index, entries: seq<Entry>, c: string)
    requires IsIndexOf(index, entries) && c in index
    ensures |index[c]| > 0 && index[c][0] in SpansOf(entries, c)
    ensures forall iv :: iv in SpansOf(entries, c) ==> index[c][0].start <= iv.start
  {
    GroupIsFilter(entries);
    var s := index[c];
    assert multiset(s) == multiset(SpansOf(entries, c));
    assert |s| > 0 by {
      assert SpansOf(entries, c)[0] in multiset(SpansOf(entries, c));
    }
    assert s[0] in multiset(s);
    forall iv | iv in SpansOf(entries, c) ensures s[0].start <= iv.start {
      assert iv in multiset(s);
      var k :| 0 <= k < |s| && s[k] == iv;
    }
  }

  /** Every index built for some entries is populated. */
  lemma IndexPopulated(index: Index, entries: seq<Entry>)
    requires IsIndexOf(index, entries)
    ensures Populated(index)
  {
    forall c | c in index ensures |index[c]| > 0 {
      IndexFirstIsLeast(index, entries, c);
    }
  }

  /** The first `n` intervals of `s` are in order of start. */
  predicate SortedUpTo(s: seq<Interval>, n: int)
  {
    forall p, q :: 0 <= p < q < n && q < |s| ==> s[p].start <= s[q].start
  }

  /** Swapping two positions permutes the sequence. */
  lemma SwapKeepsMultiset(s: seq<Interval>, i: nat, j: nat)
    requires i < |s| && j < |s|
    ensures multiset(s[i := s[j]][j := s[i]]) == multiset(s)
  {
  }

  /** While `a[i]` travels left and sits at `j`: the first `i + 1` intervals
      are in order once `j` is left out, and the neighbours of `j` are in
      order with each other. */
  predicate Inserting(s: seq<Interval>, i: nat, j: nat)
  {
    j <= i < |s| &&
    (forall p, q :: 0 <= p < q <= i && q != j && p != j ==> s[p].start <= s[q].start) &&
    (forall q :: j < q <= i ==> s[j].start <= s[q].start) &&
    (0 < j < i ==> s[j - 1].start <= s[j + 1].start)
  }

  /** One swap of `a[i]` with a larger left neighbour keeps `Inserting`. */
  lemma InsertStep(s: seq<Interval>, i: nat, j: nat)
    requires Inserting(s, i, j) && 0 < j && s[j - 1].start > s[j].start
    ensures Inserting(s[j - 1 := s[j]][j := s[j - 1]], i, j - 1)
  {
    var t := s[j - 1 := s[j]][j := s[j - 1]];
    forall p, q | 0 <= p < q <= i && q != j - 1 && p != j - 1
      ensures t[p].start <= t[q].start
    {
      if q == j {
        assert t[q] == s[j - 1];
        if p < j - 1 {
          assert s[p].start <= s[j - 1].start;
        }
      } else if p == j {
        assert t[p] == s[j - 1];
        assert s[j - 1].start <= s[j + 1].start;
        assert s[j + 1].start <= s[q].start || q == j + 1;
      }
    }
  }

  /** Once `a[i]` meets a left neighbour no larger than itself, the first
      `i + 1` intervals are in order. */
  lemma InsertDone(s: seq<Interval>, i: nat, j: nat)
    requires Inserting(s, i, j) && (j == 0 || s[j - 1].start <= s[j].start)
    ensures SortedUpTo(s, i + 1)
  {
    forall p, q | 0 <= p < q < i + 1 && q < |s| ensures s[p].start <= s[q].start {
      if q == j {
        assert s[p].start <= s[j - 1].start || p == j - 1;
      }
    }
  }

  /** Moves `a[i]` left past every larger start, leaving `a[..i + 1]`
      sorted. */
  method InsertAt(a: array<Interval>, i: nat)
    requires i < a.Length && SortedUpTo(a[..], i)
    modifies a
    ensures SortedUpTo(a[..], i + 1)
    ensures multiset(a[..]) == multiset(old(a[..]))
  {
    var j: nat := i;
    while j > 0 && a[j - 1].start > a[j].start
      invariant Inserting(a[..], i, j)
      invariant multiset(a[..]) == multiset(old(a[..]))
    {
      ghost var before := a[..];
      InsertStep(before, i, j);
      SwapKeepsMultiset(before, j - 1, j);
      a[j - 1], a[j] := a[j], a[j - 1];
      assert a[..] == before[j - 1 := before[j]][j := before[j - 1]];
      j := j - 1;
    }
    InsertDone(a[..], i, j);
  }

  /** `sort.Slice(val, func(i, j) { val[i][0] < val[j][0] })`, by insertion. */
  method SortByStart(a: array<Interval>)
    modifies a
    ensures SortedByStart(a[..])
    ensures multiset(a[..]) == multiset(old(a[..]))
  {
    var i := 0;
    while i < a.Length
      invariant i <= a.Length
      invariant SortedUpTo(a[..], i)
      invariant multiset(a[..]) == multiset(old(a[..]))
    {
      InsertAt(a, i);
      i := i + 1;
    }
  }

  /** The final loop of `readBed`: sorts every chromosome's list. */
  method SortLists(ranges: Index) returns (sorted: Index)
    ensures sorted.Keys == ranges.Keys
    ensures forall c :: c in sorted ==>
      SortedByStart(sorted[c]) && multiset(sorted[c]) == multiset(ranges[c])
  {
    sorted := map[];
    var todo := ranges.Keys;
    while todo != {}
      invariant todo <= ranges.Keys
      invariant sorted.Keys == ranges.Keys - todo
      invariant forall c :: c in sorted ==>
        SortedByStart(sorted[c]) && multiset(sorted[c]) == multiset(ranges[c])
      decreases todo
    {
      var c :| c in todo;
      var spans := ranges[c];
      var a := new Interval[|spans|](k requires 0 <= k < |spans| => spans[k]);
      assert a[..] == spans;
      SortByStart(a);
      sorted := sorted[c := a[..]];
      todo := todo - {c};
    }
  }

  /** `readBed` over the contents of the interval file: reads rows until the
      end of the stream, stops the run on the first bad row, appends each
      interval to its chromosome's list and finally sorts every list. */
  method ReadBed(text: string) returns (r: Result<Index>)
    ensures var parsed := ParseBed(Rows(text, '\n'));
      (parsed.Fail? ==> r == Fail(parsed.failure)) &&
      (parsed.Ok? ==> r.Ok? && IsIndexOf(r.value, parsed.value))
  {
    var reader := new Reader(text);
    ghost var done: seq<string> := [];
    var ranges: Index := map[];
    while true
      invariant reader.Valid() && reader.text == text
      invariant done + Rows(reader.Rest(), '\n') == Rows(text, '\n')
      invariant ParseBed(done).Ok? && ranges == Group(ParseBed(done).value)
      decreases |reader.Rest()|
    {
      var row, eof := reader.ReadString('\n');
      if eof {
        break;
      }
      Regroup(done, [row], Rows(reader.Rest(), '\n'));
      if row == "" {
        ParseBedSnoc(done, row);
        done := done + [row];
        continue;
      }
      var parsed := ParseBedRow(row);
      ParseBedSnoc(done, row);
      if parsed.Fail? {
        ParseBedFailureSticks(done + [row], Rows(reader.Rest(), '\n'));
        return Fail(parsed.failure);
      }
      var e := parsed.value;
      if e.chrom !in ranges {
        ranges := ranges[e.chrom := [e.span]];
      } else {
        ranges := ranges[e.chrom := ranges[e.chrom] + [e.span]];
      }
      GroupSnoc(ParseBed(done).value, e);
      done := done + [row];
    }
    assert done == Rows(text, '\n');
    var sorted := SortLists(ranges);
    return Ok(sorted);
  }
}
