/** String operations the filter relies on: `strings.Split` on a one-character
    separator, the rows that repeated `ReadString` calls hand out, and the
    substring test used for the version line. */
module Text {

  /** `s` holds no `c`. */
  predicate Free(s: string, c: char)
  {
    forall k :: 0 <= k < |s| ==> s[k] != c
  }

  /** Position of the first `c` in `s` at or after `from`, or `|s|` when
      there is none. */
  function IndexFrom(s: string, c: char, from: nat): (i: nat)
    requires from <= |s|
    ensures from <= i <= |s| && (i < |s| ==> s[i] == c)
    ensures forall k :: from <= k < i ==> s[k] != c
    decreases |s| - from
  {
    if from == |s| || s[from] == c then from else IndexFrom(s, c, from + 1)
  }

  /** Position of the first `c` in `s`, or `|s|` when there is none. */
  function IndexOf(s: string, c: char): (i: nat)
    ensures i <= |s| && (i < |s| ==> s[i] == c) && Free(s[..i], c)
  {
    IndexFrom(s, c, 0)
  }

  /** Any position that holds the first `c`, or the end when there is no
      `c`, is the one `IndexOf` finds. */
  lemma IndexOfUnique(s: string, c: char, i: nat)
    requires i <= |s| && (i < |s| ==> s[i] == c)
    requires forall k :: 0 <= k < i ==> s[k] != c
    ensures IndexOf(s, c) == i
  {
  }

  /** `strings.Split(s, sep)`: the pieces between separators, in order. */
  function Split(s: string, sep: char): (fields: seq<string>)
    ensures 1 <= |fields| <= |s| + 1
    ensures forall k :: 0 <= k < |fields| ==> Free(fields[k], sep)
    decreases |s|
  {
    var i := IndexOf(s, sep);
    if i == |s| then [s] else [s[..i]] + Split(s[i + 1..], sep)
  }

  /** `strings.Join(parts, sep)`, the inverse of `Split`. */
  function Join(parts: seq<string>, sep: char): string
  {
    if |parts| == 0 then ""
    else if |parts| == 1 then parts[0]
    else parts[0] + [sep] + Join(parts[1..], sep)
  }

  /** One step of `Split`, returning where the first field ends. */
  lemma SplitUnfold(s: string, sep: char) returns (i: nat)
    ensures i == IndexOf(s, sep)
    ensures i < |s| ==> Split(s, sep) == [s[..i]] + Split(s[i + 1..], sep)
    ensures i == |s| ==> Split(s, sep) == [s]
  {
    i := IndexOf(s, sep);
  }

  lemma JoinCons(a: string, rest: seq<string>, sep: char)
    requires |rest| >= 1
    ensures Join([a] + rest, sep) == a + [sep] + Join(rest, sep)
  {
    assert ([a] + rest)[1..] == rest;
  }

  /** In `a + [sep] + b` with no `sep` in `a`, the first `sep` is the one
      after `a`. */
  lemma FirstSeparator(a: string, sep: char, b: string)
    requires Free(a, sep)
    ensures IndexOf(a + [sep] + b, sep) == |a|
    ensures (a + [sep] + b)[..|a|] == a && (a + [sep] + b)[|a| + 1..] == b
  {
    IndexOfUnique(a + [sep] + b, sep, |a|);
  }

  /** Joining the fields of a split gives back the original string. */
  lemma {:induction false} JoinSplit(s: string, sep: char)
    ensures Join(Split(s, sep), sep) == s
    decreases |s|
  {
    var i := SplitUnfold(s, sep);
    if i < |s| {
      var t := s[i + 1..];
      JoinSplit(t, sep);
      JoinCons(s[..i], Split(t, sep), sep);
      Regroup(s[..i], [sep] + Join(Split(t, sep), sep), []);
      assert s[..i] + [sep] + Join(Split(t, sep), sep) == s[..i] + ([sep] + t);
      assert [sep] + t == s[i..];
    }
  }

  /** Splitting a join of separator-free parts gives back the parts. */
  lemma {:induction false} SplitJoin(parts: seq<string>, sep: char)
    requires |parts| >= 1
    requires forall k :: 0 <= k < |parts| ==> Free(parts[k], sep)
    ensures Split(Join(parts, sep), sep) == parts
  {
    var s := Join(parts, sep);
    if |parts| == 1 {
      IndexOfUnique(s, sep, |s|);
      var i := SplitUnfold(s, sep);
    } else {
      var a, rest := parts[0], parts[1..];
      SplitJoin(rest, sep);
      JoinCons(a, rest, sep);
      assert parts == [a] + rest;
      FirstSeparator(a, sep, Join(rest, sep));
      var i := SplitUnfold(s, sep);
    }
  }

  /** The first field is a prefix of the string and, when there is a second
      field, is followed by the separator. */
  lemma FirstField(s: string, sep: char)
    ensures |Split(s, sep)[0]| <= |s| && s[..|Split(s, sep)[0]|] == Split(s, sep)[0]
    ensures |Split(s, sep)| >= 2 ==> |Split(s, sep)[0]| < |s| && s[|Split(s, sep)[0]|] == sep
  {
  }

  /** A row as `ReadString(delim)` returns it when it does not hit the end
      of the stream: non-empty, ending in `delim`, with no `delim` before. */
  predicate IsRow(row: string, delim: char)
  {
    |row| > 0 && row[|row| - 1] == delim && Free(row[..|row| - 1], delim)
  }

  /** The rows that `ReadString(delim)` yields before it reports end of
      stream; text after the last `delim` is not a row. */
  function Rows(s: string, delim: char): seq<string>
    decreases |s|
  {
    var i := IndexOf(s, delim);
    if i == |s| then [] else [s[..i + 1]] + Rows(s[i + 1..], delim)
  }

  /** Every row ends in the delimiter and holds no other. */
  lemma {:induction false} RowsAreRows(s: string, delim: char)
    ensures forall k :: 0 <= k < |Rows(s, delim)| ==> IsRow(Rows(s, delim)[k], delim)
    decreases |s|
  {
    var i := IndexOf(s, delim);
    if i < |s| {
      RowsAreRows(s[i + 1..], delim);
      assert s[..i + 1][..i] == s[..i];
      assert IsRow(s[..i + 1], delim);
    }
  }

  /** The row that starts at `p` of `text` ends at the first delimiter `j`
      after it. */
  lemma RowsFrom(text: string, delim: char, p: nat, j: nat)
    requires p <= j < |text| && text[j] == delim
    requires forall k :: p <= k < j ==> text[k] != delim
    ensures Rows(text[p..], delim) == [text[p..j + 1]] + Rows(text[j + 1..], delim)
  {
    var rest := text[p..];
    IndexOfUnique(rest, delim, j - p);
    assert rest[..j - p + 1] == text[p..j + 1];
    assert rest[j - p + 1..] == text[j + 1..];
  }

  /** No row starts at `p` of `text` when no delimiter follows it. */
  lemma RowsNone(text: string, delim: char, p: nat)
    requires p <= |text|
    requires forall k :: p <= k < |text| ==> text[k] != delim
    ensures Rows(text[p..], delim) == []
  {
    IndexOfUnique(text[p..], delim, |text| - p);
  }

  /** Concatenation is associative; moving a row from the rows still to
      read to the rows done keeps their concatenation. */
  lemma Regroup<T>(a: seq<T>, b: seq<T>, c: seq<T>)
    ensures (a + b) + c == a + (b + c)
  {
  }

  /** The unterminated text after the last `delim`, which no row carries. */
  function Fragment(s: string, delim: char): string
    decreases |s|
  {
    var i := IndexOf(s, delim);
    if i == |s| then s else Fragment(s[i + 1..], delim)
  }

  function Concat(rows: seq<string>): string
  {
    if rows == [] then "" else rows[0] + Concat(rows[1..])
  }

  lemma ConcatCons(r: string, rows: seq<string>)
    ensures Concat([r] + rows) == r + Concat(rows)
  {
    assert ([r] + rows)[1..] == rows;
  }

  /** One step of `Rows` and `Fragment`, returning where the first row ends. */
  lemma RowsUnfold(s: string, delim: char) returns (i: nat)
    ensures i == IndexOf(s, delim)
    ensures i < |s| ==> Rows(s, delim) == [s[..i + 1]] + Rows(s[i + 1..], delim)
    ensures i < |s| ==> Fragment(s, delim) == Fragment(s[i + 1..], delim)
    ensures i == |s| ==> Rows(s, delim) == [] && Fragment(s, delim) == s
  {
    i := IndexOf(s, delim);
  }

  /** The rows followed by the final fragment make up the whole stream, and
      the fragment holds no delimiter: the rows are everything up to the last
      delimiter and nothing after it. */
  lemma {:induction false} RowsCover(s: string, delim: char)
    ensures Concat(Rows(s, delim)) + Fragment(s, delim) == s
    ensures Free(Fragment(s, delim), delim)
    decreases |s|
  {
    var i := RowsUnfold(s, delim);
    if i == |s| {
      assert s[..i] == s;
    } else {
      var t := s[i + 1..];
      RowsCover(t, delim);
      ConcatCons(s[..i + 1], Rows(t, delim));
      Regroup(s[..i + 1], Concat(Rows(t, delim)), Fragment(t, delim));
      assert s[..i + 1] + s[i + 1..] == s;
    }
  }

  /** The rows are the only way to cut the stream into delimited rows plus a
      delimiter-free fragment. */
  lemma {:induction false} RowsUnique(s: string, delim: char, rows: seq<string>, frag: string)
    requires forall k :: 0 <= k < |rows| ==> IsRow(rows[k], delim)
    requires Free(frag, delim)
    requires Concat(rows) + frag == s
    ensures rows == Rows(s, delim) && frag == Fragment(s, delim)
    decreases |rows|
  {
    if rows == [] {
      assert s == frag;
      IndexOfUnique(s, delim, |s|);
    } else {
      var r := rows[0];
      var n := |r|;
      assert s == r + (Concat(rows[1..]) + frag);
      assert forall k :: 0 <= k < n ==> s[k] == r[k];
      assert forall k :: 0 <= k < n - 1 ==> r[k] == r[..n - 1][k];
      IndexOfUnique(s, delim, n - 1);
      assert s[..n] == r;
      assert s[n..] == Concat(rows[1..]) + frag;
      RowsUnique(s[n..], delim, rows[1..], frag);
      assert rows == [r] + rows[1..];
    }
  }

  /** The text `s` contains `pat` somewhere. */
  predicate Contains(s: string, pat: string)
    decreases |s|
  {
    pat <= s || (|s| > 0 && Contains(s[1..], pat))
  }

  /** `pat` occurs in `s` starting at position `i`. */
  predicate OccursAt(s: string, pat: string, i: int)
  {
    0 <= i <= |s| - |pat| && s[i..i + |pat|] == pat
  }

  /** `Contains` holds exactly when `pat` occurs at some position of `s`. */
  lemma {:induction false} ContainsAt(s: string, pat: string)
    ensures Contains(s, pat) <==> exists i :: OccursAt(s, pat, i)
    decreases |s|
  {
    if pat <= s {
      assert OccursAt(s, pat, 0);
    } else if |s| > 0 {
      ContainsAt(s[1..], pat);
      if Contains(s[1..], pat) {
        var i :| OccursAt(s[1..], pat, i);
        assert s[1..][i..i + |pat|] == s[i + 1..i + 1 + |pat|];
        assert OccursAt(s, pat, i + 1);
      }
      if i :| OccursAt(s, pat, i) {
        assert i != 0;
        assert s[1..][i - 1..i - 1 + |pat|] == s[i..i + |pat|];
        assert OccursAt(s[1..], pat, i - 1);
      }
    }
  }
}
