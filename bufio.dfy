/** The part of Go's buffered reader the filter uses: `ReadString(delim)`
    over a stream whose bytes are given up front. */
module Bufio {
  import opened Text

  class Reader {
    const text: string
    var pos: nat

    ghost predicate Valid()
      reads this
    {
      pos <= |text|
    }

    /** The part of the stream not read yet. */
    function Rest(): string
      reads this
      requires Valid()
    {
      text[pos..]
    }

    constructor (text: string)
      ensures Valid() && this.text == text && Rest() == text
    {
      this.text := text;
      pos := 0;
    }

    /** Reads up to and including the next `delim`. When the stream ends
        first, returns what is left with `eof` set, and the stream is spent. */
    method ReadString(delim: char) returns (row: string, eof: bool)
      requires Valid()
      modifies this
      ensures Valid()
      ensures eof <==> Rows(old(Rest()), delim) == []
      ensures eof ==> row == old(Rest()) && Rest() == []
      ensures !eof ==> [row] + Rows(Rest(), delim) == Rows(old(Rest()), delim)
      ensures !eof ==> |row| <= |old(Rest())| && row == old(Rest())[..|row|] && Rest() == old(Rest())[|row|..]
      ensures !eof ==> |Rest()| < |old(Rest())|
    {
      var j := FindDelim(delim);
      ghost var rest := text[pos..];
      if j == |text| {
        RowsNone(text, delim, pos);
        row, eof := text[pos..], true;
        pos := j;
        assert Rest() == [];
      } else {
        RowsFrom(text, delim, pos, j);
        row, eof := text[pos..j + 1], false;
        assert row == rest[..|row|] && text[j + 1..] == rest[|row|..];
        pos := j + 1;
        assert Rest() == text[j + 1..];
      }
    }

    /** Where the next `delim` at or after the read position lies, or the
        end of the stream when there is none. */
    method FindDelim(delim: char) returns (j: nat)
      requires Valid()
      ensures pos <= j <= |text|
      ensures j < |text| ==> text[j] == delim
      ensures forall k :: pos <= k < j ==> text[k] != delim
    {
      j := pos;
      while j < |text| && text[j] != delim
        invariant pos <= j <= |text|
        invariant forall k :: pos <= k < j ==> text[k] != delim
      {
        j := j + 1;
      }
    }
  }
}
