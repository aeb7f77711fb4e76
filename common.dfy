/** Values shared by every part of the filter: optional values, results that
    carry the reason the program aborts, and the message a worker sends to the
    consumer. */
module Common {

  datatype Option<T> = None | Some(value: T)

  /** The outcome of a step that either yields a value or aborts the run. */
  datatype Result<T> = Ok(value: T) | Fail(failure: Failure)

  /** Every way the program stops: a `log.Fatal` call or a Go runtime panic.
      All of them end the whole process; the model returns them instead. */
  datatype Failure =
    | SliceOutOfRange        // a string slice past the end of the row
    | IndexOutOfRange(index: nat)  // a column index past the last column
    | NotAnInteger(text: string)   // `strconv.Atoi` rejected a column
    | NotVcf                 // the version line does not name VCF version 4
    | NoHeader               // the stream ended before the `#CHROM` row

  /** What a worker publishes for a matching record: the variant key and the
      raw row, line terminator included. */
  datatype Msg = Msg(key: string, line: string)

  /** A variant file as the program sees it once the line terminator has
      been detected: the version line, the rest of the decompressed stream,
      the terminator's last byte and the terminator's length. */
  datatype VcfFile = VcfFile(versionLine: string, text: string, eol: char, numChars: nat)
}
