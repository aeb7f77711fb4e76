# A verified model of a VCF-by-BED interval filter

The program (`main.go`) reads a BED-like interval file and one or more
gzip-compressed VCF files. It prints the header of the first VCF file and
then every `PASS` record whose position passes the program's containment
test, once per variant key `chrom_pos_ref_alt`. In effect that test asks
whether the position lies inside the first interval of its chromosome's
sorted list and not past the last interval's end (see Containment below),
not whether it lies in any interval.

This Dafny project models the sequential core of that program:

- **Interval index** (`readBed`, module `Bed`). The rows of the interval file
  are read with `ReadString('\n')` and split on tabs. The chromosome is made
  canonical by prefixing `chr` when the row does not start with `chr`. Start
  and end are parsed with `strconv.Atoi`, and each interval is appended to its
  chromosome's list. Every list is then sorted by start.
- **Header scan** (the header loop of `readVcf`, module `Header`). The
  version line must contain `##fileformat=VCFv4`. It is printed, then every
  `#` row up to and including the `#CHROM` column row.
- **Record filter** (the loop of `processLines`, modules `Query` and
  `Records`). Empty and `#` rows are skipped, and so are non-`PASS` rows and
  chromosomes without intervals. The position is parsed and put through the
  bound check and the containment loop. On a hit the key and the raw row are
  sent to the consumer.
- **Consumer** (the closure in `main`, module `Dedup`). A class with the
  `seen` map and the printed lines. A line is printed when its key's count is
  0.
- **Coordinator** (`main` with `readVcf`, module `Pipeline`). It builds the
  index, prints the header of the first file, runs one worker per file and
  drains the results through the consumer.

Supporting modules model the Go library calls the core relies on:

- `Text`: `strings.Split` and the rows `bufio.Reader.ReadString` yields.
- `Bufio`: a reader class with `ReadString`.
- `Strconv`: `strconv.Atoi` on a 64-bit platform.

Every `log.Fatal` call and every runtime panic of the core becomes a
`Failure` value:

| Failure | Cause |
|---|---|
| `SliceOutOfRange` | `row[0:3]` on a short row, or dropping more terminator characters than the row has |
| `IndexOutOfRange(i)` | a missing column |
| `NotAnInteger(text)` | `Atoi` rejected a column |
| `NotVcf` | the version line check failed |
| `NoHeader` | no `#CHROM` row was found |

The model follows the code where the code's own shape suggests another
intent:

- **Containment.** The loop over the sorted intervals has an early exit
  (main.go:348), the shape of a search for any interval holding the
  position. After the bound check, though, it only ever looks at the first
  interval, and the bound check uses the last interval's end, which need not
  be the largest (see Findings).
- **Counts.** The final report prints "Saw %s %d times" for every key
  (main.go:66-67), which suggests a count of arrivals. The code increments
  the count only when it is 0, so every count stays 1 (see Findings).
- **Header scan.** Rows before `#CHROM` that do not start with `#` are
  neither printed nor rejected; the scan continues past them.
- **Workers.** A worker does not skip the header block as such, only rows
  starting with `#`.
- **Completion.** The coordinator waits for `concurrency` (16) completion
  signals, not one per file. That is left out with the rest of the
  concurrency.

## Model

| member | source | states |
|---|---|---|
| Text.Split | main.go:108 | `strings.Split` on one character: at least one field, none containing the separator |
| Text.JoinSplit | main.go:108 | joining the fields of a split with the separator gives back the row |
| Text.SplitJoin | main.go:108 | splitting a join of separator-free parts gives back the parts |
| Text.FirstField | main.go:110 | the first field is a prefix of the row, followed by the separator when a second field exists |
| Text.RowsAreRows | main.go:95-104 | the rows `Text.Rows` hands out (the successive results of `ReadString`) each end in the delimiter and hold no other |
| Text.RowsCover | main.go:95-104 | the rows followed by the delimiter-free final fragment make up the whole stream, so only text after the last delimiter is dropped at end of stream |
| Text.RowsUnique | main.go:95-104 | the rows are the only way to cut the stream into delimited rows plus a delimiter-free fragment |
| Text.ContainsAt | main.go:185 | `Text.Contains`, the model of `regexp.MatchString` for this pattern, holds exactly when the pattern occurs at some position |
| Bufio.Reader.FindDelim | main.go:95 | the first delimiter at or after the read position, or the end of the stream when there is none |
| Bufio.Reader.ReadString | main.go:95 | returns the next row including its delimiter and advances past it; at end of stream reports EOF with the unterminated rest, and the stream is spent |
| Strconv.Atoi | main.go:121-131 | an accepted column starts with a digit or a sign, and its value lies in the 64-bit range |
| Strconv.AtoiMeaning | main.go:121-131 | `Atoi` accepts a column with value `n` exactly when it is an optional `+` or `-` followed by one or more digits spelling `n` (leading zeros allowed), and `n` fits in 64 bits |
| Strconv.CarriageReturnRejected | main.go:121-131 | a column ending in a carriage return is rejected, so an interval row with `\r\n` line end whose end column is its last fails the run |
| Strconv.AtoiItoa | main.go:121-131 | `Atoi` reads back every 64-bit integer written in decimal |
| Bed.Canonical | main.go:110-119 | the canonical name starts with `chr` and ends with the original name |
| Bed.CanonicalIdempotent | main.go:110-119 | canonicalising twice changes nothing |
| Bed.SameBucket | main.go:110-119 | two names share a bucket exactly when equal, or one is the other with `chr` prepended to a name lacking it (`1` and `chr1`) |
| Bed.RowPrefixIsColumnPrefix | main.go:110 | testing the raw row for `chr`, as the code does, agrees with testing the first column whenever a second column exists |
| Bed.ParseBedRowMeaning | main.go:106-131 | `Bed.ParseBedRow`, one row of the loop: a row is accepted exactly when it has three columns with integer start and end, and yields the canonical first column with `[start, end]` |
| Bed.ParseBedFailureSticks | main.go:121-131 | for `Bed.ParseBed`, the loop over all rows: the first failing row decides the outcome whatever rows follow it |
| Bed.GroupIsFilter | main.go:133-137 | `Bed.Group`, built by `Bed.AddEntry` one row at a time, keeps exactly the chromosomes read, and each list holds exactly that chromosome's intervals in file order |
| Bed.InsertStep | main.go:140-144 | one swap of the insertion step keeps the partly sorted shape |
| Bed.InsertDone | main.go:140-144 | once the moving interval meets a smaller start, the prefix is sorted |
| Bed.InsertAt | main.go:140-144 | inserting the next interval leaves one more sorted prefix and permutes the list |
| Bed.SortByStart | main.go:140-144 | `sort.Slice` by start, in place: the array ends sorted by start and a permutation of its old contents |
| Bed.SortLists | main.go:140-144 | every chromosome's list is sorted by start and a permutation of the list read |
| Bed.ReadBed | main.go:82-146 | the first failing row's failure is the result; otherwise the index has exactly the chromosomes read, each list sorted by start and a permutation of its intervals |
| Bed.EmptyFileEmptyIndex | main.go:82-146 | an empty interval file yields the empty index |
| Bed.IndexFirstIsLeast | main.go:140-144 | the first interval of a list was read for that chromosome and has the least start |
| Bed.IndexPopulated | main.go:133-137 | every chromosome in the index has at least one interval, so `arr[0]` exists |
| Header.Comments | main.go:219-221 | the echoed rows all start with `#` and are no more than the rows read |
| Header.ScanHeader | main.go:198-232 | everything the scan prints starts with `#`, and it never reports a version failure |
| Header.ScanHeaderStops | main.go:198-232 | at the first row that ends the scan: the column row ends it successfully after echoing every `#` row up to and including itself; a row shorter than the terminator panics with only the earlier `#` rows echoed |
| Header.ScanHeaderMissing | main.go:198-232 | with no column row, every `#` row is echoed and the run fails with no header |
| Header.ScanHeaderFound | main.go:198-232 | the scan succeeds exactly when a column row exists and no earlier row is too short for the terminator |
| Header.ReadHeader | main.go:185-232 | a version line without the pattern fails with nothing printed; otherwise the version line and newline are printed, followed by what the scan echoes, with the scan's outcome; together these are `Header.HeaderOf`, the header step as a function of the file |
| Query.StopIndex | main.go:335-351 | where the containment loop stops: every interval passed starts beyond the position, and the one it stops at starts at or before it or ends before it |
| Query.ContainmentLoop | main.go:335-351 | the loop reports a hit exactly when the interval it stops at holds the position |
| Query.ScanIntervals | main.go:331-351 | bound check plus loop hit exactly when the first interval holds the position and the position is not past the last interval's end |
| Query.HitIsSound | main.go:331-351 | every hit is a genuine containment |
| Query.OutsideBoundsMiss | main.go:331-333 | a position before the first start or after the last end is never a hit |
| Query.SingleInterval | main.go:331-351 | with one interval the test is exactly containment |
| Query.LaterIntervalMissed | main.go:331-351 | with sorted intervals `[100,200]`, `[300,400]`, position 350 lies in an interval and is not a hit |
| Query.LastEndBoundSkips | main.go:331-333 | with sorted intervals `[100,500]`, `[200,300]`, position 400 lies in the first interval and is still skipped by the bound check on the last end |
| Query.ScanSorted | main.go:335-351 | over a list sorted by start, the scan that stops at the first start beyond the position hits exactly when some interval holds it |
| Records.KeyIsJoin | main.go:337-344 | `Records.Key` is chromosome, position text, reference and alternate joined by `_` |
| Records.KeyRoundTrip | main.go:337-344 | a key of `_`-free parts splits back into the four parts |
| Records.KeyInjective | main.go:337-344 | keys of `_`-free parts are equal only when all four parts are |
| Records.MatchRecordPublishes | main.go:296-347 | `Records.MatchRecord`, the loop body in closed form: a row is published exactly when it is a non-empty, non-`#`, `PASS` row of at least seven columns on an indexed canonical chromosome whose position parses and passes the containment test; the message is the canonical key with the raw row, terminator included |
| Records.MatchRecordAborts | main.go:296-329 | a row stops the run exactly when it is a data row too short for the terminator, lacks the filter column, or is a `PASS` row on an indexed chromosome whose position does not parse |
| Records.ProcessRow | main.go:290-351 | the loop body for one row, with the chromosome column overwritten by its canonical name, decides as the closed-form filter does |
| Records.ScanStep | main.go:290-351 | handling one row leaves the rest of the stream's scan unchanged when skipped, ends the run with the row's failure when it aborts, and puts the row's message in front when it publishes |
| Records.ScanRecords | main.go:289-352 | a worker sends at most one message per row |
| Records.ScanRecordsSound | main.go:289-352 | every message sent is the message of some row |
| Records.ScanRecordsComplete | main.go:289-352 | when no row aborts, every row's message is sent |
| Records.ScanRecordsAborts | main.go:289-352 | the worker stops with the failure of the first row that aborts |
| Records.ScanRecordsFinishes | main.go:289-352 | with no aborting row the worker runs to the end of the stream |
| Records.ProcessLines | main.go:283-352 | a version line without the pattern fails with nothing sent; otherwise the messages and outcome are those of the rows after the version line; together these are `Records.FileBatch`, the worker as a function of the file |
| Dedup.Consumer.Consume | main.go:59-64 | the new state is `Dedup.Step` (the closure as written) of the old one: prints the line and sets the count to 1 when the key's count is 0, otherwise changes nothing |
| Dedup.Consumer.ConsumeCounting | main.go:59-68 | prints on a count of 0 as `Consume` does, and increments the count on every arrival |
| Dedup.RunConsumer | main.go:240-245 | draining the messages in order yields the state of the consumer after each of them |
| Dedup.DrainPrintsFirstArrivals | main.go:58-64 | for `Dedup.Drain`, the closure applied to every message in order: the keys seen are exactly the keys received, each with count 1, and the printed lines are those of the first message of each key, in arrival order |
| Dedup.FirstArrivalsDistinct | main.go:58-64 | the printed messages carry pairwise distinct keys covering all keys received: each key is printed exactly once |
| Dedup.FirstArrivalsAreFirst | main.go:58-64 | each printed message is the earliest carrying its key: the first arrival wins |
| Dedup.SeenIgnoresOrder | main.go:58-64 | the final `seen` map does not depend on the order in which messages arrive |
| Dedup.RepeatsNotCounted | main.go:60-63 | a key received twice ends with count 1 |
| Dedup.TallyKeys | main.go:60-63 | with every arrival counted, exactly the keys received have a count, each at least 1 |
| Dedup.TallyCounts | main.go:60-63 | with every arrival counted, a key's count equals the number of messages carrying it |
| Dedup.RunCountingConsumer | main.go:240-245 | the counting consumer prints exactly what the consumer as written prints and keeps the true counts |
| Pipeline.AllKeys | main.go:235-245 | for `Pipeline.AllBatches`, the workers' messages in file order: when no file fails, the keys reaching the consumer are exactly the keys some worker sends |
| Pipeline.RunWorkers | main.go:235-237 | the workers' messages in file order, up to the first failing file |
| Pipeline.Run | main.go:53-257 | `main` with `readBed` and `readVcf`: a bad interval file fails before anything is printed; otherwise the index is the sorted grouping of the intervals read, a header failure ends the run after the header output, and otherwise the header is followed by the consumer's output on all messages |

## Left out

- Flag parsing (`setup`) and logging setup: command-line plumbing.
- `os.Open`, `gzip.NewReader` and `filepath.Glob`: file I/O and decompression. The interval file is given as its text, each variant file as a `VcfFile` value, and an empty file list is excluded by `Run`'s precondition.
- `parse.FindEndOfLine` from the `bystro-utils` library is not part of this model. Its results (version line, terminator byte and length) are fields of `VcfFile`, and the stream starts after the version line.
- `regexp.MatchString`: modelled as a substring test, since the pattern has no metacharacters.
- Read errors other than end of stream: the stream is given as text, so `ReadString` cannot fail.
- Goroutines, the `results` and `complete` channels, the `WaitGroup` and the wait for 16 completions. `Pipeline.Run` runs the workers in file order and then drains their messages. Any other interleaving sends the same messages in another order; `Dedup.SeenIgnoresOrder` shows the final `seen` map is the same for every order, while which line of a repeated key gets printed may differ.
- Output before a fatal error in a concurrent run: the model keeps one schedule (everything sent before the failure is consumed).
- The final `log.Printf` of counts: it iterates the map in random order. `Run` returns the `seen` map instead.
- Which of several equal-start intervals comes first: `sort.Slice` is not stable. `Bed.SortByStart` promises only sorted by start and a permutation, and insertion sort is one admissible result.
- Bytes are modelled as characters, one per byte.
- Bed.ParseBedRow: requires a non-empty row, because the loop skips empty rows before parsing.
- Records.MatchRecord: requires every chromosome in the index to have an interval (`Bed.IndexPopulated` proves this for an index from `ReadBed`). The `arr == nil` test is then the same as absence from the map.

## Findings

| source | as written | input that shows it | evidently intended | confidence | as-written member | corrected member |
|---|---|---|---|---|---|---|
| main.go:331-351 | after the bound check, the loop breaks at the first interval ending before the position, so only `arr[0]` is consulted; the bound uses the last interval's end, which need not be the largest | intervals `[100,200]`, `[300,400]` on one chromosome, record position 350 | publish when the position lies in any interval of the chromosome, stopping early only at an interval that starts beyond the position | not executed | Query.LaterIntervalMissed | Query.ScanSorted |
| main.go:60-63 | `seen[key]++` runs only when the count is 0, so every key ends with count 1 and the final report never shows repeats | the same key arriving twice | count every arrival and print only the first | not executed | Dedup.RepeatsNotCounted | Dedup.TallyCounts |

The coordinator model (`Pipeline.Run`) keeps both behaviours as written, since
it describes what the program does. The corrected members stand beside it:

- `Query.ScanSorted` is the containment test with its intended property.
- `Dedup.Consumer.ConsumeCounting` and `Dedup.RunCountingConsumer` are the
  consumer with true counts.
