# Massive log analyzer — Dafny model of its string logic

The repository has three scripts that share one log file:

- **generate-logs.ts** writes a million lines of the form
  `<timestamp> [LEVEL] System process ID <i>`, where LEVEL is `ERROR` for every
  tenth index and `INFO` otherwise.
- **analyze.ts** reads the file line by line. It rewrites each line containing
  `[ERROR]` as `<first token> - Found Issue: <line>` and counts those lines.
- **stream-pipe.ts** pipes the file through a transform stage (`ErrorFilterStream`)
  and then gzip. The stage splits each incoming chunk on `'\n'` and keeps the
  segments that contain `[ERROR]`. When any segment was kept, it pushes them joined
  by `'\n'` with one trailing `'\n'`.

This project models the pure string and sequence logic under that plumbing. Every
operation is a pure function over `string` (`seq<char>`) and `seq<string>`. The
exceptions are the scanner's loop and its use on the generated file, which are
methods.

Modules:

- `Strings` gives JavaScript's `includes`, `split` and `join` on one character.
  It also has the lemmas connecting them: the split/join round trips both ways
  and the piece count.
- `LogLines` has the marker test and the order-preserving selection of marked
  lines.
- `StreamPipe` models the per-chunk `_transform`, a fold of it over any chunk
  sequence, and the read stream's fixed-size chunking.
- `Analyze` models the scanner: first-token extraction, record formatting and
  reading a record back, and the counting loop.
- `Generate` models the line rule, decimal formatting and its inverse, and the
  `(n + 9) / 10` count of ERROR lines.
- `SharedFile` follows the generated file into both consumers.

The filter stage carries no state. The class has no fields
(stream-pipe.ts:11-14), so each chunk is split and filtered alone, and a line
split across two chunks is filtered piece by piece. Some lemmas show what this
means:

- `StreamPipe.StraddlingLineLost`: a marked line cut inside its marker, at any
  of the six inner positions, is not emitted at all. The line must have no
  other `'['`.
- `StreamPipe.TwoLineLogOneChunk` and `StreamPipe.TwoLineLogTenCharChunks`: a
  two-line log, one INFO line and one ERROR line, yields
  `2024-01-01T00:00:01Z [ERROR] b\n` when read in one chunk. Read in chunks of ten
  characters, it yields only ` [ERROR] b\n`.
- `StreamPipe.PipeOnLineBoundaries`: when every chunk but the last ends in
  `'\n'`, the chunking makes no difference, and the output is what the whole
  text yields as one chunk.

So the output depends on where the chunk boundaries fall.
`StreamPipe.PipeEmitsMarkedLines` holds for every chunking: the stage only ever
emits whole `'\n'`-terminated segments that contain the marker.

## Model

| member | source | states |
|---|---|---|
| Strings.ContainsIff | stream-pipe.ts:26 | The recursive `includes` test holds exactly when the pattern occurs at some index of the string, in both directions. |
| Strings.Split | stream-pipe.ts:23 | `split('\n')` always yields at least one piece, and no piece contains the separator. |
| Strings.JoinSplit | stream-pipe.ts:23 | Joining the pieces of a split with the separator gives back the original string. |
| Strings.SplitJoin | stream-pipe.ts:31 | Splitting a join of separator-free pieces (at least one) gives back exactly those pieces. |
| Strings.SplitCount | stream-pipe.ts:23 | A string splits into one more piece than it contains separators. |
| Strings.SplitSnocSep | stream-pipe.ts:31 | A string followed by one separator splits into its own pieces plus one empty trailing piece. |
| Strings.SplitAroundSep | stream-pipe.ts:23 | Splitting `x + sep + y` gives the pieces of `x` followed by the pieces of `y`. |
| LogLines.FilterErrors | stream-pipe.ts:26 | The kept segments all contain `[ERROR]`. A value is kept iff it is present and contains the marker. The result is a subsequence of the input: same order, nothing repeated. |
| LogLines.FilterCount | analyze.ts:30-47 | The number of lines kept by the filter equals the line-by-line count of matching lines. |
| LogLines.FilterAppend | stream-pipe.ts:26 | Filtering a concatenation is the concatenation of the filtered parts. |
| StreamPipe.Transform | stream-pipe.ts:17-36 | Nothing is pushed iff no segment contains `[ERROR]`. A pushed string is non-empty, ends in `'\n'`, and holds exactly as many `'\n'` as there were matching segments. |
| StreamPipe.PushedLines | stream-pipe.ts:26-31 | Drop the final `'\n'` of what is pushed and split the rest on `'\n'`. The result is exactly the matching segments of the chunk, in order. |
| StreamPipe.PushedLinesAreErrorSegments | stream-pipe.ts:23-26 | Every emitted line contains `[ERROR]` and no `'\n'`. The emitted lines are a subsequence of the chunk's segments. There is one per matching segment. |
| StreamPipe.SegmentsRoundTrip | stream-pipe.ts:19-23 | The chunk's segments join back to the chunk. There is one more segment than there are `'\n'` in the chunk. |
| StreamPipe.TransformJoinedErrors | stream-pipe.ts:23-31 | A chunk of marked, `'\n'`-terminated lines is pushed unchanged. |
| StreamPipe.TransformIdempotent | stream-pipe.ts:23-31 | Running the transform on its own output pushes the identical string. |
| StreamPipe.PipeAppend | stream-pipe.ts:11-17 | No state passes between chunks. The output for `a + b` is the output for `a` followed by the output for `b`. |
| StreamPipe.EmittedSplitsAtLineEnd | stream-pipe.ts:23-31 | A chunk boundary right after a `'\n'` changes nothing. The text `x + "\n" + c` pushes what `x + "\n"` pushes, followed by what `c` pushes. |
| StreamPipe.PipeOnLineBoundaries | stream-pipe.ts:11-36 | When every chunk but the last ends in `'\n'`, the stage's output over the chunks is its output for their concatenation as a single chunk. |
| StreamPipe.PipeEmitsMarkedLines | stream-pipe.ts:23-31 | Whatever the chunking, the output is empty or consists of `'\n'`-terminated segments that each contain `[ERROR]`. |
| StreamPipe.NoBracketPushesNothing | stream-pipe.ts:26-32 | A chunk without `'['` makes the stage push nothing. |
| StreamPipe.ChunksOfConcat | stream-pipe.ts:44 | Fixed-size chunking loses and repeats nothing: the chunks concatenate back to the input. |
| StreamPipe.ChunksOfPieces | stream-pipe.ts:44 | Pieces of full chunk size, with a non-empty last piece no longer than that, are exactly the chunking of their concatenation. |
| StreamPipe.StraddlingLineLost | stream-pipe.ts:21-26 | Take any line `x + [ERROR] + y` with no other `'['` and no `'\n'`, and cut it inside its marker into two chunks. The two chunks produce no output. The same line in one chunk is pushed whole. |
| StreamPipe.TwoLineLogOneChunk | stream-pipe.ts:17-36 | The two-line INFO/ERROR log, read as one chunk, yields exactly its ERROR line plus `'\n'`. |
| StreamPipe.TwoLineLogTenCharChunks | stream-pipe.ts:17-36 | The same log read in ten-character chunks yields only ` [ERROR] b\n`, because the timestamp went out in chunks without the marker. |
| Analyze.FirstToken | analyze.ts:33-35 | `split(' ')[0]` is a prefix of the line that contains no space. It is followed by a space unless it is the whole line. A line without a space is its own first token. |
| Analyze.FirstTokenUnique | analyze.ts:33-35 | Exactly one prefix has those properties, so they define the first token. |
| Analyze.ParseRecordRoundTrip | analyze.ts:42-46 | A record reads back as the line it was made from. The line is embedded unchanged after the token and ` - Found Issue: `, before the final `'\n'`. |
| Analyze.RecordShape | analyze.ts:42-46 | The record of a `'\n'`-free line starts with the line's first token and holds exactly one `'\n'`, as its last character. |
| Analyze.ProcessLine | analyze.ts:30-47 | A line yields a record iff it contains `[ERROR]`, and that record reads back as the line. |
| Analyze.ProcessLogs | analyze.ts:25-47 | The final `errorCount` is the number of matching lines. There is one record per matching line, in the lines' order. |
| Analyze.ReadLines | analyze.ts:20-28 | The lines a line-aware reader yields contain no `'\n'`. Joined with `'\n'`, plus the final `'\n'` when the text had one, they are the text. There is one line per `'\n'`, plus one for an unterminated last line, and none for the empty text. |
| Analyze.ReadLinesOfWritten | analyze.ts:20-28 | A text written as `'\n'`-free lines, each followed by `'\n'`, reads back as exactly those lines. |
| Analyze.ScannerAgreesWithOneChunk | analyze.ts:28-30 | The scanner's matching lines are the stream filter's matching segments of the same text read as one chunk, in the same order. |
| Generate.Decimal | generate-logs.ts:8 | `${i}` is a non-empty string of decimal digits with no leading zero. |
| Generate.DecimalRoundTrip | generate-logs.ts:8 | Parsing the decimal form of `i` gives back `i`. |
| Generate.LineEmbedsIndex | generate-logs.ts:8 | Line `i` ends with the decimal `i`, which reads back as `i`. |
| Generate.GeneratedLinesInOrder | generate-logs.ts:6-8 | The generated lines come in index order: line `i` carries the number `i`. |
| Generate.MarkerOnlyAtLevel | generate-logs.ts:7-8 | With no other `'['`, the text `ts [LEVEL…` contains `[ERROR]` iff `i % 10 == 0`. |
| Generate.LineIsErrorIff | generate-logs.ts:7-8 | Take a timestamp without `'['`. Line `i`, with or without its terminator, contains `[ERROR]` iff `i % 10 == 0`. |
| Generate.LineTerminated | generate-logs.ts:8 | Take a timestamp without `'\n'`. A generated line holds exactly one `'\n'`, as its last character. |
| Generate.ErrorIndicesClosedForm | generate-logs.ts:6-7 | Among the indices `0..n-1`, `(n + 9) / 10` are multiples of ten. |
| Generate.GeneratedErrorCount | generate-logs.ts:6-7 | Over lines `0..n-1` there are exactly `(n + 9) / 10` lines containing `[ERROR]`. |
| Generate.MillionLinesHundredThousandErrors | generate-logs.ts:6-7 | For the script's 1,000,000 lines there are exactly 100,000 ERROR lines. |
| Generate.LogTextIsJoinedBodies | generate-logs.ts:6-12 | The written file is the line bodies joined by `'\n'` with a final `'\n'`. |
| SharedFile.ReaderSeesGeneratedLines | generate-logs.ts:6-12 | A line-aware reader gets back exactly the generated lines, in index order. |
| SharedFile.ScanGeneratedFile | analyze.ts:25-51 | The scanner on a generated file of `n` lines counts `(n + 9) / 10` errors, or 100,000 for a million lines, and writes one record per error. |
| SharedFile.OneChunkFilterCount | stream-pipe.ts:23-31 | The whole generated file read as one chunk makes the stage push `(n + 9) / 10` lines. |

## Left out

- File I/O is not modelled: `fs.createReadStream`, `fs.createWriteStream`, the `'drain'` / backpressure behaviour of `write`, and the failure paths of missing or unwritable files. Input is a string or a sequence of lines.
- `readline.createInterface` is reduced to `Analyze.ReadLines`, a split on `'\n'` whose final `'\n'` ends the last line. Its `crlfDelay` handling of `'\r\n'` is not modelled: a `'\r'` stays in the line.
- `zlib.createGzip` is not modelled. Neither is the `stream/promises` `pipeline` wiring with its error propagation and try/catch reporting, since these are foreign library calls. The model stops at the text the filter stage pushes.
- `Buffer.toString()` UTF-8 decoding is not modelled, including a multibyte character split across chunks. A chunk is already-decoded text.
- The chunk sizes the read stream chooses are not modelled. Chunking is a parameter: any chunk sequence for `StreamPipe.Pipe`, or fixed-size pieces via `StreamPipe.ChunksOf`. Node's default chunk size is not.
- `new Date().toISOString()` is not modelled. Timestamps are parameters, one per line, assumed free of `'['` (for the marker lemmas) and of `'\n'` (for the line-structure lemmas).
- The generator's fixed `1e6` loop bound is generalised to `n`, the number of timestamps given. The million-line case is `Generate.MillionLinesHundredThousandErrors`. The general lemmas assume indices below `1e21`: from there on JavaScript writes `${i}` in exponent notation, and past `2^53` the `i++` of a JavaScript number stops advancing. `Generate.Decimal` always writes plain digits.
- `console.time` / `console.log` reporting and the unused `canWrite` result of `write` are not modelled.
- The `LogEntry` interface's `level` union is not modelled. The scanner only ever builds entries with level `ERROR`, and their `timestamp` / `message` fields appear directly in `Analyze.Record`.
- No claim is made that the chunked pipeline matches the line scanner for every chunk size. It does not: see `StreamPipe.TwoLineLogTenCharChunks`.
