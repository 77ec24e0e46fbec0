/**
 The three scripts meet only through the file the generator writes. These lemmas
 follow the generated file into each consumer: the scanner (through a line-aware
 reader) and the filter stage (when the whole file arrives as one chunk).
 */
module SharedFile {
  import opened Strings
  import opened LogLines
  import opened Generate
  import Analyze
  import StreamPipe

  /** Every generated body is free of '\n' when the timestamps are. */
  lemma BodiesFreeOfNewline(stamps: seq<string>)
    requires NoNewline(stamps)
    ensures FreeOf(Bodies(stamps), '\n')
  {
    forall k | 0 <= k < |stamps|
      ensures '\n' !in Bodies(stamps)[k]
    {
      LineTerminated(stamps[k], k);
    }
  }

  /** A line-aware reader gets back from the file exactly the generated lines, in index order. */
  lemma ReaderSeesGeneratedLines(stamps: seq<string>)
    requires NoNewline(stamps) && |stamps| > 0
    ensures Analyze.ReadLines(LogText(stamps)) == Bodies(stamps)
  {
    LogTextIsJoinedBodies(stamps);
    BodiesFreeOfNewline(stamps);
    Analyze.ReadLinesOfWritten(Bodies(stamps));
  }

  /**
   The scanner run on the generated file of `n` lines counts `(n + 9) / 10` errors
   (100000 for the script's million lines), and writes one record per ERROR line.
   */
  method ScanGeneratedFile(stamps: seq<string>) returns (records: seq<string>, errorCount: nat)
    requires NoNewline(stamps) && NoBracket(stamps) && |stamps| > 0
    ensures errorCount == (|stamps| + 9) / 10 == |records|
    ensures |stamps| == LineCount ==> errorCount == 100000
  {
    ReaderSeesGeneratedLines(stamps);
    GeneratedErrorCount(stamps);
    records, errorCount := Analyze.ProcessLogs(Analyze.ReadLines(LogText(stamps)));
  }

  /**
   The filter stage given the whole generated file as one chunk pushes one line
   per ERROR index: `(n + 9) / 10` lines, each terminated by '\n'.
   */
  lemma OneChunkFilterCount(stamps: seq<string>)
    requires NoNewline(stamps) && NoBracket(stamps) && |stamps| > 0
    ensures StreamPipe.Transform(LogText(stamps)).Some?
    ensures CountChar(StreamPipe.Transform(LogText(stamps)).value, '\n') == (|stamps| + 9) / 10
  {
    var text := LogText(stamps);
    ReaderSeesGeneratedLines(stamps);
    Analyze.ScannerAgreesWithOneChunk(text);
    GeneratedErrorCount(stamps);
    FilterCount(Bodies(stamps));
    FilterCount(StreamPipe.Segments(text));
    assert CountErrors(StreamPipe.Segments(text)) > 0;
  }
}
