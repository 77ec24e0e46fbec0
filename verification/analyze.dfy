/**
 The line scanner of analyze.ts (`processLogs`): every line that contains the
 marker is rewritten as `<first space-separated token> - Found Issue: <line>` and
 written with a '\n', and a counter records how many were written. The reader
 that splits the file into lines is modelled by `ReadLines`; the lines arrive
 already split.
 */
module Analyze {
  import opened Wrappers
  import opened Strings
  import opened LogLines

  /** The text between the token and the original line in a record. */
  const IssueSeparator: string := " - Found Issue: "

  /**
   `line.split(' ')[0]`: the prefix of the line before its first space, or the
   whole line when it has no space (the first piece of a split always exists).
   */
  function FirstToken(line: string): (tok: string)
    ensures StartsWith(line, tok)
    ensures ' ' !in tok
    ensures |tok| < |line| ==> line[|tok|] == ' '
    ensures ' ' !in line ==> tok == line
  {
    Split(line, ' ')[0]
  }

  /** The properties of `FirstToken` pin it down: only one prefix has them. */
  lemma FirstTokenUnique(line: string, tok: string)
    requires StartsWith(line, tok) && ' ' !in tok
    requires |tok| < |line| ==> line[|tok|] == ' '
    ensures tok == FirstToken(line)
  {
    var t := FirstToken(line);
    assert |tok| == |t|;
    assert tok == line[..|tok|];
  }

  /** The record written for a matching line (the `cleanLine` plus its '\n'). */
  function Record(line: string): string {
    FirstToken(line) + IssueSeparator + line + "\n"
  }

  /**
   Reads a record back: the token runs up to the first space, the separator must
   follow it, the record must end in '\n', and what lies between is the line.
   */
  function ParseRecord(rec: string): Option<string> {
    if ' ' !in rec then None
    else
      var i := IndexOf(rec, ' ');
      var start := i + |IssueSeparator|;
      if start < |rec| && rec[i..start] == IssueSeparator && rec[|rec| - 1] == '\n'
      then Some(rec[start..|rec| - 1])
      else None
  }

  /**
   Every record reads back as the line it was made from: the original line is
   embedded unchanged, after the token and the separator, before the final '\n'.
   */
  lemma ParseRecordRoundTrip(line: string)
    ensures ParseRecord(Record(line)) == Some(line)
  {
    var tok := FirstToken(line);
    var rec := Record(line);
    assert rec[|tok|] == ' ';
    assert rec[..|tok|] == tok;
    var i := IndexOf(rec, ' ');
    assert i == |tok|;
    assert rec[i..i + |IssueSeparator|] == IssueSeparator;
    assert rec[i + |IssueSeparator|..|rec| - 1] == line;
  }

  /**
   A record of a '\n'-free line holds exactly one '\n', its last character, and
   starts with the line's first token.
   */
  lemma RecordShape(line: string)
    requires '\n' !in line
    ensures var rec := Record(line);
            && rec[|rec| - 1] == '\n'
            && CountChar(rec, '\n') == 1
            && StartsWith(rec, FirstToken(line))
  {
    var tok := FirstToken(line);
    var head := tok + IssueSeparator + line;
    assert '\n' !in IssueSeparator;
    assert forall k :: 0 <= k < |head| ==> head[k] != '\n' by {
      forall k | 0 <= k < |head|
        ensures head[k] != '\n'
      {
        if k < |tok| {
          assert head[k] == line[k];
        } else if k < |tok| + |IssueSeparator| {
          assert head[k] == IssueSeparator[k - |tok|];
        } else {
          assert head[k] == line[k - |tok| - |IssueSeparator|];
        }
      }
    }
    CountCharAppend(head, "\n", '\n');
    assert Record(line) == head + "\n";
    assert head[..|tok|] == tok;
  }

  /** The loop body for one line: a record when the line matches, nothing otherwise. */
  function ProcessLine(line: string): (written: Option<string>)
    ensures written.Some? <==> Contains(line, Marker)
    ensures written.Some? ==> ParseRecord(written.value) == Some(line)
  {
    if IsError(line) then
      ParseRecordRoundTrip(line);
      Some(Record(line))
    else None
  }

  /**
   The scan over all lines: the records written, in order, and the final error
   count. One record per matching line, taken in the order the lines came.
   */
  method ProcessLogs(lines: seq<string>) returns (records: seq<string>, errorCount: nat)
    ensures errorCount == CountErrors(lines)
    ensures |records| == errorCount == |FilterErrors(lines)|
    ensures forall k :: 0 <= k < |records| ==> records[k] == Record(FilterErrors(lines)[k])
  {
    records := [];
    errorCount := 0;
    var i := 0;
    while i < |lines|
      invariant 0 <= i <= |lines|
      invariant errorCount == CountErrors(lines[..i])
      invariant records == Records(FilterErrors(lines[..i]))
    {
      var line := lines[i];
      ExtendPrefix(lines, i);
      ghost var before := FilterErrors(lines[..i]);
      match ProcessLine(line) {
        case Some(rec) =>
          assert Records(before + [line]) == Records(before) + [rec];
          records := records + [rec];
          errorCount := errorCount + 1;
        case None =>
      }
      i := i + 1;
    }
    assert lines[..i] == lines;
    FilterCount(lines);
  }

  /** The record of each line, in order. */
  function Records(ls: seq<string>): (recs: seq<string>)
    ensures |recs| == |ls|
    ensures forall k :: 0 <= k < |ls| ==> recs[k] == Record(ls[k])
  {
    seq(|ls|, k requires 0 <= k < |ls| => Record(ls[k]))
  }

  /** Taking one more line into the prefix adds that line to the selection and the count when it matches. */
  lemma ExtendPrefix(lines: seq<string>, i: nat)
    requires i < |lines|
    ensures FilterErrors(lines[..i + 1]) == FilterErrors(lines[..i]) + (if IsError(lines[i]) then [lines[i]] else [])
    ensures CountErrors(lines[..i + 1]) == CountErrors(lines[..i]) + (if IsError(lines[i]) then 1 else 0)
  {
    assert lines[..i + 1] == lines[..i] + [lines[i]];
    FilterAppend(lines[..i], [lines[i]]);
    CountAppend(lines[..i], [lines[i]]);
    assert [lines[i]][1..] == [];
  }

  /** The text ends with a line terminator. */
  predicate Terminated(text: string) {
    |text| > 0 && text[|text| - 1] == '\n'
  }

  /**
   The lines a line-aware reader yields for a file: '\n'-separated, the final
   '\n' ending the last line. The lines put back together with '\n' (and the
   final '\n', when there was one) are the file, and there is one line per '\n'
   plus one for an unterminated last line.
   */
  function ReadLines(text: string): (lines: seq<string>)
    ensures FreeOf(lines, '\n')
    ensures |text| == 0 <==> lines == []
    ensures Terminated(text) ==> Join(lines, '\n') + "\n" == text
    ensures |text| > 0 && !Terminated(text) ==> Join(lines, '\n') == text
    ensures |lines| == CountChar(text, '\n') + (if |text| == 0 || Terminated(text) then 0 else 1)
  {
    if |text| == 0 then []
    else if text[|text| - 1] == '\n' then
      var body := text[..|text| - 1];
      assert text == body + "\n";
      JoinSplit(body, '\n');
      SplitCount(body, '\n');
      CountCharAppend(body, "\n", '\n');
      Split(body, '\n')
    else
      JoinSplit(text, '\n');
      SplitCount(text, '\n');
      Split(text, '\n')
  }

  /** Reading back a file written as '\n'-free lines, each followed by '\n', gives those lines. */
  lemma ReadLinesOfWritten(lines: seq<string>)
    requires |lines| > 0 && FreeOf(lines, '\n')
    ensures ReadLines(Join(lines, '\n') + "\n") == lines
  {
    var text := Join(lines, '\n') + "\n";
    assert text[..|text| - 1] == Join(lines, '\n');
    SplitJoin(lines, '\n');
  }

  /**
   When a whole file fits in one chunk, the lines the stream filter pushes are
   the lines the scanner writes records for: the scanner's matching lines are the
   matching segments of the text, in the same order.
   */
  lemma ScannerAgreesWithOneChunk(text: string)
    ensures FilterErrors(ReadLines(text)) == FilterErrors(Split(text, '\n'))
  {
    EmptyIsNotError();
    if |text| > 0 && text[|text| - 1] == '\n' {
      var body := text[..|text| - 1];
      assert text == body + ['\n'];
      SplitSnocSep(body, '\n');
      FilterAppend(Split(body, '\n'), [[]]);
      assert FilterErrors([[]]) == [];
    } else if |text| == 0 {
      assert Split(text, '\n') == [[]];
      assert FilterErrors([[]]) == [];
    }
  }
}
