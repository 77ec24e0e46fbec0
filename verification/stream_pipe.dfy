/**
 The filtering stage of stream-pipe.ts (`ErrorFilterStream`). Each chunk of
 decoded text is split on '\n' on its own, the segments containing the marker are
 kept in order, and when at least one was kept they are pushed downstream joined by
 '\n' with one trailing '\n'. The class has no fields, so no text is carried from
 one chunk to the next: a line that straddles a chunk boundary becomes two
 unrelated segments, each searched for the marker on its own.
 */
module StreamPipe {
  import opened Wrappers
  import opened Strings
  import opened LogLines

  /** The segments of a chunk, as `textData.split('\n')` produces them. */
  function Segments(chunk: string): seq<string> {
    Split(chunk, '\n')
  }

  /** `_transform` on one chunk: the string it pushes, or None when it pushes nothing. */
  function Transform(chunk: string): (pushed: Option<string>)
    ensures pushed.None? <==> forall k :: 0 <= k < |Segments(chunk)| ==> !IsError(Segments(chunk)[k])
    ensures pushed.Some? ==>
              && |pushed.value| > 0
              && pushed.value[|pushed.value| - 1] == '\n'
              && CountChar(pushed.value, '\n') == CountErrors(Segments(chunk))
  {
    var errorLines := FilterErrors(Segments(chunk));
    if |errorLines| > 0 then
      CountJoin(errorLines, '\n');
      CountCharAppend(Join(errorLines, '\n'), "\n", '\n');
      FilterCount(Segments(chunk));
      Some(Join(errorLines, '\n') + "\n")
    else
      assert forall k :: 0 <= k < |Segments(chunk)| ==> Segments(chunk)[k] !in errorLines;
      None
  }

  /**
   What is pushed, read back line by line: dropping its final '\n' and splitting
   on '\n' gives exactly the matching segments of the chunk, in their order.
   */
  lemma PushedLines(chunk: string)
    requires Transform(chunk).Some?
    ensures var out := Transform(chunk).value;
            Split(out[..|out| - 1], '\n') == FilterErrors(Segments(chunk))
  {
    var errorLines := FilterErrors(Segments(chunk));
    var out := Transform(chunk).value;
    assert out[..|out| - 1] == Join(errorLines, '\n');
    SplitJoin(errorLines, '\n');
  }

  /**
   The lines pushed all carry the marker, none contains '\n', and they are the
   chunk's segments with the non-matching ones deleted: same order, no repeats.
   */
  lemma PushedLinesAreErrorSegments(chunk: string)
    requires Transform(chunk).Some?
    ensures var out := Transform(chunk).value;
            var lines := Split(out[..|out| - 1], '\n');
            && (forall k :: 0 <= k < |lines| ==> IsError(lines[k]) && '\n' !in lines[k])
            && IsSubsequence(lines, Segments(chunk))
            && |lines| == CountErrors(Segments(chunk))
  {
    PushedLines(chunk);
    FilterCount(Segments(chunk));
  }

  /** Joining the segments back reproduces the chunk, and there is one more segment than '\n'. */
  lemma {:induction false} SegmentsRoundTrip(chunk: string)
    ensures Join(Segments(chunk), '\n') == chunk
    ensures |Segments(chunk)| == CountChar(chunk, '\n') + 1
  {
    JoinSplit(chunk, '\n');
    SplitCount(chunk, '\n');
  }

  /**
   A chunk made of marked, '\n'-free lines, each followed by '\n', is pushed unchanged:
   its segments are those lines plus an empty trailing segment, which never matches.
   */
  lemma TransformJoinedErrors(lines: seq<string>)
    requires |lines| >= 1 && FreeOf(lines, '\n')
    requires forall k :: 0 <= k < |lines| ==> IsError(lines[k])
    ensures Transform(Join(lines, '\n') + "\n") == Some(Join(lines, '\n') + "\n")
  {
    var body := Join(lines, '\n');
    SplitSnocSep(body, '\n');
    SplitJoin(lines, '\n');
    assert Segments(body + "\n") == lines + [[]];
    FilterAppend(lines, [[]]);
    FilterAllErrors(lines);
    EmptyIsNotError();
    assert FilterErrors([[]]) == [];
    assert FilterErrors(Segments(body + "\n")) == lines;
    assert |lines| > 0;
  }

  /** Filtering what was pushed pushes the same string again. */
  lemma TransformIdempotent(chunk: string)
    requires Transform(chunk).Some?
    ensures Transform(Transform(chunk).value) == Transform(chunk)
  {
    TransformJoinedErrors(FilterErrors(Segments(chunk)));
  }

  /** What a chunk contributes to the downstream stage: its pushed text, or nothing. */
  function Emitted(chunk: string): string {
    match Transform(chunk)
    case Some(out) => out
    case None => []
  }

  /** The text the filter stage hands downstream for a whole sequence of chunks. */
  function Pipe(chunks: seq<string>): string {
    if |chunks| == 0 then [] else Emitted(chunks[0]) + Pipe(chunks[1..])
  }

  /**
   No state passes between chunks: the output of a run over `a + b` is the output
   over `a` followed by the output over `b`, whatever `a` ended with.
   */
  lemma {:induction false} PipeAppend(a: seq<string>, b: seq<string>)
    ensures Pipe(a + b) == Pipe(a) + Pipe(b)
    decreases |a|
  {
    if |a| == 0 {
      assert a + b == b;
    } else {
      assert (a + b)[1..] == a[1..] + b;
      PipeAppend(a[1..], b);
    }
  }

  /** What the stage pushes for the given matching segments: nothing for none, else them joined and terminated. */
  function PushedText(errorLines: seq<string>): string {
    if |errorLines| > 0 then Join(errorLines, '\n') + "\n" else []
  }

  lemma EmittedIsPushedText(chunk: string)
    ensures Emitted(chunk) == PushedText(FilterErrors(Segments(chunk)))
  {
  }

  /** Pushing two runs of matching segments one after the other is pushing them together. */
  lemma PushedTextAppend(f: seq<string>, g: seq<string>)
    ensures PushedText(f + g) == PushedText(f) + PushedText(g)
  {
    if |f| > 0 && |g| > 0 {
      JoinAppend(f, g, '\n');
    } else if |f| == 0 {
      assert f + g == g;
    } else {
      assert f + g == f;
    }
  }

  /** Around a '\n', the matching segments of the whole are those of the two sides. */
  lemma MatchesAtLineEnd(x: string, c: string)
    ensures FilterErrors(Segments(x + "\n" + c)) == FilterErrors(Split(x, '\n')) + FilterErrors(Split(c, '\n'))
    ensures FilterErrors(Segments(x + "\n")) == FilterErrors(Split(x, '\n'))
  {
    assert x + "\n" + c == x + ['\n'] + c;
    SplitAroundSep(x, '\n', c);
    FilterAppend(Split(x, '\n'), Split(c, '\n'));
    SplitSnocSep(x, '\n');
    FilterAppend(Split(x, '\n'), [[]]);
    EmptyIsNotError();
    assert FilterErrors([[]]) == [];
  }

  /**
   A chunk boundary right after a '\n' changes nothing: the text `x + "\n" + c`
   pushes what `x + "\n"` pushes followed by what `c` pushes.
   */
  lemma EmittedSplitsAtLineEnd(x: string, c: string)
    ensures Emitted(x + "\n" + c) == Emitted(x + "\n") + Emitted(c)
  {
    MatchesAtLineEnd(x, c);
    EmittedIsPushedText(x + "\n" + c);
    EmittedIsPushedText(x + "\n");
    EmittedIsPushedText(c);
    PushedTextAppend(FilterErrors(Split(x, '\n')), FilterErrors(Split(c, '\n')));
  }

  /** The chunks, taken together, end at a line end after each chunk but the last. */
  predicate BreaksAtLineEnds(chunks: seq<string>) {
    forall k :: 0 <= k < |chunks| - 1 ==> |chunks[k]| > 0 && chunks[k][|chunks[k]| - 1] == '\n'
  }

  /** The empty chunk pushes nothing. */
  lemma EmptyChunkSilent()
    ensures Emitted([]) == []
  {
  }

  /**
   When every chunk boundary falls right after a '\n', the chunking does not
   matter: the stage emits what it would emit for the whole text as one chunk.
   */
  lemma {:induction false} PipeOnLineBoundaries(chunks: seq<string>)
    requires BreaksAtLineEnds(chunks)
    ensures Pipe(chunks) == Emitted(Concat(chunks))
    decreases |chunks|
  {
    if |chunks| == 0 {
      EmptyChunkSilent();
    } else {
      var c0, rest := chunks[0], chunks[1..];
      assert Pipe(chunks) == Emitted(c0) + Pipe(rest);
      assert Concat(chunks) == c0 + Concat(rest);
      if |rest| == 0 {
        assert Pipe(rest) == [] && Concat(rest) == [];
        assert c0 + [] == c0;
      } else {
        forall k | 0 <= k < |rest| - 1
          ensures |rest[k]| > 0 && rest[k][|rest[k]| - 1] == '\n'
        {
          assert rest[k] == chunks[k + 1];
        }
        PipeOnLineBoundaries(rest);
        EmittedSplitsAfterLine(c0, Concat(rest));
      }
    }
  }

  /** The boundary form of `EmittedSplitsAtLineEnd`: a chunk ending in '\n', then anything. */
  lemma EmittedSplitsAfterLine(c0: string, c: string)
    requires |c0| > 0 && c0[|c0| - 1] == '\n'
    ensures Emitted(c0 + c) == Emitted(c0) + Emitted(c)
  {
    var x := c0[..|c0| - 1];
    assert c0 == x + "\n";
    EmittedSplitsAtLineEnd(x, c);
  }


  /**
   Text made of whole marked lines: empty, or '\n'-terminated with every line
   before the final '\n' containing the marker.
   */
  ghost predicate MarkedLines(out: string) {
    out == [] ||
    (out[|out| - 1] == '\n' &&
     var lines := Split(out[..|out| - 1], '\n');
     forall k :: 0 <= k < |lines| ==> IsError(lines[k]))
  }

  /** Two runs of marked lines, one after the other, are again a run of marked lines. */
  lemma MarkedLinesAppend(a: string, b: string)
    requires MarkedLines(a) && MarkedLines(b)
    ensures MarkedLines(a + b)
  {
    if a != [] && b != [] {
      var x, y := a[..|a| - 1], b[..|b| - 1];
      assert a + b == x + ['\n'] + y + ['\n'];
      assert (a + b)[..|a + b| - 1] == x + ['\n'] + y;
      SplitAroundSep(x, '\n', y);
    } else if a == [] {
      assert a + b == b;
    } else {
      assert a + b == a;
    }
  }

  /**
   Whatever the chunking, the filter stage only ever hands downstream whole
   '\n'-terminated lines that contain the marker.
   */
  lemma {:induction false} PipeEmitsMarkedLines(chunks: seq<string>)
    ensures MarkedLines(Pipe(chunks))
    decreases |chunks|
  {
    if |chunks| > 0 {
      PipeEmitsMarkedLines(chunks[1..]);
      if Transform(chunks[0]).Some? {
        PushedLines(chunks[0]);
      }
      MarkedLinesAppend(Emitted(chunks[0]), Pipe(chunks[1..]));
    }
  }

  /** The read stream's chunking: consecutive pieces of `size` characters, the last possibly shorter. */
  function ChunksOf(s: string, size: nat): (chunks: seq<string>)
    requires size > 0
    ensures forall k :: 0 <= k < |chunks| ==> 0 < |chunks[k]| <= size
    decreases |s|
  {
    if |s| == 0 then []
    else if |s| <= size then [s]
    else [s[..size]] + ChunksOf(s[size..], size)
  }

  /** Chunking loses and duplicates nothing: the chunks concatenate to the input. */
  lemma {:induction false} ChunksOfConcat(s: string, size: nat)
    requires size > 0
    ensures Concat(ChunksOf(s, size)) == s
    decreases |s|
  {
    if |s| > size {
      ChunksOfConcat(s[size..], size);
      assert s == s[..size] + s[size..];
    }
  }

  /** The marker holds one '[', its first character, and no '\n'. */
  lemma MarkerShape(j: nat)
    requires 0 < j <= |Marker|
    ensures Marker[0] == '[' && '[' !in Marker[1..j] && '[' !in Marker[j..]
    ensures '\n' !in Marker
  {
  }

  /**
   A line cut inside its marker, the head alone in a chunk: the '[' is followed
   by fewer characters than the marker needs, so nothing is pushed.
   */
  lemma HeadSilent(x: string, j: nat)
    requires '[' !in x && '\n' !in x && 0 < j < |Marker|
    ensures Emitted(x + Marker[..j]) == []
  {
    var head := x + Marker[..j];
    MarkerShape(j);
    assert Marker[..j] == ['['] + Marker[1..j];
    assert head == x + ['['] + Marker[1..j];
    OnlyAt(x, '[', Marker[1..j]);
    ContainsAtUniqueStart(head, Marker, |x|);
    assert !IsError(head);
    assert '\n' !in head;
    assert Segments(head) == [head];
    assert FilterErrors([head]) == [];
  }

  /** The tail of a line cut inside its marker, alone in a chunk, holds no '[' and pushes nothing. */
  lemma TailSilent(y: string, j: nat)
    requires '[' !in y && 0 < j < |Marker|
    ensures Emitted(Marker[j..] + y + "\n") == []
  {
    MarkerShape(j);
    assert '[' !in Marker[j..] + y + "\n";
    NoBracketPushesNothing(Marker[j..] + y + "\n");
  }

  /** A whole marked line alone in a chunk is pushed unchanged. */
  lemma WholeLinePushed(x: string, y: string)
    requires '\n' !in x && '\n' !in y
    ensures Emitted(x + Marker + y + "\n") == x + Marker + y + "\n"
  {
    var line := x + Marker + y;
    MarkerShape(1);
    ContainsSelf(Marker);
    ContainsInfix(x, Marker, y, Marker);
    assert '\n' !in line;
    TransformJoinedErrors([line]);
    assert Join([line], '\n') == line;
  }

  /** The output over one or two chunks, spelled out. */
  lemma PipeSmall(a: string, b: string)
    ensures Pipe([a]) == Emitted(a)
    ensures Pipe([a, b]) == Emitted(a) + Emitted(b)
  {
    assert [a, b][1..] == [b];
    assert Pipe([b]) == Emitted(b) + Pipe([]);
  }

  /**
   A marked line cut inside its marker across two chunks is lost: neither piece
   contains the whole marker, so nothing is pushed for it, although the same line
   in one chunk is pushed. Chunk size therefore changes the output.
   */
  lemma StraddlingLineLost(x: string, y: string, j: nat)
    requires '[' !in x && '\n' !in x && '[' !in y && '\n' !in y
    requires 0 < j < |Marker|
    ensures Pipe([x + Marker[..j], Marker[j..] + y + "\n"]) == []
    ensures Pipe([x + Marker + y + "\n"]) == x + Marker + y + "\n"
  {
    HeadSilent(x, j);
    TailSilent(y, j);
    WholeLinePushed(x, y);
    PipeSmall(x + Marker[..j], Marker[j..] + y + "\n");
    PipeSmall(x + Marker + y + "\n", []);
  }

  /** A chunk with no '[' pushes nothing. */
  lemma NoBracketPushesNothing(chunk: string)
    requires '[' !in chunk
    ensures Emitted(chunk) == []
  {
    forall k | 0 <= k < |Segments(chunk)|
      ensures !IsError(Segments(chunk)[k])
    {
      var seg := Segments(chunk)[k];
      JoinSplit(chunk, '\n');
      JoinedPieceIn(Segments(chunk), k, '\n');
      NotContainsWithoutFirstChar(seg, Marker);
    }
  }

  /** A two-line log, the first line INFO and the second ERROR. */
  const InfoLine: string := "2024-01-01T00:00:00Z [INFO] a"
  const ErrorLine: string := "2024-01-01T00:00:01Z [ERROR] b"
  const TwoLineLog: string := InfoLine + "\n" + ErrorLine + "\n"

  /** The pieces in which a reader with ten-character chunks delivers the two-line log. */
  const TenCharChunks: seq<string> :=
    ["2024-01-01", "T00:00:00Z", " [INFO] a\n", "2024-01-01", "T00:00:01Z", " [ERROR] b", "\n"]


  /**
   Pieces that are all exactly `size` long, except a last one of 1 to `size`
   characters, are the chunking of their concatenation.
   */
  lemma {:induction false} ChunksOfPieces(pieces: seq<string>, size: nat)
    requires size > 0
    requires forall k :: 0 <= k < |pieces| - 1 ==> |pieces[k]| == size
    requires |pieces| > 0 ==> 0 < |pieces[|pieces| - 1]| <= size
    ensures ChunksOf(Concat(pieces), size) == pieces
    decreases |pieces|
  {
    if |pieces| == 1 {
      assert Concat(pieces) == pieces[0] + Concat([]);
      assert Concat(pieces) == pieces[0];
      assert pieces == [pieces[0]];
    } else if |pieces| > 1 {
      var s := Concat(pieces);
      ChunksOfPieces(pieces[1..], size);
      ConcatLength(pieces[1..]);
      assert |s| > size;
      assert s[..size] == pieces[0];
      assert s[size..] == Concat(pieces[1..]);
      assert pieces == [pieces[0]] + pieces[1..];
    }
  }

  lemma {:induction false} ConcatLength(pieces: seq<string>)
    requires |pieces| > 0 && |pieces[|pieces| - 1]| > 0
    ensures |Concat(pieces)| > 0
    decreases |pieces|
  {
    if |pieces| > 1 {
      ConcatLength(pieces[1..]);
    }
  }

  /** Seven pieces concatenate to their left-to-right sum. */
  lemma ConcatSeven(a: string, b: string, c: string, d: string, e: string, f: string, g: string)
    ensures Concat([a, b, c, d, e, f, g]) == a + b + c + d + e + f + g
  {
    var pieces := [a, b, c, d, e, f, g];
    ConcatAppend([a, b, c], [d, e, f, g]);
    ConcatAppend([a], [b, c]);
    ConcatAppend([b], [c]);
    ConcatAppend([d, e], [f, g]);
    ConcatAppend([d], [e]);
    ConcatAppend([f], [g]);
    assert pieces == [a, b, c] + [d, e, f, g];
    assert [a, b, c] == [a] + [b, c];
    assert [b, c] == [b] + [c];
    assert [d, e, f, g] == [d, e] + [f, g];
    assert [d, e] == [d] + [e];
    assert [f, g] == [f] + [g];
    ConcatOne(a);
    ConcatOne(b);
    ConcatOne(c);
    ConcatOne(d);
    ConcatOne(e);
    ConcatOne(f);
    ConcatOne(g);
  }

  lemma ConcatOne(a: string)
    ensures Concat([a]) == a
  {
    assert Concat([a]) == a + Concat([]);
  }

  /** Seven pieces that spell two terminated lines concatenate to those lines. */
  lemma SevenPiecesTwoLines(a: string, b: string, c: string, d: string, e: string, f: string, g: string, u: string, v: string)
    requires a + b + c == u + "\n" && d + e + f + g == v + "\n"
    ensures Concat([a, b, c, d, e, f, g]) == u + "\n" + v + "\n"
  {
    ConcatSeven(a, b, c, d, e, f, g);
    assert a + b + c + d + e + f + g == (a + b + c) + (d + e + f + g);
    assert u + "\n" + v + "\n" == (u + "\n") + (v + "\n");
  }

  /** The ten-character pieces put back together are the two-line log. */
  lemma TenCharChunksConcat()
    ensures Concat(TenCharChunks) == TwoLineLog
  {
    SevenPiecesTwoLines("2024-01-01", "T00:00:00Z", " [INFO] a\n", "2024-01-01", "T00:00:01Z", " [ERROR] b", "\n",
                        InfoLine, ErrorLine);
  }


  /** The two-line log read in chunks of ten characters. */
  lemma TwoLineLogChunks()
    ensures ChunksOf(TwoLineLog, 10) == TenCharChunks
  {
    TenCharChunksConcat();
    ChunksOfPieces(TenCharChunks, 10);
  }


  /** A line whose only '[' opens a tag not starting with 'E' is not an error line. */
  lemma OtherTagIsNotError(a: string, b: string)
    requires '[' !in a && '[' !in b && |b| > 0 && b[0] != 'E'
    ensures !IsError(a + "[" + b)
  {
    var s := a + ['['] + b;
    assert a + "[" + b == s;
    OnlyAt(a, '[', b);
    ContainsAtUniqueStart(s, Marker, |a|);
    assert s[|a| + 1] == b[0];
  }

  lemma InfoLineIsNotError()
    ensures !IsError(InfoLine)
  {
    assert InfoLine == "2024-01-01T00:00:00Z " + "[" + "INFO] a";
    OtherTagIsNotError("2024-01-01T00:00:00Z ", "INFO] a");
  }

  lemma InfoTailIsNotError()
    ensures !IsError(" [INFO] a")
  {
    assert " [INFO] a" == " " + "[" + "INFO] a";
    OtherTagIsNotError(" ", "INFO] a");
  }

  lemma ErrorLineIsError()
    ensures IsError(ErrorLine)
  {
    ContainsSelf(Marker);
    ContainsInfix("2024-01-01T00:00:01Z ", Marker, " b", Marker);
    assert ErrorLine == "2024-01-01T00:00:01Z " + Marker + " b";
  }

  lemma ErrorTailIsError()
    ensures IsError(" [ERROR] b")
  {
    ContainsSelf(Marker);
    ContainsInfix(" ", Marker, " b", Marker);
    assert " [ERROR] b" == " " + Marker + " b";
  }

  lemma TwoLineLogSegments()
    ensures Segments(TwoLineLog) == [InfoLine, ErrorLine, []]
  {
    var segs := [InfoLine, ErrorLine, []];
    assert Join(segs[2..], '\n') == [];
    assert Join(segs[1..], '\n') == ErrorLine + "\n";
    assert Join(segs, '\n') == TwoLineLog;
    SplitJoin(segs, '\n');
  }

  /** Selecting from three lines of which only the middle one matches keeps the middle one. */
  lemma FilterMiddle(x: string, y: string, z: string)
    requires !IsError(x) && IsError(y) && !IsError(z)
    ensures FilterErrors([x, y, z]) == [y]
  {
    assert [x, y, z][1..] == [y, z];
    assert [y, z][1..] == [z];
    assert [z][1..] == [];
  }

  /** Selecting from a non-matching line and a non-matching rest keeps nothing. */
  lemma FilterNone(x: string, z: string)
    requires !IsError(x) && !IsError(z)
    ensures FilterErrors([x, z]) == []
  {
    assert [x, z][1..] == [z];
    assert [z][1..] == [];
  }

  lemma TwoLineLogMatches()
    ensures FilterErrors([InfoLine, ErrorLine, []]) == [ErrorLine]
  {
    InfoLineIsNotError();
    ErrorLineIsError();
    EmptyIsNotError();
    FilterMiddle(InfoLine, ErrorLine, []);
  }

  /** Read as a single chunk, the two-line log yields exactly its ERROR line. */
  lemma TwoLineLogOneChunk()
    ensures Pipe([TwoLineLog]) == ErrorLine + "\n"
  {
    TwoLineLogSegments();
    TwoLineLogMatches();
    assert Join([ErrorLine], '\n') == ErrorLine;
    assert Emitted(TwoLineLog) == ErrorLine + "\n";
    PipeSmall(TwoLineLog, []);
  }

  /** A chunk holding one unmarked line and its terminator pushes nothing. */
  lemma UnmarkedLineSilent(x: string)
    requires '\n' !in x && !IsError(x)
    ensures Emitted(x + "\n") == []
  {
    SplitSnocSep(x, '\n');
    assert Segments(x + "\n") == [x, []];
    EmptyIsNotError();
    FilterNone(x, []);
  }

  /** A chunk holding one marked line without terminator pushes that line and a '\n'. */
  lemma MarkedFragmentPushed(x: string)
    requires '\n' !in x && IsError(x)
    ensures Emitted(x) == x + "\n"
  {
    assert Segments(x) == [x];
    assert FilterErrors([x]) == [x];
    assert Join([x], '\n') == x;
  }

  /** When every chunk but one pushes nothing, the output is what that one pushes. */
  lemma {:induction false} PipeSingleSource(chunks: seq<string>, j: nat)
    requires j < |chunks|
    requires forall k :: 0 <= k < |chunks| && k != j ==> Emitted(chunks[k]) == []
    ensures Pipe(chunks) == Emitted(chunks[j])
    decreases |chunks|
  {
    var rest := chunks[1..];
    assert Pipe(chunks) == Emitted(chunks[0]) + Pipe(rest);
    if j == 0 {
      forall k | 0 <= k < |rest|
        ensures Emitted(rest[k]) == []
      {
        assert rest[k] == chunks[k + 1];
      }
      SilentPipe(rest);
    } else {
      forall k | 0 <= k < |rest| && k != j - 1
        ensures Emitted(rest[k]) == []
      {
        assert rest[k] == chunks[k + 1];
      }
      PipeSingleSource(rest, j - 1);
    }
  }


  /** Chunks that each push nothing push nothing together. */
  lemma {:induction false} SilentPipe(chunks: seq<string>)
    requires forall k :: 0 <= k < |chunks| ==> Emitted(chunks[k]) == []
    ensures Pipe(chunks) == []
    decreases |chunks|
  {
    if |chunks| > 0 {
      SilentPipe(chunks[1..]);
    }
  }

  /** Of the ten-character chunks only the sixth, the tail of the ERROR line, pushes anything. */
  lemma TenCharChunksEmitted(c: seq<string>)
    requires c == TenCharChunks
    ensures |c| == 7
    ensures forall k :: 0 <= k < |c| && k != 5 ==> Emitted(c[k]) == []
    ensures Emitted(c[5]) == " [ERROR] b\n"
  {
    forall k | 0 <= k < |c| && k != 5
      ensures Emitted(c[k]) == []
    {
      if k == 2 {
        InfoChunkSilent(c[k]);
      } else {
        assert '[' !in c[k];
        NoBracketPushesNothing(c[k]);
      }
    }
    ErrorTailIsError();
    MarkedFragmentPushed(c[5]);
  }

  lemma InfoChunkSilent(x: string)
    requires x == " [INFO] a\n"
    ensures Emitted(x) == []
  {
    InfoTailIsNotError();
    assert x == " [INFO] a" + "\n";
    UnmarkedLineSilent(" [INFO] a");
  }

  /**
   Read in chunks of ten characters, the same log yields only the tail of its ERROR
   line: the timestamp went out in earlier chunks, which held no marker. No carry
   buffer rejoins the pieces of a line.
   */
  lemma TwoLineLogTenCharChunks()
    ensures Pipe(ChunksOf(TwoLineLog, 10)) == " [ERROR] b\n"
  {
    TwoLineLogChunks();
    TenCharChunksEmitted(ChunksOf(TwoLineLog, 10));
    PipeSingleSource(ChunksOf(TwoLineLog, 10), 5);
  }
}
