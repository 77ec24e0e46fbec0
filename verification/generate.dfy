/**
 The fixture generator of generate-logs.ts. Line `i` (for `i` from 0 up to, not
 including, the line count) is
     `<timestamp> [<LEVEL>] System process ID <i>\n`
 with LEVEL `ERROR` when `i % 10 == 0` and `INFO` otherwise. The timestamp comes
 from the clock in the script; here it is a parameter, one per line.
 */
module Generate {
  import opened Strings
  import opened LogLines

  /** The number of lines the script writes. */
  const LineCount: nat := 1000000

  /** The level tag of line `i`. */
  function Level(i: nat): string {
    if i % 10 == 0 then "ERROR" else "INFO"
  }

  predicate IsDigit(c: char) {
    '0' <= c <= '9'
  }

  function DigitChar(d: nat): (c: char)
    requires d < 10
    ensures IsDigit(c)
  {
    ('0' as int + d) as char
  }

  function DigitValue(c: char): (d: nat)
    requires IsDigit(c)
    ensures d < 10 && DigitChar(d) == c
  {
    c as int - '0' as int
  }

  predicate AllDigits(s: string) {
    forall k :: 0 <= k < |s| ==> IsDigit(s[k])
  }

  /** `${i}` for a non-negative integer: its decimal digits, most significant first, no leading zero. */
  function Decimal(n: nat): (s: string)
    ensures |s| > 0 && AllDigits(s)
    ensures s[0] == '0' ==> n == 0
    decreases n
  {
    if n < 10 then [DigitChar(n)]
    else Decimal(n / 10) + [DigitChar(n % 10)]
  }

  /** The value of a string of decimal digits. */
  function ParseDecimal(s: string): nat
    requires AllDigits(s)
  {
    if |s| == 0 then 0
    else 10 * ParseDecimal(s[..|s| - 1]) + DigitValue(s[|s| - 1])
  }

  /** Reading the decimal form back gives the number. */
  lemma {:induction false} DecimalRoundTrip(n: nat)
    ensures ParseDecimal(Decimal(n)) == n
    decreases n
  {
    var s := Decimal(n);
    if n >= 10 {
      DecimalRoundTrip(n / 10);
      assert s[..|s| - 1] == Decimal(n / 10);
      assert DigitValue(DigitChar(n % 10)) == n % 10;
    }
  }

  /** The longest run of digits at the end of `s`. */
  function TrailingDigits(s: string): (d: string)
    ensures AllDigits(d)
  {
    if |s| == 0 || !IsDigit(s[|s| - 1]) then []
    else TrailingDigits(s[..|s| - 1]) + [s[|s| - 1]]
  }

  /** Digits appended after a non-digit are exactly the trailing digits. */
  lemma {:induction false} TrailingDigitsAfter(a: string, d: string)
    requires |a| > 0 && !IsDigit(a[|a| - 1]) && AllDigits(d)
    ensures TrailingDigits(a + d) == d
    decreases |d|
  {
    if |d| == 0 {
      assert a + d == a;
    } else {
      assert (a + d)[..|a + d| - 1] == a + d[..|d| - 1];
      TrailingDigitsAfter(a, d[..|d| - 1]);
      assert d == d[..|d| - 1] + [d[|d| - 1]];
    }
  }

  /** Line `i` without its terminator. */
  function LineBody(ts: string, i: nat): string {
    ts + " [" + Level(i) + "] System process ID " + Decimal(i)
  }

  /** Line `i` as written: the body and one '\n'. */
  function GenLine(ts: string, i: nat): string {
    LineBody(ts, i) + "\n"
  }

  /** Line `i` ends with the decimal form of `i`, and that number reads back as `i`. */
  lemma LineEmbedsIndex(ts: string, i: nat)
    ensures ParseDecimal(TrailingDigits(LineBody(ts, i))) == i
  {
    var a := ts + " [" + Level(i) + "] System process ID ";
    assert LineBody(ts, i) == a + Decimal(i);
    assert a[|a| - 1] == ' ';
    TrailingDigitsAfter(a, Decimal(i));
    DecimalRoundTrip(i);
  }

  /**
   In `ts [LEVEL<rest>` with no other '[' the marker can only start at the one
   '[', so the text contains it exactly when the level is ERROR.
   */
  lemma MarkerOnlyAtLevel(ts: string, i: nat, rest: string)
    requires '[' !in ts && '[' !in rest
    requires |rest| > 0 && rest[0] == ']'
    ensures Contains(ts + " [" + Level(i) + rest, Marker) <==> i % 10 == 0
  {
    var a := ts + " ";
    var b := Level(i) + rest;
    var s := a + ['['] + b;
    assert ts + " [" + Level(i) + rest == s;
    assert '[' !in a;
    assert '[' !in Level(i);
    assert '[' !in b;
    OnlyAt(a, '[', b);
    ContainsAtUniqueStart(s, Marker, |a|);
    if i % 10 == 0 {
      assert s[|a|..|a| + |Marker|] == Marker;
    } else {
      assert s[|a| + 1] == 'I' != Marker[1];
    }
  }

  /** Line `i` (with or without its terminator) contains the marker iff `i % 10 == 0`. */
  lemma LineIsErrorIff(ts: string, i: nat)
    requires '[' !in ts
    ensures IsError(LineBody(ts, i)) <==> i % 10 == 0
    ensures IsError(GenLine(ts, i)) <==> i % 10 == 0
  {
    var d := Decimal(i);
    var rest := "] System process ID " + d;
    assert '[' !in d;
    assert '[' !in rest;
    MarkerOnlyAtLevel(ts, i, rest);
    assert LineBody(ts, i) == ts + " [" + Level(i) + rest;
    MarkerOnlyAtLevel(ts, i, rest + "\n");
    assert GenLine(ts, i) == ts + " [" + Level(i) + (rest + "\n");
  }

  /** A line holds one '\n', at its end, when the timestamp holds none. */
  lemma LineTerminated(ts: string, i: nat)
    requires '\n' !in ts
    ensures '\n' !in LineBody(ts, i)
    ensures var line := GenLine(ts, i);
            line[|line| - 1] == '\n' && CountChar(line, '\n') == 1
  {
    var d := Decimal(i);
    assert '\n' !in d;
    assert '\n' !in Level(i);
    assert '\n' !in LineBody(ts, i);
    CountCharAppend(LineBody(ts, i), "\n", '\n');
  }

  /** The number of indices `i < n` with `i % 10 == 0`, counted one index at a time. */
  function ErrorIndices(n: nat): nat {
    if n == 0 then 0
    else ErrorIndices(n - 1) + (if (n - 1) % 10 == 0 then 1 else 0)
  }

  /** One index in ten, starting with 0, is an ERROR index. */
  lemma {:induction false} ErrorIndicesClosedForm(n: nat)
    ensures ErrorIndices(n) == (n + 9) / 10
  {
    if n > 0 {
      ErrorIndicesClosedForm(n - 1);
    }
  }

  /** The lines written for the given timestamps, line `i` stamped with `stamps[i]`, without terminators. */
  function Bodies(stamps: seq<string>): (lines: seq<string>)
    ensures |lines| == |stamps|
  {
    seq(|stamps|, i requires 0 <= i < |stamps| => LineBody(stamps[i], i))
  }

  /** The whole file the script writes: every line with its '\n', in index order. */
  function LogText(stamps: seq<string>): string {
    Concat(seq(|stamps|, i requires 0 <= i < |stamps| => GenLine(stamps[i], i)))
  }

  predicate NoBracket(stamps: seq<string>) {
    forall k :: 0 <= k < |stamps| ==> '[' !in stamps[k]
  }

  predicate NoNewline(stamps: seq<string>) {
    forall k :: 0 <= k < |stamps| ==> '\n' !in stamps[k]
  }

  /** Among the first `n` lines, the marked ones are the ERROR indices. */
  lemma {:induction false} PrefixErrorCount(stamps: seq<string>, n: nat)
    requires NoBracket(stamps) && n <= |stamps|
    ensures CountErrors(Bodies(stamps)[..n]) == ErrorIndices(n)
  {
    var lines := Bodies(stamps);
    if n > 0 {
      PrefixErrorCount(stamps, n - 1);
      assert lines[..n] == lines[..n - 1] + [lines[n - 1]];
      CountAppend(lines[..n - 1], [lines[n - 1]]);
      LineIsErrorIff(stamps[n - 1], n - 1);
    }
  }

  /** Over lines `0..n-1` there are `(n + 9) / 10` marked lines. */
  lemma GeneratedErrorCount(stamps: seq<string>)
    requires NoBracket(stamps)
    ensures CountErrors(Bodies(stamps)) == (|stamps| + 9) / 10
  {
    PrefixErrorCount(stamps, |stamps|);
    assert Bodies(stamps)[..|stamps|] == Bodies(stamps);
    ErrorIndicesClosedForm(|stamps|);
  }

  /** The script's million lines hold exactly one hundred thousand marked lines. */
  lemma MillionLinesHundredThousandErrors(stamps: seq<string>)
    requires NoBracket(stamps) && |stamps| == LineCount
    ensures CountErrors(Bodies(stamps)) == 100000
  {
    GeneratedErrorCount(stamps);
  }

  /** The generated lines come in index order: line `i` carries the number `i`. */
  lemma GeneratedLinesInOrder(stamps: seq<string>)
    ensures forall i :: 0 <= i < |stamps| ==> ParseDecimal(TrailingDigits(Bodies(stamps)[i])) == i
  {
    forall i | 0 <= i < |stamps|
      ensures ParseDecimal(TrailingDigits(Bodies(stamps)[i])) == i
    {
      LineEmbedsIndex(stamps[i], i);
    }
  }

  /**
   The file is its line bodies joined by '\n' with a final '\n', so a line-aware
   reader (and a single-chunk split) sees exactly the generated lines in order.
   */
  lemma {:induction false} LogTextIsJoinedBodies(stamps: seq<string>)
    requires |stamps| > 0
    ensures LogText(stamps) == Join(Bodies(stamps), '\n') + "\n"
    decreases |stamps|
  {
    var n := |stamps|;
    var all := seq(n, i requires 0 <= i < n => GenLine(stamps[i], i));
    if n == 1 {
      assert all == [GenLine(stamps[0], 0)];
      assert Concat(all) == GenLine(stamps[0], 0) + Concat([]);
      assert Bodies(stamps) == [LineBody(stamps[0], 0)];
    } else {
      var init := stamps[..n - 1];
      LogTextIsJoinedBodies(init);
      var front := seq(n - 1, i requires 0 <= i < n - 1 => GenLine(init[i], i));
      assert all == front + [GenLine(stamps[n - 1], n - 1)];
      ConcatAppend(front, [GenLine(stamps[n - 1], n - 1)]);
      assert Concat([GenLine(stamps[n - 1], n - 1)]) == GenLine(stamps[n - 1], n - 1) + Concat([]);
      assert Bodies(stamps) == Bodies(init) + [LineBody(stamps[n - 1], n - 1)];
      JoinSnoc(Bodies(init), LineBody(stamps[n - 1], n - 1), '\n');
    }
  }
}
