/**
 The classification both consumers of the log share: a line is an error line when
 it contains the literal marker `[ERROR]` (a case-sensitive substring test, no
 parsing), and the order-preserving selection of such lines.
 */
module LogLines {
  import opened Strings

  /** The fixed marker substring. */
  const Marker: string := "[ERROR]"

  predicate IsError(line: string) {
    Contains(line, Marker)
  }

  /** `a` can be obtained from `b` by deleting elements: same order, nothing repeated. */
  ghost predicate IsSubsequence<T>(a: seq<T>, b: seq<T>)
    decreases |b|
  {
    if |a| == 0 then true
    else if |b| == 0 then false
    else (a[0] == b[0] && IsSubsequence(a[1..], b[1..])) || IsSubsequence(a, b[1..])
  }

  /** `lines.filter(line => line.includes('[ERROR]'))` */
  function FilterErrors(lines: seq<string>): (r: seq<string>)
    ensures |r| <= |lines|
    ensures forall k :: 0 <= k < |r| ==> IsError(r[k])
    ensures forall x :: x in r <==> x in lines && IsError(x)
    ensures IsSubsequence(r, lines)
  {
    if |lines| == 0 then []
    else if IsError(lines[0]) then [lines[0]] + FilterErrors(lines[1..])
    else FilterErrors(lines[1..])
  }

  /** The number of error lines, counted one line at a time. */
  function CountErrors(lines: seq<string>): nat {
    if |lines| == 0 then 0
    else (if IsError(lines[0]) then 1 else 0) + CountErrors(lines[1..])
  }

  /** The selection keeps exactly as many lines as the count says. */
  lemma {:induction false} FilterCount(lines: seq<string>)
    ensures |FilterErrors(lines)| == CountErrors(lines)
    decreases |lines|
  {
    if |lines| > 0 {
      FilterCount(lines[1..]);
    }
  }

  /** Selecting from two halves separately is selecting from the whole. */
  lemma {:induction false} FilterAppend(a: seq<string>, b: seq<string>)
    ensures FilterErrors(a + b) == FilterErrors(a) + FilterErrors(b)
    decreases |a|
  {
    if |a| == 0 {
      assert a + b == b;
    } else {
      assert (a + b)[1..] == a[1..] + b;
      FilterAppend(a[1..], b);
    }
  }

  /** Selecting from lines that all match keeps them all. */
  lemma {:induction false} FilterAllErrors(lines: seq<string>)
    requires forall k :: 0 <= k < |lines| ==> IsError(lines[k])
    ensures FilterErrors(lines) == lines
    decreases |lines|
  {
    if |lines| > 0 {
      FilterAllErrors(lines[1..]);
      assert lines == [lines[0]] + lines[1..];
    }
  }

  /** The count is additive over concatenation. */
  lemma CountAppend(a: seq<string>, b: seq<string>)
    ensures CountErrors(a + b) == CountErrors(a) + CountErrors(b)
  {
    FilterAppend(a, b);
    FilterCount(a);
    FilterCount(b);
    FilterCount(a + b);
  }

  /** The empty line never matches (the marker is not empty). */
  lemma EmptyIsNotError()
    ensures !IsError([])
  {
    NotContainsWithoutFirstChar([], Marker);
  }
}
