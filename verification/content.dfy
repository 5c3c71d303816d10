/**
 * Content extraction: a fenced block's content is given by the parser as an
 * ordered list of line spans, each a byte range of the document source; the
 * content is the concatenation of those ranges, line terminators included.
 */
module Content {

  /** A line of a block: the half-open range `[start, stop)` of the source. */
  datatype Span = Span(start: nat, stop: nat)

  predicate SpanWithin(source: string, line: Span) {
    line.start <= line.stop <= |source|
  }

  /** Every line span of the block lies inside the source. */
  predicate SpansWithin(source: string, lines: seq<Span>) {
    forall i :: 0 <= i < |lines| ==> SpanWithin(source, lines[i])
  }

  /** `Segment.Value(source)`: the text a span covers. */
  function Value(source: string, line: Span): string
    requires SpanWithin(source, line)
  {
    source[line.start..line.stop]
  }

  /** The texts of two adjacent spans together are the text of the span they cover. */
  lemma ValueAdjacent(source: string, start: nat, middle: nat, stop: nat)
    requires start <= middle <= stop <= |source|
    ensures Value(source, Span(start, middle)) + Value(source, Span(middle, stop))
            == Value(source, Span(start, stop))
  {
  }

  /** The block's content: the lines' text, in line order. */
  function Joined(source: string, lines: seq<Span>): string
    requires SpansWithin(source, lines)
  {
    if lines == [] then "" else Value(source, lines[0]) + Joined(source, lines[1..])
  }

  /** Sum of the lengths of the spans. */
  function TotalLength(lines: seq<Span>): int {
    if lines == [] then 0 else lines[0].stop - lines[0].start + TotalLength(lines[1..])
  }

  /** The content is exactly as long as its lines together. */
  lemma {:induction false} JoinedLength(source: string, lines: seq<Span>)
    requires SpansWithin(source, lines)
    ensures |Joined(source, lines)| == TotalLength(lines)
  {
    if lines != [] {
      JoinedLength(source, lines[1..]);
    }
  }

  /** Appending a line appends its text. */
  lemma {:induction false} JoinedSnoc(source: string, lines: seq<Span>, line: Span)
    requires SpansWithin(source, lines) && SpanWithin(source, line)
    ensures SpansWithin(source, lines + [line])
    ensures Joined(source, lines + [line]) == Joined(source, lines) + Value(source, line)
  {
    if lines == [] {
      assert lines + [line] == [line];
    } else {
      assert (lines + [line])[1..] == lines[1..] + [line];
      JoinedSnoc(source, lines[1..], line);
    }
  }

  /**
   * When each line starts where the previous one stopped, as the lines of a
   * fenced block do, the content is the source text from the first line's
   * start to the last line's stop, verbatim.
   */
  lemma {:induction false} JoinedContiguous(source: string, lines: seq<Span>)
    requires SpansWithin(source, lines)
    requires lines != []
    requires forall i :: 0 <= i < |lines| - 1 ==> lines[i].stop == lines[i + 1].start
    ensures lines[0].start <= lines[|lines| - 1].stop
    ensures Joined(source, lines) == source[lines[0].start..lines[|lines| - 1].stop]
  {
    if |lines| == 1 {
      assert Joined(source, lines[1..]) == "";
    } else {
      var rest := lines[1..];
      assert forall i :: 0 <= i < |rest| - 1 ==> rest[i].stop == rest[i + 1].start by {
        forall i | 0 <= i < |rest| - 1 ensures rest[i].stop == rest[i + 1].start {
          assert rest[i] == lines[i + 1] && rest[i + 1] == lines[i + 2];
        }
      }
      JoinedContiguous(source, rest);
      assert rest[|rest| - 1] == lines[|lines| - 1];
      var a, b, c := lines[0].start, lines[0].stop, lines[|lines| - 1].stop;
      assert rest[0].start == b;
      ValueAdjacent(source, a, b, c);
    }
  }

  /**
   * `extractCodeBlockContent`: appends the text of every line to a buffer,
   * in line order.
   */
  method ExtractCodeBlockContent(source: string, lines: seq<Span>) returns (content: string)
    requires SpansWithin(source, lines)
    ensures content == Joined(source, lines)
    ensures |content| == TotalLength(lines)
    ensures lines == [] ==> content == ""
  {
    var buf := "";
    var i := 0;
    while i < |lines|
      invariant 0 <= i <= |lines|
      invariant SpansWithin(source, lines[..i])
      invariant buf == Joined(source, lines[..i])
    {
      var line := lines[i];
      JoinedSnoc(source, lines[..i], line);
      assert lines[..i + 1] == lines[..i] + [line];
      buf := buf + Value(source, line);
      i := i + 1;
    }
    assert lines[..i] == lines;
    content := buf;
    JoinedLength(source, lines);
  }
}
