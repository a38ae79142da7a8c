/** Logical lines (internal/verifiedrow/row.go): CR, LF and CRLF end a line, and
    a final terminator does not start another one. */
module Rows {
  datatype Line = Line(start: nat, contentEnd: nat, end: nat)

  predicate IsTerminator(c: char) {
    c == '\r' || c == '\n'
  }

  function ContentEnd(text: string, start: nat): (end: nat)
    requires start <= |text|
    ensures start <= end <= |text|
    ensures forall i :: start <= i < end ==> !IsTerminator(text[i])
    ensures end < |text| ==> IsTerminator(text[end])
    decreases |text| - start
  {
    if start == |text| || IsTerminator(text[start]) then start else ContentEnd(text, start + 1)
  }

  function LineAt(text: string, start: nat): (line: Line)
    requires start < |text|
    ensures line.start == start < line.end <= |text| && line.contentEnd <= line.end
  {
    var contentEnd := ContentEnd(text, start);
    var end :=
      if contentEnd == |text| then contentEnd
      else if text[contentEnd] == '\r' && contentEnd + 1 < |text| && text[contentEnd + 1] == '\n' then contentEnd + 2
      else contentEnd + 1;
    Line(start, contentEnd, end)
  }

  function LinesFrom(text: string, start: nat): seq<Line>
    requires start <= |text|
    decreases |text| - start
  {
    if start == |text| then [] else [LineAt(text, start)] + LinesFrom(text, LineAt(text, start).end)
  }

  function Lines(text: string): seq<Line> {
    LinesFrom(text, 0)
  }

  method ScanLines(text: string) returns (lines: seq<Line>)
    ensures lines == Lines(text)
  {
    lines := [];
    var start := 0;
    while start < |text|
      invariant start <= |text| && lines + LinesFrom(text, start) == Lines(text)
      decreases |text| - start
    {
      var line := LineAt(text, start);
      assert lines + LinesFrom(text, start) == (lines + [line]) + LinesFrom(text, line.end);
      lines := lines + [line];
      start := line.end;
    }
  }

  predicate LineOf(text: string, line: Line) {
    line.start < |text| && line == LineAt(text, line.start)
  }

  function LineContent(text: string, line: Line): string
    requires LineOf(text, line)
  {
    text[line.start..line.contentEnd]
  }

  /** How a line ends: with CRLF, LF or a CR that no LF follows, or with the text. Its
      content holds no terminator. */
  lemma LineEnds(text: string, line: Line)
    requires LineOf(text, line)
    ensures line.start <= line.contentEnd <= line.end <= |text|
    ensures forall k :: line.start <= k < line.contentEnd ==> text[k] != '\r' && text[k] != '\n'
    ensures var ending := text[line.contentEnd..line.end];
      || ending == "\r\n" || ending == "\n" || (ending == "" && line.end == |text|)
      || (ending == "\r" && (line.end < |text| ==> text[line.end] != '\n'))
  {
    if line.end == line.contentEnd + 1 {
      assert text[line.contentEnd..line.end] == [text[line.contentEnd]];
    } else if line.end == line.contentEnd + 2 {
      assert text[line.contentEnd..line.end] == "\r\n";
    }
  }

  /** Logical lines are consecutive nonempty extents that cover the text. */
  lemma {:induction false} LinesPartition(text: string, start: nat)
    requires start <= |text|
    ensures var lines := LinesFrom(text, start);
      && (forall i :: 0 <= i < |lines| ==> start <= lines[i].start && LineOf(text, lines[i]))
      && (forall i :: 0 <= i < |lines| ==> lines[i].end == if i + 1 < |lines| then lines[i + 1].start else |text|)
      && (if lines == [] then start == |text| else lines[0].start == start)
    decreases |text| - start
  {
    if start < |text| {
      LinesPartition(text, LineAt(text, start).end);
    }
  }

  lemma {:induction false} LinesAscend(text: string, i: nat, j: nat)
    requires i < j < |Lines(text)|
    ensures Lines(text)[i].end <= Lines(text)[j].start
    decreases j
  {
    LinesPartition(text, 0);
    if i + 1 < j {
      LinesAscend(text, i, j - 1);
    }
  }

  // A slice that is one logical line: its content, then at most one terminator.
  predicate IsRow(row: string, contentLength: nat) {
    && contentLength <= |row|
    && (forall i :: 0 <= i < contentLength ==> !IsTerminator(row[i]))
    && (|| row[contentLength..] == "" || row[contentLength..] == "\n" || row[contentLength..] == "\r"
        || row[contentLength..] == "\r\n")
  }

  lemma LineIsRow(text: string, line: Line)
    requires LineOf(text, line)
    ensures IsRow(text[line.start..line.end], line.contentEnd - line.start)
  {
    var row := text[line.start..line.end];
    var n := line.contentEnd - line.start;
    if line.end == line.contentEnd + 1 {
      assert row[n..] == [text[line.contentEnd]];
    } else if line.end == line.contentEnd + 2 {
      assert row[n..] == "\r\n";
    }
  }

  // The content length that the end of a row determines.
  function RowContentLength(row: string): nat {
    if row != "" && row[|row| - 1] == '\n' then
      if |row| > 1 && row[|row| - 2] == '\r' then |row| - 2 else |row| - 1
    else if row != "" && row[|row| - 1] == '\r' then |row| - 1
    else |row|
  }

  lemma RowContentUnique(row: string, n: nat)
    requires IsRow(row, n)
    ensures n == RowContentLength(row)
  {
    assert |row| == n + |row[n..]|;
    assert forall i :: n <= i < |row| ==> row[i] == row[n..][i - n];
  }

  lemma FrontOfSlice(text: string, a: nat, b: nat, c: nat)
    requires a <= b <= c <= |text|
    ensures text[a..c][..b - a] == text[a..b]
  {
  }

  lemma ContentOfRow(text: string, line: Line)
    requires LineOf(text, line)
    ensures var row := text[line.start..line.end];
      LineContent(text, line) == row[..RowContentLength(row)]
  {
    var row, n := text[line.start..line.end], line.contentEnd - line.start;
    LineIsRow(text, line);
    RowContentUnique(row, n);
    FrontOfSlice(text, line.start, line.contentEnd, line.end);
  }

  /** Equal extents of two texts that are logical lines in both have equal content. */
  lemma SameExtentSameContent(left: string, a: Line, right: string, b: Line)
    requires LineOf(left, a) && LineOf(right, b) && left[a.start..a.end] == right[b.start..b.end]
    ensures LineContent(left, a) == LineContent(right, b)
  {
    ContentOfRow(left, a);
    ContentOfRow(right, b);
  }
}
