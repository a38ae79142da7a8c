/** The streaming splitter of hcat (plugins/hcat.ts:174-299): decoded text arrives in
    chunks of any size, and logical lines are finished as soon as they are known. A line over
    the row bound is omitted, without holding its content. */
module LineSplitter {
  import opened Rows
  import opened Texts
  import opened Wrappers

  // The requested lines; a whole-file read has both ends zero.
  datatype Range = Range(startLine: nat, endLine: nat)

  // The bytes after which the content of one row is given up, if there is a bound.
  datatype Request = Request(lines: Range, rowBound: Option<nat>)

  predicate WholeFile(range: Request) {
    range.lines == Range(0, 0)
  }

  predicate Selected(range: Request, number: nat) {
    WholeFile(range) || range.lines.startLine <= number <= range.lines.endLine
  }

  predicate TooLong(range: Request, bytes: nat) {
    range.rowBound.Some? && bytes > range.rowBound.value
  }

  /** A selected line, or the place of one that was too long. */
  datatype Row = Row(number: nat, content: string) | Omitted(number: nat)

  function RowOf(range: Request, number: nat, content: string): Row {
    if TooLong(range, Size(content)) then Omitted(number) else Row(number, content)
  }

  // ---- The reference: lines of the whole text ------------------------------------------

  function ContentOf(text: string, line: Line): string
    requires line.start <= line.contentEnd <= |text|
  {
    text[line.start..line.contentEnd]
  }

  /** The selected lines from an offset on, numbered from `number`. */
  function RowsFrom(text: string, start: nat, number: nat, range: Request): seq<Row>
    requires start <= |text|
    decreases |text| - start
  {
    if start == |text| then [] else
    var line := LineAt(text, start);
    (if Selected(range, number) then [RowOf(range, number, ContentOf(text, line))] else [])
    + RowsFrom(text, line.end, number + 1, range)
  }

  const EVERYTHING := Request(Range(0, 0), None)

  /** Row `i + 1` of a whole-file read without a bound is line `i` of the text. */
  lemma {:induction false} RowsAreLines(text: string, start: nat, number: nat)
    requires start <= |text|
    ensures var rows, lines := RowsFrom(text, start, number, EVERYTHING), LinesFrom(text, start);
      && |rows| == |lines|
      && forall i :: 0 <= i < |lines| ==>
        LineOf(text, lines[i]) && rows[i] == Row(number + i, LineContent(text, lines[i]))
    decreases |text| - start
  {
    if start < |text| {
      var line := LineAt(text, start);
      RowsAreLines(text, line.end, number + 1);
      var rows, rest := RowsFrom(text, start, number, EVERYTHING), RowsFrom(text, line.end, number + 1, EVERYTHING);
      assert rows == [Row(number, ContentOf(text, line))] + rest;
    }
  }

  ghost predicate Ascending(rows: seq<Row>, from: nat, to: nat) {
    && (forall k :: 0 <= k < |rows| ==> from <= rows[k].number < to)
    && (forall j, k :: 0 <= j < k < |rows| ==> rows[j].number < rows[k].number)
  }

  lemma AscendingFirst(first: seq<Row>, rest: seq<Row>, number: nat, to: nat)
    requires Ascending(rest, number + 1, to) && number < to
    requires first == [] || (|first| == 1 && first[0].number == number)
    ensures Ascending(first + rest, number, to)
  {
  }

  /** Rows are numbered upwards, within the lines of the text. */
  lemma {:induction false} RowsAscend(text: string, start: nat, number: nat, range: Request)
    requires start <= |text|
    ensures Ascending(RowsFrom(text, start, number, range), number, number + |LinesFrom(text, start)|)
    decreases |text| - start
  {
    if start < |text| {
      var line := LineAt(text, start);
      RowsAscend(text, line.end, number + 1, range);
      RowsStep(text, start, line.contentEnd, line.end, number, range);
      AscendingFirst(
        if Selected(range, number) then [RowOf(range, number, text[start..line.contentEnd])] else [],
        RowsFrom(text, line.end, number + 1, range), number, number + |LinesFrom(text, start)|);
    }
  }

  // A line is wanted when the file is read whole or its number is in the range.
  predicate IsWanted(range: Request, number: nat) {
    (range.lines.startLine == 0 && range.lines.endLine == 0)
    || (range.lines.startLine <= number && number <= range.lines.endLine)
  }

  // The row that stands for a wanted line: its content, if that is within the bound.
  predicate StandsFor(row: Row, number: nat, content: string, bound: Option<nat>) {
    row == if bound.None? || Size(content) <= bound.value then Row(number, content) else Omitted(number)
  }

  ghost predicate ShowsLine(rows: seq<Row>, number: nat, content: string, range: Request) {
    if IsWanted(range, number) then exists row :: row in rows && StandsFor(row, number, content, range.rowBound)
    else forall row :: row in rows ==> row.number != number
  }

  ghost predicate LineShown(text: string, start: nat, number: nat, range: Request, i: nat)
    requires start <= |text|
  {
    && i < |LinesFrom(text, start)| && LineOf(text, LinesFrom(text, start)[i])
    && ShowsLine(RowsFrom(text, start, number, range), number + i, LineContent(text, LinesFrom(text, start)[i]), range)
  }

  /** A read shows a line exactly when it is asked for: by its content, or as an omitted
      row when the content is over the bound. */
  lemma {:induction false} RowsShowLines(text: string, start: nat, number: nat, range: Request, i: nat)
    requires start <= |text| && i < |LinesFrom(text, start)|
    ensures LineShown(text, start, number, range, i)
    decreases i
  {
    if i == 0 {
      FirstLineShown(text, start, number, range);
    } else {
      RowsShowLines(text, LineAt(text, start).end, number + 1, range, i - 1);
      LaterLineShown(text, start, number, range, i);
    }
  }

  lemma RowsStart(text: string, start: nat, number: nat, range: Request)
    requires start < |text|
    ensures var line := LineAt(text, start);
      && LineOf(text, line) && LinesFrom(text, start) == [line] + LinesFrom(text, line.end)
      && StartsWith(RowsFrom(text, start, number, range), RowsFrom(text, line.end, number + 1, range), number,
                    LineContent(text, line), range)
  {
  }

  lemma FirstLineShown(text: string, start: nat, number: nat, range: Request)
    requires start < |text|
    ensures LineShown(text, start, number, range, 0)
  {
    var line := LineAt(text, start);
    RowsStart(text, start, number, range);
    RowsAscend(text, line.end, number + 1, range);
    ShownFirst(RowsFrom(text, start, number, range), RowsFrom(text, line.end, number + 1, range), number,
               LineContent(text, line), range, number + 1 + |LinesFrom(text, line.end)|);
  }

  lemma LaterLineShown(text: string, start: nat, number: nat, range: Request, i: nat)
    requires start < |text| && i > 0 && LineShown(text, LineAt(text, start).end, number + 1, range, i - 1)
    ensures LineShown(text, start, number, range, i)
  {
    var line := LineAt(text, start);
    RowsStart(text, start, number, range);
    ShownBehind(RowsFrom(text, start, number, range), RowsFrom(text, line.end, number + 1, range), number,
                LineContent(text, line), range, number + i, LineContent(text, LinesFrom(text, line.end)[i - 1]));
  }

  predicate StartsWith(rows: seq<Row>, rest: seq<Row>, number: nat, content: string, range: Request) {
    rows == (if Selected(range, number) then [RowOf(range, number, content)] else []) + rest
  }

  lemma ShownFirst(rows: seq<Row>, rest: seq<Row>, number: nat, content: string, range: Request, to: nat)
    requires StartsWith(rows, rest, number, content, range) && Ascending(rest, number + 1, to)
    ensures ShowsLine(rows, number, content, range)
  {
    if IsWanted(range, number) {
      assert rows[0] in rows && StandsFor(rows[0], number, content, range.rowBound);
    }
  }

  lemma ShownBehind(rows: seq<Row>, rest: seq<Row>, number: nat, content: string, range: Request, later: nat,
                    other: string)
    requires StartsWith(rows, rest, number, content, range) && number < later && ShowsLine(rest, later, other, range)
    ensures ShowsLine(rows, later, other, range)
  {
    if IsWanted(range, later) {
      var row :| row in rest && StandsFor(row, later, other, range.rowBound);
      assert row in rows;
    }
  }

  // ---- Where the splitter stands ------------------------------------------------------------

  // The variables of the reader.
  datatype State = State(lineNumber: nat, lineOpen: bool, pendingCR: bool, content: string,
                         contentBytes: nat, oversized: bool, rows: seq<Row>)

  // Of `text`, the first `seen` characters have arrived and the current line starts at `start`.
  ghost predicate Reading(text: string, seen: nat, start: nat, range: Request, s: State) {
    && start <= seen <= |text|
    && Accounted(text, start, range, s)
    && (s.lineOpen <==> start < seen)
    && (if s.pendingCR then
          start < seen && text[seen - 1] == '\r' && OpenContent(text, start, seen - 1, range, s)
        else OpenContent(text, start, seen, range, s))
  }

  ghost predicate OpenContent(text: string, start: nat, end: nat, range: Request, s: State)
    requires start <= end <= |text|
  {
    && (forall i :: start <= i < end ==> !IsTerminator(text[i]))
    && Collected(text[start..end], range, s)
  }

  // What is held of the content of the current line.
  ghost predicate Collected(content: string, range: Request, s: State) {
    if !Selected(range, s.lineNumber) then s.content == "" && s.contentBytes == 0 && !s.oversized
    else if s.oversized then s.content == "" && TooLong(range, Size(content))
    else s.content == content && s.contentBytes == Size(content) && !TooLong(range, Size(content))
  }

  lemma {:induction false} ContentEndIs(text: string, start: nat, end: nat)
    requires start <= end <= |text| && forall i :: start <= i < end ==> !IsTerminator(text[i])
    requires end < |text| ==> IsTerminator(text[end])
    ensures ContentEnd(text, start) == end
    decreases end - start
  {
    if start < end {
      ContentEndIs(text, start + 1, end);
    }
  }

  /** Finish the current line; `next` is where the following one starts. */
  function Finished(s: State, range: Request): State {
    State(s.lineNumber + 1, false, false, "", 0, false,
          s.rows + if Selected(range, s.lineNumber) then [CurrentRow(s)] else [])
  }

  function CurrentRow(s: State): Row {
    if s.oversized then Omitted(s.lineNumber) else Row(s.lineNumber, s.content)
  }

  lemma RowsStep(text: string, start: nat, contentEnd: nat, next: nat, number: nat, range: Request)
    requires start < next <= |text| && LineAt(text, start) == Line(start, contentEnd, next)
    ensures start <= contentEnd <= |text|
    ensures RowsFrom(text, start, number, range)
            == (if Selected(range, number) then [RowOf(range, number, text[start..contentEnd])] else [])
                + RowsFrom(text, next, number + 1, range)
    ensures |LinesFrom(text, start)| == 1 + |LinesFrom(text, next)|
  {
  }

  // Lines that are complete leave the rest of the text to be read.
  ghost predicate Accounted(text: string, start: nat, range: Request, s: State)
    requires start <= |text|
  {
    && s.rows + RowsFrom(text, start, s.lineNumber, range) == RowsFrom(text, 0, 1, range)
    && s.lineNumber + |LinesFrom(text, start)| == 1 + |Lines(text)|
  }

  lemma RowsJoin(rows: seq<Row>, row: seq<Row>, rest: seq<Row>)
    ensures rows + (row + rest) == rows + row + rest
  {
  }

  lemma FinishLine(text: string, start: nat, contentEnd: nat, next: nat, range: Request, s: State)
    requires start < next <= |text| && LineAt(text, start) == Line(start, contentEnd, next)
    requires Accounted(text, start, range, s)
    requires start <= contentEnd <= |text| && Collected(text[start..contentEnd], range, s)
    ensures Accounted(text, next, range, Finished(s, range))
  {
    RowsStep(text, start, contentEnd, next, s.lineNumber, range);
    var row := if Selected(range, s.lineNumber) then [CurrentRow(s)] else [];
    RowsJoin(s.rows, row, RowsFrom(text, next, s.lineNumber + 1, range));
  }

  lemma LineEndsAt(text: string, start: nat, contentEnd: nat)
    requires start <= contentEnd <= |text| && start < |text|
    requires forall i :: start <= i < contentEnd ==> !IsTerminator(text[i])
    requires contentEnd < |text| ==> IsTerminator(text[contentEnd])
    ensures LineAt(text, start) == Line(start, contentEnd,
              if contentEnd == |text| then contentEnd
              else if text[contentEnd] == '\r' && contentEnd + 1 < |text| && text[contentEnd + 1] == '\n' then
                contentEnd + 2
              else contentEnd + 1)
  {
    ContentEndIs(text, start, contentEnd);
  }

  /** The character after a CR decides where the line ends. */
  lemma AfterCR(text: string, seen: nat, start: nat, range: Request, s: State)
    requires Reading(text, seen, start, range, s) && s.pendingCR && seen < |text|
    ensures var next := if text[seen] == '\n' then seen + 1 else seen;
      Reading(text, next, next, range, Finished(s, range))
  {
    LineEndsAt(text, start, seen - 1);
    FinishLine(text, start, seen - 1, if text[seen] == '\n' then seen + 1 else seen, range, s);
  }

  function Appended(s: State, range: Request, more: string): State {
    if more == "" then s
    else if !Selected(range, s.lineNumber) || s.oversized then s.(lineOpen := true)
    else
      var bytes := s.contentBytes + Size(more);
      if TooLong(range, bytes) then s.(lineOpen := true, content := "", contentBytes := bytes, oversized := true)
      else s.(lineOpen := true, content := s.content + more, contentBytes := bytes)
  }

  lemma CollectMore(content: string, more: string, range: Request, s: State)
    requires Collected(content, range, s)
    ensures Collected(content + more, range, Appended(s, range, more))
  {
    SizeConcat(content, more);
    assert more == "" ==> content + more == content;
  }

  lemma OpenMore(text: string, seen: nat, end: nat, start: nat, range: Request, s: State)
    requires start <= seen <= end <= |text| && OpenContent(text, start, seen, range, s)
    requires forall i :: seen <= i < end ==> !IsTerminator(text[i])
    ensures OpenContent(text, start, end, range, Appended(s, range, text[seen..end]))
  {
    CollectMore(text[start..seen], text[seen..end], range, s);
    assert text[start..seen] + text[seen..end] == text[start..end];
  }

  lemma AppendedKeeps(text: string, start: nat, range: Request, s: State, more: string)
    requires start <= |text| && Accounted(text, start, range, s)
    ensures Accounted(text, start, range, Appended(s, range, more))
    ensures Appended(s, range, more).pendingCR == s.pendingCR
    ensures Appended(s, range, more).lineOpen <==> s.lineOpen || more != ""
  {
  }

  lemma MoreContent(text: string, seen: nat, end: nat, start: nat, range: Request, s: State)
    requires Reading(text, seen, start, range, s) && !s.pendingCR && seen <= end <= |text|
    requires forall i :: seen <= i < end ==> !IsTerminator(text[i])
    ensures Reading(text, end, start, range, Appended(s, range, text[seen..end]))
  {
    OpenMore(text, seen, end, start, range, s);
    AppendedKeeps(text, start, range, s, text[seen..end]);
    assert |text[seen..end]| == end - seen;
  }

  lemma AtLF(text: string, seen: nat, start: nat, range: Request, s: State)
    requires Reading(text, seen, start, range, s) && !s.pendingCR && seen < |text| && text[seen] == '\n'
    ensures Reading(text, seen + 1, seen + 1, range, Finished(s, range))
  {
    LineEndsAt(text, start, seen);
    FinishLine(text, start, seen, seen + 1, range, s);
  }

  lemma AtCR(text: string, seen: nat, start: nat, range: Request, s: State)
    requires Reading(text, seen, start, range, s) && !s.pendingCR && seen < |text| && text[seen] == '\r'
    ensures Reading(text, seen + 1, start, range, s.(pendingCR := true, lineOpen := true))
  {
  }

  /** At the end of the text an open line is finished as it is. */
  lemma AtEnd(text: string, start: nat, range: Request, s: State)
    requires Reading(text, |text|, start, range, s)
    ensures var last := if s.lineOpen then Finished(s, range) else s;
      last.rows == RowsFrom(text, 0, 1, range) && last.lineNumber == 1 + |Lines(text)|
  {
    if s.lineOpen {
      var contentEnd := if s.pendingCR then |text| - 1 else |text|;
      LineEndsAt(text, start, contentEnd);
      FinishLine(text, start, contentEnd, |text|, range, s);
      NothingLeft(text, Finished(s, range), range);
    } else {
      NothingLeft(text, s, range);
    }
  }

  lemma NothingLeft(text: string, s: State, range: Request)
    requires Accounted(text, |text|, range, s)
    ensures s.rows == RowsFrom(text, 0, 1, range) && s.lineNumber == 1 + |Lines(text)|
  {
    assert s.rows + [] == s.rows;
  }

  // String.prototype.indexOf with a start: the first place, or none.
  function IndexFrom(text: string, c: char, offset: nat): (index: Option<nat>)
    requires offset <= |text|
    ensures index.Some? ==> offset <= index.value < |text| && text[index.value] == c
    ensures index.Some? ==> forall i :: offset <= i < index.value ==> text[i] != c
    ensures index.None? ==> forall i :: offset <= i < |text| ==> text[i] != c
    decreases |text| - offset
  {
    if offset == |text| then None else if text[offset] == c then Some(offset) else IndexFrom(text, c, offset + 1)
  }

  // The end of the text or the first terminator from an offset on.
  method NextTerminator(text: string, offset: nat) returns (end: nat)
    requires offset <= |text|
    ensures offset <= end <= |text| && (end < |text| ==> IsTerminator(text[end]))
    ensures forall i :: offset <= i < end ==> !IsTerminator(text[i])
  {
    var cr, lf := IndexFrom(text, '\r', offset), IndexFrom(text, '\n', offset);
    end := |text|;
    if cr.Some? {
      end := cr.value;
    }
    if lf.Some? && lf.value < end {
      end := lf.value;
    }
  }

  // The chunk is where it should be in the text.
  ghost predicate IsPart(whole: string, before: nat, text: string) {
    before + |text| <= |whole| && whole[before..before + |text|] == text
  }

  lemma PartAt(whole: string, before: nat, text: string, i: nat)
    requires IsPart(whole, before, text) && i < |text|
    ensures before + i < |whole| && whole[before + i] == text[i]
  {
    assert whole[before..before + |text|][i] == whole[before + i];
  }

  lemma PartSlice(whole: string, before: nat, text: string, from: nat, to: nat)
    requires IsPart(whole, before, text) && from <= to <= |text|
    ensures whole[before + from..before + to] == text[from..to]
  {
    forall i | from <= i < to ensures whole[before + i] == text[i] {
      PartAt(whole, before, text, i);
    }
  }

  // Content of the chunk up to a terminator.
  lemma PlainSlice(whole: string, before: nat, text: string, from: nat, to: nat)
    requires IsPart(whole, before, text) && from <= to <= |text|
    requires forall i :: from <= i < to ==> !IsTerminator(text[i])
    ensures var more := text[from..to];
      && before + to == before + from + |more| <= |whole| && whole[before + from..before + to] == more
      && forall i :: 0 <= i < |more| ==> !IsTerminator(more[i])
  {
    PartSlice(whole, before, text, from, to);
  }

  lemma SameCharacters(whole: string, seen: nat, more: string)
    requires seen + |more| <= |whole| && whole[seen..seen + |more|] == more
    requires forall i :: 0 <= i < |more| ==> !IsTerminator(more[i])
    ensures forall i :: seen <= i < seen + |more| ==> !IsTerminator(whole[i])
  {
    forall i | seen <= i < seen + |more| ensures whole[i] == more[i - seen] {
      PartAt(whole, seen, more, i - seen);
    }
  }

  lemma ReadMore(whole: string, seen: nat, more: string, after: nat, start: nat, range: Request, s: State)
    requires Reading(whole, seen, start, range, s) && !s.pendingCR
    requires after == seen + |more| <= |whole| && whole[seen..after] == more
    requires forall i :: 0 <= i < |more| ==> !IsTerminator(more[i])
    ensures !Appended(s, range, more).pendingCR && Reading(whole, after, start, range, Appended(s, range, more))
  {
    SameCharacters(whole, seen, more);
    MoreContent(whole, seen, after, start, range, s);
  }

  class Splitter {
    const range: Request
    ghost const whole: string     // the text that the chunks make up
    var lineNumber: nat
    var lineOpen: bool
    var pendingCR: bool
    var content: string
    var contentBytes: nat
    var oversizedRow: bool
    var rows: seq<Row>
    ghost var start: nat

    ghost function View(): State
      reads this
    {
      State(lineNumber, lineOpen, pendingCR, content, contentBytes, oversizedRow, rows)
    }

    ghost predicate At(seen: nat)
      reads this
    {
      Reading(whole, seen, start, range, View())
    }

    constructor (range: Request, ghost whole: string)
      ensures At(0) && this.range == range && this.whole == whole
    {
      this.range, this.whole := range, whole;
      lineNumber, lineOpen, pendingCR, content, rows, start := 1, false, false, "", [], 0;
      contentBytes, oversizedRow := 0, false;
    }

    method AppendContent(more: string)
      modifies this`lineOpen, this`content, this`contentBytes, this`oversizedRow
      ensures View() == Appended(old(View()), range, more)
    {
      if more == "" {
        return;
      }
      lineOpen := true;
      if !Selected(range, lineNumber) || oversizedRow {
        return;
      }
      contentBytes := contentBytes + Size(more);
      if TooLong(range, contentBytes) {
        content, oversizedRow := "", true;
        return;
      }
      content := content + more;
    }

    method FinishLine()
      modifies this`lineNumber, this`lineOpen, this`pendingCR, this`content, this`contentBytes, this`oversizedRow,
          this`rows
      ensures View() == Finished(old(View()).(pendingCR := false), range)
    {
      pendingCR := false;
      if Selected(range, lineNumber) {
        rows := rows + [if oversizedRow then Omitted(lineNumber) else Row(lineNumber, content)];
      }
      oversizedRow, content, contentBytes := false, "", 0;
      lineNumber := lineNumber + 1;
      lineOpen := false;
    }

    // The line that ended with a CR is finished once the next character is known.
    method Resume(c: char, ghost seen: nat)
      requires At(seen) && pendingCR && seen < |whole| && whole[seen] == c
      modifies this
      ensures !pendingCR && At(if c == '\n' then seen + 1 else seen)
    {
      AfterCR(whole, seen, start, range, View());
      FinishLine();
      start := if c == '\n' then seen + 1 else seen;
    }

    method Grow(more: string, ghost seen: nat, ghost after: nat)
      requires At(seen) && !pendingCR && after == seen + |more| <= |whole| && whole[seen..after] == more
      requires forall i :: 0 <= i < |more| ==> !IsTerminator(more[i])
      modifies this`lineOpen, this`content, this`contentBytes, this`oversizedRow
      ensures !pendingCR && At(after)
    {
      ReadMore(whole, seen, more, after, start, range, View());
      AppendContent(more);
    }

    method MeetCR(ghost seen: nat)
      requires At(seen) && !pendingCR && seen < |whole| && whole[seen] == '\r'
      modifies this`lineOpen, this`pendingCR
      ensures At(seen + 1)
    {
      AtCR(whole, seen, start, range, View());
      lineOpen, pendingCR := true, true;
    }

    method MeetLF(ghost seen: nat)
      requires At(seen) && !pendingCR && seen < |whole| && whole[seen] == '\n'
      modifies this
      ensures At(seen + 1)
    {
      AtLF(whole, seen, start, range, View());
      ghost var finished := Finished(View(), range);
      lineOpen := true;
      FinishLine();
      start := seen + 1;
      assert View() == finished;
    }

    method Terminate(c: char, ghost seen: nat)
      requires At(seen) && !pendingCR && seen < |whole| && whole[seen] == c && IsTerminator(c)
      modifies this
      ensures At(seen + 1)
    {
      if c == '\r' {
        MeetCR(seen);
      } else {
        MeetLF(seen);
      }
    }

    // The content up to the next terminator or the end of the chunk.
    method TakeContent(text: string, offset: nat, ghost before: nat) returns (end: nat)
      requires offset < |text| && IsPart(whole, before, text) && At(before + offset) && !pendingCR
      modifies this`lineOpen, this`content, this`contentBytes, this`oversizedRow
      ensures offset <= end <= |text| && At(before + end) && !pendingCR
      ensures end < |text| ==> IsTerminator(text[end])
    {
      end := NextTerminator(text, offset);
      ghost var seen, after := before + offset, before + end;
      TakeTo(text, offset, end, before, seen, after);
    }

    method TakeTo(text: string, offset: nat, end: nat, ghost before: nat, ghost seen: nat, ghost after: nat)
      requires offset <= end <= |text| && IsPart(whole, before, text) && At(seen) && !pendingCR
      requires seen == before + offset && after == before + end
      requires forall i :: offset <= i < end ==> !IsTerminator(text[i])
      modifies this`lineOpen, this`content, this`contentBytes, this`oversizedRow
      ensures At(after) && !pendingCR
    {
      PlainSlice(whole, before, text, offset, end);
      Grow(text[offset..end], seen, after);
    }

    // A terminator in the chunk.
    method TakeTerminator(text: string, offset: nat, ghost before: nat)
      requires offset < |text| && IsPart(whole, before, text) && At(before + offset) && !pendingCR
      requires IsTerminator(text[offset])
      modifies this
      ensures At(before + offset + 1)
    {
      PartAt(whole, before, text, offset);
      Terminate(text[offset], before + offset);
    }

    // A CR at the end of what was read before.
    method TakePending(text: string, offset: nat, ghost before: nat)
      requires offset < |text| && IsPart(whole, before, text) && At(before + offset) && pendingCR
      modifies this
      ensures !pendingCR && At(before + if text[offset] == '\n' then offset + 1 else offset)
    {
      PartAt(whole, before, text, offset);
      Resume(text[offset], before + offset);
    }

    // Up to the next terminator or the end of the chunk, and past the terminator.
    method Step(text: string, offset: nat, ghost before: nat) returns (next: nat)
      requires offset < |text| && IsPart(whole, before, text) && At(before + offset)
      modifies this
      ensures offset < next <= |text| && At(before + next)
    {
      if pendingCR {
        TakePending(text, offset, before);
        if text[offset] == '\n' {
          return offset + 1;
        }
      }
      next := Scan(text, offset, before);
    }

    method Scan(text: string, offset: nat, ghost before: nat) returns (next: nat)
      requires offset < |text| && IsPart(whole, before, text) && At(before + offset) && !pendingCR
      modifies this
      ensures offset < next <= |text| && At(before + next)
    {
      var end := TakeContent(text, offset, before);
      next := Pass(text, end, before);
    }

    // Past the terminator, if the chunk has one here.
    method Pass(text: string, end: nat, ghost before: nat) returns (next: nat)
      requires end <= |text| && IsPart(whole, before, text) && At(before + end) && !pendingCR
      requires end < |text| ==> IsTerminator(text[end])
      modifies this
      ensures end <= next <= |text| && (end < |text| ==> end < next) && At(before + next)
    {
      next := end;
      if end < |text| {
        TakeTerminator(text, end, before);
        next := end + 1;
      }
    }

    /** consume */
    method Consume(text: string, ghost before: nat)
      requires At(before) && IsPart(whole, before, text)
      modifies this
      ensures At(before + |text|)
    {
      var offset := 0;
      while offset < |text|
        invariant offset <= |text| && At(before + offset)
      {
        offset := Step(text, offset, before);
      }
    }

    /** The end of the stream. */
    method Close()
      requires At(|whole|)
      modifies this
      ensures rows == RowsFrom(whole, 0, 1, range) && lineNumber == 1 + |Lines(whole)|
    {
      AtEnd(whole, start, range, View());
      if lineOpen {
        FinishLine();
      }
    }
  }

  // ---- Reading a file -------------------------------------------------------------------------

  datatype Outcome =
    | Read(rows: seq<Row>, missing: Option<Range>)
    | PastEnd(lineCount: nat)

  // What hcat reports about the lines it was asked for.
  ghost predicate Reports(outcome: Outcome, rows: seq<Row>, lines: nat, range: Request) {
    && (outcome.PastEnd? <==> range.lines.startLine > lines)
    && (outcome.Read? ==> outcome.rows == rows)
    && (outcome.Read? && !WholeFile(range) ==>
          outcome.missing == if lines < range.lines.endLine then Some(Range(lines + 1, range.lines.endLine)) else None)
    && (outcome.Read? && WholeFile(range) ==> outcome.missing == None)
  }

  method Report(rows: seq<Row>, lineCount: nat, range: Request) returns (outcome: Outcome)
    requires range.lines.startLine <= range.lines.endLine
    ensures Reports(outcome, rows, lineCount, range)
  {
    if range.lines.startLine > lineCount {
      return PastEnd(lineCount);
    }
    var end := range.lines.endLine;
    var firstMissing := if range.lines.startLine > lineCount + 1 then range.lines.startLine else lineCount + 1;
    outcome := Read(rows, if !WholeFile(range) && firstMissing <= end then Some(Range(firstMissing, end)) else None);
  }

  lemma ConcatOneMore(chunks: seq<string>, i: nat)
    requires i < |chunks|
    ensures Concat(chunks[..i + 1]) == Concat(chunks[..i]) + chunks[i]
  {
    assert chunks[..i + 1] == chunks[..i] + ([chunks[i]] + []);
    ConcatSplit(chunks[..i], [chunks[i]] + []);
    ConcatFirst(chunks[i], []);
  }

  lemma PartOfThree(before: string, text: string, after: string, whole: string)
    requires whole == before + text + after
    ensures IsPart(whole, |before|, text)
  {
  }

  lemma ChunkFits(chunks: seq<string>, i: nat)
    requires i < |chunks|
    ensures IsPart(Concat(chunks), |Concat(chunks[..i])|, chunks[i])
  {
    assert chunks == chunks[..i + 1] + chunks[i + 1..];
    ConcatSplit(chunks[..i + 1], chunks[i + 1..]);
    ConcatOneMore(chunks, i);
    PartOfThree(Concat(chunks[..i]), chunks[i], Concat(chunks[i + 1..]), Concat(chunks));
  }

  // Where chunk `i` starts in the text.
  ghost function ChunkStart(chunks: seq<string>, i: nat): nat
    requires i <= |chunks|
  {
    |Concat(chunks[..i])|
  }

  lemma ChunkStarts(chunks: seq<string>)
    ensures ChunkStart(chunks, 0) == 0 && ChunkStart(chunks, |chunks|) == |Concat(chunks)|
  {
    assert chunks[..0] == [] && chunks[..|chunks|] == chunks;
  }

  lemma NextChunkStart(chunks: seq<string>, whole: string, i: nat)
    requires i < |chunks| && whole == Concat(chunks)
    ensures IsPart(whole, ChunkStart(chunks, i), chunks[i])
    ensures ChunkStart(chunks, i + 1) == ChunkStart(chunks, i) + |chunks[i]|
  {
    ChunkFits(chunks, i);
    ConcatOneMore(chunks, i);
  }

  method SplitChunks(chunks: seq<string>, range: Request) returns (rows: seq<Row>, lineCount: nat)
    ensures rows == RowsFrom(Concat(chunks), 0, 1, range) && lineCount == |Lines(Concat(chunks))|
  {
    ghost var whole := Concat(chunks);
    ChunkStarts(chunks);
    var splitter := new Splitter(range, whole);
    ghost var seen := 0;
    for i := 0 to |chunks|
      invariant fresh(splitter) && splitter.whole == whole && splitter.range == range
      invariant seen == ChunkStart(chunks, i) && splitter.At(seen)
    {
      seen := Feed(splitter, chunks, i, seen);
    }
    splitter.Close();
    rows, lineCount := splitter.rows, splitter.lineNumber - 1;
  }

  method Feed(splitter: Splitter, chunks: seq<string>, i: nat, ghost before: nat) returns (ghost seen: nat)
    requires i < |chunks| && splitter.whole == Concat(chunks) && before == ChunkStart(chunks, i) && splitter.At(before)
    modifies splitter
    ensures seen == ChunkStart(chunks, i + 1) && splitter.At(seen)
  {
    seen := ChunkStart(chunks, i + 1);
    NextChunkStart(chunks, splitter.whole, i);
    FeedText(splitter, chunks[i], before, seen);
  }

  method FeedText(splitter: Splitter, text: string, ghost before: nat, ghost after: nat)
    requires IsPart(splitter.whole, before, text) && after == before + |text| && splitter.At(before)
    modifies splitter
    ensures splitter.At(after)
  {
    splitter.Consume(text, before);
  }

  /** For every split of the text into chunks, the rows are the selected logical lines
      of the whole text; requested lines that do not exist are reported. */
  method ReadChunks(chunks: seq<string>, range: Request) returns (outcome: Outcome)
    requires range.lines.startLine <= range.lines.endLine
    ensures Reports(outcome, RowsFrom(Concat(chunks), 0, 1, range), |Lines(Concat(chunks))|, range)
  {
    var rows, lineCount := SplitChunks(chunks, range);
    outcome := Report(rows, lineCount, range);
  }
}
