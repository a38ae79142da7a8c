/** hcat with `--tail` (plugins/hcat.ts:107-304): selected rows go through the bounded
    tail, and a row over the bound empties it. */
module TailRead {
  import opened Rows
  import opened LineSplitter
  import opened RowTail
  import opened Texts
  import opened Wrappers

  // Rows of 15500 tokens of at most 128 bytes each (plugins/common.ts:8).
  const ROW_BOUND := 15500 * MAX_TOKEN_BYTES

  // A plain line limit needs no bound: nothing is counted then.
  function RowBound(limits: Limits, preview: bool): Option<nat> {
    if limits.maxLines.Some? && limits.maxTokens.None? && !preview then None else Some(ROW_BOUND)
  }

  /** How a row is printed. */
  type Format = (nat, string) -> string

  /** The printed rows after the last omitted one. */
  function SinceOmitted(rows: seq<Row>, format: Format): seq<string> {
    if rows == [] || rows[|rows| - 1].Omitted? then [] else
    var last := rows[|rows| - 1];
    SinceOmitted(rows[..|rows| - 1], format) + [format(last.number, last.content)]
  }

  predicate AnyOmitted(rows: seq<Row>) {
    exists i :: 0 <= i < |rows| && rows[i].Omitted?
  }

  // Feed the rows to the tail in order.
  method FeedTail(tail: VerifiedRowTail, rows: seq<Row>, format: Format)
    requires tail.Valid() && tail.since == [] && !tail.omitted
    modifies tail
    ensures tail.Valid() && tail.since == SinceOmitted(rows, format) && (tail.omitted <==> AnyOmitted(rows))
  {
    for i := 0 to |rows|
      invariant tail.Valid() && tail.since == SinceOmitted(rows[..i], format)
      invariant tail.omitted <==> AnyOmitted(rows[..i])
    {
      assert rows[..i + 1][..i] == rows[..i];
      AnyOmittedOneMore(rows, i);
      if rows[i].Omitted? {
        tail.OmitRow();
      } else {
        tail.Append(format(rows[i].number, rows[i].content));
      }
    }
    assert rows[..|rows|] == rows;
  }

  lemma AnyOmittedOneMore(rows: seq<Row>, i: nat)
    requires i < |rows|
    ensures AnyOmitted(rows[..i + 1]) <==> AnyOmitted(rows[..i]) || rows[i].Omitted?
  {
    if k :| 0 <= k < |rows[..i]| && rows[..i][k].Omitted? {
      assert rows[..i + 1][k].Omitted?;
    }
    assert rows[..i + 1][i] == rows[i];
  }

  datatype TailOutcome =
    | Read(current: string, incomplete: bool, missing: Option<Range>)
    | PastEnd(lineCount: nat)

  /** For every split of the text into chunks the answer is the one chosen from all
      selected lines of the whole text since the last one over the bound; requested
      lines that do not exist are reported. */
  method ReadTail(chunks: seq<string>, lines: Range, limits: Limits, preview: bool, count: Counter, format: Format)
      returns (outcome: TailOutcome)
    requires TokensAreShort(count) && lines.startLine <= lines.endLine
    ensures outcome.PastEnd? <==> lines.startLine > |Lines(Concat(chunks))|
    ensures outcome.PastEnd? ==> outcome.lineCount == |Lines(Concat(chunks))|
    ensures var rows := RowsFrom(Concat(chunks), 0, 1, Request(lines, RowBound(limits, preview)));
      outcome.Read? ==>
        Selection(outcome.current, outcome.incomplete)
          == Select(limits, SinceOmitted(rows, format), AnyOmitted(rows), count)
    ensures outcome.Read? ==>
      outcome.missing == if lines == Range(0, 0) || |Lines(Concat(chunks))| >= lines.endLine then None
                         else Some(Range(|Lines(Concat(chunks))| + 1, lines.endLine))
  {
    var request := Request(lines, RowBound(limits, preview));
    var rows, lineCount := SplitChunks(chunks, request);
    var report := Report(rows, lineCount, request);
    if report.PastEnd? {
      return TailOutcome.PastEnd(lineCount);
    }
    var tail := new VerifiedRowTail(limits, count);
    FeedTail(tail, rows, format);
    var current := tail.Finish();
    outcome := TailOutcome.Read(current, tail.incomplete, report.missing);
  }
}
