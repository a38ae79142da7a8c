/** The bounded tail of hcat (plugins/hcat.ts:105-152): rows are dropped early, by
    line count and by bytes, and only the final candidates are tokenized. */
module RowTail {
  import opened Texts
  import opened Wrappers

  // No token spans more bytes than this (plugins/tokens.ts:7).
  const MAX_TOKEN_BYTES := 128

  type Counter = string -> nat

  // The premise that makes dropping by bytes safe.
  ghost predicate TokensAreShort(count: Counter) {
    forall text :: Size(text) <= count(text) * MAX_TOKEN_BYTES
  }

  datatype Limits = Limits(maxTokens: Option<nat>, maxLines: Option<nat>)

  function TotalSize(rows: seq<string>): nat {
    if rows == [] then 0 else Size(rows[0]) + TotalSize(rows[1..])
  }

  predicate Over(limits: Limits, rows: seq<string>) {
    || (limits.maxLines.Some? && |rows| > limits.maxLines.value)
    || (limits.maxTokens.Some? && TotalSize(rows) > limits.maxTokens.value * MAX_TOKEN_BYTES)
  }

  function Last(rows: seq<string>, n: nat): (last: seq<string>)
    requires n <= |rows|
    ensures |last| == n
  {
    rows[|rows| - n..]
  }

  /** The longest suffix within both limits. */
  function Trim(limits: Limits, rows: seq<string>): seq<string> {
    if rows != [] && Over(limits, rows) then Trim(limits, rows[1..]) else rows
  }

  // ---- The reference: keep everything, choose at the end ----------------------------

  /** The last rows whose text has no more than the tokens allowed, and whether one
      was left out. */
  function Choose(rows: seq<string>, current: string, maxTokens: nat, count: Counter): (string, bool)
    decreases |rows|
  {
    if rows == [] then (current, false) else
    var candidate := rows[|rows| - 1] + current;
    if count(candidate) > maxTokens then (current, true)
    else Choose(rows[..|rows| - 1], candidate, maxTokens, count)
  }

  function LastLines(rows: seq<string>, maxLines: Option<nat>): seq<string> {
    if maxLines.Some? && |rows| > maxLines.value then Last(rows, maxLines.value) else rows
  }

  datatype Selection = Selection(current: string, incomplete: bool)

  /** The answer from all rows since the last omitted one. */
  function Select(limits: Limits, rows: seq<string>, omitted: bool, count: Counter): Selection {
    var last := LastLines(rows, limits.maxLines);
    if limits.maxTokens.None? then Selection(Concat(last), omitted || |last| < |rows|)
    else
      var chosen := Choose(last, "", limits.maxTokens.value, count);
      Selection(chosen.0, omitted || |last| < |rows| || chosen.1)
  }

  // The answer from the rows that were kept.
  function SelectKept(limits: Limits, kept: seq<string>, incomplete: bool, count: Counter): Selection {
    if limits.maxTokens.None? then Selection(Concat(kept), incomplete)
    else
      var chosen := Choose(kept, "", limits.maxTokens.value, count);
      Selection(chosen.0, incomplete || chosen.1)
  }

  // ---- What the reference chooses -----------------------------------------------------------

  ghost predicate TokensFit(rows: seq<string>, n: nat, maxTokens: nat, count: Counter)
    requires n <= |rows|
  {
    count(Concat(Last(rows, n))) <= maxTokens
  }

  // The last rows as far as one row more would be too many tokens.
  ghost predicate IsChoice(rows: seq<string>, least: nat, n: nat, maxTokens: nat, count: Counter) {
    && least <= n <= |rows|
    && (forall m: nat :: least < m <= n ==> TokensFit(rows, m, maxTokens, count))
    && (n < |rows| ==> !TokensFit(rows, n + 1, maxTokens, count))
  }

  lemma {:induction false} ChooseIs(rows: seq<string>, k: nat, maxTokens: nat, count: Counter) returns (n: nat)
    requires k <= |rows|
    ensures IsChoice(rows, k, n, maxTokens, count)
    ensures Choose(rows[..|rows| - k], Concat(Last(rows, k)), maxTokens, count)
            == (Concat(Last(rows, n)), n < |rows|)
    decreases |rows| - k
  {
    n := k;
    if k < |rows| {
      var front := rows[..|rows| - k];
      OneRowMore(rows, k);
      if TokensFit(rows, k + 1, maxTokens, count) {
        n := ChooseIs(rows, k + 1, maxTokens, count);
        assert front[..|front| - 1] == rows[..|rows| - (k + 1)];
      }
    }
  }

  lemma OneRowMore(rows: seq<string>, k: nat)
    requires k < |rows|
    ensures rows[|rows| - k - 1] + Concat(Last(rows, k)) == Concat(Last(rows, k + 1))
  {
    assert Last(rows, k + 1) == [rows[|rows| - k - 1]] + Last(rows, k);
    ConcatFirst(rows[|rows| - k - 1], Last(rows, k));
  }

  /** The answer is the text of the last rows, as many as both limits allow, and it is
      incomplete exactly when some row is missing. */
  lemma SelectIsLongest(limits: Limits, rows: seq<string>, omitted: bool, count: Counter) returns (n: nat)
    ensures n <= |rows| && (limits.maxLines.Some? ==> n <= limits.maxLines.value)
    ensures Select(limits, rows, omitted, count) == Selection(Concat(Last(rows, n)), omitted || n < |rows|)
    ensures limits.maxTokens.Some? ==>
      forall m: nat :: 0 < m <= n ==> TokensFit(rows, m, limits.maxTokens.value, count)
    ensures n < |rows| ==>
      || limits.maxLines == Some(n)
      || (limits.maxTokens.Some? && !TokensFit(rows, n + 1, limits.maxTokens.value, count))
  {
    var last := LastLines(rows, limits.maxLines);
    LastLinesAre(rows, limits.maxLines);
    n := |last|;
    if limits.maxTokens.Some? {
      n := ChooseIs(last, 0, limits.maxTokens.value, count);
      assert last[..|last|] == last && Last(last, 0) == [];
      forall m: nat | m <= |last| ensures Last(last, m) == Last(rows, m) {
        LastOfLast(rows, |last|, m);
      }
      forall m: nat | 0 < m <= n ensures TokensFit(rows, m, limits.maxTokens.value, count) {
        assert TokensFit(last, m, limits.maxTokens.value, count);
      }
    }
  }

  // ---- Trimming ------------------------------------------------------------------------

  lemma {:induction false} TotalSizeAppend(rows: seq<string>, row: string)
    ensures TotalSize(rows + [row]) == TotalSize(rows) + Size(row)
  {
    if rows == [] {
      assert [row][1..] == [];
    } else {
      assert (rows + [row])[1..] == rows[1..] + [row];
      TotalSizeAppend(rows[1..], row);
    }
  }

  lemma OverGrows(limits: Limits, rows: seq<string>, row: string)
    requires Over(limits, rows)
    ensures Over(limits, rows + [row])
  {
    TotalSizeAppend(rows, row);
  }

  /** Trimming after every row leaves what trimming once at the end would. */
  lemma {:induction false} TrimAppend(limits: Limits, rows: seq<string>, row: string)
    ensures Trim(limits, Trim(limits, rows) + [row]) == Trim(limits, rows + [row])
  {
    if rows != [] && Over(limits, rows) {
      OverGrows(limits, rows, row);
      assert (rows + [row])[1..] == rows[1..] + [row];
      TrimAppend(limits, rows[1..], row);
    }
  }

  /** What trimming keeps: a suffix within the limits, and one row more would not be. */
  lemma {:induction false} TrimIsLongest(limits: Limits, rows: seq<string>)
    ensures var kept := Trim(limits, rows);
      && |kept| <= |rows| && kept == Last(rows, |kept|)
      && (kept == [] || !Over(limits, kept))
      && (|kept| < |rows| ==> Over(limits, Last(rows, |kept| + 1)))
  {
    if rows != [] && Over(limits, rows) {
      TrimIsLongest(limits, rows[1..]);
      LastOfRest(rows, |Trim(limits, rows[1..])|);
    } else {
      assert Last(rows, |rows|) == rows;
    }
  }

  lemma LastOfRest(rows: seq<string>, n: nat)
    requires n < |rows|
    ensures Last(rows[1..], n) == Last(rows, n)
    ensures n + 1 < |rows| ==> Last(rows[1..], n + 1) == Last(rows, n + 1)
    ensures n + 1 == |rows| ==> Last(rows, n + 1) == rows
  {
  }

  // ---- Early drops are harmless ----------------------------------------------------------

  // Nothing before rows that are already too large is ever chosen.
  lemma {:induction false} ChooseStops(dropped: seq<string>, row: string, kept: seq<string>, current: string,
                                       maxTokens: nat, count: Counter)
    requires TokensAreShort(count)
    requires TotalSize([row] + kept) + Size(current) > maxTokens * MAX_TOKEN_BYTES
    ensures Choose(dropped + [row] + kept, current, maxTokens, count)
        == (Choose(kept, current, maxTokens, count).0, true)
    decreases |kept|
  {
    var rows := dropped + [row] + kept;
    if kept == [] {
      assert rows[|rows| - 1] == row && [row] + kept == [row];
      OneRowTooLarge(row, current, maxTokens, count);
    } else {
      var front, last := kept[..|kept| - 1], kept[|kept| - 1];
      assert rows[|rows| - 1] == last && rows[..|rows| - 1] == dropped + [row] + front;
      MoveLast(row, kept, current);
      if count(last + current) <= maxTokens {
        ChooseStops(dropped, row, front, last + current, maxTokens, count);
      }
    }
  }

  lemma OneRowTooLarge(row: string, current: string, maxTokens: nat, count: Counter)
    requires TokensAreShort(count) && TotalSize([row]) + Size(current) > maxTokens * MAX_TOKEN_BYTES
    ensures count(row + current) > maxTokens
  {
    assert TotalSize([row]) == Size(row) + TotalSize([]);
    SizeConcat(row, current);
    assert Size(row + current) <= count(row + current) * MAX_TOKEN_BYTES;
  }

  lemma MoveLast(row: string, kept: seq<string>, current: string)
    requires kept != []
    ensures var front, last := kept[..|kept| - 1], kept[|kept| - 1];
      TotalSize([row] + kept) + Size(current) == TotalSize([row] + front) + Size(last + current)
  {
    var front, last := kept[..|kept| - 1], kept[|kept| - 1];
    assert [row] + kept == [row] + front + [last];
    TotalSizeAppend([row] + front, last);
    SizeConcat(last, current);
  }

  // A suffix before which nothing more fits decides the choice.
  lemma ChooseEither(last: seq<string>, kept: seq<string>, maxTokens: nat, count: Counter)
    requires TokensAreShort(count) && |kept| <= |last| && kept == Last(last, |kept|)
    requires |kept| < |last| ==> TotalSize(Last(last, |kept| + 1)) > maxTokens * MAX_TOKEN_BYTES
    ensures Choose(last, "", maxTokens, count).0 == Choose(kept, "", maxTokens, count).0
    ensures Choose(last, "", maxTokens, count).1 == (|kept| < |last| || Choose(kept, "", maxTokens, count).1)
  {
    if |kept| < |last| {
      ChooseFromLast(last, kept, maxTokens, count);
    } else {
      assert kept == last;
    }
  }

  lemma ChooseFromLast(last: seq<string>, kept: seq<string>, maxTokens: nat, count: Counter)
    requires TokensAreShort(count) && |kept| < |last| && kept == Last(last, |kept|)
    requires TotalSize(Last(last, |kept| + 1)) > maxTokens * MAX_TOKEN_BYTES
    ensures Choose(last, "", maxTokens, count) == (Choose(kept, "", maxTokens, count).0, true)
  {
    var dropped, row := SplitAtKept(last, kept);
    ChooseStops(dropped, row, kept, "", maxTokens, count);
  }

  lemma ChooseFromKept(limits: Limits, rows: seq<string>, count: Counter)
    requires limits.maxTokens.Some? && TokensAreShort(count)
    ensures var kept, last := Trim(limits, rows), LastLines(rows, limits.maxLines);
      && |kept| <= |last| <= |rows|
      && Choose(last, "", limits.maxTokens.value, count).0 == Choose(kept, "", limits.maxTokens.value, count).0
      && Choose(last, "", limits.maxTokens.value, count).1
         == (|kept| < |last| || Choose(kept, "", limits.maxTokens.value, count).1)
  {
    KeptIsWithinLastLines(limits, rows);
    ChooseEither(LastLines(rows, limits.maxLines), Trim(limits, rows), limits.maxTokens.value, count);
  }

  lemma SplitAtKept(last: seq<string>, kept: seq<string>) returns (dropped: seq<string>, row: string)
    requires |kept| < |last| && kept == Last(last, |kept|)
    ensures last == dropped + [row] + kept && Last(last, |kept| + 1) == [row] + kept
  {
    dropped, row := last[..|last| - |kept| - 1], last[|last| - |kept| - 1];
  }

  predicate TooManyBytes(limits: Limits, rows: seq<string>) {
    limits.maxTokens.Some? && TotalSize(rows) > limits.maxTokens.value * MAX_TOKEN_BYTES
  }

  lemma OverByBytes(limits: Limits, rows: seq<string>)
    requires Over(limits, rows) && (limits.maxLines.Some? ==> |rows| <= limits.maxLines.value)
    ensures TooManyBytes(limits, rows)
  {
  }

  lemma LastLinesAre(rows: seq<string>, maxLines: Option<nat>)
    ensures var n := if maxLines.Some? && |rows| > maxLines.value then maxLines.value else |rows|;
      LastLines(rows, maxLines) == Last(rows, n)
  {
    assert Last(rows, |rows|) == rows;
  }

  // What is kept is no more than the last lines; if it is less, one row more is too many bytes.
  lemma KeptFits(limits: Limits, rows: seq<string>)
    ensures var kept, last := Trim(limits, rows), LastLines(rows, limits.maxLines);
      && |kept| <= |last| <= |rows| && last == Last(rows, |last|) && kept == Last(rows, |kept|)
      && (|kept| < |last| ==> TooManyBytes(limits, Last(rows, |kept| + 1)))
  {
    var kept, last := Trim(limits, rows), LastLines(rows, limits.maxLines);
    TrimIsLongest(limits, rows);
    LastLinesAre(rows, limits.maxLines);
    if |kept| < |last| {
      OverByBytes(limits, Last(rows, |kept| + 1));
    }
  }

  // What is kept is part of the last lines; if a line of them was dropped, the bytes were too many.
  lemma KeptIsWithinLastLines(limits: Limits, rows: seq<string>)
    ensures var kept, last := Trim(limits, rows), LastLines(rows, limits.maxLines);
      && |kept| <= |last| <= |rows| && kept == Last(last, |kept|) && (|kept| == |last| ==> kept == last)
      && (|kept| < |last| ==> TooManyBytes(limits, Last(last, |kept| + 1)))
  {
    KeptFits(limits, rows);
    var n, m := |LastLines(rows, limits.maxLines)|, |Trim(limits, rows)|;
    LastOfLast(rows, n, m);
    if m < n {
      LastOfLast(rows, n, m + 1);
    }
  }

  lemma LastOfLast(rows: seq<string>, n: nat, m: nat)
    requires m <= n <= |rows|
    ensures Last(Last(rows, n), m) == Last(rows, m) && Last(rows, |rows|) == rows
    ensures Last(Last(rows, n), n) == Last(rows, n)
  {
  }

  /** Dropping early gives the same text and the same incomplete flag as keeping all
      rows since the last omitted one and choosing at the end. */
  lemma EarlyDropIsHarmless(limits: Limits, rows: seq<string>, omitted: bool, count: Counter)
    requires TokensAreShort(count)
    ensures var kept := Trim(limits, rows);
      SelectKept(limits, kept, omitted || |kept| < |rows|, count) == Select(limits, rows, omitted, count)
  {
    if limits.maxTokens.None? {
      KeptIsWithinLastLines(limits, rows);
    } else {
      ChooseFromKept(limits, rows, count);
    }
  }

  // ---- The class ------------------------------------------------------------------------------

  lemma AppendKeeps(limits: Limits, since: seq<string>, row: string)
    ensures var before, kept := Trim(limits, since), Trim(limits, since + [row]);
      && Trim(limits, before + [row]) == kept
      && |before| <= |since| && |kept| <= |before| + 1
      && (|kept| < |since| + 1 <==> |before| < |since| || |kept| < |before| + 1)
  {
    TrimAppend(limits, since, row);
    TrimIsShorter(limits, since);
    TrimIsShorter(limits, Trim(limits, since) + [row]);
  }

  lemma TrimIsShorter(limits: Limits, rows: seq<string>)
    ensures |Trim(limits, rows)| <= |rows|
  {
    TrimIsLongest(limits, rows);
  }

  class VerifiedRowTail {
    const limits: Limits
    const count: Counter
    var rows: seq<string>
    var head: nat
    var bytes: int
    var incomplete: bool
    ghost var since: seq<string>   // rows since the last omitted one
    ghost var omitted: bool

    ghost predicate Running()
      reads this
    {
      head <= |rows| && bytes == TotalSize(rows[head..])
    }

    ghost predicate Valid()
      reads this
    {
      && Running() && rows[head..] == Trim(limits, since)
      && incomplete == (omitted || |rows| - head < |since|)
    }

    constructor (limits: Limits, count: Counter)
      ensures Valid() && since == [] && !omitted && this.limits == limits && this.count == count
    {
      this.limits, this.count := limits, count;
      rows, head, bytes, incomplete := [], 0, 0, false;
      since, omitted := [], false;
    }

    /** append */
    method Append(row: string)
      requires Valid()
      modifies this
      ensures Valid() && since == old(since) + [row] && omitted == old(omitted)
    {
      AppendKeeps(limits, since, row);
      Push(row);
      DropHead(Trim(limits, since) + [row]);
      since := since + [row];
      if head > 1024 {
        Compact();
      }
    }

    method Push(row: string)
      requires Running()
      modifies this`rows, this`bytes
      ensures Running() && rows[head..] == old(rows[head..]) + [row]
    {
      TotalSizeAppend(rows[head..], row);
      ghost var kept := rows[head..] + [row];
      rows := rows + [row];
      assert rows[head..] == kept;
      bytes := bytes + Size(row);
    }

    method Compact()
      requires Running()
      modifies this`rows, this`head
      ensures Running() && rows[head..] == old(rows[head..]) && |rows| - head == old(|rows| - head)
    {
      ghost var kept := rows[head..];
      rows := rows[head..];
      head := 0;
      assert rows[head..] == kept;
    }

    // The loop that drops rows from the head.
    method DropHead(ghost kept: seq<string>)
      requires Running() && rows[head..] == kept
      modifies this`rows, this`head, this`bytes, this`incomplete
      ensures Running() && rows[head..] == Trim(limits, kept)
      ensures incomplete == (old(incomplete) || |Trim(limits, kept)| < |kept|)
    {
      TrimIsLongest(limits, kept);
      while (limits.maxLines.Some? && |rows| - head > limits.maxLines.value)
        || (limits.maxTokens.Some? && bytes > limits.maxTokens.value * MAX_TOKEN_BYTES)
        invariant Running() && |rows| - head <= |kept|
        invariant Trim(limits, rows[head..]) == Trim(limits, kept)
        invariant incomplete == (old(incomplete) || |rows| - head < |kept|)
        decreases |rows| - head
      {
        ghost var now := rows[head..];
        assert Over(limits, now) && now != [];
        bytes := bytes - Size(rows[head]);
        rows := rows[head := ""];
        head := head + 1;
        assert rows[head..] == now[1..];
        incomplete := true;
      }
    }

    /** omitRow */
    method OmitRow()
      requires Valid()
      modifies this
      ensures Valid() && since == [] && omitted
    {
      rows, head, bytes, incomplete := [], 0, 0, true;
      since, omitted := [], true;
    }

    /** finish: the answer that keeping every row would have given. */
    method Finish() returns (current: string)
      requires Valid() && TokensAreShort(count)
      modifies this`incomplete
      ensures Selection(current, incomplete) == Select(limits, since, omitted, count)
    {
      EarlyDropIsHarmless(limits, since, omitted, count);
      TrimIsShorter(limits, since);
      if limits.maxTokens.None? {
        current := Concat(rows[head..]);
      } else {
        current := ChooseBackwards();
      }
    }

    method ChooseBackwards() returns (current: string)
      requires Running() && limits.maxTokens.Some?
      modifies this`incomplete
      ensures var chosen := Choose(rows[head..], "", limits.maxTokens.value, count);
        current == chosen.0 && incomplete == (old(incomplete) || chosen.1)
    {
      ghost var kept := rows[head..];
      current := "";
      var index := |rows|;
      assert rows[head..|rows|] == kept;
      while index > head
        invariant head <= index <= |rows| && incomplete == old(incomplete)
        invariant Choose(rows[head..index], current, limits.maxTokens.value, count)
            == Choose(kept, "", limits.maxTokens.value, count)
      {
        assert rows[head..index][..index - 1 - head] == rows[head..index - 1];
        var candidate := rows[index - 1] + current;
        if count(candidate) > limits.maxTokens.value {
          incomplete := true;
          return;
        }
        current := candidate;
        index := index - 1;
      }
    }
  }
}
