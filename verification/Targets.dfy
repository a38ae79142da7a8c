/** Targets of type and add (editor.go:61-134, 265-316, 485-505): rows, ranges and
    counted literal matches of the immutable baseline, and the edits they stand for. */
module Targets {
  import opened Wrappers
  import opened Edits
  import opened Rows
  import opened Editor
  import PendingText

  datatype TargetSpec =
    | LineTarget(row: Reference)
    | RangeTarget(first: Reference, last: Reference)
    | TextTarget(anchor: Reference, literal: string, count: nat)
    | LiteralTarget(literal: string, count: nat)
    | EndTarget

  // Parsed targets have a literal and a positive count (program.go:416-445).
  predicate Parsed(target: TargetSpec) {
    target.TextTarget? || target.LiteralTarget? ==> target.literal != "" && target.count > 0
  }

  type Target = target: TargetSpec | Parsed(target) witness EndTarget

  datatype TargetSpan = TargetSpan(start: nat, end: nat, linewise: bool)

  datatype TargetError = RowFailed(error: RowError) | TargetOrder | OccurrenceMissing(found: nat)

  datatype Operation = Type | Add

  // ---- Literal matches -------------------------------------------------------------------

  ghost predicate Occurs(text: string, literal: string, at: nat) {
    at + |literal| <= |text| && text[at..at + |literal|] == literal
  }

  ghost predicate IsFirst(text: string, literal: string, from: nat, at: nat) {
    from <= at && Occurs(text, literal, at) && forall i :: from <= i < at ==> !Occurs(text, literal, i)
  }

  /** The first match from an offset on. */
  ghost function FirstFrom(text: string, literal: string, from: nat): (at: Option<nat>)
    ensures at.Some? ==> from <= at.value && at.value + |literal| <= |text|
  {
    if at :| IsFirst(text, literal, from, at) then Some(at) else None
  }

  lemma OnlyFirst(text: string, literal: string, from: nat, a: nat, b: nat)
    requires IsFirst(text, literal, from, a) && IsFirst(text, literal, from, b)
    ensures a == b
  {
  }

  lemma FirstIs(text: string, literal: string, from: nat, at: nat)
    requires IsFirst(text, literal, from, at)
    ensures FirstFrom(text, literal, from) == Some(at)
  {
    OnlyFirst(text, literal, from, at, FirstFrom(text, literal, from).value);
  }

  lemma {:induction false} LeastMatch(text: string, literal: string, from: nat, other: nat) returns (at: nat)
    requires from <= other && Occurs(text, literal, other)
    ensures IsFirst(text, literal, from, at) && at <= other
    decreases other - from
  {
    if i :| from <= i < other && Occurs(text, literal, i) {
      at := LeastMatch(text, literal, from, i);
    } else {
      at := other;
    }
  }

  lemma FirstIsFirst(text: string, literal: string, from: nat)
    ensures var at := FirstFrom(text, literal, from);
      && (at.Some? ==> Occurs(text, literal, at.value))
      && (forall i :: from <= i && (at.None? || i < at.value) ==> !Occurs(text, literal, i))
  {
    if i :| from <= i && Occurs(text, literal, i) {
      var at := LeastMatch(text, literal, from, i);
      FirstIs(text, literal, from, at);
    }
  }

  /** strings.Index from an offset on. */
  method IndexFrom(text: string, literal: string, from: nat) returns (at: Option<nat>)
    ensures at == FirstFrom(text, literal, from)
  {
    var i := from;
    while i + |literal| <= |text|
      invariant from <= i && forall k :: from <= k < i ==> !Occurs(text, literal, k)
    {
      if text[i..i + |literal|] == literal {
        FirstIs(text, literal, from, i);
        return Some(i);
      }
      i := i + 1;
    }
    FirstIsFirst(text, literal, from);
    at := None;
  }

  /** nonOverlappingLiteralOffsets: the leftmost match, then the leftmost one after it. */
  ghost function Offsets(text: string, literal: string, from: nat, limit: nat): seq<nat>
    decreases limit
  {
    if limit == 0 then [] else
    var at := FirstFrom(text, literal, from);
    if at.None? then [] else [at.value] + Offsets(text, literal, at.value + |literal|, limit - 1)
  }

  /** Matches side by side, in order, from an offset on. */
  ghost predicate Apart(text: string, literal: string, from: nat, offsets: seq<nat>)
    decreases |offsets|
  {
    offsets != [] ==>
      from <= offsets[0] && Occurs(text, literal, offsets[0])
        && Apart(text, literal, offsets[0] + |literal|, offsets[1..])
  }

  lemma {:induction false} OffsetsAreApart(text: string, literal: string, from: nat, limit: nat)
    ensures Apart(text, literal, from, Offsets(text, literal, from, limit))
    ensures |Offsets(text, literal, from, limit)| <= limit
    decreases limit
  {
    var at := FirstFrom(text, literal, from);
    if limit > 0 && at.Some? {
      var rest := Offsets(text, literal, at.value + |literal|, limit - 1);
      FirstIsFirst(text, literal, from);
      OffsetsAreApart(text, literal, at.value + |literal|, limit - 1);
      assert ([at.value] + rest)[1..] == rest;
    }
  }

  lemma ApartLater(text: string, literal: string, from: nat, later: nat, offsets: seq<nat>)
    requires Apart(text, literal, later, offsets) && from <= later
    ensures Apart(text, literal, from, offsets)
  {
  }

  /** No choice of matches that do not overlap has more of them. */
  lemma {:induction false} LeftmostIsMost(text: string, literal: string, from: nat, limit: nat, others: seq<nat>)
    requires Apart(text, literal, from, others) && |others| <= limit
    ensures |others| <= |Offsets(text, literal, from, limit)|
    decreases limit
  {
    if others != [] {
      var at := FirstBefore(text, literal, from, others[0]);
      ApartLater(text, literal, at + |literal|, others[0] + |literal|, others[1..]);
      LeftmostIsMost(text, literal, at + |literal|, limit - 1, others[1..]);
      OffsetsFirst(text, literal, from, at, limit);
    }
  }

  lemma FirstBefore(text: string, literal: string, from: nat, other: nat) returns (at: nat)
    requires from <= other && Occurs(text, literal, other)
    ensures FirstFrom(text, literal, from) == Some(at) && at <= other
  {
    FirstIsFirst(text, literal, from);
    at := FirstFrom(text, literal, from).value;
  }

  /** So a count is missing exactly when that many matches do not fit side by side. */
  lemma CountIsMissingIff(text: string, literal: string, from: nat, count: nat)
    ensures |Offsets(text, literal, from, count)| < count
            <==> !exists others :: Apart(text, literal, from, others) && |others| == count
  {
    OffsetsAreApart(text, literal, from, count);
    if others :| Apart(text, literal, from, others) && |others| == count {
      LeftmostIsMost(text, literal, from, count, others);
    } else {
      assert Apart(text, literal, from, Offsets(text, literal, from, count));
    }
  }

  // Where the search stands after the matches found so far.
  function After(literal: string, from: nat, offsets: seq<nat>): nat {
    if offsets == [] then from else offsets[|offsets| - 1] + |literal|
  }

  // The search after the first of the matches found.
  lemma OffsetsRest(text: string, literal: string, from: nat, offsets: seq<nat>)
    requires offsets != [] && offsets == Offsets(text, literal, from, |offsets|)
    ensures FirstFrom(text, literal, from) == Some(offsets[0])
    ensures offsets[1..] == Offsets(text, literal, offsets[0] + |literal|, |offsets| - 1)
  {
  }

  lemma {:induction false} OffsetsSplit(text: string, literal: string, from: nat, offsets: seq<nat>, more: nat,
                                        limit: nat)
    requires offsets == Offsets(text, literal, from, |offsets|) && limit == |offsets| + more
    ensures Offsets(text, literal, from, limit) == offsets + Offsets(text, literal, After(literal, from, offsets), more)
    decreases |offsets|
  {
    if offsets != [] {
      var at, rest := offsets[0], offsets[1..];
      OffsetsRest(text, literal, from, offsets);
      OffsetsSplit(text, literal, at + |literal|, rest, more, limit - 1);
      AfterFirst(literal, from, offsets);
      Prepend(text, literal, from, limit, offsets, Offsets(text, literal, After(literal, from, offsets), more));
    }
  }

  lemma Prepend(text: string, literal: string, from: nat, limit: nat, offsets: seq<nat>, more: seq<nat>)
    requires offsets != [] && limit > 0 && FirstFrom(text, literal, from) == Some(offsets[0])
    requires Offsets(text, literal, offsets[0] + |literal|, limit - 1) == offsets[1..] + more
    ensures Offsets(text, literal, from, limit) == offsets + more
  {
    OffsetsFirst(text, literal, from, offsets[0], limit);
    assert offsets + more == [offsets[0]] + (offsets[1..] + more);
  }

  lemma AfterFirst(literal: string, from: nat, offsets: seq<nat>)
    requires offsets != []
    ensures After(literal, from, offsets) == After(literal, offsets[0] + |literal|, offsets[1..])
  {
  }

  // Without another match the search is over.
  lemma LastOffset(text: string, literal: string, from: nat, offsets: seq<nat>, limit: nat)
    requires offsets == Offsets(text, literal, from, |offsets|) && |offsets| <= limit
    requires FirstFrom(text, literal, After(literal, from, offsets)).None?
    ensures Offsets(text, literal, from, limit) == offsets
  {
    OffsetsSplit(text, literal, from, offsets, limit - |offsets|, limit);
    NoOffset(text, literal, After(literal, from, offsets), limit - |offsets|);
  }

  // One more match.
  lemma OneMoreOffset(text: string, literal: string, from: nat, offsets: seq<nat>, at: nat)
    requires offsets == Offsets(text, literal, from, |offsets|)
    requires FirstFrom(text, literal, After(literal, from, offsets)) == Some(at)
    ensures offsets + [at] == Offsets(text, literal, from, |offsets| + 1)
  {
    var search := After(literal, from, offsets);
    OffsetsSplit(text, literal, from, offsets, 1, |offsets| + 1);
    OffsetsFirst(text, literal, search, at, 1);
    assert Offsets(text, literal, at + |literal|, 0) == [];
  }

  lemma NoOffset(text: string, literal: string, from: nat, limit: nat)
    requires FirstFrom(text, literal, from).None?
    ensures Offsets(text, literal, from, limit) == []
  {
  }

  /** The loop of findLiteralOffsets. */
  method FindLiteralOffsets(text: string, literal: string, from: nat, limit: nat) returns (offsets: seq<nat>)
    requires literal != "" && limit > 0
    ensures offsets == Offsets(text, literal, from, limit)
  {
    offsets := [];
    var search := from;
    while search + |literal| <= |text|
      invariant |offsets| < limit && search == After(literal, from, offsets)
      invariant offsets == Offsets(text, literal, from, |offsets|)
      decreases |text| - search
    {
      var at := IndexFrom(text, literal, search);
      if at.None? {
        LastOffset(text, literal, from, offsets, limit);
        return;
      }
      OneMoreOffset(text, literal, from, offsets, at.value);
      offsets := offsets + [at.value];
      search := at.value + |literal|;
      if |offsets| == limit {
        return;
      }
    }
    LastOffset(text, literal, from, offsets, limit);
  }

  // ---- Resolution ---------------------------------------------------------------------------

  /** resolveRow as a function of the recorded edits. */
  ghost function Row(hash: string -> string, baseline: string, edits: seq<Edit>,
                     reference: Reference): Result<Line, RowError>
    requires Compatible(edits, |baseline|)
  {
    var direct := ResolveBaseline(hash, baseline, reference);
    var row := PendingRow(hash, Render(baseline, edits), reference);
    if direct.Ok? || edits == [] || row.None? then direct
    else if line :| LandsOn(baseline, edits, line, row.value) then Ok(line)
    else direct
  }

  lemma RowIsResolved(hash: string -> string, baseline: string, edits: seq<Edit>, reference: Reference,
                      result: Result<Line, RowError>)
    requires Compatible(edits, |baseline|) && Resolves(hash, baseline, edits, reference, result)
    ensures result == Row(hash, baseline, edits, reference)
  {
    var direct := ResolveBaseline(hash, baseline, reference);
    var row := PendingRow(hash, Render(baseline, edits), reference);
    if direct.Err? && edits != [] && row.Some? {
      if line :| LandsOn(baseline, edits, line, row.value) {
        assert result == Ok(line);
      }
    }
  }

  function SpansAt(offsets: seq<nat>, length: nat): seq<TargetSpan> {
    seq(|offsets|, i requires 0 <= i < |offsets| => TargetSpan(offsets[i], offsets[i] + length, false))
  }

  // The matches from a row on, or all of them when the row is gone and they are exactly as many as asked for.
  ghost function MatchesFrom(baseline: string, literal: string, count: nat, anchor: Result<Line, RowError>)
      : Result<seq<TargetSpan>, TargetError>
  {
    if anchor.Err? then
      var all := Offsets(baseline, literal, 0, count);
      if |all| != count || Offsets(baseline, literal, After(literal, 0, all), 1) != [] then Err(RowFailed(anchor.error))
      else Ok(SpansAt(all, |literal|))
    else
      Counted(baseline, literal, anchor.value.start, count)
  }

  ghost function Counted(baseline: string, literal: string, from: nat,
                         count: nat): Result<seq<TargetSpan>, TargetError> {
    var offsets := Offsets(baseline, literal, from, count);
    if |offsets| != count then Err(OccurrenceMissing(|offsets|)) else Ok(SpansAt(offsets, |literal|))
  }

  function Between(first: Result<Line, RowError>, last: Result<Line, RowError>): Result<seq<TargetSpan>, TargetError> {
    if first.Err? then Err(RowFailed(first.error))
    else if last.Err? then Err(RowFailed(last.error))
    else if first.value.start > last.value.start then Err(TargetOrder)
    else Ok([TargetSpan(first.value.start, last.value.end, true)])
  }

  /** resolveTarget */
  ghost function Resolution(hash: string -> string, baseline: string, edits: seq<Edit>, target: Target)
      : Result<seq<TargetSpan>, TargetError>
    requires Compatible(edits, |baseline|)
  {
    match target
    case LineTarget(row) => Between(Row(hash, baseline, edits, row), Row(hash, baseline, edits, row))
    case RangeTarget(first, last) => Between(Row(hash, baseline, edits, first), Row(hash, baseline, edits, last))
    case TextTarget(anchor, literal, count) => MatchesFrom(baseline, literal, count, Row(hash, baseline, edits, anchor))
    case LiteralTarget(literal, count) => Counted(baseline, literal, 0, count)
    case EndTarget => Ok([TargetSpan(|baseline|, |baseline|, false)])
  }

  method ResolveOne(editor: BaselineEditor, reference: Reference) returns (row: Result<Line, RowError>)
    requires editor.Valid()
    modifies editor`projected
    ensures editor.Valid() && Compatible(editor.edits, |editor.baseline|)
    ensures row == Row(editor.hash, editor.baseline, editor.edits, reference)
  {
    RecordedIsCompatible(editor.edits, |editor.baseline|);
    row := editor.ResolveRow(reference);
    RowIsResolved(editor.hash, editor.baseline, editor.edits, reference, row);
  }

  method ResolveMatches(baseline: string, literal: string, count: nat, anchor: Result<Line, RowError>)
      returns (result: Result<seq<TargetSpan>, TargetError>)
    requires literal != "" && count > 0
    ensures result == MatchesFrom(baseline, literal, count, anchor)
  {
    if anchor.Err? {
      var all := FindLiteralOffsets(baseline, literal, 0, count);
      if |all| != count {
        return Err(RowFailed(anchor.error));
      }
      var more := FindLiteralOffsets(baseline, literal, After(literal, 0, all), 1);
      if more != [] {
        return Err(RowFailed(anchor.error));
      }
      return Ok(SpansAt(all, |literal|));
    }
    result := ResolveCounted(baseline, literal, anchor.value.start, count);
  }

  method ResolveCounted(baseline: string, literal: string, from: nat, count: nat)
      returns (result: Result<seq<TargetSpan>, TargetError>)
    requires literal != "" && count > 0
    ensures result == Counted(baseline, literal, from, count)
  {
    var offsets := FindLiteralOffsets(baseline, literal, from, count);
    if |offsets| != count {
      return Err(OccurrenceMissing(|offsets|));
    }
    result := Ok(SpansAt(offsets, |literal|));
  }

  method ResolveTarget(editor: BaselineEditor, target: Target) returns (result: Result<seq<TargetSpan>, TargetError>)
    requires editor.Valid()
    modifies editor`projected
    ensures editor.Valid() && Compatible(editor.edits, |editor.baseline|)
    ensures result == Resolution(editor.hash, editor.baseline, editor.edits, target)
    ensures Means(editor.hash, editor.baseline, editor.edits, target, result)
  {
    RecordedIsCompatible(editor.edits, |editor.baseline|);
    ResolutionMeans(editor.hash, editor.baseline, editor.edits, target);
    match target
    case LineTarget(row) =>
      var line := ResolveOne(editor, row);
      result := Between(line, line);
    case RangeTarget(first, last) =>
      var start := ResolveOne(editor, first);
      if start.Err? {
        return Err(RowFailed(start.error));
      }
      var end := ResolveOne(editor, last);
      result := Between(start, end);
    case TextTarget(anchor, literal, count) =>
      var line := ResolveOne(editor, anchor);
      result := ResolveMatches(editor.baseline, literal, count, line);
    case LiteralTarget(literal, count) =>
      result := ResolveCounted(editor.baseline, literal, 0, count);
    case EndTarget =>
      result := Ok([TargetSpan(|editor.baseline|, |editor.baseline|, false)]);
  }

  /** Without its row a text target is accepted exactly when the count is that of all matches. */
  lemma GlobalIffAll(baseline: string, literal: string, count: nat, error: RowError)
    requires literal != "" && count > 0
    ensures MatchesFrom(baseline, literal, count, Err(error)).Ok? <==>
      |Offsets(baseline, literal, 0, count + 1)| == count
  {
    OffsetsAreApart(baseline, literal, 0, count);
    var all := Offsets(baseline, literal, 0, count);
    if |all| == count {
      OffsetsSplit(baseline, literal, 0, all, 1, count + 1);
    } else {
      OffsetsStop(baseline, literal, 0, count, count + 1);
    }
  }

  // One step of the search, when there is a match.
  lemma OffsetsFirst(text: string, literal: string, from: nat, at: nat, limit: nat)
    requires FirstFrom(text, literal, from) == Some(at) && limit > 0
    ensures Offsets(text, literal, from, limit) == [at] + Offsets(text, literal, at + |literal|, limit - 1)
  {
  }

  lemma {:induction false} OffsetsStop(text: string, literal: string, from: nat, limit: nat, more: nat)
    requires |Offsets(text, literal, from, limit)| < limit && more == limit + 1
    ensures Offsets(text, literal, from, more) == Offsets(text, literal, from, limit)
    decreases limit
  {
    var at := FirstFrom(text, literal, from);
    if at.Some? {
      OffsetsFirst(text, literal, from, at.value, limit);
      OffsetsStop(text, literal, at.value + |literal|, limit - 1, more - 1);
      OffsetsFirst(text, literal, from, at.value, more);
    }
  }

  // ---- What a target means -----------------------------------------------------------------

  predicate Meets(line: Line, span: TargetSpan) {
    line.start < span.end && span.start < line.end
  }

  /** The span takes in whole lines: those from the first to the last, and no part of another. */
  ghost predicate CoversLines(baseline: string, span: TargetSpan, first: nat, last: nat) {
    span.linewise && forall k :: 0 <= k < |Lines(baseline)| ==> CoversLine(Lines(baseline)[k], span, first <= k <= last)
  }

  ghost predicate CoversLine(line: Line, span: TargetSpan, wanted: bool) {
    && (Meets(line, span) <==> wanted)
    && (wanted ==> span.start <= line.start && line.end <= span.end)
  }

  // The lines of the baseline from one place to another, or why there are none.
  ghost predicate MeansLines(baseline: string, first: nat, last: nat,
                             result: Result<seq<TargetSpan>, TargetError>) {
    && (result.Err? <==> last < first) && (result.Err? ==> result.error == TargetOrder)
    && (result.Ok? ==> |result.value| == 1 && CoversLines(baseline, result.value[0], first, last))
  }

  ghost predicate MeansRows(baseline: string, first: Result<Line, RowError>, last: Result<Line, RowError>,
                            result: Result<seq<TargetSpan>, TargetError>) {
    if first.Err? then result == Err(RowFailed(first.error))
    else if last.Err? then result == Err(RowFailed(last.error))
    else
      exists i: nat, j: nat :: NamesLines(baseline, i, first.value, j, last.value) && MeansLines(baseline, i, j, result)
  }

  ghost predicate NamesLines(baseline: string, i: nat, first: Line, j: nat, last: Line) {
    && i < |Lines(baseline)| && Lines(baseline)[i] == first
    && j < |Lines(baseline)| && Lines(baseline)[j] == last
  }

  // Each span is the first match behind the one before it.
  ghost predicate Leftmost(baseline: string, literal: string, from: nat, spans: seq<TargetSpan>)
    decreases |spans|
  {
    spans != [] ==>
      && IsFirst(baseline, literal, from, spans[0].start) && spans[0].end == spans[0].start + |literal|
      && !spans[0].linewise && Leftmost(baseline, literal, spans[0].end, spans[1..])
  }

  ghost predicate NoneBehind(baseline: string, literal: string, from: nat, spans: seq<TargetSpan>) {
    forall at :: (if spans == [] then from else spans[|spans| - 1].end) <= at ==> !Occurs(baseline, literal, at)
  }

  // As many matches as asked for, or all there are when those are fewer.
  ghost predicate MeansMatches(baseline: string, literal: string, from: nat, count: nat,
                               result: Result<seq<TargetSpan>, TargetError>) {
    if result.Ok? then |result.value| == count && Leftmost(baseline, literal, from, result.value)
    else exists spans: seq<TargetSpan> ::
      && |spans| < count && Leftmost(baseline, literal, from, spans) && NoneBehind(baseline, literal, from, spans)
      && result.error == OccurrenceMissing(|spans|)
  }

  // The matches of the whole baseline are as many as asked for.
  ghost predicate AllMatches(baseline: string, literal: string, count: nat, spans: seq<TargetSpan>) {
    |spans| == count && Leftmost(baseline, literal, 0, spans) && NoneBehind(baseline, literal, 0, spans)
  }

  ghost predicate MeansAll(baseline: string, literal: string, count: nat, error: RowError,
                           result: Result<seq<TargetSpan>, TargetError>) {
    if result.Ok? then AllMatches(baseline, literal, count, result.value)
    else result.error == RowFailed(error) && forall spans :: !AllMatches(baseline, literal, count, spans)
  }

  /** What a target stands for, in terms of the lines of the baseline and the matches in it. */
  ghost predicate Means(hash: string -> string, baseline: string, edits: seq<Edit>, target: Target,
                        result: Result<seq<TargetSpan>, TargetError>)
    requires Compatible(edits, |baseline|)
  {
    match target
    case LineTarget(row) =>
      MeansRows(baseline, Row(hash, baseline, edits, row), Row(hash, baseline, edits, row), result)
    case RangeTarget(first, last) =>
      MeansRows(baseline, Row(hash, baseline, edits, first), Row(hash, baseline, edits, last), result)
    case TextTarget(anchor, literal, count) =>
      var row := Row(hash, baseline, edits, anchor);
      if row.Ok? then MeansMatches(baseline, literal, row.value.start, count, result)
      else MeansAll(baseline, literal, count, row.error, result)
    case LiteralTarget(literal, count) => MeansMatches(baseline, literal, 0, count, result)
    case EndTarget => result == Ok([TargetSpan(|baseline|, |baseline|, false)])
  }

  lemma LineEndsBefore(baseline: string, i: nat, j: nat)
    requires i < j < |Lines(baseline)|
    ensures Lines(baseline)[i].start < Lines(baseline)[i].end <= Lines(baseline)[j].start < Lines(baseline)[j].end
  {
    LinesPartition(baseline, 0);
    LinesAscend(baseline, i, j);
    assert LineOf(baseline, Lines(baseline)[i]) && LineOf(baseline, Lines(baseline)[j]);
  }

  lemma LineIsInSpan(baseline: string, i: nat, j: nat, k: nat)
    requires i <= j < |Lines(baseline)| && k < |Lines(baseline)|
    ensures CoversLine(Lines(baseline)[k], TargetSpan(Lines(baseline)[i].start, Lines(baseline)[j].end, true),
                       i <= k <= j)
  {
    LinesPartition(baseline, 0);
    assert LineOf(baseline, Lines(baseline)[k]);
    if k < i {
      LineEndsBefore(baseline, k, i);
    } else if i < k {
      LineEndsBefore(baseline, i, k);
    }
    if k < j {
      LineEndsBefore(baseline, k, j);
    } else if j < k {
      LineEndsBefore(baseline, j, k);
    }
  }

  lemma BetweenMeans(baseline: string, i: nat, j: nat)
    requires i < |Lines(baseline)| && j < |Lines(baseline)|
    ensures MeansLines(baseline, i, j, Between(Ok(Lines(baseline)[i]), Ok(Lines(baseline)[j])))
  {
    if i < j {
      LineEndsBefore(baseline, i, j);
    } else if j < i {
      LineEndsBefore(baseline, j, i);
    }
    if i <= j {
      forall k | 0 <= k < |Lines(baseline)|
        ensures CoversLine(Lines(baseline)[k], TargetSpan(Lines(baseline)[i].start, Lines(baseline)[j].end, true),
                           i <= k <= j)
      {
        LineIsInSpan(baseline, i, j, k);
      }
    }
  }

  lemma RowsMean(hash: string -> string, baseline: string, edits: seq<Edit>, first: Reference, last: Reference)
    requires Compatible(edits, |baseline|)
    ensures var a, b := Row(hash, baseline, edits, first), Row(hash, baseline, edits, last);
      MeansRows(baseline, a, b, Between(a, b))
  {
    var a, b := Row(hash, baseline, edits, first), Row(hash, baseline, edits, last);
    if a.Ok? && b.Ok? {
      RowIsLine(hash, baseline, edits, first);
      RowIsLine(hash, baseline, edits, last);
      var i: nat :| i < |Lines(baseline)| && Lines(baseline)[i] == a.value;
      var j: nat :| j < |Lines(baseline)| && Lines(baseline)[j] == b.value;
      BetweenMeans(baseline, i, j);
      assert NamesLines(baseline, i, a.value, j, b.value);
    }
  }

  // Leftmost matches, and no more than these when they are fewer than asked for.
  ghost predicate Matched(text: string, literal: string, from: nat, limit: nat, spans: seq<TargetSpan>) {
    Leftmost(text, literal, from, spans) && (|spans| < limit ==> NoneBehind(text, literal, from, spans))
  }

  lemma {:induction false} MatchedOffsets(text: string, literal: string, from: nat, limit: nat, offsets: seq<nat>)
    requires offsets == Offsets(text, literal, from, limit)
    ensures Matched(text, literal, from, limit, SpansAt(offsets, |literal|))
    decreases |offsets|
  {
    OffsetsHead(text, literal, from, limit, offsets);
    if offsets == [] {
      NothingMatched(text, literal, from, limit);
    } else {
      MatchedOffsets(text, literal, offsets[0] + |literal|, limit - 1, offsets[1..]);
      FirstIsMatched(text, literal, from, limit, offsets[0], offsets[1..]);
      assert offsets == [offsets[0]] + offsets[1..];
    }
  }

  lemma OffsetsHead(text: string, literal: string, from: nat, limit: nat, offsets: seq<nat>)
    requires offsets == Offsets(text, literal, from, limit)
    ensures offsets == [] ==> limit == 0 || FirstFrom(text, literal, from).None?
    ensures offsets != [] ==>
      limit > 0 && FirstFrom(text, literal, from) == Some(offsets[0])
      && offsets[1..] == Offsets(text, literal, offsets[0] + |literal|, limit - 1)
  {
    if limit > 0 && FirstFrom(text, literal, from).Some? {
      OffsetsFirst(text, literal, from, FirstFrom(text, literal, from).value, limit);
    }
  }

  lemma FirstIsMatched(text: string, literal: string, from: nat, limit: nat, at: nat, rest: seq<nat>)
    requires FirstFrom(text, literal, from) == Some(at) && limit > 0
    requires Matched(text, literal, at + |literal|, limit - 1, SpansAt(rest, |literal|))
    ensures Matched(text, literal, from, limit, SpansAt([at] + rest, |literal|))
  {
    SpansFirst(at, rest, |literal|);
    OneMoreMatched(text, literal, from, limit, at, SpansAt(rest, |literal|));
  }

  lemma NothingMatched(text: string, literal: string, from: nat, limit: nat)
    requires limit == 0 || FirstFrom(text, literal, from).None?
    ensures Matched(text, literal, from, limit, [])
  {
    FirstIsFirst(text, literal, from);
  }

  lemma OneMoreMatched(text: string, literal: string, from: nat, limit: nat, at: nat, rest: seq<TargetSpan>)
    requires FirstFrom(text, literal, from) == Some(at) && limit > 0
    requires Matched(text, literal, at + |literal|, limit - 1, rest)
    ensures Matched(text, literal, from, limit, [TargetSpan(at, at + |literal|, false)] + rest)
  {
    FirstIsFirst(text, literal, from);
    assert ([TargetSpan(at, at + |literal|, false)] + rest)[1..] == rest;
  }

  lemma SpansFirst(at: nat, rest: seq<nat>, length: nat)
    ensures SpansAt([at] + rest, length) == [TargetSpan(at, at + length, false)] + SpansAt(rest, length)
  {
  }

  lemma CountedMeans(baseline: string, literal: string, from: nat, count: nat)
    ensures MeansMatches(baseline, literal, from, count, Counted(baseline, literal, from, count))
  {
    OffsetsAreApart(baseline, literal, from, count);
    MatchedOffsets(baseline, literal, from, count, Offsets(baseline, literal, from, count));
    var spans := SpansAt(Offsets(baseline, literal, from, count), |literal|);
  }

  // Leftmost matches are determined by their number.
  lemma {:induction false} LeftmostIsOffsets(text: string, literal: string, from: nat, spans: seq<TargetSpan>)
    requires Leftmost(text, literal, from, spans)
    ensures spans == SpansAt(Offsets(text, literal, from, |spans|), |literal|)
    decreases |spans|
  {
    if spans != [] {
      FirstIs(text, literal, from, spans[0].start);
      LeftmostIsOffsets(text, literal, spans[0].end, spans[1..]);
      OffsetsFirst(text, literal, from, spans[0].start, |spans|);
      SpansFirst(spans[0].start, Offsets(text, literal, spans[0].end, |spans| - 1), |literal|);
    }
  }

  lemma BehindIsAfter(text: string, literal: string, from: nat, offsets: seq<nat>)
    ensures NoneBehind(text, literal, from, SpansAt(offsets, |literal|))
      <==> Offsets(text, literal, After(literal, from, offsets), 1) == []
  {
    FirstIsFirst(text, literal, After(literal, from, offsets));
  }

  lemma AllMean(baseline: string, literal: string, count: nat, error: RowError)
    ensures MeansAll(baseline, literal, count, error, MatchesFrom(baseline, literal, count, Err(error)))
  {
    var all := Offsets(baseline, literal, 0, count);
    MatchedOffsets(baseline, literal, 0, count, all);
    BehindIsAfter(baseline, literal, 0, all);
    forall spans | AllMatches(baseline, literal, count, spans)
      ensures MatchesFrom(baseline, literal, count, Err(error)).Ok?
    {
      LeftmostIsOffsets(baseline, literal, 0, spans);
    }
  }

  lemma ResolutionMeans(hash: string -> string, baseline: string, edits: seq<Edit>, target: Target)
    requires Compatible(edits, |baseline|)
    ensures Means(hash, baseline, edits, target, Resolution(hash, baseline, edits, target))
  {
    match target
    case LineTarget(row) => RowsMean(hash, baseline, edits, row, row);
    case RangeTarget(first, last) => RowsMean(hash, baseline, edits, first, last);
    case TextTarget(anchor, literal, count) =>
      var row := Row(hash, baseline, edits, anchor);
      if row.Ok? {
        CountedMeans(baseline, literal, row.value.start, count);
      } else {
        AllMean(baseline, literal, count, row.error);
      }
    case LiteralTarget(literal, count) => CountedMeans(baseline, literal, 0, count);
    case EndTarget =>
  }

  // ---- The edits of a mutation -----------------------------------------------------------------

  /** lineTerminatorSuffix */
  function TerminatorOf(text: string): string {
    if text == "" || !IsTerminator(text[|text| - 1]) then ""
    else if |text| > 1 && text[|text| - 2..] == "\r\n" then "\r\n"
    else text[|text| - 1..]
  }

  // A typed row keeps its terminator unless the value brings its own.
  function ReplacementFor(baseline: string, span: TargetSpan, value: string, operation: Operation): string
    requires span.start <= span.end <= |baseline|
  {
    if operation.Type? && value != "" && span.linewise && TerminatorOf(value) == "" then
      value + TerminatorOf(baseline[span.start..span.end])
    else value
  }

  function EditFor(baseline: string, span: TargetSpan, value: string, operation: Operation, command: nat): Edit
    requires span.start <= span.end <= |baseline|
  {
    Edit(span.start, if operation.Add? then span.start else span.end,
         ReplacementFor(baseline, span, value, operation), 0, command)
  }

  lemma TerminatorIs(text: string, content: nat)
    requires content <= |text|
    requires text[content..] in {"", "\n", "\r", "\r\n"}
    requires content > 0 && text[content..] == "\n" ==> text[content - 1] != '\r'
    requires content > 0 && text[content..] == "" ==> !IsTerminator(text[content - 1])
    ensures TerminatorOf(text) == text[content..]
  {
    var n := |text[content..]|;
    assert |text| == content + n;
    assert forall k :: 0 <= k < n ==> text[content + k] == text[content..][k];
    if n == 1 && |text| > 1 {
      assert text[|text| - 2] == text[content - 1];
      assert text[|text| - 2..] == [text[content - 1], text[content]];
    }
  }

  // What stands before the terminator of a line is not half of one.
  lemma BeforeTerminator(baseline: string, i: nat, j: nat)
    requires i <= j < |Lines(baseline)| && Lines(baseline)[i].start < Lines(baseline)[j].contentEnd
    ensures var line := Lines(baseline)[j];
      && line.contentEnd <= line.end <= |baseline|
      && (baseline[line.contentEnd..line.end] == "\n" ==> baseline[line.contentEnd - 1] != '\r')
      && (baseline[line.contentEnd..line.end] == "" ==> !IsTerminator(baseline[line.contentEnd - 1]))
  {
    LinesPartition(baseline, 0);
    var line := Lines(baseline)[j];
    LineEnds(baseline, line);
    if i < j && line.start == line.contentEnd {
      LineEndsBefore(baseline, j - 1, j);
      BeforeEmptyLine(baseline, Lines(baseline)[j - 1], line);
    }
  }

  lemma BeforeEmptyLine(baseline: string, before: Line, line: Line)
    requires LineOf(baseline, before) && LineOf(baseline, line)
    requires before.end == line.start == line.contentEnd < line.end
    ensures baseline[line.contentEnd..line.end] == "\n" ==> baseline[line.contentEnd - 1] != '\r'
  {
    LineEnds(baseline, before);
    LineEnds(baseline, line);
  }

  lemma RowsTerminator(baseline: string, i: nat, j: nat)
    requires i <= j < |Lines(baseline)|
    ensures var first, last := Lines(baseline)[i], Lines(baseline)[j];
      && first.start <= last.contentEnd <= last.end <= |baseline|
      && TerminatorOf(baseline[first.start..last.end]) == baseline[last.contentEnd..last.end]
  {
    LinesPartition(baseline, 0);
    var first, last := Lines(baseline)[i], Lines(baseline)[j];
    if i < j {
      LineEndsBefore(baseline, i, j);
    }
    LineEnds(baseline, last);
    var content := last.contentEnd - first.start;
    SliceBehind(baseline, first.start, last.contentEnd, last.end);
    if first.start < last.contentEnd {
      BeforeTerminator(baseline, i, j);
    }
    TerminatorIs(baseline[first.start..last.end], content);
  }

  lemma SliceBehind(text: string, a: nat, b: nat, c: nat)
    requires a <= b <= c <= |text|
    ensures text[a..c][b - a..] == text[b..c]
  {
  }

  // A span that takes in whole lines starts with the first and ends with the last.
  lemma CoveredFrom(baseline: string, span: TargetSpan, i: nat, j: nat)
    requires i <= j < |Lines(baseline)| && CoversLines(baseline, span, i, j)
    ensures span.start == Lines(baseline)[i].start
  {
    LinesPartition(baseline, 0);
    var lines := Lines(baseline);
    assert CoversLine(lines[i], span, true);
    if i > 0 {
      LineEndsBefore(baseline, i - 1, i);
      assert CoversLine(lines[i - 1], span, false);
    }
  }

  lemma CoveredTo(baseline: string, span: TargetSpan, i: nat, j: nat)
    requires i <= j < |Lines(baseline)| && CoversLines(baseline, span, i, j) && span.end <= |baseline|
    ensures span.end == Lines(baseline)[j].end
  {
    LinesPartition(baseline, 0);
    var lines := Lines(baseline);
    assert CoversLine(lines[j], span, true);
    if j + 1 < |lines| {
      LineEndsBefore(baseline, j, j + 1);
      assert CoversLine(lines[j + 1], span, false);
    }
  }

  predicate EndsWithTerminator(value: string) {
    value != "" && IsTerminator(value[|value| - 1])
  }

  /** Typing over whole lines replaces them, and keeps the terminator of the last one
      unless the value is empty or ends a line itself; adding inserts before the first. */
  lemma TypedLinesKeepTerminator(baseline: string, span: TargetSpan, i: nat, j: nat, value: string, command: nat)
    requires i <= j < |Lines(baseline)| && CoversLines(baseline, span, i, j)
    requires span.start <= span.end <= |baseline|
    ensures var first, last := Lines(baseline)[i], Lines(baseline)[j];
      && last.contentEnd <= last.end <= |baseline|
      && var ending := baseline[last.contentEnd..last.end];
         var shown := if value == "" || EndsWithTerminator(value) then value else value + ending;
      && EditFor(baseline, span, value, Type, command) == Edit(first.start, last.end, shown, 0, command)
      && EditFor(baseline, span, value, Add, command) == Edit(first.start, first.start, value, 0, command)
  {
    CoveredFrom(baseline, span, i, j);
    CoveredTo(baseline, span, i, j);
    RowsTerminator(baseline, i, j);
  }

  predicate Inside(spans: seq<TargetSpan>, length: nat) {
    forall i :: 0 <= i < |spans| ==> spans[i].start <= spans[i].end <= length
  }

  function EditsFor(baseline: string, spans: seq<TargetSpan>, value: string, operation: Operation,
                    command: nat): seq<Edit>
    requires Inside(spans, |baseline|)
  {
    seq(|spans|, i requires 0 <= i < |spans| => EditFor(baseline, spans[i], value, operation, command))
  }

  // In order, and none of them empty unless it is the only one.
  ghost predicate SideBySide(spans: seq<TargetSpan>) {
    forall i, j :: 0 <= i < j < |spans| ==> spans[i].end <= spans[j].start && spans[i].start < spans[j].start
  }

  lemma {:induction false} ApartIsSideBySide(text: string, literal: string, from: nat, offsets: seq<nat>)
    requires Apart(text, literal, from, offsets) && literal != ""
    ensures Inside(SpansAt(offsets, |literal|), |text|) && SideBySide(SpansAt(offsets, |literal|))
    ensures forall i :: 0 <= i < |offsets| ==> from <= offsets[i] && Occurs(text, literal, offsets[i])
    decreases |offsets|
  {
    if offsets != [] {
      var rest := offsets[1..];
      ApartIsSideBySide(text, literal, offsets[0] + |literal|, rest);
      var spans, later := SpansAt(offsets, |literal|), SpansAt(rest, |literal|);
      assert forall i :: 0 < i < |spans| ==> spans[i] == later[i - 1];
    }
  }

  lemma RowIsLine(hash: string -> string, baseline: string, edits: seq<Edit>, reference: Reference)
    requires Compatible(edits, |baseline|) && Row(hash, baseline, edits, reference).Ok?
    ensures Row(hash, baseline, edits, reference).value in Lines(baseline)
  {
    WithHashAreLines(hash, baseline, Lines(baseline), reference.hash);
  }

  lemma {:induction false} WithHashAreLines(hash: string -> string, text: string, lines: seq<Line>, wanted: string)
    ensures forall line :: line in WithHash(hash, text, lines, wanted) ==> line in lines
  {
    if lines != [] {
      WithHashAreLines(hash, text, lines[..|lines| - 1], wanted);
      assert lines == lines[..|lines| - 1] + [lines[|lines| - 1]];
    }
  }

  lemma LinesInOrder(text: string, a: Line, b: Line)
    requires a in Lines(text) && b in Lines(text) && a.start <= b.start
    ensures a.start < b.end <= |text| && a.end <= b.end
  {
    LinesPartition(text, 0);
    var i :| 0 <= i < |Lines(text)| && Lines(text)[i] == a;
    var j :| 0 <= j < |Lines(text)| && Lines(text)[j] == b;
    if i < j {
      LinesAscend(text, i, j);
    } else if j < i {
      LinesAscend(text, j, i);
    }
  }

  /** Every resolved span is in the baseline, and several are in order and apart. */
  lemma ResolvedSpans(hash: string -> string, baseline: string, edits: seq<Edit>, target: Target)
    requires Compatible(edits, |baseline|) && Resolution(hash, baseline, edits, target).Ok?
    ensures Inside(Resolution(hash, baseline, edits, target).value, |baseline|)
    ensures SideBySide(Resolution(hash, baseline, edits, target).value)
  {
    match target
    case LineTarget(row) =>
      RowIsLine(hash, baseline, edits, row);
      var line := Row(hash, baseline, edits, row).value;
      LinesInOrder(baseline, line, line);
    case RangeTarget(first, last) =>
      RowIsLine(hash, baseline, edits, first);
      RowIsLine(hash, baseline, edits, last);
      LinesInOrder(baseline, Row(hash, baseline, edits, first).value, Row(hash, baseline, edits, last).value);
    case TextTarget(anchor, literal, count) =>
      var from := if Row(hash, baseline, edits, anchor).Ok? then Row(hash, baseline, edits, anchor).value.start else 0;
      OffsetsAreApart(baseline, literal, from, count);
      ApartIsSideBySide(baseline, literal, from, Offsets(baseline, literal, from, count));
    case LiteralTarget(literal, count) =>
      OffsetsAreApart(baseline, literal, 0, count);
      ApartIsSideBySide(baseline, literal, 0, Offsets(baseline, literal, 0, count));
    case EndTarget =>
  }

  /** The edits of one mutation never conflict with each other. */
  lemma MutationAgrees(baseline: string, spans: seq<TargetSpan>, value: string, operation: Operation, command: nat)
    requires Inside(spans, |baseline|) && SideBySide(spans)
    ensures AllPlaced(EditsFor(baseline, spans, value, operation, command), |baseline|)
    ensures ConflictFree(EditsFor(baseline, spans, value, operation, command))
  {
    var edits := EditsFor(baseline, spans, value, operation, command);
    forall i, j | 0 <= i < j < |edits| ensures !Conflicts(edits[i], edits[j]) {
      assert spans[i].end <= spans[j].start && spans[i].start < spans[j].start;
    }
  }

  // ---- What a mutation shows --------------------------------------------------------------------

  ghost predicate LeftToRight(edits: seq<Edit>) {
    forall i, j :: 0 <= i < j < |edits| ==> edits[i].end <= edits[j].start && edits[i].start < edits[j].start
  }

  lemma {:induction false} KeptAreCandidates(baseline: string, candidates: seq<Edit>)
    requires AllPlaced(candidates, |baseline|)
    ensures forall e :: e in Kept(baseline, candidates) ==> e in candidates
  {
    if candidates != [] {
      KeptAreCandidates(baseline, candidates[1..]);
    }
  }

  ghost predicate Precedes(e: Edit, rest: seq<Edit>) {
    forall r :: r in rest ==> e.end <= r.start && e.start < r.start
  }

  lemma ConsLeftToRight(e: Edit, rest: seq<Edit>)
    requires LeftToRight(rest) && Precedes(e, rest)
    ensures LeftToRight([e] + rest)
  {
    assert forall k :: 0 <= k < |rest| ==> rest[k] in rest;
  }

  lemma FirstPrecedes(edits: seq<Edit>)
    requires edits != [] && LeftToRight(edits)
    ensures LeftToRight(edits[1..]) && Precedes(edits[0], edits[1..])
  {
    forall r | r in edits[1..] ensures edits[0].end <= r.start && edits[0].start < r.start {
      var k :| 0 <= k < |edits[1..]| && edits[1..][k] == r;
      assert edits[k + 1] == r;
    }
  }

  lemma {:induction false} KeptLeftToRight(baseline: string, candidates: seq<Edit>)
    requires AllPlaced(candidates, |baseline|) && LeftToRight(candidates)
    ensures LeftToRight(Kept(baseline, candidates)) && AllPlaced(Kept(baseline, candidates), |baseline|)
  {
    if candidates != [] {
      var rest := candidates[1..];
      FirstPrecedes(candidates);
      KeptLeftToRight(baseline, rest);
      KeptAreCandidates(baseline, rest);
      ConsLeftToRight(candidates[0], Kept(baseline, rest));
    }
  }

  lemma {:induction false} NumberedAt(edits: seq<Edit>, first: nat)
    ensures |Numbered(edits, first)| == |edits|
    ensures forall k :: 0 <= k < |edits| ==> Numbered(edits, first)[k] == edits[k].(sequence := first + k)
  {
    if edits != [] {
      NumberedAt(edits[1..], first + 1);
    }
  }

  lemma NumberedIsBatch(edits: seq<Edit>, kept: seq<Edit>, length: nat)
    requires Recorded(edits, length) && AllPlaced(kept, length) && LeftToRight(kept) && ConflictFree(edits + kept)
    ensures PendingText.IsBatch(edits, Numbered(kept, |edits| + 1), length)
  {
    NumberedAt(kept, |edits| + 1);
    forall i, k | 0 <= i < |edits| && 0 <= k < |kept| ensures !Conflicts(edits[i], kept[k]) {
      var all := edits + kept;
      assert all[i] == edits[i] && all[|edits| + k] == kept[k];
      assert !Conflicts(all[i], all[|edits| + k]);
    }
  }

  /** A recorded mutation replaces, in the pending text, exactly the image of each span
      whose text it changes, and keeps everything else. */
  lemma MutationShows(baseline: string, edits: seq<Edit>, spans: seq<TargetSpan>, value: string, operation: Operation,
                      command: nat)
    requires Recorded(edits, |baseline|) && Inside(spans, |baseline|) && SideBySide(spans)
    requires AllPlaced(EditsFor(baseline, spans, value, operation, command), |baseline|)
    requires ConflictFree(edits + Kept(baseline, EditsFor(baseline, spans, value, operation, command)))
    ensures PendingText.BatchShows(baseline, edits,
              Numbered(Kept(baseline, EditsFor(baseline, spans, value, operation, command)), |edits| + 1))
  {
    var candidates := EditsFor(baseline, spans, value, operation, command);
    forall i, j | 0 <= i < j < |candidates|
      ensures candidates[i].end <= candidates[j].start && candidates[i].start < candidates[j].start
    {
      assert spans[i].end <= spans[j].start && spans[i].start < spans[j].start;
    }
    KeptLeftToRight(baseline, candidates);
    NumberedIsBatch(edits, Kept(baseline, candidates), |baseline|);
    RecordedIsCompatible(edits, |baseline|);
    PendingText.BatchReplacesImages(baseline, edits, Numbered(Kept(baseline, candidates), |edits| + 1));
  }

  // ---- Literals in an unedited file ------------------------------------------------------------------

  /** strings.Replace with a limit, from an offset on. */
  ghost function ReplaceFirst(text: string, literal: string, value: string, from: nat, limit: nat): string
    requires from <= |text|
    decreases limit
  {
    var at := FirstFrom(text, literal, from);
    if limit == 0 || at.None? then text[from..]
    else text[from..at.value] + value + ReplaceFirst(text, literal, value, at.value + |literal|, limit - 1)
  }

  lemma FirstSplits(text: string, literal: string, from: nat)
    requires from <= |text| && FirstFrom(text, literal, from).Some?
    ensures var at := FirstFrom(text, literal, from).value;
      text[from..] == text[from..at] + literal + text[at + |literal|..]
  {
    FirstIsFirst(text, literal, from);
    var at := FirstFrom(text, literal, from).value;
    Rejoin(text, from, at, at + |literal|);
  }

  lemma Rejoin(text: string, a: nat, b: nat, c: nat)
    requires a <= b <= c <= |text|
    ensures text[a..] == text[a..b] + text[b..c] + text[c..]
  {
  }

  lemma {:induction false} ReplaceBySame(text: string, literal: string, from: nat, limit: nat)
    requires from <= |text|
    ensures ReplaceFirst(text, literal, literal, from, limit) == text[from..]
    decreases limit
  {
    if limit > 0 && FirstFrom(text, literal, from).Some? {
      FirstSplits(text, literal, from);
      ReplaceBySame(text, literal, FirstFrom(text, literal, from).value + |literal|, limit - 1);
    }
  }

  function LiteralEdits(offsets: seq<nat>, length: nat, value: string, command: nat, first: nat): seq<Edit> {
    if offsets == [] then []
    else
      [Edit(offsets[0], offsets[0] + length, value, first, command)]
      + LiteralEdits(offsets[1..], length, value, command, first + 1)
  }

  // One edit before edits that render to `rest`.
  lemma OneEditRenders(text: string, edits: seq<Edit>, e: Edit, later: seq<Edit>, from: nat, rest: string)
    requires edits != [] && edits[0] == e && edits[1..] == later && from <= e.start <= e.end
    requires Chained(later, e.end, |text|) && RenderFrom(text, later, e.end) == rest && e.end <= |text|
    ensures Chained(edits, from, |text|) && RenderFrom(text, edits, from) == text[from..e.start] + e.replacement + rest
  {
  }

  lemma {:induction false} LiteralsRender(text: string, literal: string, value: string, command: nat, from: nat,
                                          limit: nat, first: nat)
    requires from <= |text|
    ensures var edits := LiteralEdits(Offsets(text, literal, from, limit), |literal|, value, command, first);
      && Chained(edits, from, |text|)
      && RenderFrom(text, edits, from) == ReplaceFirst(text, literal, value, from, limit)
    decreases limit
  {
    var at := FirstFrom(text, literal, from);
    if limit > 0 && at.Some? {
      var next := at.value + |literal|;
      var rest := Offsets(text, literal, next, limit - 1);
      LiteralsRender(text, literal, value, command, next, limit - 1, first + 1);
      LiteralEditsFirst(at.value, rest, |literal|, value, command, first);
      OneEditRenders(text, LiteralEdits([at.value] + rest, |literal|, value, command, first),
                     Edit(at.value, next, value, first, command),
                     LiteralEdits(rest, |literal|, value, command, first + 1), from,
                     ReplaceFirst(text, literal, value, next, limit - 1));
    }
  }

  lemma LiteralEditsFirst(at: nat, rest: seq<nat>, length: nat, value: string, command: nat, first: nat)
    ensures var edits := LiteralEdits([at] + rest, length, value, command, first);
      && edits != [] && edits[0] == Edit(at, at + length, value, first, command)
      && edits[1..] == LiteralEdits(rest, length, value, command, first + 1)
  {
    assert ([at] + rest)[1..] == rest;
  }

  // One kept edit before the others.
  lemma KeptFirst(baseline: string, candidates: seq<Edit>, first: nat)
    requires AllPlaced(candidates, |baseline|) && candidates != [] && Matters(baseline, candidates[0])
    ensures Numbered(Kept(baseline, candidates), first)
            == [candidates[0].(sequence := first)] + Numbered(Kept(baseline, candidates[1..]), first + 1)
  {
    assert ([candidates[0]] + Kept(baseline, candidates[1..]))[1..] == Kept(baseline, candidates[1..]);
  }

  lemma {:induction false} AllKept(baseline: string, offsets: seq<nat>, literal: string, value: string, command: nat,
                                   first: nat)
    requires literal != "" && value != literal && Inside(SpansAt(offsets, |literal|), |baseline|)
    requires forall i :: 0 <= i < |offsets| ==> Occurs(baseline, literal, offsets[i])
    ensures var candidates := EditsFor(baseline, SpansAt(offsets, |literal|), value, Type, command);
      && AllPlaced(candidates, |baseline|)
      && Numbered(Kept(baseline, candidates), first) == LiteralEdits(offsets, |literal|, value, command, first)
    decreases |offsets|
  {
    if offsets != [] {
      RestOfSpans(baseline, offsets, |literal|, value, command);
      AllKept(baseline, offsets[1..], literal, value, command, first + 1);
      assert Occurs(baseline, literal, offsets[0]);
      KeptFirst(baseline, EditsFor(baseline, SpansAt(offsets, |literal|), value, Type, command), first);
    }
  }

  lemma RestOfSpans(baseline: string, offsets: seq<nat>, length: nat, value: string, command: nat)
    requires offsets != [] && Inside(SpansAt(offsets, length), |baseline|)
    ensures Inside(SpansAt(offsets[1..], length), |baseline|)
    ensures SpansAt(offsets, length)[0] == TargetSpan(offsets[0], offsets[0] + length, false)
    ensures EditsFor(baseline, SpansAt(offsets, length), value, Type, command)[1..]
            == EditsFor(baseline, SpansAt(offsets[1..], length), value, Type, command)
  {
    var spans, rest := SpansAt(offsets, length), SpansAt(offsets[1..], length);
    forall i | 0 <= i < |rest| ensures rest[i] == spans[i + 1] && rest[i].start <= rest[i].end <= |baseline| {
    }
    assert spans[1..] == rest;
  }

  lemma {:induction false} NoneKept(baseline: string, offsets: seq<nat>, literal: string, command: nat)
    requires literal != "" && Inside(SpansAt(offsets, |literal|), |baseline|)
    requires forall i :: 0 <= i < |offsets| ==> Occurs(baseline, literal, offsets[i])
    ensures var candidates := EditsFor(baseline, SpansAt(offsets, |literal|), literal, Type, command);
      AllPlaced(candidates, |baseline|) && Kept(baseline, candidates) == []
    decreases |offsets|
  {
    if offsets != [] {
      RestOfSpans(baseline, offsets, |literal|, literal, command);
      NoneKept(baseline, offsets[1..], literal, command);
    }
  }

  lemma LeftToRightIsOrdered(edits: seq<Edit>)
    requires LeftToRight(edits) && Distinct(edits)
    ensures Ordered(edits) == edits
  {
    OrderedSorts(edits);
    OrderedKeepsEdits(edits);
    SortedIsUnique(Ordered(edits), edits);
  }

  /** Typing over `count` matches of a literal in an unedited file shows the file with
      the first `count` matches replaced. */
  lemma LiteralTypeShows(baseline: string, literal: string, count: nat, value: string, command: nat)
    requires literal != "" && Counted(baseline, literal, 0, count).Ok?
    ensures var spans := Counted(baseline, literal, 0, count).value;
      && Inside(spans, |baseline|) && AllPlaced(EditsFor(baseline, spans, value, Type, command), |baseline|)
      && var batch := Numbered(Kept(baseline, EditsFor(baseline, spans, value, Type, command)), 1);
         Compatible(batch, |baseline|) && Render(baseline, batch) == ReplaceFirst(baseline, literal, value, 0, count)
  {
    var offsets := Offsets(baseline, literal, 0, count);
    OffsetsAreApart(baseline, literal, 0, count);
    ApartIsSideBySide(baseline, literal, 0, offsets);
    if value == literal {
      NoneKept(baseline, offsets, literal, command);
      RenderNothing(baseline);
      ReplaceBySame(baseline, literal, 0, count);
    } else {
      AllKept(baseline, offsets, literal, value, command, 1);
      LiteralsRender(baseline, literal, value, command, 0, count, 1);
      LiteralEditsAt(offsets, |literal|, value, command, 1);
      LiteralEditsRender(baseline, offsets, literal, value, command);
    }
  }

  lemma {:induction false} LiteralEditsAt(offsets: seq<nat>, length: nat, value: string, command: nat, first: nat)
    ensures var edits := LiteralEdits(offsets, length, value, command, first);
      && |edits| == |offsets|
      && forall k :: 0 <= k < |edits| ==> edits[k] == Edit(offsets[k], offsets[k] + length, value, first + k, command)
    decreases |offsets|
  {
    if offsets != [] {
      LiteralEditsAt(offsets[1..], length, value, command, first + 1);
    }
  }

  lemma LiteralEditsLeftToRight(offsets: seq<nat>, literal: string, value: string, command: nat)
    requires SideBySide(SpansAt(offsets, |literal|))
    ensures LeftToRight(LiteralEdits(offsets, |literal|, value, command, 1))
  {
    var edits, spans := LiteralEdits(offsets, |literal|, value, command, 1), SpansAt(offsets, |literal|);
    LiteralEditsAt(offsets, |literal|, value, command, 1);
    forall i, j | 0 <= i < j < |edits| ensures edits[i].end <= edits[j].start && edits[i].start < edits[j].start {
      assert spans[i].end <= spans[j].start && spans[i].start < spans[j].start;
    }
  }

  lemma LiteralEditsRender(baseline: string, offsets: seq<nat>, literal: string, value: string, command: nat)
    requires literal != "" && Inside(SpansAt(offsets, |literal|), |baseline|) && SideBySide(SpansAt(offsets, |literal|))
    ensures var edits := LiteralEdits(offsets, |literal|, value, command, 1);
      Compatible(edits, |baseline|) && Ordered(edits) == edits
  {
    var edits, spans := LiteralEdits(offsets, |literal|, value, command, 1), SpansAt(offsets, |literal|);
    LiteralEditsAt(offsets, |literal|, value, command, 1);
    LiteralEditsLeftToRight(offsets, literal, value, command);
    forall i | 0 <= i < |edits| ensures WellPlaced(edits[i], |baseline|) {
      assert spans[i].end <= |baseline|;
    }
    LeftToRightIsOrdered(edits);
  }
}
