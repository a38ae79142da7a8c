/** Offset projection (editor_projection.go, editor.go): where each replacement
    and each untouched baseline line lands in the rendered text. */
module Projection {
  import opened Edits
  import opened Rows

  datatype Span = Span(start: nat, end: nat)

  datatype RenderedEdit = RenderedEdit(edit: Edit, span: Span)

  /** projectBaselineEdits, from a baseline offset and a rendered offset on. */
  function ProjectFrom(edits: seq<Edit>, cursor: nat, rendered: nat, length: nat): (projection: seq<RenderedEdit>)
    requires Chained(edits, cursor, length)
    ensures |projection| == |edits|
    ensures forall k :: 0 <= k < |edits| ==> projection[k].edit == edits[k]
  {
    if edits == [] then [] else
    var start := rendered + edits[0].start - cursor;
    var span := Span(start, start + |edits[0].replacement|);
    [RenderedEdit(edits[0], span)] + ProjectFrom(edits[1..], Max(cursor, edits[0].end), span.end, length)
  }

  function Project(edits: seq<Edit>, length: nat): (projection: seq<RenderedEdit>)
    requires Compatible(edits, length)
    ensures |projection| == |Ordered(edits)|
    ensures forall k :: 0 <= k < |projection| ==> projection[k].edit == Ordered(edits)[k]
  {
    OrderedIsChained(edits, length);
    ProjectFrom(Ordered(edits), 0, 0, length)
  }

  lemma {:induction false} SpanHoldsReplacementFrom(baseline: string, edits: seq<Edit>, cursor: nat, prefix: string,
                                                    k: nat)
    requires Chained(edits, cursor, |baseline|) && k < |edits|
    ensures var span := ProjectFrom(edits, cursor, |prefix|, |baseline|)[k].span;
      var text := prefix + RenderFrom(baseline, edits, cursor);
      |prefix| <= span.start <= span.end <= |text| && text[span.start..span.end] == edits[k].replacement
  {
    var e := edits[0];
    var grown := prefix + baseline[cursor..e.start] + e.replacement;
    var rest := RenderFrom(baseline, edits[1..], e.end);
    assert prefix + RenderFrom(baseline, edits, cursor) == grown + rest;
    if k == 0 {
      var start := |prefix| + e.start - cursor;
      assert (grown + rest)[start..start + |e.replacement|] == e.replacement;
    } else {
      SpanHoldsReplacementFrom(baseline, edits[1..], e.end, grown, k - 1);
    }
  }

  /** Every projected span holds exactly its replacement in the rendered text. */
  lemma SpanHoldsReplacement(baseline: string, edits: seq<Edit>, k: nat)
    requires Compatible(edits, |baseline|) && k < |edits|
    ensures |Ordered(edits)| == |edits|
    ensures var rendered := Project(edits, |baseline|)[k];
      && rendered.span.start <= rendered.span.end <= |Render(baseline, edits)|
      && Render(baseline, edits)[rendered.span.start..rendered.span.end] == rendered.edit.replacement
  {
    OrderedKeepsEdits(edits);
    OrderedIsChained(edits, |baseline|);
    SpanHoldsReplacementFrom(baseline, Ordered(edits), 0, "", k);
    assert "" + Render(baseline, edits) == Render(baseline, edits);
  }

  lemma {:induction false} SpansAscendFrom(edits: seq<Edit>, cursor: nat, rendered: nat, length: nat, i: nat, j: nat)
    requires Chained(edits, cursor, length) && i < j < |edits|
    ensures var projection := ProjectFrom(edits, cursor, rendered, length);
      projection[i].span.end <= projection[j].span.start
  {
    var next := rendered + edits[0].start - cursor + |edits[0].replacement|;
    var rest := ProjectFrom(edits[1..], edits[0].end, next, length);
    assert ProjectFrom(edits, cursor, rendered, length)[1..] == rest;
    if i > 0 {
      SpansAscendFrom(edits[1..], edits[0].end, next, length, i - 1, j - 1);
    } else {
      StartsAfter(edits[1..], edits[0].end, next, length, j - 1);
    }
  }

  lemma {:induction false} StartsAfter(edits: seq<Edit>, cursor: nat, rendered: nat, length: nat, k: nat)
    requires Chained(edits, cursor, length) && k < |edits|
    ensures rendered <= ProjectFrom(edits, cursor, rendered, length)[k].span.start
  {
    if k > 0 {
      StartsAfter(edits[1..], edits[0].end, rendered + edits[0].start - cursor + |edits[0].replacement|, length, k - 1);
    }
  }

  lemma SortedPair(sorted: seq<Edit>, i: nat, j: nat)
    requires Sorted(sorted) && i < |sorted| && j < |sorted|
    ensures i <= j || Before(sorted[j], sorted[i])
  {
  }

  /** Insertions recorded at one point appear in recording order, one after the other. */
  lemma SamePointInsertions(edits: seq<Edit>, length: nat, i: nat, j: nat)
    requires Compatible(edits, length) && i < |edits| && j < |edits| && |Ordered(edits)| == |edits|
    requires var sorted := Ordered(edits);
      IsInsertion(sorted[i]) && IsInsertion(sorted[j]) && sorted[i].start == sorted[j].start
      && sorted[i].sequence < sorted[j].sequence
    ensures i < j && Project(edits, length)[i].span.end <= Project(edits, length)[j].span.start
  {
    OrderedSorts(edits);
    OrderedIsChained(edits, length);
    SortedPair(Ordered(edits), i, j);
    SpansAscendFrom(Ordered(edits), 0, 0, length, i, j);
  }

  // ---- Baseline boundaries in the rendered text ---------------------------------

  predicate Counts(e: Edit, offset: nat, includeInsertions: bool) {
    if IsInsertion(e) then e.start < offset || (includeInsertions && e.start == offset) else e.end <= offset
  }

  function Growth(e: Edit): int {
    |e.replacement| - (e.end - e.start)
  }

  // What the counted edits add to the boundary.
  function Shift(edits: seq<Edit>, offset: nat, includeInsertions: bool): int {
    if edits == [] then 0
    else
      (if Counts(edits[0], offset, includeInsertions) then Growth(edits[0]) else 0)
      + Shift(edits[1..], offset, includeInsertions)
  }

  /** renderedBaselineBoundary */
  function Boundary(edits: seq<Edit>, offset: nat, includeInsertions: bool): int {
    offset + Shift(edits, offset, includeInsertions)
  }

  /** The test of renderedBaselineLine: the edit leaves the extent alone. */
  predicate Misses(e: Edit, start: nat, end: nat) {
    if IsInsertion(e) then !(start < e.start < end) else !(e.start < end && e.end > start)
  }

  ghost predicate Untouched(edits: seq<Edit>, start: nat, end: nat) {
    forall k :: 0 <= k < |edits| ==> Misses(edits[k], start, end)
  }

  lemma {:induction false} NothingCounts(edits: seq<Edit>, cursor: nat, length: nat, offset: nat,
                                         includeInsertions: bool)
    requires Chained(edits, cursor, length) && offset <= cursor && (includeInsertions ==> offset < cursor)
    ensures Shift(edits, offset, includeInsertions) == 0
  {
    if edits != [] {
      NothingCounts(edits[1..], edits[0].end, length, offset, includeInsertions);
    }
  }

  // With `prefix` rendered up to `cursor`, the extent lands verbatim where the boundaries say.
  ghost predicate Lands(baseline: string, edits: seq<Edit>, cursor: nat, rendered: nat, text: string, start: nat,
                        end: nat)
    requires start <= end <= |baseline|
  {
    var a := rendered - cursor + Boundary(edits, start, true);
    && rendered - cursor + Boundary(edits, end, false) == a + end - start
    && rendered <= a && a + end - start <= |text|
    && text[a..a + end - start] == baseline[start..end]
  }

  lemma Regroup(prefix: string, gap: string, replacement: string, rest: string)
    ensures prefix + (gap + replacement + rest) == prefix + gap + replacement + rest
  {
  }

  lemma {:induction false} LineLandsFrom(baseline: string, edits: seq<Edit>, cursor: nat, prefix: string, start: nat,
                                         end: nat)
    requires Chained(edits, cursor, |baseline|) && cursor <= start < end <= |baseline|
    requires Untouched(edits, start, end)
    ensures Lands(baseline, edits, cursor, |prefix|, prefix + RenderFrom(baseline, edits, cursor), start, end)
  {
    if edits == [] {
      LandsUnedited(baseline, prefix, cursor, start, end);
    } else {
      assert Misses(edits[0], start, end);
      if edits[0].end <= start {
        var grown := prefix + baseline[cursor..edits[0].start] + edits[0].replacement;
        LineLandsFrom(baseline, edits[1..], edits[0].end, grown, start, end);
        LandsBehind(baseline, edits, cursor, prefix, grown, start, end);
      } else {
        LandsAhead(baseline, edits, cursor, prefix, start, end);
      }
    }
  }

  lemma LandsBehind(baseline: string, edits: seq<Edit>, cursor: nat, prefix: string, grown: string, start: nat,
                    end: nat)
    requires Chained(edits, cursor, |baseline|) && edits != [] && edits[0].end <= start < end <= |baseline|
    requires grown == prefix + baseline[cursor..edits[0].start] + edits[0].replacement
    requires var text := grown + RenderFrom(baseline, edits[1..], edits[0].end);
      Lands(baseline, edits[1..], edits[0].end, |grown|, text, start, end)
    ensures Lands(baseline, edits, cursor, |prefix|, prefix + RenderFrom(baseline, edits, cursor), start, end)
  {
    var gap, rest := baseline[cursor..edits[0].start], RenderFrom(baseline, edits[1..], edits[0].end);
    Regroup(prefix, gap, edits[0].replacement, rest);
    LandsAfterFirst(baseline, edits, cursor, |prefix|, grown + rest, start, end);
  }

  lemma LandsAhead(baseline: string, edits: seq<Edit>, cursor: nat, prefix: string, start: nat, end: nat)
    requires Chained(edits, cursor, |baseline|) && edits != [] && cursor <= start < end <= edits[0].start
    ensures Lands(baseline, edits, cursor, |prefix|, prefix + RenderFrom(baseline, edits, cursor), start, end)
  {
    LandsBefore(baseline, prefix, cursor, edits[0], RenderFrom(baseline, edits[1..], edits[0].end), start, end);
    LandsBeforeAll(baseline, edits, cursor, |prefix|, prefix + RenderFrom(baseline, edits, cursor), start, end);
  }

  lemma LandsAfterFirst(baseline: string, edits: seq<Edit>, cursor: nat, rendered: nat, text: string, start: nat,
                        end: nat)
    requires Chained(edits, cursor, |baseline|) && edits != [] && edits[0].end <= start < end <= |baseline|
    requires Lands(baseline, edits[1..], edits[0].end, rendered + edits[0].start - cursor + |edits[0].replacement|,
                   text, start, end)
    ensures Lands(baseline, edits, cursor, rendered, text, start, end)
  {
    assert Counts(edits[0], start, true) && Counts(edits[0], end, false);
  }

  lemma LandsBeforeAll(baseline: string, edits: seq<Edit>, cursor: nat, rendered: nat, text: string, start: nat,
                       end: nat)
    requires Chained(edits, cursor, |baseline|) && edits != [] && cursor <= start < end <= edits[0].start
    requires var a := rendered + start - cursor;
      a + end - start <= |text| && text[a..a + end - start] == baseline[start..end]
    ensures Lands(baseline, edits, cursor, rendered, text, start, end)
  {
    NothingCounts(edits[1..], edits[0].end, |baseline|, start, true);
    NothingCounts(edits[1..], edits[0].end, |baseline|, end, false);
  }

  lemma LandsUnedited(baseline: string, prefix: string, cursor: nat, start: nat, end: nat)
    requires cursor <= start < end <= |baseline|
    ensures Lands(baseline, [], cursor, |prefix|, prefix + baseline[cursor..], start, end)
  {
    var a, text := |prefix| + start - cursor, prefix + baseline[cursor..];
    assert text[a..a + end - start] == baseline[cursor..][start - cursor..end - cursor];
  }

  lemma LandsBefore(baseline: string, prefix: string, cursor: nat, e: Edit, rest: string, start: nat, end: nat)
    requires cursor <= start < end <= e.start <= |baseline|
    ensures var a := |prefix| + start - cursor;
      (prefix + (baseline[cursor..e.start] + e.replacement + rest))[a..a + end - start] == baseline[start..end]
  {
    var a := |prefix| + start - cursor;
    var text := prefix + (baseline[cursor..e.start] + e.replacement + rest);
    var gap := baseline[cursor..e.start];
    assert text == (prefix + gap) + (e.replacement + rest);
    assert text[a..a + end - start] == (prefix + gap)[a..a + end - start] == gap[start - cursor..end - cursor];
  }

  /** An untouched baseline extent appears verbatim at the offsets that
      renderedBaselineLine computes. */
  lemma UntouchedIsVerbatim(baseline: string, edits: seq<Edit>, start: nat, end: nat)
    requires Compatible(edits, |baseline|) && start < end <= |baseline| && Untouched(Ordered(edits), start, end)
    ensures var a, b := Boundary(Ordered(edits), start, true), Boundary(Ordered(edits), end, false);
      && 0 <= a && b == a + end - start && b <= |Render(baseline, edits)|
      && Render(baseline, edits)[a..b] == baseline[start..end]
  {
    OrderedIsChained(edits, |baseline|);
    LineLandsFrom(baseline, Ordered(edits), 0, "", start, end);
    assert "" + Render(baseline, edits) == Render(baseline, edits);
  }

  // Edits between `cursor` and `offset` remove no more than what lies between them.
  lemma {:induction false} BoundaryStaysAhead(edits: seq<Edit>, cursor: nat, length: nat, offset: nat)
    requires Chained(edits, cursor, length) && cursor <= offset
    ensures cursor <= Boundary(edits, offset, true)
  {
    if edits != [] {
      if edits[0].end <= offset {
        BoundaryStaysAhead(edits[1..], edits[0].end, length, offset);
      } else {
        NothingCounts(edits[1..], edits[0].end, length, offset, true);
      }
    }
  }

  lemma {:induction false} BoundariesAscend(edits: seq<Edit>, cursor: nat, length: nat, end: nat, start: nat)
    requires Chained(edits, cursor, length) && cursor <= end <= start
    requires forall k :: 0 <= k < |edits| ==> IsInsertion(edits[k]) || edits[k].end <= end || end <= edits[k].start
    ensures Boundary(edits, end, false) <= Boundary(edits, start, true)
  {
    if edits != [] {
      var e := edits[0];
      if e.end <= end && Counts(e, end, false) {
        BoundariesAscend(edits[1..], e.end, length, end, start);
      } else {
        NothingCounts(edits[1..], e.end, length, end, false);
        BoundaryAfter(edits, length, end, start);
      }
    }
  }

  // All edits start at or after `end`, so none moves `end`.
  lemma BoundaryAfter(edits: seq<Edit>, length: nat, end: nat, start: nat)
    requires edits != [] && Chained(edits, end, length) && end <= start
    ensures end <= Boundary(edits, start, true)
  {
    BoundaryStaysAhead(edits, end, length, start);
  }

  /** Different untouched lines land on disjoint extents, in baseline order. */
  lemma UntouchedLinesAreDisjoint(edits: seq<Edit>, length: nat, a: Line, b: Line)
    requires Compatible(edits, length) && a.start < a.end <= b.start < b.end <= length
    requires Untouched(Ordered(edits), a.start, a.end) && Untouched(Ordered(edits), b.start, b.end)
    ensures Boundary(Ordered(edits), a.end, false) <= Boundary(Ordered(edits), b.start, true)
  {
    var sorted := Ordered(edits);
    OrderedIsChained(edits, length);
    forall k | 0 <= k < |sorted| ensures IsInsertion(sorted[k]) || sorted[k].end <= a.end || a.end <= sorted[k].start {
      assert Misses(sorted[k], a.start, a.end);
    }
    BoundariesAscend(sorted, 0, length, a.end, b.start);
  }

  // ---- Sizes ------------------------------------------------------------------------

  function TotalGrowth(edits: seq<Edit>): int {
    if edits == [] then 0 else TotalGrowth(edits[..|edits| - 1]) + Growth(edits[|edits| - 1])
  }

  function FrontGrowth(edits: seq<Edit>): int {
    if edits == [] then 0 else Growth(edits[0]) + FrontGrowth(edits[1..])
  }

  lemma {:induction false} InsertGrowth(sorted: seq<Edit>, e: Edit)
    ensures FrontGrowth(Insert(sorted, e)) == FrontGrowth(sorted) + Growth(e)
  {
    if sorted != [] && !Before(e, sorted[0]) {
      InsertGrowth(sorted[1..], e);
    } else {
      assert ([e] + sorted)[1..] == sorted;
    }
  }

  lemma {:induction false} OrderedGrowth(edits: seq<Edit>)
    ensures FrontGrowth(Ordered(edits)) == TotalGrowth(edits)
    decreases |edits|
  {
    if edits != [] {
      OrderedGrowth(edits[..|edits| - 1]);
      InsertGrowth(Ordered(edits[..|edits| - 1]), edits[|edits| - 1]);
    }
  }

  lemma {:induction false} RenderFromSize(baseline: string, edits: seq<Edit>, cursor: nat)
    requires Chained(edits, cursor, |baseline|)
    ensures |RenderFrom(baseline, edits, cursor)| == |baseline| - cursor + FrontGrowth(edits)
  {
    if edits != [] {
      RenderFromSize(baseline, edits[1..], edits[0].end);
    }
  }

  lemma RenderSize(baseline: string, edits: seq<Edit>)
    requires Compatible(edits, |baseline|)
    ensures |Render(baseline, edits)| == |baseline| + TotalGrowth(edits)
  {
    OrderedIsChained(edits, |baseline|);
    RenderFromSize(baseline, Ordered(edits), 0);
    OrderedGrowth(edits);
  }
}
