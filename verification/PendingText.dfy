/** What new edits of the immutable baseline change in the pending text
    (editor.go:193-207, editor_projection.go:42-52): each replaces exactly the image
    of what it replaces in the baseline, and everything else stays. */
module PendingText {
  import opened Edits
  import opened Projection

  // Where the baseline text that an edit replaces stands in the pending text.
  function ImageStart(edits: seq<Edit>, e: Edit): int {
    Boundary(Ordered(edits), e.start, true)
  }

  function ImageEnd(edits: seq<Edit>, e: Edit): int {
    if IsInsertion(e) then ImageStart(edits, e) else Boundary(Ordered(edits), e.end, false)
  }

  function Replaced(text: string, start: int, end: int, replacement: string): string
    requires 0 <= start <= end <= |text|
  {
    text[..start] + replacement + text[end..]
  }

  // ---- One more edit -------------------------------------------------------------------

  // The edit comes after every edit of the list and conflicts with none.
  ghost predicate IsNext(edits: seq<Edit>, e: Edit) {
    forall i :: 0 <= i < |edits| ==> edits[i].sequence < e.sequence && !Conflicts(edits[i], e)
  }

  // The image of `e`, when the text before `cursor` has been rendered to `rendered` characters.
  function From(sorted: seq<Edit>, e: Edit, cursor: nat, rendered: nat): int {
    rendered - cursor + Boundary(sorted, e.start, true)
  }

  function To(sorted: seq<Edit>, e: Edit, cursor: nat, rendered: nat): int {
    rendered - cursor + if IsInsertion(e) then Boundary(sorted, e.start, true) else Boundary(sorted, e.end, false)
  }

  ghost predicate Shows(baseline: string, sorted: seq<Edit>, e: Edit, cursor: nat, prefix: string, text: string,
                        next: string)
    requires e.start <= e.end <= |baseline|
  {
    var a, b := From(sorted, e, cursor, |prefix|), To(sorted, e, cursor, |prefix|);
    && |prefix| <= a <= b <= |text|
    && text[a..b] == baseline[e.start..e.end]
    && next == text[..a] + e.replacement + text[b..]
  }

  // An edit that renders before all others is counted by none of the boundaries.
  lemma FirstImage(sorted: seq<Edit>, e: Edit, cursor: nat, length: nat)
    requires Chained(sorted, cursor, length) && WellPlaced(e, length) && cursor <= e.start
    requires sorted != [] ==> Before(e, sorted[0]) && !Conflicts(sorted[0], e) && sorted[0].sequence < e.sequence
    ensures Boundary(sorted, e.start, true) == e.start
    ensures !IsInsertion(e) ==> Boundary(sorted, e.end, false) == e.end
    ensures Chained(sorted, e.end, length)
  {
    if sorted != [] {
      var first := sorted[0];
      ConflictIsSymmetric(first, e);
      NeighboursDoNotOverlap(e, first, length);
      NothingCounts(sorted[1..], first.end, length, e.start, true);
      if !IsInsertion(e) {
        NothingCounts(sorted[1..], first.end, length, e.end, false);
      }
    }
  }

  lemma SkipGap(baseline: string, sorted: seq<Edit>, cursor: nat, middle: nat)
    requires Chained(sorted, cursor, |baseline|) && Chained(sorted, middle, |baseline|) && cursor <= middle
    ensures RenderFrom(baseline, sorted, cursor) == baseline[cursor..middle] + RenderFrom(baseline, sorted, middle)
  {
    var skipped := baseline[cursor..middle];
    if sorted == [] {
      assert baseline[cursor..] == skipped + baseline[middle..];
    } else {
      var first, gap := sorted[0], baseline[middle..sorted[0].start];
      assert baseline[cursor..first.start] == skipped + gap;
      Regroup(skipped, gap, first.replacement, RenderFrom(baseline, sorted[1..], first.end));
    }
  }

  // Three pieces, the middle one replaced.
  lemma ReplaceMiddle(before: string, middle: string, after: string, replacement: string)
    ensures var text, a, b := before + middle + after, |before|, |before| + |middle|;
      && text[a..b] == middle && text[..a] + replacement + text[b..] == before + replacement + after
  {
    var text := before + middle + after;
    assert text[..|before|] == before && text[|before| + |middle|..] == after;
  }

  lemma GapsJoin(prefix: string, gap: string, gone: string, rest: string)
    ensures prefix + (gap + gone + rest) == prefix + gap + gone + rest
  {
  }

  // The two texts around the first edit, in pieces.
  lemma FirstPieces(baseline: string, sorted: seq<Edit>, e: Edit, cursor: nat)
    requires Chained(sorted, cursor, |baseline|) && Chained(sorted, e.end, |baseline|)
    requires cursor <= e.start <= e.end <= |baseline|
    ensures var gap, gone, rest := baseline[cursor..e.start], baseline[e.start..e.end],
        RenderFrom(baseline, sorted, e.end);
      && Chained([e] + sorted, cursor, |baseline|)
      && RenderFrom(baseline, sorted, cursor) == gap + gone + rest
      && RenderFrom(baseline, [e] + sorted, cursor) == gap + e.replacement + rest
  {
    assert ([e] + sorted)[1..] == sorted;
    SkipGap(baseline, sorted, cursor, e.end);
    assert baseline[cursor..e.end] == baseline[cursor..e.start] + baseline[e.start..e.end];
  }

  lemma ShowsFirst(baseline: string, sorted: seq<Edit>, e: Edit, cursor: nat, prefix: string)
    requires Chained(sorted, cursor, |baseline|) && WellPlaced(e, |baseline|) && cursor <= e.start
    requires sorted != [] ==> Before(e, sorted[0]) && !Conflicts(sorted[0], e) && sorted[0].sequence < e.sequence
    ensures Chained([e] + sorted, cursor, |baseline|)
    ensures Shows(baseline, sorted, e, cursor, prefix, prefix + RenderFrom(baseline, sorted, cursor),
                  prefix + RenderFrom(baseline, [e] + sorted, cursor))
  {
    FirstImage(sorted, e, cursor, |baseline|);
    FirstPieces(baseline, sorted, e, cursor);
    var gap, gone, rest := baseline[cursor..e.start], baseline[e.start..e.end], RenderFrom(baseline, sorted, e.end);
    GapsJoin(prefix, gap, gone, rest);
    GapsJoin(prefix, gap, e.replacement, rest);
    ReplaceMiddle(prefix + gap, gone, rest, e.replacement);
  }

  // An edit that renders earlier counts for both boundaries.
  lemma CountsEarlier(first: Edit, e: Edit)
    requires first.end <= e.start <= e.end && first.start <= first.end
    ensures Counts(first, e.start, true) && (!IsInsertion(e) ==> Counts(first, e.end, false))
  {
  }

  lemma ShowsLater(baseline: string, sorted: seq<Edit>, e: Edit, cursor: nat, prefix: string, text: string,
                   next: string)
    requires Chained(sorted, cursor, |baseline|) && sorted != [] && sorted[0].end <= e.start <= e.end <= |baseline|
    requires var grown := prefix + baseline[cursor..sorted[0].start] + sorted[0].replacement;
      Shows(baseline, sorted[1..], e, sorted[0].end, grown, text, next)
    ensures Shows(baseline, sorted, e, cursor, prefix, text, next)
  {
    CountsEarlier(sorted[0], e);
  }

  lemma {:induction false} InsertShows(baseline: string, sorted: seq<Edit>, e: Edit, cursor: nat, prefix: string)
    requires Chained(sorted, cursor, |baseline|) && WellPlaced(e, |baseline|) && cursor <= e.start && IsNext(sorted, e)
    ensures Chained(Insert(sorted, e), cursor, |baseline|)
    ensures Shows(baseline, sorted, e, cursor, prefix, prefix + RenderFrom(baseline, sorted, cursor),
                  prefix + RenderFrom(baseline, Insert(sorted, e), cursor))
  {
    if sorted == [] || Before(e, sorted[0]) {
      ShowsFirst(baseline, sorted, e, cursor, prefix);
    } else {
      var first := sorted[0];
      NeighboursDoNotOverlap(first, e, |baseline|);
      var grown := prefix + baseline[cursor..first.start] + first.replacement;
      InsertShows(baseline, sorted[1..], e, first.end, grown);
      InsertUnfolds(baseline, sorted, e, cursor, prefix);
      ShowsLater(baseline, sorted, e, cursor, prefix, prefix + RenderFrom(baseline, sorted, cursor),
                 prefix + RenderFrom(baseline, Insert(sorted, e), cursor));
    }
  }

  lemma InsertUnfolds(baseline: string, sorted: seq<Edit>, e: Edit, cursor: nat, prefix: string)
    requires sorted != [] && !Before(e, sorted[0]) && Chained(sorted, cursor, |baseline|)
    requires Chained(Insert(sorted[1..], e), sorted[0].end, |baseline|)
    ensures var grown := prefix + baseline[cursor..sorted[0].start] + sorted[0].replacement;
      && Chained(Insert(sorted, e), cursor, |baseline|)
      && prefix + RenderFrom(baseline, sorted, cursor) == grown + RenderFrom(baseline, sorted[1..], sorted[0].end)
      && prefix + RenderFrom(baseline, Insert(sorted, e), cursor)
         == grown + RenderFrom(baseline, Insert(sorted[1..], e), sorted[0].end)
  {
    var first, gap := sorted[0], baseline[cursor..sorted[0].start];
    var inserted := Insert(sorted, e);
    assert inserted[0] == first && inserted[1..] == Insert(sorted[1..], e);
    Regroup(prefix, gap, first.replacement, RenderFrom(baseline, sorted[1..], first.end));
    Regroup(prefix, gap, first.replacement, RenderFrom(baseline, inserted[1..], first.end));
  }

  lemma OrderedIsNext(edits: seq<Edit>, e: Edit)
    requires IsNext(edits, e)
    ensures IsNext(Ordered(edits), e)
  {
    OrderedKeepsEdits(edits);
    forall i | 0 <= i < |Ordered(edits)|
      ensures Ordered(edits)[i].sequence < e.sequence && !Conflicts(Ordered(edits)[i], e)
    {
      assert Ordered(edits)[i] in multiset(edits);
      var k :| 0 <= k < |edits| && edits[k] == Ordered(edits)[i];
    }
  }

  lemma NextIsCompatible(edits: seq<Edit>, e: Edit, length: nat)
    requires Compatible(edits, length) && WellPlaced(e, length) && IsNext(edits, e)
    ensures Compatible(edits + [e], length)
  {
  }

  lemma OrderedSnoc(edits: seq<Edit>, e: Edit)
    ensures Ordered(edits + [e]) == Insert(Ordered(edits), e)
  {
    assert (edits + [e])[..|edits|] == edits;
  }

  // The whole text, with nothing rendered before it.
  lemma ShowsWhole(baseline: string, sorted: seq<Edit>, e: Edit, text: string, next: string)
    requires e.start <= e.end <= |baseline| && Shows(baseline, sorted, e, 0, "", "" + text, "" + next)
    ensures var a := Boundary(sorted, e.start, true);
      var b := if IsInsertion(e) then a else Boundary(sorted, e.end, false);
      && 0 <= a <= b <= |text|
      && text[a..b] == baseline[e.start..e.end]
      && next == Replaced(text, a, b, e.replacement)
  {
    assert "" + text == text && "" + next == next;
  }

  /** One more edit replaces, in the pending text, exactly the image of what it replaces
      in the baseline; an insertion goes after the earlier ones at its point. */
  lemma NextEditShows(baseline: string, edits: seq<Edit>, e: Edit)
    requires Compatible(edits, |baseline|) && WellPlaced(e, |baseline|) && IsNext(edits, e)
    ensures Compatible(edits + [e], |baseline|)
    ensures var text, a, b := Render(baseline, edits), ImageStart(edits, e), ImageEnd(edits, e);
      && 0 <= a <= b <= |text|
      && text[a..b] == baseline[e.start..e.end]
      && Render(baseline, edits + [e]) == Replaced(text, a, b, e.replacement)
  {
    NextIsCompatible(edits, e, |baseline|);
    OrderedIsChained(edits, |baseline|);
    OrderedIsNext(edits, e);
    OrderedSnoc(edits, e);
    InsertShows(baseline, Ordered(edits), e, 0, "");
    ShowsWhole(baseline, Ordered(edits), e, RenderFrom(baseline, Ordered(edits), 0),
               RenderFrom(baseline, Insert(Ordered(edits), e), 0));
  }

  // ---- A batch of edits ---------------------------------------------------------------------

  // From left to right, each after the others that are recorded.
  ghost predicate IsBatch(edits: seq<Edit>, batch: seq<Edit>, length: nat) {
    && (forall k :: 0 <= k < |batch| ==> WellPlaced(batch[k], length) && IsNext(edits, batch[k]))
    && (forall j, k :: 0 <= j < k < |batch| ==> batch[j].sequence < batch[k].sequence)
    && (forall j, k :: 0 <= j < k < |batch| ==> batch[j].end <= batch[k].start && batch[j].start < batch[k].start)
  }

  // The end of the last image, and the new text up to there.
  function Done(edits: seq<Edit>, batch: seq<Edit>): int {
    if batch == [] then 0 else ImageEnd(edits, batch[|batch| - 1])
  }

  ghost predicate InText(text: string, edits: seq<Edit>, batch: seq<Edit>) {
    if batch == [] then true else
    var front, e := batch[..|batch| - 1], batch[|batch| - 1];
    InText(text, edits, front) && 0 <= Done(edits, front) <= ImageStart(edits, e) <= ImageEnd(edits, e) <= |text|
  }

  function NewText(text: string, edits: seq<Edit>, batch: seq<Edit>): string
    requires InText(text, edits, batch)
  {
    if batch == [] then "" else
    var front, e := batch[..|batch| - 1], batch[|batch| - 1];
    NewText(text, edits, front) + text[Done(edits, front)..ImageStart(edits, e)] + e.replacement
  }

  /** The pending text with every image replaced and all else kept. */
  function Assembled(text: string, edits: seq<Edit>, batch: seq<Edit>): string
    requires InText(text, edits, batch) && 0 <= Done(edits, batch) <= |text|
  {
    NewText(text, edits, batch) + text[Done(edits, batch)..]
  }

  // ---- Boundaries grow with every edit counted -------------------------------------------------

  lemma {:induction false} InsertShifts(sorted: seq<Edit>, e: Edit, offset: nat, includeInsertions: bool)
    ensures Shift(Insert(sorted, e), offset, includeInsertions)
            == Shift(sorted, offset, includeInsertions) + if Counts(e, offset, includeInsertions) then Growth(e) else 0
  {
    if sorted != [] && !Before(e, sorted[0]) {
      InsertShifts(sorted[1..], e, offset, includeInsertions);
    } else {
      assert ([e] + sorted)[1..] == sorted;
    }
  }

  lemma SnocShifts(edits: seq<Edit>, e: Edit, offset: nat, includeInsertions: bool)
    ensures Boundary(Ordered(edits + [e]), offset, includeInsertions)
            == Boundary(Ordered(edits), offset, includeInsertions)
               + if Counts(e, offset, includeInsertions) then Growth(e) else 0
  {
    OrderedSnoc(edits, e);
    InsertShifts(Ordered(edits), e, offset, includeInsertions);
  }

  function GrowthOf(batch: seq<Edit>): int {
    if batch == [] then 0 else GrowthOf(batch[..|batch| - 1]) + Growth(batch[|batch| - 1])
  }

  /** Edits to the left move the image of an edit by what they grow. */
  lemma {:induction false} ImageMoves(edits: seq<Edit>, batch: seq<Edit>, e: Edit)
    requires e.start <= e.end
    requires forall k :: 0 <= k < |batch| ==> batch[k].start <= batch[k].end <= e.start
    ensures ImageStart(edits + batch, e) == ImageStart(edits, e) + GrowthOf(batch)
    ensures ImageEnd(edits + batch, e) == ImageEnd(edits, e) + GrowthOf(batch)
  {
    if batch == [] {
      assert edits + batch == edits;
    } else {
      var front, last := batch[..|batch| - 1], batch[|batch| - 1];
      ImageMoves(edits, front, e);
      assert edits + batch == (edits + front) + [last];
      CountsEarlier(last, e);
      SnocShifts(edits + front, last, e.start, true);
      SnocShifts(edits + front, last, e.end, false);
    }
  }

  // ---- Images ascend ------------------------------------------------------------------------

  lemma {:induction false} PointsAscend(sorted: seq<Edit>, cursor: nat, length: nat, x: nat, y: nat)
    requires Chained(sorted, cursor, length) && cursor <= x < y
    requires forall k :: 0 <= k < |sorted| ==> IsInsertion(sorted[k]) || sorted[k].end <= x || x <= sorted[k].start
    ensures Boundary(sorted, x, true) <= Boundary(sorted, y, true)
  {
    if sorted != [] {
      var first := sorted[0];
      if Counts(first, x, true) {
        PointsAscend(sorted[1..], first.end, length, x, y);
      } else {
        NothingCounts(sorted[1..], first.end, length, x, true);
        BoundaryStaysAhead(sorted, x, length, y);
      }
    }
  }

  lemma MissesPoint(sorted: seq<Edit>, e: Edit, x: nat, k: nat)
    requires IsNext(sorted, e) && k < |sorted| && e.start <= e.end && sorted[k].start <= sorted[k].end
    requires x == if IsInsertion(e) then e.start else e.end
    ensures IsInsertion(sorted[k]) || sorted[k].end <= x || x <= sorted[k].start
  {
  }

  lemma {:induction false} ChainedIsPlaced(sorted: seq<Edit>, cursor: nat, length: nat)
    requires Chained(sorted, cursor, length)
    ensures forall k :: 0 <= k < |sorted| ==> WellPlaced(sorted[k], length)
  {
    if sorted != [] {
      ChainedIsPlaced(sorted[1..], sorted[0].end, length);
    }
  }

  lemma ImagesAscend(edits: seq<Edit>, e: Edit, f: Edit, length: nat)
    requires Compatible(edits, length) && WellPlaced(e, length) && IsNext(edits, e)
    requires e.end <= f.start && e.start < f.start
    ensures ImageEnd(edits, e) <= ImageStart(edits, f)
  {
    var sorted := Ordered(edits);
    OrderedIsChained(edits, length);
    OrderedIsNext(edits, e);
    ChainedIsPlaced(sorted, 0, length);
    var x := if IsInsertion(e) then e.start else e.end;
    forall k | 0 <= k < |sorted| ensures IsInsertion(sorted[k]) || sorted[k].end <= x || x <= sorted[k].start {
      MissesPoint(sorted, e, x, k);
    }
    if IsInsertion(e) {
      PointsAscend(sorted, 0, length, e.start, f.start);
    } else {
      BoundariesAscend(sorted, 0, length, e.end, f.start);
    }
  }

  // ---- The batch shows ------------------------------------------------------------------------

  // What holds after the first edits of the batch are recorded.
  ghost predicate BatchShows(baseline: string, edits: seq<Edit>, batch: seq<Edit>) {
    && Compatible(edits, |baseline|) && Compatible(edits + batch, |baseline|)
    && InText(Render(baseline, edits), edits, batch) && 0 <= Done(edits, batch) <= |Render(baseline, edits)|
    && |NewText(Render(baseline, edits), edits, batch)| == Done(edits, batch) + GrowthOf(batch)
    && Render(baseline, edits + batch) == Assembled(Render(baseline, edits), edits, batch)
  }

  lemma BatchFront(edits: seq<Edit>, batch: seq<Edit>, length: nat)
    requires IsBatch(edits, batch, length) && batch != []
    ensures IsBatch(edits, batch[..|batch| - 1], length)
    ensures WellPlaced(batch[|batch| - 1], length) && IsNext(edits, batch[|batch| - 1])
    ensures forall k :: 0 <= k < |batch| - 1 ==> batch[k].start <= batch[k].end <= batch[|batch| - 1].start
    ensures IsNext(edits + batch[..|batch| - 1], batch[|batch| - 1])
  {
    var front, e := batch[..|batch| - 1], batch[|batch| - 1];
    forall i | 0 <= i < |edits + front|
      ensures (edits + front)[i].sequence < e.sequence && !Conflicts((edits + front)[i], e)
    {
      if i >= |edits| {
        assert (edits + front)[i] == batch[i - |edits|];
      }
    }
  }

  // Replacing at or after the last image keeps the new text up to there.
  lemma AssembleOne(made: string, text: string, done: int, growth: int, a: int, b: int, replacement: string)
    requires 0 <= done <= a <= b <= |text| && |made| == done + growth
    ensures var shown := made + text[done..];
      && 0 <= a + growth <= b + growth <= |shown|
      && Replaced(shown, a + growth, b + growth, replacement) == made + text[done..a] + replacement + text[b..]
  {
    var shown := made + text[done..];
    assert shown[..a + growth] == made + text[done..a];
    assert shown[b + growth..] == text[b..];
  }

  // One more edit, when the pending text is new up to `done` and its images have moved by `growth`.
  lemma NextAssembles(baseline: string, before: seq<Edit>, e: Edit, made: string, text: string, done: int, growth: int,
                      a: int, b: int)
    requires Compatible(before, |baseline|) && IsNext(before, e) && WellPlaced(e, |baseline|)
    requires 0 <= done <= a <= b <= |text| && |made| == done + growth
    requires Render(baseline, before) == made + text[done..]
    requires ImageStart(before, e) == a + growth && ImageEnd(before, e) == b + growth
    ensures Compatible(before + [e], |baseline|)
    ensures Render(baseline, before + [e]) == made + text[done..a] + e.replacement + text[b..]
  {
    NextEditShows(baseline, before, e);
    AssembleOne(made, text, done, growth, a, b, e.replacement);
  }

  lemma NewTextGrows(text: string, edits: seq<Edit>, front: seq<Edit>, e: Edit)
    requires InText(text, edits, front) && |NewText(text, edits, front)| == Done(edits, front) + GrowthOf(front)
    requires 0 <= Done(edits, front) <= ImageStart(edits, e) <= ImageEnd(edits, e) <= |text|
    requires ImageEnd(edits, e) - ImageStart(edits, e) == e.end - e.start
    ensures InText(text, edits, front + [e]) && Done(edits, front + [e]) == ImageEnd(edits, e)
    ensures NewText(text, edits, front + [e])
            == NewText(text, edits, front) + text[Done(edits, front)..ImageStart(edits, e)] + e.replacement
    ensures |NewText(text, edits, front + [e])| == Done(edits, front + [e]) + GrowthOf(front + [e])
  {
    var batch := front + [e];
    assert batch[..|batch| - 1] == front && batch[|batch| - 1] == e;
  }

  // The text after the batch, from the one before its last edit.
  lemma RendersAssembled(baseline: string, edits: seq<Edit>, front: seq<Edit>, e: Edit)
    requires BatchShows(baseline, edits, front) && IsNext(edits + front, e) && WellPlaced(e, |baseline|)
    requires Done(edits, front) <= ImageStart(edits, e) <= ImageEnd(edits, e) <= |Render(baseline, edits)|
    requires forall k :: 0 <= k < |front| ==> front[k].start <= front[k].end <= e.start
    ensures Compatible(edits + front + [e], |baseline|)
    ensures var text := Render(baseline, edits);
      Render(baseline, edits + front + [e])
      == NewText(text, edits, front) + text[Done(edits, front)..ImageStart(edits, e)] + e.replacement
          + text[ImageEnd(edits, e)..]
  {
    var text := Render(baseline, edits);
    ImageMoves(edits, front, e);
    NextAssembles(baseline, edits + front, e, NewText(text, edits, front), text, Done(edits, front), GrowthOf(front),
                  ImageStart(edits, e), ImageEnd(edits, e));
  }

  // A longer list shows the batch when it renders to the assembled text.
  lemma ShowsWhenAssembled(baseline: string, edits: seq<Edit>, batch: seq<Edit>, whole: seq<Edit>)
    requires whole == edits + batch && Compatible(edits, |baseline|) && Compatible(whole, |baseline|)
    requires InText(Render(baseline, edits), edits, batch) && 0 <= Done(edits, batch) <= |Render(baseline, edits)|
    requires |NewText(Render(baseline, edits), edits, batch)| == Done(edits, batch) + GrowthOf(batch)
    requires Render(baseline, whole) == Assembled(Render(baseline, edits), edits, batch)
    ensures BatchShows(baseline, edits, batch)
  {
  }

  lemma OneMoreShows(baseline: string, edits: seq<Edit>, front: seq<Edit>, e: Edit)
    requires BatchShows(baseline, edits, front) && IsNext(edits, e) && IsNext(edits + front, e)
    requires WellPlaced(e, |baseline|) && Done(edits, front) <= ImageStart(edits, e)
    requires forall k :: 0 <= k < |front| ==> front[k].start <= front[k].end <= e.start
    ensures BatchShows(baseline, edits, front + [e])
  {
    ImageLength(baseline, edits, e);
    RendersAssembled(baseline, edits, front, e);
    NewTextGrows(Render(baseline, edits), edits, front, e);
    ShowsWhenAssembled(baseline, edits, front + [e], edits + front + [e]);
  }

  lemma ImageLength(baseline: string, edits: seq<Edit>, e: Edit)
    requires Compatible(edits, |baseline|) && WellPlaced(e, |baseline|) && IsNext(edits, e)
    ensures ImageEnd(edits, e) - ImageStart(edits, e) == e.end - e.start
    ensures 0 <= ImageStart(edits, e) <= ImageEnd(edits, e) <= |Render(baseline, edits)|
  {
    NextEditShows(baseline, edits, e);
  }

  lemma NothingShows(baseline: string, edits: seq<Edit>)
    requires Compatible(edits, |baseline|)
    ensures BatchShows(baseline, edits, [])
  {
    assert "" + Render(baseline, edits)[0..] == Render(baseline, edits);
    ShowsWhenAssembled(baseline, edits, [], edits);
  }

  // The last edit of a batch lands after the others.
  lemma LastLandsAfter(baseline: string, edits: seq<Edit>, batch: seq<Edit>)
    requires Compatible(edits, |baseline|) && IsBatch(edits, batch, |baseline|) && batch != []
    ensures Done(edits, batch[..|batch| - 1]) <= ImageStart(edits, batch[|batch| - 1])
  {
    var n := |batch| - 1;
    ImageLength(baseline, edits, batch[n]);
    if n > 0 {
      ImagesAscend(edits, batch[n - 1], batch[n], |baseline|);
    }
  }

  /** A batch replaces the image of each of its spans and nothing else. */
  lemma {:induction false} BatchReplacesImages(baseline: string, edits: seq<Edit>, batch: seq<Edit>)
    requires Compatible(edits, |baseline|) && IsBatch(edits, batch, |baseline|)
    ensures BatchShows(baseline, edits, batch)
    decreases |batch|
  {
    if batch == [] {
      NothingShows(baseline, edits);
    } else {
      var front, e := batch[..|batch| - 1], batch[|batch| - 1];
      BatchFront(edits, batch, |baseline|);
      BatchReplacesImages(baseline, edits, front);
      LastLandsAfter(baseline, edits, batch);
      OneMoreShows(baseline, edits, front, e);
      assert batch == front + [e];
    }
  }
}
