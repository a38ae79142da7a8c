/** Projection of whole source extents (format_offsets.go:336-373). */
module ExtentMap {
  import opened Wrappers
  import opened OffsetMap

  function Hull(a: Span, b: Span): Span {
    Span(Min(a.start, b.start), Max(a.end, b.end))
  }

  predicate Includes(span: Span, point: int) {
    span.start <= point <= span.end
  }

  // ---- mapExtent ----------------------------------------------------------------------

  // The part of an extent that lies in an anchor, relative to its start.
  function Local(anchor: Anchor, extent: Span): Span {
    Span(Max(extent.start, anchor.before.start) - anchor.before.start,
         Min(extent.end, anchor.before.end) - anchor.before.start)
  }

  function Clipped(anchor: Anchor, part: Span): Span {
    Span(Min(part.start, Length(anchor.after)),
         if part.end == Length(anchor.before) then Length(anchor.after) else Min(part.end, Length(anchor.after)))
  }

  ghost function Inner(anchor: Anchor, part: Span): Span
    decreases anchor, 0
  {
    if anchor.nested.Some? then MapExtent(anchor.nested.value, part) else Clipped(anchor, part)
  }

  function Shift(span: Span, offset: int): Span {
    Span(offset + span.start, offset + span.end)
  }

  // The image of the part of an extent that lies in an anchor.
  ghost function Part(anchor: Anchor, extent: Span): Span
    decreases anchor, 1
  {
    Shift(Inner(anchor, Local(anchor, extent)), anchor.after.start)
  }

  // The exclusive end of an extent belongs to the anchor on its left.
  ghost function EndPoint(m: Map, end: int): int {
    var next := Next(m.anchors, end);
    if next > 0 && m.anchors[next - 1].before.end == end then m.anchors[next - 1].after.end else MapOffset(m, end)
  }

  ghost function Widen(m: Map, extent: Span, result: Span, i: nat): Span
    requires i <= |m.anchors|
    decreases m, |m.anchors| - i
  {
    if i < |m.anchors| && m.anchors[i].before.start < extent.end then
      Widen(m, extent, Hull(result, Part(m.anchors[i], extent)), i + 1)
    else result
  }

  ghost function Ends(m: Map, extent: Span): Span {
    var start, end := MapOffset(m, extent.start), EndPoint(m, extent.end);
    Span(Min(start, end), Max(start, end))
  }

  ghost function MapExtent(m: Map, extent: Span): Span
    decreases m, |m.anchors| + 1
  {
    if extent.start == extent.end then Span(MapOffset(m, extent.start), MapOffset(m, extent.start))
    else Widen(m, extent, Ends(m, extent), Reaching(m.anchors, extent.start))
  }

  // ---- The loop ----------------------------------------------------------------------------

  method Project(m: Map, extent: Span) returns (result: Span)
    requires WellFormed(m)
    ensures result == MapExtent(m, extent)
    decreases m, 2
  {
    if extent.start == extent.end {
      var point := MapTokenOffset(m, extent.start);
      return Span(point, point);
    }
    WellFormedIsSorted(m);
    var start := MapTokenOffset(m, extent.start);
    var end := MapTokenOffset(m, extent.end);
    var next := SearchStart(m.anchors, extent.end);
    if next > 0 && m.anchors[next - 1].before.end == extent.end {
      end := m.anchors[next - 1].after.end;
    }
    var first := SearchEnd(m.anchors, extent.start);
    result := WidenAll(m, extent, Span(Min(start, end), Max(start, end)), first);
  }

  // The loop over the anchors that the extent overlaps.
  method WidenAll(m: Map, extent: Span, initial: Span, first: nat) returns (result: Span)
    requires WellFormed(m) && first <= |m.anchors|
    ensures result == Widen(m, extent, initial, first)
    decreases m, 1
  {
    result := initial;
    var i := first;
    while i < |m.anchors| && m.anchors[i].before.start < extent.end
      invariant i <= |m.anchors|
      invariant Widen(m, extent, result, i) == Widen(m, extent, initial, first)
    {
      var part := ProjectPart(m, i, extent);
      result := Span(Min(result.start, part.start), Max(result.end, part.end));
      i := i + 1;
    }
  }

  method ProjectPart(m: Map, i: nat, extent: Span) returns (part: Span)
    requires WellFormed(m) && i < |m.anchors|
    ensures part == Part(m.anchors[i], extent)
    decreases m, 0
  {
    var before, after := m.anchors[i].before, m.anchors[i].after;
    part := Span(Max(extent.start, before.start) - before.start, Min(extent.end, before.end) - before.start);
    assert part == Local(m.anchors[i], extent);
    if m.anchors[i].nested.Some? {
      NestedIsWellFormed(m, i);
      part := Project(m.anchors[i].nested.value, part);
    } else {
      part := part.(start := Min(part.start, after.end - after.start));
      if part.end == before.end - before.start {
        part := part.(end := after.end - after.start);
      } else {
        part := part.(end := Min(part.end, after.end - after.start));
      }
    }
    part := Span(after.start + part.start, after.start + part.end);
  }

  // ---- Bounds ------------------------------------------------------------------------------

  predicate Within(span: Span, low: int, high: int) {
    low <= span.start <= span.end <= high
  }

  lemma EndPointInRange(m: Map, end: int)
    requires WellFormed(m)
    ensures 0 <= EndPoint(m, end) <= m.afterLength
  {
    OffsetInRange(m, end);
    var next := Next(m.anchors, end);
    assert next > 0 ==> AnchorOk(m, m.anchors[next - 1]);
  }

  /** Every extent lands inside the output. */
  lemma {:induction false} ExtentInRange(m: Map, extent: Span)
    requires WellFormed(m)
    ensures Within(MapExtent(m, extent), 0, m.afterLength)
    decreases m, |m.anchors| + 1
  {
    OffsetInRange(m, extent.start);
    EndPointInRange(m, extent.end);
    if extent.start != extent.end {
      WidenInRange(m, extent, Ends(m, extent), Reaching(m.anchors, extent.start));
    }
  }

  lemma {:induction false} WidenInRange(m: Map, extent: Span, result: Span, i: nat)
    requires WellFormed(m) && Within(result, 0, m.afterLength) && i <= |m.anchors|
    requires i < |m.anchors| ==> m.anchors[i].before.end > extent.start
    ensures Within(Widen(m, extent, result, i), 0, m.afterLength)
    decreases m, |m.anchors| - i
  {
    if i < |m.anchors| && m.anchors[i].before.start < extent.end {
      if m.anchors[i].nested.Some? {
        ExtentInRange(m.anchors[i].nested.value, Local(m.anchors[i], extent));
      }
      PartInRange(m, i, extent);
      assert i + 1 < |m.anchors| ==> AnchorOk(m, m.anchors[i + 1]);
      WidenInRange(m, extent, Hull(result, Part(m.anchors[i], extent)), i + 1);
    }
  }

  lemma PartInRange(m: Map, i: nat, extent: Span)
    requires WellFormed(m) && i < |m.anchors|
    requires m.anchors[i].before.end > extent.start && m.anchors[i].before.start < extent.end
    requires m.anchors[i].nested.Some? ==>
      Within(MapExtent(m.anchors[i].nested.value, Local(m.anchors[i], extent)), 0, Length(m.anchors[i].after))
    ensures var part := Part(m.anchors[i], extent);
      0 <= part.start <= m.afterLength && 0 <= part.end <= m.afterLength
  {
    assert AnchorOk(m, m.anchors[i]);
    InnerInRange(m.anchors[i], extent);
  }

  lemma InnerInRange(anchor: Anchor, extent: Span)
    requires 0 <= Length(anchor.after) && anchor.before.end > extent.start && anchor.before.start < extent.end
    requires anchor.nested.Some? ==>
      Within(MapExtent(anchor.nested.value, Local(anchor, extent)), 0, Length(anchor.after))
    ensures var inner := Inner(anchor, Local(anchor, extent));
      0 <= inner.start <= Length(anchor.after) && 0 <= inner.end <= Length(anchor.after)
  {
  }

  // ---- Containment ---------------------------------------------------------------------------

  lemma {:induction false} WidenGrows(m: Map, extent: Span, result: Span, i: nat)
    requires i <= |m.anchors|
    ensures var wide := Widen(m, extent, result, i);
      wide.start <= result.start && result.end <= wide.end
    decreases |m.anchors| - i
  {
    if i < |m.anchors| && m.anchors[i].before.start < extent.end {
      WidenGrows(m, extent, Hull(result, Part(m.anchors[i], extent)), i + 1);
    }
  }

  lemma {:induction false} WidenIncludesPart(m: Map, extent: Span, result: Span, i: nat, k: nat)
    requires Sorted(m.anchors) && i <= k < |m.anchors| && m.anchors[k].before.start < extent.end
    ensures var wide, part := Widen(m, extent, result, i), Part(m.anchors[k], extent);
      wide.start <= part.start && part.end <= wide.end
    decreases k - i
  {
    assert i < k ==> m.anchors[i].before.start < m.anchors[i].before.end <= m.anchors[k].before.start;
    var wider := Hull(result, Part(m.anchors[i], extent));
    if i == k {
      WidenGrows(m, extent, wider, i + 1);
    } else {
      WidenIncludesPart(m, extent, wider, i + 1, k);
    }
  }

  /** The image of an extent covers its image in every anchor that it overlaps. */
  lemma ExtentIncludesPart(m: Map, extent: Span, k: nat, point: int)
    requires WellFormed(m) && extent.start < extent.end && k < |m.anchors|
    requires m.anchors[k].before.start < extent.end && extent.start < m.anchors[k].before.end
    requires Includes(Part(m.anchors[k], extent), point)
    ensures Includes(MapExtent(m, extent), point)
  {
    WellFormedIsSorted(m);
    var first := Reaching(m.anchors, extent.start);
    assert first <= k;
    WidenIncludesPart(m, extent, Ends(m, extent), first, k);
  }

  lemma ExtentIncludesEnds(m: Map, extent: Span)
    requires extent.start < extent.end
    ensures Includes(MapExtent(m, extent), MapOffset(m, extent.start))
    ensures Includes(MapExtent(m, extent), EndPoint(m, extent.end))
  {
    WidenGrows(m, extent, Ends(m, extent), Reaching(m.anchors, extent.start));
  }

  // The span holds the images of both ends, and of every anchor that the extent overlaps.
  ghost predicate Covers(m: Map, extent: Span, span: Span) {
    && span.start <= MapOffset(m, extent.start) <= span.end && span.start <= EndPoint(m, extent.end) <= span.end
    && forall k :: 0 <= k < |m.anchors| ==> CoversPart(m, extent, span, k)
  }

  ghost predicate CoversPart(m: Map, extent: Span, span: Span, k: nat)
    requires k < |m.anchors|
  {
    m.anchors[k].before.start < extent.end && extent.start < m.anchors[k].before.end ==>
      span.start <= Part(m.anchors[k], extent).start && Part(m.anchors[k], extent).end <= span.end
  }

  lemma {:induction false} WidenIsLeast(m: Map, extent: Span, result: Span, i: nat, span: Span)
    requires WellFormed(m) && i <= |m.anchors| && Covers(m, extent, span)
    requires i < |m.anchors| ==> extent.start < m.anchors[i].before.end
    requires span.start <= result.start && result.end <= span.end
    ensures var wide := Widen(m, extent, result, i); span.start <= wide.start && wide.end <= span.end
    decreases |m.anchors| - i
  {
    if i < |m.anchors| && m.anchors[i].before.start < extent.end {
      assert CoversPart(m, extent, span, i);
      assert i + 1 < |m.anchors| ==> AnchorOk(m, m.anchors[i + 1]);
      WidenIsLeast(m, extent, Hull(result, Part(m.anchors[i], extent)), i + 1, span);
    }
  }

  /** The image of an extent is the least span that holds the images of both ends and
      of every anchor that it overlaps. */
  lemma ExtentIsLeast(m: Map, extent: Span, span: Span)
    requires WellFormed(m) && extent.start < extent.end
    ensures Covers(m, extent, MapExtent(m, extent))
    ensures Covers(m, extent, span) ==>
      span.start <= MapExtent(m, extent).start && MapExtent(m, extent).end <= span.end
  {
    WellFormedIsSorted(m);
    ExtentIncludesEnds(m, extent);
    var first := Reaching(m.anchors, extent.start);
    forall k | 0 <= k < |m.anchors| ensures CoversPart(m, extent, MapExtent(m, extent), k) {
      if m.anchors[k].before.start < extent.end && extent.start < m.anchors[k].before.end {
        WidenIncludesPart(m, extent, Ends(m, extent), first, k);
      }
    }
    if Covers(m, extent, span) {
      WidenIsLeast(m, extent, Ends(m, extent), first, span);
    }
  }

  /** The offset is not the edge of a nested map, at any depth, and not next to one. */
  ghost predicate Plain(m: Map, offset: int)
    decreases m
  {
    var o := Clamp(m, offset);
    var zone := ZoneOf(m, o);
    IsZone(m, zone) &&
    if zone.Inside? then
      var anchor := m.anchors[zone.index];
      anchor.nested.Some? ==>
        anchor.before.start < o < anchor.before.end && Plain(anchor.nested.value, o - anchor.before.start)
    else
      (zone.index > 0 ==> m.anchors[zone.index - 1].nested.None?) &&
      (zone.index < |m.anchors| ==> m.anchors[zone.index].nested.None?)
  }

  lemma PartIncludes(anchor: Anchor, extent: Span, o: int)
    requires anchor.before.start < anchor.before.end && 0 <= Length(anchor.after)
    requires anchor.before.start <= o <= anchor.before.end && extent.start <= o < extent.end
    requires extent.start < anchor.before.end
    requires anchor.nested.Some? ==>
      && anchor.before.start < o < anchor.before.end
      && Includes(MapExtent(anchor.nested.value, Local(anchor, extent)),
          MapOffset(anchor.nested.value, o - anchor.before.start))
    ensures Includes(Part(anchor, extent), AnchorPoint(anchor, o))
  {
  }

  // The anchors around a gap, where the extent reaches them, have their near edge covered.
  ghost predicate EndCovered(m: Map, extent: Span, k: nat)
    requires k <= |m.anchors|
  {
    k > 0 && extent.start < m.anchors[k - 1].before.end ==> Includes(MapExtent(m, extent), m.anchors[k - 1].after.end)
  }

  ghost predicate StartCovered(m: Map, extent: Span, k: nat)
    requires k <= |m.anchors|
  {
    k < |m.anchors| && m.anchors[k].before.start < extent.end ==>
      Includes(MapExtent(m, extent), m.anchors[k].after.start)
  }

  // A point of the gap at or before the offset whose image is covered.
  lemma GapLeft(m: Map, extent: Span, o: int, k: nat) returns (x: int)
    requires WellFormed(m) && extent.start <= o < extent.end && o == Clamp(m, o)
    requires ZoneOf(m, o) == Between(k) && k <= |m.anchors| && EndCovered(m, extent, k)
    ensures Gap(m, k).0.start <= x <= o
    ensures Includes(MapExtent(m, extent), Interpolate(m, Gap(m, k).0, Gap(m, k).1, x))
  {
    GapZone(m, o, k);
    var s := Clamp(m, extent.start);
    if k > 0 && s <= m.anchors[k - 1].before.end {
      x := m.anchors[k - 1].before.end;
      InterpolateStart(m, k, o);
      assert AnchorOk(m, m.anchors[k - 1]);
      if extent.start >= x {
        EndOfAnchor(m, x, k, o);
        ExtentIncludesEnds(m, extent);
      }
    } else {
      x := s;
      InGap(m, s, k, o);
      ExtentIncludesEnds(m, extent);
    }
  }

  lemma InterpolateAtStart(m: Map, before: Span, after: Span)
    requires before.start < before.end && 0 <= after.start <= m.afterLength
    ensures Interpolate(m, before, after, before.start) == after.start
  {
    ScaleZero(before.end - before.start, after.end - after.start);
  }

  lemma ScaleZero(width: int, height: int)
    requires width > 0
    ensures Scale(0, width, height) == 0
  {
    DivAtLeast(0, width, 0);
    DivAtMost(0, width, 0);
  }

  lemma InterpolateStart(m: Map, k: nat, o: int)
    requires WellFormed(m) && 0 < k <= |m.anchors| && o == Clamp(m, o) && ZoneOf(m, o) == Between(k)
    ensures Interpolate(m, Gap(m, k).0, Gap(m, k).1, m.anchors[k - 1].before.end) == m.anchors[k - 1].after.end
  {
    GapIsOk(m, o);
    assert AnchorOk(m, m.anchors[k - 1]);
    InterpolateAtStart(m, Gap(m, k).0, Gap(m, k).1);
  }

  lemma EndValue(m: Map, x: int, k: nat)
    requires WellFormed(m) && 0 < k <= |m.anchors| && x == m.anchors[k - 1].before.end
    requires k < |m.anchors| ==> x < m.anchors[k].before.start
    ensures MapOffset(m, x) == m.anchors[k - 1].after.end
  {
    assert AnchorOk(m, m.anchors[k - 1]);
    WellFormedIsSorted(m);
    NextIs(m.anchors, x, k);
  }

  // The end of the anchor before a nonempty gap.
  lemma EndOfAnchor(m: Map, x: int, k: nat, o: int)
    requires WellFormed(m) && 0 < k <= |m.anchors| && o == Clamp(m, o) && ZoneOf(m, o) == Between(k)
    requires x == m.anchors[k - 1].before.end
    ensures MapOffset(m, x) == m.anchors[k - 1].after.end
  {
    EndValue(m, x, k);
  }

  // Any offset strictly between the anchors around a gap is interpolated.
  lemma InGap(m: Map, x: int, k: nat, o: int)
    requires WellFormed(m) && k <= |m.anchors| && o == Clamp(m, o) && ZoneOf(m, o) == Between(k) && x == Clamp(m, x)
    requires (k > 0 ==> x > m.anchors[k - 1].before.end) && (k < |m.anchors| ==> x < m.anchors[k].before.start)
    ensures MapOffset(m, x) == Interpolate(m, Gap(m, k).0, Gap(m, k).1, x)
    ensures Gap(m, k).0.start <= x <= Gap(m, k).0.end
  {
    WellFormedIsSorted(m);
    NextIs(m.anchors, x, k);
    GapIsOk(m, x);
  }

  // A point of the gap at or after the offset whose image is covered, or the end of the gap.
  lemma GapRight(m: Map, extent: Span, o: int, k: nat) returns (y: int, point: int)
    requires WellFormed(m) && extent.start <= o < extent.end && o == Clamp(m, o)
    requires ZoneOf(m, o) == Between(k) && k <= |m.anchors| && StartCovered(m, extent, k)
    ensures o <= y <= Gap(m, k).0.end && Includes(MapExtent(m, extent), point)
    ensures point == Gap(m, k).1.end || point == Interpolate(m, Gap(m, k).0, Gap(m, k).1, y)
  {
    GapZone(m, o, k);
    if k < |m.anchors| && m.anchors[k].before.start < extent.end {
      y, point := o, m.anchors[k].after.start;
    } else {
      point := EndPoint(m, extent.end);
      ExtentIncludesEnds(m, extent);
      EndInGap(m, extent.end, k, o);
      y := Clamp(m, extent.end);
    }
  }

  lemma EndInGap(m: Map, end: int, k: nat, o: int)
    requires WellFormed(m) && k <= |m.anchors| && o == Clamp(m, o) < end && ZoneOf(m, o) == Between(k)
    requires k < |m.anchors| ==> end <= m.anchors[k].before.start
    ensures o <= Clamp(m, end) <= Gap(m, k).0.end
    ensures EndPoint(m, end) == Gap(m, k).1.end
        || EndPoint(m, end) == Interpolate(m, Gap(m, k).0, Gap(m, k).1, Clamp(m, end))
  {
    GapZone(m, o, k);
    WellFormedIsSorted(m);
    assert k > 0 ==> AnchorOk(m, m.anchors[k - 1]);
    assert k < |m.anchors| ==> AnchorOk(m, m.anchors[k]);
    NextIs(m.anchors, end, k);
    if !(k < |m.anchors| && end == m.anchors[k].before.start) {
      InGap(m, Clamp(m, end), k, o);
      SameClamp(m, end, Clamp(m, end));
    }
  }

  lemma SameClamp(m: Map, a: int, b: int)
    requires 0 <= m.beforeLength && Clamp(m, a) == Clamp(m, b)
    ensures MapOffset(m, a) == MapOffset(m, b)
  {
  }

  // Between two points of a gap, in order or not, lies the image of what is between them.
  lemma ImageBetween(m: Map, before: Span, after: Span, x: int, o: int, y: int, point: int)
    requires before.start <= x <= o <= y <= before.end
    requires 0 <= after.start <= m.afterLength && 0 <= after.end <= m.afterLength
    requires point == after.end || point == Interpolate(m, before, after, y)
    ensures var a, t := Interpolate(m, before, after, x), Interpolate(m, before, after, o);
      a <= t <= point || t == a || t == point
  {
    if after.start <= after.end {
      InterpolateMonotone(m, before, after, x, o);
      InterpolateMonotone(m, before, after, o, y);
      InterpolateInGap(m, before, after, o);
    }
  }

  lemma BetweenIsIncluded(span: Span, a: int, point: int, b: int)
    requires Includes(span, a) && Includes(span, b) && (a <= point <= b || point == a || point == b)
    ensures Includes(span, point)
  {
  }

  // Covered on both sides, an offset of a gap is covered.
  lemma GapJoin(m: Map, extent: Span, o: int, k: nat, x: int, y: int, point: int)
    requires WellFormed(m) && o == Clamp(m, o) && ZoneOf(m, o) == Between(k) && k <= |m.anchors|
    requires Gap(m, k).0.start <= x <= o <= y <= Gap(m, k).0.end
    requires point == Gap(m, k).1.end || point == Interpolate(m, Gap(m, k).0, Gap(m, k).1, y)
    requires Includes(MapExtent(m, extent), Interpolate(m, Gap(m, k).0, Gap(m, k).1, x))
    requires Includes(MapExtent(m, extent), point)
    ensures Includes(MapExtent(m, extent), Interpolate(m, Gap(m, k).0, Gap(m, k).1, o))
  {
    GapIsOk(m, o);
    var before, after := Gap(m, k).0, Gap(m, k).1;
    ImageBetween(m, before, after, x, o, y, point);
    BetweenIsIncluded(MapExtent(m, extent), Interpolate(m, before, after, x), Interpolate(m, before, after, o), point);
  }

  lemma GapContained(m: Map, extent: Span, o: int, k: nat)
    requires WellFormed(m) && extent.start <= o < extent.end && o == Clamp(m, o)
    requires ZoneOf(m, o) == Between(k) && k <= |m.anchors| && EndCovered(m, extent, k) && StartCovered(m, extent, k)
    ensures Includes(MapExtent(m, extent), MapOffset(m, o))
  {
    var x := GapLeft(m, extent, o, k);
    var y, point := GapRight(m, extent, o, k);
    GapJoin(m, extent, o, k, x, y, point);
    GapZone(m, o, k);
  }

  lemma PlainGap(m: Map, extent: Span, o: int, k: nat)
    requires WellFormed(m) && extent.start <= o < extent.end && o == Clamp(m, o)
    requires ZoneOf(m, o) == Between(k) && Plain(m, o)
    ensures k <= |m.anchors| && EndCovered(m, extent, k) && StartCovered(m, extent, k)
  {
    ZonesAscend(m, o, o);
    GapZone(m, o, k);
    if k > 0 && extent.start < m.anchors[k - 1].before.end {
      PlainEdges(m, extent, k - 1);
    }
    if k < |m.anchors| && m.anchors[k].before.start < extent.end {
      PlainEdges(m, extent, k);
    }
  }

  lemma PlainEdges(m: Map, extent: Span, k: nat)
    requires WellFormed(m) && k < |m.anchors| && m.anchors[k].nested.None? && extent.start < m.anchors[k].before.end
    ensures extent.start <= m.anchors[k].before.start < extent.end ==>
      Includes(MapExtent(m, extent), m.anchors[k].after.start)
    ensures m.anchors[k].before.end < extent.end ==> Includes(MapExtent(m, extent), m.anchors[k].after.end)
  {
    assert AnchorOk(m, m.anchors[k]);
    if extent.start <= m.anchors[k].before.start < extent.end {
      AnchorCovered(m, extent, m.anchors[k].before.start, k);
    }
    if m.anchors[k].before.end < extent.end {
      AnchorCovered(m, extent, m.anchors[k].before.end, k);
    }
  }

  lemma AnchorCovered(m: Map, extent: Span, o: int, k: nat)
    requires WellFormed(m) && k < |m.anchors| && extent.start <= o < extent.end
    requires extent.start < m.anchors[k].before.end
    requires m.anchors[k].before.start <= o <= m.anchors[k].before.end
    requires m.anchors[k].nested.Some? ==>
      var anchor := m.anchors[k];
      && anchor.before.start < o < anchor.before.end
      && Includes(MapExtent(anchor.nested.value, Local(anchor, extent)),
                  MapOffset(anchor.nested.value, o - anchor.before.start))
    ensures Includes(MapExtent(m, extent), AnchorPoint(m.anchors[k], o))
  {
    AnchorLength(m, k);
    AnchorIsNonempty(m, k);
    PartIncludes(m.anchors[k], extent, o);
    ExtentIncludesPart(m, extent, k, AnchorPoint(m.anchors[k], o));
  }

  lemma AnchorIsNonempty(m: Map, k: nat)
    requires WellFormed(m) && k < |m.anchors|
    ensures m.anchors[k].before.start < m.anchors[k].before.end
  {
    assert AnchorOk(m, m.anchors[k]);
  }

  // The image of an offset of an anchor.
  lemma ZonePoint(m: Map, o: int, k: nat)
    requires WellFormed(m) && o == Clamp(m, o) && ZoneOf(m, o) == Inside(k)
    ensures k < |m.anchors| && m.anchors[k].before.start <= o <= m.anchors[k].before.end
    ensures MapOffset(m, o) == AnchorPoint(m.anchors[k], o)
  {
    AnchorZone(m, o, k);
  }

  lemma AnchorContained(m: Map, extent: Span, o: int, k: nat)
    requires WellFormed(m) && extent.start <= o < extent.end && o == Clamp(m, o) && ZoneOf(m, o) == Inside(k)
    requires k < |m.anchors| && m.anchors[k].nested.Some? && extent.start < m.anchors[k].before.end ==>
      var anchor := m.anchors[k];
      && anchor.before.start < o < anchor.before.end
      && Includes(MapExtent(anchor.nested.value, Local(anchor, extent)),
                  MapOffset(anchor.nested.value, o - anchor.before.start))
    ensures Includes(MapExtent(m, extent), MapOffset(m, o))
  {
    ZonePoint(m, o, k);
    if extent.start < m.anchors[k].before.end {
      AnchorCovered(m, extent, o, k);
    } else {
      ExtentIncludesEnds(m, extent);
    }
  }

  /** The image of an extent contains the image of each of its offsets, also when
      anchors are reordered, except possibly at the edges of nested maps. */
  lemma {:induction false} ExtentContains(m: Map, extent: Span, offset: int)
    requires WellFormed(m) && extent.start <= offset < extent.end && Plain(m, offset)
    ensures Includes(MapExtent(m, extent), MapOffset(m, offset))
    decreases m
  {
    var o := Clamp(m, offset);
    SameClamp(m, offset, o);
    if extent.start <= o < extent.end {
      var k := ZoneOf(m, o).index;
      if ZoneOf(m, o).Between? {
        PlainGap(m, extent, o, k);
        GapContained(m, extent, o, k);
      } else {
        AnchorZone(m, o, k);
        if m.anchors[k].nested.Some? && extent.start < m.anchors[k].before.end {
          ExtentContains(m.anchors[k].nested.value, Local(m.anchors[k], extent), o - m.anchors[k].before.start);
        }
        AnchorContained(m, extent, o, k);
      }
    } else {
      SameClamp(m, offset, extent.start);
      ExtentIncludesEnds(m, extent);
    }
  }

  ghost predicate Flat(m: Map) {
    forall i :: 0 <= i < |m.anchors| ==> m.anchors[i].nested.None?
  }

  /** Without nested maps every offset of the extent is contained. */
  lemma FlatExtentContains(m: Map, extent: Span, offset: int)
    requires WellFormed(m) && Flat(m) && extent.start <= offset < extent.end
    ensures Includes(MapExtent(m, extent), MapOffset(m, offset))
  {
    ZonesAscend(m, Clamp(m, offset), Clamp(m, offset));
    ExtentContains(m, extent, offset);
  }
}
