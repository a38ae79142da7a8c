/** Which maps project every extent whole (format_offsets.go:336-373). A map that
    keeps order always does; where imports moved, the edges of nested maps decide. */
module ExtentEdges {
  import opened Wrappers
  import opened OffsetMap
  import opened ExtentMap

  /** The image of every extent contains the image of each of its offsets. */
  ghost predicate ProjectsWhole(m: Map) {
    forall start, end, offset :: start <= offset < end ==>
      Includes(MapExtent(m, Span(start, end)), MapOffset(m, offset))
  }

  // ---- Maps that keep order ---------------------------------------------------------------

  // Up to the end of an anchor nothing lands beyond its image.
  lemma UpToAnchor(m: Map, offset: int, k: nat)
    requires WellFormed(m) && KeepsOrder(m) && k < |m.anchors| && offset < m.anchors[k].before.end
    ensures MapOffset(m, offset) <= m.anchors[k].after.end
  {
    assert AnchorOk(m, m.anchors[k]);
    var o := Clamp(m, offset);
    ZonesAscend(m, o, o);
    InZone(m, offset, ZoneOf(m, o));
    assert Inside(k) == ZoneOf(m, o) || Earlier(ZoneOf(m, o), Inside(k)) by {
      AnchorsBefore(m, o, k);
    }
    if ZoneOf(m, o) != Inside(k) {
      ZoneSpansAscend(m, ZoneOf(m, o), Inside(k));
    }
  }

  lemma AnchorsBefore(m: Map, o: int, k: nat)
    requires WellFormed(m) && k < |m.anchors| && o < m.anchors[k].before.end
    ensures Next(m.anchors, o) <= k + 1
    ensures m.anchors[k].before.start < o ==> Next(m.anchors, o) == k + 1
  {
    WellFormedIsSorted(m);
    if m.anchors[k].before.start < o {
      NextIs(m.anchors, o, k + 1);
    }
  }

  lemma OffsetBeforeEnd(m: Map, offset: int, end: int)
    requires WellFormed(m) && KeepsOrder(m) && offset < end
    ensures MapOffset(m, offset) <= EndPoint(m, end)
  {
    var next := Next(m.anchors, end);
    if next > 0 && m.anchors[next - 1].before.end == end {
      UpToAnchor(m, offset, next - 1);
    } else {
      OffsetsKeepOrder(m, offset, end);
    }
  }

  /** A map that keeps order, at any nesting depth, projects every extent whole. */
  lemma OrderProjectsWhole(m: Map)
    requires WellFormed(m) && KeepsOrder(m)
    ensures ProjectsWhole(m)
  {
    forall start, end, offset | start <= offset < end
      ensures Includes(MapExtent(m, Span(start, end)), MapOffset(m, offset))
    {
      ExtentIncludesEnds(m, Span(start, end));
      OffsetsKeepOrder(m, start, offset);
      OffsetBeforeEnd(m, offset, end);
    }
  }

  // ---- Maps of import specs ----------------------------------------------------------------

  /** Nested maps have no nested maps: an import spec is not a file with imports. */
  ghost predicate Shallow(m: Map) {
    forall i :: 0 <= i < |m.anchors| && m.anchors[i].nested.Some? ==> Flat(m.anchors[i].nested.value)
  }

  /** One of the first two offsets lands at the start of the output: no new text opens it. */
  ghost predicate StartsTogether(m: Map) {
    MapOffset(m, 0) == 0 || MapOffset(m, 1) == 0
  }

  /** The end of the input lands at the end of the output: no new text closes it. */
  ghost predicate EndsTogether(m: Map) {
    EndPoint(m, m.beforeLength) == m.afterLength
  }

  predicate Adjoins(m: Map, k: nat) {
    0 < k < |m.anchors| && m.anchors[k - 1].before.end == m.anchors[k].before.start
  }

  /** What precedes an anchor in the input ends up beyond its start. */
  ghost predicate CrossedBefore(m: Map, k: nat)
    requires k < |m.anchors|
  {
    k > 0 &&
    m.anchors[k].after.start
    < if Adjoins(m, k) then MapOffset(m, m.anchors[k - 1].before.end - 1) else m.anchors[k - 1].after.end
  }

  /** What follows an anchor in the input, after a gap, ends up before its end. */
  predicate CrossedAfter(m: Map, k: nat)
    requires k < |m.anchors|
  {
    k + 1 < |m.anchors| && !Adjoins(m, k + 1) && m.anchors[k + 1].after.start < m.anchors[k].after.end
  }

  /** The output of an anchor opens with the image of its first byte. */
  ghost predicate Opens(anchor: Anchor) {
    anchor.nested.Some? ==> StartsTogether(anchor.nested.value)
  }

  /** What crossed the start of an anchor meets new text there. */
  ghost predicate StartUnmet(m: Map, k: nat)
    requires k < |m.anchors|
  {
    CrossedBefore(m, k) && !Opens(m.anchors[k])
  }

  /** What crossed the end of an anchor meets new text there. */
  ghost predicate EndUnmet(m: Map, k: nat)
    requires k < |m.anchors|
  {
    m.anchors[k].nested.Some? && CrossedAfter(m, k) && !EndsTogether(m.anchors[k].nested.value)
  }

  ghost predicate AllEdgesMeet(m: Map) {
    forall k: nat :: k < |m.anchors| ==> !StartUnmet(m, k) && !EndUnmet(m, k)
  }

  // ---- Single anchors ----------------------------------------------------------------------

  lemma AnchorIs(m: Map, k: nat)
    requires WellFormed(m) && k < |m.anchors|
    ensures AnchorOk(m, m.anchors[k])
    ensures m.anchors[k].nested.Some? ==>
      var nested := m.anchors[k].nested.value;
      && WellFormed(nested) && nested.beforeLength == Length(m.anchors[k].before)
      && nested.afterLength == Length(m.anchors[k].after)
  {
  }

  lemma AtStart(m: Map, k: nat)
    requires WellFormed(m) && k < |m.anchors|
    ensures MapOffset(m, m.anchors[k].before.start) == m.anchors[k].after.start
  {
    WellFormedIsSorted(m);
    AnchorIs(m, k);
    NextIs(m.anchors, m.anchors[k].before.start, k);
  }

  lemma AtEnd(m: Map, k: nat)
    requires WellFormed(m) && k < |m.anchors| && !Adjoins(m, k + 1)
    ensures MapOffset(m, m.anchors[k].before.end) == m.anchors[k].after.end
    ensures ZoneOf(m, m.anchors[k].before.end) == Inside(k)
  {
    WellFormedIsSorted(m);
    AnchorIs(m, k);
    NextIs(m.anchors, m.anchors[k].before.end, k + 1);
  }

  lemma InsideOf(m: Map, k: nat, o: int)
    requires WellFormed(m) && k < |m.anchors| && m.anchors[k].before.start < o < m.anchors[k].before.end
    ensures MapOffset(m, o) == InAnchor(m.anchors[k], o)
    ensures m.anchors[k].after.start <= InAnchor(m.anchors[k], o) <= m.anchors[k].after.end
  {
    WellFormedIsSorted(m);
    AnchorIs(m, k);
    NextIs(m.anchors, o, k + 1);
    InAnchorInRange(m, k, o);
  }

  // Strictly between the anchors around gap k.
  lemma BetweenAnchors(m: Map, k: nat, o: int)
    requires WellFormed(m) && k <= |m.anchors| && o == Clamp(m, o)
    requires (k > 0 ==> m.anchors[k - 1].before.end < o) && (k < |m.anchors| ==> o < m.anchors[k].before.start)
    ensures ZoneOf(m, o) == Between(k) && MapOffset(m, o) == Interpolate(m, Gap(m, k).0, Gap(m, k).1, o)
    ensures Gap(m, k).0.start <= o <= Gap(m, k).0.end
  {
    WellFormedIsSorted(m);
    NextIs(m.anchors, o, k);
    GapIsOk(m, o);
  }

  // The same, when the neighbours of the gap keep their order.
  lemma BetweenOrdered(m: Map, k: nat, o: int)
    requires WellFormed(m) && k <= |m.anchors| && o == Clamp(m, o)
    requires (k > 0 ==> m.anchors[k - 1].before.end < o) && (k < |m.anchors| ==> o < m.anchors[k].before.start)
    requires 0 < k < |m.anchors| ==> m.anchors[k - 1].after.end <= m.anchors[k].after.start
    ensures k > 0 ==> m.anchors[k - 1].after.end <= MapOffset(m, o)
    ensures k < |m.anchors| ==> MapOffset(m, o) <= m.anchors[k].after.start
  {
    assert k > 0 ==> AnchorOk(m, m.anchors[k - 1]);
    assert k < |m.anchors| ==> AnchorOk(m, m.anchors[k]);
    BetweenAnchors(m, k, o);
    InterpolateInGap(m, Gap(m, k).0, Gap(m, k).1, o);
  }

  lemma PartWithin(m: Map, extent: Span, k: nat)
    requires WellFormed(m) && k < |m.anchors| && m.anchors[k].before.start < extent.end
    requires extent.start < m.anchors[k].before.end
    ensures Part(m.anchors[k], extent).start <= m.anchors[k].after.end
    ensures m.anchors[k].after.start <= Part(m.anchors[k], extent).end
  {
    AnchorIs(m, k);
    if m.anchors[k].nested.Some? {
      ExtentInRange(m.anchors[k].nested.value, Local(m.anchors[k], extent));
    }
    InnerInRange(m.anchors[k], extent);
  }

  // The image of an extent spans the image of each part.
  lemma SpansPart(m: Map, extent: Span, k: nat)
    requires WellFormed(m) && extent.start < extent.end && k < |m.anchors|
    requires m.anchors[k].before.start < extent.end && extent.start < m.anchors[k].before.end
    ensures MapExtent(m, extent).start <= Part(m.anchors[k], extent).start
    ensures Part(m.anchors[k], extent).end <= MapExtent(m, extent).end
    ensures MapExtent(m, extent).start <= m.anchors[k].after.end && m.anchors[k].after.start <= MapExtent(m, extent).end
  {
    WellFormedIsSorted(m);
    var first := Reaching(m.anchors, extent.start);
    assert first <= k;
    WidenIncludesPart(m, extent, Ends(m, extent), first, k);
    PartWithin(m, extent, k);
  }

  // ---- Edges of nested maps -----------------------------------------------------------------

  lemma StartReached(n: Map, end: int)
    requires WellFormed(n) && Flat(n) && StartsTogether(n) && 0 < end && (MapOffset(n, 0) != 0 ==> 1 < end)
    ensures MapExtent(n, Span(0, end)).start == 0
  {
    ExtentIncludesEnds(n, Span(0, end));
    ExtentInRange(n, Span(0, end));
    if MapOffset(n, 0) != 0 {
      FlatExtentContains(n, Span(0, end), 1);
    }
  }

  lemma EndReached(n: Map, start: int)
    requires WellFormed(n) && EndsTogether(n) && start < n.beforeLength
    ensures MapExtent(n, Span(start, n.beforeLength)).end == n.afterLength
  {
    ExtentIncludesEnds(n, Span(start, n.beforeLength));
    ExtentInRange(n, Span(start, n.beforeLength));
  }

  lemma WidenStops(m: Map, extent: Span, result: Span, i: nat)
    requires i <= |m.anchors| && (i < |m.anchors| ==> extent.end <= m.anchors[i].before.start)
    ensures Widen(m, extent, result, i) == result
  {
  }

  lemma WidenStep(m: Map, extent: Span, result: Span, i: nat)
    requires i < |m.anchors| && m.anchors[i].before.start < extent.end
    ensures Widen(m, extent, result, i) == Widen(m, extent, Hull(result, Part(m.anchors[i], extent)), i + 1)
  {
  }

  lemma ExtentFrom(m: Map, extent: Span, k: nat)
    requires WellFormed(m) && k <= |m.anchors| && extent.start < extent.end
    requires (k > 0 ==> m.anchors[k - 1].before.end <= extent.start)
    requires (k < |m.anchors| ==> extent.start < m.anchors[k].before.end)
    ensures MapExtent(m, extent) == Widen(m, extent, Ends(m, extent), k)
  {
    WellFormedIsSorted(m);
    ReachingIs(m.anchors, extent.start, k);
  }

  // An extent that overlaps one anchor only.
  lemma OnePart(m: Map, extent: Span, k: nat)
    requires WellFormed(m) && k < |m.anchors| && extent.start < extent.end
    requires m.anchors[k].before.start < extent.end && extent.start < m.anchors[k].before.end
    requires k > 0 ==> m.anchors[k - 1].before.end <= extent.start
    requires k + 1 < |m.anchors| ==> extent.end <= m.anchors[k + 1].before.start
    ensures MapExtent(m, extent) == Hull(Ends(m, extent), Part(m.anchors[k], extent))
  {
    ExtentFrom(m, extent, k);
    WidenStep(m, extent, Ends(m, extent), k);
    WidenStops(m, extent, Hull(Ends(m, extent), Part(m.anchors[k], extent)), k + 1);
  }

  // An extent that overlaps two anchors.
  lemma TwoParts(m: Map, extent: Span, k: nat)
    requires WellFormed(m) && 0 < k < |m.anchors| && extent.start < m.anchors[k - 1].before.end
    requires m.anchors[k].before.start < extent.end && (k > 1 ==> m.anchors[k - 2].before.end <= extent.start)
    requires k + 1 < |m.anchors| ==> extent.end <= m.anchors[k + 1].before.start
    ensures MapExtent(m, extent)
            == Hull(Hull(Ends(m, extent), Part(m.anchors[k - 1], extent)), Part(m.anchors[k], extent))
  {
    AnchorIs(m, k);
    AnchorIs(m, k - 1);
    var once := Hull(Ends(m, extent), Part(m.anchors[k - 1], extent));
    ExtentFrom(m, extent, k - 1);
    WidenStep(m, extent, Ends(m, extent), k - 1);
    WidenStep(m, extent, once, k);
    WidenStops(m, extent, Hull(once, Part(m.anchors[k], extent)), k + 1);
  }

  lemma PartIs(anchor: Anchor, extent: Span, local: Span, image: Span)
    requires anchor.nested.Some? && Local(anchor, extent) == local && MapExtent(anchor.nested.value, local) == image
    ensures Part(anchor, extent) == Shift(image, anchor.after.start)
  {
  }

  lemma EndsAre(m: Map, extent: Span, start: int, end: int)
    requires MapOffset(m, extent.start) == start && EndPoint(m, extent.end) == end
    ensures Ends(m, extent) == Span(Min(start, end), Max(start, end))
  {
  }

  // ---- Edges that meet are covered ------------------------------------------------------------

  // From the end of its neighbour on, nothing lands beyond the start of an anchor in order.
  lemma PointBelow(m: Map, k: nat, s: int)
    requires WellFormed(m) && k < |m.anchors| && s < m.anchors[k].before.start && !Adjoins(m, k)
    requires k > 0 ==> m.anchors[k - 1].before.end <= s && m.anchors[k - 1].after.end <= m.anchors[k].after.start
    ensures MapOffset(m, s) <= m.anchors[k].after.start
  {
    AnchorIs(m, k);
    assert k > 0 ==> AnchorOk(m, m.anchors[k - 1]);
    var o := Clamp(m, s);
    SameClamp(m, o, s);
    if k > 0 && s == m.anchors[k - 1].before.end {
      AtEnd(m, k - 1);
    } else if o == m.anchors[k].before.start {
      AtStart(m, k);
    } else {
      BetweenOrdered(m, k, o);
    }
  }

  // Before an anchor in order, an earlier extent reaches down to its start.
  lemma ReachesDown(m: Map, extent: Span, k: nat)
    requires WellFormed(m) && k < |m.anchors| && extent.start < m.anchors[k].before.start < extent.end
    requires !Adjoins(m, k) && (k > 0 ==> m.anchors[k - 1].after.end <= m.anchors[k].after.start)
    ensures MapExtent(m, extent).start <= m.anchors[k].after.start
  {
    if k > 0 && extent.start < m.anchors[k - 1].before.end {
      AnchorIs(m, k - 1);
      SpansPart(m, extent, k - 1);
    } else {
      PointBelow(m, k, extent.start);
      ExtentIncludesEnds(m, extent);
    }
  }

  // After an anchor in order, a later extent reaches up to its end.
  lemma ReachesUp(m: Map, extent: Span, k: nat)
    requires WellFormed(m) && k < |m.anchors| && extent.start < m.anchors[k].before.end < extent.end
    requires !Adjoins(m, k + 1)
    requires k + 1 < |m.anchors| ==> m.anchors[k].after.end <= m.anchors[k + 1].after.start
    ensures m.anchors[k].after.end <= MapExtent(m, extent).end
  {
    if k + 1 < |m.anchors| && m.anchors[k + 1].before.start < extent.end {
      ReachesNext(m, extent, k);
    } else {
      EndsAbove(m, k, extent.end);
      ExtentIncludesEnds(m, extent);
    }
  }

  lemma ReachesNext(m: Map, extent: Span, k: nat)
    requires WellFormed(m) && k + 1 < |m.anchors| && extent.start < m.anchors[k].before.end
    requires m.anchors[k + 1].before.start < extent.end
    ensures m.anchors[k + 1].after.start <= MapExtent(m, extent).end
  {
    AnchorIs(m, k);
    AnchorIs(m, k + 1);
    SpansPart(m, extent, k + 1);
  }

  // Up to the start of the next anchor nothing lands before the end of an anchor in order.
  lemma PointAbove(m: Map, k: nat, e: int)
    requires WellFormed(m) && k < |m.anchors| && m.anchors[k].before.end < e && !Adjoins(m, k + 1)
    requires k + 1 < |m.anchors| ==>
      e < m.anchors[k + 1].before.start && m.anchors[k].after.end <= m.anchors[k + 1].after.start
    ensures m.anchors[k].after.end <= MapOffset(m, e)
  {
    AnchorIs(m, k);
    assert k + 1 < |m.anchors| ==> AnchorOk(m, m.anchors[k + 1]);
    var o := Clamp(m, e);
    SameClamp(m, o, e);
    if o == m.anchors[k].before.end {
      AtEnd(m, k);
    } else {
      BetweenOrdered(m, k + 1, o);
    }
  }

  lemma EndsAbove(m: Map, k: nat, end: int)
    requires WellFormed(m) && k < |m.anchors| && m.anchors[k].before.end < end && !Adjoins(m, k + 1)
    requires k + 1 < |m.anchors| ==>
      end <= m.anchors[k + 1].before.start && m.anchors[k].after.end <= m.anchors[k + 1].after.start
    ensures m.anchors[k].after.end <= EndPoint(m, end)
  {
    if k + 1 < |m.anchors| && end == m.anchors[k + 1].before.start {
      EndAtStart(m, k + 1);
    } else {
      AnchorIs(m, k);
      WellFormedIsSorted(m);
      NextIs(m.anchors, end, k + 1);
      PointAbove(m, k, end);
    }
  }

  lemma StartsAnchor(m: Map, extent: Span, k: nat)
    requires WellFormed(m) && Shallow(m) && k < |m.anchors| && extent.start < m.anchors[k].before.start < extent.end
    requires Opens(m.anchors[k])
    ensures MapExtent(m, extent).start <= m.anchors[k].after.start
  {
    AnchorIs(m, k);
    if m.anchors[k].nested.Some? && SecondOnly(m.anchors[k].nested.value, extent.end - m.anchors[k].before.start) {
      SecondStarts(m, extent, k);
    } else {
      SpansPart(m, extent, k);
      PartStarts(m, extent, k);
    }
  }

  lemma SecondStarts(m: Map, extent: Span, k: nat)
    requires WellFormed(m) && k < |m.anchors| && extent.start < m.anchors[k].before.start
    requires extent.end == m.anchors[k].before.start + 1
    requires m.anchors[k].nested.Some? && MapOffset(m.anchors[k].nested.value, 0) != 0
    requires MapOffset(m.anchors[k].nested.value, 1) == 0
    ensures MapExtent(m, extent).start <= m.anchors[k].after.start
  {
    AnchorIs(m, k);
    ShortInput(m.anchors[k].nested.value);
    SecondPoint(m, k);
    ExtentIncludesEnds(m, extent);
  }

  // Only the second offset lands at the start, and the extent does not have it.
  ghost predicate SecondOnly(n: Map, length: int) {
    MapOffset(n, 0) != 0 && length <= 1
  }

  lemma PartStarts(m: Map, extent: Span, k: nat)
    requires WellFormed(m) && Shallow(m) && k < |m.anchors|
    requires extent.start < m.anchors[k].before.start < extent.end
    requires m.anchors[k].nested.Some? ==>
      && StartsTogether(m.anchors[k].nested.value)
      && !SecondOnly(m.anchors[k].nested.value, extent.end - m.anchors[k].before.start)
    ensures Part(m.anchors[k], extent).start == m.anchors[k].after.start
  {
    AnchorIs(m, k);
    if m.anchors[k].nested.Some? {
      NestedStarts(m.anchors[k], extent);
    }
  }

  lemma NestedStarts(anchor: Anchor, extent: Span)
    requires anchor.nested.Some? && WellFormed(anchor.nested.value) && Flat(anchor.nested.value)
    requires anchor.nested.value.beforeLength == Length(anchor.before) && 0 < Length(anchor.before)
    requires extent.start < anchor.before.start < extent.end && StartsTogether(anchor.nested.value)
    requires !SecondOnly(anchor.nested.value, extent.end - anchor.before.start)
    ensures Part(anchor, extent).start == anchor.after.start
  {
    var n, local := anchor.nested.value, Local(anchor, extent);
    if MapOffset(n, 0) != 0 {
      ShortInput(n);
    }
    StartReached(n, local.end);
    PartIs(anchor, extent, local, MapExtent(n, local));
  }

  // New text before a one-byte input keeps both its offsets away from the start.
  lemma ShortInput(n: Map)
    requires WellFormed(n) && 0 < n.beforeLength && MapOffset(n, 0) != 0
    ensures n.anchors != [] && n.anchors[0].before.start == 0 && n.anchors[0].after.start == MapOffset(n, 0) > 0
    ensures n.beforeLength == 1 ==> MapOffset(n, 1) > 0
  {
    OffsetInRange(n, 0);
    assert n.anchors != [] ==> AnchorOk(n, n.anchors[0]);
    if n.anchors != [] && n.anchors[0].before.start == 0 {
      AtStart(n, 0);
      if n.beforeLength == 1 {
        assert 1 < |n.anchors| ==> AnchorOk(n, n.anchors[1]);
        AtEnd(n, 0);
      }
    } else {
      BetweenAnchors(n, 0, 0);
      InterpolateAtStart(n, Gap(n, 0).0, Gap(n, 0).1);
    }
  }

  // The offset after the first byte of a nested anchor, as the end of an extent.
  lemma SecondPoint(m: Map, k: nat)
    requires WellFormed(m) && k < |m.anchors| && m.anchors[k].nested.Some?
    ensures var anchor := m.anchors[k];
      EndPoint(m, anchor.before.start + 1)
      == if Length(anchor.before) == 1 then anchor.after.end else anchor.after.start + MapOffset(anchor.nested.value, 1)
  {
    WellFormedIsSorted(m);
    AnchorIs(m, k);
    NextIs(m.anchors, m.anchors[k].before.start + 1, k + 1);
    if Length(m.anchors[k].before) > 1 {
      SecondInside(m, k);
    }
  }

  lemma SecondInside(m: Map, k: nat)
    requires WellFormed(m) && k < |m.anchors| && m.anchors[k].nested.Some? && Length(m.anchors[k].before) > 1
    ensures MapOffset(m, m.anchors[k].before.start + 1)
            == m.anchors[k].after.start + MapOffset(m.anchors[k].nested.value, 1)
  {
    InsideOf(m, k, m.anchors[k].before.start + 1);
  }

  lemma PartEndsAnchor(m: Map, extent: Span, k: nat)
    requires WellFormed(m) && k < |m.anchors| && extent.start < m.anchors[k].before.end <= extent.end
    requires m.anchors[k].nested.Some? ==> EndsTogether(m.anchors[k].nested.value)
    ensures Part(m.anchors[k], extent).end == m.anchors[k].after.end
  {
    AnchorIs(m, k);
    if m.anchors[k].nested.Some? {
      PartEndsNested(m.anchors[k], extent);
    }
  }

  lemma PartEndsNested(anchor: Anchor, extent: Span)
    requires anchor.nested.Some? && WellFormed(anchor.nested.value) && EndsTogether(anchor.nested.value)
    requires anchor.nested.value.beforeLength == Length(anchor.before)
    requires anchor.nested.value.afterLength == Length(anchor.after)
    requires anchor.before.start < anchor.before.end && extent.start < anchor.before.end <= extent.end
    ensures Part(anchor, extent).end == anchor.after.end
  {
    var local := Local(anchor, extent);
    EndReached(anchor.nested.value, local.start);
    PartIs(anchor, extent, local, MapExtent(anchor.nested.value, local));
  }

  lemma EndContained(m: Map, extent: Span, k: nat)
    requires WellFormed(m) && k < |m.anchors| && !EndUnmet(m, k) && !Adjoins(m, k + 1)
    requires extent.start <= m.anchors[k].before.end < extent.end
    ensures Includes(MapExtent(m, extent), m.anchors[k].after.end)
  {
    if extent.start == m.anchors[k].before.end {
      AtEnd(m, k);
      ExtentIncludesEnds(m, extent);
    } else {
      AnchorIs(m, k);
      SpansPart(m, extent, k);
      if m.anchors[k].nested.None? || EndsTogether(m.anchors[k].nested.value) {
        PartEndsAnchor(m, extent, k);
      } else {
        ReachesUp(m, extent, k);
      }
    }
  }

  lemma InteriorContained(m: Map, extent: Span, k: nat, o: int)
    requires WellFormed(m) && Shallow(m) && k < |m.anchors| && m.anchors[k].before.start < o < m.anchors[k].before.end
    requires extent.start <= o < extent.end
    ensures Includes(MapExtent(m, extent), MapOffset(m, o))
  {
    InteriorPoint(m, k, o);
    if m.anchors[k].nested.Some? {
      InteriorOfNested(m, extent, k, o);
    }
    AnchorCovered(m, extent, o, k);
  }

  lemma InteriorPoint(m: Map, k: nat, o: int)
    requires WellFormed(m) && k < |m.anchors| && m.anchors[k].before.start < o < m.anchors[k].before.end
    ensures MapOffset(m, o) == AnchorPoint(m.anchors[k], o)
  {
    InsideOf(m, k, o);
  }

  lemma InteriorOfNested(m: Map, extent: Span, k: nat, o: int)
    requires WellFormed(m) && Shallow(m) && k < |m.anchors| && m.anchors[k].nested.Some?
    requires m.anchors[k].before.start < o < m.anchors[k].before.end && extent.start <= o < extent.end
    ensures var anchor := m.anchors[k];
      Includes(MapExtent(anchor.nested.value, Local(anchor, extent)),
               MapOffset(anchor.nested.value, o - anchor.before.start))
  {
    AnchorIs(m, k);
    FlatExtentContains(m.anchors[k].nested.value, Local(m.anchors[k], extent), o - m.anchors[k].before.start);
  }

  lemma OwnStart(m: Map, extent: Span, k: nat)
    requires WellFormed(m) && k < |m.anchors| && extent.start == m.anchors[k].before.start < extent.end
    ensures Includes(MapExtent(m, extent), m.anchors[k].after.start)
  {
    AtStart(m, k);
    ExtentIncludesEnds(m, extent);
  }

  ghost predicate LastCovered(m: Map, extent: Span, k: nat)
    requires k < |m.anchors|
  {
    Includes(MapExtent(m, extent), MapOffset(m, m.anchors[k].before.end - 1))
  }

  lemma UncrossedPoint(m: Map, k: nat)
    requires k < |m.anchors| && !CrossedBefore(m, k) && Adjoins(m, k)
    ensures MapOffset(m, m.anchors[k - 1].before.end - 1) <= m.anchors[k].after.start
  {
  }

  // What precedes the anchor has not crossed it.
  lemma UncrossedBelow(m: Map, extent: Span, k: nat)
    requires WellFormed(m) && k < |m.anchors| && !CrossedBefore(m, k)
    requires extent.start < m.anchors[k].before.start < extent.end
    requires Adjoins(m, k) ==> LastCovered(m, extent, k - 1)
    ensures MapExtent(m, extent).start <= m.anchors[k].after.start
  {
    if Adjoins(m, k) {
      UncrossedPoint(m, k);
    } else {
      ReachesDown(m, extent, k);
    }
  }

  lemma StartBelow(m: Map, extent: Span, k: nat)
    requires WellFormed(m) && Shallow(m) && k < |m.anchors| && !StartUnmet(m, k)
    requires extent.start < m.anchors[k].before.start < extent.end
    requires Adjoins(m, k) ==> LastCovered(m, extent, k - 1)
    ensures MapExtent(m, extent).start <= m.anchors[k].after.start
  {
    if Opens(m.anchors[k]) {
      StartsAnchor(m, extent, k);
    } else {
      UncrossedBelow(m, extent, k);
    }
  }

  lemma FirstIsLast(m: Map, extent: Span, k: nat)
    requires WellFormed(m) && k < |m.anchors| && m.anchors[k].before.start == m.anchors[k].before.end - 1
    requires Includes(MapExtent(m, extent), m.anchors[k].after.start)
    ensures LastCovered(m, extent, k)
  {
    AtStart(m, k);
  }

  lemma LastOfMany(m: Map, extent: Span, k: nat)
    requires WellFormed(m) && Shallow(m) && k < |m.anchors| && extent.start < m.anchors[k].before.end <= extent.end
    requires m.anchors[k].before.start < m.anchors[k].before.end - 1
    ensures LastCovered(m, extent, k)
  {
    InteriorContained(m, extent, k, m.anchors[k].before.end - 1);
  }

  lemma LastStep(m: Map, extent: Span, k: nat)
    requires WellFormed(m) && Shallow(m) && k < |m.anchors| && extent.start < m.anchors[k].before.end <= extent.end
    requires extent.start <= m.anchors[k].before.start ==> Includes(MapExtent(m, extent), m.anchors[k].after.start)
    ensures LastCovered(m, extent, k)
  {
    AnchorIs(m, k);
    if m.anchors[k].before.start == m.anchors[k].before.end - 1 {
      FirstIsLast(m, extent, k);
    } else {
      LastOfMany(m, extent, k);
    }
  }

  // By induction over the anchors that adjoin each other.
  lemma {:induction false} StartContained(m: Map, extent: Span, k: nat)
    requires WellFormed(m) && Shallow(m) && k < |m.anchors| && AllEdgesMeet(m)
    requires extent.start <= m.anchors[k].before.start < extent.end
    ensures Includes(MapExtent(m, extent), m.anchors[k].after.start)
  {
    AnchorIs(m, k);
    if extent.start == m.anchors[k].before.start {
      OwnStart(m, extent, k);
    } else {
      if Adjoins(m, k) {
        AnchorIs(m, k - 1);
        if extent.start <= m.anchors[k - 1].before.start {
          StartContained(m, extent, k - 1);
        }
        LastStep(m, extent, k - 1);
      }
      SpansPart(m, extent, k);
      StartBelow(m, extent, k);
    }
  }

  lemma StartOfAnchor(m: Map, extent: Span, o: int, k: nat)
    requires WellFormed(m) && Shallow(m) && AllEdgesMeet(m) && k < |m.anchors|
    requires extent.start <= o < extent.end && o == m.anchors[k].before.start
    ensures Includes(MapExtent(m, extent), MapOffset(m, o))
  {
    StartContained(m, extent, k);
    AtStart(m, k);
  }

  lemma EndOfItsAnchor(m: Map, extent: Span, o: int, k: nat)
    requires WellFormed(m) && AllEdgesMeet(m) && k < |m.anchors| && !Adjoins(m, k + 1)
    requires extent.start <= o < extent.end && o == m.anchors[k].before.end
    ensures Includes(MapExtent(m, extent), MapOffset(m, o))
  {
    EndContained(m, extent, k);
    AtEnd(m, k);
  }

  // An offset at the end of its anchor is not the start of another.
  lemma EndIsNotStart(m: Map, o: int, k: nat)
    requires WellFormed(m) && o == Clamp(m, o) && ZoneOf(m, o) == Inside(k) && k < |m.anchors|
    requires o == m.anchors[k].before.end
    ensures !Adjoins(m, k + 1)
  {
    AnchorIs(m, k);
    WellFormedIsSorted(m);
    NextIs(m.anchors, o, k + 1);
  }

  lemma AnchorOffsetContained(m: Map, extent: Span, o: int, k: nat)
    requires WellFormed(m) && Shallow(m) && AllEdgesMeet(m)
    requires extent.start <= o < extent.end && o == Clamp(m, o) && ZoneOf(m, o) == Inside(k)
    ensures Includes(MapExtent(m, extent), MapOffset(m, o))
  {
    AnchorZone(m, o, k);
    if o == m.anchors[k].before.start {
      StartOfAnchor(m, extent, o, k);
    } else if o == m.anchors[k].before.end {
      EndIsNotStart(m, o, k);
      EndOfItsAnchor(m, extent, o, k);
    } else {
      InteriorContained(m, extent, k, o);
    }
  }

  lemma Contained(m: Map, extent: Span, o: int)
    requires WellFormed(m) && Shallow(m) && AllEdgesMeet(m)
    requires extent.start <= o < extent.end && o == Clamp(m, o)
    ensures Includes(MapExtent(m, extent), MapOffset(m, o))
  {
    var zone := ZoneOf(m, o);
    if zone.Between? {
      GapEdgesCovered(m, extent, o, zone.index);
      GapContained(m, extent, o, zone.index);
    } else {
      AnchorOffsetContained(m, extent, o, zone.index);
    }
  }

  lemma GapEdgesCovered(m: Map, extent: Span, o: int, k: nat)
    requires WellFormed(m) && Shallow(m) && AllEdgesMeet(m)
    requires extent.start <= o < extent.end && o == Clamp(m, o) && ZoneOf(m, o) == Between(k)
    ensures k <= |m.anchors| && EndCovered(m, extent, k) && StartCovered(m, extent, k)
  {
    ZonesAscend(m, o, o);
    GapZone(m, o, k);
    if k > 0 && extent.start < m.anchors[k - 1].before.end {
      assert !EndUnmet(m, k - 1);
      EndContained(m, extent, k - 1);
    }
    if k < |m.anchors| && m.anchors[k].before.start < extent.end {
      StartContained(m, extent, k);
    }
  }

  // ---- Edges that do not meet escape -------------------------------------------------------------

  // New text before the input keeps its first byte away from the start.
  lemma StartMissed(n: Map)
    requires WellFormed(n) && Flat(n) && 0 < n.beforeLength && !StartsTogether(n)
    ensures MapExtent(n, Span(0, 1)).start > 0 && MapOffset(n, 1) > 0
  {
    WellFormedIsSorted(n);
    ShortInput(n);
    OffsetInRange(n, 1);
    AnchorIs(n, 0);
    assert 1 < |n.anchors| ==> AnchorOk(n, n.anchors[1]);
    NextIs(n.anchors, 1, 1);
    OnePart(n, Span(0, 1), 0);
  }

  lemma LastAnchorCloses(n: Map)
    requires WellFormed(n) && 0 < n.beforeLength && !EndsTogether(n)
    ensures n.anchors != [] && n.anchors[|n.anchors| - 1].before.end == n.beforeLength
    ensures n.anchors[|n.anchors| - 1].after.end < n.afterLength
  {
    WellFormedIsSorted(n);
    if n.anchors != [] && n.anchors[|n.anchors| - 1].before.end == n.beforeLength {
      AnchorIs(n, |n.anchors| - 1);
      NextIs(n.anchors, n.beforeLength, |n.anchors|);
    } else {
      assert n.anchors != [] ==> AnchorOk(n, n.anchors[|n.anchors| - 1]);
      AtClose(n);
    }
  }

  lemma ScaleAll(width: int, height: int)
    requires width > 0
    ensures Scale(width, width, height) == height
  {
    DivAtLeast(width * height, width, height);
    DivAtMost(width * height, width, height);
  }

  lemma InterpolateAtEnd(m: Map, before: Span, after: Span)
    requires before.start < before.end && after.start <= after.end
    ensures Interpolate(m, before, after, before.end) == after.end
  {
    ScaleAll(before.end - before.start, after.end - after.start);
  }

  // The end of the input after the last anchor.
  lemma AtClose(n: Map)
    requires WellFormed(n) && 0 < n.beforeLength
    requires (n.anchors != [] ==> n.anchors[|n.anchors| - 1].before.end < n.beforeLength)
    ensures EndPoint(n, n.beforeLength) == MapOffset(n, n.beforeLength) == n.afterLength
  {
    var k := |n.anchors|;
    assert k > 0 ==> AnchorOk(n, n.anchors[k - 1]);
    BetweenAnchors(n, k, n.beforeLength);
    InterpolateAtEnd(n, Gap(n, k).0, Gap(n, k).1);
  }

  lemma LastOffset(n: Map, k: nat)
    requires WellFormed(n) && k < |n.anchors| && n.anchors[k].nested.None?
    ensures MapOffset(n, n.anchors[k].before.end - 1)
            == n.anchors[k].after.start + Min(Length(n.anchors[k].before) - 1, Length(n.anchors[k].after))
  {
    AnchorIs(n, k);
    if Length(n.anchors[k].before) == 1 {
      AtStart(n, k);
    } else {
      InsideOf(n, k, n.anchors[k].before.end - 1);
    }
  }

  lemma ClosingPoint(n: Map)
    requires WellFormed(n) && n.anchors != [] && n.anchors[|n.anchors| - 1].before.end == n.beforeLength
    ensures EndPoint(n, n.beforeLength) == n.anchors[|n.anchors| - 1].after.end
  {
    AnchorIs(n, |n.anchors| - 1);
    WellFormedIsSorted(n);
    NextIs(n.anchors, n.beforeLength, |n.anchors|);
  }

  // The last byte of a plain anchor.
  lemma PlainLastByte(anchor: Anchor, extent: Span)
    requires anchor.nested.None? && anchor.before.start <= extent.start == anchor.before.end - 1
    requires anchor.before.end <= extent.end
    ensures Part(anchor, extent)
            == Span(anchor.after.start + Min(Length(anchor.before) - 1, Length(anchor.after)), anchor.after.end)
  {
  }

  lemma HullOf(ends: Span, part: Span, low: int, high: int)
    requires ends == Span(low, high) && part == Span(low, high)
    ensures Hull(ends, part) == Span(low, high)
  {
  }

  // The last byte of a map that ends with a plain anchor.
  lemma LastByteOfAnchor(n: Map, k: nat)
    requires WellFormed(n) && |n.anchors| == k + 1 && n.anchors[k].nested.None?
    requires n.anchors[k].before.end == n.beforeLength
    ensures MapExtent(n, Span(n.beforeLength - 1, n.beforeLength))
        == Span(MapOffset(n, n.beforeLength - 1), n.anchors[k].after.end)
  {
    var last := Span(n.beforeLength - 1, n.beforeLength);
    AnchorIs(n, k);
    ClosingPoint(n);
    LastOffset(n, k);
    PlainLastByte(n.anchors[k], last);
    OnePart(n, last, k);
    HullOf(Ends(n, last), Part(n.anchors[k], last), MapOffset(n, n.beforeLength - 1), n.anchors[k].after.end);
  }

  // New text after the input keeps its last byte away from the end.
  lemma EndMissed(n: Map)
    requires WellFormed(n) && Flat(n) && 0 < n.beforeLength && !EndsTogether(n)
    ensures MapExtent(n, Span(n.beforeLength - 1, n.beforeLength)).end < n.afterLength
    ensures MapOffset(n, n.beforeLength - 1) < n.afterLength
  {
    LastAnchorCloses(n);
    LastByteOfAnchor(n, |n.anchors| - 1);
    ExtentIncludesEnds(n, Span(n.beforeLength - 1, n.beforeLength));
  }

  lemma NoPart(m: Map, extent: Span)
    requires WellFormed(m) && extent.start < extent.end
    requires (m.anchors != [] ==> m.anchors[|m.anchors| - 1].before.end <= extent.start)
    ensures MapExtent(m, extent) == Ends(m, extent)
  {
    ExtentFrom(m, extent, |m.anchors|);
    WidenStops(m, extent, Ends(m, extent), |m.anchors|);
  }

  lemma LastByteOfGap(n: Map)
    requires WellFormed(n) && 0 < n.beforeLength
    requires (n.anchors != [] ==> n.anchors[|n.anchors| - 1].before.end < n.beforeLength)
    ensures MapExtent(n, Span(n.beforeLength - 1, n.beforeLength))
        == Span(MapOffset(n, n.beforeLength - 1), n.afterLength)
  {
    AtClose(n);
    OffsetInRange(n, n.beforeLength - 1);
    NoPart(n, Span(n.beforeLength - 1, n.beforeLength));
  }

  // A flat map takes the last byte no lower than the last offset.
  lemma LastByte(n: Map)
    requires WellFormed(n) && Flat(n) && 0 < n.beforeLength
    ensures MapOffset(n, n.beforeLength - 1) == MapExtent(n, Span(n.beforeLength - 1, n.beforeLength)).start
  {
    if n.anchors != [] && n.anchors[|n.anchors| - 1].before.end == n.beforeLength {
      LastByteOfAnchor(n, |n.anchors| - 1);
    } else {
      assert n.anchors != [] ==> AnchorOk(n, n.anchors[|n.anchors| - 1]);
      LastByteOfGap(n);
    }
  }

  lemma EscapeAbove(m: Map, start: int, end: int, offset: int)
    requires start <= offset < end && MapExtent(m, Span(start, end)).end < MapOffset(m, offset)
    ensures !ProjectsWhole(m)
  {
    assert !Includes(MapExtent(m, Span(start, end)), MapOffset(m, offset));
  }

  lemma EscapeBelow(m: Map, start: int, end: int, offset: int)
    requires start <= offset < end && MapOffset(m, offset) < MapExtent(m, Span(start, end)).start
    ensures !ProjectsWhole(m)
  {
    assert !Includes(MapExtent(m, Span(start, end)), MapOffset(m, offset));
  }

  lemma HullBelow(a: Span, b: Span, point: int)
    requires a.end < point && b.end < point
    ensures Hull(a, b).end < point
  {
  }

  lemma HullAbove(a: Span, b: Span, point: int)
    requires point < a.start && point < b.start
    ensures point < Hull(a, b).start
  {
  }

  ghost predicate HoldsFlat(anchor: Anchor) {
    && anchor.nested.Some? && Flat(anchor.nested.value) && WellFormed(anchor.nested.value) && 0 < Length(anchor.before)
    && anchor.nested.value.beforeLength == Length(anchor.before)
    && anchor.nested.value.afterLength == Length(anchor.after)
  }

  lemma AnchorHoldsFlat(m: Map, k: nat)
    requires WellFormed(m) && Shallow(m) && k < |m.anchors| && m.anchors[k].nested.Some?
    ensures HoldsFlat(m.anchors[k])
  {
    AnchorIs(m, k);
  }

  lemma LastPartBelow(anchor: Anchor, extent: Span)
    requires HoldsFlat(anchor) && !EndsTogether(anchor.nested.value)
    requires extent.start == anchor.before.end - 1 && anchor.before.end <= extent.end
    ensures Part(anchor, extent).end < anchor.after.end
  {
    EndMissed(anchor.nested.value);
    assert Local(anchor, extent) == Span(Length(anchor.before) - 1, Length(anchor.before));
  }

  lemma LastOffsetBelow(m: Map, k: nat)
    requires WellFormed(m) && Shallow(m) && k < |m.anchors| && m.anchors[k].nested.Some?
    requires !EndsTogether(m.anchors[k].nested.value)
    ensures MapOffset(m, m.anchors[k].before.end - 1) < m.anchors[k].after.end
  {
    AnchorHoldsFlat(m, k);
    LastPoint(m, k);
    EndMissed(m.anchors[k].nested.value);
    OffsetInRange(m.anchors[k].nested.value, Length(m.anchors[k].before) - 1);
  }

  // After a gap, the start of an anchor as the end of an extent.
  lemma EndAtStart(m: Map, k: nat)
    requires WellFormed(m) && k < |m.anchors| && !Adjoins(m, k)
    ensures EndPoint(m, m.anchors[k].before.start) == m.anchors[k].after.start
  {
    AtStart(m, k);
    AnchorIs(m, k);
    WellFormedIsSorted(m);
    NextIs(m.anchors, m.anchors[k].before.start, k);
  }

  /** Text that follows a gap moved before an anchor whose output closes with new text:
      the extent from the anchor's last byte to that text misses the anchor's end. */
  lemma EndEscapes(m: Map, k: nat)
    requires WellFormed(m) && Shallow(m) && k < |m.anchors| && EndUnmet(m, k)
    ensures var o := m.anchors[k].before.end;
      && o - 1 <= o < m.anchors[k + 1].before.start
      && MapExtent(m, Span(o - 1, m.anchors[k + 1].before.start)).end < MapOffset(m, o)
  {
    var extent := Span(m.anchors[k].before.end - 1, m.anchors[k + 1].before.start);
    EndEscapeEnds(m, k, extent);
    EndEscapePart(m, k, extent);
    HullBelow(Ends(m, extent), Part(m.anchors[k], extent), m.anchors[k].after.end);
    AtEnd(m, k);
  }

  lemma EndEscapeEnds(m: Map, k: nat, extent: Span)
    requires WellFormed(m) && Shallow(m) && k < |m.anchors| && EndUnmet(m, k)
    requires extent == Span(m.anchors[k].before.end - 1, m.anchors[k + 1].before.start)
    ensures Ends(m, extent).end < m.anchors[k].after.end
  {
    LastOffsetBelow(m, k);
    EndAtStart(m, k + 1);
    EndsAre(m, extent, MapOffset(m, extent.start), m.anchors[k + 1].after.start);
  }

  lemma EndEscapePart(m: Map, k: nat, extent: Span)
    requires WellFormed(m) && Shallow(m) && k < |m.anchors| && EndUnmet(m, k)
    requires extent == Span(m.anchors[k].before.end - 1, m.anchors[k + 1].before.start)
    ensures m.anchors[k].before.end < extent.end && Part(m.anchors[k], extent).end < m.anchors[k].after.end
    ensures MapExtent(m, extent) == Hull(Ends(m, extent), Part(m.anchors[k], extent))
  {
    AnchorIs(m, k);
    AnchorIs(m, k + 1);
    AnchorHoldsFlat(m, k);
    LastPartBelow(m.anchors[k], extent);
    OnePart(m, extent, k);
  }

  // The last offset of an anchor with a nested map.
  lemma LastPoint(m: Map, k: nat)
    requires WellFormed(m) && k < |m.anchors| && m.anchors[k].nested.Some?
    ensures var anchor := m.anchors[k];
      MapOffset(m, anchor.before.end - 1)
      == anchor.after.start + if Length(anchor.before) == 1 then 0
          else MapOffset(anchor.nested.value, Length(anchor.before) - 1)
  {
    AnchorIs(m, k);
    if Length(m.anchors[k].before) == 1 {
      AtStart(m, k);
    } else {
      LastInside(m, k);
    }
  }

  lemma LastInside(m: Map, k: nat)
    requires WellFormed(m) && k < |m.anchors| && m.anchors[k].nested.Some? && 1 < Length(m.anchors[k].before)
    ensures MapOffset(m, m.anchors[k].before.end - 1)
            == m.anchors[k].after.start + MapOffset(m.anchors[k].nested.value, Length(m.anchors[k].before) - 1)
  {
    InsideOf(m, k, m.anchors[k].before.end - 1);
  }

  // The first byte of the anchor lands beyond its start.
  lemma FirstPartAbove(anchor: Anchor, extent: Span)
    requires HoldsFlat(anchor) && !Opens(anchor)
    requires extent.start < anchor.before.start && extent.end == anchor.before.start + 1
    ensures Part(anchor, extent).start > anchor.after.start
  {
    StartMissed(anchor.nested.value);
    assert Local(anchor, extent) == Span(0, 1);
  }

  lemma SecondPointAbove(m: Map, k: nat)
    requires WellFormed(m) && Shallow(m) && k < |m.anchors| && !Opens(m.anchors[k])
    ensures EndPoint(m, m.anchors[k].before.start + 1) > m.anchors[k].after.start
  {
    AnchorHoldsFlat(m, k);
    OffsetInRange(m.anchors[k].nested.value, 1);
    StartMissed(m.anchors[k].nested.value);
    SecondPoint(m, k);
  }

  /** After a gap that was crossed, an anchor whose output opens with new text: the
      extent from the end of its neighbour over its first byte misses its start. */
  lemma StartEscapesGap(m: Map, k: nat)
    requires WellFormed(m) && Shallow(m) && k < |m.anchors| && StartUnmet(m, k) && !Adjoins(m, k)
    ensures var o := m.anchors[k].before.start;
      MapOffset(m, o) < MapExtent(m, Span(m.anchors[k - 1].before.end, o + 1)).start
  {
    var extent := Span(m.anchors[k - 1].before.end, m.anchors[k].before.start + 1);
    AnchorIs(m, k);
    AnchorIs(m, k - 1);
    AtEnd(m, k - 1);
    AtStart(m, k);
    AnchorHoldsFlat(m, k);
    FirstPartAbove(m.anchors[k], extent);
    SecondPointAbove(m, k);
    assert k + 1 < |m.anchors| ==> AnchorOk(m, m.anchors[k + 1]);
    OnePart(m, extent, k);
    HullAbove(Ends(m, extent), Part(m.anchors[k], extent), m.anchors[k].after.start);
  }

  // The last byte of an anchor lands no lower than its last offset.
  lemma LastByteAbove(m: Map, extent: Span, k: nat)
    requires WellFormed(m) && Shallow(m) && k < |m.anchors|
    requires extent.start == m.anchors[k].before.end - 1 && m.anchors[k].before.end <= extent.end
    ensures MapOffset(m, m.anchors[k].before.end - 1) <= Part(m.anchors[k], extent).start
  {
    AnchorIs(m, k);
    if m.anchors[k].nested.Some? {
      AnchorHoldsFlat(m, k);
      NestedLastByte(m.anchors[k], extent);
      LastPoint(m, k);
      OffsetInRange(m.anchors[k].nested.value, Length(m.anchors[k].before) - 1);
    } else {
      PlainLastByte(m.anchors[k], extent);
      LastOffset(m, k);
    }
  }

  lemma NestedLastByte(anchor: Anchor, extent: Span)
    requires HoldsFlat(anchor) && extent.start == anchor.before.end - 1 && anchor.before.end <= extent.end
    ensures Part(anchor, extent).start == anchor.after.start + MapOffset(anchor.nested.value, Length(anchor.before) - 1)
  {
    LastByte(anchor.nested.value);
    assert Local(anchor, extent) == Span(Length(anchor.before) - 1, Length(anchor.before));
  }

  // Both ends of the extent over one byte on each side of a start.
  lemma NeighbourEnds(m: Map, k: nat, extent: Span)
    requires WellFormed(m) && Shallow(m) && k < |m.anchors| && StartUnmet(m, k) && Adjoins(m, k)
    requires extent == Span(m.anchors[k].before.start - 1, m.anchors[k].before.start + 1)
    ensures m.anchors[k].after.start < Ends(m, extent).start
  {
    SecondPointAbove(m, k);
  }

  lemma NeighbourPart(m: Map, k: nat, extent: Span)
    requires WellFormed(m) && Shallow(m) && k < |m.anchors| && StartUnmet(m, k) && Adjoins(m, k)
    requires extent == Span(m.anchors[k].before.start - 1, m.anchors[k].before.start + 1)
    ensures m.anchors[k].after.start < Part(m.anchors[k - 1], extent).start
  {
    AnchorIs(m, k - 1);
    LastByteAbove(m, extent, k - 1);
  }

  /** The same without a gap: the extent over one byte on each side misses the start. */
  lemma StartEscapesNeighbour(m: Map, k: nat)
    requires WellFormed(m) && Shallow(m) && k < |m.anchors| && StartUnmet(m, k) && Adjoins(m, k)
    ensures var o := m.anchors[k].before.start;
      MapOffset(m, o) < MapExtent(m, Span(o - 1, o + 1)).start
  {
    var extent, point := Span(m.anchors[k].before.start - 1, m.anchors[k].before.start + 1), m.anchors[k].after.start;
    AtStart(m, k);
    NeighbourEnds(m, k, extent);
    NeighbourPart(m, k, extent);
    AnchorHoldsFlat(m, k);
    FirstPartAbove(m.anchors[k], extent);
    HullAbove(Ends(m, extent), Part(m.anchors[k - 1], extent), point);
    HullAbove(Hull(Ends(m, extent), Part(m.anchors[k - 1], extent)), Part(m.anchors[k], extent), point);
    NeighbourSpan(m, k);
    TwoParts(m, extent, k);
  }

  lemma NeighbourSpan(m: Map, k: nat)
    requires WellFormed(m) && k < |m.anchors| && Adjoins(m, k)
    ensures m.anchors[k - 1].before.start < m.anchors[k].before.start < m.anchors[k].before.end
    ensures k > 1 ==> m.anchors[k - 2].before.end <= m.anchors[k].before.start - 1
    ensures k + 1 < |m.anchors| ==> m.anchors[k].before.start + 1 <= m.anchors[k + 1].before.start
  {
    AnchorIs(m, k);
    AnchorIs(m, k - 1);
  }

  lemma StartUnmetEscapes(m: Map, k: nat)
    requires WellFormed(m) && Shallow(m) && k < |m.anchors| && StartUnmet(m, k)
    ensures !ProjectsWhole(m)
  {
    if Adjoins(m, k) {
      NeighbourEscapes(m, k);
    } else {
      GapEscapes(m, k);
    }
  }

  lemma NeighbourEscapes(m: Map, k: nat)
    requires WellFormed(m) && Shallow(m) && k < |m.anchors| && StartUnmet(m, k) && Adjoins(m, k)
    ensures !ProjectsWhole(m)
  {
    StartEscapesNeighbour(m, k);
    EscapeBelow(m, m.anchors[k].before.start - 1, m.anchors[k].before.start + 1, m.anchors[k].before.start);
  }

  lemma GapEscapes(m: Map, k: nat)
    requires WellFormed(m) && Shallow(m) && k < |m.anchors| && StartUnmet(m, k) && !Adjoins(m, k)
    ensures !ProjectsWhole(m)
  {
    StartEscapesGap(m, k);
    GapIsAhead(m, k);
    EscapeBelow(m, m.anchors[k - 1].before.end, m.anchors[k].before.start + 1, m.anchors[k].before.start);
  }

  lemma GapIsAhead(m: Map, k: nat)
    requires WellFormed(m) && 0 < k < |m.anchors|
    ensures m.anchors[k - 1].before.end <= m.anchors[k].before.start
  {
  }

  lemma EndUnmetEscapes(m: Map, k: nat)
    requires WellFormed(m) && Shallow(m) && k < |m.anchors| && EndUnmet(m, k)
    ensures !ProjectsWhole(m)
  {
    EndEscapes(m, k);
    EscapeAbove(m, m.anchors[k].before.end - 1, m.anchors[k + 1].before.start, m.anchors[k].before.end);
  }

  /** Every extent contains all its offsets exactly when no edge of a nested map that
      was crossed holds new text. */
  lemma ProjectsWholeIff(m: Map)
    requires WellFormed(m) && Shallow(m)
    ensures ProjectsWhole(m) <==> AllEdgesMeet(m)
  {
    if AllEdgesMeet(m) {
      EdgesMeetProjectsWhole(m);
    } else {
      var k: nat :| k < |m.anchors| && (StartUnmet(m, k) || EndUnmet(m, k));
      if StartUnmet(m, k) {
        StartUnmetEscapes(m, k);
      } else {
        EndUnmetEscapes(m, k);
      }
    }
  }

  lemma EdgesMeetProjectsWhole(m: Map)
    requires WellFormed(m) && Shallow(m) && AllEdgesMeet(m)
    ensures ProjectsWhole(m)
  {
    forall start, end, offset | start <= offset < end
      ensures Includes(MapExtent(m, Span(start, end)), MapOffset(m, offset))
    {
      AnyContained(m, Span(start, end), offset);
    }
  }

  lemma AnyContained(m: Map, extent: Span, offset: int)
    requires WellFormed(m) && Shallow(m) && AllEdgesMeet(m) && extent.start <= offset < extent.end
    ensures Includes(MapExtent(m, extent), MapOffset(m, offset))
  {
    var o := Clamp(m, offset);
    SameClamp(m, offset, o);
    if extent.start <= o < extent.end {
      Contained(m, extent, o);
    } else {
      SameClamp(m, offset, extent.start);
      ExtentIncludesEnds(m, extent);
    }
  }

  // ---- Imports without indentation -----------------------------------------------------------

  function Plainly(before: Span, after: Span): Anchor {
    Anchor(before, after, None)
  }

  // `"b"` and a line feed, formatted with a tab in front.
  const ROW := Map(4, 5, [Plainly(Span(0, 3), Span(1, 4))])

  // `package p`, then `import (`, `"b"`, `"a"` and `)` on lines of their own.
  const ROWS := Map(29, 32,
    [Plainly(Span(0, 7), Span(0, 7)), Plainly(Span(8, 9), Span(8, 9)), Plainly(Span(10, 16), Span(11, 17)),
     Plainly(Span(17, 18), Span(18, 19)), Anchor(Span(19, 23), Span(25, 30), Some(ROW)),
     Anchor(Span(23, 27), Span(20, 25), Some(ROW)), Plainly(Span(27, 28), Span(30, 31))])

  // `"b"`, formatted on a line of its own.
  const SPEC := Map(3, 5, [Plainly(Span(0, 3), Span(1, 4))])

  // `package p`, then `import ("b"; "a")` on one line.
  const LINE := Map(28, 32,
    [Plainly(Span(0, 7), Span(0, 7)), Plainly(Span(8, 9), Span(8, 9)), Plainly(Span(10, 16), Span(11, 17)),
     Plainly(Span(17, 18), Span(18, 19)), Anchor(Span(18, 21), Span(25, 30), Some(SPEC)),
     Anchor(Span(23, 26), Span(20, 25), Some(SPEC)), Plainly(Span(26, 27), Span(30, 31))])

  lemma RowsAreMaps()
    ensures WellFormed(ROW) && Flat(ROW) && WellFormed(SPEC) && Flat(SPEC)
  {
  }

  lemma RowsIsMap()
    ensures WellFormed(ROWS) && Shallow(ROWS)
  {
    RowsAreMaps();
  }

  lemma LineIsMap()
    ensures WellFormed(LINE) && Shallow(LINE)
  {
    RowsAreMaps();
  }

  // One anchor of three bytes, with one byte of new text on each side.
  ghost predicate Padded(n: Map, length: int) {
    WellFormed(n) && n.beforeLength == length && n.afterLength == 5 && n.anchors == [Plainly(Span(0, 3), Span(1, 4))]
  }

  lemma RowExtent(n: Map)
    requires Padded(n, 4)
    ensures MapExtent(n, Span(0, 4)) == Span(1, 5)
  {
    AtStart(n, 0);
    AtClose(n);
    EndsAre(n, Span(0, 4), 1, 5);
    OnePart(n, Span(0, 4), 0);
  }

  // Adjoining rows that change places.
  ghost predicate SwappedRows(m: Map, n: Map) {
    && WellFormed(m) && Padded(n, 4) && |m.anchors| == 7
    && m.anchors[3].before.end <= 19 && m.anchors[4] == Anchor(Span(19, 23), Span(25, 30), Some(n))
    && m.anchors[5] == Anchor(Span(23, 27), Span(20, 25), Some(n)) && m.anchors[6].before.start == 27
  }

  lemma RowsEnds(m: Map, n: Map)
    requires SwappedRows(m, n)
    ensures Ends(m, Span(19, 27)) == Span(25, 25)
  {
    AtStart(m, 4);
    WellFormedIsSorted(m);
    NextIs(m.anchors, 27, 6);
    EndsAre(m, Span(19, 27), 25, 25);
  }

  lemma RowsExtent(m: Map, n: Map)
    requires SwappedRows(m, n)
    ensures MapExtent(m, Span(19, 27)) == Span(21, 30) && MapOffset(m, 23) == 20
  {
    RowsEnds(m, n);
    AtStart(m, 5);
    RowExtent(n);
    PartIs(m.anchors[4], Span(19, 27), Span(0, 4), Span(1, 5));
    PartIs(m.anchors[5], Span(19, 27), Span(0, 4), Span(1, 5));
    TwoParts(m, Span(19, 27), 5);
  }

  /** Two unindented import rows that change places: the extent of both starts at 21,
      but the second row starts at 20 in the output. */
  lemma ImportRowsEscape()
    ensures WellFormed(ROWS) && Shallow(ROWS)
    ensures MapExtent(ROWS, Span(19, 27)) == Span(21, 30) && MapOffset(ROWS, 23) == 20
  {
    RowsAreMaps();
    RowsIsMap();
    RowsExtent(ROWS, ROW);
  }

  // Separate specs that change places.
  ghost predicate SwappedSpecs(m: Map, n: Map) {
    && WellFormed(m) && Padded(n, 3) && |m.anchors| == 7
    && m.anchors[3].before.end <= 18 && m.anchors[4] == Anchor(Span(18, 21), Span(25, 30), Some(n))
    && m.anchors[5] == Anchor(Span(23, 26), Span(20, 25), Some(n))
  }

  lemma SpecLastByte(n: Map)
    requires Padded(n, 3)
    ensures MapExtent(n, Span(2, 3)) == Span(3, 4) && MapOffset(n, 2) == 3
  {
    LastByteOfAnchor(n, 0);
    LastOffset(n, 0);
  }

  lemma SpecsEnds(m: Map, n: Map)
    requires SwappedSpecs(m, n)
    ensures Ends(m, Span(20, 23)) == Span(20, 28) && MapOffset(m, 21) == 30
  {
    SpecLastByte(n);
    LastInside(m, 4);
    EndAtStart(m, 5);
    AtEnd(m, 4);
    EndsAre(m, Span(20, 23), 28, 20);
  }

  lemma SpecsExtent(m: Map, n: Map)
    requires SwappedSpecs(m, n)
    ensures MapExtent(m, Span(20, 23)) == Span(20, 29)
  {
    SpecsEnds(m, n);
    SpecLastByte(n);
    PartIs(m.anchors[4], Span(20, 23), Span(2, 3), Span(3, 4));
    OnePart(m, Span(20, 23), 4);
  }

  /** Two imports on one line: the extent from the last byte of the first to the second
      ends at 29, but the end of the first is at 30. */
  lemma ImportLineEscapes()
    ensures WellFormed(LINE) && Shallow(LINE)
    ensures MapExtent(LINE, Span(20, 23)) == Span(20, 29) && MapOffset(LINE, 21) == 30
  {
    RowsAreMaps();
    LineIsMap();
    SpecsEnds(LINE, SPEC);
    SpecsExtent(LINE, SPEC);
  }
}
