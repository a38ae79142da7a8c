/** Projection of source offsets through gofmt (format_offsets.go:329-414): anchors
    pair a span before with a span after, imports may be reordered, and an anchor
    may hold a map of its own. Building the anchors is not part of this model. */
module OffsetMap {
  import opened Wrappers

  datatype Span = Span(start: int, end: int)

  datatype Anchor = Anchor(before: Span, after: Span, nested: Option<Map>)

  datatype Map = Map(beforeLength: int, afterLength: int, anchors: seq<Anchor>)

  function Min(a: int, b: int): int {
    if a < b then a else b
  }

  function Max(a: int, b: int): int {
    if a < b then b else a
  }

  function Length(span: Span): int {
    span.end - span.start
  }

  predicate AnchorOk(m: Map, anchor: Anchor) {
    && 0 <= anchor.before.start < anchor.before.end <= m.beforeLength
    && 0 <= anchor.after.start <= anchor.after.end <= m.afterLength
  }

  /** Before-spans are nonempty, sorted and disjoint; a nested map has the lengths of
      its anchor. After-spans may come in any order. */
  ghost predicate WellFormed(m: Map)
    decreases m
  {
    && 0 <= m.beforeLength && 0 <= m.afterLength
    && (forall i :: 0 <= i < |m.anchors| ==> AnchorOk(m, m.anchors[i]))
    && (forall i, j :: 0 <= i < j < |m.anchors| ==> m.anchors[i].before.end <= m.anchors[j].before.start)
    && (forall i :: 0 <= i < |m.anchors| && m.anchors[i].nested.Some? ==>
          var anchor := m.anchors[i];
          && anchor.nested.value.beforeLength == Length(anchor.before)
          && anchor.nested.value.afterLength == Length(anchor.after)
          && WellFormed(anchor.nested.value))
  }

  // ---- Searching ------------------------------------------------------------------------

  ghost predicate IsNext(anchors: seq<Anchor>, offset: int, next: nat) {
    && next <= |anchors| && (forall i :: 0 <= i < next ==> anchors[i].before.start < offset)
    && (next < |anchors| ==> anchors[next].before.start >= offset)
  }

  lemma {:induction false} NextExists(anchors: seq<Anchor>, offset: int, n: nat)
    requires n <= |anchors| && forall i :: 0 <= i < n ==> anchors[i].before.start < offset
    ensures exists next :: IsNext(anchors, offset, next)
    decreases |anchors| - n
  {
    if n < |anchors| && anchors[n].before.start < offset {
      NextExists(anchors, offset, n + 1);
    } else {
      assert IsNext(anchors, offset, n);
    }
  }

  /** The first anchor that starts at or after the offset. */
  ghost function Next(anchors: seq<Anchor>, offset: int): (next: nat)
    ensures IsNext(anchors, offset, next)
  {
    NextExists(anchors, offset, 0);
    var next :| IsNext(anchors, offset, next);
    next
  }

  ghost predicate IsReaching(anchors: seq<Anchor>, offset: int, first: nat) {
    && first <= |anchors| && (forall i :: 0 <= i < first ==> anchors[i].before.end <= offset)
    && (first < |anchors| ==> anchors[first].before.end > offset)
  }

  lemma {:induction false} ReachingExists(anchors: seq<Anchor>, offset: int, n: nat)
    requires n <= |anchors| && forall i :: 0 <= i < n ==> anchors[i].before.end <= offset
    ensures exists first :: IsReaching(anchors, offset, first)
    decreases |anchors| - n
  {
    if n < |anchors| && anchors[n].before.end <= offset {
      ReachingExists(anchors, offset, n + 1);
    } else {
      assert IsReaching(anchors, offset, n);
    }
  }

  /** The first anchor that ends after the offset. */
  ghost function Reaching(anchors: seq<Anchor>, offset: int): (first: nat)
    ensures IsReaching(anchors, offset, first)
  {
    ReachingExists(anchors, offset, 0);
    var first :| IsReaching(anchors, offset, first);
    first
  }

  // ---- Single offsets ---------------------------------------------------------------------

  // The stretch of text between two neighbouring anchors, before and after.
  function Gap(m: Map, next: nat): (Span, Span)
    requires next <= |m.anchors|
  {
    var start := if next > 0 then (m.anchors[next - 1].before.end, m.anchors[next - 1].after.end) else (0, 0);
    var end := if next < |m.anchors| then (m.anchors[next].before.start, m.anchors[next].after.start)
               else (m.beforeLength, m.afterLength);
    (Span(start.0, end.0), Span(start.1, end.1))
  }

  function Scale(offset: int, width: int, height: int): int
    requires width != 0
  {
    offset * height / width
  }

  function Interpolate(m: Map, before: Span, after: Span, offset: int): int {
    if before.end == before.start then Min(Max(after.start, 0), m.afterLength)
    else if after.start > after.end then
      if offset - before.start <= before.end - offset then Min(after.start, m.afterLength) else Max(after.end, 0)
    else after.start + Scale(offset - before.start, before.end - before.start, after.end - after.start)
  }

  function Clamp(m: Map, offset: int): int {
    Min(Max(offset, 0), m.beforeLength)
  }

  // An offset after the start of an anchor and not beyond its end.
  ghost function InAnchor(anchor: Anchor, offset: int): int
    decreases anchor
  {
    if offset == anchor.before.end then anchor.after.end
    else if anchor.nested.Some? then anchor.after.start + MapOffset(anchor.nested.value, offset - anchor.before.start)
    else anchor.after.start + Min(offset - anchor.before.start, Length(anchor.after))
  }

  /** mapTokenOffset */
  ghost function MapOffset(m: Map, offset: int): int
    decreases m
  {
    var o := Clamp(m, offset);
    var next := Next(m.anchors, o);
    if next < |m.anchors| && m.anchors[next].before.start == o then m.anchors[next].after.start
    else if next > 0 && o <= m.anchors[next - 1].before.end then
      InAnchor(m.anchors[next - 1], o)
    else
      var gap := Gap(m, next);
      Interpolate(m, gap.0, gap.1, o)
  }

  // ---- Binary search -----------------------------------------------------------------------

  ghost predicate Sorted(anchors: seq<Anchor>) {
    && (forall i :: 0 <= i < |anchors| ==> anchors[i].before.start < anchors[i].before.end)
    && (forall i, j :: 0 <= i < j < |anchors| ==> anchors[i].before.end <= anchors[j].before.start)
  }

  lemma WellFormedIsSorted(m: Map)
    requires WellFormed(m)
    ensures Sorted(m.anchors)
  {
    forall i | 0 <= i < |m.anchors| ensures m.anchors[i].before.start < m.anchors[i].before.end {
      assert AnchorOk(m, m.anchors[i]);
    }
  }

  lemma NextIs(anchors: seq<Anchor>, offset: int, next: nat)
    requires next <= |anchors| && forall k :: 0 <= k < next ==> anchors[k].before.start < offset
    requires next < |anchors| ==> anchors[next].before.start >= offset
    ensures next == Next(anchors, offset)
  {
  }

  lemma ReachingIs(anchors: seq<Anchor>, offset: int, first: nat)
    requires first <= |anchors| && forall k :: 0 <= k < first ==> anchors[k].before.end <= offset
    requires first < |anchors| ==> anchors[first].before.end > offset
    ensures first == Reaching(anchors, offset)
  {
  }

  /** sort.Search over starts. */
  method SearchStart(anchors: seq<Anchor>, offset: int) returns (next: nat)
    requires Sorted(anchors)
    ensures next == Next(anchors, offset)
  {
    next := 0;
    var end := |anchors|;
    while next < end
      invariant next <= end <= |anchors|
      invariant forall k :: 0 <= k < next ==> anchors[k].before.start < offset
      invariant forall k :: end <= k < |anchors| ==> anchors[k].before.start >= offset
    {
      var middle := (next + end) / 2;
      if anchors[middle].before.start >= offset {
        end := middle;
      } else {
        next := middle + 1;
      }
    }
    NextIs(anchors, offset, next);
  }

  /** sort.Search over ends. */
  method SearchEnd(anchors: seq<Anchor>, offset: int) returns (first: nat)
    requires Sorted(anchors)
    ensures first == Reaching(anchors, offset)
  {
    first := 0;
    var end := |anchors|;
    while first < end
      invariant first <= end <= |anchors|
      invariant forall k :: 0 <= k < first ==> anchors[k].before.end <= offset
      invariant forall k :: end <= k < |anchors| ==> anchors[k].before.end > offset
    {
      var middle := (first + end) / 2;
      if anchors[middle].before.end > offset {
        end := middle;
      } else {
        first := middle + 1;
      }
    }
    ReachingIs(anchors, offset, first);
  }

  lemma NestedIsWellFormed(m: Map, i: nat)
    requires WellFormed(m) && i < |m.anchors| && m.anchors[i].nested.Some?
    ensures WellFormed(m.anchors[i].nested.value)
  {
  }

  /** mapTokenOffset */
  method MapTokenOffset(m: Map, offset: int) returns (mapped: int)
    requires WellFormed(m)
    ensures mapped == MapOffset(m, offset)
    ensures Lands(m, Clamp(m, offset), mapped)
    decreases m
  {
    WellFormedIsSorted(m);
    MapOffsetLands(m, offset);
    var o := Clamp(m, offset);
    var next := SearchStart(m.anchors, o);
    if next < |m.anchors| && m.anchors[next].before.start == o {
      return m.anchors[next].after.start;
    }
    if next > 0 && o <= m.anchors[next - 1].before.end {
      var anchor := m.anchors[next - 1];
      if o == anchor.before.end {
        return anchor.after.end;
      }
      if anchor.nested.None? {
        return anchor.after.start + Min(o - anchor.before.start, Length(anchor.after));
      }
      NestedIsWellFormed(m, next - 1);
      mapped := MapTokenOffset(anchor.nested.value, o - anchor.before.start);
      return anchor.after.start + mapped;
    }
    var gap := Gap(m, next);
    mapped := Interpolate(m, gap.0, gap.1, o);
  }

  // Proportions stay between the ends and keep their order.
  lemma Proportion(a: int, b: int, width: int, height: int)
    requires 0 <= a <= b <= width && 0 < width && 0 <= height
    ensures 0 <= Scale(a, width, height) <= Scale(b, width, height) <= height
  {
    MulOrder(0, a, height);
    MulOrder(a, b, height);
    MulOrder(b, width, height);
    DivAtLeast(a * height, width, 0);
    DivParts(a * height, width);
    DivAtLeast(b * height, width, a * height / width);
    DivAtMost(b * height, width, height);
  }

  lemma MulOrder(a: int, b: int, c: int)
    requires a <= b && 0 <= c
    ensures a * c <= b * c
  {
  }

  lemma DivParts(a: int, c: int)
    requires 0 < c
    ensures a / c * c <= a < (a / c + 1) * c
  {
    assert a == a / c * c + a % c;
  }

  lemma DivAtLeast(a: int, c: int, q: int)
    requires 0 < c && q * c <= a
    ensures q <= a / c
  {
    DivParts(a, c);
    if q > a / c {
      MulOrder(a / c + 1, q, c);
    }
  }

  lemma DivAtMost(a: int, c: int, q: int)
    requires 0 < c && a <= q * c
    ensures a / c <= q
  {
    DivParts(a, c);
    if a / c > q {
      MulOrder(q + 1, a / c, c);
    }
  }

  lemma GapIsOk(m: Map, offset: int)
    requires WellFormed(m) && 0 <= offset <= m.beforeLength
    requires var next := Next(m.anchors, offset);
      (next < |m.anchors| ==> m.anchors[next].before.start > offset)
        && (next > 0 ==> offset > m.anchors[next - 1].before.end)
    ensures var gap := Gap(m, Next(m.anchors, offset));
      && 0 <= gap.0.start <= offset <= gap.0.end <= m.beforeLength
      && 0 <= gap.1.start <= m.afterLength && 0 <= gap.1.end <= m.afterLength
      && (gap.0.start == gap.0.end ==> m.beforeLength == 0)
  {
    var next := Next(m.anchors, offset);
    assert next > 0 ==> AnchorOk(m, m.anchors[next - 1]);
    assert next < |m.anchors| ==> AnchorOk(m, m.anchors[next]);
  }

  lemma InterpolateInRange(m: Map, before: Span, after: Span, offset: int)
    requires before.start <= offset <= before.end && 0 <= after.start <= m.afterLength
    requires 0 <= after.end <= m.afterLength
    ensures 0 <= Interpolate(m, before, after, offset) <= m.afterLength
  {
    if before.start < before.end && after.start <= after.end {
      Proportion(offset - before.start, offset - before.start, before.end - before.start, after.end - after.start);
    }
  }

  /** Every offset, inside the text or not, lands inside the output. */
  lemma {:induction false} OffsetInRange(m: Map, offset: int)
    requires WellFormed(m)
    ensures 0 <= MapOffset(m, offset) <= m.afterLength
    decreases m, 1
  {
    var o := Clamp(m, offset);
    var next := Next(m.anchors, o);
    assert next < |m.anchors| ==> AnchorOk(m, m.anchors[next]);
    if next < |m.anchors| && m.anchors[next].before.start == o {
    } else if next > 0 && o <= m.anchors[next - 1].before.end {
      InAnchorInRange(m, next - 1, o);
      assert AnchorOk(m, m.anchors[next - 1]);
    } else {
      GapIsOk(m, o);
      var gap := Gap(m, next);
      InterpolateInRange(m, gap.0, gap.1, o);
    }
  }

  lemma {:induction false} InAnchorInRange(m: Map, i: nat, offset: int)
    requires WellFormed(m) && i < |m.anchors| && m.anchors[i].before.start <= offset <= m.anchors[i].before.end
    ensures m.anchors[i].after.start <= InAnchor(m.anchors[i], offset) <= m.anchors[i].after.end
    decreases m, 0
  {
    var anchor := m.anchors[i];
    assert AnchorOk(m, anchor);
    if anchor.nested.Some? {
      OffsetInRange(anchor.nested.value, offset - anchor.before.start);
    }
  }

  // ---- Where an offset lands -------------------------------------------------------------------

  /** What the anchors and gaps say about the image `r` of an offset `o` of the text. */
  ghost predicate Lands(m: Map, o: int, r: int)
    decreases m, 1
  {
    && (forall i :: 0 <= i < |m.anchors| ==> LandsAt(m, i, o, r))
    && (forall k :: 0 <= k <= |m.anchors| ==> LandsBetween(m, k, o, r))
  }

  // The ends of an anchor go to its ends, its inside where its own map says, or else to
  // the same distance from the start, as far as there is room.
  ghost predicate LandsAt(m: Map, i: nat, o: int, r: int)
    requires i < |m.anchors|
    decreases m, 0
  {
    var anchor := m.anchors[i];
    && (o == anchor.before.start ==> r == anchor.after.start)
    && (o == anchor.before.end && (i + 1 < |m.anchors| ==> m.anchors[i + 1].before.start != o) ==>
          r == anchor.after.end)
    && (anchor.before.start < o < anchor.before.end ==>
          if anchor.nested.Some? then Lands(anchor.nested.value, o - anchor.before.start, r - anchor.after.start)
          else if o - anchor.before.start <= anchor.after.end - anchor.after.start then
            r - anchor.after.start == o - anchor.before.start
          else r == anchor.after.end)
  }

  // Between two anchors: in proportion, rounded down; on the nearer side, the first one
  // in the middle, when the anchors have changed places.
  predicate LandsBetween(m: Map, k: nat, o: int, r: int)
    requires k <= |m.anchors|
  {
    IsBetween(m, k, o) ==>
      var (from, from') := if k > 0 then (m.anchors[k - 1].before.end, m.anchors[k - 1].after.end) else (0, 0);
      var (to, to') := if k < |m.anchors| then (m.anchors[k].before.start, m.anchors[k].after.start)
                       else (m.beforeLength, m.afterLength);
      if from == to then r == from'
      else if to' < from' then r == if o - from <= to - o then from' else to'
      else (r - from') * (to - from) <= (o - from) * (to' - from') < (r - from' + 1) * (to - from)
  }

  // Behind the anchor before, ahead of the anchor after, and on neither.
  predicate IsBetween(m: Map, k: nat, o: int)
    requires k <= |m.anchors|
  {
    && (if k > 0 then m.anchors[k - 1].before.end < o else 0 <= o)
    && (if k < |m.anchors| then o < m.anchors[k].before.start else o <= m.beforeLength)
  }

  /** mapTokenOffset sends every offset of the text where its anchor or gap says, and
      an offset outside the text where the nearer end of the text goes. */
  lemma {:induction false} MapOffsetLands(m: Map, offset: int)
    requires WellFormed(m)
    ensures Lands(m, if offset < 0 then 0 else if offset > m.beforeLength then m.beforeLength else offset,
                  MapOffset(m, offset))
    decreases m, 1
  {
    var o := Clamp(m, offset);
    ClampedTwice(m, offset);
    forall i | 0 <= i < |m.anchors| ensures LandsAt(m, i, o, MapOffset(m, o)) {
      OnAnchorLands(m, i, o);
    }
    forall k | 0 <= k <= |m.anchors| ensures LandsBetween(m, k, o, MapOffset(m, o)) {
      if IsBetween(m, k, o) {
        BetweenLands(m, k, o);
      }
    }
    assert Lands(m, o, MapOffset(m, o));
  }

  lemma ClampedTwice(m: Map, offset: int)
    requires WellFormed(m)
    ensures MapOffset(m, offset) == MapOffset(m, Clamp(m, offset))
    ensures Clamp(m, offset) == if offset < 0 then 0 else if offset > m.beforeLength then m.beforeLength else offset
  {
    assert Clamp(m, Clamp(m, offset)) == Clamp(m, offset);
  }

  lemma NextIsBehind(m: Map, i: nat, o: int)
    requires WellFormed(m) && i < |m.anchors|
    ensures o == m.anchors[i].before.start ==> Next(m.anchors, o) == i
    ensures m.anchors[i].before.start < o <= m.anchors[i].before.end ==> Next(m.anchors, o) == i + 1
  {
    WellFormedIsSorted(m);
    if o == m.anchors[i].before.start {
      NextIs(m.anchors, o, i);
    } else if m.anchors[i].before.start < o <= m.anchors[i].before.end {
      NextIs(m.anchors, o, i + 1);
    }
  }

  lemma {:induction false} OnAnchorLands(m: Map, i: nat, o: int)
    requires WellFormed(m) && i < |m.anchors| && 0 <= o <= m.beforeLength
    ensures LandsAt(m, i, o, MapOffset(m, o))
    decreases m, 0
  {
    var anchor := m.anchors[i];
    NextIsBehind(m, i, o);
    if anchor.before.start < o < anchor.before.end && anchor.nested.Some? {
      MapOffsetLands(anchor.nested.value, o - anchor.before.start);
    }
  }

  lemma BetweenLands(m: Map, k: nat, o: int)
    requires WellFormed(m) && k <= |m.anchors| && IsBetween(m, k, o) && 0 <= o <= m.beforeLength
    ensures LandsBetween(m, k, o, MapOffset(m, o))
  {
    NextIs(m.anchors, o, k);
    assert k > 0 ==> AnchorOk(m, m.anchors[k - 1]);
    assert k < |m.anchors| ==> AnchorOk(m, m.anchors[k]);
    var gap := Gap(m, k);
    InterpolateLands(m, gap.0, gap.1, o);
  }

  lemma InterpolateLands(m: Map, before: Span, after: Span, o: int)
    requires before.start <= o <= before.end && 0 <= after.start <= m.afterLength && 0 <= after.end <= m.afterLength
    ensures var r := Interpolate(m, before, after, o);
      if before.start == before.end then r == after.start
      else if after.end < after.start then r == if o - before.start <= before.end - o then after.start else after.end
      else
        var width, height := before.end - before.start, after.end - after.start;
        (r - after.start) * width <= (o - before.start) * height < (r - after.start + 1) * width
  {
    if before.start < before.end && after.start <= after.end {
      DivParts((o - before.start) * (after.end - after.start), before.end - before.start);
    }
  }

  // ---- Order ------------------------------------------------------------------------------

  /** After-spans follow each other as the before-spans do, also in nested maps. */
  ghost predicate KeepsOrder(m: Map)
    decreases m
  {
    && (forall i, j :: 0 <= i < j < |m.anchors| ==> m.anchors[i].after.end <= m.anchors[j].after.start)
    && (forall i :: 0 <= i < |m.anchors| && m.anchors[i].nested.Some? ==> KeepsOrder(m.anchors[i].nested.value))
  }

  // What an offset belongs to: the gap before an anchor, or the anchor.
  datatype Zone = Between(index: nat) | Inside(index: nat)

  ghost function ZoneOf(m: Map, o: int): Zone {
    var next := Next(m.anchors, o);
    if next < |m.anchors| && m.anchors[next].before.start == o then Inside(next)
    else if next > 0 && o <= m.anchors[next - 1].before.end then Inside(next - 1)
    else Between(next)
  }

  predicate Earlier(y: Zone, z: Zone) {
    y.index < z.index || (y.index == z.index && y.Between? && z.Inside?)
  }

  predicate IsZone(m: Map, zone: Zone) {
    if zone.Inside? then zone.index < |m.anchors| else zone.index <= |m.anchors|
  }

  function ZoneSpan(m: Map, zone: Zone): Span
    requires IsZone(m, zone)
  {
    if zone.Inside? then m.anchors[zone.index].after else Gap(m, zone.index).1
  }

  lemma ZonesAscend(m: Map, a: int, b: int)
    requires WellFormed(m) && a <= b
    ensures IsZone(m, ZoneOf(m, a)) && IsZone(m, ZoneOf(m, b))
    ensures ZoneOf(m, a) == ZoneOf(m, b) || Earlier(ZoneOf(m, a), ZoneOf(m, b))
  {
    var p, q := Next(m.anchors, a), Next(m.anchors, b);
    assert p <= q;
    assert p > 0 ==> AnchorOk(m, m.anchors[p - 1]);
    assert q > 0 ==> AnchorOk(m, m.anchors[q - 1]);
  }

  lemma GapEnds(m: Map, k: nat)
    requires WellFormed(m) && KeepsOrder(m) && k <= |m.anchors|
    ensures var gap := Gap(m, k).1;
      && 0 <= gap.start <= gap.end <= m.afterLength
      && (k > 0 ==> gap.start == m.anchors[k - 1].after.end)
      && (k < |m.anchors| ==> gap.end == m.anchors[k].after.start)
  {
    assert k > 0 ==> AnchorOk(m, m.anchors[k - 1]);
    assert k < |m.anchors| ==> AnchorOk(m, m.anchors[k]);
  }

  lemma ZoneSpansAscend(m: Map, y: Zone, z: Zone)
    requires WellFormed(m) && KeepsOrder(m) && IsZone(m, y) && IsZone(m, z) && Earlier(y, z)
    ensures ZoneSpan(m, y).end <= ZoneSpan(m, z).start
  {
    assert y.index < |m.anchors| ==> AnchorOk(m, m.anchors[y.index]);
    assert z.index > 0 ==> AnchorOk(m, m.anchors[z.index - 1]);
    if y.Between? { GapEnds(m, y.index); }
    if z.Between? { GapEnds(m, z.index); }
  }

  lemma AnchorZone(m: Map, offset: int, k: nat)
    requires WellFormed(m) && ZoneOf(m, Clamp(m, offset)) == Inside(k)
    ensures var o := Clamp(m, offset);
      && k < |m.anchors| && m.anchors[k].before.start <= o <= m.anchors[k].before.end
      && MapOffset(m, offset) == if o == m.anchors[k].before.start then m.anchors[k].after.start
          else InAnchor(m.anchors[k], o)
  {
  }

  lemma GapZone(m: Map, offset: int, k: nat)
    requires WellFormed(m) && ZoneOf(m, Clamp(m, offset)) == Between(k)
    ensures var o := Clamp(m, offset);
      && k == Next(m.anchors, o) && Gap(m, k).0.start <= o <= Gap(m, k).0.end
      && MapOffset(m, offset) == Interpolate(m, Gap(m, k).0, Gap(m, k).1, o)
  {
    GapIsOk(m, Clamp(m, offset));
  }

  lemma InZone(m: Map, offset: int, zone: Zone)
    requires WellFormed(m) && KeepsOrder(m) && zone == ZoneOf(m, Clamp(m, offset)) && IsZone(m, zone)
    ensures ZoneSpan(m, zone).start <= MapOffset(m, offset) <= ZoneSpan(m, zone).end
  {
    if zone.Inside? {
      AnchorZone(m, offset, zone.index);
      InAnchorInRange(m, zone.index, Clamp(m, offset));
    } else {
      GapZone(m, offset, zone.index);
      GapEnds(m, zone.index);
      InterpolateInGap(m, Gap(m, zone.index).0, Gap(m, zone.index).1, Clamp(m, offset));
    }
  }

  lemma InterpolateInGap(m: Map, before: Span, after: Span, offset: int)
    requires before.start <= offset <= before.end && 0 <= after.start <= after.end <= m.afterLength
    ensures after.start <= Interpolate(m, before, after, offset) <= after.end
  {
    if before.start < before.end {
      Proportion(offset - before.start, offset - before.start, before.end - before.start, after.end - after.start);
    }
  }

  lemma InterpolateIs(m: Map, before: Span, after: Span, offset: int)
    requires before.start < before.end && after.start <= after.end
    ensures Interpolate(m, before, after, offset)
            == after.start + Scale(offset - before.start, before.end - before.start, after.end - after.start)
  {
  }

  lemma StretchOrder(start: int, a: int, b: int, width: int, height: int, x: int, y: int)
    requires 0 <= a <= b <= width && 0 < width && 0 <= height
    requires x == start + Scale(a, width, height) && y == start + Scale(b, width, height)
    ensures x <= y
  {
    Proportion(a, b, width, height);
  }

  lemma InterpolateMonotone(m: Map, before: Span, after: Span, a: int, b: int)
    requires before.start <= a <= b <= before.end && 0 <= after.start <= after.end <= m.afterLength
    ensures Interpolate(m, before, after, a) <= Interpolate(m, before, after, b)
  {
    if before.start < before.end {
      InterpolateIs(m, before, after, a);
      InterpolateIs(m, before, after, b);
      StretchOrder(after.start, a - before.start, b - before.start, before.end - before.start, after.end - after.start,
                   Interpolate(m, before, after, a), Interpolate(m, before, after, b));
    }
  }

  /** Where anchors keep their order, so do all offsets. */
  lemma {:induction false} OffsetsKeepOrder(m: Map, a: int, b: int)
    requires WellFormed(m) && KeepsOrder(m) && a <= b
    ensures MapOffset(m, a) <= MapOffset(m, b)
    decreases m, 3
  {
    var y, z := ZoneOf(m, Clamp(m, a)), ZoneOf(m, Clamp(m, b));
    ZonesAscend(m, Clamp(m, a), Clamp(m, b));
    InZone(m, a, y);
    InZone(m, b, z);
    if Earlier(y, z) {
      ZoneSpansAscend(m, y, z);
    } else {
      SameZone(m, a, b);
    }
  }

  lemma SameGap(m: Map, a: int, b: int, k: nat)
    requires WellFormed(m) && KeepsOrder(m) && a <= b && ZoneOf(m, Clamp(m, a)) == ZoneOf(m, Clamp(m, b)) == Between(k)
    ensures MapOffset(m, a) <= MapOffset(m, b)
  {
    GapZone(m, a, k);
    GapZone(m, b, k);
    GapEnds(m, k);
    InterpolateMonotone(m, Gap(m, k).0, Gap(m, k).1, Clamp(m, a), Clamp(m, b));
  }

  // Where an anchor puts an offset in its closed extent.
  ghost function AnchorPoint(anchor: Anchor, o: int): int {
    if o == anchor.before.start then anchor.after.start else InAnchor(anchor, o)
  }

  lemma AnchorPointsKeepOrder(anchor: Anchor, o: int, p: int)
    requires anchor.before.start <= o <= p <= anchor.before.end && 0 <= Length(anchor.after)
    requires anchor.after.start <= InAnchor(anchor, o) <= anchor.after.end
    requires anchor.after.start <= InAnchor(anchor, p) <= anchor.after.end
    requires anchor.nested.Some? ==>
      MapOffset(anchor.nested.value, o - anchor.before.start) <= MapOffset(anchor.nested.value, p - anchor.before.start)
    ensures AnchorPoint(anchor, o) <= AnchorPoint(anchor, p)
  {
  }

  lemma SameAnchor(m: Map, a: int, b: int, k: nat)
    requires WellFormed(m) && a <= b && ZoneOf(m, Clamp(m, a)) == ZoneOf(m, Clamp(m, b)) == Inside(k)
    requires k < |m.anchors|
    requires AnchorPoint(m.anchors[k], Clamp(m, a)) <= AnchorPoint(m.anchors[k], Clamp(m, b))
    ensures MapOffset(m, a) <= MapOffset(m, b)
  {
    AnchorZone(m, a, k);
    AnchorZone(m, b, k);
  }

  lemma NestedKeepsOrder(m: Map, k: nat)
    requires WellFormed(m) && KeepsOrder(m) && k < |m.anchors| && m.anchors[k].nested.Some?
    ensures WellFormed(m.anchors[k].nested.value) && KeepsOrder(m.anchors[k].nested.value)
  {
  }

  lemma {:induction false} SameZone(m: Map, a: int, b: int)
    requires WellFormed(m) && KeepsOrder(m) && a <= b && ZoneOf(m, Clamp(m, a)) == ZoneOf(m, Clamp(m, b))
    ensures MapOffset(m, a) <= MapOffset(m, b)
    decreases m, 2
  {
    var zone := ZoneOf(m, Clamp(m, a));
    if zone.Between? {
      SameGap(m, a, b, zone.index);
    } else {
      AnchorZone(m, a, zone.index);
      AnchorZone(m, b, zone.index);
      WithinAnchor(m, zone.index, Clamp(m, a), Clamp(m, b));
      SameAnchor(m, a, b, zone.index);
    }
  }

  lemma {:induction false} WithinAnchor(m: Map, k: nat, o: int, p: int)
    requires WellFormed(m) && KeepsOrder(m) && k < |m.anchors|
    requires m.anchors[k].before.start <= o <= p <= m.anchors[k].before.end
    ensures AnchorPoint(m.anchors[k], o) <= AnchorPoint(m.anchors[k], p)
    decreases m, 1
  {
    if m.anchors[k].nested.Some? {
      WithinNested(m, k, o, p);
    }
    AnchorLength(m, k);
    InAnchorInRange(m, k, o);
    InAnchorInRange(m, k, p);
    AnchorPointsKeepOrder(m.anchors[k], o, p);
  }

  lemma AnchorLength(m: Map, k: nat)
    requires WellFormed(m) && k < |m.anchors|
    ensures 0 <= Length(m.anchors[k].after)
  {
    assert AnchorOk(m, m.anchors[k]);
  }

  lemma {:induction false} WithinNested(m: Map, k: nat, o: int, p: int)
    requires WellFormed(m) && KeepsOrder(m) && k < |m.anchors| && m.anchors[k].nested.Some? && o <= p
    ensures MapOffset(m.anchors[k].nested.value, o - m.anchors[k].before.start)
            <= MapOffset(m.anchors[k].nested.value, p - m.anchors[k].before.start)
    decreases m, 0
  {
    NestedKeepsOrder(m, k);
    OffsetsKeepOrder(m.anchors[k].nested.value, o - m.anchors[k].before.start, p - m.anchors[k].before.start);
  }
}
