/** Edits of an immutable baseline (editor.go, editor_projection.go): when two
    conflict, the order they render in, and the one-pass rendering. Offsets count
    the units of the baseline; nothing depends on how wide a unit is. */
module Edits {
  datatype Edit = Edit(start: nat, end: nat, replacement: string, sequence: nat, command: nat)

  predicate IsInsertion(e: Edit) {
    e.start == e.end
  }

  predicate WellPlaced(e: Edit, length: nat) {
    e.start <= e.end <= length
  }

  function Max(a: int, b: int): int {
    if a > b then a else b
  }

  function Min(a: int, b: int): int {
    if a < b then a else b
  }

  /** describeEditConflict without its message. */
  predicate Conflicts(first: Edit, second: Edit) {
    if IsInsertion(first) && IsInsertion(second) then false
    else if IsInsertion(first) then second.start < first.start < second.end
    else if IsInsertion(second) then first.start < second.start < first.end
    else Max(first.start, second.start) < Min(first.end, second.end)
  }

  lemma ConflictIsSymmetric(a: Edit, b: Edit)
    ensures Conflicts(a, b) == Conflicts(b, a)
  {
  }

  predicate Covers(e: Edit, unit: int) {
    e.start <= unit < e.end
  }

  /** Two replacements conflict exactly when they share a unit of the baseline; an
      insertion and a replacement, when the insertion comes between two of its units;
      insertions never do. */
  lemma ConflictMeans(a: Edit, b: Edit)
    requires a.start <= a.end && b.start <= b.end
    ensures a.start < a.end && b.start < b.end ==> (Conflicts(a, b) <==> exists p :: Covers(a, p) && Covers(b, p))
    ensures a.start == a.end && b.start < b.end ==>
      (Conflicts(a, b) <==> Covers(b, a.start - 1) && Covers(b, a.start))
    ensures a.start == a.end && b.start == b.end ==> !Conflicts(a, b)
  {
    if a.start < a.end && b.start < b.end && Conflicts(a, b) {
      assert Covers(a, Max(a.start, b.start)) && Covers(b, Max(a.start, b.start));
    }
  }

  /** Every reachable edit list: in bounds, numbered in recording order, pairwise
      free of conflicts. */
  ghost predicate Recorded(edits: seq<Edit>, length: nat) {
    && (forall i :: 0 <= i < |edits| ==> WellPlaced(edits[i], length) && edits[i].sequence == i + 1)
    && (forall i, j :: 0 <= i < j < |edits| ==> !Conflicts(edits[i], edits[j]))
  }

  /** What rendering needs of a set of edits; any part of a recorded list has it. */
  ghost predicate Compatible(edits: seq<Edit>, length: nat) {
    && (forall i :: 0 <= i < |edits| ==> WellPlaced(edits[i], length))
    && (forall i, j :: 0 <= i < j < |edits| ==>
          !Conflicts(edits[i], edits[j]) && edits[i].sequence != edits[j].sequence)
  }

  // ---- Rendering order -------------------------------------------------------

  /** The comparison of orderedBaselineEdits: offset, insertions first, recording order. */
  predicate Before(a: Edit, b: Edit) {
    if a.start != b.start then a.start < b.start
    else if IsInsertion(a) != IsInsertion(b) then IsInsertion(a)
    else a.sequence < b.sequence
  }

  ghost predicate Sorted(edits: seq<Edit>) {
    forall i, j :: 0 <= i < j < |edits| ==> Before(edits[i], edits[j])
  }

  function Insert(sorted: seq<Edit>, e: Edit): seq<Edit> {
    if sorted == [] || Before(e, sorted[0]) then [e] + sorted else [sorted[0]] + Insert(sorted[1..], e)
  }

  function Ordered(edits: seq<Edit>): seq<Edit> {
    if edits == [] then [] else Insert(Ordered(edits[..|edits| - 1]), edits[|edits| - 1])
  }

  lemma {:induction false} InsertKeepsEdits(sorted: seq<Edit>, e: Edit)
    ensures multiset(Insert(sorted, e)) == multiset(sorted) + multiset{e}
  {
    if sorted != [] && !Before(e, sorted[0]) {
      InsertKeepsEdits(sorted[1..], e);
      assert sorted == [sorted[0]] + sorted[1..];
    }
  }

  lemma {:induction false} OrderedKeepsEdits(edits: seq<Edit>)
    ensures multiset(Ordered(edits)) == multiset(edits) && |Ordered(edits)| == |edits|
    decreases |edits|
  {
    if edits != [] {
      var rest, last := edits[..|edits| - 1], edits[|edits| - 1];
      OrderedKeepsEdits(rest);
      InsertKeepsEdits(Ordered(rest), last);
      assert edits == rest + [last];
    }
    assert |multiset(Ordered(edits))| == |multiset(edits)|;
  }

  // Two different members are comparable.
  ghost predicate Distinct(edits: seq<Edit>) {
    forall i, j :: 0 <= i < j < |edits| ==> edits[i].sequence != edits[j].sequence
  }

  lemma {:induction false} InsertSorts(sorted: seq<Edit>, e: Edit)
    requires Sorted(sorted) && forall i :: 0 <= i < |sorted| ==> sorted[i].sequence != e.sequence
    ensures Sorted(Insert(sorted, e))
  {
    if sorted != [] && !Before(e, sorted[0]) {
      var rest := Insert(sorted[1..], e);
      InsertSorts(sorted[1..], e);
      InsertKeepsEdits(sorted[1..], e);
      forall j | 0 <= j < |rest| ensures Before(sorted[0], rest[j]) {
        assert rest[j] in multiset(rest);
        assert rest[j] in sorted[1..] || rest[j] == e;
      }
    }
  }

  lemma {:induction false} OrderedSorts(edits: seq<Edit>)
    requires Distinct(edits)
    ensures Sorted(Ordered(edits))
    decreases |edits|
  {
    if edits != [] {
      var rest, last := edits[..|edits| - 1], edits[|edits| - 1];
      OrderedSorts(rest);
      OrderedKeepsEdits(rest);
      forall i | 0 <= i < |Ordered(rest)| ensures Ordered(rest)[i].sequence != last.sequence {
        assert Ordered(rest)[i] in multiset(rest);
      }
      InsertSorts(Ordered(rest), last);
    }
  }

  lemma FirstIsLeast(a: seq<Edit>, e: Edit)
    requires Sorted(a) && e in multiset(a)
    ensures e == a[0] || Before(a[0], e)
  {
    var i :| 0 <= i < |a| && a[i] == e;
  }

  lemma LeastIsFirst(a: seq<Edit>, b: seq<Edit>)
    requires Sorted(a) && Sorted(b) && multiset(a) == multiset(b) && a != [] && b != []
    ensures a[0] == b[0]
  {
    FirstIsLeast(a, b[0]);
    FirstIsLeast(b, a[0]);
  }

  lemma TailCounts(edits: seq<Edit>)
    requires edits != []
    ensures multiset(edits[1..]) == multiset(edits) - multiset{edits[0]}
  {
    assert edits == [edits[0]] + edits[1..];
  }

  lemma SameLength(a: seq<Edit>, b: seq<Edit>)
    requires multiset(a) == multiset(b)
    ensures |a| == |b|
  {
    assert |multiset(a)| == |multiset(b)|;
  }

  lemma {:induction false} SortedIsUnique(a: seq<Edit>, b: seq<Edit>)
    requires Sorted(a) && Sorted(b) && multiset(a) == multiset(b)
    ensures a == b
  {
    SameLength(a, b);
    if a != [] {
      LeastIsFirst(a, b);
      TailCounts(a);
      TailCounts(b);
      SortedIsUnique(a[1..], b[1..]);
      assert a == [a[0]] + a[1..] && b == [b[0]] + b[1..];
    }
  }

  /** The rendering order depends on the set of edits, not on their list. */
  lemma OrderIgnoresListing(a: seq<Edit>, b: seq<Edit>)
    requires Distinct(a) && Distinct(b) && multiset(a) == multiset(b)
    ensures Ordered(a) == Ordered(b)
  {
    OrderedSorts(a);
    OrderedSorts(b);
    OrderedKeepsEdits(a);
    OrderedKeepsEdits(b);
    SortedIsUnique(Ordered(a), Ordered(b));
  }

  // ---- The one-pass rendering ---------------------------------------------------

  /** From `cursor` on, each edit ends at or before the next one starts. */
  ghost predicate Chained(edits: seq<Edit>, cursor: nat, length: nat) {
    if edits == [] then cursor <= length
    else cursor <= edits[0].start <= edits[0].end <= length && Chained(edits[1..], edits[0].end, length)
  }

  lemma NeighboursDoNotOverlap(a: Edit, b: Edit, length: nat)
    requires WellPlaced(a, length) && WellPlaced(b, length) && Before(a, b) && !Conflicts(a, b)
    ensures a.end <= b.start
  {
  }

  lemma {:induction false} SortedIsChained(edits: seq<Edit>, cursor: nat, length: nat)
    requires Sorted(edits) && Compatible(edits, length) && cursor <= length
    requires edits != [] ==> cursor <= edits[0].start
    ensures Chained(edits, cursor, length)
  {
    if edits != [] {
      if |edits| > 1 {
        NeighboursDoNotOverlap(edits[0], edits[1], length);
      }
      SortedIsChained(edits[1..], edits[0].end, length);
    }
  }

  lemma OrderedIsCompatible(edits: seq<Edit>, length: nat)
    requires Compatible(edits, length)
    ensures Compatible(Ordered(edits), length)
  {
    var sorted := Ordered(edits);
    OrderedSorts(edits);
    OrderedKeepsEdits(edits);
    forall i | 0 <= i < |sorted| ensures WellPlaced(sorted[i], length) && sorted[i] in edits {
      assert sorted[i] in multiset(edits);
    }
    forall i, j | 0 <= i < j < |sorted|
      ensures !Conflicts(sorted[i], sorted[j]) && sorted[i].sequence != sorted[j].sequence
    {
      assert Before(sorted[i], sorted[j]);
      var a :| 0 <= a < |edits| && edits[a] == sorted[i];
      var b :| 0 <= b < |edits| && edits[b] == sorted[j];
      ConflictIsSymmetric(edits[a], edits[b]);
      assert a != b;
    }
  }

  lemma OrderedIsChained(edits: seq<Edit>, length: nat)
    requires Compatible(edits, length)
    ensures Chained(Ordered(edits), 0, length)
  {
    OrderedIsCompatible(edits, length);
    OrderedSorts(edits);
    SortedIsChained(Ordered(edits), 0, length);
  }

  /** contentWithProjection from `cursor` on. */
  function RenderFrom(baseline: string, edits: seq<Edit>, cursor: nat): string
    requires Chained(edits, cursor, |baseline|)
  {
    if edits == [] then baseline[cursor..]
    else
      baseline[cursor..edits[0].start] + edits[0].replacement
      + RenderFrom(baseline, edits[1..], Max(cursor, edits[0].end))
  }

  function Render(baseline: string, edits: seq<Edit>): string
    requires Compatible(edits, |baseline|)
  {
    OrderedIsChained(edits, |baseline|);
    RenderFrom(baseline, Ordered(edits), 0)
  }

  /** Rendering depends only on the set of edits. */
  lemma RenderIgnoresListing(baseline: string, a: seq<Edit>, b: seq<Edit>)
    requires Compatible(a, |baseline|) && Compatible(b, |baseline|) && multiset(a) == multiset(b)
    ensures Render(baseline, a) == Render(baseline, b)
  {
    OrderIgnoresListing(a, b);
  }

  // ---- The reference: splices from right to left ------------------------------------

  function Splice(text: string, e: Edit): string
    requires e.start <= e.end <= |text|
  {
    text[..e.start] + e.replacement + text[e.end..]
  }

  /** Apply the last edit first. */
  function SpliceAll(text: string, edits: seq<Edit>, cursor: nat): (result: string)
    requires Chained(edits, cursor, |text|)
    ensures |result| >= cursor && result[..cursor] == text[..cursor]
  {
    if edits == [] then text
    else
      var later := SpliceAll(text, edits[1..], edits[0].end);
      assert later[..cursor] == text[..edits[0].end][..cursor];
      Splice(later, edits[0])
  }

  // Rendering one edit before `rest` equals splicing it into the text that ends with `rest`.
  lemma SpliceFirst(baseline: string, e: Edit, cursor: nat, rest: string)
    requires cursor <= e.start <= e.end <= |baseline|
    ensures Splice(baseline[..e.end] + rest, e)
            == baseline[..cursor] + (baseline[cursor..e.start] + e.replacement + rest)
  {
    var later := baseline[..e.end] + rest;
    assert later[..e.start] == baseline[..cursor] + baseline[cursor..e.start];
    assert later[e.end..] == rest;
  }

  lemma {:induction false} RenderFromIsSplices(baseline: string, edits: seq<Edit>, cursor: nat)
    requires Chained(edits, cursor, |baseline|)
    ensures baseline[..cursor] + RenderFrom(baseline, edits, cursor) == SpliceAll(baseline, edits, cursor)
  {
    if edits == [] {
      assert baseline[..cursor] + baseline[cursor..] == baseline;
    } else {
      var e := edits[0];
      RenderFromIsSplices(baseline, edits[1..], e.end);
      SpliceFirst(baseline, e, cursor, RenderFrom(baseline, edits[1..], e.end));
    }
  }

  /** One pass over the sorted edits equals applying them as splices from right to left. */
  lemma RenderIsSplices(baseline: string, edits: seq<Edit>)
    requires Compatible(edits, |baseline|)
    ensures Chained(Ordered(edits), 0, |baseline|)
    ensures Render(baseline, edits) == SpliceAll(baseline, Ordered(edits), 0)
  {
    OrderedIsChained(edits, |baseline|);
    RenderFromIsSplices(baseline, Ordered(edits), 0);
    assert baseline[..0] + Render(baseline, edits) == Render(baseline, edits);
  }

  lemma RecordedIsCompatible(edits: seq<Edit>, length: nat)
    requires Recorded(edits, length)
    ensures Compatible(edits, length)
  {
  }

  lemma RenderNothing(baseline: string)
    ensures Compatible([], |baseline|) && Render(baseline, []) == baseline
  {
    OrderedIsChained([], |baseline|);
    assert RenderFrom(baseline, [], 0) == baseline[0..];
  }
}
