/** The immutable-baseline editor (editor.go): recording edits, the cached
    projection, the byte-limit test, and row references resolved against the
    baseline or, failing that, against the pending text. */
module Editor {
  import opened Wrappers
  import opened Edits
  import opened Projection
  import opened Rows

  // ---- Recording -----------------------------------------------------------------

  /** A recorded edit changes the text; the others are dropped silently. */
  predicate Matters(baseline: string, e: Edit)
    requires WellPlaced(e, |baseline|)
  {
    if IsInsertion(e) then e.replacement != "" else e.replacement != baseline[e.start..e.end]
  }

  predicate AllPlaced(edits: seq<Edit>, length: nat) {
    forall i :: 0 <= i < |edits| ==> WellPlaced(edits[i], length)
  }

  function Kept(baseline: string, candidates: seq<Edit>): seq<Edit>
    requires AllPlaced(candidates, |baseline|)
  {
    if candidates == [] then [] else
    (if Matters(baseline, candidates[0]) then [candidates[0]] else []) + Kept(baseline, candidates[1..])
  }

  function Numbered(edits: seq<Edit>, first: nat): seq<Edit> {
    if edits == [] then [] else [edits[0].(sequence := first)] + Numbered(edits[1..], first + 1)
  }

  predicate ConflictsWithAny(pending: seq<Edit>, candidate: Edit) {
    exists i :: 0 <= i < |pending| && Conflicts(pending[i], candidate)
  }

  /** recordEdits: the edit list after the batch, or None when it is rejected. */
  function Record(baseline: string, pending: seq<Edit>, candidates: seq<Edit>): Option<seq<Edit>>
    requires AllPlaced(candidates, |baseline|)
    decreases |candidates|
  {
    if candidates == [] then Some(pending)
    else if !Matters(baseline, candidates[0]) then Record(baseline, pending, candidates[1..])
    else if ConflictsWithAny(pending, candidates[0]) then None
    else Record(baseline, pending + [candidates[0].(sequence := |pending| + 1)], candidates[1..])
  }

  ghost predicate ConflictFree(edits: seq<Edit>) {
    forall i, j :: 0 <= i < j < |edits| ==> !Conflicts(edits[i], edits[j])
  }

  lemma RecordedGrows(pending: seq<Edit>, candidate: Edit, length: nat)
    requires Recorded(pending, length) && WellPlaced(candidate, length) && !ConflictsWithAny(pending, candidate)
    ensures Recorded(pending + [candidate.(sequence := |pending| + 1)], length)
  {
    forall i | 0 <= i < |pending| ensures !Conflicts(pending[i], candidate.(sequence := |pending| + 1)) {
      assert !Conflicts(pending[i], candidate);
    }
  }

  /** Recording keeps the list conflict-free and numbered, and appends exactly the
      edits of the batch that change something. */
  lemma {:induction false} RecordKeeps(baseline: string, pending: seq<Edit>, candidates: seq<Edit>)
    requires Recorded(pending, |baseline|) && AllPlaced(candidates, |baseline|)
    ensures var result := Record(baseline, pending, candidates);
      result.Some? ==>
        && Recorded(result.value, |baseline|)
        && result.value == pending + Numbered(Kept(baseline, candidates), |pending| + 1)
    decreases |candidates|
  {
    if candidates != [] {
      var c, rest := candidates[0], candidates[1..];
      if !Matters(baseline, c) {
        RecordKeeps(baseline, pending, rest);
        assert Kept(baseline, candidates) == Kept(baseline, rest);
      } else if !ConflictsWithAny(pending, c) {
        var added := c.(sequence := |pending| + 1);
        RecordedGrows(pending, c, |baseline|);
        RecordKeeps(baseline, pending + [added], rest);
        NumberedFirst(pending, c, Kept(baseline, rest));
        assert Kept(baseline, candidates) == [c] + Kept(baseline, rest);
      }
    }
  }

  lemma Associate(a: seq<Edit>, b: seq<Edit>, c: seq<Edit>)
    ensures a + b + c == a + (b + c)
  {
  }

  // Recording one edit, then the others.
  lemma NumberedFirst(pending: seq<Edit>, c: Edit, rest: seq<Edit>)
    ensures pending + [c.(sequence := |pending| + 1)] + Numbered(rest, |pending| + 2)
            == pending + Numbered([c] + rest, |pending| + 1)
  {
    var all, first := [c] + rest, |pending| + 1;
    assert all[0] == c && all[1..] == rest;
    assert Numbered(all, first) == [c.(sequence := first)] + Numbered(rest, first + 1);
    Associate(pending, [c.(sequence := first)], Numbered(rest, first + 1));
  }

  // Conflicts look only at offsets.
  lemma RenumberedConflicts(before: seq<Edit>, c: Edit, n: nat, after: seq<Edit>)
    ensures ConflictFree(before + [c] + after) == ConflictFree(before + [c.(sequence := n)] + after)
  {
    var a, b := before + [c] + after, before + [c.(sequence := n)] + after;
    assert forall i, j :: 0 <= i < j < |a| ==> Conflicts(a[i], a[j]) == Conflicts(b[i], b[j]);
  }

  /** A batch is accepted exactly when its changing edits conflict neither with the
      recorded ones nor with each other. */
  lemma {:induction false} AcceptedIff(baseline: string, pending: seq<Edit>, candidates: seq<Edit>)
    requires AllPlaced(candidates, |baseline|) && ConflictFree(pending)
    ensures Record(baseline, pending, candidates).Some? <==> ConflictFree(pending + Kept(baseline, candidates))
    decreases |candidates|
  {
    if candidates == [] {
      assert pending + [] == pending;
    } else {
      var c, rest := candidates[0], candidates[1..];
      if !Matters(baseline, c) {
        AcceptedIff(baseline, pending, rest);
        assert Kept(baseline, candidates) == Kept(baseline, rest);
      } else {
        assert pending + Kept(baseline, candidates) == pending + [c] + Kept(baseline, rest);
        if ConflictsWithAny(pending, c) {
          AnyConflict(pending, c, Kept(baseline, rest));
        } else {
          GrownIsFree(pending, c);
          AcceptedIff(baseline, pending + [c.(sequence := |pending| + 1)], rest);
          RenumberedConflicts(pending, c, |pending| + 1, Kept(baseline, rest));
        }
      }
    }
  }

  lemma AnyConflict(pending: seq<Edit>, c: Edit, rest: seq<Edit>)
    requires ConflictsWithAny(pending, c)
    ensures !ConflictFree(pending + [c] + rest)
  {
    var all := pending + [c] + rest;
    var i :| 0 <= i < |pending| && Conflicts(pending[i], c);
    assert Conflicts(all[i], all[|pending|]);
  }

  lemma GrownIsFree(pending: seq<Edit>, c: Edit)
    requires ConflictFree(pending) && !ConflictsWithAny(pending, c)
    ensures ConflictFree(pending + [c.(sequence := |pending| + 1)])
  {
    forall i | 0 <= i < |pending| ensures !Conflicts(pending[i], c.(sequence := |pending| + 1)) {
      assert !Conflicts(pending[i], c);
    }
  }

  // ---- Row references ----------------------------------------------------------------

  datatype Reference = Reference(line: int, hash: string)

  predicate HasHash(hash: string -> string, text: string, line: Line, wanted: string) {
    LineOf(text, line) && hash(LineContent(text, line)) == wanted
  }

  function WithHash(hash: string -> string, text: string, lines: seq<Line>, wanted: string): seq<Line> {
    if lines == [] then [] else
    WithHash(hash, text, lines[..|lines| - 1], wanted)
    + if HasHash(hash, text, lines[|lines| - 1], wanted) then [lines[|lines| - 1]] else []
  }

  // reasonRowMissing and reasonRowStale, with the number of rows that have the hash.
  datatype RowError = RowMissing | RowStale(matches: nat)

  // A row outside the text with an absent hash is missing; every other failure is stale.
  function RowFailure(inside: bool, matches: nat): RowError {
    if !inside && matches == 0 then RowMissing else RowStale(matches)
  }

  /** The named row when its hash still matches, otherwise the only row with that hash. */
  function ResolveBaseline(hash: string -> string, baseline: string, reference: Reference): Result<Line, RowError> {
    var lines := Lines(baseline);
    var inside := 1 <= reference.line <= |lines|;
    if inside && HasHash(hash, baseline, lines[reference.line - 1], reference.hash) then
      Ok(lines[reference.line - 1])
    else
      var matches := WithHash(hash, baseline, lines, reference.hash);
      if |matches| == 1 then Ok(matches[0]) else Err(RowFailure(inside, |matches|))
  }

  method ResolveRowInBaseline(hash: string -> string, baseline: string,
                              reference: Reference) returns (row: Result<Line, RowError>)
    ensures row == ResolveBaseline(hash, baseline, reference)
  {
    LinesPartition(baseline, 0);
    var lines := ScanLines(baseline);
    if 1 <= reference.line <= |lines| {
      var line := lines[reference.line - 1];
      if hash(LineContent(baseline, line)) == reference.hash {
        return Ok(line);
      }
    }
    var matches, last := CountHash(hash, baseline, lines, reference.hash);
    row := if matches == 1 then Ok(last.value) else Err(RowFailure(1 <= reference.line <= |lines|, matches));
  }

  // The loop over the rows with the hash.
  method CountHash(hash: string -> string, baseline: string, lines: seq<Line>, wanted: string)
      returns (matches: nat, last: Option<Line>)
    requires forall k :: 0 <= k < |lines| ==> LineOf(baseline, lines[k])
    ensures CountIs(WithHash(hash, baseline, lines, wanted), matches, last)
  {
    matches, last := 0, None;
    for k := 0 to |lines|
      invariant CountIs(WithHash(hash, baseline, lines[..k], wanted), matches, last)
    {
      WithHashNext(hash, baseline, lines, k, wanted);
      if hash(LineContent(baseline, lines[k])) == wanted {
        matches, last := matches + 1, Some(lines[k]);
      }
    }
    assert lines[..|lines|] == lines;
  }

  ghost predicate CountIs(all: seq<Line>, matches: nat, last: Option<Line>) {
    matches == |all| && last == if all == [] then None else Some(all[|all| - 1])
  }

  lemma WithHashNext(hash: string -> string, baseline: string, lines: seq<Line>, k: nat, wanted: string)
    requires k < |lines|
    ensures WithHash(hash, baseline, lines[..k + 1], wanted)
            == WithHash(hash, baseline, lines[..k], wanted)
               + if HasHash(hash, baseline, lines[k], wanted) then [lines[k]] else []
  {
    assert lines[..k + 1][..k] == lines[..k];
  }

  // The rows of `lines` with the hash are one, namely the k-th.
  ghost predicate OnlyWithHash(hash: string -> string, text: string, lines: seq<Line>, wanted: string, k: nat) {
    forall i :: 0 <= i < |lines| ==> (HasHash(hash, text, lines[i], wanted) <==> i == k)
  }

  lemma {:induction false} OnlyMatch(hash: string -> string, text: string, lines: seq<Line>, wanted: string)
    ensures forall k: nat :: k < |lines| && OnlyWithHash(hash, text, lines, wanted, k) ==>
      WithHash(hash, text, lines, wanted) == [lines[k]]
    ensures |WithHash(hash, text, lines, wanted)| == 1 ==>
      exists k: nat :: k < |lines| && OnlyWithHash(hash, text, lines, wanted, k)
  {
    if lines != [] {
      var rest, last := lines[..|lines| - 1], lines[|lines| - 1];
      OnlyMatch(hash, text, rest, wanted);
      WithHashMembers(hash, text, rest, wanted);
      assert lines == rest + [last];
      if HasHash(hash, text, last, wanted) {
        assert WithHash(hash, text, rest, wanted) == [] ==> OnlyWithHash(hash, text, lines, wanted, |rest|);
        forall k: nat | k < |lines| && OnlyWithHash(hash, text, lines, wanted, k)
          ensures k == |rest| && WithHash(hash, text, rest, wanted) == []
        {
          assert forall i :: 0 <= i < |rest| ==> rest[i] == lines[i];
        }
      } else {
        forall k: nat | k < |rest| ensures
          OnlyWithHash(hash, text, lines, wanted, k) <==> OnlyWithHash(hash, text, rest, wanted, k)
        {
          assert forall i :: 0 <= i < |rest| ==> rest[i] == lines[i];
        }
      }
    }
  }

  /** Which row of the baseline a reference names: the one with its number when that has
      its hash, and otherwise the one row with the hash. */
  lemma ResolvedRowIs(hash: string -> string, baseline: string, reference: Reference, k: nat)
    requires k < |Lines(baseline)|
    ensures var lines := Lines(baseline);
      var numbered := 1 <= reference.line <= |lines|
                      && HasHash(hash, baseline, lines[reference.line - 1], reference.hash);
      ResolveBaseline(hash, baseline, reference) == Ok(lines[k]) <==>
        if numbered then k == reference.line - 1 else OnlyWithHash(hash, baseline, lines, reference.hash, k)
  {
    var lines := Lines(baseline);
    OnlyMatch(hash, baseline, lines, reference.hash);
    if |WithHash(hash, baseline, lines, reference.hash)| == 1 {
      var only: nat :| only < |lines| && OnlyWithHash(hash, baseline, lines, reference.hash, only);
      LinesDiffer(baseline, k, only);
    }
    if 1 <= reference.line <= |lines| {
      LinesDiffer(baseline, k, reference.line - 1);
    }
  }

  lemma LinesDiffer(text: string, i: nat, j: nat)
    requires i < |Lines(text)| && j < |Lines(text)|
    ensures Lines(text)[i] == Lines(text)[j] ==> i == j
  {
    LinesPartition(text, 0);
    if i < j {
      LinesAscend(text, i, j);
    } else if j < i {
      LinesAscend(text, j, i);
    }
  }

  /** What an error says: a missing row has no row number in the text and no row with
      the hash; a stale one has another hash at its number, and not exactly one elsewhere. */
  lemma RowErrorMeans(hash: string -> string, baseline: string, reference: Reference)
    requires ResolveBaseline(hash, baseline, reference).Err?
    ensures var lines, error := Lines(baseline), ResolveBaseline(hash, baseline, reference).error;
      && (error.RowMissing? <==>
            && !(1 <= reference.line <= |lines|)
            && forall line :: line in lines ==> !HasHash(hash, baseline, line, reference.hash))
      && (error.RowStale? ==> error.matches != 1)
      && (1 <= reference.line <= |lines| ==> !HasHash(hash, baseline, lines[reference.line - 1], reference.hash))
  {
    WithHashMembers(hash, baseline, Lines(baseline), reference.hash);
  }

  lemma {:induction false} WithHashMembers(hash: string -> string, text: string, lines: seq<Line>, wanted: string)
    ensures WithHash(hash, text, lines, wanted) == [] <==>
      forall line :: line in lines ==> !HasHash(hash, text, line, wanted)
  {
    if lines != [] {
      var rest, last := lines[..|lines| - 1], lines[|lines| - 1];
      WithHashMembers(hash, text, rest, wanted);
      assert lines == rest + [last];
    }
  }

  /** A baseline line that no edit touches and whose image is exactly `row`. */
  ghost predicate LandsOn(baseline: string, edits: seq<Edit>, line: Line, row: Line) {
    && line in Lines(baseline)
    && Untouched(Ordered(edits), line.start, line.end)
    && Boundary(Ordered(edits), line.start, true) == row.start
    && Boundary(Ordered(edits), line.end, false) == row.end
  }

  /** At most one baseline line lands on a given row of the pending text. */
  lemma LandsOnce(baseline: string, edits: seq<Edit>, a: Line, b: Line, row: Line)
    requires Compatible(edits, |baseline|) && LandsOn(baseline, edits, a, row) && LandsOn(baseline, edits, b, row)
    ensures a == b
  {
    LinesPartition(baseline, 0);
    var i :| 0 <= i < |Lines(baseline)| && Lines(baseline)[i] == a;
    var j :| 0 <= j < |Lines(baseline)| && Lines(baseline)[j] == b;
    UntouchedIsVerbatim(baseline, edits, a.start, a.end);
    if i < j {
      LinesAscend(baseline, i, j);
      UntouchedLinesAreDisjoint(edits, |baseline|, a, b);
    } else if j < i {
      LinesAscend(baseline, j, i);
      UntouchedLinesAreDisjoint(edits, |baseline|, b, a);
    }
  }

  /** A baseline line that lands on a pending row has that row's content. */
  lemma LandsVerbatim(baseline: string, edits: seq<Edit>, line: Line, row: Line)
    requires Compatible(edits, |baseline|) && LandsOn(baseline, edits, line, row)
    requires row in Lines(Render(baseline, edits))
    ensures LineOf(baseline, line) && LineOf(Render(baseline, edits), row)
    ensures LineContent(baseline, line) == LineContent(Render(baseline, edits), row)
  {
    LinesPartition(baseline, 0);
    LinesPartition(Render(baseline, edits), 0);
    UntouchedIsVerbatim(baseline, edits, line.start, line.end);
    SameExtentSameContent(baseline, line, Render(baseline, edits), row);
  }

  // The pending row that a reference names, if its hash matches.
  function PendingRow(hash: string -> string, pending: string, reference: Reference): Option<Line> {
    var lines := Lines(pending);
    if 1 <= reference.line <= |lines| && HasHash(hash, pending, lines[reference.line - 1], reference.hash) then
      Some(lines[reference.line - 1])
    else None
  }

  /** What resolveRow answers: the baseline resolution, or else the one untouched
      baseline line whose image is the pending row that the reference names. */
  ghost predicate Resolves(hash: string -> string, baseline: string, edits: seq<Edit>, reference: Reference,
                           result: Result<Line, RowError>)
    requires Compatible(edits, |baseline|)
  {
    var direct := ResolveBaseline(hash, baseline, reference);
    var row := PendingRow(hash, Render(baseline, edits), reference);
    if direct.Ok? || edits == [] || row.None? then result == direct
    else
      && (forall line :: result == Ok(line) <==> LandsOn(baseline, edits, line, row.value))
      && (result.Err? ==> result == direct)
  }

  // A row of the pending text with the hash of the reference.
  ghost predicate IsPending(hash: string -> string, pending: string, reference: Reference, row: Line) {
    row in Lines(pending) && HasHash(hash, pending, row, reference.hash)
  }

  // Two baseline lines do not land on the same row.
  lemma LandsNowhereElse(baseline: string, edits: seq<Edit>, at: nat, k: nat, row: Line)
    requires Compatible(edits, |baseline|) && at < k < |Lines(baseline)|
    requires LandsOn(baseline, edits, Lines(baseline)[at], row)
    ensures !LandsOn(baseline, edits, Lines(baseline)[k], row)
  {
    LinesPartition(baseline, 0);
    LinesAscend(baseline, at, k);
    if LandsOn(baseline, edits, Lines(baseline)[k], row) {
      LandsOnce(baseline, edits, Lines(baseline)[at], Lines(baseline)[k], row);
    }
  }

  lemma LandsAlone(baseline: string, edits: seq<Edit>, line: Line, row: Line)
    requires Compatible(edits, |baseline|) && LandsOn(baseline, edits, line, row)
    ensures forall other :: line == other <==> LandsOn(baseline, edits, other, row)
  {
    forall other ensures line == other <==> LandsOn(baseline, edits, other, row) {
      if LandsOn(baseline, edits, other, row) {
        LandsOnce(baseline, edits, line, other, row);
      }
    }
  }

  lemma LandingResolves(hash: string -> string, baseline: string, edits: seq<Edit>, reference: Reference, row: Line,
                        landing: Option<Line>)
    requires Compatible(edits, |baseline|) && edits != [] && ResolveBaseline(hash, baseline, reference).Err?
    requires PendingRow(hash, Render(baseline, edits), reference) == Some(row)
    requires forall line :: landing == Some(line) <==> LandsOn(baseline, edits, line, row)
    ensures Resolves(hash, baseline, edits, reference,
                     if landing.Some? then Ok(landing.value) else ResolveBaseline(hash, baseline, reference))
  {
  }

  lemma RenderStep(baseline: string, sorted: seq<Edit>, k: nat, cursor: nat, text: string)
    requires k < |sorted| && Chained(sorted[k..], cursor, |baseline|)
    ensures cursor <= sorted[k].start <= |baseline| && Max(cursor, sorted[k].end) >= 0
    ensures Chained(sorted[k + 1..], Max(cursor, sorted[k].end), |baseline|)
    ensures text + RenderFrom(baseline, sorted[k..], cursor)
            == text + baseline[cursor..sorted[k].start] + sorted[k].replacement
               + RenderFrom(baseline, sorted[k + 1..], Max(cursor, sorted[k].end))
  {
    assert sorted[k..][0] == sorted[k] && sorted[k..][1..] == sorted[k + 1..];
  }

  lemma SingleInsertion(value: string, e: Edit)
    requires e.start == e.end == 0 && e.replacement == value && e.sequence == 1
    ensures Recorded([e], 0) && Render("", [e]) == value
  {
    assert [e][..0] == [] && [e][1..] == [];
    assert Ordered([e]) == Insert(Ordered([]), e) == [e];
    OrderedIsChained([e], 0);
    assert RenderFrom("", [], 0) == "";
    assert RenderFrom("", [e], 0) == ""[0..0] + value + "" == value;
  }

  lemma RewrittenIsRecorded(edits: seq<Edit>, index: nat, replacement: string, length: nat)
    requires Recorded(edits, length) && index < |edits|
    ensures Recorded(edits[index := edits[index].(replacement := replacement)], length)
  {
    var rewritten := edits[index := edits[index].(replacement := replacement)];
    forall i, j | 0 <= i < j < |edits| ensures !Conflicts(rewritten[i], rewritten[j]) {
      assert !Conflicts(edits[i], edits[j]);
    }
  }

  function Removed(edits: seq<Edit>): int {
    if edits == [] then 0 else Removed(edits[..|edits| - 1]) + edits[|edits| - 1].end - edits[|edits| - 1].start
  }

  function Added(edits: seq<Edit>): nat {
    if edits == [] then 0 else Added(edits[..|edits| - 1]) + |edits[|edits| - 1].replacement|
  }

  lemma {:induction false} GrowthSplits(edits: seq<Edit>)
    ensures TotalGrowth(edits) == Added(edits) - Removed(edits)
  {
    if edits != [] {
      GrowthSplits(edits[..|edits| - 1]);
    }
  }

  lemma {:induction false} AddedAscends(edits: seq<Edit>, k: nat)
    requires k <= |edits|
    ensures Added(edits[..k]) <= Added(edits)
    decreases |edits|
  {
    if k == |edits| {
      assert edits[..k] == edits;
    } else {
      AddedAscends(edits[..|edits| - 1], k);
      assert edits[..|edits| - 1][..k] == edits[..k];
    }
  }

  // ---- The editor ----------------------------------------------------------------------

  class BaselineEditor {
    const hash: string -> string
    var baseline: string
    var edits: seq<Edit>
    var projected: Option<seq<RenderedEdit>>

    ghost predicate Valid()
      reads this
    {
      && Recorded(edits, |baseline|)
      && (projected.Some? ==> projected.value == Project(edits, |baseline|))
    }

    constructor (hash: string -> string, baseline: string)
      ensures Valid() && this.hash == hash && this.baseline == baseline && edits == []
    {
      this.hash, this.baseline := hash, baseline;
      edits, projected := [], None;
    }

    // The editor of a file with recorded edits.
    constructor Pending(hash: string -> string, baseline: string, edits: seq<Edit>)
      requires Recorded(edits, |baseline|)
      ensures Valid() && this.hash == hash && this.baseline == baseline && this.edits == edits
    {
      this.hash, this.baseline, this.edits, projected := hash, baseline, edits, None;
    }

    /** initialize: the content of a new file. */
    method Initialize(value: string, command: nat)
      modifies this
      ensures Valid() && baseline == "" && Render(baseline, edits) == value
    {
      baseline, projected := "", None;
      edits := if value == "" then [] else [Edit(0, 0, value, 1, command)];
      if value != "" {
        SingleInsertion(value, edits[0]);
      }
    }

    method RecordEdits(candidates: seq<Edit>) returns (accepted: bool)
      requires Valid() && AllPlaced(candidates, |baseline|)
      modifies this
      ensures Valid() && baseline == old(baseline)
      ensures accepted <==> ConflictFree(old(edits) + Kept(baseline, candidates))
      ensures edits == old(edits) + if accepted then Numbered(Kept(baseline, candidates), |old(edits)| + 1) else []
      ensures !accepted ==> projected == old(projected)
    {
      AcceptedIff(baseline, edits, candidates);
      RecordKeeps(baseline, edits, candidates);
      var pending := edits;
      for k := 0 to |candidates|
        invariant Record(baseline, pending, candidates[k..]) == Record(baseline, edits, candidates)
        invariant |edits| <= |pending| && pending[..|edits|] == edits
      {
        var candidate := candidates[k];
        assert candidates[k..][0] == candidate && candidates[k..][1..] == candidates[k + 1..];
        if !Matters(baseline, candidate) {
          continue;
        }
        if ConflictsWithAny(pending, candidate) {
          assert edits == edits + [];
          return false;
        }
        pending := pending + [candidate.(sequence := |pending| + 1)];
      }
      if |pending| != |edits| {
        projected := None;
      } else {
        assert pending == edits;
      }
      edits := pending;
      accepted := true;
    }

    /** renderIndentation rewrites one replacement and drops the cached projection. */
    method SetReplacement(index: nat, replacement: string)
      requires Valid() && index < |edits|
      modifies this`edits, this`projected
      ensures Valid() && edits == old(edits)[index := old(edits)[index].(replacement := replacement)]
    {
      if edits[index].replacement != replacement {
        RewrittenIsRecorded(edits, index, replacement, |baseline|);
        edits := edits[index := edits[index].(replacement := replacement)];
        projected := None;
      }
    }

    /** The cached projection is always the projection of the current edits. */
    method RenderedEdits() returns (projection: seq<RenderedEdit>)
      requires Valid()
      modifies this`projected
      ensures Valid() && projection == Project(edits, |baseline|)
    {
      if projected.None? {
        projected := Some(Project(edits, |baseline|));
      }
      projection := projected.value;
    }

    method Content() returns (text: string)
      requires Valid()
      modifies this`projected
      ensures Valid() && text == Render(baseline, edits)
    {
      var projection := RenderedEdits();
      OrderedIsChained(edits, |baseline|);
      ghost var sorted := Ordered(edits);
      text := "";
      var cursor := 0;
      for k := 0 to |projection|
        invariant Valid() && 0 <= cursor && Chained(sorted[k..], cursor, |baseline|)
        invariant text + RenderFrom(baseline, sorted[k..], cursor) == Render(baseline, edits)
      {
        var edit := projection[k].edit;
        RenderStep(baseline, sorted, k, cursor, text);
        text := text + baseline[cursor..edit.start] + edit.replacement;
        cursor := Max(cursor, edit.end);
      }
      text := text + baseline[cursor..];
    }

    /** contentFits: the rendered size against a limit, without rendering. */
    method ContentFits(limit: int) returns (fits: bool)
      requires Valid()
      ensures fits <==> |Render(baseline, edits)| <= limit
    {
      RenderSize(baseline, edits);
      var retained := |baseline|;
      for k := 0 to |edits|
        invariant retained == |baseline| - Removed(edits[..k])
      {
        assert edits[..k + 1][..k] == edits[..k];
        retained := retained - (edits[k].end - edits[k].start);
      }
      assert edits[..|edits|] == edits;
      GrowthSplits(edits);
      if retained > limit {
        return false;
      }
      var remaining := limit - retained;
      for k := 0 to |edits|
        invariant remaining == limit - retained - Added(edits[..k]) && remaining >= 0
      {
        assert edits[..k + 1][..k] == edits[..k];
        AddedAscends(edits, k + 1);
        if |edits[k].replacement| > remaining {
          return false;
        }
        remaining := remaining - |edits[k].replacement|;
      }
      fits := true;
    }

    method RenderedBaselineBoundary(offset: nat, includeInsertions: bool) returns (rendered: int)
      requires Valid()
      modifies this`projected
      ensures Valid() && rendered == Boundary(Ordered(edits), offset, includeInsertions)
    {
      var projection := RenderedEdits();
      ghost var sorted := Ordered(edits);
      rendered := offset;
      for k := 0 to |projection|
        invariant rendered + Shift(sorted[k..], offset, includeInsertions)
            == Boundary(sorted, offset, includeInsertions)
      {
        var edit := projection[k].edit;
        assert sorted[k..][0] == edit && sorted[k..][1..] == sorted[k + 1..];
        if edit.start == edit.end {
          if edit.start < offset || (includeInsertions && edit.start == offset) {
            rendered := rendered + |edit.replacement|;
          }
        } else if edit.end <= offset {
          rendered := rendered + |edit.replacement| - (edit.end - edit.start);
        }
      }
    }

    method RenderedBaselineLine(line: Line) returns (image: Option<(int, int)>)
      requires Valid() && line.start < line.end <= |baseline|
      modifies this`projected
      ensures Valid()
      ensures image == if Untouched(Ordered(edits), line.start, line.end)
                       then Some((Boundary(Ordered(edits), line.start, true),
                                  Boundary(Ordered(edits), line.end, false)))
                       else None
    {
      var projection := RenderedEdits();
      ghost var sorted := Ordered(edits);
      for k := 0 to |projection|
        invariant forall j :: 0 <= j < k ==> Misses(sorted[j], line.start, line.end)
      {
        var edit := projection[k].edit;
        if !Misses(edit, line.start, line.end) {
          assert !Misses(sorted[k], line.start, line.end);
          return None;
        }
      }
      var start := RenderedBaselineBoundary(line.start, true);
      var end := RenderedBaselineBoundary(line.end, false);
      image := Some((start, end));
    }

    method ResolveRow(reference: Reference) returns (row: Result<Line, RowError>)
      requires Valid()
      modifies this`projected
      ensures Valid() && Resolves(hash, baseline, edits, reference, row)
    {
      row := ResolveRowInBaseline(hash, baseline, reference);
      if row.Ok? || edits == [] {
        return;
      }
      var pendingLine := FindPending(reference);
      if pendingLine.None? {
        return;
      }
      var landing := FindLanding(reference, pendingLine.value);
      LandingResolves(hash, baseline, edits, reference, pendingLine.value, landing);
      if landing.Some? {
        row := Ok(landing.value);
      }
    }

    // The pending row with the number of the reference, when its hash matches.
    method FindPending(reference: Reference) returns (row: Option<Line>)
      requires Valid()
      modifies this`projected
      ensures Valid() && row == PendingRow(hash, Render(baseline, edits), reference)
      ensures row.Some? ==> IsPending(hash, Render(baseline, edits), reference, row.value)
    {
      var pending := Content();
      LinesPartition(pending, 0);
      var lines := ScanLines(pending);
      if reference.line < 1 || reference.line > |lines| {
        return None;
      }
      var line := lines[reference.line - 1];
      row := if hash(LineContent(pending, line)) == reference.hash then Some(line) else None;
    }

    /** The loop over baseline lines at the end of resolveRow. */
    method FindLanding(reference: Reference, pendingLine: Line) returns (row: Option<Line>)
      requires Valid() && IsPending(hash, Render(baseline, edits), reference, pendingLine)
      modifies this`projected
      ensures Valid()
      ensures forall line :: row == Some(line) <==> LandsOn(baseline, edits, line, pendingLine)
    {
      var lines := ScanLines(baseline);
      var matches := 0;
      ghost var at := 0;
      row := None;
      for k := 0 to |lines|
        invariant Valid() && matches == (if row.Some? then 1 else 0)
        invariant row.Some? ==>
          0 <= at < k && row.value == lines[at] && LandsOn(baseline, edits, lines[at], pendingLine)
        invariant row.None? ==> forall j :: 0 <= j < k ==> !LandsOn(baseline, edits, lines[j], pendingLine)
      {
        var lands := CheckLanding(reference, lines, k, pendingLine);
        if row.Some? {
          LandsNowhereElse(baseline, edits, at, k, pendingLine);
        }
        if lands {
          row, at := Some(lines[k]), k;
          matches := matches + 1;
        }
      }
      if row.Some? {
        LandsAlone(baseline, edits, row.value, pendingLine);
      }
      if matches != 1 {
        row := None;
      }
    }

    // Whether a baseline line with the hash lands on the pending row.
    method CheckLanding(reference: Reference, lines: seq<Line>, k: nat, pendingLine: Line) returns (lands: bool)
      requires Valid() && lines == Lines(baseline) && k < |lines|
      requires IsPending(hash, Render(baseline, edits), reference, pendingLine)
      modifies this`projected
      ensures Valid() && (lands <==> LandsOn(baseline, edits, lines[k], pendingLine))
    {
      LinesPartition(baseline, 0);
      if LandsOn(baseline, edits, lines[k], pendingLine) {
        LandsVerbatim(baseline, edits, lines[k], pendingLine);
      }
      if hash(LineContent(baseline, lines[k])) != reference.hash {
        return false;
      }
      var image := RenderedBaselineLine(lines[k]);
      lands := image == Some((pendingLine.start, pendingLine.end));
    }
  }
}
