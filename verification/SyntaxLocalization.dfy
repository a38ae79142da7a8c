/** Localization of a syntax failure to the commands that cause it
    (validation.go): edits are grouped by command and groups are removed, the
    farthest from the failure first, as long as the source stays invalid. The
    parser is an arbitrary predicate on texts. */
module SyntaxLocalization {
  import opened Wrappers
  import opened Edits
  import opened Projection

  datatype Group = Group(command: nat, edits: seq<Edit>, distance: nat)

  const GROUP_LIMIT: nat := 32

  function Flatten(groups: seq<Group>): seq<Edit> {
    if groups == [] then [] else groups[0].edits + Flatten(groups[1..])
  }

  lemma {:induction false} FlattenSplit(a: seq<Group>, b: seq<Group>)
    ensures Flatten(a + b) == Flatten(a) + Flatten(b)
  {
    if a == [] {
      assert a + b == b;
    } else {
      assert (a + b)[1..] == a[1..] + b;
      FlattenSplit(a[1..], b);
    }
  }

  function Without(groups: seq<Group>, i: nat): seq<Group>
    requires i < |groups|
  {
    groups[..i] + groups[i + 1..]
  }

  lemma FlattenOne(g: Group)
    ensures Flatten([g]) == g.edits
  {
    assert [g][1..] == [];
    assert Flatten([g]) == g.edits + Flatten([]);
  }

  lemma Cut(groups: seq<Group>, i: nat)
    requires i < |groups|
    ensures groups == groups[..i] + ([groups[i]] + groups[i + 1..])
  {
  }

  lemma AroundOne(groups: seq<Group>, i: nat)
    requires i < |groups|
    ensures Flatten(groups) == Flatten(groups[..i]) + (groups[i].edits + Flatten(groups[i + 1..]))
  {
    Cut(groups, i);
    FlattenSplit(groups[..i], [groups[i]] + groups[i + 1..]);
    FlattenSplit([groups[i]], groups[i + 1..]);
    FlattenOne(groups[i]);
  }

  lemma CountAround(all: seq<Edit>, before: seq<Edit>, middle: seq<Edit>, after: seq<Edit>)
    requires all == before + (middle + after)
    ensures multiset(all) == multiset(before + after) + multiset(middle)
  {
  }

  lemma WithoutFlattens(groups: seq<Group>, i: nat)
    requires i < |groups|
    ensures multiset(Flatten(groups)) == multiset(Flatten(Without(groups, i))) + multiset(groups[i].edits)
  {
    AroundOne(groups, i);
    FlattenSplit(groups[..i], groups[i + 1..]);
    CountAround(Flatten(groups), Flatten(groups[..i]), groups[i].edits, Flatten(groups[i + 1..]));
  }

  // ---- Part of a compatible edit list is compatible ------------------------------

  lemma {:induction false} OnlyOnce(edits: seq<Edit>, e: Edit)
    requires Distinct(edits)
    ensures multiset(edits)[e] <= 1
    decreases |edits|
  {
    if edits != [] {
      var rest, last := edits[..|edits| - 1], edits[|edits| - 1];
      OnlyOnce(rest, e);
      assert edits == rest + [last];
      forall i | 0 <= i < |rest| ensures rest[i] != last {
        assert edits[i].sequence != edits[|edits| - 1].sequence;
      }
    }
  }

  lemma TwoOccurrences(part: seq<Edit>, i: nat, j: nat)
    requires i < j < |part| && part[i] == part[j]
    ensures multiset(part)[part[i]] >= 2
  {
    assert part == part[..i] + [part[i]] + part[i + 1..j] + [part[j]] + part[j + 1..];
  }

  lemma PartIsCompatible(part: seq<Edit>, edits: seq<Edit>, length: nat)
    requires Compatible(edits, length) && multiset(part) <= multiset(edits)
    ensures Compatible(part, length)
  {
    forall i | 0 <= i < |part| ensures part[i] in edits && WellPlaced(part[i], length) {
      assert part[i] in multiset(part);
      assert part[i] in multiset(edits);
    }
    forall i, j | 0 <= i < j < |part|
      ensures !Conflicts(part[i], part[j]) && part[i].sequence != part[j].sequence
    {
      if part[i] == part[j] {
        TwoOccurrences(part, i, j);
        OnlyOnce(edits, part[i]);
      } else {
        var a :| 0 <= a < |edits| && edits[a] == part[i];
        var b :| 0 <= b < |edits| && edits[b] == part[j];
        ConflictIsSymmetric(part[i], part[j]);
      }
    }
  }

  // ---- Grouping -------------------------------------------------------------------

  predicate GroupOk(g: Group) {
    g.edits != [] && forall e :: e in g.edits ==> e.command == g.command
  }

  // Every edit is in the group of its command, and no command has two groups.
  ghost predicate Grouped(groups: seq<Group>, edits: seq<Edit>) {
    && multiset(Flatten(groups)) == multiset(edits)
    && (forall i, j :: 0 <= i < j < |groups| ==> groups[i].command != groups[j].command)
    && (forall i :: 0 <= i < |groups| ==> GroupOk(groups[i]))
  }

  lemma FlattenUpdate(groups: seq<Group>, i: nat, grown: Group, e: Edit)
    requires i < |groups| && grown.edits == groups[i].edits + [e]
    ensures multiset(Flatten(groups[i := grown])) == multiset(Flatten(groups)) + multiset{e}
  {
    WithoutFlattens(groups, i);
    WithoutFlattens(groups[i := grown], i);
    assert Without(groups[i := grown], i) == Without(groups, i);
  }

  lemma AppendGroup(groups: seq<Group>, edits: seq<Edit>, e: Edit, length: nat)
    requires Grouped(groups, edits) && forall i :: 0 <= i < |groups| ==> groups[i].command != e.command
    ensures Grouped(groups + [Group(e.command, [e], length)], edits + [e])
  {
    var added := Group(e.command, [e], length);
    FlattenSplit(groups, [added]);
    assert Flatten([added]) == [e] + Flatten([]) == [e];
    assert GroupOk(added);
  }

  lemma ExtendGroup(groups: seq<Group>, edits: seq<Edit>, e: Edit, i: nat)
    requires Grouped(groups, edits) && i < |groups| && groups[i].command == e.command
    ensures Grouped(groups[i := groups[i].(edits := groups[i].edits + [e])], edits + [e])
  {
    var grown := groups[i].(edits := groups[i].edits + [e]);
    FlattenUpdate(groups, i, grown, e);
    assert GroupOk(groups[i]);
    assert GroupOk(grown);
  }

  // Where each command's group is.
  ghost predicate Indexed(groups: seq<Group>, indices: map<nat, nat>) {
    && (forall c :: c in indices ==> indices[c] < |groups| && groups[indices[c]].command == c)
    && (forall i :: 0 <= i < |groups| ==> groups[i].command in indices)
  }

  function AddEdit(groups: seq<Group>, indices: map<nat, nat>, e: Edit, length: nat): (seq<Group>, map<nat, nat>) {
    if e.command in indices && indices[e.command] < |groups| then
      var i := indices[e.command];
      (groups[i := groups[i].(edits := groups[i].edits + [e])], indices)
    else
      (groups + [Group(e.command, [e], length)], indices[e.command := |groups|])
  }

  lemma AddEditKeeps(groups: seq<Group>, indices: map<nat, nat>, edits: seq<Edit>, e: Edit, length: nat)
    requires Grouped(groups, edits) && Indexed(groups, indices)
    ensures var added := AddEdit(groups, indices, e, length);
      Grouped(added.0, edits + [e]) && Indexed(added.0, added.1)
  {
    AddEditIndexes(groups, indices, e, length);
    if e.command in indices {
      ExtendGroup(groups, edits, e, indices[e.command]);
    } else {
      AppendGroup(groups, edits, e, length);
    }
  }

  lemma AddEditIndexes(groups: seq<Group>, indices: map<nat, nat>, e: Edit, length: nat)
    requires Indexed(groups, indices)
    ensures Indexed(AddEdit(groups, indices, e, length).0, AddEdit(groups, indices, e, length).1)
  {
  }

  ghost predicate AllAt(groups: seq<Group>, distance: nat) {
    forall i :: 0 <= i < |groups| ==> groups[i].distance == distance
  }

  /** The groups and the table after the first loop. */
  function Collected(edits: seq<Edit>, length: nat): (seq<Group>, map<nat, nat>) {
    if edits == [] then ([], map[]) else
    var before := Collected(edits[..|edits| - 1], length);
    AddEdit(before.0, before.1, edits[|edits| - 1], length)
  }

  lemma {:induction false} CollectedAt(edits: seq<Edit>, length: nat)
    ensures AllAt(Collected(edits, length).0, length)
  {
    if edits != [] {
      CollectedAt(edits[..|edits| - 1], length);
    }
  }

  lemma {:induction false} CollectedIsGrouped(edits: seq<Edit>, length: nat)
    ensures Grouped(Collected(edits, length).0, edits)
    ensures Indexed(Collected(edits, length).0, Collected(edits, length).1)
  {
    if edits == [] {
      assert Flatten([]) == [];
    } else {
      var rest, last := edits[..|edits| - 1], edits[|edits| - 1];
      CollectedIsGrouped(rest, length);
      assert edits == rest + [last];
      AddEditKeeps(Collected(rest, length).0, Collected(rest, length).1, rest, last, length);
    }
  }

  /** The first loop of syntaxEditGroups. */
  method GroupByCommand(edits: seq<Edit>, contentLength: nat) returns (groups: seq<Group>, indices: map<nat, nat>)
    ensures (groups, indices) == Collected(edits, contentLength)
    ensures Grouped(groups, edits) && Indexed(groups, indices) && AllAt(groups, contentLength)
  {
    groups, indices := [], map[];
    for k := 0 to |edits|
      invariant (groups, indices) == Collected(edits[..k], contentLength)
    {
      assert edits[..k + 1][..k] == edits[..k];
      var added := AddEdit(groups, indices, edits[k], contentLength);
      groups, indices := added.0, added.1;
    }
    assert edits[..|edits|] == edits;
    CollectedIsGrouped(edits, contentLength);
    CollectedAt(edits, contentLength);
  }

  lemma {:induction false} InSomeGroup(groups: seq<Group>, e: Edit)
    requires e in Flatten(groups)
    ensures exists i :: 0 <= i < |groups| && e in groups[i].edits
  {
    if e in groups[0].edits {
    } else {
      InSomeGroup(groups[1..], e);
      var i :| 0 <= i < |groups[1..]| && e in groups[1..][i].edits;
      assert e in groups[i + 1].edits;
    }
  }

  lemma CommandIsIndexed(groups: seq<Group>, indices: map<nat, nat>, edits: seq<Edit>, e: Edit)
    requires Grouped(groups, edits) && Indexed(groups, indices) && e in edits
    ensures e.command in indices
  {
    assert e in multiset(edits);
    assert e in multiset(Flatten(groups));
    InSomeGroup(groups, e);
    var i :| 0 <= i < |groups| && e in groups[i].edits;
    assert GroupOk(groups[i]);
  }

  function SpanDistance(span: Span, offset: int): nat {
    Max(Max(span.start - offset, offset - span.end), 0)
  }

  function Away(p: int, offset: int): nat {
    if p < offset then offset - p else p - offset
  }

  /** The distance of a span is that of its nearest position, its end included, and
      zero exactly at an offset on the span. */
  lemma SpanDistanceIsLeast(span: Span, offset: int)
    requires span.start <= span.end
    ensures forall p :: span.start <= p <= span.end ==> SpanDistance(span, offset) <= Away(p, offset)
    ensures exists p :: span.start <= p <= span.end && SpanDistance(span, offset) == Away(p, offset)
    ensures SpanDistance(span, offset) == 0 <==> span.start <= offset <= span.end
  {
    var p := if offset < span.start then span.start else if offset > span.end then span.end else offset;
    assert SpanDistance(span, offset) == Away(p, offset);
  }

  lemma {:induction false} FlattenIgnoresDistance(a: seq<Group>, b: seq<Group>)
    requires |a| == |b| && forall i :: 0 <= i < |a| ==> a[i].edits == b[i].edits
    ensures Flatten(a) == Flatten(b)
  {
    if a != [] {
      FlattenIgnoresDistance(a[1..], b[1..]);
    }
  }

  // The distance of the command's group is at most that of this span.
  ghost predicate Reached(groups: seq<Group>, rendered: RenderedEdit, offset: int) {
    forall i :: 0 <= i < |groups| && groups[i].command == rendered.edit.command ==>
      groups[i].distance <= SpanDistance(rendered.span, offset)
  }

  /** The distance of the group is that of one of its own spans, or the cap. */
  ghost predicate Attained(g: Group, projection: seq<RenderedEdit>, offset: int, cap: nat) {
    && g.distance <= cap
    && (g.distance == cap || exists j :: 0 <= j < |projection| && OwnDistance(g, projection[j], offset))
  }

  predicate OwnDistance(g: Group, rendered: RenderedEdit, offset: int) {
    rendered.edit.command == g.command && g.distance == SpanDistance(rendered.span, offset)
  }

  ghost predicate AllAttained(groups: seq<Group>, projection: seq<RenderedEdit>, offset: int, cap: nat) {
    forall i :: 0 <= i < |groups| ==> Attained(groups[i], projection, offset, cap)
  }

  /** Each group has the distance of its nearest span, or the cap if that is less. */
  ghost predicate Measured(groups: seq<Group>, projection: seq<RenderedEdit>, offset: int, cap: nat) {
    && AllAttained(groups, projection, offset, cap)
    && forall k :: 0 <= k < |projection| ==> Reached(groups, projection[k], offset)
  }

  lemma MarkAttains(groups: seq<Group>, index: nat, projection: seq<RenderedEdit>, k: nat, offset: int, cap: nat)
    requires AllAttained(groups, projection, offset, cap) && index < |groups| && k < |projection|
    requires groups[index].command == projection[k].edit.command
    ensures AllAttained(Mark(groups, index, SpanDistance(projection[k].span, offset)), projection, offset, cap)
  {
    var distance := SpanDistance(projection[k].span, offset);
    var marked := Mark(groups, index, distance);
    forall i | 0 <= i < |marked| ensures Attained(marked[i], projection, offset, cap) {
      assert Attained(groups[i], projection, offset, cap);
      assert i == index && distance <= groups[index].distance ==> OwnDistance(marked[i], projection[k], offset);
    }
  }

  /** So it is the least of the cap and all distances of its spans. */
  lemma MeasuredIsLeast(groups: seq<Group>, projection: seq<RenderedEdit>, offset: int, cap: nat, i: nat, d: nat)
    requires Measured(groups, projection, offset, cap) && i < |groups|
    requires d <= cap && forall k :: 0 <= k < |projection| && projection[k].edit.command == groups[i].command ==>
      d <= SpanDistance(projection[k].span, offset)
    requires d == cap || exists j ::
      0 <= j < |projection| && OwnDistance(groups[i].(distance := d), projection[j], offset)
    ensures groups[i].distance == d
  {
    assert Attained(groups[i], projection, offset, cap);
    if d != cap {
      var j :| 0 <= j < |projection| && OwnDistance(groups[i].(distance := d), projection[j], offset);
      assert Reached(groups, projection[j], offset);
    }
  }

  lemma Nearer(groups: seq<Group>, edits: seq<Edit>, index: nat, distance: nat)
    requires Grouped(groups, edits) && index < |groups| && distance <= groups[index].distance
    ensures Grouped(groups[index := groups[index].(distance := distance)], edits)
    ensures forall r, offset :: Reached(groups, r, offset) ==>
      Reached(groups[index := groups[index].(distance := distance)], r, offset)
  {
    var nearer := groups[index := groups[index].(distance := distance)];
    FlattenIgnoresDistance(groups, nearer);
    forall i | 0 <= i < |groups| ensures GroupOk(nearer[i]) {
      assert GroupOk(groups[i]);
    }
  }

  function Mark(groups: seq<Group>, index: nat, distance: nat): seq<Group>
    requires index < |groups|
  {
    if distance <= groups[index].distance then groups[index := groups[index].(distance := distance)] else groups
  }

  function MarkFor(groups: seq<Group>, indices: map<nat, nat>, rendered: RenderedEdit, offset: int): seq<Group> {
    if rendered.edit.command in indices && indices[rendered.edit.command] < |groups| then
      Mark(groups, indices[rendered.edit.command], SpanDistance(rendered.span, offset))
    else groups
  }

  /** The groups after the second loop. */
  function Marked(groups: seq<Group>, indices: map<nat, nat>, projection: seq<RenderedEdit>, offset: int): seq<Group> {
    if projection == [] then groups else
    var before := Marked(groups, indices, projection[..|projection| - 1], offset);
    MarkFor(before, indices, projection[|projection| - 1], offset)
  }

  function GroupsOf(edits: seq<Edit>, length: nat, offset: int, contentLength: nat): seq<Group>
    requires Compatible(edits, length)
  {
    var collected := Collected(edits, contentLength);
    Marked(collected.0, collected.1, Project(edits, length), offset)
  }

  lemma MarkKeeps(groups: seq<Group>, indices: map<nat, nat>, edits: seq<Edit>, rendered: RenderedEdit, offset: int)
    requires Grouped(groups, edits) && Indexed(groups, indices) && rendered.edit.command in indices
    ensures var marked := Mark(groups, indices[rendered.edit.command], SpanDistance(rendered.span, offset));
      && Grouped(marked, edits) && Indexed(marked, indices) && Reached(marked, rendered, offset)
      && (forall r :: Reached(groups, r, offset) ==> Reached(marked, r, offset))
  {
    var index, distance := indices[rendered.edit.command], SpanDistance(rendered.span, offset);
    if distance <= groups[index].distance {
      Nearer(groups, edits, index, distance);
    }
  }

  // The state of the second loop after the first k spans.
  ghost predicate MarkedUpTo(groups: seq<Group>, indices: map<nat, nat>, edits: seq<Edit>,
                             projection: seq<RenderedEdit>,
                             k: nat, offset: int, cap: nat)
    requires k <= |projection|
  {
    && Grouped(groups, edits) && Indexed(groups, indices) && AllAttained(groups, projection, offset, cap)
    && forall j :: 0 <= j < k ==> Reached(groups, projection[j], offset)
  }

  lemma MarkNext(groups: seq<Group>, indices: map<nat, nat>, edits: seq<Edit>, projection: seq<RenderedEdit>, k: nat,
                 offset: int, cap: nat)
    requires k < |projection| && projection[k].edit in edits
    requires MarkedUpTo(groups, indices, edits, projection, k, offset, cap)
    ensures projection[k].edit.command in indices && indices[projection[k].edit.command] < |groups|
    ensures MarkedUpTo(MarkFor(groups, indices, projection[k], offset), indices, edits, projection, k + 1, offset, cap)
  {
    var rendered := projection[k];
    CommandIsIndexed(groups, indices, edits, rendered.edit);
    MarkKeeps(groups, indices, edits, rendered, offset);
    MarkAttains(groups, indices[rendered.edit.command], projection, k, offset, cap);
  }

  lemma MarkedNext(start: seq<Group>, indices: map<nat, nat>, projection: seq<RenderedEdit>, k: nat, offset: int)
    requires k < |projection|
    ensures Marked(start, indices, projection[..k + 1], offset)
            == MarkFor(Marked(start, indices, projection[..k], offset), indices, projection[k], offset)
  {
    assert projection[..k + 1][..k] == projection[..k];
  }

  lemma {:induction false} MarkedIsMeasured(start: seq<Group>, indices: map<nat, nat>, edits: seq<Edit>,
                                            projection: seq<RenderedEdit>, k: nat, offset: int, cap: nat)
    requires Grouped(start, edits) && Indexed(start, indices) && AllAt(start, cap) && k <= |projection|
    requires forall j :: 0 <= j < |projection| ==> projection[j].edit in edits
    ensures MarkedUpTo(Marked(start, indices, projection[..k], offset), indices, edits, projection, k, offset, cap)
  {
    if k == 0 {
      assert projection[..0] == [];
    } else {
      MarkedIsMeasured(start, indices, edits, projection, k - 1, offset, cap);
      MarkedNext(start, indices, projection, k - 1, offset);
      MarkNext(Marked(start, indices, projection[..k - 1], offset), indices, edits, projection, k - 1, offset, cap);
    }
  }

  /** The second loop of syntaxEditGroups. */
  method MarkDistances(start: seq<Group>, indices: map<nat, nat>, projection: seq<RenderedEdit>, offset: int, cap: nat,
                       ghost edits: seq<Edit>) returns (groups: seq<Group>)
    requires Grouped(start, edits) && Indexed(start, indices) && AllAt(start, cap)
    requires forall k :: 0 <= k < |projection| ==> projection[k].edit in edits
    ensures groups == Marked(start, indices, projection, offset)
    ensures Grouped(groups, edits) && Measured(groups, projection, offset, cap)
  {
    groups := start;
    for k := 0 to |projection|
      invariant groups == Marked(start, indices, projection[..k], offset)
    {
      assert projection[..k + 1][..k] == projection[..k];
      groups := MarkFor(groups, indices, projection[k], offset);
    }
    assert projection[..|projection|] == projection;
    MarkedIsMeasured(start, indices, edits, projection, |projection|, offset, cap);
  }

  lemma ProjectedEditsAreEdits(edits: seq<Edit>, length: nat, k: nat)
    requires Compatible(edits, length) && k < |Project(edits, length)|
    ensures Project(edits, length)[k].edit in edits
  {
    OrderedKeepsEdits(edits);
    assert Ordered(edits)[k] in multiset(edits);
  }

  /** syntaxEditGroups: groups with the distance of their nearest span, at most
      the content length. */
  method SyntaxEditGroups(edits: seq<Edit>, length: nat, offset: int, contentLength: nat) returns (groups: seq<Group>)
    requires Compatible(edits, length)
    ensures Grouped(groups, edits) && Measured(groups, Project(edits, length), offset, contentLength)
    ensures groups == GroupsOf(edits, length, offset, contentLength)
  {
    var indices;
    groups, indices := GroupByCommand(edits, contentLength);
    var projection := Project(edits, length);
    forall k | 0 <= k < |projection| ensures projection[k].edit in edits {
      ProjectedEditsAreEdits(edits, length, k);
    }
    groups := MarkDistances(groups, indices, projection, offset, contentLength, edits);
  }

  // ---- Elimination -----------------------------------------------------------------

  function SubRender(baseline: string, groups: seq<Group>): string
    requires Compatible(Flatten(groups), |baseline|)
  {
    Render(baseline, Flatten(groups))
  }

  predicate FartherFirst(a: Group, b: Group) {
    a.distance > b.distance || (a.distance == b.distance && a.command < b.command)
  }

  function InsertGroup(sorted: seq<Group>, g: Group): seq<Group> {
    if sorted == [] || FartherFirst(g, sorted[0]) then [g] + sorted else [sorted[0]] + InsertGroup(sorted[1..], g)
  }

  function SortGroups(groups: seq<Group>): seq<Group> {
    if groups == [] then [] else InsertGroup(SortGroups(groups[1..]), groups[0])
  }

  lemma {:induction false} InsertGroupKeeps(sorted: seq<Group>, g: Group)
    ensures multiset(InsertGroup(sorted, g)) == multiset(sorted) + multiset{g}
    ensures multiset(Flatten(InsertGroup(sorted, g))) == multiset(Flatten(sorted)) + multiset(g.edits)
  {
    if sorted != [] && !FartherFirst(g, sorted[0]) {
      InsertGroupKeeps(sorted[1..], g);
      assert sorted == [sorted[0]] + sorted[1..];
    } else {
      assert ([g] + sorted)[1..] == sorted;
    }
  }

  lemma {:induction false} SortGroupsKeeps(groups: seq<Group>)
    ensures multiset(SortGroups(groups)) == multiset(groups)
  {
    if groups != [] {
      SortGroupsKeeps(groups[1..]);
      InsertGroupKeeps(SortGroups(groups[1..]), groups[0]);
      assert groups == [groups[0]] + groups[1..];
    }
  }

  lemma {:induction false} SortGroupsKeepsEdits(groups: seq<Group>)
    ensures multiset(Flatten(SortGroups(groups))) == multiset(Flatten(groups))
  {
    if groups != [] {
      SortGroupsKeepsEdits(groups[1..]);
      InsertGroupKeeps(SortGroups(groups[1..]), groups[0]);
    }
  }

  // No group is nearer than one behind it, and none is later than one as far behind it.
  ghost predicate FarthestFirst(groups: seq<Group>) {
    forall i, j :: 0 <= i < j < |groups| ==> NoNearer(groups[i], groups[j])
  }

  predicate NoNearer(a: Group, b: Group) {
    b.distance <= a.distance && (a.distance == b.distance ==> a.command < b.command)
  }

  // Inserted behind the first group, a group follows it.
  lemma FollowsFirst(sorted: seq<Group>, g: Group, rest: seq<Group>, j: nat)
    requires FarthestFirst(sorted) && sorted != [] && FartherFirst(sorted[0], g) && j < |rest|
    requires multiset(rest) == multiset(sorted[1..]) + multiset{g}
    ensures FartherFirst(sorted[0], rest[j])
  {
    assert rest[j] in multiset(rest);
    if rest[j] != g {
      assert rest[j] in multiset(sorted[1..]);
      var k :| 0 <= k < |sorted[1..]| && sorted[1..][k] == rest[j];
      assert sorted[k + 1] == rest[j];
    }
  }

  lemma {:induction false} InsertGroupSorts(sorted: seq<Group>, g: Group)
    requires FarthestFirst(sorted) && forall i :: 0 <= i < |sorted| ==> sorted[i].command != g.command
    ensures FarthestFirst(InsertGroup(sorted, g))
  {
    if sorted != [] && !FartherFirst(g, sorted[0]) {
      var rest := InsertGroup(sorted[1..], g);
      InsertGroupSorts(sorted[1..], g);
      InsertGroupKeeps(sorted[1..], g);
      forall j | 0 <= j < |rest| ensures FartherFirst(sorted[0], rest[j]) {
        FollowsFirst(sorted, g, rest, j);
      }
    }
  }

  /** The elimination starts from the command farthest from the failure, the
      earliest one on ties. */
  lemma {:induction false} SortGroupsSorts(groups: seq<Group>)
    requires forall i, j :: 0 <= i < j < |groups| ==> groups[i].command != groups[j].command
    ensures FarthestFirst(SortGroups(groups))
  {
    if groups != [] {
      var sorted := SortGroups(groups[1..]);
      SortGroupsSorts(groups[1..]);
      SortGroupsKeeps(groups[1..]);
      forall i | 0 <= i < |sorted| ensures sorted[i].command != groups[0].command {
        assert sorted[i] in multiset(groups[1..]);
      }
      InsertGroupSorts(sorted, groups[0]);
    }
  }

  lemma WithoutIsCompatible(baseline: string, groups: seq<Group>, i: nat)
    requires Compatible(Flatten(groups), |baseline|) && i < |groups|
    ensures Compatible(Flatten(Without(groups, i)), |baseline|)
  {
    WithoutFlattens(groups, i);
    PartIsCompatible(Flatten(Without(groups, i)), Flatten(groups), |baseline|);
  }

  ghost predicate PartOf(part: seq<Group>, groups: seq<Group>) {
    multiset(part) <= multiset(groups)
  }

  ghost predicate KeepsValid(baseline: string, small: seq<Group>, large: seq<Group>, valid: string -> bool) {
    Compatible(Flatten(small), |baseline|) && Compatible(Flatten(large), |baseline|) ==>
      (valid(SubRender(baseline, large)) ==> valid(SubRender(baseline, small)))
  }

  /** Removing commands from a valid set leaves it valid. */
  ghost predicate Monotone(baseline: string, groups: seq<Group>, valid: string -> bool) {
    forall small: seq<Group>, large: seq<Group> ::
      PartOf(small, large) && PartOf(large, groups) ==> KeepsValid(baseline, small, large, valid)
  }

  ghost predicate NeededAt(baseline: string, groups: seq<Group>, valid: string -> bool, i: nat)
    requires i < |groups| && Compatible(Flatten(groups), |baseline|)
  {
    WithoutIsCompatible(baseline, groups, i);
    valid(SubRender(baseline, Without(groups, i)))
  }

  ghost predicate NeededBefore(baseline: string, groups: seq<Group>, valid: string -> bool, index: nat)
    requires index <= |groups| && Compatible(Flatten(groups), |baseline|)
  {
    forall i: nat :: i < index ==> NeededAt(baseline, groups, valid, i)
  }

  /** Removing any one group makes the source valid. */
  ghost predicate OneMinimal(baseline: string, groups: seq<Group>, valid: string -> bool)
    requires Compatible(Flatten(groups), |baseline|)
  {
    NeededBefore(baseline, groups, valid, |groups|)
  }

  lemma WithoutIsPart(groups: seq<Group>, i: nat)
    requires i < |groups|
    ensures PartOf(Without(groups, i), groups)
  {
    assert groups == groups[..i] + [groups[i]] + groups[i + 1..];
  }

  lemma WithoutTwice(groups: seq<Group>, i: nat, k: nat)
    requires i < k < |groups|
    ensures Without(Without(groups, k), i) == Without(Without(groups, i), k - 1)
  {
  }

  lemma DropKeepsValid(baseline: string, all: seq<Group>, large: seq<Group>, valid: string -> bool, k: nat)
    requires Monotone(baseline, all, valid) && PartOf(large, all) && k < |large|
    requires Compatible(Flatten(large), |baseline|) && valid(SubRender(baseline, large))
    ensures Compatible(Flatten(Without(large, k)), |baseline|) && valid(SubRender(baseline, Without(large, k)))
  {
    WithoutIsCompatible(baseline, large, k);
    WithoutIsPart(large, k);
    assert KeepsValid(baseline, Without(large, k), large, valid);
  }

  lemma PartOfPart(a: seq<Group>, b: seq<Group>, c: seq<Group>)
    requires PartOf(a, b) && PartOf(b, c)
    ensures PartOf(a, c)
  {
  }

  // A group that was needed before a later one is removed is still needed.
  lemma StillNeeded(baseline: string, all: seq<Group>, groups: seq<Group>, valid: string -> bool, i: nat, k: nat)
    requires Compatible(Flatten(groups), |baseline|) && PartOf(groups, all) && Monotone(baseline, all, valid)
    requires i < k < |groups| && NeededAt(baseline, groups, valid, i)
    requires Compatible(Flatten(Without(groups, k)), |baseline|)
    ensures NeededAt(baseline, Without(groups, k), valid, i)
  {
    WithoutIsCompatible(baseline, groups, i);
    WithoutIsPart(groups, i);
    PartOfPart(Without(groups, i), groups, all);
    DropKeepsValid(baseline, all, Without(groups, i), valid, k - 1);
    WithoutTwice(groups, i, k);
  }

  // Of an invalid set that is still invalid without one group.
  ghost predicate ExchangesAt(baseline: string, part: seq<Group>, valid: string -> bool, i: nat, k: nat)
    requires i < k < |part| && Compatible(Flatten(part), |baseline|)
  {
    WithoutIsCompatible(baseline, part, k);
    !valid(SubRender(baseline, part)) && NeededAt(baseline, part, valid, i) && !NeededAt(baseline, part, valid, k) ==>
      NeededAt(baseline, Without(part, k), valid, i)
  }

  /** A command that an invalid set needs is still needed after another one leaves
      and the set stays invalid. */
  ghost predicate Exchange(baseline: string, groups: seq<Group>, valid: string -> bool) {
    forall part: seq<Group>, i: nat, k: nat ::
      PartOf(part, groups) && i < k < |part| && Compatible(Flatten(part), |baseline|) ==>
        ExchangesAt(baseline, part, valid, i, k)
  }

  /** Monotone validity is more than that. */
  lemma MonotoneExchanges(baseline: string, groups: seq<Group>, valid: string -> bool)
    requires Monotone(baseline, groups, valid)
    ensures Exchange(baseline, groups, valid)
  {
    forall part: seq<Group>, i: nat, k: nat
      | PartOf(part, groups) && i < k < |part| && Compatible(Flatten(part), |baseline|)
      ensures ExchangesAt(baseline, part, valid, i, k)
    {
      WithoutIsCompatible(baseline, part, k);
      if NeededAt(baseline, part, valid, i) {
        StillNeeded(baseline, groups, part, valid, i, k);
      }
    }
  }

  // Dropping the group at the loop index keeps the earlier ones needed.
  lemma DropKeepsNeeded(baseline: string, all: seq<Group>, groups: seq<Group>, valid: string -> bool, k: nat)
    requires Compatible(Flatten(groups), |baseline|) && PartOf(groups, all) && k < |groups|
    requires Exchange(baseline, all, valid) ==> NeededBefore(baseline, groups, valid, k)
    ensures Compatible(Flatten(Without(groups, k)), |baseline|) && PartOf(Without(groups, k), all)
    ensures Exchange(baseline, all, valid) ==>
      !valid(SubRender(baseline, groups)) && !NeededAt(baseline, groups, valid, k) ==>
      NeededBefore(baseline, Without(groups, k), valid, k)
  {
    WithoutIsCompatible(baseline, groups, k);
    WithoutIsPart(groups, k);
    PartOfPart(Without(groups, k), groups, all);
    if Exchange(baseline, all, valid) && !valid(SubRender(baseline, groups)) && !NeededAt(baseline, groups, valid, k) {
      forall i: nat | i < k ensures NeededAt(baseline, Without(groups, k), valid, i) {
        assert ExchangesAt(baseline, groups, valid, i, k);
      }
    }
  }

  /** The elimination loop as a function of the groups and the loop index. */
  function Eliminated(baseline: string, groups: seq<Group>, valid: string -> bool, index: nat): seq<Group>
    requires Compatible(Flatten(groups), |baseline|) && index <= |groups|
    decreases |groups| - index
  {
    if index == |groups| then groups else
    WithoutIsCompatible(baseline, groups, index);
    if valid(SubRender(baseline, Without(groups, index))) then Eliminated(baseline, groups, valid, index + 1)
    else Eliminated(baseline, Without(groups, index), valid, index)
  }

  // Where the elimination loop stands.
  ghost predicate Eliminating(baseline: string, start: seq<Group>, valid: string -> bool, groups: seq<Group>,
                              index: nat)
    requires Compatible(Flatten(start), |baseline|)
  {
    && index <= |groups| && PartOf(groups, start)
    && Compatible(Flatten(groups), |baseline|) && !valid(SubRender(baseline, groups))
    && Eliminated(baseline, groups, valid, index) == Eliminated(baseline, start, valid, 0)
    && (Exchange(baseline, start, valid) ==> NeededBefore(baseline, groups, valid, index))
  }

  lemma EliminatesDropped(baseline: string, start: seq<Group>, valid: string -> bool, groups: seq<Group>, index: nat)
    requires Compatible(Flatten(start), |baseline|) && Eliminating(baseline, start, valid, groups, index)
    requires index < |groups| && Compatible(Flatten(Without(groups, index)), |baseline|)
    requires !valid(SubRender(baseline, Without(groups, index)))
    ensures Eliminating(baseline, start, valid, Without(groups, index), index)
  {
    DropKeepsNeeded(baseline, start, groups, valid, index);
  }

  lemma EliminatesKept(baseline: string, start: seq<Group>, valid: string -> bool, groups: seq<Group>, index: nat)
    requires Compatible(Flatten(start), |baseline|) && Eliminating(baseline, start, valid, groups, index)
    requires index < |groups| && Compatible(Flatten(Without(groups, index)), |baseline|)
    requires valid(SubRender(baseline, Without(groups, index)))
    ensures Eliminating(baseline, start, valid, groups, index + 1)
  {
    assert NeededAt(baseline, groups, valid, index);
  }

  /** The elimination loop of syntaxFailureLocationWith. */
  method Eliminate(baseline: string, start: seq<Group>, valid: string -> bool) returns (groups: seq<Group>)
    requires Compatible(Flatten(start), |baseline|)
    requires valid(baseline) && !valid(SubRender(baseline, start))
    ensures Compatible(Flatten(groups), |baseline|) && groups == Eliminated(baseline, start, valid, 0)
    ensures PartOf(groups, start) && groups != [] && !valid(SubRender(baseline, groups))
    ensures Exchange(baseline, start, valid) ==> OneMinimal(baseline, groups, valid)
  {
    EmptyRender(baseline);
    groups := start;
    var index: nat := 0;
    while index < |groups|
      invariant Eliminating(baseline, start, valid, groups, index)
      decreases |groups| - index
    {
      WithoutIsCompatible(baseline, groups, index);
      var candidate := Without(groups, index);
      if !valid(SubRender(baseline, candidate)) {
        EliminatesDropped(baseline, start, valid, groups, index);
        groups := candidate;
      } else {
        EliminatesKept(baseline, start, valid, groups, index);
        index := index + 1;
      }
    }
  }

  lemma EmptyRender(baseline: string)
    ensures Compatible(Flatten([]), |baseline|) && SubRender(baseline, []) == baseline
  {
    RenderNothing(baseline);
  }

  // ---- Exactly when kept groups stay needed ------------------------------------------

  /** From here on the loop never keeps a group that is not needed any more. */
  ghost predicate StaysNeeded(baseline: string, groups: seq<Group>, valid: string -> bool, index: nat)
    requires Compatible(Flatten(groups), |baseline|) && index <= |groups|
    decreases |groups| - index
  {
    NeededBefore(baseline, groups, valid, index) &&
    if index == |groups| then true else
    WithoutIsCompatible(baseline, groups, index);
    if valid(SubRender(baseline, Without(groups, index))) then StaysNeeded(baseline, groups, valid, index + 1)
    else StaysNeeded(baseline, Without(groups, index), valid, index)
  }

  /** So it is in every run, over every invalid part of the groups in every order. */
  ghost predicate AlwaysStaysNeeded(baseline: string, all: seq<Group>, valid: string -> bool)
    requires Compatible(Flatten(all), |baseline|)
  {
    forall start: seq<Group> | PartOf(start, all) ::
      PartIsOk(baseline, start, all);
      !valid(SubRender(baseline, start)) ==> StaysNeeded(baseline, start, valid, 0)
  }

  lemma WithoutCounts(groups: seq<Group>, i: nat)
    requires i < |groups|
    ensures multiset(groups) == multiset(Without(groups, i)) + multiset{groups[i]}
  {
    assert groups == groups[..i] + [groups[i]] + groups[i + 1..];
  }

  lemma Cancel(a: multiset<Group>, b: multiset<Group>, g: Group)
    requires a + multiset{g} <= b + multiset{g}
    ensures a <= b
  {
    forall x | x in a ensures a[x] <= b[x] {
      assert (a + multiset{g})[x] <= (b + multiset{g})[x];
    }
  }

  lemma {:induction false} PartFlattens(part: seq<Group>, all: seq<Group>)
    requires PartOf(part, all)
    ensures multiset(Flatten(part)) <= multiset(Flatten(all))
    decreases |part|
  {
    if part != [] {
      var i := Occurrence(all, part[0]);
      var rest := Without(all, i);
      WithoutFlattens(all, i);
      WithoutCounts(all, i);
      assert part == [part[0]] + part[1..];
      Cancel(multiset(part[1..]), multiset(rest), part[0]);
      PartFlattens(part[1..], rest);
    }
  }

  lemma Occurrence(groups: seq<Group>, g: Group) returns (i: nat)
    requires g in multiset(groups)
    ensures i < |groups| && groups[i] == g
  {
    i :| 0 <= i < |groups| && groups[i] == g;
  }

  lemma PartIsOk(baseline: string, part: seq<Group>, all: seq<Group>)
    requires PartOf(part, all) && Compatible(Flatten(all), |baseline|)
    ensures Compatible(Flatten(part), |baseline|)
  {
    PartFlattens(part, all);
    PartIsCompatible(Flatten(part), Flatten(all), |baseline|);
  }

  lemma {:induction false} ExchangeStays(baseline: string, all: seq<Group>, groups: seq<Group>, valid: string -> bool,
                                         index: nat)
    requires Exchange(baseline, all, valid) && PartOf(groups, all) && index <= |groups|
    requires Compatible(Flatten(groups), |baseline|) && !valid(SubRender(baseline, groups))
    requires NeededBefore(baseline, groups, valid, index)
    ensures StaysNeeded(baseline, groups, valid, index)
    decreases |groups| - index
  {
    if index < |groups| {
      WithoutIsCompatible(baseline, groups, index);
      if NeededAt(baseline, groups, valid, index) {
        ExchangeStays(baseline, all, groups, valid, index + 1);
      } else {
        DropKeepsNeeded(baseline, all, groups, valid, index);
        ExchangeStays(baseline, all, Without(groups, index), valid, index);
      }
    }
  }

  // The same groups, with two of them in front.
  function InFront(part: seq<Group>, i: nat, k: nat): seq<Group>
    requires i < k < |part|
  {
    [part[i], part[k]] + Without(Without(part, k), i)
  }

  lemma InFrontIsPart(part: seq<Group>, i: nat, k: nat)
    requires i < k < |part|
    ensures multiset(InFront(part, i, k)) == multiset(part)
  {
    WithoutCounts(part, k);
    WithoutCounts(Without(part, k), i);
  }

  lemma SameGroupsRender(baseline: string, a: seq<Group>, b: seq<Group>)
    requires multiset(a) == multiset(b) && Compatible(Flatten(a), |baseline|)
    ensures Compatible(Flatten(b), |baseline|) && SubRender(baseline, a) == SubRender(baseline, b)
  {
    PartIsOk(baseline, b, a);
    PartFlattens(a, b);
    PartFlattens(b, a);
    RenderIgnoresListing(baseline, Flatten(a), Flatten(b));
  }

  lemma FrontWithout(part: seq<Group>, i: nat, k: nat)
    requires i < k < |part|
    ensures multiset(Without(InFront(part, i, k), 0)) == multiset(Without(part, i))
    ensures multiset(Without(InFront(part, i, k), 1)) == multiset(Without(part, k))
    ensures Without(Without(InFront(part, i, k), 1), 0) == Without(Without(part, k), i)
  {
    InFrontIsPart(part, i, k);
    SameWithout(InFront(part, i, k), 0, part, i);
    SameWithout(InFront(part, i, k), 1, part, k);
  }

  lemma SameWithout(a: seq<Group>, i: nat, b: seq<Group>, k: nat)
    requires multiset(a) == multiset(b) && i < |a| && k < |b| && a[i] == b[k]
    ensures multiset(Without(a, i)) == multiset(Without(b, k))
  {
    WithoutCounts(a, i);
    WithoutCounts(b, k);
    Cancel(multiset(Without(a, i)), multiset(Without(b, k)), a[i]);
    Cancel(multiset(Without(b, k)), multiset(Without(a, i)), a[i]);
  }

  // Where exchange fails, the run that starts with the two groups keeps the first in vain.
  lemma StaysExchanges(baseline: string, all: seq<Group>, part: seq<Group>, valid: string -> bool, i: nat, k: nat)
    requires Compatible(Flatten(all), |baseline|) && AlwaysStaysNeeded(baseline, all, valid)
    requires PartOf(part, all) && i < k < |part| && Compatible(Flatten(part), |baseline|)
    ensures ExchangesAt(baseline, part, valid, i, k)
  {
    var front := InFront(part, i, k);
    InFrontIsPart(part, i, k);
    SameGroupsRender(baseline, part, front);
    FrontWithout(part, i, k);
    WithoutIsCompatible(baseline, part, i);
    WithoutIsCompatible(baseline, part, k);
    SameGroupsRender(baseline, Without(part, i), Without(front, 0));
    SameGroupsRender(baseline, Without(part, k), Without(front, 1));
    if !valid(SubRender(baseline, part)) && NeededAt(baseline, part, valid, i) && !NeededAt(baseline, part, valid, k) {
      assert StaysNeeded(baseline, front, valid, 0);
      assert StaysNeeded(baseline, front, valid, 1);
      assert StaysNeeded(baseline, Without(front, 1), valid, 1);
      assert NeededAt(baseline, Without(front, 1), valid, 0);
    }
  }

  /** Kept groups stay needed at every step of every run exactly when exchange holds. */
  lemma AlwaysStaysNeededIff(baseline: string, all: seq<Group>, valid: string -> bool)
    requires Compatible(Flatten(all), |baseline|)
    ensures AlwaysStaysNeeded(baseline, all, valid) <==> Exchange(baseline, all, valid)
  {
    if Exchange(baseline, all, valid) {
      forall start: seq<Group> | PartOf(start, all)
        ensures Compatible(Flatten(start), |baseline|)
        ensures !valid(SubRender(baseline, start)) ==> StaysNeeded(baseline, start, valid, 0)
      {
        PartIsOk(baseline, start, all);
        if !valid(SubRender(baseline, start)) {
          ExchangeStays(baseline, all, start, valid, 0);
        }
      }
    }
    if AlwaysStaysNeeded(baseline, all, valid) {
      forall part: seq<Group>, i: nat, k: nat
        | PartOf(part, all) && i < k < |part| && Compatible(Flatten(part), |baseline|)
        ensures ExchangesAt(baseline, part, valid, i, k)
      {
        StaysExchanges(baseline, all, part, valid, i, k);
      }
    }
  }

  predicate Closer(a: Group, b: Group) {
    a.distance < b.distance || (a.distance == b.distance && a.command >= b.command)
  }

  // No group is nearer, and no later one is as near.
  ghost predicate IsClosest(closest: Group, groups: seq<Group>) {
    forall g :: g in groups ==>
      closest.distance <= g.distance && (closest.distance == g.distance ==> g.command <= closest.command)
  }

  /** closestSyntaxEditGroup: nearest span, latest command on ties. */
  method Closest(groups: seq<Group>) returns (closest: Group)
    requires groups != []
    ensures closest in groups && IsClosest(closest, groups)
  {
    closest := groups[0];
    for k := 1 to |groups|
      invariant closest in groups && forall j :: 0 <= j < k ==> Closer(closest, groups[j])
    {
      if !Closer(closest, groups[k]) {
        closest := groups[k];
      }
    }
  }

  /** syntaxFailureLocationWith on the edits of an editor whose rendering is
      invalid: the command named is in a set of commands that alone already
      breaks the source, and that no command can leave when exchange holds. Without
      edits there is no command to name. */
  method Localize(baseline: string, edits: seq<Edit>, offset: int, valid: string -> bool)
    returns (closest: Option<Group>, culprits: seq<Group>, ghost all: seq<Group>)
    requires Compatible(edits, |baseline|) && !valid(Render(baseline, edits))
    ensures all == GroupsOf(edits, |baseline|, offset, |Render(baseline, edits)|)
    ensures Grouped(all, edits) && PartOf(culprits, all)
    ensures Measured(all, Project(edits, |baseline|), offset, |Render(baseline, edits)|)
    ensures closest.None? <==> edits == []
    ensures closest.Some? ==> closest.value in culprits && IsClosest(closest.value, culprits)
    ensures Compatible(Flatten(culprits), |baseline|) && !valid(SubRender(baseline, culprits))
    ensures Searches(baseline, all, valid) && Exchange(baseline, all, valid) ==> OneMinimal(baseline, culprits, valid)
    ensures Searches(baseline, all, valid) ==>
      && FarthestFirst(SortGroups(all)) && Compatible(Flatten(SortGroups(all)), |baseline|)
      && culprits == Eliminated(baseline, SortGroups(all), valid, 0)
    ensures !Searches(baseline, all, valid) ==> culprits == all
  {
    var content := Render(baseline, edits);
    var groups := SyntaxEditGroups(edits, |baseline|, offset, |content|);
    all := groups;
    GroupsRender(baseline, groups, edits);
    if groups == [] {
      return None, [], all;
    }
    GroupsHaveEdits(groups, edits);
    if 1 < |groups| <= GROUP_LIMIT && valid(baseline) {
      SortGroupsKeeps(groups);
      SortGroupsKeepsEdits(groups);
      SortGroupsSorts(groups);
      var sorted := SortGroups(groups);
      GroupsRender(baseline, sorted, edits);
      culprits := Eliminate(baseline, sorted, valid);
      ExchangeSorted(baseline, groups, sorted, valid);
    } else {
      culprits := groups;
    }
    var nearest := Closest(culprits);
    closest := Some(nearest);
  }

  // Whether the elimination loop runs.
  predicate Searches(baseline: string, groups: seq<Group>, valid: string -> bool) {
    1 < |groups| <= GROUP_LIMIT && valid(baseline)
  }

  lemma GroupsRender(baseline: string, groups: seq<Group>, edits: seq<Edit>)
    requires Compatible(edits, |baseline|) && multiset(Flatten(groups)) == multiset(edits)
    ensures Compatible(Flatten(groups), |baseline|) && (edits != [] ==> groups != [])
    ensures SubRender(baseline, groups) == Render(baseline, edits)
  {
    PartIsCompatible(Flatten(groups), edits, |baseline|);
    RenderIgnoresListing(baseline, Flatten(groups), edits);
    assert |multiset(Flatten(groups))| == |multiset(edits)|;
  }

  lemma GroupsHaveEdits(groups: seq<Group>, edits: seq<Edit>)
    requires Grouped(groups, edits) && groups != []
    ensures edits != []
  {
    assert GroupOk(groups[0]);
    assert |multiset(Flatten(groups))| == |multiset(edits)|;
  }

  lemma ExchangeSorted(baseline: string, groups: seq<Group>, sorted: seq<Group>, valid: string -> bool)
    requires multiset(sorted) == multiset(groups)
    ensures Exchange(baseline, groups, valid) ==> Exchange(baseline, sorted, valid)
  {
    assert forall part: seq<Group> :: PartOf(part, sorted) ==> PartOf(part, groups);
  }

  // ---- Without exchange the loop may stop early -----------------------------------

  // One command that inserts one letter into an empty baseline.
  function Letter(letter: char, command: nat, distance: nat): Group {
    Group(command, [Edit(0, 0, [letter], command, command)], distance)
  }

  function Word(groups: seq<Group>): string {
    if groups == [] then ""
    else (if groups[0].edits == [] then "" else groups[0].edits[0].replacement) + Word(groups[1..])
  }

  predicate IsLetter(g: Group) {
    |g.edits| == 1 && g.edits[0] == Edit(0, 0, g.edits[0].replacement, g.command, g.command)
  }

  ghost predicate Letters(groups: seq<Group>) {
    && (forall i :: 0 <= i < |groups| ==> IsLetter(groups[i]))
    && (forall i, j :: 0 <= i < j < |groups| ==> groups[i].command < groups[j].command)
  }

  lemma {:induction false} LettersFlatten(groups: seq<Group>)
    requires Letters(groups)
    ensures |Flatten(groups)| == |groups|
    ensures forall i :: 0 <= i < |groups| ==>
      Flatten(groups)[i] == groups[i].edits[0] && groups[i].edits == [Flatten(groups)[i]]
  {
    if groups != [] {
      LettersFlatten(groups[1..]);
    }
  }

  lemma {:induction false} InsertionsRender(edits: seq<Edit>)
    requires Chained(edits, 0, 0)
    ensures edits == [] ==> RenderFrom("", edits, 0) == ""
    ensures edits != [] ==> RenderFrom("", edits, 0) == edits[0].replacement + RenderFrom("", edits[1..], 0)
  {
  }

  lemma {:induction false} WordFromEdits(groups: seq<Group>)
    requires Letters(groups) && Chained(Flatten(groups), 0, 0)
    ensures RenderFrom("", Flatten(groups), 0) == Word(groups)
  {
    LettersFlatten(groups);
    InsertionsRender(Flatten(groups));
    if groups != [] {
      assert Flatten(groups)[1..] == Flatten(groups[1..]);
      WordFromEdits(groups[1..]);
    }
  }

  lemma LettersOrdered(groups: seq<Group>)
    requires Letters(groups)
    ensures Compatible(Flatten(groups), 0) && Ordered(Flatten(groups)) == Flatten(groups)
  {
    LettersFlatten(groups);
    var edits := Flatten(groups);
    OrderedSorts(edits);
    OrderedKeepsEdits(edits);
    SortedIsUnique(Ordered(edits), edits);
  }

  /** Letters render to their word. */
  lemma LettersRender(groups: seq<Group>)
    requires Letters(groups)
    ensures Compatible(Flatten(groups), 0) && SubRender("", groups) == Word(groups)
  {
    LettersOrdered(groups);
    OrderedIsChained(Flatten(groups), 0);
    WordFromEdits(groups);
  }

  const X: Group := Letter('x', 1, 2)
  const Y: Group := Letter('y', 2, 1)
  const Z: Group := Letter('z', 3, 0)

  // A validity test that is not monotone: "yz" is valid although "z" is not.
  const ODDLY_VALID: string -> bool := text => text == "" || text == "yz" || text == "x"

  lemma LoopStep(groups: seq<Group>, i: nat, word: string, valid: string -> bool)
    requires Letters(groups) && i < |groups| && Word(Without(groups, i)) == word
    ensures Compatible(Flatten(groups), 0) && Compatible(Flatten(Without(groups, i)), 0)
    ensures NeededAt("", groups, valid, i) == valid(word)
    ensures Eliminated("", groups, valid, i)
            == if valid(word) then Eliminated("", groups, valid, i + 1)
               else Eliminated("", Without(groups, i), valid, i)
  {
    LettersRender(groups);
    LettersRender(Without(groups, i));
  }

  lemma Words()
    ensures Letters([X, Y, Z]) && Word([X, Y, Z]) == "xyz" && Word([Y, Z]) == "yz"
    ensures Letters([X, Z]) && Word([X, Z]) == "xz" && Word([X]) == "x" && Word([Z]) == "z"
  {
    assert [X][1..] == [] && [Z][1..] == [];
    assert [X, Z][1..] == [Z] && [Y, Z][1..] == [Z] && [X, Y, Z][1..] == [Y, Z];
    assert Word([Z]) == "z" + Word([]) && Word([X]) == "x" + Word([]);
    assert Word([Y, Z]) == "y" + Word([Z]) == "yz";
    assert Word([X, Y, Z]) == "x" + Word([Y, Z]);
    assert Word([X, Z]) == "x" + Word([Z]);
  }

  lemma FirstTwoSteps()
    ensures Compatible(Flatten([X, Y, Z]), 0) && Compatible(Flatten([X, Z]), 0)
    ensures Eliminated("", [X, Y, Z], ODDLY_VALID, 0) == Eliminated("", [X, Z], ODDLY_VALID, 1)
  {
    Words();
    assert Without([X, Y, Z], 0) == [Y, Z] && Without([X, Y, Z], 1) == [X, Z];
    LoopStep([X, Y, Z], 0, "yz", ODDLY_VALID);
    LoopStep([X, Y, Z], 1, "xz", ODDLY_VALID);
  }

  lemma LastSteps()
    ensures Compatible(Flatten([X, Z]), 0)
    ensures Eliminated("", [X, Z], ODDLY_VALID, 1) == [X, Z] && !NeededAt("", [X, Z], ODDLY_VALID, 0)
  {
    Words();
    assert Without([X, Z], 1) == [X] && Without([X, Z], 0) == [Z];
    LoopStep([X, Z], 1, "x", ODDLY_VALID);
    LoopStep([X, Z], 0, "z", ODDLY_VALID);
  }

  // The three insertions, recorded in one run.
  const INSERTED: seq<Edit> := [Edit(0, 0, "x", 1, 1), Edit(0, 0, "y", 2, 2), Edit(0, 0, "z", 3, 3)]

  lemma InsertedEdits()
    ensures Letters([X, Y, Z]) && Flatten([X, Y, Z]) == INSERTED && Compatible(INSERTED, 0)
    ensures Ordered(INSERTED) == INSERTED
  {
    Words();
    LettersFlatten([X, Y, Z]);
    assert Flatten([X, Y, Z]) == INSERTED;
    LettersOrdered([X, Y, Z]);
  }

  lemma InsertedProjection()
    ensures Compatible(INSERTED, 0)
    ensures Project(INSERTED, 0)
            == [RenderedEdit(INSERTED[0], Span(0, 1)), RenderedEdit(INSERTED[1], Span(1, 2)),
                RenderedEdit(INSERTED[2], Span(2, 3))]
  {
    InsertedEdits();
    OrderedIsChained(INSERTED, 0);
    assert INSERTED[1..] == [INSERTED[1], INSERTED[2]] && INSERTED[1..][1..] == [INSERTED[2]];
    assert ProjectFrom([INSERTED[2]], 0, 2, 0) == [RenderedEdit(INSERTED[2], Span(2, 3))];
    assert ProjectFrom([INSERTED[1], INSERTED[2]], 0, 1, 0)
        == [RenderedEdit(INSERTED[1], Span(1, 2)), RenderedEdit(INSERTED[2], Span(2, 3))];
  }

  // Three edits of different commands make three groups.
  lemma ThreeCollected(edits: seq<Edit>, a: Edit, b: Edit, c: Edit, length: nat)
    requires edits == [a, b, c] && a.command != b.command && a.command != c.command && b.command != c.command
    ensures Collected(edits, length)
            == ([Group(a.command, [a], length), Group(b.command, [b], length), Group(c.command, [c], length)],
                map[a.command := 0, b.command := 1, c.command := 2])
  {
    var one, two := edits[..1], edits[..2];
    assert edits[..|edits| - 1] == two && two[..|two| - 1] == one && one[..|one| - 1] == [];
    var x, y, z := Group(a.command, [a], length), Group(b.command, [b], length), Group(c.command, [c], length);
    var empty: map<nat, nat> := map[];
    assert [] + [x] == [x] && [x] + [y] == [x, y] && [x, y] + [z] == [x, y, z];
    assert empty[a.command := 0] == map[a.command := 0];
    assert map[a.command := 0][b.command := 1] == map[a.command := 0, b.command := 1];
    assert map[a.command := 0, b.command := 1][c.command := 2] == map[a.command := 0, b.command := 1, c.command := 2];
    assert Collected(one, length) == ([x], map[a.command := 0]);
    assert Collected(two, length) == ([x, y], map[a.command := 0, b.command := 1]);
  }

  lemma InsertedCollected()
    ensures Collected(INSERTED, 3)
            == ([X.(distance := 3), Y.(distance := 3), Z.(distance := 3)], map[1 := 0, 2 := 1, 3 := 2])
  {
    ThreeCollected(INSERTED, INSERTED[0], INSERTED[1], INSERTED[2], 3);
  }

  lemma InsertedMarked(indices: map<nat, nat>, p: seq<RenderedEdit>)
    requires indices == map[1 := 0, 2 := 1, 3 := 2]
    requires p == [RenderedEdit(INSERTED[0], Span(0, 1)), RenderedEdit(INSERTED[1], Span(1, 2)),
                   RenderedEdit(INSERTED[2], Span(2, 3))]
    ensures Marked([X.(distance := 3), Y.(distance := 3), Z.(distance := 3)], indices, p, 3) == [X, Y, Z]
  {
    var groups := [X.(distance := 3), Y.(distance := 3), Z.(distance := 3)];
    assert p[..1][..0] == [] && p[..2][..1] == p[..1] && p[..3] == p;
    assert Marked(groups, indices, p[..1], 3) == MarkFor(groups, indices, p[0], 3) == [X, groups[1], groups[2]];
    assert Marked(groups, indices, p[..2], 3) == MarkFor([X, groups[1], groups[2]], indices, p[1], 3)
        == [X, Y, groups[2]];
  }

  /** With the failure behind the last letter the distances are 2, 1 and 0, and the
      elimination looks at x, y and z in this order. */
  lemma InsertedGroups()
    ensures Compatible(INSERTED, 0) && Render("", INSERTED) == "xyz"
    ensures GroupsOf(INSERTED, 0, 3, 3) == [X, Y, Z] && SortGroups([X, Y, Z]) == [X, Y, Z]
  {
    InsertedEdits();
    LettersRender([X, Y, Z]);
    Words();
    InsertedProjection();
    InsertedCollected();
    InsertedMarked(map[1 := 0, 2 := 1, 3 := 2], Project(INSERTED, 0));
    SortThree([X, Y, Z], X, Y, Z);
  }

  lemma SortThree(groups: seq<Group>, a: Group, b: Group, c: Group)
    requires groups == [a, b, c] && FartherFirst(a, b) && FartherFirst(b, c)
    ensures SortGroups(groups) == groups
  {
    assert groups[1..] == [b, c] && [b, c][1..] == [c] && [c][1..] == [];
    assert SortGroups([c]) == [c];
    assert SortGroups([b, c]) == [b, c];
  }

  /** The unconditional claim fails: for x, y, z inserted into an empty baseline, with
      a failure reported at the end, the loop keeps x (since "yz" is valid), drops y,
      keeps z (since "x" is valid), and leaves {x, z} although removing x gives the
      invalid "z". */
  lemma LoopNeedNotBeOneMinimal()
    ensures Compatible(INSERTED, 0) && Render("", INSERTED) == "xyz"
    ensures GroupsOf(INSERTED, 0, 3, 3) == [X, Y, Z] && SortGroups([X, Y, Z]) == [X, Y, Z]
    ensures Searches("", [X, Y, Z], ODDLY_VALID) && !ODDLY_VALID("xyz")
    ensures Compatible(Flatten([X, Y, Z]), 0) && Eliminated("", [X, Y, Z], ODDLY_VALID, 0) == [X, Z]
    ensures Compatible(Flatten([X, Z]), 0) && !OneMinimal("", [X, Z], ODDLY_VALID)
  {
    InsertedGroups();
    OddRun();
  }

  lemma OddRun()
    ensures Compatible(Flatten([X, Y, Z]), 0) && Eliminated("", [X, Y, Z], ODDLY_VALID, 0) == [X, Z]
    ensures Compatible(Flatten([X, Z]), 0) && !OneMinimal("", [X, Z], ODDLY_VALID)
  {
    FirstTwoSteps();
    LastSteps();
  }

  // ---- Exchange is not needed for one run to be one-minimal -----------------------------

  // Valid are the empty word and "yz".
  const PAIR_VALID: string -> bool := text => text == "" || text == "yz"

  lemma PairFirstSteps()
    ensures Compatible(Flatten([X, Y, Z]), 0) && Compatible(Flatten([X, Z]), 0)
    ensures Eliminated("", [X, Y, Z], PAIR_VALID, 0) == Eliminated("", [X, Z], PAIR_VALID, 1)
    ensures NeededAt("", [X, Y, Z], PAIR_VALID, 0) && !NeededAt("", [X, Y, Z], PAIR_VALID, 1)
  {
    Words();
    assert Without([X, Y, Z], 0) == [Y, Z] && Without([X, Y, Z], 1) == [X, Z];
    LoopStep([X, Y, Z], 0, "yz", PAIR_VALID);
    LoopStep([X, Y, Z], 1, "xz", PAIR_VALID);
  }

  lemma PairLastSteps()
    ensures Compatible(Flatten([X, Z]), 0) && Compatible(Flatten([X]), 0)
    ensures Eliminated("", [X, Z], PAIR_VALID, 1) == [X]
    ensures !NeededAt("", [X, Z], PAIR_VALID, 0) && NeededAt("", [X], PAIR_VALID, 0)
  {
    Words();
    assert Without([X, Z], 1) == [X] && Without([X, Z], 0) == [Z] && Without([X], 0) == [];
    LoopStep([X, Z], 1, "x", PAIR_VALID);
    LoopStep([X, Z], 0, "z", PAIR_VALID);
    LoopStep([X], 0, "", PAIR_VALID);
  }

  /** A run can end one-minimal although exchange fails: x is kept while it is needed,
      is not needed once y has gone, and is needed again at the end. */
  lemma OneMinimalWithoutExchange()
    ensures Compatible(Flatten([X, Y, Z]), 0) && PAIR_VALID("") && !PAIR_VALID(SubRender("", [X, Y, Z]))
    ensures Eliminated("", [X, Y, Z], PAIR_VALID, 0) == [X]
    ensures Compatible(Flatten([X]), 0) && OneMinimal("", [X], PAIR_VALID)
    ensures !Exchange("", [X, Y, Z], PAIR_VALID)
  {
    Words();
    LettersRender([X, Y, Z]);
    PairFirstSteps();
    PairLastSteps();
    assert Without([X, Y, Z], 1) == [X, Z];
    assert !ExchangesAt("", [X, Y, Z], PAIR_VALID, 0, 1);
  }
}
