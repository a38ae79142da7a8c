/** The visible-line encoder (internal/router/ctp2.go:938-1100): each output is
    indexed by its adjacent line pairs and its long lines, and a later output may
    copy runs of lines from an earlier one that a locator suffix names uniquely. */
module VisibleLines {
  import opened Texts
  import opened Wrappers
  import opened Ctp2
  import opened Ctp2Lines
  import opened Ctp2Strings

  const LONG_LINE := 128

  datatype Location = Location(source: nat, line: nat)

  datatype Seed = Seed(first: string, second: string)

  // ---- Indexes -----------------------------------------------------------------------

  function Points<K>(index: map<K, seq<Location>>, key: K): seq<Location> {
    if key in index then index[key] else []
  }

  function Add<K>(index: map<K, seq<Location>>, key: K, location: Location): map<K, seq<Location>> {
    index[key := Points(index, key) + [location]]
  }

  predicate Exists(sources: seq<Source>, at: Location) {
    at.source < |sources| && at.line < |sources[at.source].lines|
  }

  // The location holds the two lines of the seed, one after the other.
  predicate HoldsPair(sources: seq<Source>, seed: Seed, at: Location) {
    Exists(sources, at) &&
    var lines := sources[at.source].lines;
    at.line + 1 < |lines| && lines[at.line] == seed.first && lines[at.line + 1] == seed.second
  }

  predicate HoldsLong(sources: seq<Source>, line: string, at: Location) {
    Exists(sources, at) && sources[at.source].lines[at.line] == line && Size(line) >= LONG_LINE
  }

  // Everything up to line `done` of the last source has been indexed.
  predicate Reached(sources: seq<Source>, done: nat, at: Location) {
    at.source + 1 < |sources| || at.line < done
  }

  ghost predicate PairsExact(sources: seq<Source>, done: nat, pairs: map<Seed, seq<Location>>) {
    forall seed, at ::
      at in Points(pairs, seed) <==> (HoldsPair(sources, seed, at) && Reached(sources, done, at))
  }

  ghost predicate LongExact(sources: seq<Source>, done: nat, long: map<string, seq<Location>>) {
    forall line, at ::
      at in Points(long, line) <==> (HoldsLong(sources, line, at) && Reached(sources, done, at))
  }

  function LastLength(sources: seq<Source>): nat {
    if sources == [] then 0 else |sources[|sources| - 1].lines|
  }

  lemma IndexesStayExact(sources: seq<Source>, source: Source, pairs: map<Seed, seq<Location>>, long: map<string,
                         seq<Location>>)
    requires PairsExact(sources, LastLength(sources), pairs) && LongExact(sources, LastLength(sources), long)
    ensures PairsExact(sources + [source], 0, pairs) && LongExact(sources + [source], 0, long)
  {
    var more := sources + [source];
    forall seed, at ensures at in Points(pairs, seed) <==> (HoldsPair(more, seed, at) && Reached(more, 0, at)) {
      assert HoldsPair(sources, seed, at) <==> (HoldsPair(more, seed, at) && at.source < |sources|);
    }
    forall line, at ensures at in Points(long, line) <==> (HoldsLong(more, line, at) && Reached(more, 0, at)) {
      assert HoldsLong(sources, line, at) <==> (HoldsLong(more, line, at) && at.source < |sources|);
    }
  }

  lemma PairsStep(sources: seq<Source>, done: nat, pairs: map<Seed, seq<Location>>)
    requires sources != [] && done < LastLength(sources) && PairsExact(sources, done, pairs)
    ensures var lines := sources[|sources| - 1].lines;
      PairsExact(sources, done + 1,
                 if done + 1 < |lines|
                 then Add(pairs, Seed(lines[done], lines[done + 1]), Location(|sources| - 1, done))
                 else pairs)
  {
    var lines, here := sources[|sources| - 1].lines, Location(|sources| - 1, done);
    var grown := if done + 1 < |lines| then Add(pairs, Seed(lines[done], lines[done + 1]), here) else pairs;
    forall seed, at
      ensures at in Points(grown, seed) <==> (HoldsPair(sources, seed, at) && Reached(sources, done + 1, at))
    {
      assert at in Points(pairs, seed) <==> (HoldsPair(sources, seed, at) && Reached(sources, done, at));
    }
  }

  lemma LongStep(sources: seq<Source>, done: nat, long: map<string, seq<Location>>)
    requires sources != [] && done < LastLength(sources) && LongExact(sources, done, long)
    ensures var line := sources[|sources| - 1].lines[done];
      LongExact(sources, done + 1,
                if Size(line) >= LONG_LINE then Add(long, line, Location(|sources| - 1, done)) else long)
  {
    var text, here := sources[|sources| - 1].lines[done], Location(|sources| - 1, done);
    var grown := if Size(text) >= LONG_LINE then Add(long, text, here) else long;
    forall line, at
      ensures at in Points(grown, line) <==> (HoldsLong(sources, line, at) && Reached(sources, done + 1, at))
    {
      assert at in Points(long, line) <==> (HoldsLong(sources, line, at) && Reached(sources, done, at));
    }
  }

  // ---- Suffixes -------------------------------------------------------------------------

  predicate ValidLocator(locator: string) {
    locator != "" && PlainLocator(locator)
  }

  function Suffix(locator: string, length: nat): string
    requires length <= |locator|
  {
    locator[|locator| - length..]
  }

  predicate Unique(locators: seq<string>, suffix: string) {
    CountSuffix(locators, suffix) == 1
  }

  // The shortest suffix that only one locator has, or none.
  ghost predicate IsShortestUnique(locators: seq<string>, locator: string, suffix: string) {
    if suffix == "" then
      forall length :: 1 <= length <= |locator| ==> !Unique(locators, Suffix(locator, length))
    else
      && |suffix| <= |locator| && suffix == Suffix(locator, |suffix|) && Unique(locators, suffix)
      && forall length :: 1 <= length < |suffix| ==> !Unique(locators, Suffix(locator, length))
  }

  method CountMatches(locators: seq<string>, suffix: string) returns (matches: nat)
    ensures matches == CountSuffix(locators, suffix)
  {
    matches := 0;
    for i := 0 to |locators|
      invariant matches == CountSuffix(locators[..i], suffix)
    {
      assert locators[..i + 1][..i] == locators[..i];
      if HasSuffix(locators[i], suffix) {
        matches := matches + 1;
      }
    }
    assert locators[..|locators|] == locators;
  }

  /** sourceSuffix */
  method ShortestSuffix(locators: seq<string>, locator: string) returns (suffix: string)
    ensures IsShortestUnique(locators, locator, suffix)
  {
    for length := 1 to |locator| + 1
      invariant forall shorter :: 1 <= shorter < length ==> !Unique(locators, Suffix(locator, shorter))
    {
      suffix := Suffix(locator, length);
      var matches := CountMatches(locators, suffix);
      if matches == 1 {
        return;
      }
    }
    suffix := "";
  }

  // ---- What the decoder may hold -------------------------------------------------------------

  // The encoder's sources, possibly with the output being encoded as one more.
  ghost predicate IsView(sources: seq<Source>, locators: seq<string>, view: seq<Source>) {
    |sources| <= |view| <= |locators| && view[..|sources|] == sources && Locators(view) == locators[..|view|]
  }

  ghost predicate Decodes(sources: seq<Source>, locators: seq<string>, operations: string, text: string) {
    forall view ::
      IsView(sources, locators, view) ==> DecodeOperations(view, operations) == Ok(text)
  }

  // Where a view keeps the source, and that it can be named.
  predicate Named(view: seq<Source>, suffix: string, i: nat, lines: seq<string>) {
    && i < |view| && view[i].lines == lines && HasSuffix(view[i].locator, suffix)
    && CountSuffix(Locators(view), suffix) == 1
  }

  lemma UniqueInView(sources: seq<Source>, locators: seq<string>, view: seq<Source>, suffix: string, i: nat)
    requires IsView(sources, locators, view) && i < |sources|
    requires HasSuffix(sources[i].locator, suffix) && Unique(locators, suffix)
    ensures Named(view, suffix, i, sources[i].lines)
  {
    assert view[i] == view[..|sources|][i];
    assert Locators(view)[i] == locators[..|view|][i] == locators[i];
    CountedOnce(locators, suffix, i);
    forall j | 0 <= j < |view| && HasSuffix(Locators(view)[j], suffix) ensures j == i {
      assert Locators(view)[j] == locators[..|view|][j] == locators[j];
    }
    CountedOnce(Locators(view), suffix, i);
  }

  // One operation decodes to the same chunk in every view.
  ghost predicate Yields(sources: seq<Source>, locators: seq<string>, operation: string, chunk: string) {
    && '\n' !in operation
    && forall view ::
      IsView(sources, locators, view) ==> DecodeOperation(view, operation) == Ok(chunk)
  }

  lemma AppendedOperation(sources: seq<Source>, locators: seq<string>, operations: string, text: string,
                          operation: string, chunk: string, longer: string)
    requires Decodes(sources, locators, operations, text) && Yields(sources, locators, operation, chunk)
    requires longer == text + chunk
    ensures Decodes(sources, locators, operations + operation + "\n", longer)
  {
    forall view | IsView(sources, locators, view)
      ensures DecodeOperations(view, operations + operation + "\n") == Ok(longer)
    {
      DecodeAppended(view, operations, text, operation, chunk);
    }
  }

  lemma ReferenceToChunk(view: seq<Source>, suffix: string, source: Source, at: Location, count: nat, chunk: string)
    requires Named(view, suffix, at.source, source.lines) && suffix != "" && PlainLocator(suffix)
    requires count > 0 && at.line + count <= |source.lines|
    requires chunk == Concat(source.lines[at.line..at.line + count])
    ensures DecodeOperation(view, ReferenceOperation(suffix, at.line, count)) == Ok(chunk)
  {
    DecodeReferenceOperation(view, suffix, at.source, at.line, count);
  }

  /** A reference to lines of a source that is named uniquely among all known
      locators decodes to those lines in every view. */
  lemma ReferenceYields(sources: seq<Source>, locators: seq<string>, suffix: string, at: Location, count: nat,
                        chunk: string)
    requires Exists(sources, at) && count > 0 && at.line + count <= |sources[at.source].lines|
    requires suffix != "" && PlainLocator(suffix) && HasSuffix(sources[at.source].locator, suffix)
    requires Unique(locators, suffix)
    requires chunk == Concat(sources[at.source].lines[at.line..at.line + count])
    ensures Yields(sources, locators, ReferenceOperation(suffix, at.line, count), chunk)
  {
    ReferenceOperationIsOneLine(suffix, at.line, count);
    var operation := ReferenceOperation(suffix, at.line, count);
    forall view | IsView(sources, locators, view) ensures DecodeOperation(view, operation) == Ok(chunk) {
      UniqueInView(sources, locators, view, suffix, at.source);
      ReferenceToChunk(view, suffix, sources[at.source], at, count, chunk);
    }
  }

  lemma LiteralYields(sources: seq<Source>, locators: seq<string>, lines: seq<string>)
    ensures Yields(sources, locators, LiteralOperation(lines), Concat(lines))
  {
    DecodeLiteralOperation([], lines);
    forall view | IsView(sources, locators, view)
      ensures DecodeOperation(view, LiteralOperation(lines)) == Ok(Concat(lines))
    {
      DecodeLiteralOperation(view, lines);
    }
  }

  // ---- Operations -------------------------------------------------------------------------

  // One line of an encoding: copied lines of a source, or literal lines.
  datatype Operation = Copy(suffix: string, at: Location, count: nat) | Say(said: seq<string>)

  // The source of a copy is the only one, of all known locators, with the suffix.
  predicate Follows(sources: seq<Source>, locators: seq<string>, op: Operation) {
    op.Copy? ==>
      && Exists(sources, op.at) && op.count > 0 && op.at.line + op.count <= |sources[op.at.source].lines|
      && op.suffix != "" && PlainLocator(op.suffix)
      && HasSuffix(sources[op.at.source].locator, op.suffix) && Unique(locators, op.suffix)
  }

  predicate FollowsAll(sources: seq<Source>, locators: seq<string>, ops: seq<Operation>) {
    forall i :: 0 <= i < |ops| ==> Follows(sources, locators, ops[i])
  }

  function OperationText(op: Operation): string {
    if op.Copy? then ReferenceOperation(op.suffix, op.at.line, op.count) else LiteralOperation(op.said)
  }

  function Render(ops: seq<Operation>): string {
    if ops == [] then "" else Render(ops[..|ops| - 1]) + OperationText(ops[|ops| - 1]) + "\n"
  }

  function LinesOf(sources: seq<Source>, locators: seq<string>, op: Operation): seq<string>
    requires Follows(sources, locators, op)
  {
    if op.Copy? then sources[op.at.source].lines[op.at.line..op.at.line + op.count] else op.said
  }

  function Spelled(sources: seq<Source>, locators: seq<string>, ops: seq<Operation>): seq<string>
    requires FollowsAll(sources, locators, ops)
  {
    if ops == [] then [] else
    Spelled(sources, locators, ops[..|ops| - 1]) + LinesOf(sources, locators, ops[|ops| - 1])
  }

  lemma OperationYields(sources: seq<Source>, locators: seq<string>, op: Operation)
    requires Follows(sources, locators, op)
    ensures Yields(sources, locators, OperationText(op), Concat(LinesOf(sources, locators, op)))
  {
    if op.Copy? {
      ReferenceYields(sources, locators, op.suffix, op.at, op.count, Concat(LinesOf(sources, locators, op)));
    } else {
      LiteralYields(sources, locators, op.said);
    }
  }

  /** Operations whose sources are named uniquely decode to the lines they stand for,
      in every view. */
  lemma {:induction false} RenderDecodes(sources: seq<Source>, locators: seq<string>, ops: seq<Operation>)
    requires FollowsAll(sources, locators, ops)
    ensures Decodes(sources, locators, Render(ops), Concat(Spelled(sources, locators, ops)))
    decreases |ops|
  {
    if ops == [] {
      NothingDecoded(sources, locators);
    } else {
      var front, last := ops[..|ops| - 1], ops[|ops| - 1];
      RenderDecodes(sources, locators, front);
      OperationYields(sources, locators, last);
      var before, chunk := Spelled(sources, locators, front), LinesOf(sources, locators, last);
      ConcatSplit(before, chunk);
      AppendedOperation(sources, locators, Render(front), Concat(before), OperationText(last), Concat(chunk),
        Concat(before + chunk));
    }
  }

  lemma NothingDecoded(sources: seq<Source>, locators: seq<string>)
    ensures Decodes(sources, locators, "", "")
  {
  }

  lemma OneMore(sources: seq<Source>, locators: seq<string>, ops: seq<Operation>, op: Operation)
    requires FollowsAll(sources, locators, ops) && Follows(sources, locators, op)
    ensures FollowsAll(sources, locators, ops + [op])
    ensures Render(ops + [op]) == Render(ops) + OperationText(op) + "\n"
    ensures Spelled(sources, locators, ops + [op]) == Spelled(sources, locators, ops) + LinesOf(sources, locators, op)
  {
    assert (ops + [op])[..|ops|] == ops;
  }

  // ---- Matching runs ----------------------------------------------------------------------

  // How many lines from here on are the same in both.
  function Run(lines: seq<string>, index: nat, other: seq<string>, line: nat): (count: nat)
    requires index <= |lines| && line <= |other|
    ensures index + count <= |lines| && line + count <= |other|
    decreases |lines| - index
  {
    if index < |lines| && line < |other| && lines[index] == other[line] then 1 + Run(lines, index + 1, other, line + 1)
    else 0
  }

  /** A run holds equal lines and stops only where they differ or one text ends. */
  lemma {:induction false} RunIsEqual(lines: seq<string>, index: nat, other: seq<string>, line: nat)
    requires index <= |lines| && line <= |other|
    ensures var count := Run(lines, index, other, line);
      && lines[index..index + count] == other[line..line + count]
      && (index + count < |lines| && line + count < |other| ==> lines[index + count] != other[line + count])
    decreases |lines| - index
  {
    var count := Run(lines, index, other, line);
    if count > 0 {
      RunIsEqual(lines, index + 1, other, line + 1);
      assert lines[index..index + count] == [lines[index]] + lines[index + 1..index + count];
      assert other[line..line + count] == [other[line]] + other[line + 1..line + count];
    }
  }

  method CountRun(lines: seq<string>, index: nat, other: seq<string>, line: nat) returns (count: nat)
    requires index <= |lines| && line <= |other|
    ensures count == Run(lines, index, other, line)
  {
    count := 0;
    while index + count < |lines| && line + count < |other| && lines[index + count] == other[line + count]
      invariant index + count <= |lines| && line + count <= |other|
      invariant Run(lines, index, other, line) == count + Run(lines, index + count, other, line + count)
    {
      count := count + 1;
    }
  }

  // A location worth trying: two equal lines in a row, or one long one.
  predicate IsCandidate(sources: seq<Source>, lines: seq<string>, index: nat, at: Location)
    requires index < |lines|
  {
    || (index + 1 < |lines| && HoldsPair(sources, Seed(lines[index], lines[index + 1]), at))
    || HoldsLong(sources, lines[index], at)
  }

  datatype Found = Found(at: Location, count: nat, suffix: string)

  ghost predicate IsNameable(locators: seq<string>, locator: string) {
    exists length :: 1 <= length <= |locator| && Unique(locators, Suffix(locator, length))
  }

  // A match the decoder can follow.
  ghost predicate IsSound(sources: seq<Source>, locators: seq<string>, lines: seq<string>, index: nat, found: Found) {
    && Exists(sources, found.at) && index < |lines|
    && found.count == Run(lines, index, sources[found.at.source].lines, found.at.line)
    && found.suffix != "" && IsShortestUnique(locators, sources[found.at.source].locator, found.suffix)
  }

  ghost predicate IsLongest(sources: seq<Source>, locators: seq<string>, lines: seq<string>, index: nat, count: nat,
                            at: Location)
    requires index < |lines|
  {
    Exists(sources, at) && IsNameable(locators, sources[at.source].locator)
    ==> Run(lines, index, sources[at.source].lines, at.line) <= count
  }

  // The best of the candidates tried, or a count of zero.
  ghost predicate Best(sources: seq<Source>, locators: seq<string>, lines: seq<string>, index: nat,
                       tried: seq<Location>, best: Found)
    requires index < |lines|
  {
    && (best.count > 0 ==> IsSound(sources, locators, lines, index, best))
    && (forall at :: at in tried ==> IsLongest(sources, locators, lines, index, best.count, at))
  }

  lemma ShortestNames(locators: seq<string>, locator: string, suffix: string)
    requires IsShortestUnique(locators, locator, suffix)
    ensures suffix != "" ==> HasSuffix(locator, suffix) && Unique(locators, suffix)
    ensures suffix == "" <==> !IsNameable(locators, locator)
  {
    if suffix != "" {
      assert Unique(locators, Suffix(locator, |suffix|));
    }
  }

  lemma PlainSuffix(locator: string, suffix: string)
    requires PlainLocator(locator) && HasSuffix(locator, suffix)
    ensures PlainLocator(suffix)
  {
    forall c | c in suffix ensures c in locator {
      var i :| 0 <= i < |suffix| && suffix[i] == c;
      assert locator[|locator| - |suffix| + i] == c;
    }
  }

  // ---- The encoder ---------------------------------------------------------------------------

  ghost predicate PlainSources(sources: seq<Source>) {
    forall i :: 0 <= i < |sources| ==> ValidLocator(sources[i].locator)
  }

  lemma LocatorsGrow(sources: seq<Source>, source: Source)
    ensures Locators(sources + [source]) == Locators(sources) + [source.locator]
  {
  }

  lemma ViewsOf(sources: seq<Source>, source: Source)
    ensures IsView(sources, Locators(sources), sources)
    ensures IsView(sources, Locators(sources) + [source.locator], sources)
    ensures IsView(sources, Locators(sources) + [source.locator], sources + [source])
  {
    LocatorsGrow(sources, source);
  }

  // The operations written so far stand for the first lines.
  ghost predicate Covers(sources: seq<Source>, locators: seq<string>, ops: seq<Operation>, lines: seq<string>,
                         done: nat) {
    done <= |lines| && FollowsAll(sources, locators, ops) && Spelled(sources, locators, ops) == lines[..done]
  }

  function WithSaid(ops: seq<Operation>, lines: seq<string>): seq<Operation> {
    if lines == [] then ops else ops + [Say(lines)]
  }

  /** writeCTP2VisibleLiteral */
  function WithLiteral(operations: string, lines: seq<string>): string {
    if lines == [] then operations else operations + LiteralOperation(lines) + "\n"
  }

  lemma CoverLiteral(sources: seq<Source>, locators: seq<string>, ops: seq<Operation>, lines: seq<string>, done: nat,
                     index: nat)
    requires Covers(sources, locators, ops, lines, done) && done <= index <= |lines|
    ensures Covers(sources, locators, WithSaid(ops, lines[done..index]), lines, index)
    ensures Render(WithSaid(ops, lines[done..index])) == WithLiteral(Render(ops), lines[done..index])
  {
    assert lines[..done] + lines[done..index] == lines[..index];
    if done < index {
      OneMore(sources, locators, ops, Say(lines[done..index]));
    }
  }

  // A sound match can be followed, and stands for the lines that come next.
  lemma SoundCopy(sources: seq<Source>, locators: seq<string>, lines: seq<string>, index: nat, found: Found)
    requires PlainSources(sources) && found.count > 0 && IsSound(sources, locators, lines, index, found)
    ensures index + found.count <= |lines| && Follows(sources, locators, AsCopy(found))
    ensures lines[..index] + LinesOf(sources, locators, AsCopy(found)) == lines[..index + found.count]
  {
    var source := sources[found.at.source];
    ShortestNames(locators, source.locator, found.suffix);
    PlainSuffix(source.locator, found.suffix);
    RunIsEqual(lines, index, source.lines, found.at.line);
    assert lines[..index] + lines[index..index + found.count] == lines[..index + found.count];
  }

  lemma CoverReference(sources: seq<Source>, locators: seq<string>, ops: seq<Operation>, lines: seq<string>,
                       index: nat, found: Found)
    requires Covers(sources, locators, ops, lines, index) && PlainSources(sources)
    requires found.count > 0 && IsSound(sources, locators, lines, index, found)
    ensures Covers(sources, locators, ops + [AsCopy(found)], lines, index + found.count)
    ensures Render(ops + [AsCopy(found)]) == Render(ops) + OperationText(AsCopy(found)) + "\n"
  {
    SoundCopy(sources, locators, lines, index, found);
    OneMore(sources, locators, ops, AsCopy(found));
  }

  function AsCopy(found: Found): Operation {
    Copy(found.suffix, found.at, found.count)
  }

  function WithReference(found: Found): string {
    ReferenceOperation(found.suffix, found.at.line, found.count) + "\n"
  }

  lemma CoverLast(sources: seq<Source>, locators: seq<string>, ops: seq<Operation>, lines: seq<string>, done: nat)
    requires Covers(sources, locators, ops, lines, done)
    ensures Decodes(sources, locators, WithLiteral(Render(ops), lines[done..]), Concat(lines))
    ensures ops != [] ==> WithLiteral(Render(ops), lines[done..]) != ""
  {
    CoverLiteral(sources, locators, ops, lines, done, |lines|);
    assert lines[done..|lines|] == lines[done..] && lines[..|lines|] == lines;
    RenderDecodes(sources, locators, WithSaid(ops, lines[done..]));
  }

  // ---- The greedy cover ------------------------------------------------------------------------

  /** visibleReferenceProfitable: fewer tokens than the same lines as a literal;
      none when a count fails. */
  function Profitable(count: Counter, reference: string, lines: seq<string>): Option<bool> {
    var asReference := count(VISIBLE_LINES_TAG + reference);
    var asLiteral := count(VISIBLE_LINES_TAG + WithLiteral("", lines));
    if asReference.None? || asLiteral.None? then None else Some(asReference.value < asLiteral.value)
  }

  lemma LiteralAlone(lines: seq<string>)
    requires lines != []
    ensures WithLiteral("", lines) == LiteralOperation(lines) + "\n"
  {
    assert "" + LiteralOperation(lines) == LiteralOperation(lines);
  }

  // The longest match at a line, or a count of zero.
  ghost predicate IsLongestMatch(sources: seq<Source>, locators: seq<string>, lines: seq<string>, index: nat,
                                 found: Found)
    requires index < |lines|
  {
    && (found.count > 0 ==> IsSound(sources, locators, lines, index, found))
    && (forall at :: IsCandidate(sources, lines, index, at) ==>
          IsLongest(sources, locators, lines, index, found.count, at))
  }

  // A match is taken exactly when it saves tokens.
  ghost predicate Decides(sources: seq<Source>, locators: seq<string>, count: Counter, lines: seq<string>, index: nat,
                          found: Found, failed: bool, choice: Option<Found>)
    requires index < |lines|
  {
    && IsLongestMatch(sources, locators, lines, index, found)
    && if found.count == 0 || index + found.count > |lines| then !failed && choice.None?
       else
         var asReference := count(VISIBLE_LINES_TAG + WithReference(found));
         var asLiteral := count(VISIBLE_LINES_TAG + (LiteralOperation(lines[index..index + found.count]) + "\n"));
         && (failed <==> asReference.None? || asLiteral.None?)
         && choice == if !failed && asReference.value < asLiteral.value then Some(found) else None
  }

  ghost predicate Chooses(sources: seq<Source>, locators: seq<string>, count: Counter, lines: seq<string>,
                          index: nat, failed: bool, choice: Option<Found>)
    requires index < |lines|
  {
    exists found :: Decides(sources, locators, count, lines, index, found, failed, choice)
  }

  // A reference and the line where it stands.
  datatype Pick = Pick(index: nat, found: Found)

  function EndOf(picks: seq<Pick>): nat {
    if picks == [] then 0 else picks[|picks| - 1].index + picks[|picks| - 1].found.count
  }

  // No reference pays off at these lines.
  ghost predicate NonePays(sources: seq<Source>, locators: seq<string>, count: Counter, lines: seq<string>,
                           from: nat, to: nat)
    requires to <= |lines|
  {
    forall i: nat :: from <= i < to ==> Chooses(sources, locators, count, lines, i, false, None)
  }

  /** The greedy cover of the first lines: wherever no reference has taken the line
      already, the longest nameable match is taken exactly when it saves tokens. */
  ghost predicate Greedy(sources: seq<Source>, locators: seq<string>, count: Counter, lines: seq<string>,
                         picks: seq<Pick>, done: nat)
    decreases |picks|
  {
    && EndOf(picks) <= done <= |lines|
    && NonePays(sources, locators, count, lines, EndOf(picks), done)
    && (picks != [] ==>
          var pick := picks[|picks| - 1];
          && pick.found.count > 0
          && Chooses(sources, locators, count, lines, pick.index, false, Some(pick.found))
          && Greedy(sources, locators, count, lines, picks[..|picks| - 1], pick.index))
  }

  ghost predicate IsCover(sources: seq<Source>, locators: seq<string>, count: Counter, lines: seq<string>,
                          picks: seq<Pick>) {
    Greedy(sources, locators, count, lines, picks, |lines|)
  }

  // A count failed where the cover would have gone on.
  ghost predicate CoverFails(sources: seq<Source>, locators: seq<string>, count: Counter, lines: seq<string>,
                             picks: seq<Pick>) {
    exists i: nat :: i < |lines| && Greedy(sources, locators, count, lines, picks, i)
      && Chooses(sources, locators, count, lines, i, true, None)
  }

  predicate InBounds(lines: seq<string>, picks: seq<Pick>) {
    picks != [] ==>
      && EndOf(picks[..|picks| - 1]) <= picks[|picks| - 1].index && EndOf(picks) <= |lines|
      && InBounds(lines, picks[..|picks| - 1])
  }

  // What is written up to the last reference: literals for the lines between references.
  function WrittenTo(lines: seq<string>, picks: seq<Pick>): string
    requires InBounds(lines, picks)
  {
    if picks == [] then "" else
    var front, pick := picks[..|picks| - 1], picks[|picks| - 1];
    WithLiteral(WrittenTo(lines, front), lines[EndOf(front)..pick.index]) + WithReference(pick.found)
  }

  function Written(lines: seq<string>, picks: seq<Pick>): string
    requires InBounds(lines, picks) && EndOf(picks) <= |lines|
  {
    WithLiteral(WrittenTo(lines, picks), lines[EndOf(picks)..])
  }

  lemma {:induction false} GreedyIsInBounds(sources: seq<Source>, locators: seq<string>, count: Counter,
                                            lines: seq<string>, picks: seq<Pick>, done: nat)
    requires Greedy(sources, locators, count, lines, picks, done)
    ensures InBounds(lines, picks) && EndOf(picks) <= |lines|
    decreases |picks|
  {
    if picks != [] {
      GreedyIsInBounds(sources, locators, count, lines, picks[..|picks| - 1], picks[|picks| - 1].index);
    }
  }

  // Where the encoder stands: the operations so far write the greedy cover of the first
  // `index` lines, literals being held back since the last reference.
  datatype Progress = Progress(operations: string, literalStart: nat, index: nat, references: nat)

  ghost predicate Underway(sources: seq<Source>, locators: seq<string>, count: Counter, lines: seq<string>,
                           ops: seq<Operation>, picks: seq<Pick>, p: Progress) {
    && p.literalStart <= p.index <= |lines| && (picks != [] ==> ops != [])
    && Covers(sources, locators, ops, lines, p.literalStart) && p.operations == Render(ops)
    && Picked(sources, locators, count, lines, picks, p)
  }

  ghost predicate Picked(sources: seq<Source>, locators: seq<string>, count: Counter, lines: seq<string>,
                         picks: seq<Pick>, p: Progress) {
    && Greedy(sources, locators, count, lines, picks, p.index) && InBounds(lines, picks)
    && p.literalStart == EndOf(picks) && p.references == |picks| && p.operations == WrittenTo(lines, picks)
  }

  lemma StartUnderway(sources: seq<Source>, locators: seq<string>, count: Counter, lines: seq<string>)
    ensures Underway(sources, locators, count, lines, [], [], Progress("", 0, 0, 0))
  {
  }

  lemma SkipUnderway(sources: seq<Source>, locators: seq<string>, count: Counter, lines: seq<string>,
                     ops: seq<Operation>, picks: seq<Pick>, p: Progress)
    requires Underway(sources, locators, count, lines, ops, picks, p) && p.index < |lines|
    requires Chooses(sources, locators, count, lines, p.index, false, None)
    ensures Underway(sources, locators, count, lines, ops, picks, p.(index := p.index + 1))
  {
    NonePaysOneMore(sources, locators, count, lines, p.literalStart, p.index);
  }

  lemma NonePaysOneMore(sources: seq<Source>, locators: seq<string>, count: Counter, lines: seq<string>,
                        from: nat, to: nat)
    requires to < |lines| && NonePays(sources, locators, count, lines, from, to)
    requires Chooses(sources, locators, count, lines, to, false, None)
    ensures NonePays(sources, locators, count, lines, from, to + 1)
  {
  }

  function Taken(lines: seq<string>, p: Progress, found: Found): Progress
    requires p.literalStart <= p.index <= |lines|
  {
    Progress(WithLiteral(p.operations, lines[p.literalStart..p.index]) + WithReference(found),
             p.index + found.count, p.index + found.count, p.references + 1)
  }

  lemma TakeUnderway(sources: seq<Source>, locators: seq<string>, count: Counter, lines: seq<string>,
                     ops: seq<Operation>, picks: seq<Pick>, p: Progress, found: Found)
    returns (more: seq<Operation>)
    requires Underway(sources, locators, count, lines, ops, picks, p) && p.index < |lines| && PlainSources(sources)
    requires found.count > 0 && IsSound(sources, locators, lines, p.index, found)
    requires Chooses(sources, locators, count, lines, p.index, false, Some(found))
    ensures Underway(sources, locators, count, lines, more, picks + [Pick(p.index, found)], Taken(lines, p, found))
  {
    more := TakeWritten(sources, locators, ops, lines, p, found);
    TakePicked(sources, locators, count, lines, picks, p, found);
  }

  // A literal for the lines since the last reference, then the reference found.
  lemma TakeWritten(sources: seq<Source>, locators: seq<string>, ops: seq<Operation>, lines: seq<string>, p: Progress,
                    found: Found)
    returns (more: seq<Operation>)
    requires p.literalStart <= p.index <= |lines| && PlainSources(sources)
    requires Covers(sources, locators, ops, lines, p.literalStart) && p.operations == Render(ops)
    requires found.count > 0 && IsSound(sources, locators, lines, p.index, found)
    ensures more != [] && p.index + found.count <= |lines|
    ensures Covers(sources, locators, more, lines, Taken(lines, p, found).literalStart)
    ensures Taken(lines, p, found).operations == Render(more)
  {
    CoverLiteral(sources, locators, ops, lines, p.literalStart, p.index);
    var said := WithSaid(ops, lines[p.literalStart..p.index]);
    CoverReference(sources, locators, said, lines, p.index, found);
    more := said + [AsCopy(found)];
    CopyIsReference(Render(said), found);
  }

  lemma CopyIsReference(before: string, found: Found)
    ensures before + OperationText(AsCopy(found)) + "\n" == before + WithReference(found)
  {
  }

  lemma TakePicked(sources: seq<Source>, locators: seq<string>, count: Counter, lines: seq<string>,
                   picks: seq<Pick>, p: Progress, found: Found)
    requires Picked(sources, locators, count, lines, picks, p)
    requires p.literalStart <= p.index < |lines| && found.count > 0 && p.index + found.count <= |lines|
    requires Chooses(sources, locators, count, lines, p.index, false, Some(found))
    ensures Picked(sources, locators, count, lines, picks + [Pick(p.index, found)], Taken(lines, p, found))
  {
    var more := picks + [Pick(p.index, found)];
    assert more[..|more| - 1] == picks;
  }

  lemma EndUnderway(sources: seq<Source>, locators: seq<string>, count: Counter, lines: seq<string>,
                    ops: seq<Operation>, picks: seq<Pick>, p: Progress)
    requires Underway(sources, locators, count, lines, ops, picks, p) && p.index == |lines|
    ensures IsCover(sources, locators, count, lines, picks) && InBounds(lines, picks) && EndOf(picks) <= |lines|
    ensures var operations := WithLiteral(p.operations, lines[p.literalStart..]);
      && operations == Written(lines, picks) && Decodes(sources, locators, operations, Concat(lines))
      && (picks != [] ==> operations != "")
  {
    CoverLast(sources, locators, ops, lines, p.literalStart);
  }

  lemma FailUnderway(sources: seq<Source>, locators: seq<string>, count: Counter, lines: seq<string>,
                     ops: seq<Operation>, picks: seq<Pick>, p: Progress)
    requires Underway(sources, locators, count, lines, ops, picks, p) && p.index < |lines|
    requires Chooses(sources, locators, count, lines, p.index, true, None)
    ensures CoverFails(sources, locators, count, lines, picks)
  {
  }

  class VisibleLineEncoder {
    const count: Counter
    const limit: nat
    var sources: seq<Source>
    var locators: seq<string>
    var pairs: map<Seed, seq<Location>>
    var long: map<string, seq<Location>>

    // The indexes point exactly at the lines that match.
    ghost predicate Indexed()
      reads this
    {
      && PlainSources(sources)
      && PairsExact(sources, LastLength(sources), pairs)
      && LongExact(sources, LastLength(sources), long)
    }

    ghost predicate Valid()
      reads this
    {
      Indexed() && locators == Locators(sources)
    }

    // While one output is being encoded its own locator may already be known.
    ghost predicate Encoding()
      reads this
    {
      && Indexed()
      && |sources| <= |locators| && locators[..|sources|] == Locators(sources)
    }

    constructor (count: Counter, limit: nat)
      ensures Valid() && sources == [] && this.count == count && this.limit == limit
    {
      this.count, this.limit := count, limit;
      sources, locators, pairs, long := [], [], map[], map[];
    }

    /** addSource: afterwards the indexes hold every pair and long line of the new
        source and nothing else new. */
    method AddSource(locator: string, lines: seq<string>)
      requires Indexed() && ValidLocator(locator)
      modifies this`sources, this`pairs, this`long
      ensures Indexed() && sources == old(sources) + [Source(locator, lines)]
    {
      IndexesStayExact(sources, Source(locator, lines), pairs, long);
      sources := sources + [Source(locator, lines)];
      for index := 0 to |lines|
        invariant sources == old(sources) + [Source(locator, lines)]
        invariant PairsExact(sources, index, pairs) && LongExact(sources, index, long)
      {
        AddLine(lines, index);
      }
    }

    // One line of the newest source enters the indexes.
    method AddLine(lines: seq<string>, index: nat)
      requires sources != [] && lines == sources[|sources| - 1].lines && index < |lines|
      requires PairsExact(sources, index, pairs) && LongExact(sources, index, long)
      modifies this`pairs, this`long
      ensures PairsExact(sources, index + 1, pairs) && LongExact(sources, index + 1, long)
    {
      PairsStep(sources, index, pairs);
      LongStep(sources, index, long);
      if index + 1 < |lines| {
        pairs := Add(pairs, Seed(lines[index], lines[index + 1]), Location(|sources| - 1, index));
      }
      if Size(lines[index]) >= LONG_LINE {
        long := Add(long, lines[index], Location(|sources| - 1, index));
      }
    }

    // The candidates are exactly the locations that match by two lines or one long one.
    method Candidates(lines: seq<string>, index: nat) returns (candidates: seq<Location>)
      requires Indexed() && index < |lines|
      ensures forall at :: at in candidates <==> IsCandidate(sources, lines, index, at)
    {
      candidates := [];
      if index + 1 < |lines| {
        candidates := Points(pairs, Seed(lines[index], lines[index + 1]));
      }
      if Size(lines[index]) >= LONG_LINE {
        candidates := candidates + Points(long, lines[index]);
      }
      ReachedAll(sources);
    }

    /** longestMatch: of all earlier lines that start a match and whose source can be
        named, the longest run. */
    method LongestMatch(lines: seq<string>, index: nat) returns (best: Found)
      requires Encoding() && index < |lines|
      ensures IsLongestMatch(sources, locators, lines, index, best)
    {
      var candidates := Candidates(lines, index);
      best := Found(Location(0, 0), 0, "");
      for i := 0 to |candidates|
        invariant Best(sources, locators, lines, index, candidates[..i], best)
      {
        assert candidates[i] in candidates;
        assert candidates[..i + 1] == candidates[..i] + [candidates[i]];
        best := Try(lines, index, candidates[..i], candidates[i], best);
      }
      assert candidates[..|candidates|] == candidates;
    }

    method Try(lines: seq<string>, index: nat, ghost tried: seq<Location>, at: Location,
               best: Found) returns (better: Found)
      requires Encoding() && index < |lines| && Exists(sources, at)
      requires Best(sources, locators, lines, index, tried, best)
      ensures Best(sources, locators, lines, index, tried + [at], better)
    {
      var locator := sources[at.source].locator;
      var suffix := ShortestSuffix(locators, locator);
      ShortestNames(locators, locator, suffix);
      better := best;
      if suffix != "" {
        var run := CountRun(lines, index, sources[at.source].lines, at.line);
        if run > best.count {
          better := Found(at, run, suffix);
        }
      }
    }

    /** The longest match at a line, if writing it as a reference pays off. */
    method Choose(lines: seq<string>, index: nat) returns (failed: bool, choice: Option<Found>)
      requires Encoding() && index < |lines|
      ensures choice.Some? ==> choice.value.count > 0 && IsSound(sources, locators, lines, index, choice.value)
      ensures Chooses(sources, locators, count, lines, index, failed, choice) && (failed ==> choice.None?)
    {
      var found := LongestMatch(lines, index);
      if found.count == 0 {
        failed, choice := false, None;
      } else {
        assert index + found.count <= |lines|;
        var profitable := Profitable(count, WithReference(found), lines[index..index + found.count]);
        LiteralAlone(lines[index..index + found.count]);
        failed := profitable.None?;
        choice := if profitable == Some(true) then Some(found) else None;
      }
      assert Decides(sources, locators, count, lines, index, found, failed, choice);
    }

    /** encode: the references are the greedy cover of the lines, everything between
        them is literal, and the operations decode to the lines against the sources,
        with or without the output itself among them. */
    method EncodeLines(lines: seq<string>)
        returns (failed: bool, operations: string, references: nat, ghost picks: seq<Pick>)
      requires Encoding()
      ensures Covered(lines, failed, operations, references, picks)
    {
      var literalStart: nat, index: nat := 0, 0;
      failed, operations, references := false, "", 0;
      ghost var ops: seq<Operation> := [];
      picks := [];
      StartUnderway(sources, locators, count, lines);
      while index < |lines|
        invariant Underway(sources, locators, count, lines, ops, picks,
                           Progress(operations, literalStart, index, references))
      {
        ghost var p := Progress(operations, literalStart, index, references);
        var choice;
        failed, choice := Choose(lines, index);
        if failed {
          FailUnderway(sources, locators, count, lines, ops, picks, p);
          return;
        }
        if choice.None? {
          SkipUnderway(sources, locators, count, lines, ops, picks, p);
          index := index + 1;
        } else {
          var found := choice.value;
          ops := TakeUnderway(sources, locators, count, lines, ops, picks, p, found);
          operations := WithLiteral(operations, lines[literalStart..index]) + WithReference(found);
          picks := picks + [Pick(index, found)];
          index := index + found.count;
          literalStart := index;
          references := references + 1;
        }
      }
      EndUnderway(sources, locators, count, lines, ops, picks, Progress(operations, literalStart, index, references));
      operations := WithLiteral(operations, lines[literalStart..]);
    }

    ghost predicate Covered(lines: seq<string>, failed: bool, operations: string, references: nat, picks: seq<Pick>)
      reads this
    {
      if failed then CoverFails(sources, locators, count, lines, picks)
      else
        && IsCover(sources, locators, count, lines, picks) && InBounds(lines, picks) && EndOf(picks) <= |lines|
        && operations == Written(lines, picks) && references == |picks|
        && Decodes(sources, locators, operations, Concat(lines)) && (picks != [] ==> operations != "")
    }

    /** encodeString: the answer is the local text, or the operations of the greedy cover
        when these have fewer tokens; it decodes to the value against the sources known
        before and against those known after. The output becomes one of them even when
        encoding fails. */
    method EncodeString(locator: string, value: string, candidates: Option<seq<string>>)
        returns (result: Result<string, EncodeError>, ghost local: Result<Local, EncodeError>, ghost picks: seq<Pick>)
      requires Valid()
      modifies this
      ensures Valid()
      ensures sources
              == if ValidLocator(locator) then old(sources) + [Source(locator, SplitLines(value))] else old(sources)
      ensures Answer(result, old(sources), value, count, limit)
      ensures Answer(result, sources, value, count, limit)
      ensures LocalContract(local, value, candidates, count, limit)
      ensures Encodes(old(sources), Locators(old(sources)) + if ValidLocator(locator) then [locator] else [],
                      count, limit, SplitLines(value), value, local, picks, result)
    {
      var lines := SplitLines(value);
      if ValidLocator(locator) {
        locators := locators + [locator];
      }
      result, local, picks := EncodeFor(locator, lines, value, candidates);
      if ValidLocator(locator) {
        LocatorsGrow(sources, Source(locator, lines));
        AddSource(locator, lines);
      }
    }

    // Its locator, if valid, is the last one known; its lines are not.
    method EncodeFor(locator: string, lines: seq<string>, value: string, candidates: Option<seq<string>>)
        returns (result: Result<string, EncodeError>, ghost local: Result<Local, EncodeError>, ghost picks: seq<Pick>)
      requires Indexed() && lines == SplitLines(value)
      requires locators == Locators(sources) + if ValidLocator(locator) then [locator] else []
      ensures Answer(result, sources, value, count, limit)
      ensures ValidLocator(locator) ==> Answer(result, sources + [Source(locator, lines)], value, count, limit)
      ensures LocalContract(local, value, candidates, count, limit)
      ensures Encodes(sources, locators, count, limit, lines, value, local, picks, result)
    {
      SplitLinesSpell(value);
      ViewsOf(sources, Source(locator, lines));
      assert ValidLocator(locator) ==> locators[..|sources|] == Locators(sources);
      result, local, picks := EncodeWith(lines, value, candidates);
    }

    // The body of encodeString between the two updates.
    method EncodeWith(lines: seq<string>, value: string, candidates: Option<seq<string>>)
        returns (result: Result<string, EncodeError>, ghost local: Result<Local, EncodeError>, ghost picks: seq<Pick>)
      requires Encoding() && Concat(lines) == value
      ensures AnswerInViews(result, sources, locators, value, count, limit)
      ensures LocalContract(local, value, candidates, count, limit)
      ensures Encodes(sources, locators, count, limit, lines, value, local, picks, result)
    {
      var least := EncodeContentLocal(value, candidates, count, limit);
      local, picks := least, [];
      if least.Err? {
        return Err(least.error), local, picks;
      }
      LocalIsNoDearer(least, value, candidates, count, limit);
      var fallback: Result<string, EncodeError> := Ok(least.value.text);
      var failed, operations, references;
      failed, operations, references, picks := EncodeLines(lines);
      if failed {
        return Err(CountFailed), local, picks;
      }
      if references == 0 {
        return fallback, local, picks;
      }
      var visible := VISIBLE_LINES_TAG + operations;
      var tokens := count(visible);
      if tokens.None? {
        return Err(CountFailed), local, picks;
      }
      if tokens.value >= least.value.tokens {
        return fallback, local, picks;
      }
      VisibleText(sources, locators, operations, value);
      result := ConfirmVisible(visible, value);
    }

    // The check before a visible-line text is returned: it can only fail on the limit.
    method ConfirmVisible(visible: string, value: string) returns (result: Result<string, EncodeError>)
      requires HasPrefix(visible, VISIBLE_LINES_TAG) && DecodeVisible(sources, visible) == Ok(value)
      ensures result == Ok(visible) || (result.Err? && result.error.Undecodable? && Size(value) > limit)
    {
      var decoded := DecodeVisibleLines(sources, visible, limit);
      if decoded.Err? {
        return Err(Undecodable(decoded.error));
      }
      if decoded.value != value {
        return Err(ChangedText);
      }
      result := Ok(visible);
    }
  }

  /** What one encoding answers: of the local text and the text of the greedy cover, if
      that has a reference, the one with fewer tokens, the local one on a tie. */
  ghost predicate Encodes(sources: seq<Source>, locators: seq<string>, count: Counter, limit: nat, lines: seq<string>,
                          value: string, local: Result<Local, EncodeError>, picks: seq<Pick>,
                          result: Result<string, EncodeError>) {
    if local.Err? then result == Err(local.error)
    else if CoverFails(sources, locators, count, lines, picks) && result == Err(CountFailed) then true
    else
      && IsCover(sources, locators, count, lines, picks) && InBounds(lines, picks) && EndOf(picks) <= |lines|
      && if picks == [] then result == Ok(local.value.text)
         else IsLeast(local.value, VISIBLE_LINES_TAG + Written(lines, picks), count, Size(value) > limit, result)
  }

  predicate IsLeast(local: Local, visible: string, count: Counter, tooLarge: bool,
                    result: Result<string, EncodeError>) {
    if count(visible).None? then result == Err(CountFailed)
    else if count(visible).value >= local.tokens then result == Ok(local.text)
    else result == Ok(visible) || (tooLarge && result.Err? && result.error.Undecodable?)
  }

  // What one encoding promises about decoding against given sources.
  predicate Answer(result: Result<string, EncodeError>, view: seq<Source>, value: string, count: Counter, limit: nat) {
    if result.Ok? then
      && DecodeText(view, result.value) == Ok(value)
      && count(result.value).Some? && count(EncodeLiteral(value)).Some?
      && count(result.value).value <= count(EncodeLiteral(value)).value
    else
      result.error.CountFailed? || (result.error.Undecodable? && Size(value) > limit)
  }

  ghost predicate AnswerInViews(result: Result<string, EncodeError>, sources: seq<Source>, locators: seq<string>,
                                value: string, count: Counter, limit: nat) {
    forall view ::
      IsView(sources, locators, view) ==> Answer(result, view, value, count, limit)
  }

  /** A visible-line text is told apart by its tag and decodes in every view. */
  lemma VisibleText(sources: seq<Source>, locators: seq<string>, operations: string, value: string)
    requires Decodes(sources, locators, operations, value) && operations != ""
    ensures var text := VISIBLE_LINES_TAG + operations;
      && HasPrefix(text, VISIBLE_LINES_TAG)
      && forall view ::
        IsView(sources, locators, view) ==> DecodeText(view, text) == DecodeVisible(view, text) == Ok(value)
  {
    var text := VISIBLE_LINES_TAG + operations;
    TaggedHasPrefix(VISIBLE_LINES_TAG, operations);
    PrefixChar(text, VISIBLE_LINES_TAG, 1);
    PrefixChar(text, LITERAL_TAG, 1);
  }

  lemma ReachedAll(sources: seq<Source>)
    ensures forall at ::
      Exists(sources, at) ==> Reached(sources, LastLength(sources), at)
  {
  }
}
