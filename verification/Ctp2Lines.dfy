/** Visible-line references (internal/router/ctp2.go): each operation line copies
    lines of one earlier output or carries a quoted literal. */
module Ctp2Lines {
  import opened Texts
  import opened Wrappers
  import opened Ctp2
  import Json
  import Numerals

  datatype Source = Source(locator: string, lines: seq<string>)

  /** strings.Lines: pieces that end after each LF, and a last one without. */
  function SplitLines(text: string): seq<string>
    decreases |text|
  {
    if text == "" then [] else
    var end := IndexOf(text, '\n');
    if end.None? then [text] else [text[..end.value + 1]] + SplitLines(text[end.value + 1..])
  }

  lemma SplitFirst(text: string, end: nat)
    requires end < |text|
    ensures text[..end + 1] + text[end + 1..] == text
  {
  }

  lemma {:induction false} SplitLinesSpell(text: string)
    ensures Concat(SplitLines(text)) == text
    decreases |text|
  {
    if text != "" {
      var end := IndexOf(text, '\n');
      if end.None? {
        ConcatFirst(text, []);
      } else {
        SplitLinesSpell(text[end.value + 1..]);
        ConcatFirst(text[..end.value + 1], SplitLines(text[end.value + 1..]));
        SplitFirst(text, end.value);
      }
    }
  }

  // ---- Locators --------------------------------------------------------------------

  predicate HasSuffix(text: string, suffix: string) {
    |suffix| <= |text| && text[|text| - |suffix|..] == suffix
  }

  // How many locators end with the suffix.
  function CountSuffix(locators: seq<string>, suffix: string): nat {
    if locators == [] then 0 else
    CountSuffix(locators[..|locators| - 1], suffix) + if HasSuffix(locators[|locators| - 1], suffix) then 1 else 0
  }

  function Locators(sources: seq<Source>): seq<string> {
    seq(|sources|, i requires 0 <= i < |sources| => sources[i].locator)
  }

  lemma {:induction false} CountedOnce(locators: seq<string>, suffix: string, i: nat)
    requires i < |locators| && HasSuffix(locators[i], suffix)
    ensures CountSuffix(locators, suffix) >= 1
    ensures CountSuffix(locators, suffix) == 1 <==>
      forall j :: 0 <= j < |locators| && HasSuffix(locators[j], suffix) ==> j == i
    decreases |locators|
  {
    var front, last := locators[..|locators| - 1], |locators| - 1;
    if i < last {
      CountedOnce(front, suffix, i);
      assert forall j :: 0 <= j < last ==> front[j] == locators[j];
    } else if CountSuffix(front, suffix) > 0 {
      var j := FindCounted(front, suffix);
      assert HasSuffix(locators[j], suffix);
    } else {
      CountedNone(front, suffix);
      assert forall j :: 0 <= j < last ==> front[j] == locators[j];
    }
  }

  lemma {:induction false} FindCounted(locators: seq<string>, suffix: string) returns (i: nat)
    requires CountSuffix(locators, suffix) > 0
    ensures i < |locators| && HasSuffix(locators[i], suffix)
  {
    i := |locators| - 1;
    if !HasSuffix(locators[i], suffix) {
      i := FindCounted(locators[..i], suffix);
    }
  }

  lemma {:induction false} CountedNone(locators: seq<string>, suffix: string)
    requires CountSuffix(locators, suffix) == 0
    ensures forall j :: 0 <= j < |locators| ==> !HasSuffix(locators[j], suffix)
    decreases |locators|
  {
    if locators != [] {
      CountedNone(locators[..|locators| - 1], suffix);
      assert forall j :: 0 <= j < |locators| - 1 ==> locators[..|locators| - 1][j] == locators[j];
    }
  }

  // ---- Decoding ----------------------------------------------------------------------

  datatype Fields = Fields(suffix: string, start: string, count: string)

  /** strings.Split at commas, when that gives exactly three parts. */
  function ThreeFields(text: string): Option<Fields> {
    var first := IndexOf(text, ',');
    if first.None? then None else
    var rest := text[first.value + 1..];
    var second := IndexOf(rest, ',');
    if second.None? || IndexOf(rest[second.value + 1..], ',').Some? then None
    else Some(Fields(text[..first.value], rest[..second.value], rest[second.value + 1..]))
  }

  // The last source whose locator has the suffix, and how many have it.
  function Lookup(sources: seq<Source>, suffix: string): (seq<string>, nat) {
    if sources == [] then ([], 0) else
    var last := sources[|sources| - 1];
    var found := Lookup(sources[..|sources| - 1], suffix);
    if HasSuffix(last.locator, suffix) then (last.lines, found.1 + 1) else found
  }

  function SelectLines(sources: seq<Source>, suffix: string, startText: string,
                       countText: string): Result<string, DecodeError> {
    var found := Lookup(sources, suffix);
    var start, count := Numerals.ParseInt(startText), Numerals.ParseInt(countText);
    if found.1 != 1 || start.None? || count.None? || start.value <= 0 || count.value <= 0 then Err(MalformedLines)
    else if start.value - 1 > |found.0| || count.value > |found.0| - (start.value - 1) then Err(MalformedLines)
    else Ok(Concat(found.0[start.value - 1..start.value - 1 + count.value]))
  }

  function DecodeLineReference(sources: seq<Source>, text: string): Result<string, DecodeError> {
    var fields := ThreeFields(text);
    if fields.None? || fields.value.suffix == "" then Err(MalformedLines)
    else SelectLines(sources, fields.value.suffix, fields.value.start, fields.value.count)
  }

  function DecodeOperation(sources: seq<Source>, line: string): Result<string, DecodeError> {
    if line == "" then Err(MalformedLines)
    else if line[0] == '=' then DecodeLineReference(sources, line[1..])
    else if line[0] == '+' then
      var literal := Json.Unquote(line[1..]);
      if literal.Some? then Ok(literal.value) else Err(MalformedLines)
    else Err(MalformedLines)
  }

  function DecodeOperations(sources: seq<Source>, operations: string): Result<string, DecodeError>
    decreases |operations|
  {
    if operations == "" then Ok("") else
    var end := IndexOf(operations, '\n');
    if end.None? then Err(MalformedLines) else
    var decoded := DecodeOperation(sources, operations[..end.value]);
    if decoded.Err? then decoded
    else Then(decoded.value, DecodeOperations(sources, operations[end.value + 1..]))
  }

  /** decodeCTP2VisibleLines of a text with its tag, without the limit. */
  function DecodeVisible(sources: seq<Source>, text: string): Result<string, DecodeError>
    requires HasPrefix(text, VISIBLE_LINES_TAG)
  {
    var operations := text[|VISIBLE_LINES_TAG|..];
    if operations == "" then Err(MalformedLines) else DecodeOperations(sources, operations)
  }

  method DecodeVisibleLines(sources: seq<Source>, text: string, limit: nat) returns (result: Result<string,
                            DecodeError>)
    requires HasPrefix(text, VISIBLE_LINES_TAG)
    ensures Agrees(result, DecodeVisible(sources, text), limit)
  {
    var operations := text[|VISIBLE_LINES_TAG|..];
    if operations == "" {
      return Err(MalformedLines);
    }
    ghost var goal := DecodeOperations(sources, operations);
    var decoded := "";
    assert goal.Ok? ==> "" + goal.value == goal.value;
    while operations != ""
      invariant Then(decoded, DecodeOperations(sources, operations)) == goal && Size(decoded) <= limit
      decreases |operations|
    {
      var end := IndexOf(operations, '\n');
      if end.None? {
        return Err(MalformedLines);
      }
      var chunk := DecodeOperation(sources, operations[..end.value]);
      if chunk.Err? {
        return chunk;
      }
      ghost var rest := DecodeOperations(sources, operations[end.value + 1..]);
      Appended(decoded, chunk.value, rest, limit);
      if Size(chunk.value) > limit - Size(decoded) {
        return Err(OverBudget);
      }
      decoded := decoded + chunk.value;
      operations := operations[end.value + 1..];
    }
    assert decoded + "" == decoded;
    result := Ok(decoded);
  }

  // ---- Single operations ------------------------------------------------------------------

  function ReferenceOperation(suffix: string, line: nat, count: nat): string {
    "=" + FieldsText(suffix, Numerals.FormatInt(line + 1), Numerals.FormatInt(count))
  }

  function FieldsText(a: string, b: string, c: string): string {
    a + "," + b + "," + c
  }

  lemma FieldsHaveNoLineFeed(a: string, b: string, c: string)
    requires '\n' !in a && '\n' !in b && '\n' !in c
    ensures '\n' !in FieldsText(a, b, c)
  {
    assert '\n' !in a + ",";
    assert '\n' !in a + "," + b;
  }

  function LiteralOperation(lines: seq<string>): string {
    "+" + Json.Quote(Concat(lines))
  }

  predicate PlainLocator(text: string) {
    ',' !in text && '\n' !in text && '\r' !in text
  }

  lemma IntHasNoSeparator(n: nat)
    ensures ',' !in Numerals.FormatInt(n) && '\n' !in Numerals.FormatInt(n)
  {
    Numerals.FormatDigits(n, 10);
    var text := Numerals.FormatInt(n);
    forall i | 0 <= i < |text| ensures text[i] != ',' && text[i] != '\n' {
      assert Numerals.DigitValue(text[i]).Some?;
    }
  }

  lemma ThreeFieldsOf(a: string, b: string, c: string)
    requires ',' !in a && ',' !in b && ',' !in c
    ensures ThreeFields(FieldsText(a, b, c)) == Some(Fields(a, b, c))
  {
    var text := FieldsText(a, b, c);
    assert text == a + [','] + (b + "," + c);
    IndexOfFirst(a, ',', b + "," + c);
    assert text[|a| + 1..] == b + [','] + c && text[..|a|] == a;
    IndexOfFirst(b, ',', c);
    assert (b + [','] + c)[..|b|] == b && (b + [','] + c)[|b| + 1..] == c;
  }

  lemma {:induction false} LookupUnique(sources: seq<Source>, suffix: string, i: nat)
    requires i < |sources| && HasSuffix(sources[i].locator, suffix)
    requires CountSuffix(Locators(sources), suffix) == 1
    ensures Lookup(sources, suffix) == (sources[i].lines, 1)
    decreases |sources|
  {
    var front, last := sources[..|sources| - 1], |sources| - 1;
    assert Locators(front) == Locators(sources)[..last];
    CountedOnce(Locators(sources), suffix, i);
    if i == last {
      LookupNone(front, suffix);
    } else {
      LookupUnique(front, suffix, i);
    }
  }

  lemma {:induction false} LookupNone(sources: seq<Source>, suffix: string)
    requires CountSuffix(Locators(sources), suffix) == 0
    ensures Lookup(sources, suffix).1 == 0
  {
    if sources != [] {
      assert Locators(sources[..|sources| - 1]) == Locators(sources)[..|sources| - 1];
      LookupNone(sources[..|sources| - 1], suffix);
    }
  }

  lemma SelectsNamedLines(sources: seq<Source>, suffix: string, i: nat, line: nat, count: nat)
    requires i < |sources| && HasSuffix(sources[i].locator, suffix)
    requires CountSuffix(Locators(sources), suffix) == 1
    requires count > 0 && line + count <= |sources[i].lines|
    ensures SelectLines(sources, suffix, Numerals.FormatInt(line + 1), Numerals.FormatInt(count))
            == Ok(Concat(sources[i].lines[line..line + count]))
  {
    Numerals.ParseFormatInt(line + 1);
    Numerals.ParseFormatInt(count);
    LookupUnique(sources, suffix, i);
  }

  lemma ReferenceOperationIsOneLine(suffix: string, line: nat, count: nat)
    requires PlainLocator(suffix)
    ensures '\n' !in ReferenceOperation(suffix, line, count)
    ensures suffix != "" ==>
      ThreeFields(ReferenceOperation(suffix, line, count)[1..])
      == Some(Fields(suffix, Numerals.FormatInt(line + 1), Numerals.FormatInt(count)))
  {
    var start, size := Numerals.FormatInt(line + 1), Numerals.FormatInt(count);
    IntHasNoSeparator(line + 1);
    IntHasNoSeparator(count);
    ThreeFieldsOf(suffix, start, size);
    FieldsHaveNoLineFeed(suffix, start, size);
    assert ReferenceOperation(suffix, line, count)[1..] == FieldsText(suffix, start, size);
  }

  /** A reference operation decodes to the lines it names. */
  lemma DecodeReferenceOperation(sources: seq<Source>, suffix: string, i: nat, line: nat, count: nat)
    requires i < |sources| && suffix != "" && PlainLocator(suffix) && HasSuffix(sources[i].locator, suffix)
    requires CountSuffix(Locators(sources), suffix) == 1
    requires count > 0 && line + count <= |sources[i].lines|
    ensures DecodeOperation(sources, ReferenceOperation(suffix, line, count))
        == Ok(Concat(sources[i].lines[line..line + count]))
    ensures '\n' !in ReferenceOperation(suffix, line, count)
  {
    ReferenceOperationIsOneLine(suffix, line, count);
    SelectsNamedLines(sources, suffix, i, line, count);
    assert ReferenceOperation(suffix, line, count)[0] == '=';
  }

  lemma DecodeLiteralOperation(sources: seq<Source>, lines: seq<string>)
    ensures DecodeOperation(sources, LiteralOperation(lines)) == Ok(Concat(lines))
    ensures '\n' !in LiteralOperation(lines)
  {
    Json.UnquoteQuote(Concat(lines));
    Json.QuoteHasNoLineFeed(Concat(lines));
    assert LiteralOperation(lines)[1..] == Json.Quote(Concat(lines));
  }

  // ---- Sequences of operations -------------------------------------------------------------

  lemma DecodeFirstOperation(sources: seq<Source>, operation: string, chunk: string, rest: string)
    requires '\n' !in operation && DecodeOperation(sources, operation) == Ok(chunk)
    ensures DecodeOperations(sources, operation + ['\n'] + rest) == Then(chunk, DecodeOperations(sources, rest))
  {
    FirstLine(operation, rest);
  }

  lemma SplitFirstOperation(sources: seq<Source>, operations: string, text: string)
    returns (operation: string, chunk: string, rest: string, tail: string)
    requires operations != "" && DecodeOperations(sources, operations) == Ok(text)
    ensures operations == operation + ['\n'] + rest && '\n' !in operation
    ensures DecodeOperation(sources, operation) == Ok(chunk) && DecodeOperations(sources, rest) == Ok(tail)
    ensures text == chunk + tail
  {
    var end := IndexOf(operations, '\n').value;
    operation, rest := operations[..end], operations[end + 1..];
    chunk := DecodeOperation(sources, operation).value;
    tail := DecodeOperations(sources, rest).value;
  }

  lemma PrefixStep(sources: seq<Source>, operation: string, chunk: string, tail: string, remainder: string,
                   rest: string)
    requires '\n' !in operation && DecodeOperation(sources, operation) == Ok(chunk)
    requires DecodeOperations(sources, remainder + rest) == Then(tail, DecodeOperations(sources, rest))
    ensures DecodeOperations(sources, operation + ['\n'] + remainder + rest)
        == Then(chunk + tail, DecodeOperations(sources, rest))
  {
    assert operation + ['\n'] + remainder + rest == operation + ['\n'] + (remainder + rest);
    DecodeFirstOperation(sources, operation, chunk, remainder + rest);
    ThenTwice(chunk, tail, DecodeOperations(sources, rest));
  }

  // Decoding a text that decodes completely and then some more.
  lemma {:induction false} DecodePrefix(sources: seq<Source>, first: string, text: string, rest: string)
    requires DecodeOperations(sources, first) == Ok(text)
    ensures DecodeOperations(sources, first + rest) == Then(text, DecodeOperations(sources, rest))
    decreases |first|
  {
    if first == "" {
      assert first + rest == rest;
      var more := DecodeOperations(sources, rest);
      assert more.Ok? ==> "" + more.value == more.value;
    } else {
      var operation, chunk, remainder, tail := SplitFirstOperation(sources, first, text);
      DecodePrefix(sources, remainder, tail, rest);
      PrefixStep(sources, operation, chunk, tail, remainder, rest);
    }
  }

  lemma DecodeOneOperation(sources: seq<Source>, operation: string, chunk: string)
    requires '\n' !in operation && DecodeOperation(sources, operation) == Ok(chunk)
    ensures DecodeOperations(sources, operation + "\n") == Ok(chunk)
  {
    assert operation + "\n" == operation + ['\n'] + "";
    DecodeFirstOperation(sources, operation, chunk, "");
    assert chunk + "" == chunk;
  }

  /** One more operation line extends what the earlier ones decode to. */
  lemma DecodeAppended(sources: seq<Source>, first: string, text: string, operation: string, chunk: string)
    requires DecodeOperations(sources, first) == Ok(text)
    requires '\n' !in operation && DecodeOperation(sources, operation) == Ok(chunk)
    ensures DecodeOperations(sources, first + operation + "\n") == Ok(text + chunk)
  {
    DecodePrefix(sources, first, text, operation + "\n");
    DecodeOneOperation(sources, operation, chunk);
    assert first + operation + "\n" == first + (operation + "\n");
  }
}
