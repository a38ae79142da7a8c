/** The CTP/2 text codec (internal/router/ctp2.go): a local dictionary with
    in-band references, its literal escape, and the decoder of both. Texts are
    sequences of Unicode scalar values; sizes are UTF-8 bytes. */
module Ctp2 {
  import opened Texts
  import opened Wrappers
  import Json

  const REFERENCE_TAG := "!ctp2 R\n"
  const LITERAL_TAG := "!ctp2 L\n"
  const DICTIONARY_TAG := "!ctp2 D\n"
  const DICTIONARY_END := "END\n"
  const VISIBLE_LINES_TAG := "!V"

  datatype DecodeError = OverBudget | NoDictionary | MalformedDictionary | UnknownReference | MalformedLines

  // ---- Searching ----------------------------------------------------------------------

  predicate HasPrefix(text: string, prefix: string) {
    |prefix| <= |text| && text[..|prefix|] == prefix
  }

  lemma PrefixChar(text: string, prefix: string, i: nat)
    requires i < |prefix|
    ensures HasPrefix(text, prefix) ==> text[i] == prefix[i]
  {
    if HasPrefix(text, prefix) {
      assert text[..|prefix|][i] == text[i];
    }
  }

  // ---- References -----------------------------------------------------------------------

  predicate IsIdChar(c: char) {
    '0' <= c <= '9' || 'a' <= c <= 'z'
  }

  /** validCTP2ReferenceID */
  predicate ValidId(id: string) {
    id != "" && forall i :: 0 <= i < |id| ==> IsIdChar(id[i])
  }

  datatype Reference = Reference(id: string, length: nat)

  /** parseCTP2Reference: `@{id}` at the start of the text. */
  function ParseReference(text: string): (reference: Option<Reference>)
    ensures reference.Some? ==> 3 < reference.value.length <= |text|
  {
    if !HasPrefix(text, "@{") then None else
    var end := IndexOf(text[2..], '}');
    if end.None? then None else
    var id := text[2..2 + end.value];
    if ValidId(id) then Some(Reference(id, 3 + end.value)) else None
  }

  function ReferenceText(id: string): string {
    "@{" + id + "}"
  }

  lemma ParseReferenceText(id: string, rest: string)
    requires ValidId(id)
    ensures ParseReference(ReferenceText(id) + rest) == Some(Reference(id, 3 + |id|))
  {
    var text := ReferenceText(id) + rest;
    assert text[..2] == "@{";
    assert text[2..] == id + ['}'] + rest;
    IndexOfFirst(id, '}', rest);
    assert text[2..2 + |id|] == id;
  }

  /** A parsed reference is `@{id}` spelled out. */
  lemma ParsedIsReferenceText(text: string)
    requires ParseReference(text).Some?
    ensures var reference := ParseReference(text).value;
      ValidId(reference.id) && reference.length == 3 + |reference.id|
      && text[..reference.length] == ReferenceText(reference.id)
  {
    var end := IndexOf(text[2..], '}').value;
    assert text[..3 + end] == text[..2] + text[2..2 + end] + [text[2..][end]];
  }

  lemma ReferenceHasNoSecondAt(id: string)
    requires ValidId(id)
    ensures '@' !in ReferenceText(id)[1..]
  {
  }

  // ---- The encoder ------------------------------------------------------------------------

  datatype Definition = Definition(id: string, value: string)

  predicate StringLess(a: string, b: string) {
    if b == "" then false
    else if a == "" then true
    else a[0] < b[0] || (a[0] == b[0] && StringLess(a[1..], b[1..]))
  }

  // The order of each prefix list: longer values first, then smaller ids.
  predicate Preferred(a: Definition, b: Definition) {
    Size(a.value) > Size(b.value) || (Size(a.value) == Size(b.value) && StringLess(a.id, b.id))
  }

  predicate Applies(definition: Definition, text: string) {
    definition.value != "" && HasPrefix(text, definition.value)
  }

  /** The definition the encoder takes at the start of the text. */
  function Match(definitions: seq<Definition>, text: string): (found: Option<Definition>)
    ensures found.Some? ==> found.value in definitions && Applies(found.value, text)
    ensures found.None? ==> forall d :: d in definitions ==> !Applies(d, text)
  {
    if definitions == [] then None else
    var last := definitions[|definitions| - 1];
    var found := Match(definitions[..|definitions| - 1], text);
    if Applies(last, text) && (found.None? || Preferred(last, found.value)) then Some(last) else found
  }

  /** Of the definitions that apply, the longest is taken. */
  lemma {:induction false} MatchIsLongest(definitions: seq<Definition>, text: string, d: Definition)
    requires d in definitions && Applies(d, text)
    ensures Match(definitions, text).Some? && Size(d.value) <= Size(Match(definitions, text).value.value)
  {
    var rest, last := definitions[..|definitions| - 1], definitions[|definitions| - 1];
    assert definitions == rest + [last];
    if d in rest {
      MatchIsLongest(rest, text, d);
    }
  }

  function EncodeFrom(definitions: seq<Definition>, value: string, afterAt: bool): string
    decreases |value|
  {
    if value == "" then "" else
    var found := if afterAt then None else Match(definitions, value);
    if found.Some? then
      ReferenceText(found.value.id) + EncodeFrom(definitions, value[|found.value.value|..], false)
    else
      var reference := ParseReference(value);
      if reference.Some? then
        "@" + value[..reference.value.length] + EncodeFrom(definitions, value[reference.value.length..], false)
      else
        [value[0]] + EncodeFrom(definitions, value[1..], value[0] == '@')
  }

  function ReferencesFrom(definitions: seq<Definition>, value: string, afterAt: bool): multiset<string>
    decreases |value|
  {
    if value == "" then multiset{} else
    var found := if afterAt then None else Match(definitions, value);
    if found.Some? then
      multiset{found.value.id} + ReferencesFrom(definitions, value[|found.value.value|..], false)
    else
      var reference := ParseReference(value);
      if reference.Some? then ReferencesFrom(definitions, value[reference.value.length..], false)
      else ReferencesFrom(definitions, value[1..], value[0] == '@')
  }

  predicate LooksLikeFraming(value: string) {
    HasPrefix(value, REFERENCE_TAG) || HasPrefix(value, LITERAL_TAG)
    || HasPrefix(value, DICTIONARY_TAG) || HasPrefix(value, VISIBLE_LINES_TAG)
  }

  /** encodeCTP2LiteralString */
  function EncodeLiteral(value: string): string {
    if LooksLikeFraming(value) then LITERAL_TAG + value else value
  }

  lemma Regroup(body: string, chunk: string, tail: string, whole: string)
    requires whole == chunk + tail
    ensures body + whole == body + chunk + tail
  {
  }

  /** ctp2StringEncoder.encode: the body and how often each id was referenced. */
  method Encode(definitions: seq<Definition>, value: string) returns (encoded: string, references: multiset<string>)
    ensures references == ReferencesFrom(definitions, value, false)
    ensures encoded == if references == multiset{} then EncodeLiteral(value)
                       else REFERENCE_TAG + EncodeFrom(definitions, value, false)
  {
    var body, rest, afterAt := "", value, false;
    references := multiset{};
    while rest != ""
      invariant body + EncodeFrom(definitions, rest, afterAt) == EncodeFrom(definitions, value, false)
      invariant references + ReferencesFrom(definitions, rest, afterAt) == ReferencesFrom(definitions, value, false)
      decreases |rest|
    {
      var found := if afterAt then None else Match(definitions, rest);
      var reference := ParseReference(rest);
      var chunk, length, endsWithAt;
      if found.Some? {
        chunk, length, endsWithAt := ReferenceText(found.value.id), |found.value.value|, false;
        references := references + multiset{found.value.id};
      } else if reference.Some? {
        chunk, length, endsWithAt := "@" + rest[..reference.value.length], reference.value.length, false;
      } else {
        chunk, length, endsWithAt := [rest[0]], 1, rest[0] == '@';
      }
      Regroup(body, chunk, EncodeFrom(definitions, rest[length..], endsWithAt), EncodeFrom(definitions, rest, afterAt));
      body := body + chunk;
      rest, afterAt := rest[length..], endsWithAt;
    }
    encoded := if references == multiset{} then EncodeLiteral(value) else REFERENCE_TAG + body;
  }

  // ---- The body decoder -----------------------------------------------------------------------

  type Table = map<string, string>

  // An escaped literal reference: `@` before `@{id}`.
  function ParseEscape(encoded: string): Option<Reference> {
    if HasPrefix(encoded, "@@{") then ParseReference(encoded[1..]) else None
  }

  function Then(head: string, tail: Result<string, DecodeError>): Result<string, DecodeError> {
    if tail.Ok? then Ok(head + tail.value) else tail
  }

  /** decodeCTP2ReferenceBody without its limit, one character, escape or reference at a time. */
  function DecodeBody(table: Table, encoded: string): Result<string, DecodeError>
    decreases |encoded|
  {
    if encoded == "" then Ok("")
    else if encoded[0] != '@' then Then([encoded[0]], DecodeBody(table, encoded[1..]))
    else
      var escape := ParseEscape(encoded);
      if escape.Some? then
        Then(encoded[1..1 + escape.value.length], DecodeBody(table, encoded[1 + escape.value.length..]))
      else
        var reference := ParseReference(encoded);
        if reference.None? then Then("@", DecodeBody(table, encoded[1..]))
        else if reference.value.id !in table then Err(UnknownReference)
        else Then(table[reference.value.id], DecodeBody(table, encoded[reference.value.length..]))
  }

  /** The output budget: an answer longer than the limit is an error. */
  function Within(result: Result<string, DecodeError>, limit: nat): Result<string, DecodeError> {
    if result.Ok? && Size(result.value) > limit then Err(OverBudget) else result
  }

  lemma {:induction false} PlainRun(table: Table, plain: string, rest: string)
    requires '@' !in plain
    ensures DecodeBody(table, plain + rest) == Then(plain, DecodeBody(table, rest))
  {
    var decoded := DecodeBody(table, rest);
    if plain == "" {
      assert plain + rest == rest;
      assert decoded.Ok? ==> "" + decoded.value == decoded.value;
    } else {
      assert (plain + rest)[1..] == plain[1..] + rest;
      PlainRun(table, plain[1..], rest);
      assert decoded.Ok? ==> [plain[0]] + (plain[1..] + decoded.value) == plain + decoded.value;
    }
  }

  // ---- The round trip of a body ------------------------------------------------------------------

  // Every unit of output other than a copied character starts with `@`.
  lemma {:induction false} CopiedPrefix(definitions: seq<Definition>, value: string, afterAt: bool, prefix: string)
    requires '@' !in prefix && HasPrefix(EncodeFrom(definitions, value, afterAt), prefix)
    ensures HasPrefix(value, prefix)
    decreases |prefix|
  {
    if prefix != "" {
      var encoded := EncodeFrom(definitions, value, afterAt);
      assert encoded[0] == prefix[0];
      assert encoded[1..][..|prefix| - 1] == prefix[1..];
      CopiedPrefix(definitions, value[1..], value[0] == '@', prefix[1..]);
      assert value[..|prefix|] == [value[0]] + value[1..][..|prefix| - 1];
    }
  }

  /** After a literal `@`, a plain `@` is never the start of something the encoder
      could be read to have written as a reference. */
  lemma LiteralAtIsNoReference(definitions: seq<Definition>, value: string)
    requires value != "" && value[0] == '@' && ParseReference(value).None?
    ensures ParseReference("@" + EncodeFrom(definitions, value[1..], true)).None?
  {
    var tail := EncodeFrom(definitions, value[1..], true);
    var text := "@" + tail;
    if ParseReference(text).Some? {
      var reference := ParseReference(text).value;
      ParsedIsReferenceText(text);
      ReferenceHasNoSecondAt(reference.id);
      var prefix := ReferenceText(reference.id)[1..];
      assert tail[..|prefix|] == text[1..][..|prefix|] == prefix;
      CopiedPrefix(definitions, value[1..], true, prefix);
      assert value == ReferenceText(reference.id) + value[reference.length..] by {
        assert value[1..][..|prefix|] == prefix;
      }
      ParseReferenceText(reference.id, value[reference.length..]);
      assert false;
    }
  }

  // What follows a literal `@` never parses as a reference itself.
  lemma AfterAtIsNoReference(definitions: seq<Definition>, value: string)
    ensures ParseReference(EncodeFrom(definitions, value, true)).None?
  {
    var encoded := EncodeFrom(definitions, value, true);
    if value != "" && ParseReference(value).Some? {
      assert encoded[..2][1] == encoded[1] == value[0] == '@';
    } else if value != "" && value[0] == '@' {
      LiteralAtIsNoReference(definitions, value);
    } else if value != "" {
      assert |encoded| >= 2 ==> encoded[..2][0] == encoded[0] == value[0];
    }
  }

  // ---- The body round trip -----------------------------------------------------------

  ghost predicate DistinctIds(definitions: seq<Definition>) {
    && (forall i :: 0 <= i < |definitions| ==> ValidId(definitions[i].id))
    && (forall i, j :: 0 <= i < j < |definitions| ==> definitions[i].id != definitions[j].id)
  }

  ghost predicate TableOf(definitions: seq<Definition>, table: Table) {
    forall d :: d in definitions ==> d.id in table && table[d.id] == d.value
  }

  lemma DecodeReference(table: Table, id: string, rest: string)
    requires ValidId(id) && id in table
    ensures DecodeBody(table, ReferenceText(id) + rest) == Then(table[id], DecodeBody(table, rest))
  {
    var encoded := ReferenceText(id) + rest;
    ParseReferenceText(id, rest);
    assert encoded[..3][1] == '{';
    assert encoded[3 + |id|..] == rest;
  }

  lemma DecodeEscape(table: Table, id: string, rest: string)
    requires ValidId(id)
    ensures DecodeBody(table, "@" + ReferenceText(id) + rest) == Then(ReferenceText(id), DecodeBody(table, rest))
  {
    var encoded := "@" + ReferenceText(id) + rest;
    assert encoded[1..] == ReferenceText(id) + rest;
    ParseReferenceText(id, rest);
    assert encoded[..3] == "@@{";
    assert encoded[4 + |id|..] == rest && encoded[1..4 + |id|] == ReferenceText(id);
  }

  lemma DecodeLiteralAt(definitions: seq<Definition>, table: Table, value: string)
    requires value != "" && value[0] == '@' && ParseReference(value).None?
    ensures var tail := EncodeFrom(definitions, value[1..], true);
      DecodeBody(table, "@" + tail) == Then("@", DecodeBody(table, tail))
  {
    var tail := EncodeFrom(definitions, value[1..], true);
    LiteralAtIsNoReference(definitions, value);
    AfterAtIsNoReference(definitions, value[1..]);
    assert ("@" + tail)[1..] == tail;
  }

  // One unit of the encoder's output, given that the rest decodes.
  lemma DefinedUnit(definitions: seq<Definition>, table: Table, d: Definition, rest: string)
    requires ValidId(d.id) && d.id in table && table[d.id] == d.value
    requires DecodeBody(table, EncodeFrom(definitions, rest, false)) == Ok(rest)
    ensures DecodeBody(table, ReferenceText(d.id) + EncodeFrom(definitions, rest, false)) == Ok(d.value + rest)
  {
    DecodeReference(table, d.id, EncodeFrom(definitions, rest, false));
  }

  lemma EscapedUnit(definitions: seq<Definition>, table: Table, id: string, rest: string)
    requires ValidId(id) && DecodeBody(table, EncodeFrom(definitions, rest, false)) == Ok(rest)
    ensures DecodeBody(table, "@" + ReferenceText(id) + EncodeFrom(definitions, rest, false))
        == Ok(ReferenceText(id) + rest)
  {
    DecodeEscape(table, id, EncodeFrom(definitions, rest, false));
  }

  lemma PlainUnit(definitions: seq<Definition>, table: Table, value: string)
    requires value != "" && ParseReference(value).None?
    requires DecodeBody(table, EncodeFrom(definitions, value[1..], value[0] == '@')) == Ok(value[1..])
    ensures DecodeBody(table, [value[0]] + EncodeFrom(definitions, value[1..], value[0] == '@')) == Ok(value)
  {
    var tail := EncodeFrom(definitions, value[1..], value[0] == '@');
    assert value == [value[0]] + value[1..];
    if value[0] == '@' {
      DecodeLiteralAt(definitions, table, value);
    } else {
      assert ([value[0]] + tail)[1..] == tail;
    }
  }

  lemma DefinedStep(definitions: seq<Definition>, table: Table, value: string, d: Definition)
    requires value != "" && Match(definitions, value) == Some(d) && ValidId(d.id) && d.id in table
    requires table[d.id] == d.value
    requires DecodeBody(table, EncodeFrom(definitions, value[|d.value|..], false)) == Ok(value[|d.value|..])
    ensures DecodeBody(table, EncodeFrom(definitions, value, false)) == Ok(value)
  {
    var rest := value[|d.value|..];
    DefinedUnit(definitions, table, d, rest);
    assert value == d.value + rest;
  }

  lemma EscapedStep(definitions: seq<Definition>, table: Table, value: string, afterAt: bool)
    requires value != "" && ParseReference(value).Some? && (afterAt || Match(definitions, value).None?)
    requires var rest := value[ParseReference(value).value.length..];
      DecodeBody(table, EncodeFrom(definitions, rest, false)) == Ok(rest)
    ensures DecodeBody(table, EncodeFrom(definitions, value, afterAt)) == Ok(value)
  {
    var reference := ParseReference(value).value;
    var rest := value[reference.length..];
    ParsedIsReferenceText(value);
    EscapedUnit(definitions, table, reference.id, rest);
    assert value == ReferenceText(reference.id) + rest;
  }

  /** Whatever the text contains, the encoded body decodes back to it. */
  lemma {:induction false} BodyRoundTrip(definitions: seq<Definition>, table: Table, value: string, afterAt: bool)
    requires TableOf(definitions, table) && forall d :: d in definitions ==> ValidId(d.id)
    ensures DecodeBody(table, EncodeFrom(definitions, value, afterAt)) == Ok(value)
    decreases |value|
  {
    if value != "" {
      var found := if afterAt then None else Match(definitions, value);
      var reference := ParseReference(value);
      if found.Some? {
        BodyRoundTrip(definitions, table, value[|found.value.value|..], false);
        DefinedStep(definitions, table, value, found.value);
      } else if reference.Some? {
        BodyRoundTrip(definitions, table, value[reference.value.length..], false);
        EscapedStep(definitions, table, value, afterAt);
      } else {
        BodyRoundTrip(definitions, table, value[1..], value[0] == '@');
        PlainUnit(definitions, table, value);
      }
    }
  }

  // ---- The dictionary ------------------------------------------------------------------

  function DefinitionLine(d: Definition): string {
    d.id + "=" + Json.Quote(d.value)
  }

  function DefinitionLines(definitions: seq<Definition>): string {
    if definitions == [] then "" else DefinitionLine(definitions[0]) + "\n" + DefinitionLines(definitions[1..])
  }

  /** renderCTP2Dictionary */
  function RenderDictionary(definitions: seq<Definition>): string {
    DICTIONARY_TAG + DefinitionLines(definitions) + DICTIONARY_END
  }

  function DecodeDefinition(line: string): Option<Definition> {
    var separator := IndexOf(line, '=');
    if separator.None? then None else
    var id := line[..separator.value];
    var value := Json.Unquote(line[separator.value + 1..]);
    if ValidId(id) && value.Some? then Some(Definition(id, value.value)) else None
  }

  /** decodeCTP2Dictionary: the reference body and the table. */
  function DecodeDictionary(text: string, table: Table): Result<(string, Table), DecodeError>
    decreases |text|
  {
    var end := IndexOf(text, '\n');
    if end.None? then Err(MalformedDictionary) else
    var line, rest := text[..end.value], text[end.value + 1..];
    if line == "END" then
      if table == map[] || !HasPrefix(rest, REFERENCE_TAG) then Err(MalformedDictionary) else Ok((rest, table))
    else
      var d := DecodeDefinition(line);
      if d.None? || d.value.id in table then Err(MalformedDictionary)
      else DecodeDictionary(rest, table[d.value.id := d.value.value])
  }

  function AddAll(table: Table, definitions: seq<Definition>): Table
    decreases |definitions|
  {
    if definitions == [] then table else AddAll(table[definitions[0].id := definitions[0].value], definitions[1..])
  }

  lemma DefinitionRoundTrip(d: Definition)
    requires ValidId(d.id)
    ensures DecodeDefinition(DefinitionLine(d)) == Some(d)
    ensures '\n' !in DefinitionLine(d) && DefinitionLine(d) != "END"
  {
    var line := DefinitionLine(d);
    assert line == d.id + ['='] + Json.Quote(d.value);
    IndexOfFirst(d.id, '=', Json.Quote(d.value));
    Json.UnquoteQuote(d.value);
    Json.QuoteHasNoLineFeed(d.value);
    assert line[..|d.id|] == d.id && line[|d.id| + 1..] == Json.Quote(d.value);
    assert line[|d.id|] == '=';
  }

  lemma FirstLine(line: string, rest: string)
    requires '\n' !in line
    ensures var text := line + ['\n'] + rest;
      IndexOf(text, '\n') == Some(|line|) && text[..|line|] == line && text[|line| + 1..] == rest
  {
    IndexOfFirst(line, '\n', rest);
  }

  lemma DecodeLine(table: Table, d: Definition, tail: string)
    requires ValidId(d.id) && d.id !in table
    ensures DecodeDictionary(DefinitionLine(d) + ['\n'] + tail, table) == DecodeDictionary(tail, table[d.id := d.value])
  {
    DefinitionRoundTrip(d);
    FirstLine(DefinitionLine(d), tail);
  }

  lemma DecodeEnd(table: Table, body: string)
    requires HasPrefix(body, REFERENCE_TAG) && table != map[]
    ensures DecodeDictionary(DICTIONARY_END + body, table) == Ok((body, table))
  {
    assert DICTIONARY_END + body == "END" + ['\n'] + body;
    FirstLine("END", body);
  }

  lemma DistinctTail(definitions: seq<Definition>)
    requires DistinctIds(definitions) && definitions != []
    ensures DistinctIds(definitions[1..])
    ensures forall d :: d in definitions[1..] ==> d in definitions && d.id != definitions[0].id
  {
  }

  lemma RenderedLines(d: Definition, rest: seq<Definition>, body: string)
    ensures DefinitionLines([d] + rest) + DICTIONARY_END + body
            == DefinitionLine(d) + ['\n'] + (DefinitionLines(rest) + DICTIONARY_END + body)
  {
    assert ([d] + rest)[1..] == rest;
  }

  lemma {:induction false} DictionaryLines(table: Table, definitions: seq<Definition>, body: string)
    requires DistinctIds(definitions) && forall d :: d in definitions ==> d.id !in table
    requires HasPrefix(body, REFERENCE_TAG) && (table != map[] || definitions != [])
    ensures DecodeDictionary(DefinitionLines(definitions) + DICTIONARY_END + body, table)
        == Ok((body, AddAll(table, definitions)))
    decreases |definitions|
  {
    if definitions == [] {
      assert DefinitionLines(definitions) + DICTIONARY_END + body == DICTIONARY_END + body;
      DecodeEnd(table, body);
    } else {
      var d, rest := definitions[0], definitions[1..];
      var tail := DefinitionLines(rest) + DICTIONARY_END + body;
      assert definitions == [d] + rest;
      RenderedLines(d, rest, body);
      DecodeLine(table, d, tail);
      DistinctTail(definitions);
      var grown := table[d.id := d.value];
      assert d.id in grown;
      assert forall other :: other in rest ==> other.id !in grown;
      DictionaryLines(grown, rest, body);
    }
  }

  lemma {:induction false} AddAllIsTable(table: Table, definitions: seq<Definition>)
    requires DistinctIds(definitions)
    ensures TableOf(definitions, AddAll(table, definitions))
    ensures forall id :: id in table && (forall d :: d in definitions ==> d.id != id) ==>
      id in AddAll(table, definitions) && AddAll(table, definitions)[id] == table[id]
    decreases |definitions|
  {
    if definitions != [] {
      AddAllIsTable(table[definitions[0].id := definitions[0].value], definitions[1..]);
    }
  }

  /** Dictionary and reference body of any definitions with distinct valid ids
      decode to the original text. */
  lemma DictionaryRoundTrip(definitions: seq<Definition>, value: string)
    requires DistinctIds(definitions) && definitions != []
    ensures var body := REFERENCE_TAG + EncodeFrom(definitions, value, false);
      var table := AddAll(map[], definitions);
      && DecodeDictionary(DefinitionLines(definitions) + DICTIONARY_END + body, map[]) == Ok((body, table))
      && DecodeBody(table, EncodeFrom(definitions, value, false)) == Ok(value)
  {
    var body := REFERENCE_TAG + EncodeFrom(definitions, value, false);
    assert body[..|REFERENCE_TAG|] == REFERENCE_TAG;
    DictionaryLines(map[], definitions, body);
    AddAllIsTable(map[], definitions);
    BodyRoundTrip(definitions, AddAll(map[], definitions), value, false);
  }

  // ---- The loops of the decoder ---------------------------------------------------------

  // The answer fits the budget, or both are errors.
  predicate Agrees(result: Result<string, DecodeError>, specified: Result<string, DecodeError>, limit: nat) {
    if result.Ok? then result == specified && Size(result.value) <= limit
    else Within(specified, limit).Err?
  }

  lemma ThenTwice(head: string, middle: string, tail: Result<string, DecodeError>)
    ensures Then(head, Then(middle, tail)) == Then(head + middle, tail)
  {
    if tail.Ok? {
      assert head + (middle + tail.value) == (head + middle) + tail.value;
    }
  }

  lemma ThenIsLonger(head: string, tail: Result<string, DecodeError>, limit: nat)
    ensures Size(head) > limit ==> Within(Then(head, tail), limit).Err?
  {
    if tail.Ok? {
      SizeConcat(head, tail.value);
    }
  }

  // The decoded text so far, and whether one more chunk stays within the budget.
  lemma Appended(decoded: string, chunk: string, rest: Result<string, DecodeError>, limit: nat)
    ensures Then(decoded, Then(chunk, rest)) == Then(decoded + chunk, rest)
    ensures Size(decoded + chunk) == Size(decoded) + Size(chunk)
    ensures Size(decoded) + Size(chunk) > limit ==> Within(Then(decoded, Then(chunk, rest)), limit).Err?
  {
    ThenTwice(decoded, chunk, rest);
    SizeConcat(decoded, chunk);
    ThenIsLonger(decoded + chunk, rest, limit);
  }

  /** One unit of a body: a plain run, an escape, a reference or a lone `@`. */
  function NextChunk(table: Table, encoded: string): Result<(string, nat), DecodeError>
    requires encoded != ""
  {
    var at := IndexOf(encoded, '@');
    if at.None? then Ok((encoded, |encoded|))
    else if at.value > 0 then Ok((encoded[..at.value], at.value))
    else
      var escape := ParseEscape(encoded);
      if escape.Some? then Ok((encoded[1..1 + escape.value.length], 1 + escape.value.length))
      else
        var reference := ParseReference(encoded);
        if reference.None? then Ok(("@", 1))
        else if reference.value.id !in table then Err(UnknownReference)
        else Ok((table[reference.value.id], reference.value.length))
  }

  lemma ChunkStep(table: Table, encoded: string)
    requires encoded != ""
    ensures var next := NextChunk(table, encoded);
      if next.Err? then DecodeBody(table, encoded) == Err(next.error)
      else
        && 0 < next.value.1 <= |encoded|
        && DecodeBody(table, encoded) == Then(next.value.0, DecodeBody(table, encoded[next.value.1..]))
  {
    var at := IndexOf(encoded, '@');
    if at.None? {
      PlainRun(table, encoded, "");
      assert encoded + "" == encoded && encoded[|encoded|..] == "";
    } else if at.value > 0 {
      PlainRun(table, encoded[..at.value], encoded[at.value..]);
      assert encoded[..at.value] + encoded[at.value..] == encoded;
    }
  }

  /** decodeCTP2ReferenceBody */
  method DecodeReferenceBody(text: string, table: Table, limit: nat) returns (result: Result<string, DecodeError>)
    ensures !HasPrefix(text, REFERENCE_TAG) ==> result == Err(MalformedDictionary)
    ensures HasPrefix(text, REFERENCE_TAG) ==> Agrees(result, DecodeBody(table, text[|REFERENCE_TAG|..]), limit)
  {
    if !HasPrefix(text, REFERENCE_TAG) {
      return Err(MalformedDictionary);
    }
    var encoded := text[|REFERENCE_TAG|..];
    ghost var goal := DecodeBody(table, encoded);
    var decoded := "";
    assert goal.Ok? ==> "" + goal.value == goal.value;
    while encoded != ""
      invariant Then(decoded, DecodeBody(table, encoded)) == goal && Size(decoded) <= limit
      decreases |encoded|
    {
      ChunkStep(table, encoded);
      var next := NextChunk(table, encoded);
      if next.Err? {
        return Err(next.error);
      }
      var chunk, length := next.value.0, next.value.1;
      Appended(decoded, chunk, DecodeBody(table, encoded[length..]), limit);
      if Size(chunk) > limit - Size(decoded) {
        return Err(OverBudget);
      }
      decoded := decoded + chunk;
      encoded := encoded[length..];
    }
    assert decoded + "" == decoded;
    result := Ok(decoded);
  }

  /** decodeCTP2Dictionary */
  method DecodeDictionaryLines(text: string) returns (result: Result<(string, Table), DecodeError>)
    ensures result == DecodeDictionary(text, map[])
  {
    var rest, table: Table := text, map[];
    while true
      invariant DecodeDictionary(rest, table) == DecodeDictionary(text, map[])
      decreases |rest|
    {
      var end := IndexOf(rest, '\n');
      if end.None? {
        return Err(MalformedDictionary);
      }
      var line := rest[..end.value];
      rest := rest[end.value + 1..];
      if line == "END" {
        if table == map[] || !HasPrefix(rest, REFERENCE_TAG) {
          return Err(MalformedDictionary);
        }
        return Ok((rest, table));
      }
      var d := DecodeDefinition(line);
      if d.None? || d.value.id in table {
        return Err(MalformedDictionary);
      }
      table := table[d.value.id := d.value.value];
    }
  }
}
