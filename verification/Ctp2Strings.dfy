/** Whole CTP/2 strings (internal/router/ctp2.go): one decoder that tells the
    encodings apart by their tag, and the content-local encoder. Token counts and
    the choice of repeated substrings are inputs. */
module Ctp2Strings {
  import opened Texts
  import opened Wrappers
  import opened Ctp2
  import opened Ctp2Lines
  import Numerals

  /** decodeCTP2String without its limit. */
  function DecodeText(sources: seq<Source>, text: string): Result<string, DecodeError> {
    if HasPrefix(text, LITERAL_TAG) then Ok(text[|LITERAL_TAG|..])
    else if HasPrefix(text, VISIBLE_LINES_TAG) then DecodeVisible(sources, text)
    else if HasPrefix(text, REFERENCE_TAG) then Err(NoDictionary)
    else if !HasPrefix(text, DICTIONARY_TAG) then Ok(text)
    else
      var dictionary := DecodeDictionary(text[|DICTIONARY_TAG|..], map[]);
      if dictionary.Err? then Err(dictionary.error)
      else if !HasPrefix(dictionary.value.0, REFERENCE_TAG) then Err(MalformedDictionary)
      else DecodeBody(dictionary.value.1, dictionary.value.0[|REFERENCE_TAG|..])
  }

  method DecodeString(text: string, sources: seq<Source>, limit: nat) returns (result: Result<string, DecodeError>)
    ensures Agrees(result, DecodeText(sources, text), limit)
  {
    if HasPrefix(text, LITERAL_TAG) {
      var literal := text[|LITERAL_TAG|..];
      return if Size(literal) > limit then Err(OverBudget) else Ok(literal);
    }
    if HasPrefix(text, VISIBLE_LINES_TAG) {
      result := DecodeVisibleLines(sources, text, limit);
      return;
    }
    if HasPrefix(text, REFERENCE_TAG) {
      return Err(NoDictionary);
    }
    if !HasPrefix(text, DICTIONARY_TAG) {
      return if Size(text) > limit then Err(OverBudget) else Ok(text);
    }
    var dictionary := DecodeDictionaryLines(text[|DICTIONARY_TAG|..]);
    if dictionary.Err? {
      return Err(dictionary.error);
    }
    result := DecodeReferenceBody(dictionary.value.0, dictionary.value.1, limit);
  }

  // ---- The literal form ---------------------------------------------------------------

  lemma TaggedHasPrefix(tag: string, rest: string)
    ensures HasPrefix(tag + rest, tag) && (tag + rest)[|tag|..] == rest
  {
  }

  /** The literal form carries every text, also one that starts with a tag. */
  lemma LiteralRoundTrip(sources: seq<Source>, value: string)
    ensures DecodeText(sources, EncodeLiteral(value)) == Ok(value)
    ensures !HasPrefix(EncodeLiteral(value), REFERENCE_TAG)
  {
    if LooksLikeFraming(value) {
      TaggedHasPrefix(LITERAL_TAG, value);
      PrefixChar(EncodeLiteral(value), LITERAL_TAG, 6);
      PrefixChar(EncodeLiteral(value), REFERENCE_TAG, 6);
    }
  }

  // ---- Numbered definitions -----------------------------------------------------------

  /** ctp2Base36 */
  function Base36(n: nat): string {
    Numerals.Format(n, 36)
  }

  /** Base-36 numerals are valid reference ids, and different numbers have different ones. */
  lemma Base36IsValidAndDistinct(n: nat, m: nat)
    ensures ValidId(Base36(n))
    ensures Base36(n) == Base36(m) ==> n == m
  {
    Numerals.FormatDigits(n, 36);
    Numerals.ParseFormat(n, 36);
    Numerals.ParseFormat(m, 36);
    forall i | 0 <= i < |Base36(n)| ensures IsIdChar(Base36(n)[i]) {
      assert Numerals.DigitValue(Base36(n)[i]).Some?;
    }
  }

  ghost predicate NumberedAt(definitions: seq<Definition>, i: nat)
    requires i < |definitions|
  {
    definitions[i].id == Base36(i)
  }

  ghost predicate Numbered(definitions: seq<Definition>) {
    forall i :: 0 <= i < |definitions| ==> NumberedAt(definitions, i)
  }

  lemma NumberedIdsAreDistinct(definitions: seq<Definition>)
    requires Numbered(definitions)
    ensures DistinctIds(definitions)
  {
    forall i | 0 <= i < |definitions| ensures ValidId(definitions[i].id) {
      assert NumberedAt(definitions, i);
      Base36IsValidAndDistinct(i, i);
    }
    forall i, j | 0 <= i < j < |definitions| ensures definitions[i].id != definitions[j].id {
      assert NumberedAt(definitions, i) && NumberedAt(definitions, j);
      Base36IsValidAndDistinct(i, j);
    }
  }

  function Number(values: seq<string>): (definitions: seq<Definition>)
    ensures Numbered(definitions) && |definitions| == |values|
  {
    var definitions := seq(|values|, i requires 0 <= i < |values| => Definition(Base36(i), values[i]));
    assert forall i :: 0 <= i < |values| ==> NumberedAt(definitions, i);
    definitions
  }

  // ---- The compact form ----------------------------------------------------------------

  function Compact(definitions: seq<Definition>, value: string): string {
    RenderDictionary(definitions) + (REFERENCE_TAG + EncodeFrom(definitions, value, false))
  }

  lemma CompactStarts(definitions: seq<Definition>, value: string)
    ensures Compact(definitions, value)
            == DICTIONARY_TAG
               + (DefinitionLines(definitions) + DICTIONARY_END
                 + (REFERENCE_TAG + EncodeFrom(definitions, value, false)))
  {
  }

  // A text that starts with the dictionary tag starts with no other tag.
  lemma DictionaryTagOnly(text: string)
    requires HasPrefix(text, DICTIONARY_TAG)
    ensures !HasPrefix(text, LITERAL_TAG) && !HasPrefix(text, VISIBLE_LINES_TAG) && !HasPrefix(text, REFERENCE_TAG)
  {
    PrefixChar(text, DICTIONARY_TAG, 6);
    PrefixChar(text, LITERAL_TAG, 6);
    PrefixChar(text, REFERENCE_TAG, 6);
    PrefixChar(text, DICTIONARY_TAG, 1);
    PrefixChar(text, VISIBLE_LINES_TAG, 1);
  }

  lemma CompactIsTagged(definitions: seq<Definition>, value: string)
    ensures var text := Compact(definitions, value);
      && HasPrefix(text, DICTIONARY_TAG)
      && !HasPrefix(text, LITERAL_TAG) && !HasPrefix(text, VISIBLE_LINES_TAG) && !HasPrefix(text, REFERENCE_TAG)
      && text[|DICTIONARY_TAG|..]
         == DefinitionLines(definitions) + DICTIONARY_END + (REFERENCE_TAG + EncodeFrom(definitions, value, false))
  {
    var body := REFERENCE_TAG + EncodeFrom(definitions, value, false);
    CompactStarts(definitions, value);
    TaggedHasPrefix(DICTIONARY_TAG, DefinitionLines(definitions) + DICTIONARY_END + body);
    DictionaryTagOnly(Compact(definitions, value));
  }

  /** Dictionary and body decode to the text, whatever it contains and whatever
      sources the decoder holds. */
  lemma CompactRoundTrip(sources: seq<Source>, definitions: seq<Definition>, value: string)
    requires DistinctIds(definitions) && definitions != []
    ensures DecodeText(sources, Compact(definitions, value)) == Ok(value)
  {
    CompactIsTagged(definitions, value);
    DictionaryRoundTrip(definitions, value);
    TaggedHasPrefix(REFERENCE_TAG, EncodeFrom(definitions, value, false));
  }

  // ---- The content-local encoder ---------------------------------------------------------

  type Counter = string -> Option<nat>

  datatype EncodeError = CountFailed | Undecodable(cause: DecodeError) | ChangedText

  datatype Local = Local(text: string, tokens: nat)

  // The values referenced at least twice, in order.
  function RetainedValues(definitions: seq<Definition>, references: multiset<string>): (values: seq<string>)
    ensures |values| <= |definitions|
  {
    if definitions == [] then [] else
    var d := definitions[|definitions| - 1];
    RetainedValues(definitions[..|definitions| - 1], references) + if references[d.id] >= 2 then [d.value] else []
  }

  /** What is kept: the values whose definition the first encoding referenced twice or more. */
  lemma {:induction false} RetainedIff(definitions: seq<Definition>, references: multiset<string>, value: string)
    ensures value in RetainedValues(definitions, references)
      <==> exists d :: d in definitions && d.value == value && references[d.id] >= 2
  {
    if definitions != [] {
      var rest, last := definitions[..|definitions| - 1], definitions[|definitions| - 1];
      RetainedIff(rest, references, value);
      assert definitions == rest + [last];
    }
  }

  // The definitions of the final encoding.
  function Kept(candidates: seq<string>, value: string): seq<Definition> {
    var values := RetainedValues(Number(candidates), ReferencesFrom(Number(candidates), value, false));
    if |values| == |candidates| then Number(candidates) else Number(values)
  }

  /** The compact text that competes with the literal one: there is none without a
      definition that the text refers to. */
  function Offered(candidates: seq<string>, value: string): Option<string> {
    var definitions := Kept(candidates, value);
    if definitions == [] || ReferencesFrom(definitions, value, false) == multiset{} then None
    else Some(Compact(definitions, value))
  }

  /** Definitions referenced only once are dropped and the others renumbered. */
  method Retain(definitions: seq<Definition>, references: multiset<string>) returns (kept: seq<Definition>)
    requires Numbered(definitions)
    ensures Numbered(kept)
    ensures var values := RetainedValues(definitions, references);
      kept == if |values| == |definitions| then definitions else Number(values)
  {
    var retained: seq<Definition> := [];
    for i := 0 to |definitions|
      invariant |retained| == |RetainedValues(definitions[..i], references)|
      invariant forall j :: 0 <= j < |retained| ==> retained[j].value == RetainedValues(definitions[..i], references)[j]
    {
      assert definitions[..i + 1][..i] == definitions[..i];
      if references[definitions[i].id] >= 2 {
        retained := retained + [definitions[i]];
      }
    }
    assert definitions[..|definitions|] == definitions;
    if |retained| == |definitions| {
      return definitions;
    }
    for i := 0 to |retained|
      invariant |retained| == |RetainedValues(definitions, references)|
      invariant forall j :: 0 <= j < |retained| ==> retained[j].value == RetainedValues(definitions, references)[j]
      invariant forall j :: 0 <= j < i ==> retained[j].id == Base36(j)
    {
      retained := retained[i := retained[i].(id := Base36(i))];
    }
    ghost var values := RetainedValues(definitions, references);
    forall i | 0 <= i < |values| ensures Number(values)[i] == retained[i] {
      assert NumberedAt(Number(values), i);
    }
    kept := retained;
  }

  ghost predicate DecodesTo(text: string, value: string) {
    forall sources :: DecodeText(sources, text) == Ok(value)
  }

  lemma LiteralDecodes(value: string)
    ensures DecodesTo(EncodeLiteral(value), value) && !HasPrefix(EncodeLiteral(value), REFERENCE_TAG)
  {
    forall sources ensures DecodeText(sources, EncodeLiteral(value)) == Ok(value) {
      LiteralRoundTrip(sources, value);
    }
    LiteralRoundTrip([], value);
  }

  lemma CompactDecodes(definitions: seq<Definition>, value: string)
    requires Numbered(definitions) && definitions != []
    ensures DecodesTo(Compact(definitions, value), value)
  {
    NumberedIdsAreDistinct(definitions);
    forall sources ensures DecodeText(sources, Compact(definitions, value)) == Ok(value) {
      CompactRoundTrip(sources, definitions, value);
    }
  }

  // The check before a compact text is returned: it can only fail on the limit.
  method Confirm(compact: string, value: string, tokens: nat, limit: nat) returns (result: Result<Local, EncodeError>)
    requires DecodesTo(compact, value)
    ensures result.Ok? ==> result.value == Local(compact, tokens)
    ensures result.Err? ==> result.error.Undecodable? && Size(value) > limit
  {
    var decoded := DecodeString(compact, [], limit);
    assert DecodeText([], compact) == Ok(value);
    if decoded.Err? {
      return Err(Undecodable(decoded.error));
    }
    if decoded.value != value {
      return Err(ChangedText);
    }
    result := Ok(Local(compact, tokens));
  }

  // The answer is the cheaper of the literal text and the compact one, if there is one.
  predicate IsCheaper(local: Local, literal: string, offered: Option<string>, count: Counter) {
    && count(literal).Some?
    && (offered.None? ==> local == Local(literal, count(literal).value))
    && (offered.Some? ==>
          && count(offered.value).Some?
          && local == if count(offered.value).value < count(literal).value
                      then Local(offered.value, count(offered.value).value)
                      else Local(literal, count(literal).value))
  }

  predicate CannotCount(literal: string, offered: Option<string>, count: Counter) {
    count(literal).None? || (offered.Some? && count(offered.value).None?)
  }

  /** What a local encoding promises, and the only reasons to give none. */
  ghost predicate LocalContract(result: Result<Local, EncodeError>, value: string, candidates: Option<seq<string>>,
                                count: Counter, limit: nat) {
    match result
    case Ok(local) =>
      && DecodesTo(local.text, value) && candidates.Some?
      && IsCheaper(local, EncodeLiteral(value), Offered(candidates.value, value), count)
    case Err(CountFailed) =>
      candidates.None? || CannotCount(EncodeLiteral(value), Offered(candidates.value, value), count)
    case Err(Undecodable(_)) => Size(value) > limit
    case Err(ChangedText) => false
  }

  lemma LocalIsNoDearer(result: Result<Local, EncodeError>, value: string, candidates: Option<seq<string>>,
                        count: Counter, limit: nat)
    requires LocalContract(result, value, candidates, count, limit) && result.Ok?
    ensures count(result.value.text) == Some(result.value.tokens)
    ensures count(EncodeLiteral(value)).Some? && result.value.tokens <= count(EncodeLiteral(value)).value
  {
  }

  /** encodeContentLocalString: never an answer that decodes to another text, the
      cheaper of the literal and the compact form, and no refusal except for a failed
      count or a text that is itself over the limit. */
  method EncodeContentLocal(value: string, candidates: Option<seq<string>>, count: Counter, limit: nat)
      returns (result: Result<Local, EncodeError>)
    ensures LocalContract(result, value, candidates, count, limit)
  {
    var literal := EncodeLiteral(value);
    LiteralDecodes(value);
    var literalTokens := count(literal);
    if literalTokens.None? || candidates.None? {
      return Err(CountFailed);
    }
    var encoded, definitions := EncodeKept(candidates.value, value);
    if definitions == [] || !HasPrefix(encoded, REFERENCE_TAG) {
      return Ok(Local(literal, literalTokens.value));
    }
    var compact := RenderDictionary(definitions) + encoded;
    CompactDecodes(definitions, value);
    var compactTokens := count(compact);
    if compactTokens.None? {
      return Err(CountFailed);
    }
    if compactTokens.value >= literalTokens.value {
      return Ok(Local(literal, literalTokens.value));
    }
    result := Confirm(compact, value, compactTokens.value, limit);
  }

  // The text encoded with the definitions that pay their way, and these definitions.
  method EncodeKept(candidates: seq<string>, value: string) returns (encoded: string, definitions: seq<Definition>)
    ensures definitions == Kept(candidates, value) && Numbered(definitions)
    ensures HasPrefix(encoded, REFERENCE_TAG) <==> ReferencesFrom(definitions, value, false) != multiset{}
    ensures HasPrefix(encoded, REFERENCE_TAG) ==> encoded == REFERENCE_TAG + EncodeFrom(definitions, value, false)
  {
    definitions := Number(candidates);
    var references;
    encoded, references := Encode(definitions, value);
    var retained := Retain(definitions, references);
    if |retained| != |definitions| {
      definitions := retained;
      encoded, references := Encode(definitions, value);
    }
    LiteralDecodes(value);
    TaggedHasPrefix(REFERENCE_TAG, EncodeFrom(definitions, value, false));
  }
}
