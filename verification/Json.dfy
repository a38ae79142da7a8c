/** JSON strings (section 7 of RFC 8259) as Go's encoder writes them with HTML
    escaping off, and as its decoder reads them into a string variable. */
module Json {
  import opened Wrappers

  // ---- Quoting -------------------------------------------------------------------

  function HexDigit(n: nat): char
    requires n < 16
  {
    "0123456789abcdef"[n]
  }

  function HexValue(c: char): Option<nat> {
    if '0' <= c <= '9' then Some(c as int - '0' as int)
    else if 'a' <= c <= 'f' then Some(c as int - 'a' as int + 10)
    else if 'A' <= c <= 'F' then Some(c as int - 'A' as int + 10)
    else None
  }

  lemma HexRoundTrip(n: nat)
    requires n < 16
    ensures HexValue(HexDigit(n)) == Some(n)
  {
  }

  function UnicodeEscape(c: char): string
    requires c as int < 0x10000
  {
    var n := c as int;
    ['\\', 'u', HexDigit(n / 16 / 16 / 16), HexDigit(n / 16 / 16 % 16), HexDigit(n / 16 % 16), HexDigit(n % 16)]
  }

  function EscapeChar(c: char): string {
    if c == '\"' then ['\\', '\"']
    else if c == '\\' then ['\\', '\\']
    else if c == '\U{8}' then ['\\', 'b']
    else if c == '\U{C}' then ['\\', 'f']
    else if c == '\n' then ['\\', 'n']
    else if c == '\r' then ['\\', 'r']
    else if c == '\t' then ['\\', 't']
    else if c < ' ' || c == '\U{2028}' || c == '\U{2029}' then UnicodeEscape(c)
    else [c]
  }

  function Escape(text: string): string {
    if text == "" then "" else EscapeChar(text[0]) + Escape(text[1..])
  }

  function Quote(text: string): string {
    "\"" + Escape(text) + "\""
  }

  lemma HexIsNoLineFeed(n: nat)
    requires n < 16
    ensures HexDigit(n) != '\n'
  {
  }

  lemma UnicodeHasNoLineFeed(c: char)
    requires c as int < 0x10000
    ensures '\n' !in UnicodeEscape(c)
  {
    var n := c as int;
    HexIsNoLineFeed(n / 16 / 16 / 16);
    HexIsNoLineFeed(n / 16 / 16 % 16);
    HexIsNoLineFeed(n / 16 % 16);
    HexIsNoLineFeed(n % 16);
  }

  lemma EscapedCharHasNoLineFeed(c: char)
    ensures '\n' !in EscapeChar(c)
  {
    if c < ' ' || c == '\U{2028}' || c == '\U{2029}' {
      UnicodeHasNoLineFeed(c);
    }
  }

  lemma {:induction false} EscapeHasNoLineFeed(text: string)
    ensures '\n' !in Escape(text)
  {
    if text != "" {
      EscapedCharHasNoLineFeed(text[0]);
      EscapeHasNoLineFeed(text[1..]);
    }
  }

  /** A quoted string fits on one line. */
  lemma QuoteHasNoLineFeed(text: string)
    ensures '\n' !in Quote(text)
  {
    EscapeHasNoLineFeed(text);
  }

  // ---- Unquoting -----------------------------------------------------------------

  predicate IsSpace(c: char) {
    c == ' ' || c == '\t' || c == '\r' || c == '\n'
  }

  function TrimLeft(text: string): string {
    if text != "" && IsSpace(text[0]) then TrimLeft(text[1..]) else text
  }

  function TrimRight(text: string): string {
    if text != "" && IsSpace(text[|text| - 1]) then TrimRight(text[..|text| - 1]) else text
  }

  function HexUnit(text: string): Option<nat>
    requires |text| >= 4
  {
    var a, b, c, d := HexValue(text[0]), HexValue(text[1]), HexValue(text[2]), HexValue(text[3]);
    if a.Some? && b.Some? && c.Some? && d.Some? then
      Some(a.value * 4096 + b.value * 256 + c.value * 16 + d.value)
    else None
  }

  predicate IsSurrogate(unit: nat) {
    0xD800 <= unit < 0xE000
  }

  // The low half that completes a pair, if `text` starts with its escape.
  function LowHalf(text: string): Option<nat> {
    if |text| >= 6 && text[0] == '\\' && text[1] == 'u' then
      var unit := HexUnit(text[2..]);
      if unit.Some? && 0xDC00 <= unit.value < 0xE000 then unit else None
    else None
  }

  function Prepend(c: char, rest: Option<string>): Option<string> {
    if rest.Some? then Some([c] + rest.value) else None
  }

  function SimpleEscape(c: char): Option<char> {
    if c == '\"' || c == '\\' || c == '/' then Some(c)
    else if c == 'b' then Some('\U{8}')
    else if c == 'f' then Some('\U{C}')
    else if c == 'n' then Some('\n')
    else if c == 'r' then Some('\r')
    else if c == 't' then Some('\t')
    else None
  }

  /** The characters of a string after its opening quote; the closing quote must end the text. */
  function Body(text: string): Option<string>
    decreases |text|
  {
    if text == "" then None
    else if text[0] == '\"' then if |text| == 1 then Some("") else None
    else if text[0] == '\\' then
      if |text| < 2 then None
      else if text[1] == 'u' then UnicodeBody(text)
      else
        var c := SimpleEscape(text[1]);
        if c.Some? then Prepend(c.value, Body(text[2..])) else None
    else if text[0] < ' ' then None
    else Prepend(text[0], Body(text[1..]))
  }

  function UnicodeBody(text: string): Option<string>
    requires |text| >= 2
    decreases |text|, 0
  {
    if |text| < 6 then None else
    var unit := HexUnit(text[2..]);
    if unit.None? then None
    else if !IsSurrogate(unit.value) then Prepend(unit.value as char, Body(text[6..]))
    else
      var low := LowHalf(text[6..]);
      if unit.value < 0xDC00 && low.Some? then
        Prepend((0x10000 + (unit.value - 0xD800) * 1024 + (low.value - 0xDC00)) as char, Body(text[12..]))
      else Prepend('\U{FFFD}', Body(text[6..]))
  }

  /** json.Unmarshal into a string variable that holds "". */
  function Unquote(text: string): Option<string> {
    var value := TrimRight(TrimLeft(text));
    if value == "null" then Some("")
    else if value != "" && value[0] == '\"' then Body(value[1..])
    else None
  }

  lemma HexUnitRoundTrip(n: nat, text: string)
    requires n < 0x10000 && |text| >= 4
    requires text[0] == HexDigit(n / 16 / 16 / 16) && text[1] == HexDigit(n / 16 / 16 % 16)
    requires text[2] == HexDigit(n / 16 % 16) && text[3] == HexDigit(n % 16)
    ensures HexUnit(text) == Some(n)
  {
    HexRoundTrip(n / 16 / 16 / 16);
    HexRoundTrip(n / 16 / 16 % 16);
    HexRoundTrip(n / 16 % 16);
    HexRoundTrip(n % 16);
  }

  lemma UnicodeRoundTrip(c: char, rest: string)
    requires c < ' ' || c == '\U{2028}' || c == '\U{2029}'
    ensures Body(UnicodeEscape(c) + rest) == Prepend(c, Body(rest))
  {
    var text := UnicodeEscape(c) + rest;
    HexUnitRoundTrip(c as int, text[2..]);
    assert text[6..] == rest;
  }

  lemma CharRoundTrip(c: char, rest: string)
    ensures Body(EscapeChar(c) + rest) == Prepend(c, Body(rest))
  {
    var text := EscapeChar(c) + rest;
    if |EscapeChar(c)| == 6 {
      UnicodeRoundTrip(c, rest);
    } else if |EscapeChar(c)| == 2 {
      assert text[2..] == rest;
    } else {
      assert text[1..] == rest;
    }
  }

  lemma {:induction false} BodyRoundTrip(text: string)
    ensures Body(Escape(text) + "\"") == Some(text)
  {
    if text == "" {
      assert Escape(text) + "\"" == "\"";
    } else {
      BodyRoundTrip(text[1..]);
      CharRoundTrip(text[0], Escape(text[1..]) + "\"");
      assert Escape(text) + "\"" == EscapeChar(text[0]) + (Escape(text[1..]) + "\"");
      assert [text[0]] + text[1..] == text;
    }
  }

  /** Unquoting inverts quoting, for every text. */
  lemma UnquoteQuote(text: string)
    ensures Unquote(Quote(text)) == Some(text)
  {
    BodyRoundTrip(text);
    var quoted := Quote(text);
    assert quoted[0] == '\"' && quoted[|quoted| - 1] == '\"';
    assert quoted[1..] == Escape(text) + "\"";
  }
}
