/** Positional numerals as Go's strconv and math/big write and read them. */
module Numerals {
  import opened Wrappers

  function Digit(d: nat): char
    requires d < 36
  {
    if d < 10 then ('0' as int + d) as char else ('a' as int + d - 10) as char
  }

  function DigitValue(c: char): Option<nat> {
    if '0' <= c <= '9' then Some(c as int - '0' as int)
    else if 'a' <= c <= 'z' then Some(c as int - 'a' as int + 10)
    else None
  }

  lemma DigitRoundTrip(d: nat)
    requires d < 36
    ensures DigitValue(Digit(d)) == Some(d)
  {
  }

  lemma AtLeastTwice(n: nat, base: nat)
    requires base >= 2
    ensures n * base >= n * 2
  {
  }

  lemma DivMod(n: nat, base: nat)
    requires base >= 2
    ensures n == n / base * base + n % base && 0 <= n % base < base
    ensures n >= base ==> 0 < n / base < n
  {
    AtLeastTwice(n / base, base);
  }

  function Format(n: nat, base: nat): (text: string)
    requires 2 <= base <= 36
    ensures text != ""
  {
    if n < base then [Digit(n)]
    else
      DivMod(n, base);
      Format(n / base, base) + [Digit(n % base)]
  }

  function Parse(text: string, base: nat): Option<nat>
    requires 2 <= base <= 36
  {
    if text == "" then None else
    var last := DigitValue(text[|text| - 1]);
    if last.None? || last.value >= base then None
    else if |text| == 1 then last
    else
      var front := Parse(text[..|text| - 1], base);
      if front.None? then None else Some(front.value * base + last.value)
  }

  lemma ParseAppend(front: string, d: nat, base: nat)
    requires 2 <= base <= 36 && d < base && front != "" && Parse(front, base).Some?
    ensures Parse(front + [Digit(d)], base) == Some(Parse(front, base).value * base + d)
  {
    DigitRoundTrip(d);
    assert (front + [Digit(d)])[..|front|] == front;
  }

  /** Reading inverts writing, so different numbers have different numerals. */
  lemma {:induction false} ParseFormat(n: nat, base: nat)
    requires 2 <= base <= 36
    ensures Parse(Format(n, base), base) == Some(n)
  {
    DivMod(n, base);
    if n >= base {
      ParseFormat(n / base, base);
      ParseAppend(Format(n / base, base), n % base, base);
    } else {
      DigitRoundTrip(n);
    }
  }

  predicate AllDigits(text: string, base: nat) {
    forall i :: 0 <= i < |text| ==> DigitValue(text[i]).Some? && DigitValue(text[i]).value < base
  }

  lemma {:induction false} FormatDigits(n: nat, base: nat)
    requires 2 <= base <= 36
    ensures AllDigits(Format(n, base), base)
  {
    DivMod(n, base);
    if n >= base {
      DigitRoundTrip(n % base);
      FormatDigits(n / base, base);
    } else {
      DigitRoundTrip(n);
    }
  }

  /** strconv.Itoa and big.Int.String: a sign only when negative. */
  function FormatInt(n: int): string {
    if n < 0 then "-" + Format(-n, 10) else Format(n, 10)
  }

  /** strconv.Atoi and big.Int.SetString in base 10: an optional sign, then digits. */
  function ParseInt(text: string): Option<int> {
    if text != "" && (text[0] == '-' || text[0] == '+') then
      var n := Parse(text[1..], 10);
      if n.None? then None else Some(if text[0] == '-' then -(n.value as int) else n.value as int)
    else
      var n := Parse(text, 10);
      if n.None? then None else Some(n.value as int)
  }

  lemma ParseFormatInt(n: int)
    ensures ParseInt(FormatInt(n)) == Some(n)
  {
    var m := if n < 0 then -n else n;
    ParseFormat(m, 10);
    FormatDigits(m, 10);
    assert DigitValue(Format(m, 10)[0]).Some?;
    if n < 0 {
      assert FormatInt(n)[1..] == Format(m, 10);
    }
  }
}
