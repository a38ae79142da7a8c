/** One spelling for every decimal value (capturer/content_tokens.go:86-112), over the
    numbers of JSON (section 6 of RFC 8259). */
module Numbers {
  import opened Texts
  import opened Wrappers
  import Numerals

  // ---- JSON numbers -----------------------------------------------------------------

  datatype ExponentSign = NoSign | Plus | Minus

  datatype Exponent = Exponent(upper: bool, sign: ExponentSign, digits: string)

  datatype Number = Number(negative: bool, whole: string, fraction: Option<string>, exponent: Option<Exponent>)

  predicate IsDigits(text: string) {
    forall i :: 0 <= i < |text| ==> '0' <= text[i] <= '9'
  }

  /** The grammar: no leading zero, and digits after the point and in the exponent. */
  predicate IsNumber(n: Number) {
    && IsDigits(n.whole) && n.whole != "" && (n.whole[0] == '0' ==> |n.whole| == 1)
    && (n.fraction.Some? ==> IsDigits(n.fraction.value) && n.fraction.value != "")
    && (n.exponent.Some? ==> IsDigits(n.exponent.value.digits) && n.exponent.value.digits != "")
  }

  function SignText(sign: ExponentSign): string {
    match sign case NoSign => "" case Plus => "+" case Minus => "-"
  }

  function ExponentText(n: Number): string {
    if n.exponent.None? then "" else SignText(n.exponent.value.sign) + n.exponent.value.digits
  }

  function Mantissa(n: Number): string {
    n.whole + if n.fraction.Some? then "." + n.fraction.value else ""
  }

  function ExponentLetter(n: Number): char {
    if n.exponent.Some? && n.exponent.value.upper then 'E' else 'e'
  }

  function Unsigned(n: Number): string {
    if n.exponent.Some? then Mantissa(n) + [ExponentLetter(n)] + ExponentText(n) else Mantissa(n)
  }

  function Signed(negative: bool, text: string): string {
    if negative then "-" + text else text
  }

  function Spelling(n: Number): string {
    Signed(n.negative, Unsigned(n))
  }

  // ---- Values ----------------------------------------------------------------------------

  function DigitAmount(c: char): nat {
    if '0' <= c <= '9' then c as int - '0' as int else 0
  }

  function Amount(digits: string): nat {
    if digits == "" then 0 else Amount(digits[..|digits| - 1]) * 10 + DigitAmount(digits[|digits| - 1])
  }

  function Pow10(n: nat): nat {
    if n == 0 then 1 else 10 * Pow10(n - 1)
  }

  function Digits(n: Number): string {
    n.whole + if n.fraction.Some? then n.fraction.value else ""
  }

  function Coefficient(n: Number): int {
    if n.negative then -(Amount(Digits(n)) as int) else Amount(Digits(n)) as int
  }

  function ExponentValue(n: Number): int {
    if n.exponent.None? then 0
    else if n.exponent.value.sign.Minus? then -(Amount(n.exponent.value.digits) as int)
    else Amount(n.exponent.value.digits) as int
  }

  /** The number is its coefficient times ten to this power. */
  function Power(n: Number): int {
    ExponentValue(n) - if n.fraction.Some? then |n.fraction.value| else 0
  }

  function Min(a: int, b: int): int {
    if a < b then a else b
  }

  /** The same decimal value: equal when both are written with the smaller power. */
  predicate SameValue(a: Number, b: Number) {
    var low := Min(Power(a), Power(b));
    Coefficient(a) * Pow10(Power(a) - low) == Coefficient(b) * Pow10(Power(b) - low)
  }

  // ---- normalizedNumber --------------------------------------------------------------------

  function ToLower(text: string): string {
    seq(|text|, i requires 0 <= i < |text| => if 'A' <= text[i] <= 'Z' then (text[i] as int + 32) as char else text[i])
  }

  function DropLeading(text: string): string {
    if text != "" && text[0] == '0' then DropLeading(text[1..]) else text
  }

  function DropTrailing(text: string): string {
    if text != "" && text[|text| - 1] == '0' then DropTrailing(text[..|text| - 1]) else text
  }

  // strings.Cut: what is before and after the first `c`; all and nothing without one.
  function Before(text: string, c: char): string {
    var at := IndexOf(text, c);
    if at.None? then text else text[..at.value]
  }

  function After(text: string, c: char): string {
    var at := IndexOf(text, c);
    if at.None? then "" else text[at.value + 1..]
  }

  // big.Int.SetString; the exponent of a JSON number always parses.
  function PowerOf(exponent: string): int {
    var power := Numerals.ParseInt(exponent);
    if exponent == "" || power.None? then 0 else power.value
  }

  // The last steps: zeros go, the power says where the point is.
  function Canonical(negative: bool, digits: string, power: int): string {
    var mantissa := DropLeading(digits);
    if mantissa == "" then "0" else
    var significant := DropTrailing(mantissa);
    Signed(negative, WithPower(significant, power + |mantissa| - |significant|))
  }

  function WithPower(digits: string, power: int): string {
    if power == 0 then digits else digits + ['e'] + Numerals.FormatInt(power)
  }

  function Reduced(negative: bool, mantissa: string, exponent: string): string {
    Canonical(negative, Before(mantissa, '.') + After(mantissa, '.'), PowerOf(exponent) - |After(mantissa, '.')|)
  }

  predicate IsNegative(text: string) {
    text != "" && text[0] == '-'
  }

  function Magnitude(text: string): string {
    if IsNegative(text) then text[1..] else text
  }

  function Normalized(text: string): string {
    var value := ToLower(Magnitude(text));
    Reduced(IsNegative(text), Before(value, 'e'), After(value, 'e'))
  }

  method NormalizedNumber(text: string) returns (normal: string)
    ensures normal == Normalized(text)
  {
    var negative, value := false, text;
    if value != "" && value[0] == '-' {
      negative, value := true, value[1..];
    }
    value := ToLower(value);
    normal := Reduce(negative, Before(value, 'e'), After(value, 'e'));
  }

  // The digits without the point, and how many of them were behind it.
  method WithoutPoint(value: string) returns (mantissa: string, places: nat)
    ensures mantissa == Before(value, '.') + After(value, '.') && places == |After(value, '.')|
  {
    var dot := IndexOf(value, '.');
    if dot.Some? {
      places := |value| - dot.value - 1;
      mantissa := value[..dot.value] + value[dot.value + 1..];
    } else {
      mantissa, places := value, 0;
      assert value + "" == value;
    }
  }

  method Reduce(negative: bool, value: string, exponent: string) returns (normal: string)
    ensures normal == Reduced(negative, value, exponent)
  {
    var power := 0;
    if exponent != "" {
      power := PowerOf(exponent);
    }
    var mantissa, places := WithoutPoint(value);
    power := power - places;
    mantissa := DropLeading(mantissa);
    if mantissa == "" {
      return "0";
    }
    var digits := DropTrailing(mantissa);
    power := power + (|mantissa| - |digits|);
    normal := Signed(negative, WithPower(digits, power));
  }

  // ---- Spelled numbers fall apart as they were put together ----------------------------------

  lemma CutAt(before: string, c: char, after: string, text: string)
    requires c !in before && text == before + [c] + after
    ensures Before(text, c) == before && After(text, c) == after
  {
    IndexOfFirst(before, c, after);
  }

  lemma CutNothing(text: string, c: char)
    requires c !in text
    ensures Before(text, c) == text && After(text, c) == ""
  {
  }

  predicate IsPlain(text: string) {
    forall i :: 0 <= i < |text| ==> !('A' <= text[i] <= 'Z')
  }

  lemma LowerPlain(text: string)
    requires IsPlain(text)
    ensures ToLower(text) == text
  {
  }

  lemma LowerConcat(a: string, b: string)
    ensures ToLower(a + b) == ToLower(a) + ToLower(b)
  {
  }

  lemma MantissaIsPlain(n: Number)
    requires IsNumber(n)
    ensures IsPlain(Mantissa(n)) && 'e' !in Mantissa(n) && Mantissa(n)[0] != '-'
    ensures IsPlain(ExponentText(n))
    ensures Before(Mantissa(n), '.') + After(Mantissa(n), '.') == Digits(n)
    ensures |After(Mantissa(n), '.')| == if n.fraction.Some? then |n.fraction.value| else 0
  {
    if n.fraction.Some? {
      assert Mantissa(n) == n.whole + ['.'] + n.fraction.value;
      CutAt(n.whole, '.', n.fraction.value, Mantissa(n));
    } else {
      CutNothing(Mantissa(n), '.');
    }
  }

  lemma SignedParts(negative: bool, text: string)
    requires text != "" && text[0] != '-'
    ensures IsNegative(Signed(negative, text)) == negative && Magnitude(Signed(negative, text)) == text
  {
  }

  lemma LowerJoined(before: string, c: char, after: string)
    requires IsPlain(before) && IsPlain(after)
    ensures ToLower(before + [c] + after) == before + ToLower([c]) + after
  {
    LowerConcat(before + [c], after);
    LowerConcat(before, [c]);
    LowerPlain(before);
    LowerPlain(after);
  }

  // In lower case the exponent letter is where the mantissa ends.
  lemma LowerUnsigned(n: Number)
    requires IsNumber(n)
    ensures Before(ToLower(Unsigned(n)), 'e') == Mantissa(n) && After(ToLower(Unsigned(n)), 'e') == ExponentText(n)
  {
    MantissaIsPlain(n);
    if n.exponent.Some? {
      LowerJoined(Mantissa(n), ExponentLetter(n), ExponentText(n));
      assert ToLower([ExponentLetter(n)]) == ['e'];
      CutAt(Mantissa(n), 'e', ExponentText(n), ToLower(Unsigned(n)));
    } else {
      LowerPlain(Mantissa(n));
      CutNothing(Mantissa(n), 'e');
    }
  }

  lemma UnsignedStart(n: Number)
    requires IsNumber(n)
    ensures Unsigned(n) != "" && Unsigned(n)[0] == n.whole[0] != '-'
  {
  }

  lemma {:induction false} ParseIsAmount(digits: string)
    requires IsDigits(digits) && digits != ""
    ensures Numerals.Parse(digits, 10) == Some(Amount(digits))
  {
    if |digits| > 1 {
      ParseIsAmount(digits[..|digits| - 1]);
    } else {
      assert Amount(digits[..0]) == 0;
    }
  }

  lemma PowerOfDigits(digits: string)
    requires IsDigits(digits) && digits != ""
    ensures PowerOf(digits) == Amount(digits)
  {
    ParseIsAmount(digits);
  }

  lemma PowerOfSigned(sign: char, digits: string)
    requires IsDigits(digits) && digits != "" && (sign == '-' || sign == '+')
    ensures PowerOf([sign] + digits) == if sign == '-' then -(Amount(digits) as int) else Amount(digits)
  {
    var text := [sign] + digits;
    assert text[0] == sign && text[1..] == digits;
    ParseIsAmount(digits);
  }

  lemma PowerOfExponent(n: Number)
    requires IsNumber(n)
    ensures PowerOf(ExponentText(n)) == ExponentValue(n)
  {
    if n.exponent.Some? {
      var digits := n.exponent.value.digits;
      match n.exponent.value.sign
      case NoSign =>
        assert "" + digits == digits;
        PowerOfDigits(digits);
      case Plus => PowerOfSigned('+', digits);
      case Minus => PowerOfSigned('-', digits);
    }
  }

  lemma ReducedParts(n: Number)
    requires IsNumber(n)
    ensures Reduced(n.negative, Mantissa(n), ExponentText(n)) == Canonical(n.negative, Digits(n), Power(n))
  {
    MantissaIsPlain(n);
    PowerOfExponent(n);
    ReducedFrom(n.negative, Mantissa(n), ExponentText(n), Digits(n), Power(n));
  }

  lemma ReducedFrom(negative: bool, mantissa: string, exponent: string, digits: string, power: int)
    requires Before(mantissa, '.') + After(mantissa, '.') == digits
    requires PowerOf(exponent) - |After(mantissa, '.')| == power
    ensures Reduced(negative, mantissa, exponent) == Canonical(negative, digits, power)
  {
  }

  lemma NormalizedParts(text: string, negative: bool, magnitude: string, mantissa: string, exponent: string)
    requires IsNegative(text) == negative && Magnitude(text) == magnitude
    requires Before(ToLower(magnitude), 'e') == mantissa && After(ToLower(magnitude), 'e') == exponent
    ensures Normalized(text) == Reduced(negative, mantissa, exponent)
  {
  }

  /** The code on a spelled number, in terms of its parts. */
  lemma NormalizedSpelling(n: Number)
    requires IsNumber(n)
    ensures Normalized(Spelling(n)) == Canonical(n.negative, Digits(n), Power(n))
  {
    UnsignedStart(n);
    SignedParts(n.negative, Unsigned(n));
    LowerUnsigned(n);
    NormalizedParts(Spelling(n), n.negative, Unsigned(n), Mantissa(n), ExponentText(n));
    ReducedParts(n);
  }

  // ---- Zeros --------------------------------------------------------------------------------

  lemma {:induction false} AmountConcat(a: string, b: string)
    ensures Amount(a + b) == Amount(a) * Pow10(|b|) + Amount(b)
    decreases |b|
  {
    if b == "" {
      assert a + b == a;
    } else {
      var front := b[..|b| - 1];
      assert (a + b)[..|a + b| - 1] == a + front;
      AmountConcat(a, front);
      Distribute(Amount(a), Pow10(|front|), Amount(front));
    }
  }

  lemma Distribute(a: int, p: int, f: int)
    ensures (a * p + f) * 10 == a * (10 * p) + f * 10
  {
  }

  lemma {:induction false} LeadingZeros(digits: string)
    requires IsDigits(digits)
    ensures var rest := DropLeading(digits);
      && IsDigits(rest) && Amount(rest) == Amount(digits) && (rest != "" ==> rest[0] != '0') && |rest| <= |digits|
  {
    if digits != "" && digits[0] == '0' {
      LeadingZeros(digits[1..]);
      assert digits == ['0'] + digits[1..];
      AmountConcat(['0'], digits[1..]);
      assert Amount(['0']) == Amount(['0'][..0]) * 10;
    }
  }

  lemma {:induction false} TrailingZeros(digits: string)
    requires IsDigits(digits)
    ensures var rest := DropTrailing(digits);
      && IsDigits(rest) && |rest| <= |digits| && rest == digits[..|rest|]
      && Amount(digits) == Amount(rest) * Pow10(|digits| - |rest|)
      && (rest != "" ==> rest[|rest| - 1] != '0')
  {
    if digits != "" && digits[|digits| - 1] == '0' {
      var front := digits[..|digits| - 1];
      TrailingZeros(front);
      var rest := DropTrailing(front);
      Distribute(Amount(rest), Pow10(|front| - |rest|), 0);
    }
  }

  lemma {:induction false} PositiveAmount(digits: string)
    requires IsDigits(digits) && digits != "" && digits[0] != '0'
    ensures Amount(digits) > 0
  {
    if |digits| > 1 {
      PositiveAmount(digits[..|digits| - 1]);
    } else {
      assert Amount(digits[..0]) == 0;
    }
  }

  /** Digits without leading zeros are determined by their amount. */
  lemma {:induction false} AmountIsInjective(a: string, b: string)
    requires IsDigits(a) && IsDigits(b) && (a != "" ==> a[0] != '0') && (b != "" ==> b[0] != '0')
    requires Amount(a) == Amount(b)
    ensures a == b
    decreases |a|
  {
    if a != "" && b != "" {
      var x, y := a[..|a| - 1], b[..|b| - 1];
      LastDigit(Amount(x), DigitAmount(a[|a| - 1]), Amount(y), DigitAmount(b[|b| - 1]));
      AmountIsInjective(x, y);
      assert a == x + [a[|a| - 1]] && b == y + [b[|b| - 1]];
    } else {
      if a != "" { PositiveAmount(a); }
      if b != "" { PositiveAmount(b); }
    }
  }

  lemma LastDigit(x: nat, c: nat, y: nat, d: nat)
    requires x * 10 + c == y * 10 + d && c < 10 && d < 10
    ensures x == y && c == d
  {
  }

  // ---- The canonical form ----------------------------------------------------------------------

  /** Sign, significant digits and power; zero has no digits. */
  datatype Form = Form(negative: bool, digits: string, power: int)

  function FormFrom(negative: bool, digits: string, power: int): Form {
    var mantissa := DropLeading(digits);
    if mantissa == "" then Form(false, "", 0) else
    var significant := DropTrailing(mantissa);
    Form(negative, significant, power + |mantissa| - |significant|)
  }

  function FormOf(n: Number): Form {
    FormFrom(n.negative, Digits(n), Power(n))
  }

  predicate IsForm(f: Form) {
    && IsDigits(f.digits)
    && if f.digits == "" then !f.negative && f.power == 0
       else f.digits[0] != '0' && f.digits[|f.digits| - 1] != '0'
  }

  function FormText(f: Form): string {
    if f.digits == "" then "0" else Signed(f.negative, WithPower(f.digits, f.power))
  }

  function FormAmount(f: Form): int {
    if f.negative then -(Amount(f.digits) as int) else Amount(f.digits) as int
  }

  lemma DigitsAreDigits(n: Number)
    requires IsNumber(n)
    ensures IsDigits(Digits(n))
  {
  }

  lemma TrailingLeavesSome(digits: string)
    requires IsDigits(digits) && digits != "" && digits[0] != '0'
    ensures DropTrailing(digits) != "" && DropTrailing(digits)[0] == digits[0]
  {
    TrailingZeros(digits);
    if |digits| > 1 && digits[|digits| - 1] == '0' {
      TrailingLeavesSome(digits[..|digits| - 1]);
    }
  }

  // What the two trims leave, and by how many zeros it is shifted.
  lemma Significant(digits: string)
    requires IsDigits(digits)
    ensures var mantissa := DropLeading(digits);
      if mantissa == "" then Amount(digits) == 0
      else
        var rest := DropTrailing(mantissa);
        && IsDigits(rest) && rest != "" && rest[0] != '0' && rest[|rest| - 1] != '0' && |rest| <= |mantissa|
        && Amount(digits) == Amount(rest) * Pow10(|mantissa| - |rest|)
  {
    LeadingZeros(digits);
    var mantissa := DropLeading(digits);
    TrailingZeros(mantissa);
    if mantissa != "" {
      TrailingLeavesSome(mantissa);
    }
  }

  lemma FormIsForm(n: Number)
    requires IsNumber(n)
    ensures IsForm(FormOf(n))
  {
    DigitsAreDigits(n);
    Significant(Digits(n));
  }

  lemma NormalizedIsFormText(n: Number)
    requires IsNumber(n)
    ensures Normalized(Spelling(n)) == FormText(FormOf(n))
  {
    NormalizedSpelling(n);
    DigitsAreDigits(n);
    CanonicalIsFormText(n.negative, Digits(n), Power(n));
  }

  lemma CanonicalIsFormText(negative: bool, digits: string, power: int)
    requires IsDigits(digits)
    ensures Canonical(negative, digits, power) == FormText(FormFrom(negative, digits, power))
  {
    SignificantIsSome(digits);
  }

  lemma SignificantIsSome(digits: string)
    requires IsDigits(digits)
    ensures DropLeading(digits) != "" ==> DropTrailing(DropLeading(digits)) != ""
  {
    LeadingZeros(digits);
    if DropLeading(digits) != "" {
      TrailingLeavesSome(DropLeading(digits));
    }
  }

  lemma NegativeProduct(a: int, p: int)
    ensures -(a * p) == -a * p
  {
  }

  // The number is the amount of its form, shifted by zeros.
  lemma FormScales(n: Number)
    requires IsNumber(n)
    ensures var f := FormOf(n);
      if f.digits == "" then Coefficient(n) == 0
      else f.power >= Power(n) && Coefficient(n) == FormAmount(f) * Pow10(f.power - Power(n))
  {
    DigitsAreDigits(n);
    var digits, mantissa := Digits(n), DropLeading(Digits(n));
    Significant(digits);
    if mantissa != "" {
      NegativeProduct(Amount(DropTrailing(mantissa)), Pow10(|mantissa| - |DropTrailing(mantissa)|));
    }
  }

  // ---- Equal forms exactly for equal values ------------------------------------------------------

  lemma {:induction false} Pow10Plus(a: nat, b: nat)
    ensures Pow10(a + b) == Pow10(a) * Pow10(b) && Pow10(a) > 0
    decreases a
  {
    if a > 0 {
      Pow10Plus(a - 1, b);
      Associate(10, Pow10(a - 1), Pow10(b));
    } else {
      assert 1 * Pow10(b) == Pow10(b);
    }
  }

  lemma Associate(a: int, b: int, c: int)
    ensures a * b * c == a * (b * c)
  {
  }

  lemma Cancel(a: int, b: int, p: int)
    requires p > 0 && a * p == b * p
    ensures a == b
  {
  }

  lemma TimesZero(p: int)
    ensures 0 * p == 0
  {
  }

  // Scaled down to a power below that of the form.
  lemma ScaledForm(n: Number, low: int)
    requires IsNumber(n) && low <= Power(n)
    ensures var f := FormOf(n);
      if f.digits == "" then Coefficient(n) * Pow10(Power(n) - low) == 0
      else f.power >= low && Coefficient(n) * Pow10(Power(n) - low) == FormAmount(f) * Pow10(f.power - low)
  {
    FormScales(n);
    var f := FormOf(n);
    if f.digits == "" {
      TimesZero(Pow10(Power(n) - low));
    } else {
      Pow10Plus(f.power - Power(n), Power(n) - low);
      Associate(FormAmount(f), Pow10(f.power - Power(n)), Pow10(Power(n) - low));
    }
  }

  lemma FormIsNotRound(f: Form)
    requires IsForm(f) && f.digits != ""
    ensures FormAmount(f) % 10 != 0
  {
    var last := DigitAmount(f.digits[|f.digits| - 1]);
    assert Amount(f.digits) == Amount(f.digits[..|f.digits| - 1]) * 10 + last && 1 <= last <= 9;
  }

  lemma TenTimesIsRound(a: int)
    ensures 10 * a % 10 == 0
  {
  }

  // Nonzero forms of one value have one power.
  lemma SamePower(a: Form, b: Form, low: int)
    requires IsForm(a) && IsForm(b) && a.digits != "" && b.digits != "" && low <= a.power <= b.power
    requires FormAmount(a) * Pow10(a.power - low) == FormAmount(b) * Pow10(b.power - low)
    ensures a.power == b.power && FormAmount(a) == FormAmount(b)
  {
    var gap := b.power - a.power;
    Pow10Plus(gap, a.power - low);
    Pow10Plus(a.power - low, 0);
    Associate(FormAmount(b), Pow10(gap), Pow10(a.power - low));
    Cancel(FormAmount(a), FormAmount(b) * Pow10(gap), Pow10(a.power - low));
    if gap > 0 {
      ShiftedIsRound(FormAmount(b), gap);
      FormIsNotRound(a);
    }
  }

  lemma ShiftedIsRound(a: int, gap: nat)
    requires gap > 0
    ensures a * Pow10(gap) % 10 == 0
  {
    assert a * (10 * Pow10(gap - 1)) == 10 * (a * Pow10(gap - 1));
    TenTimesIsRound(a * Pow10(gap - 1));
  }

  lemma FormIsNotZero(f: Form)
    requires IsForm(f) && f.digits != ""
    ensures Amount(f.digits) > 0 && (f.negative <==> FormAmount(f) < 0)
  {
    PositiveAmount(f.digits);
  }

  lemma SameAmountSameForm(a: Form, b: Form)
    requires IsForm(a) && IsForm(b) && a.digits != "" && b.digits != "" && a.power == b.power
    requires FormAmount(a) == FormAmount(b)
    ensures a == b
  {
    FormIsNotZero(a);
    FormIsNotZero(b);
    AmountIsInjective(a.digits, b.digits);
  }

  lemma ProductIsNotZero(a: int, p: int)
    requires a != 0 && p > 0
    ensures a * p != 0
  {
  }

  lemma ScaledIsNotZero(f: Form, low: int)
    requires IsForm(f) && f.digits != "" && low <= f.power
    ensures FormAmount(f) * Pow10(f.power - low) != 0
  {
    FormIsNotZero(f);
    Pow10Plus(f.power - low, 0);
    ProductIsNotZero(FormAmount(f), Pow10(f.power - low));
  }

  /** Two numbers have the same form exactly when they denote the same decimal value. */
  lemma SameFormIffSameValue(a: Number, b: Number)
    requires IsNumber(a) && IsNumber(b)
    ensures FormOf(a) == FormOf(b) <==> SameValue(a, b)
  {
    var low := Min(Power(a), Power(b));
    var f, g := FormOf(a), FormOf(b);
    ScaledForm(a, low);
    ScaledForm(b, low);
    FormIsForm(a);
    FormIsForm(b);
    if f.digits != "" { ScaledIsNotZero(f, low); }
    if g.digits != "" { ScaledIsNotZero(g, low); }
    if f.digits != "" && g.digits != "" && SameValue(a, b) {
      if f.power <= g.power { SamePower(f, g, low); } else { SamePower(g, f, low); }
      SameAmountSameForm(f, g);
    }
  }

  // ---- The canonical spelling --------------------------------------------------------------------

  /** The number that a form spells. */
  function NormalOf(f: Form): Number {
    if f.digits == "" then Number(false, "0", None, None) else
    Number(f.negative, f.digits, None,
           if f.power == 0 then None
           else Some(Exponent(false, if f.power < 0 then Minus else NoSign,
                              Numerals.Format(if f.power < 0 then -f.power else f.power, 10))))
  }

  lemma FormatIsDigits(n: nat)
    ensures IsDigits(Numerals.Format(n, 10)) && Amount(Numerals.Format(n, 10)) == n
  {
    var text := Numerals.Format(n, 10);
    Numerals.FormatDigits(n, 10);
    forall i | 0 <= i < |text| ensures '0' <= text[i] <= '9' {
      assert Numerals.DigitValue(text[i]).Some? && Numerals.DigitValue(text[i]).value < 10;
    }
    ParseIsAmount(text);
    Numerals.ParseFormat(n, 10);
  }

  lemma NormalIsNumber(f: Form)
    requires IsForm(f)
    ensures var n := NormalOf(f);
      IsNumber(n) && ExponentValue(n) == Power(n) == f.power
      && Mantissa(n) == Digits(n) == if f.digits == "" then "0" else f.digits
  {
    FormatIsDigits(if f.power < 0 then -f.power else f.power);
    var n := NormalOf(f);
    assert n.whole + "" == n.whole;
  }

  lemma NormalSpelling(f: Form)
    requires IsForm(f)
    ensures Spelling(NormalOf(f)) == FormText(f)
  {
    NormalIsNumber(f);
    var n := NormalOf(f);
    if f.digits != "" && f.power != 0 {
      assert ExponentText(n) == Numerals.FormatInt(f.power);
    }
  }

  lemma NothingToDrop(digits: string)
    requires digits != "" && digits[0] != '0' && digits[|digits| - 1] != '0'
    ensures DropLeading(digits) == digits && DropTrailing(digits) == digits
  {
  }

  lemma FormOfNormal(f: Form)
    requires IsForm(f)
    ensures IsNumber(NormalOf(f)) && FormOf(NormalOf(f)) == f
  {
    NormalIsNumber(f);
    if f.digits == "" {
      assert DropLeading("0") == DropLeading("0"[1..]) == "";
    } else {
      NothingToDrop(f.digits);
    }
  }

  // What a canonical text says about sign, digits and power.
  function ReadDigits(text: string): string {
    Before(ToLower(Magnitude(text)), 'e')
  }

  lemma ReadForm(f: Form)
    requires IsForm(f)
    ensures var text := FormText(f);
      && IsNegative(text) == f.negative && ReadDigits(text) == (if f.digits == "" then "0" else f.digits)
      && PowerOf(After(ToLower(Magnitude(text)), 'e')) == f.power
  {
    var n := NormalOf(f);
    NormalIsNumber(f);
    NormalSpelling(f);
    UnsignedStart(n);
    SignedParts(n.negative, Unsigned(n));
    LowerUnsigned(n);
    PowerOfExponent(n);
  }

  /** Different forms have different texts. */
  lemma FormTextIsInjective(f: Form, g: Form)
    requires IsForm(f) && IsForm(g) && FormText(f) == FormText(g)
    ensures f == g
  {
    ReadForm(f);
    ReadForm(g);
    assert f.digits != "" ==> f.digits[0] != '0';
    assert g.digits != "" ==> g.digits[0] != '0';
  }

  // ---- What normalization guarantees -----------------------------------------------------------------

  /** Two spellings become the same text exactly when they denote the same value. */
  lemma NormalizedIffSameValue(a: Number, b: Number)
    requires IsNumber(a) && IsNumber(b)
    ensures Normalized(Spelling(a)) == Normalized(Spelling(b)) <==> SameValue(a, b)
  {
    FormIsForm(a);
    FormIsForm(b);
    NormalizedIsFormText(a);
    NormalizedIsFormText(b);
    SameFormIffSameValue(a, b);
    if FormText(FormOf(a)) == FormText(FormOf(b)) {
      FormTextIsInjective(FormOf(a), FormOf(b));
    }
  }

  /** The text is again a JSON number, of the same value, and it is already normal. */
  lemma NormalizedKeepsValue(a: Number)
    requires IsNumber(a)
    ensures var n := NormalOf(FormOf(a));
      && IsNumber(n) && Spelling(n) == Normalized(Spelling(a))
      && SameValue(a, n) && Normalized(Normalized(Spelling(a))) == Normalized(Spelling(a))
  {
    var f := FormOf(a);
    FormIsForm(a);
    NormalizedIsFormText(a);
    NormalSpelling(f);
    FormOfNormal(f);
    SameFormIffSameValue(a, NormalOf(f));
    NormalizedIsFormText(NormalOf(f));
  }

  lemma ZeroForm(a: Number)
    requires IsNumber(a)
    ensures FormOf(a).digits == "" <==> Coefficient(a) == 0
  {
    FormScales(a);
    FormIsForm(a);
    if FormOf(a).digits != "" {
      ScaledIsNotZero(FormOf(a), Power(a));
    }
  }

  lemma ZeroText(f: Form)
    requires IsForm(f)
    ensures FormText(f) == "0" <==> f.digits == ""
  {
    if FormText(f) == "0" {
      FormTextIsInjective(f, Form(false, "", 0));
    }
  }

  /** Every spelling of zero, negative or not, becomes "0", and nothing else does. */
  lemma ZeroIsPlain(a: Number)
    requires IsNumber(a)
    ensures Normalized(Spelling(a)) == "0" <==> Coefficient(a) == 0
  {
    FormIsForm(a);
    NormalizedIsFormText(a);
    ZeroForm(a);
    ZeroText(FormOf(a));
  }
}
