/** The decimal text this model reads amounts and rates from, a modelling
    choice: an optional minus sign, one or more ASCII digits, and optionally
    a dot followed by one or more digits. */
module Decimal {
  import opened Results

  predicate IsDigit(c: char) {
    '0' <= c <= '9'
  }

  predicate AllDigits(s: string) {
    forall i :: 0 <= i < |s| ==> IsDigit(s[i])
  }

  function DigitValue(c: char): (d: nat)
    requires IsDigit(c)
    ensures d < 10
  {
    c as int - '0' as int
  }

  function DigitChar(d: nat): (c: char)
    requires d < 10
    ensures IsDigit(c) && DigitValue(c) == d
  {
    ('0' as int + d) as char
  }

  function Pow10(n: nat): (p: nat)
    ensures p >= 1
  {
    if n == 0 then 1 else 10 * Pow10(n - 1)
  }

  lemma {:induction false} Pow10Add(a: nat, b: nat)
    ensures Pow10(a + b) == Pow10(a) * Pow10(b)
  {
    if b > 0 {
      Pow10Add(a, b - 1);
      assert Pow10(a + b) == 10 * Pow10(a + b - 1);
    }
  }

  /** The number a digit string denotes, most significant digit first. */
  function DigitsValue(s: string): nat
    requires AllDigits(s)
  {
    if s == [] then 0 else DigitsValue(s[..|s| - 1]) * 10 + DigitValue(s[|s| - 1])
  }

  /** A string of n digits denotes a number below 10^n. */
  lemma {:induction false} DigitsValueBound(s: string)
    requires AllDigits(s)
    ensures DigitsValue(s) < Pow10(|s|)
  {
    if s != [] {
      DigitsValueBound(s[..|s| - 1]);
    }
  }

  /** The shortest decimal text of n: no leading zeros, "0" for zero. */
  function NatToDigits(n: nat): (s: string)
    ensures |s| >= 1 && AllDigits(s)
    ensures DigitsValue(s) == n
    ensures |s| > 1 ==> s[0] != '0'
  {
    if n < 10 then [DigitChar(n)]
    else
      var init := NatToDigits(n / 10);
      var s := init + [DigitChar(n % 10)];
      assert s[..|s| - 1] == init;
      s
  }

  /** Position of the first '.', or |s| when there is none. */
  function DotIndex(s: string): (i: nat)
    ensures i <= |s|
    ensures i < |s| ==> s[i] == '.'
    ensures forall j :: 0 <= j < i ==> s[j] != '.'
  {
    if s == [] || s[0] == '.' then 0 else 1 + DotIndex(s[1..])
  }

  /** A decimal literal split into its parts; `frac` is empty when the text
      has no dot. */
  datatype DecimalText = DecimalText(negative: bool, whole: string, frac: string)

  predicate WellFormed(d: DecimalText) {
    |d.whole| > 0 && AllDigits(d.whole) && AllDigits(d.frac)
  }

  /** The dot and fractional digits of a literal's text, if any. */
  function FracText(frac: string): string {
    if frac == "" then "" else "." + frac
  }

  function SignText(negative: bool): string {
    if negative then "-" else ""
  }

  /** The text a literal is written as. */
  function Render(d: DecimalText): string {
    SignText(d.negative) + (d.whole + FracText(d.frac))
  }

  /** Splits unsigned text into integer and fractional digits. */
  function ParseUnsigned(body: string): (r: Option<(string, string)>)
    ensures r.Some? ==> |r.value.0| > 0 && AllDigits(r.value.0) && AllDigits(r.value.1)
    ensures r.Some? ==> r.value.0 + FracText(r.value.1) == body
  {
    var dot := DotIndex(body);
    var whole := body[..dot];
    var frac := if dot < |body| then body[dot + 1..] else "";
    if |whole| > 0 && AllDigits(whole) && AllDigits(frac) && (dot < |body| ==> frac != "") then
      assert dot < |body| ==> body == whole + "." + frac;
      assert dot == |body| ==> body == whole;
      Some((whole, frac))
    else
      None
  }

  /** Splits the text into sign, integer digits and fractional digits;
      None for anything outside the grammar. */
  function ParseDecimal(s: string): (r: Option<DecimalText>)
    ensures r.Some? ==> WellFormed(r.value) && Render(r.value) == s
  {
    if |s| > 0 && s[0] == '-' then
      match ParseUnsigned(s[1..])
      case None => None
      case Some((whole, frac)) =>
        assert s == "-" + s[1..];
        Some(DecimalText(true, whole, frac))
    else
      match ParseUnsigned(s)
      case None => None
      case Some((whole, frac)) =>
        assert SignText(false) + s == s;
        Some(DecimalText(false, whole, frac))
  }

  lemma ParseUnsignedRender(whole: string, frac: string)
    requires |whole| > 0 && AllDigits(whole) && AllDigits(frac)
    ensures ParseUnsigned(whole + FracText(frac)) == Some((whole, frac))
  {
    var body := whole + FracText(frac);
    DotIndexAfterDigits(whole, FracText(frac));
    assert body[..|whole|] == whole;
    if frac != "" {
      assert body[|whole| + 1..] == frac;
    }
  }

  /** Every well-formed literal is read back from its own text, so together
      with ParseDecimal's contract the parser accepts exactly the rendered
      literals. */
  lemma ParseRender(d: DecimalText)
    requires WellFormed(d)
    ensures ParseDecimal(Render(d)) == Some(d)
  {
    var body := d.whole + FracText(d.frac);
    var s := Render(d);
    ParseUnsignedRender(d.whole, d.frac);
    if d.negative {
      assert s == "-" + body;
      assert s[1..] == body;
    } else {
      assert s == body;
      assert body[0] == d.whole[0];
    }
  }

  /** What the grammar refuses: an accepted text starts with a digit or a
      minus sign, ends with a digit, and holds nothing but digits and dots
      after its first character, so surrounding space, "+1", ".5", "5." and
      exponent forms are all refused. */
  lemma AcceptedTextShape(s: string)
    requires ParseDecimal(s).Some?
    ensures |s| > 0 && IsDigit(s[|s| - 1])
    ensures s[0] == '-' || IsDigit(s[0])
    ensures forall i :: 0 < i < |s| ==> IsDigit(s[i]) || s[i] == '.'
  {
    var d := ParseDecimal(s).value;
    var body := d.whole + FracText(d.frac);
    BodyShape(d.whole, d.frac);
    if d.negative {
      assert s == "-" + body;
      assert forall i :: 0 < i < |s| ==> s[i] == body[i - 1];
    } else {
      assert s == body;
    }
  }

  /** The unsigned part of a literal starts and ends with a digit and
      holds only digits and dots. */
  lemma BodyShape(whole: string, frac: string)
    requires |whole| > 0 && AllDigits(whole) && AllDigits(frac)
    ensures var body := whole + FracText(frac);
      && IsDigit(body[0]) && IsDigit(body[|body| - 1])
      && forall i :: 0 <= i < |body| ==> IsDigit(body[i]) || body[i] == '.'
  {
    var body := whole + FracText(frac);
    if frac == "" {
      assert body == whole;
    } else {
      assert body == whole + ("." + frac);
      assert forall i :: |whole| < i < |body| ==> body[i] == frac[i - |whole| - 1];
      assert body[|body| - 1] == frac[|frac| - 1];
    }
  }

  lemma DotIndexAfterDigits(digits: string, tail: string)
    requires AllDigits(digits)
    requires tail == [] || tail[0] == '.'
    ensures DotIndex(digits + tail) == |digits|
  {
    var s := digits + tail;
    assert |digits| < |s| ==> s[|digits|] == '.';
    assert forall j :: 0 <= j < |digits| ==> s[j] == digits[j];
  }

  /** The literal's digits read as one integer: its value times 10^|frac|. */
  function Magnitude(d: DecimalText): nat
    requires WellFormed(d)
  {
    DigitsValue(d.whole) * Pow10(|d.frac|) + DigitsValue(d.frac)
  }

  /** The literal's magnitude at a fixed scale of `places` fractional digits,
      for a literal with no more fractional digits than that. */
  function AtScale(d: DecimalText, places: nat): (n: nat)
    requires WellFormed(d) && |d.frac| <= places
    ensures n * Pow10(|d.frac|) == Magnitude(d) * Pow10(places)
  {
    var w, f := DigitsValue(d.whole), DigitsValue(d.frac);
    var k := Pow10(places - |d.frac|);
    Pow10Add(places - |d.frac|, |d.frac|);
    ScaleArith(w, f, k, Pow10(|d.frac|), Pow10(places));
    w * Pow10(places) + f * k
  }

  /** The literal's value times 10^|frac|, with its sign. */
  function SignedMagnitude(d: DecimalText): int
    requires WellFormed(d)
  {
    var m: int := Magnitude(d);
    if d.negative then -m else m
  }

  /** The literal's signed value at a fixed scale of `places` digits. */
  function SignedAtScale(d: DecimalText, places: nat): (n: int)
    requires WellFormed(d) && |d.frac| <= places
    ensures n * Pow10(|d.frac|) == SignedMagnitude(d) * Pow10(places)
  {
    var a: int := AtScale(d, places);
    if d.negative then
      NegateProduct(a, Pow10(|d.frac|), Magnitude(d) * Pow10(places));
      -a
    else
      a
  }

  lemma NegateProduct(a: int, b: int, c: int)
    requires a * b == c
    ensures (-a) * b == -c
  {
  }

  lemma ScaleArith(w: int, f: int, k: int, p: int, big: int)
    requires big == k * p
    ensures (w * big + f * k) * p == (w * p + f) * big
  {
    calc {
      (w * big + f * k) * p;
      w * big * p + f * k * p;
      w * p * big + f * (k * p);
      (w * p + f) * big;
    }
  }
}
