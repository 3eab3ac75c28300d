/** The value objects of the domain layer (src/domain/primitives.ts):
    Money in integer minor units, an exchange rate scaled by 10^6, and the
    branded id, date and note strings, each built only through a
    validating constructor that returns a Result. */
module Primitives {
  import opened Results
  import opened Decimal

  /** The error algebra: InvariantViolation is declared but no constructor
      here produces it. */
  datatype DomainError =
    | ValidationError(field: string, message: string)
    | InvariantViolation(message: string)

  datatype Currency = GBP | NPR

  /** A fixed-point amount; minor units (pence, paisa) are never negative. */
  datatype Money = Money(minorUnits: nat, currency: Currency)

  type PositiveInt = n: int | n > 0 witness 1

  /** Rates carry six implied decimal digits. */
  const RateScale: nat := 1000000

  /** A strictly positive rate, stored as rate * 10^6. */
  datatype ExchangeRate = ExchangeRate(scaledValue: PositiveInt)

  datatype TransactionId = TransactionId(text: string)
  datatype TransactionDate = TransactionDate(text: string)
  datatype TransactionNote = TransactionNote(text: string)

  const InvalidAmountFormat := ValidationError("amount", "Invalid numeric format")
  const NegativeAmount := ValidationError("amount", "Amount must be non-negative")
  const TooManyDecimals := ValidationError("amount", "Amount must have at most 2 decimal places")
  const NonPositiveRate := ValidationError("rate", "Exchange rate must be positive")
  const InvalidRateFormat := ValidationError("rate", "Invalid numeric format")
  const InvalidUuid := ValidationError("id", "Invalid UUID format")
  const InvalidDateFormat := ValidationError("date", "Invalid date format (YYYY-MM-DD required)")
  const InvalidDateValue := ValidationError("date", "Invalid date value")
  const NoteTooLong := ValidationError("note", "Note must be 200 characters or less")
  const NoteHasScript := ValidationError("note", "Invalid characters in note")

  const MaxNoteLength: nat := 200

  // ---------------------------------------------------------------- Money

  /** The literal denotes a value below zero ("-0.00" does not). */
  predicate IsNegative(d: DecimalText)
    requires WellFormed(d)
  {
    d.negative && Magnitude(d) > 0
  }

  /** `Money.of`: the sign is checked before the scale, and a success holds
      exactly the literal's value in minor units. */
  function MoneyOf(amount: string, currency: Currency): (r: Result<Money, DomainError>)
    ensures ParseDecimal(amount).None? ==> r == Failure(InvalidAmountFormat)
    ensures ParseDecimal(amount).Some? ==>
      var d := ParseDecimal(amount).value;
      && (IsNegative(d) ==> r == Failure(NegativeAmount))
      && (!IsNegative(d) && |d.frac| > 2 ==> r == Failure(TooManyDecimals))
      && (r.Success? <==> !IsNegative(d) && |d.frac| <= 2)
      && (r.Success? ==> r.value.currency == currency &&
                         r.value.minorUnits * Pow10(|d.frac|) == Magnitude(d) * 100)
  {
    match ParseDecimal(amount)
    case None => Failure(InvalidAmountFormat)
    case Some(d) =>
      if IsNegative(d) then Failure(NegativeAmount)
      else if |d.frac| > 2 then Failure(TooManyDecimals)
      else
        assert Pow10(2) == 100;
        Success(Money(AtScale(d, 2), currency))
  }

  /** The canonical literal of an amount: shortest whole part, exactly two
      fractional digits. */
  function CanonicalText(minorUnits: nat): (d: DecimalText)
    ensures WellFormed(d) && !d.negative && |d.frac| == 2
    ensures |d.whole| > 1 ==> d.whole[0] != '0'
    ensures Magnitude(d) == minorUnits
  {
    var cents := minorUnits % 100;
    var frac := [DigitChar(cents / 10), DigitChar(cents % 10)];
    assert frac[..1] == [DigitChar(cents / 10)] && frac[..1][..0] == [];
    assert DigitsValue(frac[..1]) == cents / 10;
    DecimalText(false, NatToDigits(minorUnits / 100), frac)
  }

  /** `Money.toDecimalString`: whole units, a dot, and the remainder as two
      digits; the text denotes the amount exactly. */
  function ToDecimalString(m: Money): (s: string)
    ensures ParseDecimal(s).Some?
    ensures var d := ParseDecimal(s).value;
      && !d.negative && |d.frac| == 2 && Magnitude(d) == m.minorUnits
      && (|d.whole| > 1 ==> d.whole[0] != '0')
  {
    var d := CanonicalText(m.minorUnits);
    ParseRender(d);
    Render(d)
  }

  /** Formatting and then parsing an amount gives back the same Money. */
  lemma ToDecimalStringRoundTrip(m: Money)
    ensures MoneyOf(ToDecimalString(m), m.currency) == Success(m)
  {
    CanonicalReadBack(m.minorUnits, m.currency);
    assert ToDecimalString(m) == Render(CanonicalText(m.minorUnits));
  }

  lemma CanonicalReadBack(minorUnits: nat, currency: Currency)
    ensures MoneyOf(Render(CanonicalText(minorUnits)), currency) == Success(Money(minorUnits, currency))
  {
    var d := CanonicalText(minorUnits);
    ParseRender(d);
    assert !IsNegative(d) && |d.frac| <= 2;
    assert Pow10(|d.frac|) == 100;
    var n := AtScale(d, 2);
    assert n * 100 == minorUnits * 100;
    assert n == minorUnits;
  }

  /** Two accepted amount texts give the same Money exactly when they are
      formatted the same way, so the formatted text identifies the amount. */
  lemma SameMoneyIffSameText(a: string, b: string, currency: Currency)
    requires MoneyOf(a, currency).Success? && MoneyOf(b, currency).Success?
    ensures MoneyOf(a, currency) == MoneyOf(b, currency) <==>
      ToDecimalString(MoneyOf(a, currency).value) == ToDecimalString(MoneyOf(b, currency).value)
  {
    var ma, mb := MoneyOf(a, currency).value, MoneyOf(b, currency).value;
    ToDecimalStringRoundTrip(ma);
    ToDecimalStringRoundTrip(mb);
  }

  /** `Money.multiplyByRate`: the exact product of minor units and scaled
      rate, rounded half-up at the rate's scale, in the target currency. */
  function MultiplyByRate(m: Money, rate: ExchangeRate, target: Currency): (r: Money)
    ensures r.currency == target
    ensures RoundsHalfUp(r.minorUnits, m.minorUnits * rate.scaledValue, RateScale)
  {
    var product := m.minorUnits * rate.scaledValue;
    var q := (product + RateScale / 2) / RateScale;
    assert q * RateScale <= product + RateScale / 2 < q * RateScale + RateScale;
    Money(q, target)
  }

  /** q is `numerator / scale` rounded to the nearest integer, an exact half
      going up: numerator / scale lies in [q - 1/2, q + 1/2). */
  predicate RoundsHalfUp(q: int, numerator: int, scale: nat)
  {
    q * scale - scale / 2 <= numerator < q * scale + (scale - scale / 2)
  }

  /** At most one integer rounds a quotient half-up, so MultiplyByRate's
      result is determined by its contract. */
  lemma RoundsHalfUpUnique(q1: int, q2: int, numerator: int, scale: nat)
    requires scale > 0
    requires RoundsHalfUp(q1, numerator, scale) && RoundsHalfUp(q2, numerator, scale)
    ensures q1 == q2
  {
    if q1 < q2 {
      MulMonotone(q1 + 1, q2, scale);
    } else if q2 < q1 {
      MulMonotone(q2 + 1, q1, scale);
    }
  }

  lemma MulMonotone(a: int, b: int, c: nat)
    requires a <= b
    ensures a * c <= b * c
  {
    assert b * c - a * c == (b - a) * c;
  }

  /** ExchangeRate.of: rejects zero and negative values, keeps any other
      value unchanged. */
  function ExchangeRateOf(value: int): (r: Result<ExchangeRate, DomainError>)
    ensures r.Success? <==> value > 0
    ensures r.Success? ==> r.value.scaledValue == value
    ensures r.Failure? ==> r.error == NonPositiveRate
  {
    if value <= 0 then Failure(NonPositiveRate) else Success(ExchangeRate(value))
  }

  /** Reads rate text at the 10^6 scale; None stands for text that is not a
      number. Only literals with at most six fractional digits are read,
      and they are read exactly. */
  function ReadRate(text: string): (r: Option<int>)
    ensures r.Some? <==> ParseDecimal(text).Some? && |ParseDecimal(text).value.frac| <= 6
    ensures r.Some? ==>
      var d := ParseDecimal(text).value;
      r.value * Pow10(|d.frac|) == SignedMagnitude(d) * RateScale
  {
    match ParseDecimal(text)
    case None => None
    case Some(d) =>
      if |d.frac| > 6 then None
      else
        assert Pow10(6) == RateScale;
        Some(SignedAtScale(d, 6))
  }

  /** `ExchangeRate.of` on rate text: text that is not a number fails on
      field `rate`; a number is then accepted exactly when it is positive,
      and the rate holds its exact value at the 10^6 scale. */
  function ExchangeRateOfText(text: string): (r: Result<ExchangeRate, DomainError>)
    ensures ReadRate(text).None? ==> r == Failure(InvalidRateFormat)
    ensures ReadRate(text).Some? ==>
      var d := ParseDecimal(text).value;
      && (r.Success? <==> SignedMagnitude(d) > 0)
      && (r.Failure? ==> r.error == NonPositiveRate)
      && (r.Success? ==> r.value.scaledValue * Pow10(|d.frac|) == SignedMagnitude(d) * RateScale)
    ensures r.Success? ==> ReadRate(text) == Some(r.value.scaledValue)
  {
    match ReadRate(text)
    case None => Failure(InvalidRateFormat)
    case Some(v) =>
      var d := ParseDecimal(text).value;
      SameSign(v, Pow10(|d.frac|), SignedMagnitude(d), RateScale);
      ExchangeRateOf(v)
  }

  /** Equal products with positive second factors have first factors of
      the same sign. */
  lemma SameSign(a: int, b: int, c: int, e: int)
    requires b > 0 && e > 0 && a * b == c * e
    ensures a > 0 <==> c > 0
  {
    if a > 0 && c <= 0 {
      MulMonotone(c, 0, e);
      MulMonotone(1, a, b);
    } else if a <= 0 && c > 0 {
      MulMonotone(a, 0, b);
      MulMonotone(1, c, e);
    }
  }

  // --------------------------------------------------------- TransactionId

  predicate IsHexDigit(c: char) {
    ('0' <= c <= '9') || ('a' <= c <= 'f') || ('A' <= c <= 'F')
  }

  predicate IsUuidHyphenPosition(i: int) {
    i == 8 || i == 13 || i == 18 || i == 23
  }

  /** The 8-4-4-4-12 hexadecimal text of a UUID (section 3 of RFC 4122),
      either letter case. */
  predicate IsUuidText(s: string) {
    && |s| == 36
    && forall i :: 0 <= i < 36 ==>
         if IsUuidHyphenPosition(i) then s[i] == '-' else IsHexDigit(s[i])
  }

  /** TransactionId.of: UUID-shaped text passes through unchanged. */
  function TransactionIdOf(id: string): (r: Result<TransactionId, DomainError>)
    ensures r.Success? <==> IsUuidText(id)
    ensures r.Success? ==> r.value.text == id
    ensures r.Failure? ==> r.error == InvalidUuid
  {
    if !IsUuidText(id) then Failure(InvalidUuid) else Success(TransactionId(id))
  }

  // ------------------------------------------------------- TransactionDate

  /** The `^\d{4}-\d{2}-\d{2}$` shape (the full-date production of section
      5.6 of RFC 3339, without its range limits). */
  predicate IsDateShape(s: string) {
    && |s| == 10
    && s[4] == '-' && s[7] == '-'
    && AllDigits(s[..4]) && AllDigits(s[5..7]) && AllDigits(s[8..])
  }

  /** Whether the shaped text names a date the clock library resolves: a
      month in 1..12 and a day in 1..31. */
  predicate ResolvesToDate(s: string)
    requires IsDateShape(s)
  {
    && 1 <= DigitsValue(s[5..7]) <= 12
    && 1 <= DigitsValue(s[8..]) <= 31
  }

  /** TransactionDate.of: the shape is checked before the value, and a
      success keeps the text unchanged. No future-date check is made. */
  function TransactionDateOf(s: string): (r: Result<TransactionDate, DomainError>)
    ensures !IsDateShape(s) ==> r == Failure(InvalidDateFormat)
    ensures IsDateShape(s) && !ResolvesToDate(s) ==> r == Failure(InvalidDateValue)
    ensures r.Success? <==> IsDateShape(s) && ResolvesToDate(s)
    ensures r.Success? ==> r.value.text == s
  {
    if !IsDateShape(s) then Failure(InvalidDateFormat)
    else if !ResolvesToDate(s) then Failure(InvalidDateValue)
    else Success(TransactionDate(s))
  }

  // ------------------------------------------------------- TransactionNote

  /** ASCII case folding, as a case-insensitive regular expression without
      the unicode flag applies it to the letters of "<script". */
  function LowerAscii(c: char): (l: char)
    ensures 'A' <= c <= 'Z' ==> l as int == c as int + 32
    ensures !('A' <= c <= 'Z') ==> l == c
  {
    if 'A' <= c <= 'Z' then (c as int + 32) as char else c
  }

  const ScriptOpen: string := "<script"

  /** The seven characters at position i spell "<script" in any case. */
  predicate ScriptOpenAt(s: string, i: nat)
    requires i + |ScriptOpen| <= |s|
  {
    forall k :: 0 <= k < |ScriptOpen| ==> LowerAscii(s[i + k]) == ScriptOpen[k]
  }

  predicate ContainsScriptOpen(s: string) {
    exists i: nat :: i + |ScriptOpen| <= |s| && ScriptOpenAt(s, i)
  }

  /** TransactionNote.of: length first, then the script pattern; otherwise
      the text passes through unchanged. */
  function TransactionNoteOf(note: string): (r: Result<TransactionNote, DomainError>)
    ensures |note| > MaxNoteLength ==> r == Failure(NoteTooLong)
    ensures |note| <= MaxNoteLength && ContainsScriptOpen(note) ==> r == Failure(NoteHasScript)
    ensures r.Success? <==> |note| <= MaxNoteLength && !ContainsScriptOpen(note)
    ensures r.Success? ==> r.value.text == note
  {
    if |note| > MaxNoteLength then Failure(NoteTooLong)
    else if ContainsScriptOpen(note) then Failure(NoteHasScript)
    else Success(TransactionNote(note))
  }
}
