/** Concrete scenarios from the repository's domain tests
    (src/domain/__tests__) and from the validators' own checks
    (src/domain/primitives.ts), stated as lemmas over the model. Each literal is
    read through a small lemma of its own, through the render/parse inverse,
    because a proof that evaluates the parser on text is too costly. */
module Scenarios {
  import opened Results
  import opened Decimal
  import opened Primitives
  import opened Transaction
  import opened TransactionFormModel

  // ------------------------------------------------------ literal readings

  /** Reads a literal through the render/parse inverse. */
  lemma ParseOf(s: string, d: DecimalText)
    requires WellFormed(d) && Render(d) == s
    ensures ParseDecimal(s) == Some(d)
  {
    ParseRender(d);
  }

  lemma Parse_100_12()
    ensures ParseDecimal("100.12") == Some(DecimalText(false, "100", "12"))
  {
    assert FracText("12") == ".12";
    assert SignText(false) == "";
    assert "" + ("100" + ".12") == "100.12";
    ParseOf("100.12", DecimalText(false, "100", "12"));
  }

  lemma Parse_100_123()
    ensures ParseDecimal("100.123") == Some(DecimalText(false, "100", "123"))
  {
    assert FracText("123") == ".123";
    assert SignText(false) == "";
    assert "" + ("100" + ".123") == "100.123";
    ParseOf("100.123", DecimalText(false, "100", "123"));
  }

  lemma Parse_0_10()
    ensures ParseDecimal("0.10") == Some(DecimalText(false, "0", "10"))
  {
    assert FracText("10") == ".10";
    assert SignText(false) == "";
    assert "" + ("0" + ".10") == "0.10";
    ParseOf("0.10", DecimalText(false, "0", "10"));
  }

  lemma Parse_0_20()
    ensures ParseDecimal("0.20") == Some(DecimalText(false, "0", "20"))
  {
    assert FracText("20") == ".20";
    assert SignText(false) == "";
    assert "" + ("0" + ".20") == "0.20";
    ParseOf("0.20", DecimalText(false, "0", "20"));
  }

  lemma Parse_1_005()
    ensures ParseDecimal("1.005") == Some(DecimalText(false, "1", "005"))
  {
    assert FracText("005") == ".005";
    assert SignText(false) == "";
    assert "" + ("1" + ".005") == "1.005";
    ParseOf("1.005", DecimalText(false, "1", "005"));
  }

  lemma Parse_1_50()
    ensures ParseDecimal("1.50") == Some(DecimalText(false, "1", "50"))
  {
    assert FracText("50") == ".50";
    assert SignText(false) == "";
    assert "" + ("1" + ".50") == "1.50";
    ParseOf("1.50", DecimalText(false, "1", "50"));
  }

  lemma Parse_0()
    ensures ParseDecimal("0") == Some(DecimalText(false, "0", ""))
  {
    assert FracText("") == "";
    assert SignText(false) == "";
    assert "" + ("0" + "") == "0";
    ParseOf("0", DecimalText(false, "0", ""));
  }

  lemma Parse_1_00()
    ensures ParseDecimal("1.00") == Some(DecimalText(false, "1", "00"))
  {
    assert FracText("00") == ".00";
    assert SignText(false) == "";
    assert "" + ("1" + ".00") == "1.00";
    ParseOf("1.00", DecimalText(false, "1", "00"));
  }

  lemma Parse_Minus_50()
    ensures ParseDecimal("-50") == Some(DecimalText(true, "50", ""))
  {
    assert FracText("") == "";
    assert SignText(true) == "-";
    assert "-" + ("50" + "") == "-50";
    ParseOf("-50", DecimalText(true, "50", ""));
  }

  lemma Parse_Minus_500_00()
    ensures ParseDecimal("-500.00") == Some(DecimalText(true, "500", "00"))
  {
    assert FracText("00") == ".00";
    assert SignText(true) == "-";
    assert "-" + ("500" + ".00") == "-500.00";
    ParseOf("-500.00", DecimalText(true, "500", "00"));
  }

  lemma SmallDigitValues()
    ensures DigitsValue("0") == 0 && DigitsValue("1") == 1 && DigitsValue("5") == 5
    ensures DigitsValue("10") == 10 && DigitsValue("12") == 12 && DigitsValue("13") == 13
    ensures DigitsValue("20") == 20 && DigitsValue("50") == 50
  {
    assert "0"[..0] == "" && "1"[..0] == "" && "5"[..0] == "" && "2"[..0] == "";
    assert "10"[..1] == "1" && "12"[..1] == "1" && "13"[..1] == "1";
    assert "20"[..1] == "2" && "50"[..1] == "5";
  }

  lemma LongerDigitValues()
    ensures DigitsValue("100") == 100 && DigitsValue("500") == 500
    ensures DigitsValue("00") == 0 && DigitsValue("005") == 5
  {
    SmallDigitValues();
    assert "100"[..2] == "10" && "500"[..2] == "50";
    assert "0"[..0] == "" && "00"[..1] == "0" && "005"[..2] == "00";
  }

  // ------------------------------------------------------------- scenarios

  /** "100.12" is exactly 10012 minor units; "100.123" is refused. */
  lemma TwoDecimalPlaces()
    ensures MoneyOf("100.12", GBP) == Success(Money(10012, GBP))
    ensures MoneyOf("100.123", GBP) == Failure(TooManyDecimals)
  {
    var d := DecimalText(false, "100", "12");
    Parse_100_12();
    SmallDigitValues();
    LongerDigitValues();
    assert Pow10(2) == 100;
    assert Magnitude(d) == 10012;
    assert MoneyOf("100.12", GBP).value.minorUnits * 100 == 10012 * 100;
    Parse_100_123();
  }

  /** 0.10 + 0.20 is exactly 30 minor units. */
  lemma NoBinaryFractionDrift()
    ensures MoneyOf("0.10", GBP) == Success(Money(10, GBP))
    ensures MoneyOf("0.20", GBP) == Success(Money(20, GBP))
    ensures MoneyOf("0.10", GBP).value.minorUnits + MoneyOf("0.20", GBP).value.minorUnits == 30
  {
    Parse_0_10();
    Parse_0_20();
    SmallDigitValues();
    assert Pow10(2) == 100;
    assert Magnitude(DecimalText(false, "0", "10")) == 10;
    assert Magnitude(DecimalText(false, "0", "20")) == 20;
  }

  /** The rate text "1.005" is read as 1005000 at the 10^6 scale. */
  lemma RateTextAtScale()
    ensures ExchangeRateOfText("1.005") == Success(ExchangeRate(1005000))
  {
    Parse_1_005();
    SmallDigitValues();
    LongerDigitValues();
    assert Pow10(3) == 1000;
    assert Magnitude(DecimalText(false, "1", "005")) == 1005;
  }

  /** The rate text "1.50" of the aggregate test is read as 1500000. */
  lemma RateOneFifty()
    ensures ExchangeRateOfText("1.50") == Success(ExchangeRate(1500000))
  {
    Parse_1_50();
    SmallDigitValues();
    assert Pow10(2) == 100;
    assert Magnitude(DecimalText(false, "1", "50")) == 150;
  }

  /** Text that is not a number, and a zero rate, are refused. */
  lemma RateTextRefused()
    ensures ExchangeRateOfText("abc") == Failure(InvalidRateFormat)
    ensures ExchangeRateOfText("0") == Failure(NonPositiveRate)
  {
    Parse_0();
    SmallDigitValues();
  }

  /** "1.00" is exactly 100 minor units. */
  lemma OnePound()
    ensures MoneyOf("1.00", GBP) == Success(Money(100, GBP))
  {
    Parse_1_00();
    SmallDigitValues();
    LongerDigitValues();
    assert Pow10(2) == 100;
    assert Magnitude(DecimalText(false, "1", "00")) == 100;
  }

  /** 100 minor units at rate 1.005 is 100.5 minor units exactly, which
      rounds half-up to 101. */
  lemma HalfUpAtRateScale()
    ensures MultiplyByRate(Money(100, GBP), ExchangeRate(1005000), NPR) == Money(101, NPR)
  {
    var r := MultiplyByRate(Money(100, GBP), ExchangeRate(1005000), NPR);
    assert RoundsHalfUp(101, 100 * 1005000, RateScale);
    RoundsHalfUpUnique(r.minorUnits, 101, 100 * 1005000, RateScale);
  }

  /** 101 minor units are shown as "1.01". */
  lemma FormatsTwoDigits()
    ensures ToDecimalString(Money(101, NPR)) == "1.01"
  {
    var frac := [DigitChar(0), DigitChar(1)];
    assert frac == "01";
    assert NatToDigits(1) == "1";
    assert CanonicalText(101) == DecimalText(false, "1", "01");
    assert FracText("01") == ".01";
    assert SignText(false) + ("1" + ".01") == "1.01";
  }

  /** A negative amount, a zero or negative rate and a malformed id are
      refused with the field they concern. */
  lemma RejectedInputs()
    ensures MoneyOf("-50", GBP) == Failure(NegativeAmount)
    ensures ExchangeRateOf(0) == Failure(NonPositiveRate)
    ensures ExchangeRateOf(-1000000) == Failure(NonPositiveRate)
    ensures ExchangeRateOf(1500000) == Success(ExchangeRate(1500000))
    ensures TransactionIdOf("not-a-uuid") == Failure(InvalidUuid)
  {
    Parse_Minus_50();
    SmallDigitValues();
  }

  /** With a valid id and source, the target "-500.00" makes create fail
      on field "amount" and no record is returned. */
  lemma NegativeTargetFailsAtomically(p: TransactionProps)
    requires TransactionIdOf(p.id).Success?
    requires MoneyOf(p.sourceAmount, GBP).Success?
    requires p.targetAmount == "-500.00"
    ensures Create(p) == Failure(NegativeAmount)
    ensures Create(p).error.field == "amount"
  {
    Parse_Minus_500_00();
    LongerDigitValues();
    assert MoneyOf("-500.00", NPR) == Failure(NegativeAmount);
    CreateFailsFast(p);
    assert Outcomes(p)[0].None? && Outcomes(p)[1].None?;
    assert Outcomes(p)[2] == Some(NegativeAmount);
  }

  /** The script check ignores letter case. */
  lemma ScriptTagAnyCase()
    ensures TransactionNoteOf("<SCRIPT>alert(1)") == Failure(NoteHasScript)
    ensures TransactionNoteOf("<sCrIpT src=x>") == Failure(NoteHasScript)
  {
    assert ScriptOpenAt("<SCRIPT>alert(1)", 0);
    assert ScriptOpenAt("<sCrIpT src=x>", 0);
  }

  /** A note without "<" cannot hold the script pattern. */
  lemma NoteWithoutAngleAccepted(note: string)
    requires |note| <= MaxNoteLength
    requires forall i :: 0 <= i < |note| ==> note[i] != '<'
    ensures TransactionNoteOf(note) == Success(TransactionNote(note))
  {
    forall i: nat | i + |ScriptOpen| <= |note|
      ensures !ScriptOpenAt(note, i)
    {
      assert LowerAscii(note[i + 0]) != ScriptOpen[0];
    }
  }

  lemma DateParts_2023_10_10()
    ensures IsDateShape("2023-10-10")
    ensures "2023-10-10"[5..7] == "10" && "2023-10-10"[8..] == "10"
  {
    var s := "2023-10-10";
    assert s[5] == '1' && s[6] == '0' && s[8] == '1' && s[9] == '0';
    assert s[5..7] == [s[5], s[6]] && s[8..] == [s[8], s[9]];
  }

  lemma DateParts_2023_13_10()
    ensures IsDateShape("2023-13-10")
    ensures "2023-13-10"[5..7] == "13" && "2023-13-10"[8..] == "10"
  {
    var s := "2023-13-10";
    assert s[5] == '1' && s[6] == '3' && s[8] == '1' && s[9] == '0';
    assert s[5..7] == [s[5], s[6]] && s[8..] == [s[8], s[9]];
  }

  /** A well-formed, resolvable date passes through unchanged; month 13
      fails on the value and a slashed date on the shape. */
  lemma DateAccepted()
    ensures TransactionDateOf("2023-10-10") == Success(TransactionDate("2023-10-10"))
    ensures TransactionDateOf("2023-13-10") == Failure(InvalidDateValue)
    ensures TransactionDateOf("10/10/2023") == Failure(InvalidDateFormat)
  {
    DateParts_2023_10_10();
    DateParts_2023_13_10();
    SmallDigitValues();
  }
}
