/** The conversion handlers of the entry form
    (src/components/TransactionForm.tsx): three text fields, where editing
    the GBP or NPR amount fills in the other side through the integer
    conversion, and editing the rate recomputes NPR. Rendering, submission
    and the initial rate fetch are not part of this model. */
module TransactionFormModel {
  import opened Results
  import opened Decimal
  import opened Primitives

  /** The reverse conversion: NPR minor units back to GBP minor units,
      dividing by the scaled rate with half-up rounding. */
  function ReverseConvert(nprMinorUnits: nat, scaled: PositiveInt): (gbpMinorUnits: nat)
    ensures RoundsHalfUp(gbpMinorUnits, nprMinorUnits * RateScale, scaled)
  {
    var numerator := nprMinorUnits * RateScale + scaled / 2;
    var q := numerator / scaled;
    assert q * scaled <= numerator < q * scaled + scaled;
    q
  }

  /** For a rate of at least 1, converting GBP to NPR and back gives the
      original GBP amount. */
  lemma ReverseUndoesForward(m: Money, rate: ExchangeRate)
    requires rate.scaledValue >= RateScale
    ensures ReverseConvert(MultiplyByRate(m, rate, NPR).minorUnits, rate.scaledValue) == m.minorUnits
  {
    var s := rate.scaledValue;
    var f := MultiplyByRate(m, rate, NPR).minorUnits;
    var g := m.minorUnits;
    assert f * RateScale - RateScale / 2 <= g * s < f * RateScale + RateScale / 2;
    if s == RateScale {
      if f > g {
        MulMonotone(g + 1, f, RateScale);
      } else if f < g {
        MulMonotone(f + 1, g, RateScale);
      }
    }
    assert RoundsHalfUp(g, f * RateScale, s);
    RoundsHalfUpUnique(ReverseConvert(f, s), g, f * RateScale, s);
  }

  /** The NPR text the form shows for GBP text at a rate, when both
      validate: the two-decimal text of the converted amount. */
  function ForwardText(gbpText: string, scaled: int): (r: Option<string>)
    ensures r.Some? <==> MoneyOf(gbpText, GBP).Success? && scaled > 0
    ensures r.Some? ==>
      MoneyOf(r.value, NPR) == Success(MultiplyByRate(MoneyOf(gbpText, GBP).value, ExchangeRateOf(scaled).value, NPR))
    ensures r.Some? ==>
      r.value == ToDecimalString(MultiplyByRate(MoneyOf(gbpText, GBP).value, ExchangeRateOf(scaled).value, NPR))
  {
    var m := MoneyOf(gbpText, GBP);
    var rate := ExchangeRateOf(scaled);
    if m.Success? && rate.Success? then
      var npr := MultiplyByRate(m.value, rate.value, NPR);
      ToDecimalStringRoundTrip(npr);
      Some(ToDecimalString(npr))
    else
      None
  }

  /** The GBP text the form shows for NPR text at a rate, when both
      validate: the two-decimal text of the reverse conversion. */
  function BackwardText(nprText: string, scaled: int): (r: Option<string>)
    ensures r.Some? <==> MoneyOf(nprText, NPR).Success? && scaled > 0
    ensures r.Some? ==>
      MoneyOf(r.value, GBP) == Success(Money(ReverseConvert(MoneyOf(nprText, NPR).value.minorUnits, scaled), GBP))
    ensures r.Some? ==>
      r.value == ToDecimalString(Money(ReverseConvert(MoneyOf(nprText, NPR).value.minorUnits, scaled), GBP))
  {
    var m := MoneyOf(nprText, NPR);
    var rate := ExchangeRateOf(scaled);
    if m.Success? && rate.Success? then
      var gbp := Money(ReverseConvert(m.value.minorUnits, rate.value.scaledValue), GBP);
      ToDecimalStringRoundTrip(gbp);
      Some(ToDecimalString(gbp))
    else
      None
  }

  /** Typing back the NPR figure the form just displayed restores the GBP
      text, for any rate of at least 1. */
  lemma EditRoundTrip(m: Money, scaled: int)
    requires m.currency == GBP
    requires scaled >= RateScale
    ensures ForwardText(ToDecimalString(m), scaled).Some?
    ensures BackwardText(ForwardText(ToDecimalString(m), scaled).value, scaled) == Some(ToDecimalString(m))
  {
    ToDecimalStringRoundTrip(m);
    var rate := ExchangeRate(scaled);
    var npr := MultiplyByRate(m, rate, NPR);
    ToDecimalStringRoundTrip(npr);
    ReverseUndoesForward(m, rate);
  }

  /** The form's gbp, npr and rate state. */
  class ConversionForm {
    var gbp: string
    var npr: string
    /** The rate at the 10^6 scale; None for `null` and for `NaN`. */
    var rate: Option<int>

    constructor ()
      ensures gbp == "" && npr == "" && rate == None
    {
      gbp, npr, rate := "", "", None;
    }

    /** JavaScript truthiness of the rate: neither null, NaN nor 0. */
    predicate RateSet()
      reads this
    {
      rate.Some? && rate.value != 0
    }

    /** `handleGbpChange`: clearing GBP clears NPR; with a rate set, a
        valid amount fills NPR with its conversion; otherwise NPR stays. */
    method HandleGbpChange(val: string)
      modifies this
      ensures gbp == val && rate == old(rate)
      ensures val == "" ==> npr == ""
      ensures val != "" && RateSet() && ForwardText(val, rate.value).Some? ==>
        npr == ForwardText(val, rate.value).value
      ensures val != "" && !(RateSet() && ForwardText(val, rate.value).Some?) ==> npr == old(npr)
    {
      gbp := val;
      if RateSet() && val != "" {
        var m := MoneyOf(val, GBP);
        var r := ExchangeRateOf(rate.value);
        if m.Success? && r.Success? {
          var nprMoney := MultiplyByRate(m.value, r.value, NPR);
          npr := ToDecimalString(nprMoney);
        }
      } else if val == "" {
        npr := "";
      }
    }

    /** `handleNprChange`: clearing NPR clears GBP; with a rate set, a
        valid amount fills GBP with the reverse conversion; otherwise GBP
        stays. */
    method HandleNprChange(val: string)
      modifies this
      ensures npr == val && rate == old(rate)
      ensures val == "" ==> gbp == ""
      ensures val != "" && RateSet() && BackwardText(val, rate.value).Some? ==>
        gbp == BackwardText(val, rate.value).value
      ensures val != "" && !(RateSet() && BackwardText(val, rate.value).Some?) ==> gbp == old(gbp)
    {
      npr := val;
      if RateSet() && val != "" {
        var m := MoneyOf(val, NPR);
        var r := ExchangeRateOf(rate.value);
        if m.Success? && r.Success? {
          var raw := ReverseConvert(m.value.minorUnits, r.value.scaledValue);
          gbp := ToDecimalString(Money(raw, GBP));
        }
      } else if val == "" {
        gbp := "";
      }
    }

    /** `handleRateChange`: stores the new rate and, while GBP is not
        empty, recomputes NPR from the current GBP text when both
        validate. */
    method HandleRateChange(val: string)
      modifies this
      ensures rate == (if val == "" then None else ReadRate(val))
      ensures gbp == old(gbp)
      ensures gbp != "" && val != "" && ReadRate(val).Some? && ForwardText(gbp, ReadRate(val).value).Some? ==>
        npr == ForwardText(gbp, ReadRate(val).value).value
      ensures !(gbp != "" && val != "" && ReadRate(val).Some? && ForwardText(gbp, ReadRate(val).value).Some?) ==>
        npr == old(npr)
    {
      rate := if val == "" then None else ReadRate(val);
      if gbp != "" && val != "" {
        var m := MoneyOf(gbp, GBP);
        var r := ExchangeRateOfText(val);
        if m.Success? && r.Success? {
          var nprMoney := MultiplyByRate(m.value, r.value, NPR);
          npr := ToDecimalString(nprMoney);
        }
      }
    }
  }
}
