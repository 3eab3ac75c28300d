/** The RemittanceTransaction aggregate (src/domain/transaction.ts): a
    record built only by running the component validators in a fixed order
    and stopping at the first failure. */
module Transaction {
  import opened Results
  import opened Primitives

  /** The raw input of `create`: amounts and the rate as decimal text, and
      `note` None where the source's optional field is absent. */
  datatype TransactionProps = TransactionProps(
    id: string,
    sourceAmount: string,
    targetAmount: string,
    exchangeRate: string,
    date: string,
    note: Option<string>)

  /** The validated aggregate: the source amount is always the sending (GBP)
      side and the target amount the receiving (NPR) side. */
  datatype RemittanceTransaction = RemittanceTransaction(
    id: TransactionId,
    sourceAmount: Money,
    targetAmount: Money,
    exchangeRate: ExchangeRate,
    date: TransactionDate,
    note: Option<TransactionNote>)

  /** JavaScript truthiness of the optional note: absent and "" are falsy. */
  predicate NoteGiven(note: Option<string>) {
    note.Some? && note.value != ""
  }

  /** Validates the note only when it is given; otherwise there is no note
      and nothing can fail. */
  function OptionalNoteOf(note: Option<string>): (r: Result<Option<TransactionNote>, DomainError>)
    ensures !NoteGiven(note) ==> r == Success(None)
    ensures NoteGiven(note) ==>
      (r.Success? <==> TransactionNoteOf(note.value).Success?) &&
      (r.Success? ==> r.value == Some(TransactionNoteOf(note.value).value)) &&
      (r.Failure? ==> r.error == TransactionNoteOf(note.value).error)
  {
    if NoteGiven(note) then
      var n :- TransactionNoteOf(note.value);
      Success(Some(n))
    else
      Success(None)
  }

  /** `RemittanceTransaction.create`: id, source amount, target amount,
      rate, date, note, each failure returned as it is. The product of source
      and rate is computed by the source and then discarded, so it is not
      part of the model. */
  function Create(p: TransactionProps): (r: Result<RemittanceTransaction, DomainError>)
    ensures r.Success? ==> r.value.sourceAmount.currency == GBP && r.value.targetAmount.currency == NPR
    ensures r.Success? ==> (r.value.note.None? <==> !NoteGiven(p.note))
  {
    var id :- TransactionIdOf(p.id);
    var source :- MoneyOf(p.sourceAmount, GBP);
    var target :- MoneyOf(p.targetAmount, NPR);
    var rate :- ExchangeRateOfText(p.exchangeRate);
    var date :- TransactionDateOf(p.date);
    var note :- OptionalNoteOf(p.note);
    Success(RemittanceTransaction(id, source, target, rate, date, note))
  }

  // ------------------------------------------------ reference definitions

  function ErrorOf<T>(r: Result<T, DomainError>): Option<DomainError> {
    if r.Failure? then Some(r.error) else None
  }

  /** The outcome of each validation step, in the order the steps run. */
  function Outcomes(p: TransactionProps): (s: seq<Option<DomainError>>)
    ensures |s| == 6
  {
    [ ErrorOf(TransactionIdOf(p.id)),
      ErrorOf(MoneyOf(p.sourceAmount, GBP)),
      ErrorOf(MoneyOf(p.targetAmount, NPR)),
      ErrorOf(ExchangeRateOfText(p.exchangeRate)),
      ErrorOf(TransactionDateOf(p.date)),
      ErrorOf(OptionalNoteOf(p.note)) ]
  }

  /** The first error in a list of outcomes. */
  function FirstError(s: seq<Option<DomainError>>): (e: Option<DomainError>)
    ensures e.None? <==> forall i :: 0 <= i < |s| ==> s[i].None?
    ensures e.Some? ==> exists i :: 0 <= i < |s| && s[i] == e && forall j :: 0 <= j < i ==> s[j].None?
  {
    if s == [] then None
    else if s[0].Some? then s[0]
    else
      var rest := FirstError(s[1..]);
      assert forall i :: 1 <= i < |s| ==> s[i] == s[1..][i - 1];
      if rest.Some? then
        var i :| 0 <= i < |s[1..]| && s[1..][i] == rest && forall j :: 0 <= j < i ==> s[1..][j].None?;
        assert s[i + 1] == rest;
        rest
      else
        rest
  }

  // ------------------------------------------------------------ properties

  /** Fail-fast: create fails exactly when some step fails, and then with
      the error of the first failing step, unchanged. */
  lemma CreateFailsFast(p: TransactionProps)
    ensures Create(p).Failure? <==> FirstError(Outcomes(p)).Some?
    ensures Create(p).Failure? ==> Create(p).error == FirstError(Outcomes(p)).value
  {
    var s := Outcomes(p);
    CreateAllOrNothing(p);
    var e := FirstError(s);
    if e.Some? {
      var i :| 0 <= i < |s| && s[i] == e && forall j :: 0 <= j < i ==> s[j].None?;
      assert s[0].None? ==> TransactionIdOf(p.id).Success?;
      if i == 0 {
      } else if i == 1 {
      } else if i == 2 {
        assert s[1].None?;
      } else if i == 3 {
        assert s[1].None? && s[2].None?;
      } else if i == 4 {
        assert s[1].None? && s[2].None? && s[3].None?;
      } else {
        assert s[1].None? && s[2].None? && s[3].None? && s[4].None?;
      }
    } else {
      assert forall i :: 0 <= i < |s| ==> s[i].None?;
      assert s[0].None? && s[1].None? && s[2].None? && s[3].None? && s[4].None? && s[5].None?;
    }
  }

  /** All-or-nothing: a record is returned only when every validator
      succeeded on its raw input, and its fields are exactly their values. */
  lemma CreateAllOrNothing(p: TransactionProps)
    ensures Create(p).Success? <==>
      && TransactionIdOf(p.id).Success?
      && MoneyOf(p.sourceAmount, GBP).Success?
      && MoneyOf(p.targetAmount, NPR).Success?
      && ExchangeRateOfText(p.exchangeRate).Success?
      && TransactionDateOf(p.date).Success?
      && OptionalNoteOf(p.note).Success?
    ensures Create(p).Success? ==> Create(p).value == RemittanceTransaction(
      TransactionIdOf(p.id).value,
      MoneyOf(p.sourceAmount, GBP).value,
      MoneyOf(p.targetAmount, NPR).value,
      ExchangeRateOfText(p.exchangeRate).value,
      TransactionDateOf(p.date).value,
      OptionalNoteOf(p.note).value)
  {
  }

  /** A successful record carries the raw id, date and note text unchanged,
      and the rate its text reads as, which is positive. */
  lemma CreatedRecordIsValid(p: TransactionProps)
    requires Create(p).Success?
    ensures var t := Create(p).value;
      && t.id.text == p.id && IsUuidText(p.id)
      && t.date.text == p.date
      && ReadRate(p.exchangeRate) == Some(t.exchangeRate.scaledValue)
      && t.exchangeRate.scaledValue > 0
      && (t.note.Some? ==> Some(t.note.value.text) == p.note && |p.note.value| <= MaxNoteLength)
  {
    CreateAllOrNothing(p);
  }

  /** An absent or empty note never makes create fail and yields no note. */
  lemma AbsentNoteNeverFails(p: TransactionProps)
    requires !NoteGiven(p.note)
    ensures Create(p).Success? <==>
      && TransactionIdOf(p.id).Success?
      && MoneyOf(p.sourceAmount, GBP).Success?
      && MoneyOf(p.targetAmount, NPR).Success?
      && ExchangeRateOfText(p.exchangeRate).Success?
      && TransactionDateOf(p.date).Success?
    ensures Create(p).Success? ==> Create(p).value.note == None
  {
    CreateAllOrNothing(p);
  }

  /** The target amount is never checked against source * rate: replacing a
      valid record's target by any other valid NPR amount still succeeds. */
  lemma TargetNotCheckedAgainstRate(p: TransactionProps, target: string)
    requires Create(p).Success?
    requires MoneyOf(target, NPR).Success?
    ensures Create(p.(targetAmount := target)).Success?
    ensures Create(p.(targetAmount := target)).value ==
            Create(p).value.(targetAmount := MoneyOf(target, NPR).value)
  {
    CreateAllOrNothing(p);
    CreateAllOrNothing(p.(targetAmount := target));
  }
}
