# Remittance tracker: the monetary domain core in Dafny

This project models the domain layer of a GBP → NPR remittance tracker and
proves properties of it:

- the two-variant `Result` type (`Results`);
- the validating constructors of the value objects: Money in integer minor
  units, an exchange rate scaled by 10^6, and the UUID id, the
  `YYYY-MM-DD` date and the note (`Primitives`);
- the fail-fast aggregate constructor `RemittanceTransaction.create`
  (`Transaction`);
- the backup export and the upsert loop of the import over the local
  transaction table (`Db`, a class holding a `map` from id to record);
- the three conversion handlers of the entry form, a small state machine
  over its `gbp`, `npr` and `rate` fields (`TransactionFormModel`, a class).

`Decimal` holds the reading of decimal text that the model chooses for
amounts and rates: the grammar `-?digits(.digits)?`, its renderer, and the
exact value of a literal at a given number of decimal places. The
repository's callers pass amounts and rates as decimal strings, but the
code that reads them is not part of the repository's `primitives.ts`, so
this grammar is a modelling decision.
`Scenarios` restates scenarios from the domain tests and from the
validators' own checks as lemmas.

Amounts are modelled in the integer form that the callers, the form and the
tests use: decimal text in, `nat` minor units out. Rates are decimal text
read exactly at the 10^6 scale. The money product and the reverse
conversion round half-up at that scale. The repository's
`src/domain/primitives.ts` is an older version than its callers: it stores
`amount: number` and has no `multiplyByRate` or `toDecimalString`. The
model keeps that file's check order, field names and messages (negative
first, then more than two decimals).

Two modelling decisions go beyond that file:

- Text outside the decimal grammar fails on field `amount` (or `rate`)
  with the message "Invalid numeric format".
- The import reports an empty error list on every valid backup, because
  `importDatabase` validates the whole document with one schema and never
  appends to `errors` in its loop (src/lib/db.ts:83-99).

## Model

| member | source | states |
|---|---|---|
| Results.Ok | src/lib/result.ts:6 | `ok(v)` is the success variant and carries exactly `v` |
| Results.Err | src/lib/result.ts:7 | `err(e)` is the failure variant and carries exactly `e` |
| Results.ExactlyOneVariant | src/lib/result.ts:1-3 | every Result is `ok` of its value or `err` of its error, discriminated by `success` |
| Decimal.ParseDecimal | src/domain/primitives.ts:33-34 | a parsed amount literal splits into a sign, whole digits and fractional digits that render back to exactly the input text |
| Decimal.ParseRender | src/domain/primitives.ts:33-34 | every well-formed literal is read back by the parser as itself, so the grammar and the renderer are inverses |
| Decimal.AcceptedTextShape | src/domain/primitives.ts:33-34 | an accepted text starts with a digit or minus, ends with a digit, and holds only digits and dots after its first character, so whitespace, "+1", ".5", "5." and exponent forms are refused |
| Decimal.AtScale | src/domain/__tests__/logic.test.ts:21-27 | a literal at `places` decimal places is an exact integer: `n * 10^|frac| == value * 10^places` |
| Primitives.MoneyOf | src/domain/primitives.ts:24-43 | unparsable text fails; a negative literal fails with field `amount`, "Amount must be non-negative"; otherwise more than two decimals fails with "Amount must have at most 2 decimal places"; it succeeds exactly when neither holds, keeps the currency, and holds the exact value in minor units |
| Primitives.ToDecimalString | src/domain/__tests__/logic.test.ts:49 | the text is a non-negative literal with exactly two decimals whose value is the amount's minor units and whose whole part has no leading zero, which fixes the text (101 is "1.01") |
| Primitives.ToDecimalStringRoundTrip | src/components/TransactionForm.tsx:49 | reading back the formatted amount in its currency gives the same Money |
| Primitives.SameMoneyIffSameText | src/domain/__tests__/logic.test.ts:55-64 | two accepted amount texts give the same Money exactly when their formatted texts are equal |
| Primitives.MultiplyByRate | src/domain/__tests__/logic.test.ts:31-53 | the result is in the target currency and is `minorUnits * scaledRate / 10^6` rounded half-up |
| Primitives.RoundsHalfUpUnique | src/domain/__tests__/logic.test.ts:36 | at most one integer rounds a quotient half-up, so the product is determined and deterministic |
| Primitives.ExchangeRateOf | src/domain/primitives.ts:50-59 | on a number already at the 10^6 scale: fails with field `rate`, "Exchange rate must be positive", exactly when the value is not positive; otherwise keeps the value |
| Primitives.ReadRate | src/components/TransactionForm.tsx:82 | a rate text with at most six decimals is read as exactly its value times 10^6; any other text is not a number |
| Primitives.ExchangeRateOfText | src/domain/primitives.ts:50-59 | on rate text: text that is not a number fails on field `rate`; a number fails with "Exchange rate must be positive" exactly when it is not positive; a success holds the exact value times 10^6 |
| Primitives.TransactionIdOf | src/domain/primitives.ts:70-80 | succeeds exactly on 8-4-4-4-12 hexadecimal UUID text and keeps it; otherwise fails with field `id`, "Invalid UUID format" |
| Primitives.TransactionDateOf | src/domain/primitives.ts:90-120 | a text not of the `^\d{4}-\d{2}-\d{2}$` shape fails on the format first; a shaped text that does not resolve fails on the value; otherwise the text is kept; no future-date check |
| Primitives.TransactionNoteOf | src/domain/primitives.ts:127-144 | over 200 characters fails first; then any case-insensitive `<script` fails; both on field `note`; otherwise the text is kept |
| Transaction.OptionalNoteOf | src/domain/transaction.ts:50-56 | an absent or empty note gives no note and cannot fail; a given note succeeds or fails as `TransactionNote.of` does |
| Transaction.Create | src/domain/transaction.ts:29-77 | a created record has the source in GBP and the target in NPR, and has a note exactly when a non-empty note was given |
| Transaction.CreateFailsFast | src/domain/transaction.ts:31-55 | create fails exactly when some step fails, with the unchanged error of the first failing step in the order id, source, target, rate, date, note |
| Transaction.CreateAllOrNothing | src/domain/transaction.ts:29-77 | create succeeds exactly when every validator succeeds on its raw input, and its fields are exactly their values |
| Transaction.CreatedRecordIsValid | src/domain/transaction.ts:69-76 | a created record keeps the raw id, date and note text, the id is UUID text, the rate is the positive value its text reads as, and the note is at most 200 characters |
| Transaction.AbsentNoteNeverFails | src/domain/transaction.ts:51-56 | without a non-empty note, create succeeds exactly when the other five steps do, and records no note |
| Transaction.TargetNotCheckedAgainstRate | src/domain/transaction.ts:58-67 | the target is never checked against source times rate: any other valid NPR target gives the same record with that target |
| Db.UpsertedKeys | src/lib/db.ts:86-96 | after the upsert the table's ids are its old ids plus the backup's ids |
| Db.UpsertedLastWins | src/lib/db.ts:86-96 | each backup id maps to the last record in the backup that carries it |
| Db.UpsertedKeepsOthers | src/lib/db.ts:86-96 | entries whose ids the backup does not carry are untouched |
| Db.CountsCoverBackup | src/lib/db.ts:86-96 | `added + updated` is the number of records in the backup |
| Db.AddedAreNewIds | src/lib/db.ts:88-95 | `added` is the number of distinct backup ids the table did not hold before |
| Db.ReimportSnapshot | src/lib/db.ts:86-96 | upserting records already stored under their ids leaves the table unchanged and counts every record as an update |
| Db.TransactionTable.ExportDatabase | src/lib/db.ts:32-40 | the backup has version 1, the given timestamp, and every stored record exactly once under its id |
| Db.TransactionTable.ImportDatabase | src/lib/db.ts:61-100 | unparsable JSON and a schema-invalid document each report added 0, updated 0 and one error, leaving the table alone; a valid backup upserts every record in order, counting a record as updated exactly when its id was stored before or carried by an earlier record, with no errors |
| Db.ExportThenImport | src/lib/db.ts:32-100 | exporting and re-importing leaves the table unchanged and reports `updated` = record count, `added` = 0 |
| TransactionFormModel.ReverseConvert | src/components/TransactionForm.tsx:66-70 | the GBP minor units are `npr * 10^6 / scaledRate` rounded half-up |
| TransactionFormModel.ReverseUndoesForward | src/components/TransactionForm.tsx:66-70 | for a rate of at least 1, converting back the NPR amount computed from a GBP amount gives the GBP amount |
| TransactionFormModel.ForwardText | src/components/TransactionForm.tsx:44-50 | the NPR text exists exactly when the GBP text and the rate validate, reads back as the rounded product, and is the two-decimal text of that amount |
| TransactionFormModel.BackwardText | src/components/TransactionForm.tsx:59-74 | the GBP text exists exactly when the NPR text and the rate validate, reads back as the reverse conversion, and is the two-decimal text of that amount |
| TransactionFormModel.EditRoundTrip | src/components/TransactionForm.tsx:41-78 | typing back the NPR figure the form displayed restores the GBP text, for any rate of at least 1 |
| TransactionFormModel.ConversionForm.HandleGbpChange | src/components/TransactionForm.tsx:41-54 | GBP takes the new text; clearing it clears NPR; with a rate set and both values valid NPR is the converted amount; otherwise NPR stays |
| TransactionFormModel.ConversionForm.HandleNprChange | src/components/TransactionForm.tsx:56-78 | NPR takes the new text; clearing it clears GBP; with a rate set and both values valid GBP is the reverse conversion; otherwise GBP stays |
| TransactionFormModel.ConversionForm.HandleRateChange | src/components/TransactionForm.tsx:80-91 | the rate becomes the parsed text or none; while GBP is not empty and both values validate NPR is recomputed; otherwise NPR stays |
| Scenarios.TwoDecimalPlaces | src/domain/__tests__/logic.test.ts:11-27 | "100.12" is 10012 minor units and "100.123" fails on the decimal-places check |
| Scenarios.NoBinaryFractionDrift | src/domain/__tests__/logic.test.ts:55-64 | "0.10" and "0.20" are 10 and 20 minor units, exactly 30 together |
| Scenarios.RateTextAtScale | src/domain/__tests__/logic.test.ts:39 | `ExchangeRate.of("1.005")` is the rate 1005000 |
| Scenarios.RateOneFifty | src/domain/__tests__/logic.test.ts:73 | the rate text "1.50" given to create is the rate 1500000 |
| Scenarios.RateTextRefused | src/domain/primitives.ts:51-57 | "abc" fails as not a number and "0" fails as not positive, both on field `rate` |
| Scenarios.OnePound | src/domain/__tests__/logic.test.ts:38 | "1.00" is 100 minor units |
| Scenarios.HalfUpAtRateScale | src/domain/__tests__/logic.test.ts:42-48 | 100 minor units at 1005000 is 101 minor units |
| Scenarios.FormatsTwoDigits | src/domain/__tests__/logic.test.ts:49 | 101 minor units are shown as "1.01" |
| Scenarios.RejectedInputs | src/domain/__tests__/primitives.test.ts:14-51 | "-50" fails as negative, rates 0 and below fail, a positive rate is kept, "not-a-uuid" fails |
| Scenarios.NegativeTargetFailsAtomically | src/domain/__tests__/logic.test.ts:68-81 | with a valid id and source, target "-500.00" makes create fail on field `amount` |
| Scenarios.ScriptTagAnyCase | src/domain/primitives.ts:136 | "<SCRIPT>" and "<sCrIpT" are refused as script notes |
| Scenarios.NoteWithoutAngleAccepted | src/domain/primitives.ts:127-143 | a note of at most 200 characters without "<" is accepted unchanged |
| Scenarios.DateAccepted | src/domain/primitives.ts:91-112 | "2023-10-10" is accepted unchanged, "2023-13-10" fails on the value and "10/10/2023" on the format |

## Left out

- Primitives.MoneyOf: takes decimal text only. The numeric input of the repository's `primitives.ts` and its `number.toString` splitting are floating point and are not modelled. Text outside the grammar `-?digits(.digits)?` fails with "Invalid numeric format", whatever the integer program does with it: surrounding whitespace, a leading "+", ".5", "5." and exponent forms are all refused.
- Primitives.ExchangeRateOf: takes the rate already multiplied by 10^6, as the form passes its stored rate; rate text goes through Primitives.ExchangeRateOfText.
- Primitives.ExchangeRateOfText: reads only literals of the same grammar with at most six decimals; any other text, including rates finer than 10^-6, fails with field `rate` and "Invalid numeric format". No code in the repository's files reads rate text into an integer, so this failure and its message are a modelling decision.
- Primitives.TransactionDateOf: the JavaScript `Date` resolution of the value check is approximated by month 1..12 and day 1..31, so engine-specific cases such as 30 February are not modelled.
- Primitives.TransactionIdOf: checks the 8-4-4-4-12 hexadecimal shape only; the version and variant digits of the UUID validator library are not modelled.
- Primitives.TransactionNoteOf: the length is counted in Dafny characters, not UTF-16 code units.
- Primitives.ReadRate: as the form's `parseFloat`, reads only complete literals with at most six decimals; `parseFloat`'s acceptance of a numeric prefix, exponents, and rates finer than 10^-6 are floating point and have no integer counterpart in the code.
- Db.TransactionTable.ExportDatabase: records come out in an unspecified order; the key order of the storage library and the JSON text are not modelled.
- Db.TransactionTable.ImportDatabase: `JSON.parse` and the schema check are foreign code; their outcome reaches the import as an already classified input, and the schema library's message is a parameter.
- The async/await and the read-write transaction wrapper of the import: modelled as a plain sequential loop.
- `TransactionId.new`, `TransactionDate.today`, `Date.now` and timers: they depend on randomness or the clock; the export timestamp is a parameter.
- The future-date check: it exists only as comments in the date constructor.
- `ExchangeRate.toNumber`, the division by 100 at submit and `toFixed` display: floating point.
- The initial rate fetch (network), rendering, the submit handler and the settings and list components: outside the modelled core.
- The product that `create` computes and then discards: it affects nothing, so `Create` does not compute it.
