# Idempotent balance ledger — Dafny model

This project models the balance-mutation core of a small ledger service
written in TypeScript against DynamoDB. Two functions make up the core:

- `getUserBalance` is the balance reader. It reads a user's `balance`
  attribute and parses it with `parseInt(_, 10)`. It falls back to a
  default of 100 when the row or attribute is missing, when the text is
  empty or unparseable, or when the read throws.
- `transact` is the transaction processor. It runs these steps in order:
  1. Rejects a NaN amount, then a non-positive amount.
  2. Returns "Transaction already processed" when the idempotency key
     already has a history record. A failed lookup counts as "not processed".
  3. Reads the balance.
  4. Refuses a debit larger than that balance.
  5. Commits two writes atomically. The first sets the new balance and
     requires that the user's row exists. The second inserts the history
     record and requires that the key is absent.
  6. Wraps every error as "Transaction failed: …".

The store is two immutable maps (`Ledger.Store`): balance rows by user id
and history records by idempotency key. A balance row keeps its `balance`
attribute as the text the store holds. The commit writes
`newBalance.toString()`, and the reader parses that text back. So
read-after-commit is a real round trip through `parseInt`
(`NumberText.ParseIntOfToString`).

Everything the tables do not decide is an explicit input,
`Transaction.Oracle`:

- whether the idempotency read throws;
- whether the balance read throws;
- whether the commit call throws, and what it throws;
- the text of the error the store raises when a commit condition fails;
- the generated transaction id and the timestamp.

`transact` is a pure function `Transact(store, request, oracle)`. It returns
the outcome and the store left behind. `getUserBalance` takes the balance
table as a value and returns no store, so it cannot write.

Modules:

- `Wrappers`: Option and Result.
- `NumberText`: `parseInt(_, 10)` and integer `toString()`.
- `Ledger`: the tables and the request.
- `BalanceReader`: `src/getBalance.ts`.
- `Transaction`: `checkIdempotency`, the two-part commit and `transact` from `src/transaction.ts`.
- `TransactionProperties`: properties that span several calls, plus the scenarios of `src/Test/transaction.test.ts`.
- `VersionedUpdate`: the unused `updateBalanceWithVersion` as written, and a corrected version.

Notes on what the code does:

- The amount check rejects only NaN. Infinity passes it.
- Validation runs before the idempotency lookup. A replayed key with a NaN or non-positive amount is therefore rejected, not answered with "Transaction already processed".
- The reader returns a stored negative balance unchanged. Only a debit's own overdraft check keeps balances from going negative.
- The versioned update compares the stored version with `version + 1`, not with the version that was read (see Findings).

## Model

| member | source | states |
|---|---|---|
| NumberText.TrimStart | src/getBalance.ts:25 | `parseInt` skips exactly the leading white space and line terminators: what it drops is all white space, and what is left starts with a non-space character |
| NumberText.LeadingDigits | src/getBalance.ts:25 | the digit run `parseInt` reads is a prefix of the text, consists of digits only, and is maximal (the next character is not a digit) |
| NumberText.ParseIntOfParts | src/getBalance.ts:25 | any text made of white space, an optional sign, a non-empty digit run and a remainder that does not continue the run parses as the signed value of the run, so "60.5" gives 60 and "-5" gives -5 |
| NumberText.ParseInt | src/getBalance.ts:25 | `parseInt` yields a number only when the text contains a digit; its full meaning is stated by `ParseIntIsIntegerIff`, `ParseIntOfParts` and `ParseIntNaN` |
| NumberText.ParseIntIsIntegerIff | src/getBalance.ts:25-26 | `parseInt` yields a number exactly when, after the leading white space, the text starts with a digit or with a sign followed by a digit; otherwise it yields NaN |
| NumberText.ParseIntNaN | src/getBalance.ts:25-26 | a text that, after its white space, starts neither with a digit nor with a sign followed by a digit parses as NaN, and this includes the empty text |
| NumberText.ParseIntNaNExamples | src/getBalance.ts:19-29 | "" and "abc" parse as NaN |
| NumberText.NatToString | src/transaction.ts:90 | the numeral written for a balance is non-empty, all digits, and has no leading zero |
| NumberText.IntToString | src/transaction.ts:90 | the text written for a balance starts with '-' exactly when the balance is negative |
| NumberText.ParseIntOfToString | src/transaction.ts:90 | a balance written with `toString()` parses back with `parseInt` to the same integer |
| NumberText.IntToStringInjective | src/transaction.ts:114 | distinct balances are reported and stored as distinct texts |
| BalanceReader.GetUserBalance | src/getBalance.ts:7-36 | the reader returns 100 when the read throws or the row or attribute is missing; otherwise it returns exactly the `parseInt` value of the stored text, or 100 when that is NaN; any result other than 100 is the parsed stored value |
| BalanceReader.ReaderDependsOnOwnRow | src/getBalance.ts:12-17 | the reader looks only at the user's own row, so changes to other rows do not change its result |
| BalanceReader.ReadAfterWrite | src/getBalance.ts:25-31 | a balance stored as `n.toString()` reads back as `n` |
| BalanceReader.ReadsLeadingInteger | src/getBalance.ts:25-31 | a stored well-formed numeral, possibly followed by other text, reads as its signed integer prefix, with negatives not clamped |
| BalanceReader.ReadsDefaultWithoutInteger | src/getBalance.ts:19-29 | a stored text with no leading integer, including the empty text, reads as the default 100 |
| Transaction.CheckIdempotency | src/transaction.ts:19-34 | it reports "processed" exactly when the read succeeds and the key has a record; a failed read reports "not processed" and raises nothing |
| Transaction.NewBalance | src/transaction.ts:81 | the new balance differs from the balance read by exactly the amount: for a positive amount it goes up exactly for a credit; after a debit it is non-negative exactly when the balance covered the amount |
| Transaction.Commit | src/transaction.ts:83-111 | the commit applies exactly when the call does not throw, the user row exists and the key is absent; then it changes only the user's balance attribute and adds only the new record; otherwise the cause names the failed conditions or carries the thrown value |
| Transaction.Transact | src/transaction.ts:56-119 | a NaN amount and then a non-positive amount are rejected with the store untouched; a recorded key returns the sentinel when its read succeeds; the store changes exactly when the call commits; a commit requires an existing user row and a fresh key, sets the new balance to the balance read plus or minus the amount, and writes only the two parts; an overdraft rejection happens exactly for a debit above the balance read; "already processed" comes back only for a valid amount, a recorded key and a good read; a valid, fresh, covered request commits the new balance when the call does not throw, the user row exists and the key is absent, fails with the thrown value when the call throws, and otherwise fails as cancelled, naming the missing user or the present key |
| Transaction.Text | src/transaction.ts:114-117 | a call's text starts with "Transaction failed: " exactly when the call failed; the success text is "Transaction processed successfully. New balance: " followed by a numeral that parses back to the committed balance |
| TransactionProperties.RecordedKeyNeverReapplied | src/transaction.ts:69-72 | once a key has a record, no call with that key changes the store, under any oracle; with a good read and a valid amount it returns the sentinel, whatever the user, amount or type; with a failed read and a valid amount the call fails |
| TransactionProperties.SecondCallWithSameKey | src/transaction.ts:69-72 | after a committed call, a second call with the same key never commits and leaves the store as it was; with a good read it returns "Transaction already processed" |
| TransactionProperties.IdempotencyReadFailureAbsorbed | src/transaction.ts:27-33 | for a key with no record, a failed idempotency read changes nothing about the call; for any key, a failed read never causes a commit that a good read would not |
| TransactionProperties.BalanceReadFailureUsesDefault | src/getBalance.ts:32-35 | a failed balance read proceeds on the default 100, so a credit of 50 commits 150 whatever the row holds |
| TransactionProperties.MissingUserNeverRecorded | src/transaction.ts:91 | for a user with no row, the reader's default is used but the commit always fails, so no record is created and the store is unchanged |
| TransactionProperties.ReadAfterCommit | src/transaction.ts:81-90 | after a commit, a later read returns the committed balance, which is the balance read plus the amount for a credit, or minus the amount for a debit, and a committed debit leaves it non-negative |
| TransactionProperties.TransactKeepsBalancesNonNegative | src/transaction.ts:77-81 | if every row reads as non-negative before a call, every row does after it, even when the balance read fails |
| TransactionProperties.OneCommitPerKey | src/transaction.ts:105 | over any run of calls and any oracles, a key ends up recorded exactly when it was recorded before or exactly one call committed under it; an existing record is never changed |
| TransactionProperties.AtMostOneCommitPerKey | src/transaction.ts:105 | any run commits at most once per key, and never under a key that was already recorded |
| TransactionProperties.CommitFaultText | src/transaction.ts:111-117 | when the commit call throws, the store is unchanged and the text is "Transaction failed: " followed by the thrown error's message, or "Unknown error" when the thrown value is not an error |
| TransactionProperties.NaNAmountRejected | src/transaction.ts:61-62 | a NaN amount fails with "Transaction failed: Amount must be a valid number." and the store is unchanged |
| TransactionProperties.NonPositiveAmountRejected | src/transaction.ts:65-66 | an amount of zero or less fails with "Transaction failed: Amount must be greater than zero." and the store is unchanged |
| TransactionProperties.OverdraftRejected | src/transaction.ts:77-78 | a debit above the balance read fails with "Transaction failed: Insufficient balance." and writes nothing |
| TransactionProperties.CreditScenario | src/Test/transaction.test.ts:61-68 | with a stored "50", a credit of 10 under a fresh key commits 60, reports "Transaction processed successfully. New balance: 60" and stores "60" |
| TransactionProperties.ReaderScenarios | src/Test/transaction.test.ts:22-33 | a stored "50" reads as 50, and a user with no row reads as the default 100 |
| TransactionProperties.ReplayScenario | src/Test/transaction.test.ts:42-52 | with key "1" already recorded, any valid request under that key returns "Transaction already processed" and the store is unchanged |
| VersionedUpdate.UpdateBalanceWithVersion | src/transaction.ts:36-54 | as written: the update applies only when the stored version equals the caller's `version + 1`; it then sets the balance text and leaves the stored version where it was; a missing row is never created |
| VersionedUpdate.WithVersionRejectsVersionRead | src/transaction.ts:45-50 | as written, a caller that passes the version it read is always refused |
| VersionedUpdate.WithVersionLosesUpdates | src/transaction.ts:45-50 | as written, two updates from the same stale version both apply, so the second overwrites the first |
| VersionedUpdate.UpdateBalanceOptimistic | src/transaction.ts:36-54 | corrected: the update applies exactly when the stored version is the one read; the version then advances by one and other rows are unchanged |
| VersionedUpdate.OptimisticDetectsLostUpdate | src/transaction.ts:45-50 | corrected, two updates from the same read version cannot both apply |
| VersionedUpdate.OptimisticAcceptsVersionRead | src/transaction.ts:45-50 | corrected, a caller passing the version it read succeeds, and the stored version advances by one |

## Left out

- DynamoDB specifics are not modelled: client construction, the region, command objects, table names and attribute wire formats. The store is two maps.
- A `balance` attribute of a non-number type counts as a missing attribute. The reader sees `undefined` for `balance.N` in both cases.
- Logging through `console.log`, `console.warn` and `console.error` is left out. It has no effect on results.
- `uuidv4()` and `new Date().toISOString()` are not modelled. Their values are opaque inputs to the history record.
- Floating point is not modelled. Amounts and balances are integers or NaN, so these cases are absent:
  - Infinity, which passes the NaN check;
  - fractional amounts;
  - precision loss above 2^53;
  - exponent notation in `toString()` from 1e21 upward.
- A non-number `amount` passed at run time is not modelled. It is rejected by the same check as NaN. The model relies on the TypeScript parameter type.
- A `type` other than "credit" or "debit" is not modelled. The code would skip the overdraft check and subtract. The model relies on the TypeScript parameter type.
- Concurrency is not modelled. That covers async sequencing and interleaved calls, including the lost update between the balance read and the commit. Each call runs against one store snapshot; `Run` chains calls one after another.
- Transact: a commit call that throws is modelled as having applied nothing. A timeout whose write did in fact apply is not modelled. When the call throws, the thrown value is reported even if a condition would also have failed.
- The text of the store's cancellation error is an opaque input. Its format belongs to the store client.

## Findings

| source | as written | input that shows it | evidently intended | confidence | as-written member | corrected member |
|---|---|---|---|---|---|---|
| src/transaction.ts:45-50 | `:version` is bound to `version + 1` and then reused in the condition `version = :version`. The stored version must already equal `version + 1`, and a successful update writes that same value back. | Stored version 3, caller passes the 3 it read: the update is refused. Caller passes 2 instead: the update applies, the version stays 3, and a second update from 2 also applies. | The condition compares against the version read, and the update writes that version plus one. | high; not executed, and the function has no callers | VersionedUpdate.WithVersionRejectsVersionRead | VersionedUpdate.OptimisticDetectsLostUpdate |
