# transaction-engine, modelled in Dafny

A model of the ledger core of `transaction-engine`. The engine takes a stream
of client transactions (deposits, withdrawals, disputes, resolves,
chargebacks) and keeps one account per client, with `available`, `held` and
`total` balances and a `locked` flag. It also keeps a history of deposits, so
that later disputes can find their amount. This model covers the engine step
of `src/engine.rs` and the value layer of `src/types.rs`:

- the fresh account;
- decoding the `type` and `amount` columns of an input row;
- the way a balance is rounded and printed on output.

Modules:

- `Wrappers` holds `Option` and `Result`.
- `Decimals` models exact decimals as the decimal library stores them: a
  mantissa and a base-ten scale. It gives addition and subtraction (a
  zero operand gives back the other operand at its own scale; otherwise the
  result takes the larger scale), comparison by value, and `round_dp`. `Value` gives the
  number a decimal denotes.
- `Types` holds the account, its derived-total invariant, the decoded input
  row, and balance serialisation and printing, with the read-back of printed
  numbers.
- `Engine` holds the engine state and its one step, `AddTransaction`, split
  into the five guarded branches (`Step`) and the recomputation of the total
  (`Settle`). It also holds lemmas for each branch, the dispute life cycle,
  the lock, and the history seen as a state machine.
- `Runs` applies a whole stream of transactions and proves what holds along
  every stream.

In the sources, the engine matches on `TransactionType::Deposit(amount)`, so
its transaction carries its amount inside the variant. The input record of
`src/types.rs` has a bare tag and an optional amount. The model follows each
file: `Engine.TransactionType` carries payloads and `Types.RawTransaction`
does not. No conversion between the two appears in either file, so none is
modelled.

## Model

| member | source | states |
|---|---|---|
| Decimals.Add | src/engine.rs:29 | decimal `+=`: adding to zero gives the other operand unchanged, scale included; adding zero gives the first operand back; otherwise the sum takes the larger of the two scales |
| Decimals.Sub | src/engine.rs:36 | decimal `-=`: subtracting from zero gives the negated subtrahend at its own scale; subtracting zero gives the first operand back; otherwise the difference takes the larger of the two scales |
| Decimals.AddValue | src/engine.rs:29 | decimal `+=` denotes the sum of the two numbers, whatever their scales |
| Decimals.SubValue | src/engine.rs:36 | decimal `-=` denotes the difference of the two numbers, whatever their scales |
| Decimals.AtLeastValue | src/engine.rs:35 | the `>=` guard compares the numbers the decimals denote, not their representations (both directions) |
| Decimals.RoundDp | src/types.rs:83 | `round_dp(PRECISION)` leaves at most 4 places, returns an input with at most 4 places unchanged, is within half a unit of the last kept place, and keeps the value when nothing is cut off |
| Types.NewAccount | src/types.rs:44-52 | a fresh account has the client's id, zero available, held and total, and is not locked |
| Types.NewAccountConsistent | src/types.rs:44-52 | a fresh account already has total equal to available plus held |
| Types.DecodeType | src/types.rs:5-14 | the `type` column is read by its exact lower-case name; a tag is rejected exactly when it names no transaction type |
| Types.TypeTagRoundTrip | src/types.rs:7-14 | every transaction type decodes back from its own lower-case name |
| Types.DecodeAmount | src/types.rs:74-84 | an empty amount column is no amount; text the decimal parser rejects is an error; a parsed amount is rounded to 4 places |
| Types.DecodeRecord | src/types.rs:16-27 | a row decodes exactly when its tag is known, the ids fit in 16 and 32 unsigned bits, and its amount decodes; the record then holds those columns |
| Types.DecodeDepositRow | src/types.rs:93-105 | the row `deposit,10,20,30.123` decodes to a deposit of 30.123 for client 10, transaction 20 |
| Types.DecodeDisputeRow | src/types.rs:121-133 | the row `dispute,10,20,` decodes to a dispute with no amount |
| Types.Render | src/types.rs:71 | `to_string` prints, for a positive scale, a point followed by exactly `scale` digits |
| Types.PositionalReadsBack | src/types.rs:71 | the digits printed before and after the point read back as the magnitude of the mantissa |
| Types.RenderUnsigned | src/types.rs:71 | a printed decimal starts with a minus sign exactly when the mantissa is negative, and the rest is the positional text of its magnitude |
| Types.RenderReadsBack | src/types.rs:71 | a printed decimal reads back, after its sign, as the magnitude of its mantissa at its scale, so the text denotes the number |
| Types.SerializeAsWritten | src/types.rs:62-72 | the serialiser as written: a balance is written with 1 to 4 places; a rounded result that has places is written as rounded; one with no places keeps its mantissa and gets scale 1, so it is not rescaled |
| Types.SetScaleShrinksWholeBalances | src/types.rs:67-69 | the serialiser as written keeps the rounded value if and only if that value is not a whole non-zero number |
| Types.WholeTenWrittenAsOne | src/types.rs:65-71 | the serialiser as written prints a whole balance of 10 as `1.0`, which denotes one |
| Types.WholeAfterZeroWrittenShrunk | src/engine.rs:29 | a whole amount of 7 added to a zero balance held at two places keeps scale 0, so the serialiser as written prints the balance `0.7` |
| Types.SerializeBalance | src/types.rs:62-72 | the corrected writer, which is not what the source does (see Findings): a balance is written with 1 to 4 places and denotes the rounded balance, or the balance itself when it has at most 4 places |
| Types.AccountRowSplits | src/types.rs:29-41 | a row written by the serialiser as written, cut at its commas, gives exactly five fields in declaration order: the client id, the three written balances and the lock flag |
| Types.AccountRowReadsBack | src/types.rs:29-41 | each field of a written row reads back: the client id as its number, the lock as `true` or `false` (both directions), each balance with a sign exactly when the written balance is negative and its digits as the written balance's magnitude at its scale |
| Types.ZeroRendersWithOnePlace | src/types.rs:163-172 | the serialiser as written prints a zero balance as `0.0` |
| Types.NewAccountRow | src/types.rs:163-172 | the serialiser as written turns a fresh account of client 1 into the row `1,0.0,0.0,0.0,false` |
| Types.NewAccountOutput | src/types.rs:163-172 | the writer's whole output for that account is `client,available,held,total,locked`, a newline, the row and a newline |
| Types.NinePlacesRoundToFour | src/types.rs:174-185 | the serialiser as written turns the balance 0.123456789 into 0.1235 at scale 4 |
| Types.FourPlacesRender | src/types.rs:174-185 | the decimal 0.1235 prints as `0.1235` |
| Types.RoundedAccountRow | src/types.rs:174-185 | the serialiser as written turns a locked account of client 1 holding 0.123456789 available into the row `1,0.1235,0.0,0.0,true` |
| Types.RoundedAccountOutput | src/types.rs:174-185 | the writer's whole output for that account is the header line, a newline, the row and a newline |
| Engine.New | src/engine.rs:18-20 | a new engine has no accounts and no history, and is well formed |
| Engine.AccountForOwn | src/engine.rs:23 | in a well-formed engine, a transaction works on its client's own account with a consistent total; a client seen for the first time starts unlocked with zero available and held |
| Engine.Step | src/engine.rs:27-73 | every branch keeps the account's client and touches no history record except the one under the transaction's id |
| Engine.Settle | src/engine.rs:75 | after recomputing the total, it equals available plus held, and nothing else about the account changes |
| Engine.AddTransaction | src/engine.rs:22-76 | the client always ends with an account whose total is consistent; no other account is created, removed or changed |
| Engine.AddTransactionHistoryFrame | src/engine.rs:30-70 | history records under other ids are neither added, removed nor changed |
| Engine.AddTransactionKeepsWellFormed | src/engine.rs:75 | every transaction, applied or not, keeps each account under its own id with total equal to available plus held |
| Engine.RejectedIsNoOp | src/engine.rs:34-72 | a transaction whose guard fails (a withdrawal over the available balance, an unknown or unsuitable dispute, resolve or chargeback) changes nothing but creating the client's account |
| Engine.DepositEffect | src/engine.rs:28-33 | a deposit always adds its amount to available, leaves held and the lock, and records itself as regular, replacing any record under its id |
| Engine.WithdrawalEffect | src/engine.rs:34-40 | an accepted withdrawal subtracts its amount from available, leaves held and the lock, and records nothing |
| Engine.DisputeEffect | src/engine.rs:41-52 | an accepted dispute moves the recorded amount from available to held and marks the record as under dispute with the same amount |
| Engine.ResolveEffect | src/engine.rs:53-62 | an accepted resolve moves the disputed amount from held back to available and drops the record |
| Engine.ChargebackEffect | src/engine.rs:63-72 | an accepted chargeback removes the disputed amount from held, leaves available untouched, locks the account and drops the record |
| Engine.DisputeThenResolve | src/engine.rs:289-320 | a dispute followed by its resolve restores the client's available and held balances and lock, and forgets the transaction |
| Engine.DisputeThenChargeback | src/engine.rs:391-422 | a dispute followed by its chargeback leaves available short by the disputed amount and held unchanged, locks the account, and forgets the transaction |
| Engine.NoDoubleDispute | src/engine.rs:41-52 | disputing a transaction already under dispute changes nothing |
| Engine.LockedStaysLocked | src/engine.rs:66 | no transaction ever unlocks an account |
| Engine.LockedOnlyByChargeback | src/engine.rs:63-72 | an account becomes locked only through an accepted chargeback for its own client |
| Engine.LockedNotGated | src/engine.rs:22-76 | the lock gates nothing: a locked account takes every transaction as the same account unlocked would |
| Engine.HistoryTransitions | src/engine.rs:27-73 | a record appears only by a deposit with its id, disappears only by a resolve or chargeback of a disputed record, becomes disputed only by a dispute, goes back to regular only by a deposit reusing the id, and changes amount only by such a deposit |
| Engine.GetAccounts | src/engine.rs:78-80 | the returned accounts are exactly the stored ones, each once, one per client |
| Runs.RunKeepsWellFormed | src/main.rs:43-47 | along any stream of transactions, every account stays under its own id with a consistent total |
| Runs.RunAccounts | src/main.rs:43-47 | after a stream, the clients with an account are those that had one plus those the stream names |
| Runs.RunKeepsLocked | src/main.rs:43-47 | a locked account stays locked through any stream |
| Runs.RunHistoryFromDeposits | src/main.rs:43-47 | after a stream, every recorded id was recorded before or is the id of a deposit in the stream, so a withdrawal can never be disputed |

## Left out

- Reading the input file, the tokio tasks and channel, writing to standard
  output, and skipping rows that fail to decode (`src/main.rs`) are I/O and
  concurrency. `Runs.Run` stands for the loop that feeds the engine.
- Logging is not modelled, since it has no effect on state.
- The decimal library's text parser is not modelled. `Types.DecodeAmount`
  and `Types.DecodeRecord` take it as the parameter `parse`.
- The input reader's whitespace trimming and the CSV and serde glue are not
  modelled on input. On output, the table writer is modelled only as
  `Types.WrittenAccount`: the header line, then comma-separated fields,
  each line ended by a newline. Quoting is not modelled, since no written
  field can contain a comma. `Types.DecodeRecord` takes the four columns
  already split, with the id columns as integers.
- Decimals.RoundDp: the contract does not state which neighbour wins at an
  exact half. The body rounds half to even, as the library does by default.
- Decimals.Add: the library's 96-bit mantissa, its maximum scale of 28 and
  the overflow panics are not modelled. Mantissas are unbounded.
- Types.Render: only the positional notation the library prints for a
  decimal is modelled. Nothing else the library's `to_string` can produce
  is.
- Engine.GetAccounts: the order of the returned accounts is left
  unspecified. The system's documentation speaks of the order in which
  clients were first seen, but the code collects the accounts from a hash
  map, which promises no order. The model follows the code.
- The engine tests in `src/engine.rs` replay short concrete streams. They
  are covered by the general branch and life-cycle lemmas above rather
  than replayed on concrete decimals.

## Findings

| source | as written | input that shows it | evidently intended | confidence | as-written member | corrected member |
|---|---|---|---|---|---|---|
| src/types.rs:67-69 | a rounded balance with scale 0 gets `set_scale(1)`, which changes the scale without rescaling the mantissa, so the number is divided by ten | a deposit of `10` leaves available = 10 at scale 0, which is written `1.0`; a whole amount added to a zero balance of any scale also keeps scale 0, so a deposit of `5.00`, a withdrawal of `5.00` and a deposit of `7` leave available written `0.7` | write a whole balance with one fractional digit while keeping its value (`10.0`) | high, not executed | Types.SetScaleShrinksWholeBalances | Types.SerializeBalance |

The written rows (`Types.AccountRow`) use the serialiser as written,
because that is what the program prints and what its tests expect. The
corrected writer, `Types.SerializeBalance`, is the one whose value is
proved equal to the rounded balance.
