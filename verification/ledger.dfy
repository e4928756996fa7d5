/**
 * The ledger store as two tables: one row of balance per user, and one
 * history record per idempotency key.  Each table is a map from its
 * primary key, so a key can name at most one row.
 */
module Ledger {
  import opened Wrappers
  import opened NumberText

  type UserId = string
  type IdempotentKey = string

  /** The two kinds of transaction a caller can request. */
  datatype TxType = Credit | Debit

  /**
   * A row of the balance table: the `balance` number attribute as the text
   * the store holds (absent when the row has no such attribute), and the
   * `version` attribute that only the versioned update reads and writes.
   */
  datatype UserItem = UserItem(balance: Option<string>, version: Option<int>)

  /** A row of the history table, written once when a transaction commits. */
  datatype Record = Record(userId: UserId, amount: int, kind: TxType, transactionId: string, timestamp: string)

  datatype Store = Store(balances: map<UserId, UserItem>, history: map<IdempotentKey, Record>)

  /** The caller's request; `amount` is any JavaScript number the caller passed. */
  datatype Request = Request(idempotentKey: IdempotentKey, userId: UserId, amount: Number, kind: TxType)
}
