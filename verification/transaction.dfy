/**
 * The transaction processor: validate the amount, skip requests already
 * recorded, read the balance, refuse an overdrawing debit, then commit the
 * new balance and the history record together or not at all.  Every store
 * effect the processor cannot see is an input: whether each read fails,
 * how the commit call ends, and the generated id and timestamp.
 */
module Transaction {
  import opened Wrappers
  import opened NumberText
  import opened Ledger
  import opened BalanceReader

  /** A value a store call throws: an `Error` carrying a message, or anything else. */
  datatype Thrown = ErrorValue(message: string) | OtherValue

  /** Why a transaction was rejected. */
  datatype Cause =
    | NotANumber
    | NotPositive
    | InsufficientBalance
      /** The store cancelled the commit because a condition failed; `message` is the text of its error. */
    | Cancelled(userMissing: bool, keyPresent: bool, message: string)
      /** The commit call itself threw; nothing was applied. */
    | StoreFault(thrown: Thrown)

  /**
   * What the store and the runtime do during one call, beyond what the
   * tables determine.
   */
  datatype Oracle = Oracle(
    idempotencyReadFails: bool,
    balanceReadFails: bool,
    commitFault: Option<Thrown>,
    cancelMessage: string,
    transactionId: string,
    timestamp: string)

  /** How a call ends: a committed balance, the replay sentinel, or a rejection. */
  datatype Outcome = Processed(newBalance: int) | AlreadyProcessed | Failed(cause: Cause)

  /** The outcome of a call together with the store it leaves behind. */
  datatype Step = Step(outcome: Outcome, store: Store)

  const AlreadyProcessedText: string := "Transaction already processed"
  const SuccessPrefix: string := "Transaction processed successfully. New balance: "
  const FailurePrefix: string := "Transaction failed: "

  /** The message of the error behind a rejection. */
  function CauseMessage(c: Cause): string {
    match c
    case NotANumber => "Amount must be a valid number."
    case NotPositive => "Amount must be greater than zero."
    case InsufficientBalance => "Insufficient balance."
    case Cancelled(_, _, message) => message
    case StoreFault(ErrorValue(message)) => message
    case StoreFault(OtherValue) => "Unknown error"
  }

  /** Whether `p` is a prefix of `s`. */
  predicate StartsWith(s: string, p: string) {
    |p| <= |s| && s[..|p|] == p
  }

  /**
   * The string the call resolves with, or the message of the error it
   * rejects with.  The "Transaction failed: " prefix marks exactly the
   * rejections, and a success reports a numeral that reads back as the
   * committed balance.
   */
  function Text(o: Outcome): (r: string)
    ensures StartsWith(r, FailurePrefix) <==> o.Failed?
    ensures o.Processed? ==>
      StartsWith(r, SuccessPrefix) && ParseInt(r[|SuccessPrefix|..]) == Int(o.newBalance)
  {
    match o
    case Processed(n) =>
      var r := SuccessPrefix + IntToString(n);
      assert r[12] == 'p' != FailurePrefix[12];
      assert r[|SuccessPrefix|..] == IntToString(n);
      ParseIntOfToString(n);
      r
    case AlreadyProcessed =>
      assert AlreadyProcessedText[12] == 'a' != FailurePrefix[12];
      AlreadyProcessedText
    case Failed(c) =>
      var r := FailurePrefix + CauseMessage(c);
      assert r[..|FailurePrefix|] == FailurePrefix;
      r
  }

  /**
   * `checkIdempotency`: whether the key has a history record.  A failed
   * read is taken as "not processed", so the answer is never a false "yes"
   * and a read failure is never raised.
   */
  function CheckIdempotency(history: map<IdempotentKey, Record>, key: IdempotentKey, readFails: bool): (processed: bool)
    ensures processed ==> key in history
    ensures readFails ==> !processed
    ensures processed <==> !readFails && key in history
  {
    !readFails && key in history
  }

  /**
   * The balance a valid amount leaves: added for a credit, subtracted for a
   * debit.  A positive amount raises the balance exactly for a credit, and
   * a debit leaves it non-negative exactly when it did not exceed it.
   */
  function NewBalance(balance: int, amount: int, kind: TxType): (r: int)
    ensures amount > 0 ==> (r > balance <==> kind == Credit)
    ensures kind == Debit ==> (r >= 0 <==> balance >= amount)
    ensures r - balance == amount || balance - r == amount
  {
    if kind == Credit then balance + amount else balance - amount
  }

  /** The history record a commit writes for `req`. */
  function RecordOf(req: Request, amount: int, o: Oracle): Record {
    Record(req.userId, amount, req.kind, o.transactionId, o.timestamp)
  }

  /**
   * `s'` is `s` with exactly the two parts of a commit applied: the user's
   * balance set to the text of `newBalance`, and a record added under the
   * key; every other row, and every other attribute of the user's row, is
   * as it was.
   */
  predicate Committed(s: Store, s': Store, req: Request, amount: int, newBalance: int, o: Oracle)
    requires req.userId in s.balances
  {
    && s'.balances.Keys == s.balances.Keys
    && req.userId in s'.balances
    && s'.balances[req.userId].balance == Some(IntToString(newBalance))
    && s'.balances[req.userId].version == s.balances[req.userId].version
    && (forall u :: u in s.balances && u != req.userId ==> s'.balances[u] == s.balances[u])
    && s'.history.Keys == s.history.Keys + {req.idempotentKey}
    && s'.history[req.idempotentKey] == RecordOf(req, amount, o)
    && (forall k :: k in s.history ==> s'.history[k] == s.history[k])
  }

  /**
   * The two-part atomic write.  It goes through exactly when the call does
   * not throw, the user's row exists and the key has no record; otherwise
   * nothing is written and the cause says which.
   */
  function Commit(s: Store, req: Request, amount: int, newBalance: int, o: Oracle): (r: Result<Store, Cause>)
    ensures r.Ok? <==> o.commitFault.None? && req.userId in s.balances && req.idempotentKey !in s.history
    ensures r.Ok? ==> req.userId in s.balances && Committed(s, r.value, req, amount, newBalance, o)
    ensures r.Err? && o.commitFault.Some? ==> r.error == StoreFault(o.commitFault.value)
    ensures r.Err? && o.commitFault.None? ==>
      r.error == Cancelled(req.userId !in s.balances, req.idempotentKey in s.history, o.cancelMessage)
  {
    if o.commitFault.Some? then
      Err(StoreFault(o.commitFault.value))
    else if req.userId !in s.balances || req.idempotentKey in s.history then
      Err(Cancelled(req.userId !in s.balances, req.idempotentKey in s.history, o.cancelMessage))
    else
      var item := s.balances[req.userId];
      Ok(Store(
        s.balances[req.userId := item.(balance := Some(IntToString(newBalance)))],
        s.history[req.idempotentKey := RecordOf(req, amount, o)]))
  }

  /**
   * `transact`: one call against store `s`.  The store changes exactly when
   * the call commits, and then only by the two parts of the commit.
   */
  function Transact(s: Store, req: Request, o: Oracle): (st: Step)
    ensures req.amount.NaN? ==> st == Step(Failed(NotANumber), s)
    ensures req.amount.Int? && req.amount.value <= 0 ==> st == Step(Failed(NotPositive), s)
    ensures req.amount.Int? && req.amount.value > 0 && req.idempotentKey in s.history && !o.idempotencyReadFails ==>
      st == Step(AlreadyProcessed, s)
    ensures st.outcome.Processed? <==> st.store != s
    ensures st.outcome.Processed? ==>
      && req.amount.Int? && req.amount.value > 0
      && req.userId in s.balances
      && req.idempotentKey !in s.history
      && o.commitFault.None?
      && st.outcome.newBalance
         == NewBalance(GetUserBalance(s.balances, req.userId, o.balanceReadFails), req.amount.value, req.kind)
      && Committed(s, st.store, req, req.amount.value, st.outcome.newBalance, o)
    ensures st.outcome == AlreadyProcessed ==>
      && req.amount.Int? && req.amount.value > 0
      && req.idempotentKey in s.history
      && !o.idempotencyReadFails
    ensures
      && req.amount.Int? && req.amount.value > 0
      && !CheckIdempotency(s.history, req.idempotentKey, o.idempotencyReadFails)
      && !(req.kind == Debit && GetUserBalance(s.balances, req.userId, o.balanceReadFails) < req.amount.value)
      ==>
      if o.commitFault.None? && req.userId in s.balances && req.idempotentKey !in s.history then
        st.outcome
          == Processed(NewBalance(GetUserBalance(s.balances, req.userId, o.balanceReadFails), req.amount.value, req.kind))
      else if o.commitFault.Some? then
        st == Step(Failed(StoreFault(o.commitFault.value)), s)
      else
        st == Step(Failed(Cancelled(req.userId !in s.balances, req.idempotentKey in s.history, o.cancelMessage)), s)
    ensures st.outcome == Failed(InsufficientBalance) <==>
      && req.amount.Int? && req.amount.value > 0
      && !CheckIdempotency(s.history, req.idempotentKey, o.idempotencyReadFails)
      && req.kind == Debit
      && GetUserBalance(s.balances, req.userId, o.balanceReadFails) < req.amount.value
  {
    match req.amount
    case NaN => Step(Failed(NotANumber), s)
    case Int(amount) =>
      if amount <= 0 then Step(Failed(NotPositive), s)
      else if CheckIdempotency(s.history, req.idempotentKey, o.idempotencyReadFails) then Step(AlreadyProcessed, s)
      else
        var balance := GetUserBalance(s.balances, req.userId, o.balanceReadFails);
        if req.kind == Debit && balance < amount then Step(Failed(InsufficientBalance), s)
        else
          var newBalance := NewBalance(balance, amount, req.kind);
          match Commit(s, req, amount, newBalance, o)
          case Ok(s') => Step(Processed(newBalance), s')
          case Err(cause) => Step(Failed(cause), s)
  }
}
