/**
 * Properties of the transaction processor that relate several calls or a
 * call and a later read: replays, at most one commit per key, the
 * read-after-commit round trip, the non-negative-balance invariant, the
 * rejection messages, and the scenarios of the repository's tests.
 */
module TransactionProperties {
  import opened Wrappers
  import opened NumberText
  import opened Ledger
  import opened BalanceReader
  import opened Transaction

  /** Once a key has a record, no call with that key changes the store, whatever the store does on the way. */
  lemma RecordedKeyNeverReapplied(s: Store, req: Request, o: Oracle)
    requires req.idempotentKey in s.history
    ensures Transact(s, req, o).store == s
    ensures !Transact(s, req, o).outcome.Processed?
    ensures !o.idempotencyReadFails && req.amount.Int? && req.amount.value > 0 ==>
      Transact(s, req, o).outcome == AlreadyProcessed
    ensures o.idempotencyReadFails && req.amount.Int? && req.amount.value > 0 ==>
      Transact(s, req, o).outcome.Failed?
  {
  }

  /**
   * Two calls in a row with the same key: the second never commits, leaves
   * the store as the first left it, and, when its read succeeds, reports
   * the replay sentinel.
   */
  lemma SecondCallWithSameKey(s: Store, first: Request, o1: Oracle, second: Request, o2: Oracle)
    requires second.idempotentKey == first.idempotentKey
    requires Transact(s, first, o1).outcome.Processed?
    ensures var s1 := Transact(s, first, o1).store;
      && Transact(s1, second, o2).store == s1
      && !Transact(s1, second, o2).outcome.Processed?
      && (!o2.idempotencyReadFails && second.amount.Int? && second.amount.value > 0 ==>
            Transact(s1, second, o2).outcome == AlreadyProcessed)
  {
    var s1 := Transact(s, first, o1).store;
    assert first.idempotentKey in s1.history;
    RecordedKeyNeverReapplied(s1, second, o2);
  }

  /**
   * A failed idempotency read is absorbed: for a key with no record the
   * call goes exactly as if the read had succeeded, and for a recorded key
   * it can only turn the replay sentinel into a rejection, never a commit.
   */
  lemma IdempotencyReadFailureAbsorbed(s: Store, req: Request, o: Oracle)
    ensures req.idempotentKey !in s.history ==>
      Transact(s, req, o.(idempotencyReadFails := true)) == Transact(s, req, o.(idempotencyReadFails := false))
    ensures Transact(s, req, o.(idempotencyReadFails := true)).outcome.Processed? ==>
      Transact(s, req, o.(idempotencyReadFails := false)).outcome.Processed?
  {
  }

  /**
   * A failed balance read is absorbed as the default balance, so the call
   * proceeds on 100 whatever the row holds: a credit of 50 commits 150,
   * even over a stored 5.
   */
  lemma BalanceReadFailureUsesDefault(s: Store, req: Request, o: Oracle)
    requires o.balanceReadFails && !o.idempotencyReadFails && o.commitFault.None?
    requires req.userId in s.balances && req.idempotentKey !in s.history
    requires req.amount == Int(50) && req.kind == Credit
    ensures Transact(s, req, o).outcome == Processed(150)
  {
  }

  /** A call for a user with no balance row never commits: the default balance is read but no record is created. */
  lemma MissingUserNeverRecorded(s: Store, req: Request, o: Oracle)
    requires req.userId !in s.balances
    ensures Transact(s, req, o).store == s
    ensures !Transact(s, req, o).outcome.Processed?
    ensures !o.balanceReadFails ==> GetUserBalance(s.balances, req.userId, o.balanceReadFails) == DefaultBalance
  {
  }

  /**
   * A committed balance is what a later successful read returns, and it is
   * the balance the call read plus the amount for a credit, minus it for a
   * debit.
   */
  lemma ReadAfterCommit(s: Store, req: Request, o: Oracle)
    requires Transact(s, req, o).outcome.Processed?
    ensures var b := GetUserBalance(s.balances, req.userId, o.balanceReadFails);
      var n := Transact(s, req, o).outcome.newBalance;
      && GetUserBalance(Transact(s, req, o).store.balances, req.userId, false) == n
      && (req.kind == Credit ==> n == b + req.amount.value)
      && (req.kind == Debit ==> n == b - req.amount.value && n >= 0)
  {
    var st := Transact(s, req, o);
    var item := st.store.balances[req.userId];
    assert st.store.balances == st.store.balances[req.userId := item];
    ReadAfterWrite(st.store.balances, req.userId, item, st.outcome.newBalance);
  }

  /** Every balance row reads, without a read failure, as a non-negative amount. */
  predicate BalancesNonNegative(s: Store) {
    forall u :: u in s.balances ==> GetUserBalance(s.balances, u, false) >= 0
  }

  /**
   * No call takes a balance below zero: if every row reads as non-negative
   * before, every row does after, even when the balance read fails and the
   * default is used instead of the stored value.
   */
  lemma TransactKeepsBalancesNonNegative(s: Store, req: Request, o: Oracle)
    requires BalancesNonNegative(s)
    ensures BalancesNonNegative(Transact(s, req, o).store)
  {
    var st := Transact(s, req, o);
    if st.outcome.Processed? {
      var b := GetUserBalance(s.balances, req.userId, o.balanceReadFails);
      assert b >= 0 by {
        if !o.balanceReadFails {
          assert req.userId in s.balances;
        }
      }
      ReadAfterCommit(s, req, o);
      forall u | u in st.store.balances
        ensures GetUserBalance(st.store.balances, u, false) >= 0
      {
        if u != req.userId {
          ReaderDependsOnOwnRow(s.balances, st.store.balances, u, false);
        }
      }
    }
  }

  /** A run of calls, each against the store the previous one left. */
  datatype Trace = Trace(outcomes: seq<Outcome>, store: Store)

  function Run(s: Store, calls: seq<(Request, Oracle)>): (t: Trace)
    ensures |t.outcomes| == |calls|
    decreases |calls|
  {
    if |calls| == 0 then Trace([], s)
    else
      var st := Transact(s, calls[0].0, calls[0].1);
      var rest := Run(st.store, calls[1..]);
      Trace([st.outcome] + rest.outcomes, rest.store)
  }

  /** The number of calls in a run that committed under `key`. */
  function CommitsFor(calls: seq<(Request, Oracle)>, outcomes: seq<Outcome>, key: IdempotentKey): nat
    requires |outcomes| == |calls|
    decreases |calls|
  {
    if |calls| == 0 then 0
    else
      (if outcomes[0].Processed? && calls[0].0.idempotentKey == key then 1 else 0)
      + CommitsFor(calls[1..], outcomes[1..], key)
  }

  /**
   * At most one record per key, over any run of calls and any store
   * behaviour: a key ends up recorded exactly when it was recorded before
   * or exactly one call of the run committed under it, and a key recorded
   * before is never committed again nor has its record changed.
   */
  lemma {:induction false} OneCommitPerKey(s: Store, calls: seq<(Request, Oracle)>, key: IdempotentKey)
    ensures var t := Run(s, calls);
      CommitsFor(calls, t.outcomes, key) + (if key in s.history then 1 else 0)
        == (if key in t.store.history then 1 else 0)
    ensures key in s.history ==>
      key in Run(s, calls).store.history && Run(s, calls).store.history[key] == s.history[key]
    decreases |calls|
  {
    if |calls| > 0 {
      var st := Transact(s, calls[0].0, calls[0].1);
      var rest := Run(st.store, calls[1..]);
      var t := Run(s, calls);
      assert t.outcomes[1..] == rest.outcomes;
      OneCommitPerKey(st.store, calls[1..], key);
      if st.outcome.Processed? {
        assert st.store.history.Keys == s.history.Keys + {calls[0].0.idempotentKey};
      } else {
        assert st.store == s;
      }
    }
  }

  /** Any run commits at most once under a given key, and never under a key already recorded. */
  lemma AtMostOneCommitPerKey(s: Store, calls: seq<(Request, Oracle)>, key: IdempotentKey)
    ensures CommitsFor(calls, Run(s, calls).outcomes, key) <= 1
    ensures key in s.history ==> CommitsFor(calls, Run(s, calls).outcomes, key) == 0
  {
    OneCommitPerKey(s, calls, key);
  }

  /**
   * A commit whose call throws rejects with the thrown error's message
   * after "Transaction failed: ", or with "Unknown error" when what was
   * thrown is not an `Error`; the store is untouched.
   */
  lemma CommitFaultText(s: Store, req: Request, o: Oracle, thrown: Thrown)
    requires req.amount.Int? && req.amount.value > 0
    requires !CheckIdempotency(s.history, req.idempotentKey, o.idempotencyReadFails)
    requires !(req.kind == Debit && GetUserBalance(s.balances, req.userId, o.balanceReadFails) < req.amount.value)
    requires o.commitFault == Some(thrown)
    ensures Transact(s, req, o).store == s
    ensures Text(Transact(s, req, o).outcome)
      == FailurePrefix + (if thrown.ErrorValue? then thrown.message else "Unknown error")
  {
  }

  /** A NaN amount is rejected with "Transaction failed: Amount must be a valid number." and the store untouched. */
  lemma NaNAmountRejected(s: Store, key: IdempotentKey, userId: UserId, kind: TxType, o: Oracle)
    ensures Transact(s, Request(key, userId, NaN, kind), o).store == s
    ensures Text(Transact(s, Request(key, userId, NaN, kind), o).outcome)
      == FailurePrefix + "Amount must be a valid number."
  {
  }

  /** A zero or negative amount is rejected with "Transaction failed: Amount must be greater than zero." */
  lemma NonPositiveAmountRejected(s: Store, req: Request, o: Oracle)
    requires req.amount.Int? && req.amount.value <= 0
    ensures Transact(s, req, o).store == s
    ensures Text(Transact(s, req, o).outcome) == FailurePrefix + "Amount must be greater than zero."
  {
  }

  /** An overdrawing debit is rejected with "Transaction failed: Insufficient balance." and writes nothing. */
  lemma OverdraftRejected(s: Store, req: Request, o: Oracle)
    requires req.amount.Int? && req.amount.value > 0 && req.kind == Debit
    requires !CheckIdempotency(s.history, req.idempotentKey, o.idempotencyReadFails)
    requires GetUserBalance(s.balances, req.userId, o.balanceReadFails) < req.amount.value
    ensures Transact(s, req, o).store == s
    ensures Text(Transact(s, req, o).outcome) == FailurePrefix + "Insufficient balance."
  {
  }

  /**
   * The repository's credit test: a stored balance of "50", a credit of 10
   * under a fresh key, and a store that does not fail, give "Transaction
   * processed successfully. New balance: 60" and a stored "60".
   */
  lemma CreditScenario(s: Store, o: Oracle)
    requires "1" in s.balances && s.balances["1"].balance == Some("50")
    requires "1" !in s.history
    requires !o.idempotencyReadFails && !o.balanceReadFails && o.commitFault.None?
    ensures Transact(s, Request("1", "1", Int(10), Credit), o).outcome == Processed(60)
    ensures Text(Transact(s, Request("1", "1", Int(10), Credit), o).outcome) == SuccessPrefix + "60"
    ensures Transact(s, Request("1", "1", Int(10), Credit), o).store.balances["1"].balance == Some("60")
  {
    var req := Request("1", "1", Int(10), Credit);
    assert GetUserBalance(s.balances, "1", false) == 50 by {
      ReaderScenarios(s.balances);
    }
    assert !CheckIdempotency(s.history, "1", false);
    var st := Transact(s, req, o);
    assert st.outcome == Processed(60);
    assert Text(st.outcome) == SuccessPrefix + "60" by {
      SixtyWritten();
    }
  }

  /**
   * The repository's reader tests: a stored "50" reads as 50, and a user
   * with no row reads as the default 100.
   */
  lemma ReaderScenarios(balances: map<UserId, UserItem>)
    ensures "1" in balances && balances["1"].balance == Some("50") ==> GetUserBalance(balances, "1", false) == 50
    ensures "1" !in balances ==> GetUserBalance(balances, "1", false) == 100
  {
    if "1" in balances && balances["1"].balance == Some("50") {
      FiftyParses();
      assert StoredBalance(balances, "1") == Some("50");
    }
  }

  /** The stored text of the credit test: "50" parses as 50. */
  lemma FiftyParses()
    ensures ParseInt("50") == Int(50)
  {
    assert IntToString(50) == "50" by {
      assert DigitChar(5) == '5' && DigitChar(0) == '0';
      assert NatToString(5) == ['5'];
      assert NatToString(50) == NatToString(5) + [DigitChar(0)];
    }
    ParseIntOfToString(50);
  }

  /** The balance of the credit test: 60 is written "60". */
  lemma SixtyWritten()
    ensures IntToString(60) == "60"
  {
  }

  /**
   * The repository's replay test: a key already recorded gives "Transaction
   * already processed" whatever the request's user, amount or type.
   */
  lemma ReplayScenario(s: Store, userId: UserId, amount: int, kind: TxType, o: Oracle)
    requires "1" in s.history
    requires amount > 0 && !o.idempotencyReadFails
    ensures Text(Transact(s, Request("1", userId, Int(amount), kind), o).outcome) == AlreadyProcessedText
    ensures Transact(s, Request("1", userId, Int(amount), kind), o).store == s
  {
  }
}
