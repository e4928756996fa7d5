/**
 * The version-checked single-row balance update, which `transact` does not
 * use.  As written, the value bound for the condition is the one bound for
 * the new version, `version + 1`, so the update only goes through when the
 * stored version is already one ahead of the caller's, and then leaves the
 * stored version where it was.  The corrected update compares against the
 * version the caller read and advances it by one.
 */
module VersionedUpdate {
  import opened Wrappers
  import opened NumberText
  import opened Ledger
  import opened Transaction

  /** Why a single-row conditional update was not applied. */
  datatype UpdateError = ConditionFailed | Fault(thrown: Thrown)

  /**
   * `updateBalanceWithVersion` as written: set `balance` and `version` to
   * the text of `newBalance` and to `version + 1`, on condition that the
   * stored `version` equals `version + 1`.  A missing row has no version, so
   * the condition fails and no row is created.
   */
  function UpdateBalanceWithVersion(balances: map<UserId, UserItem>, userId: UserId, newBalance: int, version: int, fault: Option<Thrown>)
    : (r: Result<map<UserId, UserItem>, UpdateError>)
    ensures r.Ok? <==> fault.None? && userId in balances && balances[userId].version == Some(version + 1)
    ensures r.Err? && fault.Some? ==> r.error == Fault(fault.value)
    ensures r.Ok? ==>
      && r.value.Keys == balances.Keys
      && r.value[userId].balance == Some(IntToString(newBalance))
      && r.value[userId].version == balances[userId].version
      && (forall u :: u in balances && u != userId ==> r.value[u] == balances[u])
  {
    var placeholder := version + 1;
    if fault.Some? then Err(Fault(fault.value))
    else if userId !in balances || balances[userId].version != Some(placeholder) then Err(ConditionFailed)
    else Ok(balances[userId := UserItem(Some(IntToString(newBalance)), Some(placeholder))])
  }

  /** As written, a caller that passes the version it read is always refused. */
  lemma WithVersionRejectsVersionRead(balances: map<UserId, UserItem>, userId: UserId, newBalance: int)
    requires userId in balances && balances[userId].version.Some?
    ensures UpdateBalanceWithVersion(balances, userId, newBalance, balances[userId].version.value, None)
      == Err(ConditionFailed)
  {
  }

  /** As written, two updates from the same stale version both go through: the second overwrites the first. */
  lemma WithVersionLosesUpdates(balances: map<UserId, UserItem>, userId: UserId, a: int, b: int, version: int)
    requires userId in balances && balances[userId].version == Some(version + 1)
    ensures UpdateBalanceWithVersion(balances, userId, a, version, None).Ok?
    ensures var first := UpdateBalanceWithVersion(balances, userId, a, version, None).value;
      UpdateBalanceWithVersion(first, userId, b, version, None).Ok?
  {
  }

  /**
   * The version-checked update as intended: applied exactly when the stored
   * version is the one the caller read, and then the version advances.
   */
  function UpdateBalanceOptimistic(balances: map<UserId, UserItem>, userId: UserId, newBalance: int, readVersion: int, fault: Option<Thrown>)
    : (r: Result<map<UserId, UserItem>, UpdateError>)
    ensures r.Ok? <==> fault.None? && userId in balances && balances[userId].version == Some(readVersion)
    ensures r.Err? && fault.Some? ==> r.error == Fault(fault.value)
    ensures r.Ok? ==>
      && r.value.Keys == balances.Keys
      && r.value[userId].balance == Some(IntToString(newBalance))
      && r.value[userId].version == Some(readVersion + 1)
      && (forall u :: u in balances && u != userId ==> r.value[u] == balances[u])
  {
    if fault.Some? then Err(Fault(fault.value))
    else if userId !in balances || balances[userId].version != Some(readVersion) then Err(ConditionFailed)
    else Ok(balances[userId := UserItem(Some(IntToString(newBalance)), Some(readVersion + 1))])
  }

  /**
   * Corrected, two updates from the same read version cannot both go
   * through: the second is refused, so no update is lost.
   */
  lemma OptimisticDetectsLostUpdate(balances: map<UserId, UserItem>, userId: UserId, a: int, b: int, readVersion: int, f1: Option<Thrown>, f2: Option<Thrown>)
    requires UpdateBalanceOptimistic(balances, userId, a, readVersion, f1).Ok?
    ensures var first := UpdateBalanceOptimistic(balances, userId, a, readVersion, f1).value;
      UpdateBalanceOptimistic(first, userId, b, readVersion, f2).Err?
  {
  }

  /** Corrected, a caller that passes the version it read succeeds, and the next read of the version sees it advanced. */
  lemma OptimisticAcceptsVersionRead(balances: map<UserId, UserItem>, userId: UserId, newBalance: int)
    requires userId in balances && balances[userId].version.Some?
    ensures var v := balances[userId].version.value;
      var r := UpdateBalanceOptimistic(balances, userId, newBalance, v, None);
      r.Ok? && r.value[userId].version == Some(v + 1)
  {
  }
}
