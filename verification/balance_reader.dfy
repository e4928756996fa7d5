/**
 * The balance reader: the user's balance as an integer, falling back to a
 * default of 100 whenever there is nothing usable to read.  It never fails
 * its caller, and it takes the table as a value and returns none, so it
 * cannot write.
 */
module BalanceReader {
  import opened Wrappers
  import opened NumberText
  import opened Ledger

  /** The balance a user without a usable stored balance is given. */
  const DefaultBalance: int := 100

  /** The stored text of `Item.balance.N`, absent when the row or the attribute is. */
  function StoredBalance(balances: map<UserId, UserItem>, userId: UserId): Option<string> {
    if userId in balances then balances[userId].balance else None
  }

  /**
   * `getUserBalance`.  `readFails` stands for the store read throwing, which
   * the reader absorbs.  The result is the default, or else exactly the
   * integer `parseInt` reads from the stored text.
   */
  function GetUserBalance(balances: map<UserId, UserItem>, userId: UserId, readFails: bool): (b: int)
    ensures b != DefaultBalance ==>
      !readFails && StoredBalance(balances, userId).Some? && ParseInt(StoredBalance(balances, userId).value) == Int(b)
    ensures readFails || StoredBalance(balances, userId).None? ==> b == DefaultBalance
    ensures !readFails && StoredBalance(balances, userId).Some? ==>
      match ParseInt(StoredBalance(balances, userId).value)
      case NaN => b == DefaultBalance
      case Int(v) => b == v
  {
    if readFails then DefaultBalance
    else match StoredBalance(balances, userId)
      case None => DefaultBalance
      case Some(text) =>
        if text == "" then DefaultBalance
        else match ParseInt(text)
          case NaN => DefaultBalance
          case Int(v) => v
  }

  /** The reader sees only the user's own row: rows of other users do not affect it. */
  lemma ReaderDependsOnOwnRow(balances: map<UserId, UserItem>, balances': map<UserId, UserItem>, userId: UserId, readFails: bool)
    requires userId in balances <==> userId in balances'
    requires userId in balances ==> balances[userId].balance == balances'[userId].balance
    ensures GetUserBalance(balances, userId, readFails) == GetUserBalance(balances', userId, readFails)
  {
  }

  /** A balance written as `n.toString()` reads back as `n`, whatever the rest of the row holds. */
  lemma ReadAfterWrite(balances: map<UserId, UserItem>, userId: UserId, item: UserItem, n: int)
    requires item.balance == Some(IntToString(n))
    ensures GetUserBalance(balances[userId := item], userId, false) == n
  {
    ParseIntOfToString(n);
  }

  /**
   * A stored text made of white space, an optional sign, a digit run and
   * anything not continuing the run reads as the signed value of the run:
   * "50" as 50, "60.5" as 60, "-5" as -5 (negative values are not clamped).
   */
  lemma ReadsLeadingInteger(balances: map<UserId, UserItem>, userId: UserId, ws: string, sign: Sign, ds: string, rest: string)
    requires userId in balances && balances[userId].balance == Some(ws + sign.Text() + ds + rest)
    requires AllWhitespace(ws)
    requires |ds| > 0 && AllDigits(ds)
    requires |rest| == 0 || !IsDigit(rest[0])
    ensures GetUserBalance(balances, userId, false) == Signed(sign, ds)
  {
    ParseIntOfParts(ws, sign, ds, rest);
  }

  /**
   * A stored text with no integer after its white space (empty, "abc", a
   * lone sign) reads as the default.
   */
  lemma ReadsDefaultWithoutInteger(balances: map<UserId, UserItem>, userId: UserId, ws: string, rest: string)
    requires userId in balances && balances[userId].balance == Some(ws + rest)
    requires AllWhitespace(ws)
    requires |rest| == 0 || !IsWhitespace(rest[0])
    requires |rest| == 0 || !IsDigit(rest[0])
    requires (|rest| > 0 && (rest[0] == '+' || rest[0] == '-')) ==> (|rest| == 1 || !IsDigit(rest[1]))
    ensures GetUserBalance(balances, userId, false) == DefaultBalance
  {
    ParseIntNaN(ws, rest);
  }
}
