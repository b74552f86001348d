/** The account ledger: creating an account (a user's first account is
    always the default one), ownership-checked switching of the default
    account and signed balance updates. Each operation is a function of the
    store snapshot, and a method on the store that is proved to follow it. */
module AccountService {
  import opened Wrappers
  import opened Models
  import opened Repository

  /** No user has two default accounts. */
  ghost predicate OneDefault(accounts: seq<Account>) {
    forall i, j :: 0 <= i < j < |accounts| && accounts[i].isDefault && accounts[j].isDefault
      ==> accounts[i].userId != accounts[j].userId
  }

  /** The user has a default account. */
  ghost predicate HasDefault(accounts: seq<Account>, userId: int) {
    exists j :: 0 <= j < |accounts| && accounts[j].userId == userId && accounts[j].isDefault
  }

  /** Every user who owns an account has a default one. */
  ghost predicate OwnersHaveDefault(accounts: seq<Account>) {
    forall i :: 0 <= i < |accounts| ==> HasDefault(accounts, accounts[i].userId)
  }

  // ---------------------------------------------------------------------
  // CreateAccount

  /** The account as stored: a user's first account is the default one
      whatever the request said; a new default account first clears the
      user's other defaults (by switching the default to id 0, which no
      account has). */
  function CreateAccountSpec(db: Db, a: Account, now: int): (r: (Result<Account, Error>, Db))
    requires AccountsValid(db.accounts, db.nextAccountId, db.currencies)
    ensures r.0 == Err(CurrencyNotFound) <==> GetCurrencyByID(db.currencies, a.currencyId).None?
    ensures r.0.Err? ==> r.0 == Err(CurrencyNotFound) && r.1 == db
    ensures r.0.Ok? ==>
      && r.1 == db.(accounts := r.1.accounts, nextAccountId := db.nextAccountId + 1)
      && AccountCreated(db.accounts, db.nextAccountId, db.currencies, a, now, r.0.value, r.1.accounts)
  {
    if GetCurrencyByID(db.currencies, a.currencyId).None? then (Err(CurrencyNotFound), db)
    else
      var (row, accounts) := Inserted(db.accounts, db.nextAccountId, a, now);
      InsertedCreates(db.accounts, db.nextAccountId, db.currencies, a, now);
      (Ok(row), db.(accounts := accounts, nextAccountId := db.nextAccountId + 1))
  }

  /** An account request that passes its binding, once built into an
      account by the handler, is created exactly when its currency exists;
      the row belongs to the requesting user, carries the request's
      currency and initial balance, and is a default when one was asked for. */
  lemma AccountRequestCreates(db: Db, r: AccountRequest, userId: int, now: int)
    requires AccountsValid(db.accounts, db.nextAccountId, db.currencies) && AccountRequestValid(r)
    ensures var c := CreateAccountSpec(db, AccountFromRequest(r, userId), now);
      && (c.0.Ok? <==> GetCurrencyByID(db.currencies, r.currencyId).Some?)
      && (c.0.Ok? ==>
            && c.0.value.id == db.nextAccountId && c.0.value.userId == userId
            && c.0.value.currencyId == r.currencyId && c.0.value.balance == r.initialBalance
            && (r.isDefault == Some(true) ==> c.0.value.isDefault))
  {
    var a := AccountFromRequest(r, userId);
    var c := CreateAccountSpec(db, a, now);
    if c.0.Ok? {
      assert AccountCreated(db.accounts, db.nextAccountId, db.currencies, a, now, c.0.value, c.1.accounts);
    }
  }

  /** What a successful creation stores: the row with the next id, both
      timestamps `now` and the default flag forced for a first account,
      appended to the table, which stays valid with the next id advanced;
      a new default leaves the user's earlier rows as they were but for the
      default flag, now cleared, and touches no other user's row; a
      non-default row leaves the earlier rows as they were. */
  ghost predicate AccountCreated(accounts: seq<Account>, next: int, currencies: seq<Currency>, a: Account, now: int,
                                 row: Account, after: seq<Account>) {
    && row == a.(id := next, createdAt := now, updatedAt := now,
                 isDefault := a.isDefault || |GetAccountsByUserID(accounts, a.userId)| == 0)
    && |after| == |accounts| + 1 && after[|accounts|] == row
    && AccountsValid(after, next + 1, currencies)
    && (row.isDefault ==>
          forall i :: 0 <= i < |accounts| ==>
            (after[i].userId == a.userId ==> !after[i].isDefault)
            && (accounts[i].userId == a.userId ==> after[i] == accounts[i].(isDefault := false))
            && (accounts[i].userId != a.userId ==> after[i] == accounts[i]))
    && (!a.isDefault ==> after[..|accounts|] == accounts)
  }

  /** The stored row and the table after the insert. */
  function Inserted(accounts: seq<Account>, next: int, a: Account, now: int): (Account, seq<Account>)
    requires forall i :: 0 <= i < |accounts| ==> accounts[i].id >= 1
  {
    var first := |GetAccountsByUserID(accounts, a.userId)| == 0;
    var row := a.(id := next, createdAt := now, updatedAt := now, isDefault := a.isDefault || first);
    (row, ClearedFor(accounts, a.userId, !first && a.isDefault, now) + [row])
  }

  lemma InsertedCreates(accounts: seq<Account>, next: int, currencies: seq<Currency>, a: Account, now: int)
    requires AccountsValid(accounts, next, currencies)
    requires GetCurrencyByID(currencies, a.currencyId).Some?
    ensures AccountCreated(accounts, next, currencies, a, now, Inserted(accounts, next, a, now).0,
                           Inserted(accounts, next, a, now).1)
  {
    var first := |GetAccountsByUserID(accounts, a.userId)| == 0;
    var before := ClearedFor(accounts, a.userId, !first && a.isDefault, now);
    var row := Inserted(accounts, next, a, now).0;
    assert HasCurrency(currencies, a.currencyId) by {
      var c := GetCurrencyByID(currencies, a.currencyId).value;
      var k :| 0 <= k < |currencies| && currencies[k] == c;
    }
    AppendValid(accounts, before, row, next, currencies);
    DefaultRowClears(accounts, a.userId, first, a.isDefault, now, row);
  }

  /** A new default row leaves its user no other default and every other
      user's rows as they were; a non-default one changes no earlier row. */
  lemma DefaultRowClears(accounts: seq<Account>, userId: int, first: bool, isDefault: bool, now: int, row: Account)
    requires forall i :: 0 <= i < |accounts| ==> accounts[i].id >= 1
    requires first <==> |GetAccountsByUserID(accounts, userId)| == 0
    requires row.isDefault == (isDefault || first)
    ensures var after := ClearedFor(accounts, userId, !first && isDefault, now) + [row];
      && (row.isDefault ==>
            forall i :: 0 <= i < |accounts| ==>
              (after[i].userId == userId ==> !after[i].isDefault)
              && (accounts[i].userId == userId ==> after[i] == accounts[i].(isDefault := false))
              && (accounts[i].userId != userId ==> after[i] == accounts[i]))
      && (!isDefault ==> after[..|accounts|] == accounts)
  {
    var before := ClearedFor(accounts, userId, !first && isDefault, now);
    var after := before + [row];
    assert after[..|accounts|] == before;
    assert forall i :: 0 <= i < |accounts| ==> after[i] == before[i];
    if first {
      assert forall i :: 0 <= i < |accounts| ==> accounts[i].userId != userId;
    }
  }

  /** The table before the insert: when `clear`, the user's defaults are
      switched to id 0, which no account has, so the user has none left. */
  function ClearedFor(accounts: seq<Account>, userId: int, clear: bool, now: int): (r: seq<Account>)
    requires forall i :: 0 <= i < |accounts| ==> accounts[i].id >= 1
    ensures |r| == |accounts|
    ensures forall i :: 0 <= i < |r| ==>
      r[i].id == accounts[i].id && r[i].userId == accounts[i].userId && r[i].currencyId == accounts[i].currencyId
    ensures clear ==> forall i :: 0 <= i < |r| ==>
      (r[i].userId == userId ==> !r[i].isDefault) && (accounts[i].userId != userId ==> r[i] == accounts[i])
    ensures clear ==> forall i :: 0 <= i < |r| ==>
      r[i] == if accounts[i].userId == userId then accounts[i].(isDefault := false) else accounts[i]
    ensures !clear ==> r == accounts
  {
    if clear then SetDefaultAccounts(accounts, userId, 0, now) else accounts
  }

  /** Appending a row with the next id and a known currency to a table with
      the same keys and currencies as a valid one gives a valid table. */
  lemma AppendValid(accounts: seq<Account>, before: seq<Account>, row: Account, next: int, currencies: seq<Currency>)
    requires AccountsValid(accounts, next, currencies)
    requires |before| == |accounts|
    requires forall i :: 0 <= i < |before| ==> before[i].id == accounts[i].id && before[i].currencyId == accounts[i].currencyId
    requires row.id == next && HasCurrency(currencies, row.currencyId)
    ensures AccountsValid(before + [row], next + 1, currencies)
    ensures |before + [row]| == |before| + 1 && (before + [row])[|before|] == row
    ensures (before + [row])[..|before|] == before
    ensures forall i :: 0 <= i < |before| ==> (before + [row])[i] == before[i]
  {
    var after := before + [row];
    assert after[..|before|] == before;
    forall i | 0 <= i < |after| ensures 1 <= after[i].id < next + 1 && HasCurrency(currencies, after[i].currencyId) {
      if i < |before| {
        assert after[i] == before[i];
      }
    }
    forall i, j | 0 <= i < j < |after| ensures after[i].id != after[j].id {
      assert after[i] == before[i];
      if j < |before| {
        assert after[j] == before[j];
      }
    }
  }

  /** Creating an account keeps every user at no more than one default
      account. */
  lemma CreateAccountOneDefault(db: Db, a: Account, now: int)
    requires AccountsValid(db.accounts, db.nextAccountId, db.currencies) && OneDefault(db.accounts)
    ensures OneDefault(CreateAccountSpec(db, a, now).1.accounts)
  {
    if GetCurrencyByID(db.currencies, a.currencyId).Some? {
      CreateAccountStored(db, a, now);
      InsertedOneDefault(db.accounts, db.nextAccountId, a, now);
    }
  }

  lemma InsertedOneDefault(accounts: seq<Account>, next: int, a: Account, now: int)
    requires forall i :: 0 <= i < |accounts| ==> accounts[i].id >= 1
    requires OneDefault(accounts)
    ensures OneDefault(Inserted(accounts, next, a, now).1)
  {
    var first := |GetAccountsByUserID(accounts, a.userId)| == 0;
    var before := ClearedFor(accounts, a.userId, !first && a.isDefault, now);
    var row := Inserted(accounts, next, a, now).0;
    ClearedOneDefault(accounts, a.userId, !first && a.isDefault, now);
    if first {
      assert forall i :: 0 <= i < |before| ==> before[i].userId != row.userId by {
        assert before == accounts;
      }
    }
    AppendOneDefault(before, row);
  }

  lemma ClearedOneDefault(accounts: seq<Account>, userId: int, clear: bool, now: int)
    requires forall i :: 0 <= i < |accounts| ==> accounts[i].id >= 1
    requires OneDefault(accounts)
    ensures OneDefault(ClearedFor(accounts, userId, clear, now))
  {
    var r := ClearedFor(accounts, userId, clear, now);
    if clear {
      forall i, j | 0 <= i < j < |r| && r[i].isDefault && r[j].isDefault ensures r[i].userId != r[j].userId {
        assert r[i] == accounts[i] && r[j] == accounts[j];
      }
    }
  }

  /** A row that is not a second default of its user keeps one default per user. */
  lemma AppendOneDefault(before: seq<Account>, row: Account)
    requires OneDefault(before)
    requires row.isDefault ==> forall i :: 0 <= i < |before| && before[i].userId == row.userId ==> !before[i].isDefault
    ensures OneDefault(before + [row])
  {
    var after := before + [row];
    forall i, j | 0 <= i < j < |after| && after[i].isDefault && after[j].isDefault
      ensures after[i].userId != after[j].userId
    {
      assert after[i] == before[i];
      if j < |before| {
        assert after[j] == before[j];
      }
    }
  }

  method CreateAccount(db: Store, a: Account, now: int) returns (r: Result<Account, Error>)
    requires db.Valid()
    modifies db
    ensures db.Valid()
    ensures (r, db.State()) == CreateAccountSpec(old(db.State()), a, now)
  {
    var currency := GetCurrencyByID(db.currencies, a.currencyId);
    if currency.None? {
      return Err(CurrencyNotFound);
    }
    ghost var db0 := db.State();
    var existing := GetAccountsByUserID(db.accounts, a.userId);
    var first := |existing| == 0;
    ClearDefaultsFor(db, a.userId, !first && a.isDefault, now);
    ghost var db1 := db.State();
    r := db.CreateAccount(a.(isDefault := a.isDefault || first), now);
    CreateAccountSteps(db0, a, now, db1, r, db.State());
  }

  /** The two store steps, clearing the defaults and inserting the row,
      compose to the specification. */
  lemma CreateAccountSteps(db0: Db, a: Account, now: int, db1: Db, r: Result<Account, Error>, db2: Db)
    requires AccountsValid(db0.accounts, db0.nextAccountId, db0.currencies)
    requires GetCurrencyByID(db0.currencies, a.currencyId).Some?
    requires var first := |GetAccountsByUserID(db0.accounts, a.userId)| == 0;
      && db1 == db0.(accounts := ClearedFor(db0.accounts, a.userId, !first && a.isDefault, now))
      && r == Ok(a.(isDefault := a.isDefault || first).(id := db1.nextAccountId, createdAt := now, updatedAt := now))
      && db2 == db1.(accounts := db1.accounts + [r.value], nextAccountId := db1.nextAccountId + 1)
    ensures (r, db2) == CreateAccountSpec(db0, a, now)
  {
    var ins := Inserted(db0.accounts, db0.nextAccountId, a, now);
    assert r == Ok(ins.0);
    assert db2 == db0.(accounts := ins.1, nextAccountId := db0.nextAccountId + 1);
    CreateAccountStored(db0, a, now);
  }

  /** The store step before the insert: switch the user's default to id 0
      when `clear`. */
  method ClearDefaultsFor(db: Store, userId: int, clear: bool, now: int)
    requires db.Valid()
    modifies db
    ensures db.Valid()
    ensures db.State() == old(db.State()).(accounts := ClearedFor(old(db.accounts), userId, clear, now))
  {
    if clear {
      db.SetDefaultAccount(userId, 0, now);
    }
  }

  /** The result of a creation whose currency exists, spelled out. */
  lemma CreateAccountStored(db: Db, a: Account, now: int)
    requires AccountsValid(db.accounts, db.nextAccountId, db.currencies)
    requires GetCurrencyByID(db.currencies, a.currencyId).Some?
    ensures var ins := Inserted(db.accounts, db.nextAccountId, a, now);
      CreateAccountSpec(db, a, now) == (Ok(ins.0), db.(accounts := ins.1, nextAccountId := db.nextAccountId + 1))
  {
  }

  // ---------------------------------------------------------------------
  // SetDefaultAccount

  /** Only the owner can make an account the default; afterwards it is the
      owner's only default account. */
  function SetDefaultSpec(db: Db, userId: int, accountId: int, now: int): (r: (Outcome<Error>, Db))
    requires AccountsValid(db.accounts, db.nextAccountId, db.currencies)
    ensures AccountsValid(r.1.accounts, r.1.nextAccountId, r.1.currencies)
    ensures r.0 == Fail(AccountNotFound) <==> GetAccountByID(db.accounts, accountId).None?
    ensures r.0 == Fail(AccountNotOwned) <==>
      GetAccountByID(db.accounts, accountId).Some? && GetAccountByID(db.accounts, accountId).value.userId != userId
    ensures r.0.Fail? ==> r.1 == db
    ensures r.0.Pass? ==> r.1 == db.(accounts := r.1.accounts) && DefaultSwitched(db.accounts, userId, accountId, now, r.1.accounts)
  {
    match GetAccountByID(db.accounts, accountId)
    case None => (Fail(AccountNotFound), db)
    case Some(acc) =>
      if acc.userId != userId then (Fail(AccountNotOwned), db)
      else
        SwitchedHolds(db.accounts, db.nextAccountId, db.currencies, userId, accountId, now);
        (Pass, db.(accounts := SetDefaultAccounts(db.accounts, userId, accountId, now)))
  }

  /** The table after a switch: as long as before; among the user's rows
      exactly the chosen one is the default, and it alone has its update
      time set, every other field of the user's rows being kept; no other
      user's row changes; the chosen account is there, the user's, and a
      default. */
  ghost predicate DefaultSwitched(accounts: seq<Account>, userId: int, accountId: int, now: int, after: seq<Account>) {
    && |after| == |accounts|
    && (forall i :: 0 <= i < |accounts| && accounts[i].userId == userId ==>
          (after[i].isDefault <==> accounts[i].id == accountId))
    && (forall i :: 0 <= i < |accounts| && accounts[i].userId == userId ==>
          after[i] == if accounts[i].id == accountId then accounts[i].(isDefault := true, updatedAt := now)
                      else accounts[i].(isDefault := false))
    && (forall i :: 0 <= i < |accounts| && accounts[i].userId != userId ==> after[i] == accounts[i])
    && (exists i :: 0 <= i < |after| && after[i].id == accountId && after[i].userId == userId && after[i].isDefault)
  }

  lemma SwitchedHolds(accounts: seq<Account>, next: int, currencies: seq<Currency>, userId: int, accountId: int, now: int)
    requires AccountsValid(accounts, next, currencies)
    requires GetAccountByID(accounts, accountId).Some? && GetAccountByID(accounts, accountId).value.userId == userId
    ensures DefaultSwitched(accounts, userId, accountId, now, SetDefaultAccounts(accounts, userId, accountId, now))
    ensures AccountsValid(SetDefaultAccounts(accounts, userId, accountId, now), next, currencies)
  {
    var after := SetDefaultAccounts(accounts, userId, accountId, now);
    var k :| 0 <= k < |accounts| && accounts[k] == GetAccountByID(accounts, accountId).value;
    assert after[k].id == accountId && after[k].userId == userId && after[k].isDefault;
    assert forall i :: 0 <= i < |after| ==> after[i].id == accounts[i].id && after[i].currencyId == accounts[i].currencyId;
  }

  /** Switching the default keeps every user at no more than one default
      account. */
  lemma SetDefaultOneDefault(db: Db, userId: int, accountId: int, now: int)
    requires AccountsValid(db.accounts, db.nextAccountId, db.currencies) && OneDefault(db.accounts)
    ensures OneDefault(SetDefaultSpec(db, userId, accountId, now).1.accounts)
  {
    var r := SetDefaultSpec(db, userId, accountId, now);
    if r.0.Pass? {
      var after := r.1.accounts;
      assert after == SetDefaultAccounts(db.accounts, userId, accountId, now);
      forall i, j | 0 <= i < j < |after| && after[i].isDefault && after[j].isDefault
        ensures after[i].userId != after[j].userId
      {
        if after[i].userId == userId && after[j].userId == userId {
          assert false;
        } else if after[i].userId != userId && after[j].userId != userId {
          assert after[i] == db.accounts[i] && after[j] == db.accounts[j];
        }
      }
    }
  }

  method SetDefaultAccount(db: Store, userId: int, accountId: int, now: int) returns (r: Outcome<Error>)
    requires db.Valid()
    modifies db
    ensures db.Valid()
    ensures (r, db.State()) == SetDefaultSpec(old(db.State()), userId, accountId, now)
  {
    var account := GetAccountByID(db.accounts, accountId);
    if account.None? {
      return Fail(AccountNotFound);
    }
    if account.value.userId != userId {
      return Fail(AccountNotOwned);
    }
    db.SetDefaultAccount(userId, accountId, now);
    r := Pass;
  }

  // ---------------------------------------------------------------------
  // UpdateAccountBalance

  /** The new balance: income adds the amount, anything else subtracts it;
      there is no lower bound. */
  function Adjusted(balance: real, amount: real, isIncome: bool): (b: real)
    ensures isIncome ==> b - balance == amount
    ensures !isIncome ==> balance - b == amount
  {
    if isIncome then balance + amount else balance - amount
  }

  function UpdateBalanceSpec(db: Db, accountId: int, amount: real, isIncome: bool, now: int): (r: (Outcome<Error>, Db))
    requires AccountsValid(db.accounts, db.nextAccountId, db.currencies)
    ensures r.0.Fail? <==> GetAccountByID(db.accounts, accountId).None?
    ensures r.0.Fail? ==> r.0 == Fail(AccountNotFound) && r.1 == db
    ensures r.0.Pass? ==>
      && r.1 == db.(accounts := r.1.accounts)
      && |r.1.accounts| == |db.accounts|
      && forall i :: 0 <= i < |db.accounts| ==>
           r.1.accounts[i] == if db.accounts[i].id == accountId
                              then db.accounts[i].(balance := Adjusted(db.accounts[i].balance, amount, isIncome), updatedAt := now)
                              else db.accounts[i]
  {
    match GetAccountByID(db.accounts, accountId)
    case None => (Fail(AccountNotFound), db)
    case Some(acc) =>
      var k :| 0 <= k < |db.accounts| && db.accounts[k] == acc;
      assert forall i :: 0 <= i < |db.accounts| && db.accounts[i].id == accountId ==> i == k;
      (Pass, db.(accounts := SetBalance(db.accounts, accountId, Adjusted(acc.balance, amount, isIncome), now)))
  }

  /** A balance update keeps the default flags, so it keeps every user at
      no more than one default account. */
  lemma UpdateBalanceOneDefault(db: Db, accountId: int, amount: real, isIncome: bool, now: int)
    requires AccountsValid(db.accounts, db.nextAccountId, db.currencies) && OneDefault(db.accounts)
    ensures OneDefault(UpdateBalanceSpec(db, accountId, amount, isIncome, now).1.accounts)
  {
    var after := UpdateBalanceSpec(db, accountId, amount, isIncome, now).1.accounts;
    forall i, j | 0 <= i < j < |after| && after[i].isDefault && after[j].isDefault
      ensures after[i].userId != after[j].userId
    {
      assert after[i].isDefault == db.accounts[i].isDefault && after[i].userId == db.accounts[i].userId;
      assert after[j].isDefault == db.accounts[j].isDefault && after[j].userId == db.accounts[j].userId;
    }
  }

  method UpdateAccountBalance(db: Store, accountId: int, amount: real, isIncome: bool, now: int) returns (r: Outcome<Error>)
    requires db.Valid()
    modifies db
    ensures db.Valid()
    ensures (r, db.State()) == UpdateBalanceSpec(old(db.State()), accountId, amount, isIncome, now)
  {
    var account := GetAccountByID(db.accounts, accountId);
    if account.None? {
      return Fail(AccountNotFound);
    }
    ghost var db0 := db.State();
    var newBalance := Adjusted(account.value.balance, amount, isIncome);
    UpdateBalanceStored(db0, accountId, amount, isIncome, now);
    db.UpdateAccountBalance(accountId, newBalance, now);
    r := Pass;
  }

  lemma UpdateBalanceStored(db: Db, accountId: int, amount: real, isIncome: bool, now: int)
    requires AccountsValid(db.accounts, db.nextAccountId, db.currencies) && GetAccountByID(db.accounts, accountId).Some?
    ensures var balance := Adjusted(GetAccountByID(db.accounts, accountId).value.balance, amount, isIncome);
      UpdateBalanceSpec(db, accountId, amount, isIncome, now) == (Pass, db.(accounts := SetBalance(db.accounts, accountId, balance, now)))
  {
  }

  // ---------------------------------------------------------------------
  // Any sequence of ledger operations

  datatype LedgerOp =
    | Create(account: Account)
    | SwitchDefault(userId: int, accountId: int)
    | Adjust(accountId: int, amount: real, isIncome: bool)

  /** The store after one operation at time `now`. */
  function Step(db: Db, op: LedgerOp, now: int): (r: Db)
    requires AccountsValid(db.accounts, db.nextAccountId, db.currencies)
    ensures AccountsValid(r.accounts, r.nextAccountId, r.currencies)
  {
    match op
    case Create(a) => CreateAccountSpec(db, a, now).1
    case SwitchDefault(u, id) => SetDefaultSpec(db, u, id, now).1
    case Adjust(id, amount, isIncome) => UpdateBalanceSpec(db, id, amount, isIncome, now).1
  }

  /** Each operation keeps every user at no more than one default account. */
  lemma StepOneDefault(db: Db, op: LedgerOp, now: int)
    requires AccountsValid(db.accounts, db.nextAccountId, db.currencies) && OneDefault(db.accounts)
    ensures OneDefault(Step(db, op, now).accounts)
  {
    match op
    case Create(a) => CreateAccountOneDefault(db, a, now);
    case SwitchDefault(u, id) => SetDefaultOneDefault(db, u, id, now);
    case Adjust(id, amount, isIncome) => UpdateBalanceOneDefault(db, id, amount, isIncome, now);
  }

  /** The store after the operations, in order, each at time `now`. */
  function Run(db: Db, ops: seq<LedgerOp>, now: int): (r: Db)
    requires AccountsValid(db.accounts, db.nextAccountId, db.currencies)
    ensures AccountsValid(r.accounts, r.nextAccountId, r.currencies)
    decreases |ops|
  {
    if ops == [] then db else Run(Step(db, ops[0], now), ops[1..], now)
  }

  /** Across any sequence of account creations, default switches and
      balance updates, every user keeps at most one default account. */
  lemma {:induction false} RunOneDefault(db: Db, ops: seq<LedgerOp>, now: int)
    requires AccountsValid(db.accounts, db.nextAccountId, db.currencies) && OneDefault(db.accounts)
    ensures OneDefault(Run(db, ops, now).accounts)
    decreases |ops|
  {
    if ops != [] {
      StepOneDefault(db, ops[0], now);
      RunOneDefault(Step(db, ops[0], now), ops[1..], now);
    }
  }

  /** Creating an account leaves every owner with a default account: the new
      row is the default when it asks to be or is its user's first, and
      otherwise no earlier row changes. */
  lemma CreateAccountHasDefault(db: Db, a: Account, now: int)
    requires AccountsValid(db.accounts, db.nextAccountId, db.currencies) && OwnersHaveDefault(db.accounts)
    ensures OwnersHaveDefault(CreateAccountSpec(db, a, now).1.accounts)
  {
    var r := CreateAccountSpec(db, a, now);
    if r.0.Ok? {
      var accounts, after, row := db.accounts, r.1.accounts, r.0.value;
      assert AccountCreated(accounts, db.nextAccountId, db.currencies, a, now, row, after);
      if row.isDefault {
        DefaultRowKeepsOwners(accounts, after, row);
      } else {
        assert after == accounts + [row] by {
          assert after[..|accounts|] == accounts;
        }
        OwnerHasDefault(accounts, a.userId);
        PlainRowKeepsOwners(accounts, row);
      }
    }
  }

  /** A user with an account has a default one. */
  lemma OwnerHasDefault(accounts: seq<Account>, userId: int)
    requires OwnersHaveDefault(accounts) && |GetAccountsByUserID(accounts, userId)| > 0
    ensures HasDefault(accounts, userId)
  {
    var k :| 0 <= k < |accounts| && accounts[k].userId == userId;
    assert HasDefault(accounts, accounts[k].userId);
  }

  /** Appending a new default row, after clearing its user's other defaults,
      leaves every owner with a default account. */
  lemma DefaultRowKeepsOwners(accounts: seq<Account>, after: seq<Account>, row: Account)
    requires OwnersHaveDefault(accounts) && row.isDefault
    requires |after| == |accounts| + 1 && after[|accounts|] == row
    requires forall i :: 0 <= i < |accounts| ==>
      (accounts[i].userId == row.userId ==> after[i] == accounts[i].(isDefault := false))
      && (accounts[i].userId != row.userId ==> after[i] == accounts[i])
    ensures OwnersHaveDefault(after)
  {
    forall i | 0 <= i < |after| ensures HasDefault(after, after[i].userId) {
      if after[i].userId == row.userId {
        assert after[|accounts|].userId == row.userId && after[|accounts|].isDefault;
      } else {
        assert i < |accounts| && after[i] == accounts[i];
        assert HasDefault(accounts, accounts[i].userId);
        var j :| 0 <= j < |accounts| && accounts[j].userId == accounts[i].userId && accounts[j].isDefault;
        assert after[j] == accounts[j];
      }
    }
  }

  /** Appending a row for a user who already has a default account leaves
      every owner with one. */
  lemma PlainRowKeepsOwners(accounts: seq<Account>, row: Account)
    requires OwnersHaveDefault(accounts) && HasDefault(accounts, row.userId)
    ensures OwnersHaveDefault(accounts + [row])
  {
    var after := accounts + [row];
    forall i | 0 <= i < |after| ensures HasDefault(after, after[i].userId) {
      var u := if i < |accounts| then accounts[i].userId else row.userId;
      assert after[i].userId == u;
      assert HasDefault(accounts, u);
      var j :| 0 <= j < |accounts| && accounts[j].userId == u && accounts[j].isDefault;
      assert after[j] == accounts[j];
    }
  }

  /** Switching the default leaves every owner with a default account. */
  lemma SetDefaultHasDefault(db: Db, userId: int, accountId: int, now: int)
    requires AccountsValid(db.accounts, db.nextAccountId, db.currencies) && OwnersHaveDefault(db.accounts)
    ensures OwnersHaveDefault(SetDefaultSpec(db, userId, accountId, now).1.accounts)
  {
    var r := SetDefaultSpec(db, userId, accountId, now);
    if r.0.Pass? {
      var accounts, after := db.accounts, r.1.accounts;
      forall i | 0 <= i < |after| ensures HasDefault(after, after[i].userId) {
        var u := accounts[i].userId;
        if u == userId {
          assert after[i].userId == userId;
        } else {
          assert after[i] == accounts[i];
          assert HasDefault(accounts, u);
          var j :| 0 <= j < |accounts| && accounts[j].userId == u && accounts[j].isDefault;
          assert after[j] == accounts[j];
        }
      }
    }
  }

  /** A balance update keeps every owner's default account. */
  lemma UpdateBalanceHasDefault(db: Db, accountId: int, amount: real, isIncome: bool, now: int)
    requires AccountsValid(db.accounts, db.nextAccountId, db.currencies) && OwnersHaveDefault(db.accounts)
    ensures OwnersHaveDefault(UpdateBalanceSpec(db, accountId, amount, isIncome, now).1.accounts)
  {
    var after := UpdateBalanceSpec(db, accountId, amount, isIncome, now).1.accounts;
    assert forall i :: 0 <= i < |after| ==>
      after[i].userId == db.accounts[i].userId && after[i].isDefault == db.accounts[i].isDefault;
    FlagsKeepOwners(db.accounts, after);
  }

  /** A table with the same owners and default flags row by row. */
  lemma FlagsKeepOwners(accounts: seq<Account>, after: seq<Account>)
    requires OwnersHaveDefault(accounts) && |after| == |accounts|
    requires forall i :: 0 <= i < |after| ==>
      after[i].userId == accounts[i].userId && after[i].isDefault == accounts[i].isDefault
    ensures OwnersHaveDefault(after)
  {
    forall i | 0 <= i < |after| ensures HasDefault(after, after[i].userId) {
      assert HasDefault(accounts, accounts[i].userId);
      var j :| 0 <= j < |accounts| && accounts[j].userId == accounts[i].userId && accounts[j].isDefault;
      assert after[j].userId == accounts[j].userId && after[j].isDefault;
    }
  }

  lemma StepHasDefault(db: Db, op: LedgerOp, now: int)
    requires AccountsValid(db.accounts, db.nextAccountId, db.currencies) && OwnersHaveDefault(db.accounts)
    ensures OwnersHaveDefault(Step(db, op, now).accounts)
  {
    match op
    case Create(a) => CreateAccountHasDefault(db, a, now);
    case SwitchDefault(u, id) => SetDefaultHasDefault(db, u, id, now);
    case Adjust(id, amount, isIncome) => UpdateBalanceHasDefault(db, id, amount, isIncome, now);
  }

  /** Starting from a table where every owner has exactly one default
      account (the empty table, say), any sequence of account creations,
      default switches and balance updates keeps it so. */
  lemma {:induction false} RunExactlyOneDefault(db: Db, ops: seq<LedgerOp>, now: int)
    requires AccountsValid(db.accounts, db.nextAccountId, db.currencies)
    requires OneDefault(db.accounts) && OwnersHaveDefault(db.accounts)
    ensures OneDefault(Run(db, ops, now).accounts) && OwnersHaveDefault(Run(db, ops, now).accounts)
    decreases |ops|
  {
    if ops != [] {
      StepOneDefault(db, ops[0], now);
      StepHasDefault(db, ops[0], now);
      RunExactlyOneDefault(Step(db, ops[0], now), ops[1..], now);
    }
  }
}
