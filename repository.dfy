/** The PostgreSQL store as in-memory tables. Each query is a function of the
    tables it reads; each write statement is a method of `Store` whose new
    state is a function of the old one. `SERIAL` keys are the `next…Id`
    counters, starting at 1. */
module Repository {
  import opened Wrappers
  import opened Seqs
  import opened Calendar
  import opened Models

  /** A snapshot of every table. */
  datatype Db = Db(
    users: seq<User>, currencies: seq<Currency>, accounts: seq<Account>,
    rates: seq<ExchangeRate>, categories: seq<Category>,
    transactions: seq<Transaction>, sessions: seq<Session>,
    nextUserId: int, nextAccountId: int, nextTransactionId: int, nextSessionId: int)

  // ---------------------------------------------------------------------
  // Schema constraints: keys, uniqueness, foreign keys, positive rates

  ghost predicate UsersValid(users: seq<User>, next: int) {
    next >= 1
    && (forall i :: 0 <= i < |users| ==> 1 <= users[i].id < next)
    && (forall i, j :: 0 <= i < j < |users| ==> users[i].id != users[j].id)
  }

  /** A foreign key to `currencies` is satisfied. */
  ghost predicate HasCurrency(currencies: seq<Currency>, id: int) {
    exists i :: 0 <= i < |currencies| && currencies[i].id == id
  }

  /** Currency ids and ISO codes are unique. */
  ghost predicate CurrenciesValid(currencies: seq<Currency>) {
    (forall i :: 0 <= i < |currencies| ==> currencies[i].id >= 1)
    && (forall i, j :: 0 <= i < j < |currencies| ==>
          currencies[i].id != currencies[j].id && currencies[i].code != currencies[j].code)
  }

  ghost predicate AccountsValid(accounts: seq<Account>, next: int, currencies: seq<Currency>) {
    next >= 1
    && (forall i :: 0 <= i < |accounts| ==> 1 <= accounts[i].id < next)
    && (forall i, j :: 0 <= i < j < |accounts| ==> accounts[i].id != accounts[j].id)
    && (forall i :: 0 <= i < |accounts| ==> HasCurrency(currencies, accounts[i].currencyId))
  }

  /** The `UNIQUE (base_currency_id, target_currency_id)` constraint, both
      currency foreign keys, and stored rates are positive. */
  ghost predicate RateRowOk(x: ExchangeRate, currencies: seq<Currency>) {
    x.rate > 0.0
    && HasCurrency(currencies, x.baseCurrencyId)
    && HasCurrency(currencies, x.targetCurrencyId)
  }

  ghost predicate RatesPositive(rates: seq<ExchangeRate>) {
    forall i :: 0 <= i < |rates| ==> rates[i].rate > 0.0
  }

  ghost predicate RatesValid(rates: seq<ExchangeRate>, currencies: seq<Currency>) {
    RatesPositive(rates)
    && (forall i :: 0 <= i < |rates| ==> RateRowOk(rates[i], currencies))
    && (forall i, j :: 0 <= i < j < |rates| ==>
          rates[i].baseCurrencyId != rates[j].baseCurrencyId
          || rates[i].targetCurrencyId != rates[j].targetCurrencyId)
  }

  ghost predicate CategoriesValid(categories: seq<Category>) {
    (forall i :: 0 <= i < |categories| ==> categories[i].id >= 1)
    && (forall i, j :: 0 <= i < j < |categories| ==> categories[i].id != categories[j].id)
  }

  ghost predicate TransactionsValid(transactions: seq<Transaction>, next: int) {
    next >= 1
    && (forall i :: 0 <= i < |transactions| ==> 1 <= transactions[i].id < next)
    && (forall i, j :: 0 <= i < j < |transactions| ==> transactions[i].id != transactions[j].id)
  }

  /** Session tokens are unique. */
  ghost predicate SessionsValid(sessions: seq<Session>, next: int) {
    next >= 1
    && (forall i :: 0 <= i < |sessions| ==> 1 <= sessions[i].id < next)
    && (forall i, j :: 0 <= i < j < |sessions| ==>
          sessions[i].id != sessions[j].id && sessions[i].token != sessions[j].token)
  }

  ghost predicate DbValid(db: Db) {
    && UsersValid(db.users, db.nextUserId)
    && CurrenciesValid(db.currencies)
    && AccountsValid(db.accounts, db.nextAccountId, db.currencies)
    && RatesValid(db.rates, db.currencies)
    && CategoriesValid(db.categories)
    && TransactionsValid(db.transactions, db.nextTransactionId)
    && SessionsValid(db.sessions, db.nextSessionId)
  }

  // ---------------------------------------------------------------------
  // Queries. A key lookup returns None for "no rows" (Go's `nil, nil`).

  /** The columns the two user queries read: every field but the default
      currency, which is left unset in the user they return. */
  function Scanned(u: User): User {
    u.(defaultCurrencyId := None)
  }

  function GetUserByEmail(users: seq<User>, email: string): (r: Option<User>)
    ensures r.Some? ==> r.value.email == email && r.value.defaultCurrencyId.None?
    ensures r.Some? ==> exists i :: 0 <= i < |users| && users[i].email == email && r.value == Scanned(users[i])
    ensures r.None? <==> forall i :: 0 <= i < |users| ==> users[i].email != email
  {
    match Find(users, (u: User) => u.email == email)
    case None => None
    case Some(u) => Some(Scanned(u))
  }

  function GetUserByID(users: seq<User>, id: int): (r: Option<User>)
    ensures r.Some? ==> r.value.id == id && r.value.defaultCurrencyId.None?
    ensures r.Some? ==> exists i :: 0 <= i < |users| && users[i].id == id && r.value == Scanned(users[i])
    ensures r.None? <==> forall i :: 0 <= i < |users| ==> users[i].id != id
  {
    match Find(users, (u: User) => u.id == id)
    case None => None
    case Some(u) => Some(Scanned(u))
  }

  function GetCurrencyByID(currencies: seq<Currency>, id: int): (r: Option<Currency>)
    ensures r.Some? ==> r.value in currencies && r.value.id == id
    ensures r.None? <==> forall i :: 0 <= i < |currencies| ==> currencies[i].id != id
  {
    Find(currencies, (c: Currency) => c.id == id)
  }

  function GetCurrencyByCode(currencies: seq<Currency>, code: string): (r: Option<Currency>)
    ensures r.Some? ==> r.value in currencies && r.value.code == code
    ensures r.None? <==> forall i :: 0 <= i < |currencies| ==> currencies[i].code != code
  {
    Find(currencies, (c: Currency) => c.code == code)
  }

  predicate CodeLe(a: Currency, b: Currency) { LexLe(a.code, b.code) }

  lemma CodeLeTotal()
    ensures Total(CodeLe)
  {
    forall a: Currency, b: Currency ensures CodeLe(a, b) || CodeLe(b, a) { LexLeTotal(a.code, b.code); }
  }

  lemma CodeLeTransitive()
    ensures Transitive(CodeLe)
  {
    forall a: Currency, b: Currency, c: Currency | CodeLe(a, b) && CodeLe(b, c) ensures CodeLe(a, c) {
      LexLeTransitive(a.code, b.code, c.code);
    }
  }

  /** `ORDER BY code`. */
  function GetAllCurrencies(currencies: seq<Currency>): (r: seq<Currency>)
    ensures multiset(r) == multiset(currencies)
    ensures forall i :: 0 <= i < |r| ==> r[i] in currencies
    ensures forall i :: 0 <= i < |currencies| ==> currencies[i] in r
    ensures Ordered(r, CodeLe)
  {
    CodeLeTotal();
    CodeLeTransitive();
    SortBySorted(currencies, CodeLe);
    SortByMembers(currencies, CodeLe);
    SortedByOrdered(SortBy(currencies, CodeLe), CodeLe);
    SortBy(currencies, CodeLe)
  }

  /** `ORDER BY is_default DESC, created_at`. */
  predicate DefaultFirstOlder(a: Account, b: Account) {
    (a.isDefault && !b.isDefault) || (a.isDefault == b.isDefault && a.createdAt <= b.createdAt)
  }

  lemma DefaultFirstOlderTotal()
    ensures Total(DefaultFirstOlder)
  {
  }

  lemma DefaultFirstOlderTransitive()
    ensures Transitive(DefaultFirstOlder)
  {
  }

  /** The rows the `WHERE` clause of `GetAccountsByUserID` selects, in table order. */
  function UserAccounts(accounts: seq<Account>, userId: int): seq<Account> {
    Filter(accounts, (a: Account) => a.userId == userId)
  }

  /** `WHERE user_id = $1 ORDER BY is_default DESC, created_at`: the user's
      accounts, default ones first, each group oldest first. */
  function GetAccountsByUserID(accounts: seq<Account>, userId: int): (r: seq<Account>)
    ensures forall i :: 0 <= i < |r| ==> r[i] in accounts && r[i].userId == userId
    ensures forall i :: 0 <= i < |accounts| && accounts[i].userId == userId ==> accounts[i] in r
    ensures multiset(r) == multiset(UserAccounts(accounts, userId))
    ensures Ordered(r, DefaultFirstOlder)
    ensures forall i, j :: 0 <= i < j < |r| && r[j].isDefault ==> r[i].isDefault
    ensures |r| == 0 <==> forall i :: 0 <= i < |accounts| ==> accounts[i].userId != userId
  {
    DefaultFirstOlderTotal();
    DefaultFirstOlderTransitive();
    var r := SelectOrdered(accounts, (a: Account) => a.userId == userId, DefaultFirstOlder);
    DefaultsFirst(r);
    assert |r| > 0 ==> r[0] in accounts;
    r
  }

  /** In a list sorted defaults first, no default row follows a row that is
      not a default. */
  lemma DefaultsFirst(r: seq<Account>)
    requires SortedBy(r, DefaultFirstOlder)
    ensures forall i, j :: 0 <= i < j < |r| && r[j].isDefault ==> r[i].isDefault
  {
    forall i, j | 0 <= i < j < |r| && r[j].isDefault ensures r[i].isDefault {
      DefaultBefore(r, j, i);
    }
  }

  lemma {:induction false} DefaultBefore(r: seq<Account>, j: int, i: int)
    requires SortedBy(r, DefaultFirstOlder) && 0 <= i <= j < |r| && r[j].isDefault
    ensures r[i].isDefault
    decreases j
  {
    if i < j {
      assert DefaultFirstOlder(r[j - 1], r[j]);
      DefaultBefore(r, j - 1, i);
    }
  }

  function GetAccountByID(accounts: seq<Account>, id: int): (r: Option<Account>)
    ensures r.Some? ==> r.value in accounts && r.value.id == id
    ensures r.None? <==> forall i :: 0 <= i < |accounts| ==> accounts[i].id != id
  {
    Find(accounts, (a: Account) => a.id == id)
  }

  /** `WHERE user_id = $1 AND is_default = true`, first row. */
  function GetDefaultAccount(accounts: seq<Account>, userId: int): (r: Option<Account>)
    ensures r.Some? ==> r.value in accounts && r.value.userId == userId && r.value.isDefault
    ensures r.None? <==> forall i :: 0 <= i < |accounts| ==> !(accounts[i].userId == userId && accounts[i].isDefault)
  {
    Find(accounts, (a: Account) => a.userId == userId && a.isDefault)
  }

  predicate SamePair(x: ExchangeRate, base: int, target: int) {
    x.baseCurrencyId == base && x.targetCurrencyId == target
  }

  function GetExchangeRate(rates: seq<ExchangeRate>, base: int, target: int): (r: Option<ExchangeRate>)
    ensures r.Some? ==> r.value in rates && r.value.baseCurrencyId == base && r.value.targetCurrencyId == target
    ensures r.None? <==> forall i :: 0 <= i < |rates| ==>
      !(rates[i].baseCurrencyId == base && rates[i].targetCurrencyId == target)
  {
    Find(rates, (x: ExchangeRate) => SamePair(x, base, target))
  }

  predicate NameLe(a: Category, b: Category) { LexLe(a.name, b.name) }

  lemma NameLeTotal()
    ensures Total(NameLe)
  {
    forall a: Category, b: Category ensures NameLe(a, b) || NameLe(b, a) { LexLeTotal(a.name, b.name); }
  }

  lemma NameLeTransitive()
    ensures Transitive(NameLe)
  {
    forall a: Category, b: Category, c: Category | NameLe(a, b) && NameLe(b, c) ensures NameLe(a, c) {
      LexLeTransitive(a.name, b.name, c.name);
    }
  }

  /** A category the user can see: one of the user's own or a shared one. */
  predicate Visible(c: Category, userId: int) { c.userId == Some(userId) || c.userId.None? }

  /** The rows the `WHERE` clause of `GetCategoriesByUserID` selects, in table order. */
  function VisibleCategories(categories: seq<Category>, userId: int): seq<Category> {
    Filter(categories, (c: Category) => Visible(c, userId))
  }

  /** `WHERE user_id = $1 OR user_id IS NULL ORDER BY name`. */
  function GetCategoriesByUserID(categories: seq<Category>, userId: int): (r: seq<Category>)
    ensures forall i :: 0 <= i < |r| ==> r[i] in categories && Visible(r[i], userId)
    ensures forall i :: 0 <= i < |categories| && Visible(categories[i], userId) ==> categories[i] in r
    ensures multiset(r) == multiset(VisibleCategories(categories, userId))
    ensures Ordered(r, NameLe)
  {
    NameLeTotal();
    NameLeTransitive();
    SelectOrdered(categories, (c: Category) => Visible(c, userId), NameLe)
  }

  function GetCategoryByID(categories: seq<Category>, id: int): (r: Option<Category>)
    ensures r.Some? ==> r.value in categories && r.value.id == id
    ensures r.None? <==> forall i :: 0 <= i < |categories| ==> categories[i].id != id
  {
    Find(categories, (c: Category) => c.id == id)
  }

  /** `ORDER BY date DESC, created_at DESC`. */
  predicate NewestFirst(a: Transaction, b: Transaction) {
    (DateLe(b.date, a.date) && a.date != b.date) || (a.date == b.date && a.createdAt >= b.createdAt)
  }

  lemma NewestFirstTotal()
    ensures Total(NewestFirst)
  {
    forall a: Transaction, b: Transaction ensures NewestFirst(a, b) || NewestFirst(b, a) {
      DateLeTotal(a.date, b.date);
    }
  }
  lemma NewestFirstTransitive()
    ensures Transitive(NewestFirst)
  {
    forall a: Transaction, b: Transaction, c: Transaction | NewestFirst(a, b) && NewestFirst(b, c)
      ensures NewestFirst(a, c)
    {
      DateLeTotal(a.date, c.date);
    }
  }


  predicate InPeriod(t: Transaction, start: Date, end: Date) {
    DateLe(start, t.date) && DateLe(t.date, end)
  }

  /** `WHERE user_id = $1 AND date BETWEEN $2 AND $3` (both bounds included),
      newest first. */
  function GetTransactionsByPeriod(transactions: seq<Transaction>, userId: int, start: Date, end: Date): (r: seq<Transaction>)
    ensures forall i :: 0 <= i < |r| ==> r[i] in transactions && r[i].userId == userId && InPeriod(r[i], start, end)
    ensures forall i :: (0 <= i < |transactions| && transactions[i].userId == userId
                         && InPeriod(transactions[i], start, end)) ==> transactions[i] in r
    ensures multiset(r) == multiset(UserPeriod(transactions, userId, start, end))
    ensures Ordered(r, NewestFirst)
  {
    NewestFirstTotal();
    NewestFirstTransitive();
    SelectOrdered(transactions, (t: Transaction) => t.userId == userId && InPeriod(t, start, end), NewestFirst)
  }

  /** The rows the `WHERE` clause of `GetTransactionsByPeriod` selects, in table order. */
  function UserPeriod(transactions: seq<Transaction>, userId: int, start: Date, end: Date): seq<Transaction> {
    Filter(transactions, (t: Transaction) => t.userId == userId && InPeriod(t, start, end))
  }

  /** The rows of one account in a period, in table order. */
  function AccountPeriod(transactions: seq<Transaction>, accountId: int, start: Date, end: Date): seq<Transaction> {
    Filter(transactions, (t: Transaction) => t.accountId == Some(accountId) && InPeriod(t, start, end))
  }

  /** The rows of one account, in table order. */
  function AccountRows(transactions: seq<Transaction>, accountId: int): seq<Transaction> {
    Filter(transactions, (t: Transaction) => t.accountId == Some(accountId))
  }

  /** `WHERE account_id = $1`, newest first. */
  function GetTransactionsByAccountID(transactions: seq<Transaction>, accountId: int): (r: seq<Transaction>)
    ensures forall i :: 0 <= i < |r| ==> r[i] in transactions && r[i].accountId == Some(accountId)
    ensures forall i :: 0 <= i < |transactions| && transactions[i].accountId == Some(accountId) ==> transactions[i] in r
    ensures multiset(r) == multiset(AccountRows(transactions, accountId))
    ensures Ordered(r, NewestFirst)
  {
    NewestFirstTotal();
    NewestFirstTransitive();
    SelectOrdered(transactions, (t: Transaction) => t.accountId == Some(accountId), NewestFirst)
  }

  /** `WHERE account_id = $1 AND date >= $2 AND date <= $3`, newest first. */
  function GetTransactionsByAccountIDAndPeriod(transactions: seq<Transaction>, accountId: int, start: Date, end: Date): (r: seq<Transaction>)
    ensures forall i :: 0 <= i < |r| ==> r[i] in transactions && r[i].accountId == Some(accountId) && InPeriod(r[i], start, end)
    ensures forall i :: (0 <= i < |transactions| && transactions[i].accountId == Some(accountId)
                         && InPeriod(transactions[i], start, end)) ==> transactions[i] in r
    ensures multiset(r) == multiset(AccountPeriod(transactions, accountId, start, end))
    ensures Ordered(r, NewestFirst)
  {
    NewestFirstTotal();
    NewestFirstTransitive();
    SelectOrdered(transactions, (t: Transaction) => t.accountId == Some(accountId) && InPeriod(t, start, end), NewestFirst)
  }

  /** Sum of the amounts of the transactions whose type is `kind`. */
  function SumOfKind(ts: seq<Transaction>, kind: string): real {
    if ts == [] then 0.0
    else SumOfKind(ts[..|ts| - 1], kind) + (if ts[|ts| - 1].kind == kind then ts[|ts| - 1].amount else 0.0)
  }

  /** Sum of the amounts of the transactions whose type is anything but `kind`. */
  function SumNotOfKind(ts: seq<Transaction>, kind: string): real {
    if ts == [] then 0.0
    else SumNotOfKind(ts[..|ts| - 1], kind) + (if ts[|ts| - 1].kind != kind then ts[|ts| - 1].amount else 0.0)
  }

  /** The aggregate query: income sums type 'income', expense sums type
      'expense' only (rows of any other type count in neither), net is their
      difference and the count covers every row of the account in the period. */
  function GetTransactionSummaryByAccountID(transactions: seq<Transaction>, accountId: int, start: Date, end: Date): (r: TransactionSummary)
    ensures r.totalIncome == SumOfKind(AccountPeriod(transactions, accountId, start, end), Income)
    ensures r.totalExpense == SumOfKind(AccountPeriod(transactions, accountId, start, end), Expense)
    ensures r.netAmount == r.totalIncome - r.totalExpense
    ensures r.transactionCount == |AccountPeriod(transactions, accountId, start, end)|
    ensures r.periodStart == FormatDate(start) && r.periodEnd == FormatDate(end)
  {
    var rows := AccountPeriod(transactions, accountId, start, end);
    var income := SumOfKind(rows, Income);
    var expense := SumOfKind(rows, Expense);
    TransactionSummary(income, expense, income - expense, |rows|, FormatDate(start), FormatDate(end))
  }

  /** `WHERE token = $1 AND expires_at > $2` with `$2` the current time. */
  function GetSessionByToken(sessions: seq<Session>, token: string, now: int): (r: Option<Session>)
    ensures r.Some? ==> r.value in sessions && r.value.token == token && r.value.expiresAt > now
    ensures r.None? <==> forall i :: 0 <= i < |sessions| ==> !(sessions[i].token == token && sessions[i].expiresAt > now)
  {
    Find(sessions, (s: Session) => s.token == token && s.expiresAt > now)
  }

  /** The code of a currency id, as the `JOIN currencies` supplies it. */
  function CodeOf(currencies: seq<Currency>, id: int): string {
    match GetCurrencyByID(currencies, id)
    case Some(c) => c.code
    case None => ""
  }

  /** `ORDER BY bc.code, tc.code`: by base code, then by target code. */
  predicate RateLe(currencies: seq<Currency>, a: ExchangeRate, b: ExchangeRate) {
    var ab, bb := CodeOf(currencies, a.baseCurrencyId), CodeOf(currencies, b.baseCurrencyId);
    if ab != bb then LexLe(ab, bb)
    else LexLe(CodeOf(currencies, a.targetCurrencyId), CodeOf(currencies, b.targetCurrencyId))
  }

  lemma RateLeTotal(currencies: seq<Currency>)
    ensures Total((a: ExchangeRate, b: ExchangeRate) => RateLe(currencies, a, b))
  {
    forall a: ExchangeRate, b: ExchangeRate ensures RateLe(currencies, a, b) || RateLe(currencies, b, a) {
      LexLeTotal(CodeOf(currencies, a.baseCurrencyId), CodeOf(currencies, b.baseCurrencyId));
      LexLeTotal(CodeOf(currencies, a.targetCurrencyId), CodeOf(currencies, b.targetCurrencyId));
    }
  }
  lemma RateLeTransitive(currencies: seq<Currency>)
    ensures Transitive((a: ExchangeRate, b: ExchangeRate) => RateLe(currencies, a, b))
  {
    forall a: ExchangeRate, b: ExchangeRate, c: ExchangeRate | RateLe(currencies, a, b) && RateLe(currencies, b, c)
      ensures RateLe(currencies, a, c)
    {
      var ab, bb, cb := CodeOf(currencies, a.baseCurrencyId), CodeOf(currencies, b.baseCurrencyId), CodeOf(currencies, c.baseCurrencyId);
      if ab == bb && bb == cb {
        LexLeTransitive(CodeOf(currencies, a.targetCurrencyId), CodeOf(currencies, b.targetCurrencyId), CodeOf(currencies, c.targetCurrencyId));
      } else if ab != bb && bb != cb {
        LexLeTransitive(ab, bb, cb);
        if ab == cb {
          LexLeAntisymmetric(ab, bb);
        }
      }
    }
  }


  /** Every stored rate, ordered by the codes of its two currencies. */
  function GetAllExchangeRates(rates: seq<ExchangeRate>, currencies: seq<Currency>): (r: seq<ExchangeRate>)
    ensures multiset(r) == multiset(rates)
    ensures Ordered(r, (a: ExchangeRate, b: ExchangeRate) => RateLe(currencies, a, b))
  {
    var le := (a: ExchangeRate, b: ExchangeRate) => RateLe(currencies, a, b);
    RateLeTotal(currencies);
    RateLeTransitive(currencies);
    SortBySorted(rates, le);
    SortedByOrdered(SortBy(rates, le), le);
    SortBy(rates, le)
  }

  // ---------------------------------------------------------------------
  // Row updates, one per UPDATE / DELETE / upsert statement

  /** `UPDATE users SET default_currency_id = $1, updated_at = $2 WHERE id = $3`. */
  function SetUserCurrency(users: seq<User>, userId: int, currencyId: int, now: int): (r: seq<User>)
    ensures |r| == |users|
    ensures forall i :: 0 <= i < |users| ==>
      r[i] == if users[i].id == userId then users[i].(defaultCurrencyId := Some(currencyId), updatedAt := now) else users[i]
  {
    seq(|users|, i requires 0 <= i < |users| =>
      if users[i].id == userId then users[i].(defaultCurrencyId := Some(currencyId), updatedAt := now) else users[i])
  }

  /** `UPDATE accounts SET is_default = false WHERE user_id = $1`. */
  function ClearDefaults(accounts: seq<Account>, userId: int): (r: seq<Account>)
    ensures |r| == |accounts|
    ensures forall i :: 0 <= i < |accounts| ==>
      r[i] == if accounts[i].userId == userId then accounts[i].(isDefault := false) else accounts[i]
  {
    seq(|accounts|, i requires 0 <= i < |accounts| =>
      if accounts[i].userId == userId then accounts[i].(isDefault := false) else accounts[i])
  }

  /** `UPDATE accounts SET is_default = true, updated_at = $1 WHERE id = $2 AND user_id = $3`. */
  function MarkDefault(accounts: seq<Account>, userId: int, accountId: int, now: int): (r: seq<Account>)
    ensures |r| == |accounts|
    ensures forall i :: 0 <= i < |accounts| ==>
      r[i] == if accounts[i].id == accountId && accounts[i].userId == userId
              then accounts[i].(isDefault := true, updatedAt := now) else accounts[i]
  {
    seq(|accounts|, i requires 0 <= i < |accounts| =>
      if accounts[i].id == accountId && accounts[i].userId == userId
      then accounts[i].(isDefault := true, updatedAt := now) else accounts[i])
  }

  /** The two statements of `SetDefaultAccount`: afterwards the user's only
      default account is the row with that id, if the user owns one, and
      the user has no default at all otherwise (for instance for id 0). */
  function SetDefaultAccounts(accounts: seq<Account>, userId: int, accountId: int, now: int): (r: seq<Account>)
    ensures |r| == |accounts|
    ensures forall i :: 0 <= i < |r| && r[i].userId == userId ==> (r[i].isDefault <==> r[i].id == accountId)
    ensures forall i :: 0 <= i < |r| && accounts[i].userId != userId ==> r[i] == accounts[i]
    ensures forall i :: 0 <= i < |r| ==>
      r[i].id == accounts[i].id && r[i].userId == accounts[i].userId
      && r[i].currencyId == accounts[i].currencyId && r[i].balance == accounts[i].balance
    ensures forall i :: 0 <= i < |r| && accounts[i].userId == userId ==>
      r[i] == if accounts[i].id == accountId then accounts[i].(isDefault := true, updatedAt := now)
              else accounts[i].(isDefault := false)
  {
    MarkDefault(ClearDefaults(accounts, userId), userId, accountId, now)
  }

  /** `UPDATE accounts SET balance = $1, updated_at = $2 WHERE id = $3`. */
  function SetBalance(accounts: seq<Account>, accountId: int, balance: real, now: int): (r: seq<Account>)
    ensures |r| == |accounts|
    ensures forall i :: 0 <= i < |accounts| ==>
      r[i] == if accounts[i].id == accountId then accounts[i].(balance := balance, updatedAt := now) else accounts[i]
  {
    seq(|accounts|, i requires 0 <= i < |accounts| =>
      if accounts[i].id == accountId then accounts[i].(balance := balance, updatedAt := now) else accounts[i])
  }

  /** `INSERT … ON CONFLICT (base_currency_id, target_currency_id) DO UPDATE
      SET rate, last_updated`: the row of the pair is overwritten in place,
      or appended when there is none; `last_updated` is the current time. */
  function UpsertRate(rates: seq<ExchangeRate>, base: int, target: int, rate: real, now: int): (r: seq<ExchangeRate>)
    ensures GetExchangeRate(r, base, target) == Some(ExchangeRate(base, target, rate, now))
    ensures |r| == |rates| + (if GetExchangeRate(rates, base, target).Some? then 0 else 1)
    ensures |r| > |rates| ==> r[|rates|] == ExchangeRate(base, target, rate, now)
    ensures forall i :: 0 <= i < |rates| ==>
      r[i] == if SamePair(rates[i], base, target) then ExchangeRate(base, target, rate, now) else rates[i]
  {
    var row := ExchangeRate(base, target, rate, now);
    if GetExchangeRate(rates, base, target).Some? then
      var r := seq(|rates|, i requires 0 <= i < |rates| => if SamePair(rates[i], base, target) then row else rates[i]);
      assert forall i :: 0 <= i < |r| && SamePair(r[i], base, target) ==> r[i] == row;
      assert GetExchangeRate(r, base, target) == Some(row) by {
        var prior := GetExchangeRate(rates, base, target);
        var j :| 0 <= j < |rates| && rates[j] == prior.value;
        assert SamePair(r[j], base, target);
        var g := GetExchangeRate(r, base, target);
        var k :| 0 <= k < |r| && r[k] == g.value;
      }
      r
    else
      var r := rates + [row];
      assert forall i :: 0 <= i < |r| && SamePair(r[i], base, target) ==> i == |rates| && r[i] == row;
      assert GetExchangeRate(r, base, target) == Some(row) by {
        var g := GetExchangeRate(r, base, target);
        assert r[|rates|] == row;
        assert g.Some?;
        var k :| 0 <= k < |r| && r[k] == g.value;
      }
      r
  }

  /** The upsert keeps the uniqueness constraint and positivity of rates, so
      no pair ever has two rows. */
  /** A rate request that passes its binding carries a positive rate, so the
      upsert it feeds keeps the rates table valid and stores that rate. */
  lemma ExchangeRateRequestStorable(rates: seq<ExchangeRate>, currencies: seq<Currency>, r: ExchangeRateRequest, now: int)
    requires RatesValid(rates, currencies) && ExchangeRateRequestValid(r)
    requires HasCurrency(currencies, r.baseCurrencyId) && HasCurrency(currencies, r.targetCurrencyId)
    ensures r.rate > 0.0
    ensures var after := UpsertRate(rates, r.baseCurrencyId, r.targetCurrencyId, r.rate, now);
      RatesValid(after, currencies)
      && GetExchangeRate(after, r.baseCurrencyId, r.targetCurrencyId) == Some(ExchangeRate(r.baseCurrencyId, r.targetCurrencyId, r.rate, now))
  {
    UpsertRateValid(rates, currencies, r.baseCurrencyId, r.targetCurrencyId, r.rate, now);
  }

  lemma UpsertRateValid(rates: seq<ExchangeRate>, currencies: seq<Currency>, base: int, target: int, rate: real, now: int)
    requires RatesValid(rates, currencies) && rate > 0.0
    requires HasCurrency(currencies, base) && HasCurrency(currencies, target)
    ensures RatesValid(UpsertRate(rates, base, target, rate, now), currencies)
  {
    var r := UpsertRate(rates, base, target, rate, now);
    var row := ExchangeRate(base, target, rate, now);
    forall i | 0 <= i < |r| ensures RateRowOk(r[i], currencies) {
      if i < |rates| && !SamePair(rates[i], base, target) {
        assert r[i] == rates[i];
      } else {
        assert r[i] == row;
      }
    }
    UpsertRateUnique(rates, base, target, rate, now);
  }

  lemma UpsertRateUnique(rates: seq<ExchangeRate>, base: int, target: int, rate: real, now: int)
    requires forall i, j :: 0 <= i < j < |rates| ==>
      rates[i].baseCurrencyId != rates[j].baseCurrencyId || rates[i].targetCurrencyId != rates[j].targetCurrencyId
    ensures var r := UpsertRate(rates, base, target, rate, now);
      forall i, j :: 0 <= i < j < |r| ==>
        r[i].baseCurrencyId != r[j].baseCurrencyId || r[i].targetCurrencyId != r[j].targetCurrencyId
  {
    var r := UpsertRate(rates, base, target, rate, now);
    var row := ExchangeRate(base, target, rate, now);
    forall i, j | 0 <= i < j < |r|
      ensures r[i].baseCurrencyId != r[j].baseCurrencyId || r[i].targetCurrencyId != r[j].targetCurrencyId
    {
      if j < |rates| {
        assert SamePair(r[i], rates[i].baseCurrencyId, rates[i].targetCurrencyId);
        assert SamePair(r[j], rates[j].baseCurrencyId, rates[j].targetCurrencyId);
      } else {
        assert r[j] == row;
        assert GetExchangeRate(rates, base, target).None?;
        assert !SamePair(rates[i], base, target);
      }
    }
  }

  /** Upserting one pair leaves the lookup of every other pair as it was. */
  lemma UpsertRateOther(rates: seq<ExchangeRate>, base: int, target: int, rate: real, now: int, b: int, t: int)
    requires b != base || t != target
    ensures GetExchangeRate(UpsertRate(rates, base, target, rate, now), b, t) == GetExchangeRate(rates, b, t)
  {
    var r := UpsertRate(rates, base, target, rate, now);
    FindAgree(rates, r, (x: ExchangeRate) => SamePair(x, b, t));
  }

  /** `DELETE FROM sessions WHERE token = $1`. */
  function DeleteSessions(sessions: seq<Session>, token: string): (r: seq<Session>)
    ensures forall i :: 0 <= i < |r| ==> r[i] in sessions && r[i].token != token
    ensures forall i :: 0 <= i < |sessions| && sessions[i].token != token ==> sessions[i] in r
  {
    Filter(sessions, (s: Session) => s.token != token)
  }

  // ---------------------------------------------------------------------
  // The store itself

  class Store {
    var users: seq<User>
    var currencies: seq<Currency>
    var accounts: seq<Account>
    var rates: seq<ExchangeRate>
    var categories: seq<Category>
    var transactions: seq<Transaction>
    var sessions: seq<Session>
    var nextUserId: int
    var nextAccountId: int
    var nextTransactionId: int
    var nextSessionId: int

    function State(): Db
      reads this
    {
      Db(users, currencies, accounts, rates, categories, transactions, sessions,
         nextUserId, nextAccountId, nextTransactionId, nextSessionId)
    }

    ghost predicate Valid()
      reads this
    {
      DbValid(State())
    }

    /** An empty store seeded with the reference tables (currencies and
        categories come from migrations). */
    constructor (currencies: seq<Currency>, categories: seq<Category>)
      requires CurrenciesValid(currencies) && CategoriesValid(categories)
      ensures Valid()
      ensures State() == Db([], currencies, [], [], categories, [], [], 1, 1, 1, 1)
    {
      this.users, this.currencies, this.accounts, this.rates := [], currencies, [], [];
      this.categories, this.transactions, this.sessions := categories, [], [];
      this.nextUserId, this.nextAccountId, this.nextTransactionId, this.nextSessionId := 1, 1, 1, 1;
    }

    /** `INSERT INTO users … RETURNING id`: the password is stored as its hash. */
    method CreateUser(username: string, email: string, passwordHash: string, now: int) returns (u: User)
      requires Valid()
      modifies this
      ensures Valid()
      ensures u == User(old(nextUserId), username, email, passwordHash, None, now, now)
      ensures State() == old(State()).(users := old(users) + [u], nextUserId := old(nextUserId) + 1)
    {
      u := User(nextUserId, username, email, passwordHash, None, now, now);
      users := users + [u];
      nextUserId := nextUserId + 1;
    }

    method SetUserDefaultCurrency(userId: int, currencyId: int, now: int)
      requires Valid()
      modifies this
      ensures Valid()
      ensures State() == old(State()).(users := SetUserCurrency(old(users), userId, currencyId, now))
    {
      users := SetUserCurrency(users, userId, currencyId, now);
    }

    /** `INSERT INTO accounts … RETURNING id`; the currency foreign key
        rejects an unknown currency. */
    method CreateAccount(a: Account, now: int) returns (r: Result<Account, Error>)
      requires Valid()
      modifies this
      ensures Valid()
      ensures GetCurrencyByID(old(currencies), a.currencyId).None? ==>
        r == Err(ForeignKeyViolation) && State() == old(State())
      ensures GetCurrencyByID(old(currencies), a.currencyId).Some? ==>
        r == Ok(a.(id := old(nextAccountId), createdAt := now, updatedAt := now))
        && State() == old(State()).(accounts := old(accounts) + [r.value], nextAccountId := old(nextAccountId) + 1)
    {
      if GetCurrencyByID(currencies, a.currencyId).None? {
        return Err(ForeignKeyViolation);
      }
      var row := a.(id := nextAccountId, createdAt := now, updatedAt := now);
      AppendAccountValid(accounts, nextAccountId, currencies, row);
      accounts := accounts + [row];
      nextAccountId := nextAccountId + 1;
      r := Ok(row);
    }

    method UpdateAccountBalance(accountId: int, balance: real, now: int)
      requires Valid()
      modifies this
      ensures Valid()
      ensures State() == old(State()).(accounts := SetBalance(old(accounts), accountId, balance, now))
    {
      accounts := SetBalance(accounts, accountId, balance, now);
    }

    method SetDefaultAccount(userId: int, accountId: int, now: int)
      requires Valid()
      modifies this
      ensures Valid()
      ensures State() == old(State()).(accounts := SetDefaultAccounts(old(accounts), userId, accountId, now))
    {
      accounts := ClearDefaults(accounts, userId);
      accounts := MarkDefault(accounts, userId, accountId, now);
    }

    /** The upsert; a currency id without a row violates a foreign key. */
    method CreateOrUpdateExchangeRate(base: int, target: int, rate: real, now: int) returns (r: Outcome<Error>)
      requires Valid() && rate > 0.0
      modifies this
      ensures Valid()
      ensures GetCurrencyByID(old(currencies), base).None? || GetCurrencyByID(old(currencies), target).None? ==>
        r == Fail(ForeignKeyViolation) && State() == old(State())
      ensures GetCurrencyByID(old(currencies), base).Some? && GetCurrencyByID(old(currencies), target).Some? ==>
        r == Pass && State() == old(State()).(rates := UpsertRate(old(rates), base, target, rate, now))
    {
      if GetCurrencyByID(currencies, base).None? || GetCurrencyByID(currencies, target).None? {
        return Fail(ForeignKeyViolation);
      }
      var updated := UpsertRate(rates, base, target, rate, now);
      UpsertRateValid(rates, currencies, base, target, rate, now);
      rates := updated;
      r := Pass;
    }

    /** `INSERT INTO transactions … RETURNING id, created_at`. */
    method CreateTransaction(t: Transaction, now: int) returns (stored: Transaction)
      requires Valid()
      modifies this
      ensures Valid()
      ensures stored == t.(id := old(nextTransactionId), createdAt := now)
      ensures State() == old(State()).(transactions := old(transactions) + [stored],
                                       nextTransactionId := old(nextTransactionId) + 1)
    {
      stored := t.(id := nextTransactionId, createdAt := now);
      transactions := transactions + [stored];
      nextTransactionId := nextTransactionId + 1;
    }

    /** `INSERT INTO sessions …`; the unique token constraint rejects a
        token already stored. */
    method CreateSession(userId: int, token: string, expiresAt: int, now: int) returns (r: Result<Session, Error>)
      requires Valid()
      modifies this
      ensures Valid()
      ensures (exists i :: 0 <= i < |old(sessions)| && old(sessions)[i].token == token) ==>
        r == Err(DuplicateToken) && State() == old(State())
      ensures (forall i :: 0 <= i < |old(sessions)| ==> old(sessions)[i].token != token) ==>
        r == Ok(Session(old(nextSessionId), userId, token, expiresAt, now))
        && State() == old(State()).(sessions := old(sessions) + [r.value], nextSessionId := old(nextSessionId) + 1)
    {
      if exists i :: 0 <= i < |sessions| && sessions[i].token == token {
        return Err(DuplicateToken);
      }
      var s := Session(nextSessionId, userId, token, expiresAt, now);
      sessions := sessions + [s];
      nextSessionId := nextSessionId + 1;
      r := Ok(s);
    }

    method DeleteSession(token: string)
      requires Valid()
      modifies this
      ensures Valid()
      ensures State() == old(State()).(sessions := DeleteSessions(old(sessions), token))
    {
      var kept := DeleteSessions(sessions, token);
      assert SessionsValid(kept, nextSessionId) by {
        DeleteSessionsValid(sessions, token, nextSessionId);
      }
      sessions := kept;
    }
  }

  /** A row with the next id and a known currency keeps the accounts table valid. */
  lemma AppendAccountValid(accounts: seq<Account>, next: int, currencies: seq<Currency>, row: Account)
    requires AccountsValid(accounts, next, currencies)
    requires row.id == next && GetCurrencyByID(currencies, row.currencyId).Some?
    ensures AccountsValid(accounts + [row], next + 1, currencies)
  {
    var c := GetCurrencyByID(currencies, row.currencyId).value;
    var k :| 0 <= k < |currencies| && currencies[k] == c;
    var after := accounts + [row];
    assert forall i :: 0 <= i < |accounts| ==> after[i] == accounts[i];
  }

  lemma DeleteSessionsValid(sessions: seq<Session>, token: string, next: int)
    requires SessionsValid(sessions, next)
    ensures SessionsValid(DeleteSessions(sessions, token), next)
  {
    FilterPairwise(sessions, (s: Session) => s.token != token,
                   (a: Session, b: Session) => a.id != b.id && a.token != b.token);
  }
}
