/** The entities of the finance tracker and the validation constraints that
    its request types declare in `binding` tags. Timestamps are whole seconds;
    transaction dates are calendar dates. */
module Models {
  import opened Wrappers
  import opened Calendar

  const Income: string := "income"
  const Expense: string := "expense"

  datatype User = User(
    id: int, username: string, email: string,
    passwordHash: string,               // bcrypt hash; the plain password never reaches the store
    defaultCurrencyId: Option<int>,     // nil until the user picks a currency
    createdAt: int, updatedAt: int)

  datatype Currency = Currency(id: int, code: string, name: string, symbol: string)

  datatype Account = Account(
    id: int, userId: int, currencyId: int,
    balance: real,                      // signed: overdraft is allowed
    isDefault: bool, createdAt: int, updatedAt: int)

  /** A directional rate: one unit of the base currency buys `rate` units of
      the target currency. */
  datatype ExchangeRate = ExchangeRate(baseCurrencyId: int, targetCurrencyId: int, rate: real, lastUpdated: int)

  /** `userId == None` marks a category shared by every user. */
  datatype Category = Category(id: int, userId: Option<int>, name: string, description: string, kind: string)

  /** `accountId == None` on a request means "use the default account";
      a stored transaction always has one. */
  datatype Transaction = Transaction(
    id: int, userId: int, categoryId: int, accountId: Option<int>,
    amount: real, description: string, date: Date, kind: string, createdAt: int)

  datatype Session = Session(id: int, userId: int, token: string, expiresAt: int, createdAt: int)

  datatype TransactionSummary = TransactionSummary(
    totalIncome: real, totalExpense: real, netAmount: real,
    transactionCount: nat, periodStart: string, periodEnd: string)

  /** Go's zero value `&models.TransactionSummary{}`. */
  const EmptySummary := TransactionSummary(0.0, 0.0, 0.0, 0, "", "")

  datatype CategorySummary = CategorySummary(
    categoryId: int, categoryName: string, kind: string,
    totalAmount: real, count: nat, percentage: real)

  datatype MonthlySummary = MonthlySummary(month: string, totalIncome: real, totalExpense: real, netAmount: real)

  datatype AccountBalance = AccountBalance(accountId: int, currencyCode: string, balance: real, balanceInUsd: real)

  /** The errors the services return, one per distinct message the code
      forms itself; `HashFailed`, `TokenFailed`, `DuplicateToken` and
      `ForeignKeyViolation` stand for library errors passed through. */
  datatype Error =
    | CurrencyNotFound | AccountNotFound | AccountNotOwned
    | SourceAccountNotFound | TargetAccountNotFound
    | CategoryNotFound | CategoryTypeMismatch | NoDefaultAccount
    | RateNotAvailable | NoRatesAvailable | NoCurrencies | UsdNotFound | ProviderFailed
    | EmailTaken | InvalidCredentials | InvalidOrExpiredToken | UserNotFound
    | HashFailed | TokenFailed | DuplicateToken | ForeignKeyViolation

  // ---- Request types and their `binding` constraints ----
  // For validator's `required`, a string must be non-empty and a number non-zero.

  datatype RegisterRequest = RegisterRequest(username: string, email: string, password: string)
  datatype TransactionRequest = TransactionRequest(
    categoryId: int, accountId: Option<int>, amount: real, description: string, date: string, kind: string)
  datatype AccountRequest = AccountRequest(name: string, currencyId: int, initialBalance: real, isDefault: Option<bool>)
  datatype ExchangeRateRequest = ExchangeRateRequest(baseCurrencyId: int, targetCurrencyId: int, rate: real)
  datatype ConvertRequest = ConvertRequest(fromId: int, toId: int, amount: real)

  /** `username` required, `email` required and an e-mail address (the
      validator's address syntax is the `isEmail` parameter), `password`
      required with at least 6 characters. */
  predicate RegisterRequestValid(r: RegisterRequest, isEmail: string -> bool) {
    r.username != "" && r.email != "" && isEmail(r.email) && |r.password| >= 6
  }

  /** `category_id`, `date` and `type` required, `amount` > 0, `type` one of
      income/expense; `account_id` optional. */
  predicate TransactionRequestValid(r: TransactionRequest) {
    r.categoryId != 0 && r.amount != 0.0 && r.amount > 0.0 && r.date != ""
    && r.kind != "" && (r.kind == Income || r.kind == Expense)
  }

  predicate ExchangeRateRequestValid(r: ExchangeRateRequest) {
    r.baseCurrencyId != 0 && r.targetCurrencyId != 0 && r.rate != 0.0 && r.rate > 0.0
  }

  /** Both `ConvertCurrencyRequest` and `ConvertSimpleRequest`. */
  predicate ConvertRequestValid(r: ConvertRequest) {
    r.fromId != 0 && r.toId != 0 && r.amount != 0.0 && r.amount > 0.0
  }

  predicate AccountRequestValid(r: AccountRequest) {
    r.name != "" && r.currencyId != 0
  }

  predicate CategoryKindValid(kind: string) {
    kind != "" && (kind == Income || kind == Expense)
  }

  /** A transaction request's type is one a category may have, and its
      amount is positive. */
  lemma TransactionKindIsCategoryKind(r: TransactionRequest)
    requires TransactionRequestValid(r)
    ensures CategoryKindValid(r.kind) && r.amount > 0.0
    ensures r.kind == Income <==> r.kind != Expense
  {
  }

  /** The account the handler builds from a request: the absent
      `is_default` flag reads as false. */
  function AccountFromRequest(r: AccountRequest, userId: int): (a: Account)
    ensures a.userId == userId && a.currencyId == r.currencyId && a.balance == r.initialBalance
    ensures a.isDefault <==> r.isDefault == Some(true)
  {
    Account(0, userId, r.currencyId, r.initialBalance,
            match r.isDefault case Some(b) => b case None => false, 0, 0)
  }

  /** The transaction the handler builds from a request (the date string
      already parsed). */
  function TransactionFromRequest(r: TransactionRequest, userId: int, date: Date): (t: Transaction)
    ensures t.userId == userId && t.categoryId == r.categoryId && t.accountId == r.accountId
    ensures t.amount == r.amount && t.kind == r.kind && t.date == date
  {
    Transaction(0, userId, r.categoryId, r.accountId, r.amount, r.description, date, r.kind, 0)
  }
}
