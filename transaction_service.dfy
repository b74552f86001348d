/** The transaction engine: booking a transaction (a validation pipeline,
    then an insert and a balance update), and the read-side aggregations
    over a user's transactions in a period. */
module TransactionService {
  import opened Wrappers
  import opened Seqs
  import opened Calendar
  import opened Models
  import opened Repository
  import AccountService

  // ---------------------------------------------------------------------
  // CreateTransaction

  /** The account a new transaction is booked on: the one it names, which
      must exist and belong to the user, or else the user's default. */
  function BookedAccount(accounts: seq<Account>, t: Transaction): (r: Result<int, Error>)
    ensures t.accountId.None? ==> (r == Err(NoDefaultAccount) <==> GetDefaultAccount(accounts, t.userId).None?)
    ensures t.accountId.None? && r.Ok? ==> r.value == GetDefaultAccount(accounts, t.userId).value.id
    ensures t.accountId.Some? ==> (r == Err(AccountNotFound) <==> GetAccountByID(accounts, t.accountId.value).None?)
    ensures t.accountId.Some? ==> (r == Err(AccountNotOwned) <==>
      GetAccountByID(accounts, t.accountId.value).Some? && GetAccountByID(accounts, t.accountId.value).value.userId != t.userId)
    ensures t.accountId.Some? && r.Ok? ==> r.value == t.accountId.value
    ensures r.Err? ==> r.error in {NoDefaultAccount, AccountNotFound, AccountNotOwned}
    ensures r.Ok? ==> exists i :: 0 <= i < |accounts| && accounts[i].id == r.value && accounts[i].userId == t.userId
  {
    match t.accountId
    case None =>
      (match GetDefaultAccount(accounts, t.userId)
       case None => Err(NoDefaultAccount)
       case Some(a) => Ok(a.id))
    case Some(id) =>
      match GetAccountByID(accounts, id)
      case None => Err(AccountNotFound)
      case Some(a) => if a.userId != t.userId then Err(AccountNotOwned) else Ok(id)
  }

  /** The category must exist and have the transaction's type; then the
      account is resolved; only then is anything written: one transaction
      row, and the balance of its account moved by the amount. */
  function CreateTransactionSpec(db: Db, t: Transaction, now: int): (r: (Result<Transaction, Error>, Db))
    requires AccountsValid(db.accounts, db.nextAccountId, db.currencies)
    ensures r.0 == Err(CategoryNotFound) <==> GetCategoryByID(db.categories, t.categoryId).None?
    ensures r.0 == Err(CategoryTypeMismatch) <==>
      GetCategoryByID(db.categories, t.categoryId).Some? && GetCategoryByID(db.categories, t.categoryId).value.kind != t.kind
    ensures GetCategoryByID(db.categories, t.categoryId).Some? && GetCategoryByID(db.categories, t.categoryId).value.kind == t.kind
      ==> (r.0.Err? <==> BookedAccount(db.accounts, t).Err?)
          && (r.0.Err? ==> r.0.error == BookedAccount(db.accounts, t).error)
    ensures r.0.Err? ==> r.1 == db
    ensures r.0.Ok? ==> BookedAccount(db.accounts, t).Ok? && TransactionBooked(db, t, now, BookedAccount(db.accounts, t).value, r.0.value, r.1)
  {
    match GetCategoryByID(db.categories, t.categoryId)
    case None => (Err(CategoryNotFound), db)
    case Some(c) =>
      if c.kind != t.kind then (Err(CategoryTypeMismatch), db)
      else
        match BookedAccount(db.accounts, t)
        case Err(e) => (Err(e), db)
        case Ok(id) =>
          var stored := t.(accountId := Some(id), id := db.nextTransactionId, createdAt := now);
          var updated := AccountService.UpdateBalanceSpec(Inserted(db, stored), id, t.amount, t.kind == Income, now);
          TransactionBookedHolds(db, t, now, id, stored, updated.1);
          (Ok(stored), updated.1)
  }

  /** A valid request, once booked, moves the balance of the account it was
      booked on up by its amount for income and down for an expense; no
      other account changes. */
  lemma BookedRequestMovesBalance(db: Db, req: TransactionRequest, userId: int, date: Date, now: int)
    requires AccountsValid(db.accounts, db.nextAccountId, db.currencies) && TransactionRequestValid(req)
    requires CreateTransactionSpec(db, TransactionFromRequest(req, userId, date), now).0.Ok?
    ensures var r := CreateTransactionSpec(db, TransactionFromRequest(req, userId, date), now);
      var id := r.0.value.accountId.value;
      && |r.1.accounts| == |db.accounts|
      && forall i :: 0 <= i < |db.accounts| ==>
           && (db.accounts[i].id == id && req.kind == Income ==> r.1.accounts[i].balance == db.accounts[i].balance + req.amount > db.accounts[i].balance)
           && (db.accounts[i].id == id && req.kind == Expense ==> r.1.accounts[i].balance == db.accounts[i].balance - req.amount < db.accounts[i].balance)
           && (db.accounts[i].id != id ==> r.1.accounts[i] == db.accounts[i])
  {
    var t := TransactionFromRequest(req, userId, date);
    var r := CreateTransactionSpec(db, t, now);
    var id := BookedAccount(db.accounts, t).value;
    assert TransactionBooked(db, t, now, id, r.0.value, r.1);
    assert r.0.value.accountId == Some(id);
  }

  /** A category whose type is neither of the two a category request may
      carry never matches a valid transaction request: booking against it
      fails with the type mismatch and writes nothing. */
  lemma UntypedCategoryRejects(db: Db, req: TransactionRequest, userId: int, date: Date, now: int)
    requires AccountsValid(db.accounts, db.nextAccountId, db.currencies) && TransactionRequestValid(req)
    requires GetCategoryByID(db.categories, req.categoryId).Some?
    requires !CategoryKindValid(GetCategoryByID(db.categories, req.categoryId).value.kind)
    ensures CreateTransactionSpec(db, TransactionFromRequest(req, userId, date), now) == (Err(CategoryTypeMismatch), db)
  {
    TransactionKindIsCategoryKind(req);
  }

  /** What booking `t` on account `id` leaves behind: exactly one new row,
      carrying the account id, and only that account's balance moved, by
      +amount for income and -amount for any other type. */
  ghost predicate TransactionBooked(db: Db, t: Transaction, now: int, id: int, stored: Transaction, after: Db) {
    && stored == t.(accountId := Some(id), id := db.nextTransactionId, createdAt := now)
    && after.transactions == db.transactions + [stored]
    && after.nextTransactionId == db.nextTransactionId + 1
    && after == db.(accounts := after.accounts, transactions := after.transactions, nextTransactionId := after.nextTransactionId)
    && |after.accounts| == |db.accounts|
    && forall i :: 0 <= i < |db.accounts| ==>
         after.accounts[i] == if db.accounts[i].id == id
                              then db.accounts[i].(balance := AccountService.Adjusted(db.accounts[i].balance, t.amount, t.kind == Income),
                                                   updatedAt := now)
                              else db.accounts[i]
  }

  lemma TransactionBookedHolds(db: Db, t: Transaction, now: int, id: int, stored: Transaction, after: Db)
    requires AccountsValid(db.accounts, db.nextAccountId, db.currencies)
    requires exists i :: 0 <= i < |db.accounts| && db.accounts[i].id == id
    requires stored == t.(accountId := Some(id), id := db.nextTransactionId, createdAt := now)
    requires after == AccountService.UpdateBalanceSpec(Inserted(db, stored), id, t.amount, t.kind == Income, now).1
    ensures TransactionBooked(db, t, now, id, stored, after)
  {
    assert GetAccountByID(Inserted(db, stored).accounts, id).Some?;
  }

  method CreateTransaction(db: Store, t: Transaction, now: int) returns (r: Result<Transaction, Error>)
    requires db.Valid()
    modifies db
    ensures db.Valid()
    ensures (r, db.State()) == CreateTransactionSpec(old(db.State()), t, now)
  {
    var category := GetCategoryByID(db.categories, t.categoryId);
    if category.None? {
      return Err(CategoryNotFound);
    }
    if category.value.kind != t.kind {
      return Err(CategoryTypeMismatch);
    }
    var booked := t;
    if t.accountId.None? {
      var default := GetDefaultAccount(db.accounts, t.userId);
      if default.None? {
        return Err(NoDefaultAccount);
      }
      booked := booked.(accountId := Some(default.value.id));
    } else {
      var account := GetAccountByID(db.accounts, t.accountId.value);
      if account.None? {
        return Err(AccountNotFound);
      }
      if account.value.userId != t.userId {
        return Err(AccountNotOwned);
      }
    }
    r := Book(db, t, booked.accountId.value, now);
  }

  /** The two writes of a booking whose account is known to exist. The
      balance update cannot fail then, so the error it could return after
      the insert never arises. */
  method Book(db: Store, t: Transaction, id: int, now: int) returns (r: Result<Transaction, Error>)
    requires db.Valid() && BookedAccount(db.accounts, t) == Ok(id)
    requires GetCategoryByID(db.categories, t.categoryId).Some? && GetCategoryByID(db.categories, t.categoryId).value.kind == t.kind
    modifies db
    ensures db.Valid()
    ensures (r, db.State()) == CreateTransactionSpec(old(db.State()), t, now)
  {
    ghost var db0 := db.State();
    var stored := db.CreateTransaction(t.(accountId := Some(id)), now);
    ghost var db1 := db.State();
    assert db1 == Inserted(db0, stored);
    var o := AccountService.UpdateAccountBalance(db, id, t.amount, t.kind == Income, now);
    assert o.Pass? by {
      assert db1.accounts == db0.accounts;
    }
    r := Ok(stored);
    CreateTransactionStored(db0, t, now, id);
  }

  /** The database after the insert of a booking, before its balance update. */
  function Inserted(db: Db, stored: Transaction): (r: Db)
    ensures r.accounts == db.accounts && r.currencies == db.currencies && r.nextAccountId == db.nextAccountId
    ensures r.transactions == db.transactions + [stored]
  {
    db.(transactions := db.transactions + [stored], nextTransactionId := db.nextTransactionId + 1)
  }

  /** The specification of a booking that passes every check, spelled out. */
  lemma CreateTransactionStored(db: Db, t: Transaction, now: int, id: int)
    requires AccountsValid(db.accounts, db.nextAccountId, db.currencies)
    requires BookedAccount(db.accounts, t) == Ok(id)
    requires GetCategoryByID(db.categories, t.categoryId).Some? && GetCategoryByID(db.categories, t.categoryId).value.kind == t.kind
    ensures var stored := t.(accountId := Some(id), id := db.nextTransactionId, createdAt := now);
      CreateTransactionSpec(db, t, now)
      == (Ok(stored), AccountService.UpdateBalanceSpec(Inserted(db, stored), id, t.amount, t.kind == Income, now).1)
  {
  }

  // ---------------------------------------------------------------------
  // GetTransactionSummary

  /** The accumulator loop of the summary over `ts`: income sums type
      "income", expense sums every other type. */
  method Summarize(ts: seq<Transaction>, start: Date, end: Date) returns (s: TransactionSummary)
    ensures s.totalIncome == SumOfKind(ts, Income)
    ensures s.totalExpense == SumNotOfKind(ts, Income)
    ensures s.netAmount == s.totalIncome - s.totalExpense
    ensures s.transactionCount == |ts|
    ensures s.periodStart == FormatDate(start) && s.periodEnd == FormatDate(end)
  {
    var income, expense := 0.0, 0.0;
    var i := 0;
    while i < |ts|
      invariant 0 <= i <= |ts|
      invariant income == SumOfKind(ts[..i], Income)
      invariant expense == SumNotOfKind(ts[..i], Income)
    {
      assert ts[..i + 1][..i] == ts[..i];
      if ts[i].kind == Income {
        income := income + ts[i].amount;
      } else {
        expense := expense + ts[i].amount;
      }
      i := i + 1;
    }
    assert ts[..i] == ts;
    s := TransactionSummary(income, expense, income - expense, |ts|, FormatDate(start), FormatDate(end));
  }

  /** The user's summary over the period, both bounds included. */
  method GetTransactionSummary(db: Store, userId: int, start: Date, end: Date) returns (s: TransactionSummary)
    ensures s.totalIncome == SumOfKind(GetTransactionsByPeriod(db.transactions, userId, start, end), Income)
    ensures s.totalExpense == SumNotOfKind(GetTransactionsByPeriod(db.transactions, userId, start, end), Income)
    ensures s.netAmount == s.totalIncome - s.totalExpense
    ensures s.transactionCount == |GetTransactionsByPeriod(db.transactions, userId, start, end)|
    ensures s.periodStart == FormatDate(start) && s.periodEnd == FormatDate(end)
  {
    var ts := GetTransactionsByPeriod(db.transactions, userId, start, end);
    s := Summarize(ts, start, end);
  }

  lemma {:induction false} SumOfKindAppend(a: seq<Transaction>, b: seq<Transaction>, kind: string)
    ensures SumOfKind(a + b, kind) == SumOfKind(a, kind) + SumOfKind(b, kind)
    ensures SumNotOfKind(a + b, kind) == SumNotOfKind(a, kind) + SumNotOfKind(b, kind)
    decreases |b|
  {
    if b == [] {
      assert a + b == a;
    } else {
      var c := b[..|b| - 1];
      assert (a + b)[..|a + b| - 1] == a + c;
      SumOfKindAppend(a, c, kind);
    }
  }

  /** Taking one row out of `b` takes its share out of both totals. */
  lemma SumsSplit(b: seq<Transaction>, j: int, kind: string)
    requires 0 <= j < |b|
    ensures SumOfKind(b, kind) == SumOfKind(b[..j] + b[j + 1..], kind) + SumOfKind([b[j]], kind)
    ensures SumNotOfKind(b, kind) == SumNotOfKind(b[..j] + b[j + 1..], kind) + SumNotOfKind([b[j]], kind)
  {
    var b1, b2 := b[..j], b[j + 1..];
    assert b == (b1 + [b[j]]) + b2;
    SumOfKindAppend(b1 + [b[j]], b2, kind);
    SumOfKindAppend(b1, [b[j]], kind);
    SumOfKindAppend(b1, b2, kind);
  }

  /** The totals do not depend on the order of the rows. */
  lemma {:induction false} SumsOrderFree(a: seq<Transaction>, b: seq<Transaction>, kind: string)
    requires multiset(a) == multiset(b)
    ensures SumOfKind(a, kind) == SumOfKind(b, kind)
    ensures SumNotOfKind(a, kind) == SumNotOfKind(b, kind)
    decreases |a|
  {
    if a == [] {
      assert |b| == |multiset(b)| == 0;
    } else {
      var x := a[|a| - 1];
      var rest := a[..|a| - 1];
      assert x in multiset(b) by {
        assert a == rest + [x];
      }
      var j :| 0 <= j < |b| && b[j] == x;
      RemoveLast(a, b, j);
      SumsOrderFree(rest, b[..j] + b[j + 1..], kind);
      SumsSplit(b, j, kind);
      SumsSplit(a, |a| - 1, kind);
      assert a[..|a| - 1] + a[|a|..] == rest;
    }
  }

  lemma RemoveLast<T>(a: seq<T>, b: seq<T>, j: int)
    requires multiset(a) == multiset(b) && a != [] && 0 <= j < |b| && b[j] == a[|a| - 1]
    ensures multiset(a[..|a| - 1]) == multiset(b[..j] + b[j + 1..])
  {
    var x, rest, b1, b2 := b[j], a[..|a| - 1], b[..j], b[j + 1..];
    assert a == rest + [x];
    assert b == b1 + [x] + b2;
    assert multiset(b) == multiset(b1 + b2) + multiset{x} by {
      assert multiset(b) == multiset(b1) + multiset{x} + multiset(b2);
    }
    assert multiset(rest) == multiset(a) - multiset{x};
  }

  /** The service's summary of a user's period equals the summary of the
      matching rows in table order. */
  lemma SummaryOfPeriodRows(transactions: seq<Transaction>, userId: int, start: Date, end: Date)
    ensures var sorted := GetTransactionsByPeriod(transactions, userId, start, end);
      var rows := UserPeriod(transactions, userId, start, end);
      SumOfKind(sorted, Income) == SumOfKind(rows, Income)
      && SumNotOfKind(sorted, Income) == SumNotOfKind(rows, Income)
      && |sorted| == |rows|
  {
    var sorted := GetTransactionsByPeriod(transactions, userId, start, end);
    var rows := UserPeriod(transactions, userId, start, end);
    SumsOrderFree(sorted, rows, Income);
    assert |multiset(sorted)| == |multiset(rows)|;
  }

  /** Where every row is income or expense, the service's expense total
      (every non-income row) equals the repository's (type 'expense' only). */
  lemma {:induction false} ExpenseTotalsAgree(ts: seq<Transaction>)
    requires forall i :: 0 <= i < |ts| ==> ts[i].kind == Income || ts[i].kind == Expense
    ensures SumNotOfKind(ts, Income) == SumOfKind(ts, Expense)
    decreases |ts|
  {
    if ts != [] {
      var rest := ts[..|ts| - 1];
      assert forall i :: 0 <= i < |rest| ==> rest[i] == ts[i];
      ExpenseTotalsAgree(rest);
    }
  }

  /** A row of any other type counts as expense in the service's summary
      and in neither total of the repository's. */
  lemma OtherKindTotalsDiffer(t: Transaction)
    requires t.kind != Income && t.kind != Expense && t.amount != 0.0
    ensures SumNotOfKind([t], Income) != SumOfKind([t], Expense)
  {
    assert [t][..0] == [];
  }

  // ---------------------------------------------------------------------
  // GetTransactionsByCategory

  /** Whether a category row with this id exists (the lookup by id does not
      look at the owner). */
  predicate Known(categories: seq<Category>, id: int) {
    GetCategoryByID(categories, id).Some?
  }

  /** Sum of the amounts of the rows of category `id`. */
  function CategoryTotal(ts: seq<Transaction>, id: int): real {
    if ts == [] then 0.0
    else CategoryTotal(ts[..|ts| - 1], id) + (if ts[|ts| - 1].categoryId == id then ts[|ts| - 1].amount else 0.0)
  }

  /** Number of the rows of category `id`. */
  function CategoryCount(ts: seq<Transaction>, id: int): nat {
    if ts == [] then 0
    else CategoryCount(ts[..|ts| - 1], id) + (if ts[|ts| - 1].categoryId == id then 1 else 0)
  }

  /** Sum of the income rows whose category exists. */
  function KnownIncome(categories: seq<Category>, ts: seq<Transaction>): real {
    if ts == [] then 0.0
    else
      var t := ts[|ts| - 1];
      KnownIncome(categories, ts[..|ts| - 1]) + (if Known(categories, t.categoryId) && t.kind == Income then t.amount else 0.0)
  }

  /** Sum of the rows of any other type whose category exists. */
  function KnownExpense(categories: seq<Category>, ts: seq<Transaction>): real {
    if ts == [] then 0.0
    else
      var t := ts[|ts| - 1];
      KnownExpense(categories, ts[..|ts| - 1]) + (if Known(categories, t.categoryId) && t.kind != Income then t.amount else 0.0)
  }

  /** A category's share of its type's total, in percent; zero when that
      total is not positive. */
  function Percentage(amount: real, total: real): real {
    if total > 0.0 then amount / total * 100.0 else 0.0
  }

  /** One line of the breakdown of `ts`: the name and type of an existing
      category, its rows' total and count, and its share of the total of
      its type (income for an income category, everything else otherwise). */
  ghost predicate Entry(e: CategorySummary, categories: seq<Category>, ts: seq<Transaction>) {
    && Known(categories, e.categoryId)
    && e.categoryName == GetCategoryByID(categories, e.categoryId).value.name
    && e.kind == GetCategoryByID(categories, e.categoryId).value.kind
    && e.totalAmount == CategoryTotal(ts, e.categoryId)
    && e.count == CategoryCount(ts, e.categoryId)
    && e.percentage == Percentage(e.totalAmount, if e.kind == Income then KnownIncome(categories, ts) else KnownExpense(categories, ts))
  }

  /** The running entry of category `id` after the rows `ts`, before the
      percentages are filled in. */
  ghost predicate Tallied(e: CategorySummary, id: int, categories: seq<Category>, ts: seq<Transaction>) {
    && Known(categories, id)
    && e == CategorySummary(id, GetCategoryByID(categories, id).value.name, GetCategoryByID(categories, id).value.kind,
                            CategoryTotal(ts, id), CategoryCount(ts, id), 0.0)
  }

  /** `keys` lists the keys of `m`, each once, in insertion order. */
  ghost predicate Indexed(m: map<int, CategorySummary>, keys: seq<int>) {
    && (forall id :: id in m <==> id in keys)
    && (forall a, b :: 0 <= a < b < |keys| ==> keys[a] != keys[b])
  }

  lemma IndexedKeys(m: map<int, CategorySummary>, keys: seq<int>)
    requires Indexed(m, keys)
    ensures forall k :: 0 <= k < |keys| ==> keys[k] in m
  {
    forall k | 0 <= k < |keys| ensures keys[k] in m {
      assert keys[k] in keys;
    }
  }

  function Fresh(c: Category): CategorySummary {
    CategorySummary(c.id, c.name, c.kind, 0.0, 0, 0.0)
  }

  lemma CategoryFound(categories: seq<Category>, c: Category)
    requires CategoriesValid(categories) && c in categories
    ensures GetCategoryByID(categories, c.id) == Some(c)
  {
    var k :| 0 <= k < |categories| && categories[k] == c;
    var found := GetCategoryByID(categories, c.id).value;
    var l :| 0 <= l < |categories| && categories[l] == found;
    assert k == l;
  }

  lemma {:induction false} NoRowsNoTotal(ts: seq<Transaction>, id: int)
    requires forall k :: 0 <= k < |ts| ==> ts[k].categoryId != id
    ensures CategoryTotal(ts, id) == 0.0 && CategoryCount(ts, id) == 0
    decreases |ts|
  {
    if ts != [] {
      NoRowsNoTotal(ts[..|ts| - 1], id);
    }
  }

  /** Every key of `m` is a category a visible row of `visible` has, or one
      of a counted row among the first `n` of `ts`, and the other way round. */
  ghost predicate Reached(m: map<int, CategorySummary>, m0: map<int, CategorySummary>,
                          categories: seq<Category>, ts: seq<Transaction>, n: int)
    requires 0 <= n <= |ts|
  {
    forall id :: id in m <==> id in m0 || exists k :: 0 <= k < n && Known(categories, ts[k].categoryId) && ts[k].categoryId == id
  }

  /** The entries of `m` tally the rows `prefix`. */
  ghost predicate TalliedAll(m: map<int, CategorySummary>, categories: seq<Category>, prefix: seq<Transaction>) {
    forall id :: id in m ==> Tallied(m[id], id, categories, prefix)
  }

  /** The breakdown the service returns for the rows `ts` of a user. */
  ghost predicate Breakdown(result: seq<CategorySummary>, categories: seq<Category>, userId: int, ts: seq<Transaction>) {
    EntriesCorrect(result, categories, ts) && EntriesCover(result, categories, userId, ts)
  }

  /** Every entry is right, and no category has two. */
  ghost predicate EntriesCorrect(result: seq<CategorySummary>, categories: seq<Category>, ts: seq<Transaction>) {
    && (forall k :: 0 <= k < |result| ==> Entry(result[k], categories, ts))
    && (forall k1, k2 :: 0 <= k1 < k2 < |result| ==> result[k1].categoryId != result[k2].categoryId)
  }

  /** Every category the user sees and every existing category of a row has
      an entry, and every entry is of one of those. */
  ghost predicate EntriesCover(result: seq<CategorySummary>, categories: seq<Category>, userId: int, ts: seq<Transaction>) {
    && (forall i :: 0 <= i < |categories| && Visible(categories[i], userId) ==>
          exists k :: 0 <= k < |result| && result[k].categoryId == categories[i].id)
    && (forall i :: 0 <= i < |ts| && Known(categories, ts[i].categoryId) ==>
          exists k :: 0 <= k < |result| && result[k].categoryId == ts[i].categoryId)
    && (forall k :: 0 <= k < |result| ==>
          FromSource(result[k].categoryId, categories, userId, ts))
  }

  /** A category the user sees, or the category of one of the rows. */
  ghost predicate FromSource(id: int, categories: seq<Category>, userId: int, ts: seq<Transaction>) {
    || (exists i :: 0 <= i < |categories| && Visible(categories[i], userId) && categories[i].id == id)
    || (exists i :: 0 <= i < |ts| && ts[i].categoryId == id)
  }

  /** An entry with its percentage filled in from the type totals. */
  function Finished(e: CategorySummary, income: real, expense: real): CategorySummary {
    var total := if e.kind == Income then income else expense;
    if total > 0.0 then e.(percentage := e.totalAmount / total * 100.0) else e
  }

  /** The preload: one empty entry per category the user sees. */
  method Preload(categories: seq<Category>, visible: seq<Category>) returns (m: map<int, CategorySummary>, keys: seq<int>)
    requires CategoriesValid(categories)
    requires forall k :: 0 <= k < |visible| ==> visible[k] in categories
    ensures Indexed(m, keys) && TalliedAll(m, categories, [])
    ensures forall id :: id in m <==> exists k :: 0 <= k < |visible| && visible[k].id == id
  {
    m, keys := map[], [];
    var j := 0;
    while j < |visible|
      invariant 0 <= j <= |visible|
      invariant Indexed(m, keys) && TalliedAll(m, categories, [])
      invariant forall id :: id in m <==> exists k :: 0 <= k < j && visible[k].id == id
    {
      var c := visible[j];
      CategoryFound(categories, c);
      if c.id !in m {
        keys := keys + [c.id];
      }
      m := m[c.id := Fresh(c)];
      j := j + 1;
    }
  }

  /** The pass over the rows: a row of a category without an entry gets one
      if the category exists and is skipped otherwise; a counted row adds
      to its entry and to the income or the expense total. */
  method TallyRows(categories: seq<Category>, ts: seq<Transaction>, m0: map<int, CategorySummary>, keys0: seq<int>)
    returns (m: map<int, CategorySummary>, keys: seq<int>, income: real, expense: real)
    requires Indexed(m0, keys0) && TalliedAll(m0, categories, [])
    ensures Indexed(m, keys) && TalliedAll(m, categories, ts) && Reached(m, m0, categories, ts, |ts|)
    ensures income == KnownIncome(categories, ts) && expense == KnownExpense(categories, ts)
  {
    m, keys, income, expense := m0, keys0, 0.0, 0.0;
    var i := 0;
    while i < |ts|
      invariant 0 <= i <= |ts|
      invariant Indexed(m, keys) && TalliedAll(m, categories, ts[..i]) && Reached(m, m0, categories, ts, i)
      invariant income == KnownIncome(categories, ts[..i]) && expense == KnownExpense(categories, ts[..i])
    {
      m, keys, income, expense := TallyRow(categories, ts, i, m0, m, keys, income, expense);
      i := i + 1;
    }
    assert ts[..i] == ts;
  }

  /** How the running figures grow by the row `ts[i]`. */
  lemma TallyExtend(categories: seq<Category>, ts: seq<Transaction>, i: int)
    requires 0 <= i < |ts|
    ensures forall id {:trigger CategoryTotal(ts[..i + 1], id)} ::
      CategoryTotal(ts[..i + 1], id) == CategoryTotal(ts[..i], id) + (if ts[i].categoryId == id then ts[i].amount else 0.0)
    ensures forall id {:trigger CategoryCount(ts[..i + 1], id)} ::
      CategoryCount(ts[..i + 1], id) == CategoryCount(ts[..i], id) + (if ts[i].categoryId == id then 1 else 0)
    ensures KnownIncome(categories, ts[..i + 1])
      == KnownIncome(categories, ts[..i]) + (if Known(categories, ts[i].categoryId) && ts[i].kind == Income then ts[i].amount else 0.0)
    ensures KnownExpense(categories, ts[..i + 1])
      == KnownExpense(categories, ts[..i]) + (if Known(categories, ts[i].categoryId) && ts[i].kind != Income then ts[i].amount else 0.0)
  {
    assert ts[..i + 1][..i] == ts[..i];
  }

  /** One row of the pass. */
  method TallyRow(categories: seq<Category>, ts: seq<Transaction>, i: int, m0: map<int, CategorySummary>,
                  m: map<int, CategorySummary>, keys: seq<int>, income: real, expense: real)
    returns (m': map<int, CategorySummary>, keys': seq<int>, income': real, expense': real)
    requires 0 <= i < |ts|
    requires Indexed(m, keys) && TalliedAll(m, categories, ts[..i]) && Reached(m, m0, categories, ts, i)
    requires income == KnownIncome(categories, ts[..i]) && expense == KnownExpense(categories, ts[..i])
    ensures Indexed(m', keys') && TalliedAll(m', categories, ts[..i + 1]) && Reached(m', m0, categories, ts, i + 1)
    ensures income' == KnownIncome(categories, ts[..i + 1]) && expense' == KnownExpense(categories, ts[..i + 1])
  {
    var t := ts[i];
    TallyExtend(categories, ts, i);
    var entries, listed := m, keys;
    if t.categoryId !in entries {
      var category := GetCategoryByID(categories, t.categoryId);
      if category.None? {
        RowSkipped(m, m0, categories, ts, i);
        return m, keys, income, expense;
      }
      entries := entries[t.categoryId := CategorySummary(t.categoryId, category.value.name, category.value.kind, 0.0, 0, 0.0)];
      EntryOpened(m, m0, entries, categories, ts, i);
      listed := listed + [t.categoryId];
    }
    var e := entries[t.categoryId];
    m' := entries[t.categoryId := e.(totalAmount := e.totalAmount + t.amount, count := e.count + 1)];
    keys' := listed;
    RowCounted(m, m0, entries, m', categories, ts, i);
    if t.kind == Income {
      income', expense' := income + t.amount, expense;
    } else {
      income', expense' := income, expense + t.amount;
    }
  }

  /** A row whose category does not exist changes no entry. */
  lemma RowSkipped(m: map<int, CategorySummary>, m0: map<int, CategorySummary>,
                   categories: seq<Category>, ts: seq<Transaction>, i: int)
    requires 0 <= i < |ts| && !Known(categories, ts[i].categoryId) && ts[i].categoryId !in m
    requires TalliedAll(m, categories, ts[..i]) && Reached(m, m0, categories, ts, i)
    ensures TalliedAll(m, categories, ts[..i + 1]) && Reached(m, m0, categories, ts, i + 1)
  {
    TallyExtend(categories, ts, i);
    forall id | id in m ensures Tallied(m[id], id, categories, ts[..i + 1]) {
      assert Tallied(m[id], id, categories, ts[..i]);
    }
  }

  /** The entry a row opens for a category seen for the first time starts
      at zero, which is the tally of the earlier rows. */
  lemma EntryOpened(m: map<int, CategorySummary>, m0: map<int, CategorySummary>, entries: map<int, CategorySummary>,
                    categories: seq<Category>, ts: seq<Transaction>, i: int)
    requires 0 <= i < |ts| && Known(categories, ts[i].categoryId) && ts[i].categoryId !in m
    requires TalliedAll(m, categories, ts[..i]) && Reached(m, m0, categories, ts, i)
    requires entries == m[ts[i].categoryId := CategorySummary(ts[i].categoryId,
      GetCategoryByID(categories, ts[i].categoryId).value.name, GetCategoryByID(categories, ts[i].categoryId).value.kind, 0.0, 0, 0.0)]
    ensures TalliedAll(entries, categories, ts[..i])
  {
    var id := ts[i].categoryId;
    assert forall k :: 0 <= k < i ==> ts[..i][k].categoryId != id;
    NoRowsNoTotal(ts[..i], id);
  }

  /** A counted row adds to its own entry and to no other. */
  lemma RowCounted(m: map<int, CategorySummary>, m0: map<int, CategorySummary>, entries: map<int, CategorySummary>,
                   m': map<int, CategorySummary>, categories: seq<Category>, ts: seq<Transaction>, i: int)
    requires 0 <= i < |ts| && Known(categories, ts[i].categoryId)
    requires TalliedAll(entries, categories, ts[..i]) && Reached(m, m0, categories, ts, i)
    requires entries.Keys == m.Keys + {ts[i].categoryId}
    requires m' == entries[ts[i].categoryId := entries[ts[i].categoryId].(
      totalAmount := entries[ts[i].categoryId].totalAmount + ts[i].amount, count := entries[ts[i].categoryId].count + 1)]
    ensures TalliedAll(m', categories, ts[..i + 1]) && Reached(m', m0, categories, ts, i + 1)
  {
    TallyExtend(categories, ts, i);
    forall id | id in m' ensures Tallied(m'[id], id, categories, ts[..i + 1]) {
      assert Tallied(entries[id], id, categories, ts[..i]);
      if id == ts[i].categoryId {
        assert CategoryTotal(ts[..i + 1], id) == CategoryTotal(ts[..i], id) + ts[i].amount;
      } else {
        assert m'[id] == entries[id];
      }
    }
    ReachedGrows(m, m0, m', categories, ts, i);
  }

  lemma ReachedGrows(m: map<int, CategorySummary>, m0: map<int, CategorySummary>, m': map<int, CategorySummary>,
                     categories: seq<Category>, ts: seq<Transaction>, i: int)
    requires 0 <= i < |ts| && Known(categories, ts[i].categoryId)
    requires Reached(m, m0, categories, ts, i) && m'.Keys == m.Keys + {ts[i].categoryId}
    ensures Reached(m', m0, categories, ts, i + 1)
  {
    forall id ensures id in m' <==> id in m0 || exists k :: 0 <= k < i + 1 && Known(categories, ts[k].categoryId) && ts[k].categoryId == id {
      if id == ts[i].categoryId {
        assert id in m';
      }
    }
  }

  /** The closing pass over the entries: each takes its share of the total
      of its type when that total is positive. */
  method Percentages(m: map<int, CategorySummary>, keys: seq<int>, income: real, expense: real) returns (result: seq<CategorySummary>)
    requires forall k :: 0 <= k < |keys| ==> keys[k] in m
    ensures |result| == |keys|
    ensures forall k :: 0 <= k < |keys| ==> result[k] == Finished(m[keys[k]], income, expense)
  {
    result := [];
    var k := 0;
    while k < |keys|
      invariant 0 <= k <= |keys| && |result| == k
      invariant forall q :: 0 <= q < k ==> result[q] == Finished(m[keys[q]], income, expense)
    {
      var summary := m[keys[k]];
      var total := if summary.kind == Income then income else expense;
      if total > 0.0 {
        summary := summary.(percentage := summary.totalAmount / total * 100.0);
      }
      result := result + [summary];
      k := k + 1;
    }
  }

  /** The user's spending and earning by category over the period: one
      entry per category the user sees and per existing category of a row
      of the period, none twice; rows whose category does not exist are
      left out of every figure. The order of the entries is not specified. */
  method GetTransactionsByCategory(db: Store, userId: int, start: Date, end: Date) returns (result: seq<CategorySummary>)
    requires db.Valid()
    ensures Breakdown(result, db.categories, userId, GetTransactionsByPeriod(db.transactions, userId, start, end))
  {
    var ts := GetTransactionsByPeriod(db.transactions, userId, start, end);
    var visible := GetCategoriesByUserID(db.categories, userId);
    var m0, keys0 := Preload(db.categories, visible);
    var m, keys, income, expense := TallyRows(db.categories, ts, m0, keys0);
    IndexedKeys(m, keys);
    result := Percentages(m, keys, income, expense);
    EntriesAreCorrect(db.categories, ts, m, keys, result);
    EntriesAreCovering(db.categories, userId, visible, ts, m0, m, keys, result);
  }

  lemma EntriesAreCorrect(categories: seq<Category>, ts: seq<Transaction>,
                          m: map<int, CategorySummary>, keys: seq<int>, result: seq<CategorySummary>)
    requires Indexed(m, keys) && TalliedAll(m, categories, ts)
    requires |result| == |keys|
    requires forall k :: 0 <= k < |keys| ==> keys[k] in m
    requires forall k :: 0 <= k < |keys| ==> result[k] == Finished(m[keys[k]], KnownIncome(categories, ts), KnownExpense(categories, ts))
    ensures EntriesCorrect(result, categories, ts)
    ensures forall k :: 0 <= k < |keys| ==> result[k].categoryId == keys[k]
  {
    forall k | 0 <= k < |result| ensures Entry(result[k], categories, ts) && result[k].categoryId == keys[k] {
      assert Tallied(m[keys[k]], keys[k], categories, ts);
    }
  }

  lemma EntriesAreCovering(categories: seq<Category>, userId: int, visible: seq<Category>, ts: seq<Transaction>,
                           m0: map<int, CategorySummary>, m: map<int, CategorySummary>, keys: seq<int>,
                           result: seq<CategorySummary>)
    requires forall k :: 0 <= k < |visible| ==> visible[k] in categories && Visible(visible[k], userId)
    requires forall i :: 0 <= i < |categories| && Visible(categories[i], userId) ==> categories[i] in visible
    requires forall id :: id in m0 <==> exists k :: 0 <= k < |visible| && visible[k].id == id
    requires Indexed(m, keys) && Reached(m, m0, categories, ts, |ts|)
    requires |result| == |keys|
    requires forall k :: 0 <= k < |keys| ==> result[k].categoryId == keys[k]
    ensures EntriesCover(result, categories, userId, ts)
  {
    forall i | 0 <= i < |categories| && Visible(categories[i], userId)
      ensures exists k :: 0 <= k < |result| && result[k].categoryId == categories[i].id
    {
      var v :| 0 <= v < |visible| && visible[v] == categories[i];
      assert categories[i].id in m0;
      var k :| 0 <= k < |keys| && keys[k] == categories[i].id;
      assert result[k].categoryId == categories[i].id;
    }
    forall i | 0 <= i < |ts| && Known(categories, ts[i].categoryId)
      ensures exists k :: 0 <= k < |result| && result[k].categoryId == ts[i].categoryId
    {
      assert ts[i].categoryId in m;
      var k :| 0 <= k < |keys| && keys[k] == ts[i].categoryId;
      assert result[k].categoryId == ts[i].categoryId;
    }
    EntriesReached(categories, userId, visible, ts, m0, m, keys, result);
  }

  lemma EntriesReached(categories: seq<Category>, userId: int, visible: seq<Category>, ts: seq<Transaction>,
                       m0: map<int, CategorySummary>, m: map<int, CategorySummary>, keys: seq<int>,
                       result: seq<CategorySummary>)
    requires forall k :: 0 <= k < |visible| ==> visible[k] in categories && Visible(visible[k], userId)
    requires forall id :: id in m0 <==> exists k :: 0 <= k < |visible| && visible[k].id == id
    requires Indexed(m, keys) && Reached(m, m0, categories, ts, |ts|)
    requires |result| == |keys|
    requires forall k :: 0 <= k < |keys| ==> result[k].categoryId == keys[k]
    ensures forall k :: 0 <= k < |result| ==> FromSource(result[k].categoryId, categories, userId, ts)
  {
    forall k | 0 <= k < |result| ensures FromSource(result[k].categoryId, categories, userId, ts) {
      assert keys[k] in keys;
      if keys[k] in m0 {
        var v :| 0 <= v < |visible| && visible[v].id == keys[k];
        var i :| 0 <= i < |categories| && categories[i] == visible[v];
        assert 0 <= i < |categories| && Visible(categories[i], userId) && categories[i].id == result[k].categoryId;
      } else {
        var i :| 0 <= i < |ts| && Known(categories, ts[i].categoryId) && ts[i].categoryId == keys[k];
        assert 0 <= i < |ts| && ts[i].categoryId == result[k].categoryId;
      }
    }
  }

  /** Rows whose type agrees with the type of their category, as every row
      booked through CreateTransaction does. */
  ghost predicate WellTyped(categories: seq<Category>, ts: seq<Transaction>) {
    forall k :: 0 <= k < |ts| && Known(categories, ts[k].categoryId) ==>
      (ts[k].kind == Income <==> GetCategoryByID(categories, ts[k].categoryId).value.kind == Income)
  }

  /** With non-negative amounts and well-typed rows, a category's total is
      part of the total of its type. */
  lemma {:induction false} CategoryWithinType(categories: seq<Category>, ts: seq<Transaction>, id: int)
    requires Known(categories, id) && WellTyped(categories, ts)
    requires forall k :: 0 <= k < |ts| ==> ts[k].amount >= 0.0
    ensures 0.0 <= CategoryTotal(ts, id)
    ensures CategoryTotal(ts, id) <= if GetCategoryByID(categories, id).value.kind == Income
                                     then KnownIncome(categories, ts) else KnownExpense(categories, ts)
    decreases |ts|
  {
    if ts != [] {
      var rest := ts[..|ts| - 1];
      assert forall k :: 0 <= k < |rest| ==> rest[k] == ts[k];
      CategoryWithinType(categories, rest, id);
      assert KnownIncome(categories, rest) <= KnownIncome(categories, ts);
      assert KnownExpense(categories, rest) <= KnownExpense(categories, ts);
    }
  }

  lemma ShareBounded(amount: real, total: real)
    requires 0.0 <= amount <= total
    ensures 0.0 <= Percentage(amount, total) <= 100.0
  {
    if total > 0.0 {
      var q := amount / total;
      assert q * total == amount;
      assert (1.0 - q) * total == total - amount;
      assert q <= 1.0;
    }
  }

  /** Under the same conditions every percentage of the breakdown lies
      between 0 and 100. */
  lemma EntryShareBounded(e: CategorySummary, categories: seq<Category>, ts: seq<Transaction>)
    requires Entry(e, categories, ts) && WellTyped(categories, ts)
    requires forall k :: 0 <= k < |ts| ==> ts[k].amount >= 0.0
    ensures 0.0 <= e.percentage <= 100.0
  {
    CategoryWithinType(categories, ts, e.categoryId);
    ShareBounded(e.totalAmount, if e.kind == Income then KnownIncome(categories, ts) else KnownExpense(categories, ts));
  }

  // ---------------------------------------------------------------------
  // GetMonthlySummary

  /** The entry for month `m` of `year`: labelled "YYYY-MM", with the
      income, the expense and their difference over the user's
      transactions from the first to the last day of the month. */
  function MonthOf(txs: seq<Transaction>, userId: int, year: int, m: int): (e: MonthlySummary)
    requires 1 <= m <= 12
    ensures e.month == FormatYearMonth(year, m) && e.netAmount == e.totalIncome - e.totalExpense
  {
    var rows := GetTransactionsByPeriod(txs, userId, FirstOfMonth(year, m), LastOfMonth(year, m));
    var income, expense := SumOfKind(rows, Income), SumNotOfKind(rows, Income);
    MonthlySummary(FormatYearMonth(year, m), income, expense, income - expense)
  }

  /** Entry `k` is the one for month `k + 1`. */
  ghost predicate Entries(result: seq<MonthlySummary>, txs: seq<Transaction>, userId: int, year: int)
    requires |result| <= 12
  {
    forall k :: 0 <= k < |result| ==> result[k] == MonthOf(txs, userId, year, k + 1)
  }

  lemma EntriesSnoc(result: seq<MonthlySummary>, entry: MonthlySummary, txs: seq<Transaction>, userId: int, year: int)
    requires |result| < 12 && Entries(result, txs, userId, year)
    requires entry == MonthOf(txs, userId, year, |result| + 1)
    ensures Entries(result + [entry], txs, userId, year)
  {
    var r := result + [entry];
    forall k | 0 <= k < |r| ensures r[k] == MonthOf(txs, userId, year, k + 1) {
      if k < |result| {
        assert r[k] == result[k];
      } else {
        assert k == |result| && r[k] == entry;
      }
    }
  }

  /** Twelve entries, January first, each the summary of its month; the
      labels differ for four-digit years. */
  method GetMonthlySummary(db: Store, userId: int, year: int) returns (result: seq<MonthlySummary>)
    ensures |result| == 12 && Entries(result, db.transactions, userId, year)
    ensures 0 <= year <= 9999 ==> forall k1, k2 :: 0 <= k1 < k2 < 12 ==> result[k1].month != result[k2].month
  {
    ghost var txs := db.transactions;
    result := [];
    var month := 1;
    while month <= 12
      invariant 1 <= month <= 13 && |result| == month - 1
      invariant Entries(result, txs, userId, year)
    {
      var entry := MonthEntry(db, userId, year, month);
      EntriesSnoc(result, entry, txs, userId, year);
      result := result + [entry];
      month := month + 1;
    }
    if 0 <= year <= 9999 {
      EntryLabelsDistinct(result, txs, userId, year);
    }
  }

  /** One step of the month loop: the month's summary, labelled. */
  method MonthEntry(db: Store, userId: int, year: int, month: int) returns (entry: MonthlySummary)
    requires 1 <= month <= 12
    ensures entry == MonthOf(db.transactions, userId, year, month)
  {
    var start := FirstOfMonth(year, month);
    var end := LastOfMonth(year, month);
    var summary := GetTransactionSummary(db, userId, start, end);
    entry := MonthlySummary(FormatYearMonth(year, month), summary.totalIncome, summary.totalExpense, summary.netAmount);
  }

  lemma EntryLabelsDistinct(result: seq<MonthlySummary>, txs: seq<Transaction>, userId: int, year: int)
    requires |result| == 12 && Entries(result, txs, userId, year) && 0 <= year <= 9999
    ensures forall k1, k2 :: 0 <= k1 < k2 < 12 ==> result[k1].month != result[k2].month
  {
    EntriesLabelled(result, txs, userId, year);
    LabelsDistinct(result, year);
  }

  lemma EntriesLabelled(result: seq<MonthlySummary>, txs: seq<Transaction>, userId: int, year: int)
    requires |result| <= 12 && Entries(result, txs, userId, year)
    ensures forall k :: 0 <= k < |result| ==> result[k].month == FormatYearMonth(year, k + 1)
  {
    forall k | 0 <= k < |result| ensures result[k].month == FormatYearMonth(year, k + 1) {
      assert result[k] == MonthOf(txs, userId, year, k + 1);
    }
  }

  lemma LabelsDistinct(result: seq<MonthlySummary>, year: int)
    requires |result| == 12 && 0 <= year <= 9999
    requires forall k :: 0 <= k < 12 ==> result[k].month == FormatYearMonth(year, k + 1)
    ensures forall k1, k2 :: 0 <= k1 < k2 < 12 ==> result[k1].month != result[k2].month
  {
    forall k1, k2 | 0 <= k1 < k2 < 12 ensures result[k1].month != result[k2].month {
      MonthLabelsDistinct(year, k1 + 1, k2 + 1);
    }
  }

  // ---------------------------------------------------------------------
  // The default-account variants: no default account reads as empty

  function DefaultAccountTransactions(db: Db, userId: int): (r: seq<Transaction>)
    ensures GetDefaultAccount(db.accounts, userId).None? ==> r == []
    ensures GetDefaultAccount(db.accounts, userId).Some? ==>
      var id := GetDefaultAccount(db.accounts, userId).value.id;
      && (forall i :: 0 <= i < |r| ==> r[i] in db.transactions && r[i].accountId == Some(id))
      && (forall i :: 0 <= i < |db.transactions| && db.transactions[i].accountId == Some(id) ==> db.transactions[i] in r)
      && multiset(r) == multiset(AccountRows(db.transactions, id))
      && Ordered(r, NewestFirst)
  {
    match GetDefaultAccount(db.accounts, userId)
    case None => []
    case Some(a) => GetTransactionsByAccountID(db.transactions, a.id)
  }

  function DefaultAccountTransactionsByPeriod(db: Db, userId: int, start: Date, end: Date): (r: seq<Transaction>)
    ensures GetDefaultAccount(db.accounts, userId).None? ==> r == []
    ensures GetDefaultAccount(db.accounts, userId).Some? ==>
      var id := GetDefaultAccount(db.accounts, userId).value.id;
      && (forall i :: 0 <= i < |r| ==> r[i] in db.transactions && r[i].accountId == Some(id) && InPeriod(r[i], start, end))
      && (forall i :: (0 <= i < |db.transactions| && db.transactions[i].accountId == Some(id)
                       && InPeriod(db.transactions[i], start, end)) ==> db.transactions[i] in r)
      && multiset(r) == multiset(AccountPeriod(db.transactions, id, start, end))
      && Ordered(r, NewestFirst)
  {
    match GetDefaultAccount(db.accounts, userId)
    case None => []
    case Some(a) => GetTransactionsByAccountIDAndPeriod(db.transactions, a.id, start, end)
  }

  function DefaultAccountSummary(db: Db, userId: int, start: Date, end: Date): (r: TransactionSummary)
    ensures GetDefaultAccount(db.accounts, userId).None? ==> r == EmptySummary
    ensures GetDefaultAccount(db.accounts, userId).Some? ==>
      var rows := AccountPeriod(db.transactions, GetDefaultAccount(db.accounts, userId).value.id, start, end);
      && r.totalIncome == SumOfKind(rows, Income) && r.totalExpense == SumOfKind(rows, Expense)
      && r.netAmount == r.totalIncome - r.totalExpense && r.transactionCount == |rows|
      && r.periodStart == FormatDate(start) && r.periodEnd == FormatDate(end)
  {
    match GetDefaultAccount(db.accounts, userId)
    case None => EmptySummary
    case Some(a) => GetTransactionSummaryByAccountID(db.transactions, a.id, start, end)
  }
}
