# Personal finance tracker: a verified model of its money and rate logic

The tracker is a Go backend with a JavaScript client. Users register and log
in. They keep accounts in several currencies and book income and expense
transactions. They read summaries of those transactions, and convert amounts
between currencies. Stored exchange rates are refreshed from an external
provider.

This project models the backend's core over an in-memory store: the users,
currencies, accounts, exchange rates, categories, transactions and sessions
tables. It also models the pure helpers of the client script. Most Dafny
modules follow one source file; `Calendar`, `Seqs` and `Wrappers` are shared
helpers:

| module | file | models |
|---|---|---|
| `Models` | `models.dfy` | the entities, the service errors, the request types and their binding constraints (`internal/models/models.go`) |
| `Calendar` | `calendar.dfy` | `time.Date` month bounds and the `2006-01-02` / `2006-01` layouts |
| `Seqs` | `seqs.dfy` | the generic query building blocks: first match, `WHERE`, `ORDER BY` (insertion sort), distinct |
| `Repository` | `repository.dfy` | the store: one pure function per query or statement, and the class `Store` whose methods change the tables in place |
| `ExchangeService` | `exchange_service.dfy` | the rate lookup with its refresh and fallback chain, the refresh itself, the rate listing, conversion and the USD balance report |
| `AccountService` | `account_service.dfy` | account creation, default switching and balance updates |
| `TransactionService` | `transaction_service.dfy` | transaction booking and the period, per-category and monthly summaries |
| `UserService` | `user_service.dfy` | registration, login, token validation, logout and picking a default currency |
| `Middleware` | `middleware.dfy` | the Authorization header check and the request context |
| `WebClient` | `web_client.dfy` | `getRate`, `getEquivalents`, the two validators, the password-strength meter and `CacheService` |
| `Wrappers` | `wrappers.dfy` | `Option`, `Result`, `Outcome` |

Each service operation that writes to the store is a method on a `Store`. It is
proved equal to a specification function from the old state to the answer and
the new state: `ensures (r, db.State()) == XSpec(old(db.State()), …)`. The
properties the source promises are lemmas about those functions. The handler
fills in some inputs, and others come from outside the core. These are all
parameters:

- the clock (`now`, in seconds; in milliseconds for the client cache);
- the rate provider's response (`Option<Quotes>`, where `None` is any failure);
- the bcrypt hash and comparison;
- the JWT and its signature check.

Amounts and rates are exact `real`s. Stored rates are positive, so `1/r` is
always defined.

Rate coherence is stated against a "price table" `price: int -> real`, which
gives the value of each currency in a common reference unit. Suppose every
stored rate and every quote agrees with some price table. Then every rate the
lookup returns agrees with it too: direct, reciprocal or pivoted, on the
server and in the client. So does every converted amount and every USD balance.

Where the code and its design description differ, the model follows the code:

- The service's period summary counts every row that is not income as an
  expense. The repository's summary counts only rows of type `expense`. Both
  are modelled, and `TransactionService.OtherKindTotalsDiffer` shows the
  difference.
- A transaction is inserted before its account's balance is updated, as two
  separate writes. In the model the second write cannot fail, because the
  account was checked just before. `TransactionService.Book` proves it.

## Model

| member | source | states |
|---|---|---|
| Models.TransactionKindIsCategoryKind | internal/models/models.go:89-96 | a transaction request that passes binding has a positive amount and a type of either income or expense, so its type is one a category may have |
| Models.AccountFromRequest | internal/handler/account_handler.go:37-46 | the new account belongs to the requesting user and carries the request's currency and initial balance; it is a default exactly when `is_default` was sent as true, so an absent flag reads as false |
| Models.TransactionFromRequest | internal/handler/transaction_handler.go:34-42 | the transaction the handler builds keeps the request's category, optional account, amount, type and parsed date, and belongs to the requesting user |
| Calendar.DaysInMonth | internal/service/transaction_service.go:207 | every month has 28 to 31 days; February has 29 exactly in leap years |
| Calendar.FirstOfMonth | internal/service/transaction_service.go:206 | the first day of a month is day 1 of that year and month, and a valid date |
| Calendar.LastOfMonth | internal/service/transaction_service.go:207 | `AddDate(0, 1, -1)` from the first gives a valid date of the same month that no day of the month comes after |
| Calendar.InMonthRange | internal/service/transaction_service.go:206-207 | a date lies between the first and the last day of a month exactly when it belongs to that month |
| Calendar.FormatYearMonth | internal/service/transaction_service.go:215 | for a four-digit year the label has seven characters with the dash at index 4 |
| Calendar.MonthLabelsDistinct | internal/service/transaction_service.go:215 | two different months of one year get different labels |
| Calendar.MonthFieldValue | internal/service/transaction_service.go:215 | the month field of a label is two digits whose value is the month |
| Calendar.DigitsRoundTrip | internal/service/transaction_service.go:128-129 | reading back the decimal digits a number is formatted with gives the number |
| Repository.GetUserByEmail | internal/repository/postgres.go:69-93 | the user found is a row with that email, read without its default currency (the query does not select that column); none is found exactly when no row has it |
| Repository.GetUserByID | internal/repository/postgres.go:95-119 | the user found is the row with that id, read without its default currency (the query does not select that column); none is found exactly when no row has it |
| Repository.GetCurrencyByID | internal/repository/postgres.go:446-466 | the currency found has that id; none is found exactly when no row has it |
| Repository.GetCurrencyByCode | internal/repository/postgres.go:468-488 | the currency found has that code; none is found exactly when no row has it |
| Repository.GetAllCurrencies | internal/repository/postgres.go:418-444 | a permutation of the table in which every currency precedes every later one in code order |
| Repository.GetAccountsByUserID | internal/repository/postgres.go:510-552 | a permutation of the user's accounts in which every row precedes every later row under `is_default DESC, created_at`, so no default follows a non-default; empty exactly when the user has none |
| Repository.DefaultsFirst | internal/repository/postgres.go:517 | in a list sorted by `is_default DESC, created_at`, no default row follows a row that is not a default |
| Repository.GetAccountByID | internal/repository/postgres.go:554-589 | the account found has that id; none is found exactly when no row has it |
| Repository.GetDefaultAccount | internal/repository/postgres.go:591-626 | the account found is a default account of the user; none is found exactly when the user has no default |
| Repository.GetExchangeRate | internal/repository/postgres.go:668-709 | the row found is for that pair; none is found exactly when no row is for it |
| Repository.GetCategoriesByUserID | internal/repository/postgres.go:140-146 | a permutation of the user's own categories and the shared ones in which every name precedes every later name in code-point order |
| Repository.GetCategoryByID | internal/repository/postgres.go:174-198 | the category found has that id; none is found exactly when no row has it |
| Repository.GetTransactionsByPeriod | internal/repository/postgres.go:288-294 | exactly the user's rows dated from start to end, both included, as a permutation of those rows in which every row is at least as new as every later one |
| Repository.GetTransactionsByAccountID | internal/repository/postgres.go:811-846 | a permutation of the account's rows in which every row is at least as new as every later one |
| Repository.GetTransactionsByAccountIDAndPeriod | internal/repository/postgres.go:848-883 | exactly the account's rows in the period, as a permutation of them in which every row is at least as new as every later one |
| Repository.GetTransactionSummaryByAccountID | internal/repository/postgres.go:885-910 | income sums type `income` and expense sums type `expense` over the account's rows in the period; net is their difference; the count covers every such row; the bounds are formatted as dates |
| Repository.GetSessionByToken | internal/repository/postgres.go:343-366 | a session is found only for that token with an expiry after now, and none exactly when no such row exists |
| Repository.GetAllExchangeRates | internal/repository/postgres.go:711-758 | a permutation of the rates table in which every row precedes every later one by base code, then target code |
| Repository.SetUserCurrency | internal/repository/postgres.go:394-398 | only the row of that user changes, in its default currency and update time |
| Repository.ClearDefaults | internal/repository/postgres.go:636-637 | every account of the user loses its default flag; no other row changes |
| Repository.MarkDefault | internal/repository/postgres.go:643-645 | only the row with both that id and that user becomes default, with a new update time |
| Repository.SetDefaultAccounts | internal/repository/postgres.go:634-646 | afterwards the user's default accounts are exactly those with that id, so there is none for an id the user does not own; the chosen row gets the update time and every other row of the user only loses its default flag; other users' rows are unchanged |
| Repository.SetBalance | internal/repository/postgres.go:628-632 | only the given account changes, in balance and update time |
| Repository.UpsertRate | internal/repository/postgres.go:649-666 | afterwards the pair's row holds the new rate stamped now; an existing row is overwritten in place, otherwise one row is appended; every other row is unchanged |
| Repository.ExchangeRateRequestStorable | internal/models/models.go:171-175 | a rate request that passes binding carries a positive rate, as the upsert requires; for known currencies the upsert it feeds keeps the rates table valid and stores exactly that rate for the pair |
| Repository.UpsertRateValid | internal/repository/postgres.go:653-654 | the upsert keeps the rates table valid: positive rates, known currencies, one row per pair |
| Repository.UpsertRateUnique | internal/repository/postgres.go:653-654 | no pair ever has two rows after an upsert |
| Repository.UpsertRateOther | internal/repository/postgres.go:649-666 | the lookup of every other pair is unchanged |
| Repository.DeleteSessions | internal/repository/postgres.go:368-372 | exactly the sessions with another token remain |
| Repository.DeleteSessionsValid | internal/repository/postgres.go:368-372 | removing sessions keeps the sessions table valid |
| Repository.Store.CreateUser | internal/repository/postgres.go:46-67 | appends the user with the next id, the stored password hash and both timestamps now; nothing else changes |
| Repository.Store.SetUserDefaultCurrency | internal/repository/postgres.go:394-398 | the users table becomes `SetUserCurrency` of the old one; nothing else changes |
| Repository.Store.CreateAccount | internal/repository/postgres.go:491-508 | an unknown currency is a foreign-key error and changes nothing; otherwise the row is appended with the next id and both timestamps now |
| Repository.Store.UpdateAccountBalance | internal/repository/postgres.go:628-632 | the accounts table becomes `SetBalance` of the old one |
| Repository.Store.SetDefaultAccount | internal/repository/postgres.go:634-646 | the accounts table becomes `SetDefaultAccounts` of the old one |
| Repository.Store.CreateOrUpdateExchangeRate | internal/repository/postgres.go:649-666 | an unknown currency on either side is a foreign-key error and changes nothing; otherwise the rates table becomes the upsert of the old one |
| Repository.Store.CreateTransaction | internal/repository/postgres.go:201-220 | appends the row with the next id and creation time now |
| Repository.Store.CreateSession | internal/repository/postgres.go:326-341 | a token already stored is refused with nothing changed; otherwise the session is appended with the next id |
| Repository.Store.DeleteSession | internal/repository/postgres.go:368-372 | the sessions table becomes `DeleteSessions` of the old one |
| ExchangeService.Refresh | internal/service/exchange_service.go:174-246 | fails with "no currencies" exactly when the table is empty, and with "USD not found" exactly when no currency has code USD; a failure writes nothing; only the rates table ever changes |
| ExchangeService.RefreshFails | internal/service/exchange_service.go:181-219 | no currencies, no USD, or a failed provider request each give their own error and leave the store as it was |
| ExchangeService.RefreshPass | internal/service/exchange_service.go:221-245 | with USD found and a response, the refresh succeeds and the rates table becomes the save loop over the currencies in code order |
| ExchangeService.RefreshEffect | internal/service/exchange_service.go:222-243 | after a successful refresh, each non-USD currency the provider quotes has its USD rate set to the quote, stamped now; the lookup of every other pair is unchanged |
| ExchangeService.RefreshPositive | internal/service/exchange_service.go:222-243 | a refresh with positive quotes keeps every stored rate positive |
| ExchangeService.RefreshUsd | internal/service/exchange_service.go:186-192 | the first USD currency in the sorted list is the one the lookup by code finds |
| ExchangeService.StoreQuotesSets | internal/service/exchange_service.go:222-243 | after the save loop, the rate from USD to every quoted non-USD currency is the quote, stamped now |
| ExchangeService.StoreQuotesKeeps | internal/service/exchange_service.go:222-243 | the save loop leaves the lookup of every other pair unchanged: absent codes and USD itself are skipped |
| ExchangeService.StoreQuotesAgree | internal/service/exchange_service.go:222-243 | quotes that agree with a price table keep the rates table agreeing with it |
| ExchangeService.FirstUsd | internal/service/exchange_service.go:186-192 | the scan returns the first currency with code USD, or none |
| ExchangeService.UpdateExchangeRates | internal/service/exchange_service.go:174-246 | answer and new store are those of `Refresh` |
| ExchangeService.SaveQuotes | internal/service/exchange_service.go:222-243 | the rates table becomes the save loop over the given currencies |
| ExchangeService.SaveQuote | internal/service/exchange_service.go:222-242 | a currency other than USD that the provider quotes gets its rate from USD upserted; any other currency changes nothing |
| ExchangeService.Leg | internal/service/exchange_service.go:101-120 | a leg is positive; it is missing exactly when neither the direct nor the opposite row exists |
| ExchangeService.Pivot | internal/service/exchange_service.go:122-133 | the pivoted rate is for the pair, is the product of the two legs, and carries the older of the two legs' times |
| ExchangeService.Fallback | internal/service/exchange_service.go:82-137 | an opposite row gives its reciprocal with its own time; without one, there is no rate exactly when USD is missing or one of the two legs through it is; every rate found is positive and for the pair |
| ExchangeService.FallbackPivot | internal/service/exchange_service.go:95-134 | without an opposite row, a fallback rate is the pivot of the two legs through the USD currency, each leg the direct row or the reciprocal of the opposite one |
| ExchangeService.Resolve | internal/service/exchange_service.go:46-138 | the same currency gives 1 with nothing written; a fresh direct row is returned with nothing written; the store left behind is the old one or the refreshed one; every rate is positive and for the pair; the only error is "rate not available" |
| ExchangeService.ResolveRefreshes | internal/service/exchange_service.go:62-80 | a missing or stale row triggers the refresh; if it fails, nothing is written and a stale row is still the answer; if it succeeds, the refreshed row is the answer; a pair with no row goes to the fallbacks on the final table |
| ExchangeService.ResolveSource | internal/service/exchange_service.go:46-138 | every rate found is the identity, a stored row before or after the refresh, or a fallback on the final table |
| ExchangeService.ResolveAgrees | internal/service/exchange_service.go:46-138 | if the rates and quotes agree with a price table, so does every rate the lookup returns, and so does the table it leaves behind |
| ExchangeService.GetExchangeRate | internal/service/exchange_service.go:46-138 | answer and new store are those of `Resolve` |
| ExchangeService.FallbackAgrees | internal/service/exchange_service.go:82-137 | reciprocal and pivoted rates agree with every price table the stored rates agree with |
| ExchangeService.ReverseAgrees | internal/service/exchange_service.go:83-92 | the reciprocal of an opposite row is always found, and agrees with the price table |
| ExchangeService.LegAgrees | internal/service/exchange_service.go:101-120 | a leg, direct or reciprocal, agrees with the price table |
| ExchangeService.PivotAgrees | internal/service/exchange_service.go:122-133 | the product of two agreeing legs through USD agrees with the price table |
| ExchangeService.RefreshAgrees | internal/service/exchange_service.go:174-246 | a refresh with agreeing quotes keeps the rates table agreeing |
| ExchangeService.AllRates | internal/service/exchange_service.go:140-172 | the listing is a permutation of the final table in which every row precedes every later one in code order; an empty table or one holding a stale row is refreshed first, and the store left behind is the refreshed one; a non-empty table holding only fresh rows is left as it was; the only error, "no rates available", arises exactly when the table was empty and the refresh failed |
| ExchangeService.HasStale | internal/service/exchange_service.go:147-155 | the scan finds a stale row exactly when one exists |
| ExchangeService.GetAllExchangeRates | internal/service/exchange_service.go:140-172 | answer and new store are those of `AllRates` |
| ExchangeService.AllRatesAgree | internal/service/exchange_service.go:140-172 | every listed rate agrees with the price table, and so does the table left behind |
| ExchangeService.Convert | internal/service/exchange_service.go:248-281 | a missing source or target account gives its own error, checked in that order; accounts in one currency give the amount unchanged with nothing written; otherwise the store is the one the rate lookup leaves, the conversion succeeds exactly when the lookup does, and the result is the amount times the rate found; the only other error is "rate not available" |
| ExchangeService.ConvertRequestPositive | internal/models/models.go:183-187 | a currency conversion request that passes binding has a positive amount, so amount times any rate the lookup finds is positive |
| ExchangeService.ConvertAccountsPositive | internal/models/models.go:177-181 | an account conversion request that passes binding converts to a positive amount whenever the conversion succeeds |
| ExchangeService.ConvertScaled | internal/service/exchange_service.go:248-281 | a successful conversion scales the amount by a positive rate: 1 within one currency, otherwise the rate the lookup found |
| ExchangeService.ConvertAgrees | internal/service/exchange_service.go:248-281 | a converted amount is worth, at the price table, what the amount was worth in the source currency |
| ExchangeService.ConvertAmount | internal/service/exchange_service.go:248-281 | answer and new store are those of `Convert` |
| ExchangeService.BalanceOf | internal/service/exchange_service.go:298-316 | the line carries the account's id, balance and currency code; a USD account's USD value is its balance, and nothing is written for it; any other account's USD value is its balance times the rate the lookup to USD finds, or 0 when it finds none, and the store is the one that lookup leaves |
| ExchangeService.BalancesFrom | internal/service/exchange_service.go:298-316 | one line per account, in order: line `k` is the line `BalanceOf` gives for account `k` on the table the lookups for the earlier accounts left behind; only the rates table changes |
| ExchangeService.BalancesFromLines | internal/service/exchange_service.go:298-316 | line `k` of the loop is the line `BalanceOf` gives for account `k` on the table the lookups for the earlier accounts left behind |
| ExchangeService.BalancesFromCoherent | internal/service/exchange_service.go:298-316 | every table the loop passes through stays coherent with the price table |
| ExchangeService.BalanceOfCoherent | internal/service/exchange_service.go:298-316 | the table one line's lookup leaves behind stays coherent with the price table |
| ExchangeService.BalanceOfAgrees | internal/service/exchange_service.go:298-316 | a priced line (a USD account, or a rate found) has as USD value its balance at the price table's rate; an unpriced one shows 0; the table left behind stays coherent |
| ExchangeService.UsdBalances | internal/service/exchange_service.go:283-319 | fails with "USD not found" exactly when USD is missing, writing nothing; otherwise one line per account of the user, in the repository's order, line `k` being the line `BalanceOf` gives for account `k` (the balance itself for a USD account, else the balance times the rate found to USD, or 0 when none is found) on the table the earlier lookups left behind |
| ExchangeService.UsdBalancesAgree | internal/service/exchange_service.go:283-319 | every USD value of the report is the account's balance at the price table's rate when its line was priced, and 0 when it was not |
| ExchangeService.GetUserBalancesInUSD | internal/service/exchange_service.go:283-319 | answer and new store are those of `UsdBalances` |
| ExchangeService.BalanceLines | internal/service/exchange_service.go:298-316 | the loop's lines and store are those of `BalancesFrom` over all the accounts |
| ExchangeService.BalanceLine | internal/service/exchange_service.go:299-315 | one step's line and store are those of `BalanceOf` |
| AccountService.CreateAccountSpec | internal/service/account_service.go:27-54 | an unknown currency fails with "currency not found" and writes nothing; otherwise the row is appended with the next id; it is forced to be the default when it is the user's first account; a new default clears the default flag of the user's earlier rows, keeping their other fields, and touches no other user's row; a request without the default flag changes no earlier row |
| AccountService.AccountRequestCreates | internal/models/models.go:160-165 | an account request that passes binding, built into an account by the handler, is created exactly when its currency exists, for the requesting user with the request's currency and initial balance, and as a default when one was asked for |
| AccountService.InsertedCreates | internal/service/account_service.go:43-53 | clearing then inserting gives exactly the stored row and table that `CreateAccountSpec` promises, and keeps the table valid |
| AccountService.ClearedFor | internal/service/account_service.go:45-51 | `SetDefaultAccount(user, 0)` clears the default flag of each of the user's rows, keeping their other fields, and leaves every other row unchanged, since no account has id 0 |
| AccountService.ClearDefaultsFor | internal/service/account_service.go:45-51 | the store step before the insert changes the accounts table as `ClearedFor` says |
| AccountService.CreateAccount | internal/service/account_service.go:27-54 | answer and new store are those of `CreateAccountSpec` |
| AccountService.CreateAccountOneDefault | internal/service/account_service.go:43-53 | creating an account keeps every user at no more than one default account |
| AccountService.SetDefaultSpec | internal/service/account_service.go:68-82 | a missing account gives "account not found" and another user's account gives "does not belong to user", both writing nothing; on success only the accounts table changes: among the user's rows the chosen one becomes the default with a new update time, the others only lose their default flag, and no other user's row changes |
| AccountService.SwitchedHolds | internal/service/account_service.go:81 | switching to an owned account makes it the user's only default, leaves other users' rows alone and keeps the table valid |
| AccountService.SetDefaultOneDefault | internal/service/account_service.go:68-82 | switching the default keeps every user at no more than one default account |
| AccountService.SetDefaultAccount | internal/service/account_service.go:68-82 | answer and new store are those of `SetDefaultSpec` |
| AccountService.Adjusted | internal/service/account_service.go:93-98 | income raises the balance by the amount, anything else lowers it by the amount, with no lower bound |
| AccountService.UpdateBalanceSpec | internal/service/account_service.go:84-101 | fails with "account not found" exactly when the account is missing, writing nothing; otherwise only that account's balance and update time change |
| AccountService.UpdateBalanceStored | internal/service/account_service.go:93-100 | a successful update stores the adjusted balance through the repository's `SetBalance` |
| AccountService.UpdateBalanceOneDefault | internal/service/account_service.go:84-101 | a balance update keeps every user at no more than one default account |
| AccountService.UpdateAccountBalance | internal/service/account_service.go:84-101 | answer and new store are those of `UpdateBalanceSpec` |
| AccountService.Step | internal/service/account_service.go:27-101 | every account operation keeps the accounts table valid |
| AccountService.StepOneDefault | internal/service/account_service.go:27-101 | every account operation keeps each user at no more than one default account |
| AccountService.Run | internal/service/account_service.go:27-101 | any sequence of account operations keeps the accounts table valid |
| AccountService.RunOneDefault | internal/service/account_service.go:43-53 | across any sequence of creations, default switches and balance updates, every user keeps at most one default account |
| AccountService.CreateAccountHasDefault | internal/service/account_service.go:36-51 | creating an account leaves every user who owns an account with a default one |
| AccountService.SetDefaultHasDefault | internal/service/account_service.go:68-82 | switching the default leaves every user who owns an account with a default one |
| AccountService.UpdateBalanceHasDefault | internal/service/account_service.go:84-101 | a balance update leaves every user who owns an account with a default one |
| AccountService.StepHasDefault | internal/service/account_service.go:27-101 | every account operation leaves every user who owns an account with a default one |
| AccountService.RunExactlyOneDefault | internal/service/account_service.go:36-51 | from a table where each owner has exactly one default account, any sequence of creations, default switches and balance updates keeps exactly one per owner |
| TransactionService.BookedAccount | internal/service/transaction_service.go:53-74 | without an account id, the user's default account is used and its absence gives "no default account"; with one, a missing account gives "account not found" and another user's gives "does not belong to user"; the account chosen always exists and belongs to the user |
| TransactionService.CreateTransactionSpec | internal/service/transaction_service.go:38-89 | a missing category, then a type mismatch, then the account errors, each fail with nothing written; on success exactly one row is added, carrying the resolved account, and only that account's balance moves: by +amount for income, -amount otherwise |
| TransactionService.UntypedCategoryRejects | internal/models/models.go:196-200 | a valid transaction request booked against a category whose type is neither income nor expense fails with the type mismatch and writes nothing |
| TransactionService.BookedRequestMovesBalance | internal/handler/transaction_handler.go:21-46 | a request that passes binding and is booked moves its account's balance up by the amount for income and down for an expense, the amount being positive; no other account changes |
| TransactionService.TransactionBookedHolds | internal/service/transaction_service.go:77-88 | the insert followed by the balance update leaves exactly the state `TransactionBooked` describes |
| TransactionService.CreateTransaction | internal/service/transaction_service.go:38-89 | answer and new store are those of `CreateTransactionSpec` |
| TransactionService.Book | internal/service/transaction_service.go:77-88 | with the checks passed, the two writes give the state of `CreateTransactionSpec`; the balance update's error never arises |
| TransactionService.Summarize | internal/service/transaction_service.go:113-130 | income sums the `income` rows, expense sums every other row, net is their difference, the count is the number of rows, the bounds are formatted as dates |
| TransactionService.GetTransactionSummary | internal/service/transaction_service.go:107-131 | the same totals over the user's rows of the period, both bounds included |
| TransactionService.SumsOrderFree | internal/service/transaction_service.go:115-121 | the totals do not depend on the order of the rows |
| TransactionService.SummaryOfPeriodRows | internal/service/transaction_service.go:107-131 | the summary over the sorted query result equals the summary over the matching rows in table order |
| TransactionService.ExpenseTotalsAgree | internal/repository/postgres.go:888-889 | when every row is income or expense, the service's expense total equals the repository's |
| TransactionService.OtherKindTotalsDiffer | internal/repository/postgres.go:888-889 | a row of any other type counts as expense in the service and in neither total in the repository |
| TransactionService.Preload | internal/service/transaction_service.go:143-155 | one empty entry per category the user sees, keyed by its id |
| TransactionService.TallyRows | internal/service/transaction_service.go:157-181 | after the pass, each entry holds its category's total and count, and the type totals sum only rows whose category exists; a row of an unknown category is skipped entirely |
| TransactionService.TallyRow | internal/service/transaction_service.go:158-180 | one row opens an entry for a category seen for the first time, or is skipped when the category does not exist, and otherwise adds to its entry and its type total |
| TransactionService.Percentages | internal/service/transaction_service.go:183-197 | each entry's share is total / type total * 100 when the type total is positive, and stays 0 otherwise |
| TransactionService.GetTransactionsByCategory | internal/service/transaction_service.go:133-200 | one entry for every category the user sees, even with total 0, and for every existing category of a row of the period, none twice and no other; each entry's figures are those of its category; the order is unspecified |
| TransactionService.CategoryWithinType | internal/service/transaction_service.go:173-180 | with non-negative amounts and rows matching their category's type, a category's total lies between 0 and its type's total |
| TransactionService.EntryShareBounded | internal/service/transaction_service.go:183-194 | under those conditions every percentage lies between 0 and 100 |
| TransactionService.MonthOf | internal/service/transaction_service.go:205-219 | the entry for a month is labelled "YYYY-MM" and its net is income minus expense over the month |
| TransactionService.MonthEntry | internal/service/transaction_service.go:205-219 | one step of the month loop yields the month's entry: its "YYYY-MM" label and the period summary from the first to the last day of the month |
| TransactionService.GetMonthlySummary | internal/service/transaction_service.go:202-225 | twelve entries, entry `k` summarising month `k + 1` from its first to its last day; the labels differ for four-digit years |
| TransactionService.EntryLabelsDistinct | internal/service/transaction_service.go:215 | the twelve labels of a four-digit year are pairwise distinct |
| TransactionService.DefaultAccountTransactions | internal/service/transaction_service.go:227-237 | no default account gives an empty list; otherwise a permutation of the default account's rows in which every row is at least as new as every later one |
| TransactionService.DefaultAccountTransactionsByPeriod | internal/service/transaction_service.go:239-249 | no default account gives an empty list; otherwise a permutation of the default account's rows in the period in which every row is at least as new as every later one |
| TransactionService.DefaultAccountSummary | internal/service/transaction_service.go:251-261 | no default account gives the zero summary; otherwise the repository's income, expense, net and count over the default account's rows in the period, with the period's start and end formatted as its labels |
| UserService.RegisterSpec | internal/service/user_service.go:37-56 | an email already stored fails with "already exists" and a hashing failure fails too, both writing nothing; otherwise only the user row is added, with no account and no default currency |
| UserService.Register | internal/service/user_service.go:37-56 | answer and new store are those of `RegisterSpec` |
| UserService.RegisterRequestRegisters | internal/models/models.go:83-87 | a registration request that passes binding, with a free address and a hash, registers a user with a non-empty name, a well-formed address and the hash |
| UserService.RegisterKeepsEmailsUnique | internal/service/user_service.go:39-45 | registration keeps emails unique, and afterwards the new user is the one found by its email |
| UserService.LoginSpec | internal/service/user_service.go:58-93 | an unknown email and a wrong password both give "invalid email or password"; nothing is written on failure; on success one session for the user is stored, expiring seven days from now, and the user returned carries no default currency |
| UserService.Login | internal/service/user_service.go:58-93 | answer and new store are those of `LoginSpec` |
| UserService.LoginSessionLifetime | internal/service/user_service.go:80-92 | the new session is found by its token until seven days after the login, and not from then on |
| UserService.RegisterThenLogin | internal/service/user_service.go:60-72 | a registered user logs in with the password whose hash was stored |
| UserService.ValidateToken | internal/service/user_service.go:99-119 | no live session gives "invalid or expired token" and a session whose user is gone gives "user not found"; a user returned owns a live session with that token and is that row read without its default currency |
| UserService.Logout | internal/service/user_service.go:121-123 | the sessions table loses exactly the rows with that token |
| UserService.LogoutInvalidates | internal/service/user_service.go:121-123 | after logout the token validates at no time |
| UserService.LogoutKeepsOthers | internal/service/user_service.go:121-123 | logout leaves the validation of every other token unchanged |
| UserService.SetDefaultCurrencySpec | internal/service/user_service.go:125-158 | an unknown currency fails with "currency not found" and writes nothing; otherwise the user's default currency is set, and exactly one default account with balance 0 in that currency is added when the user had none; existing accounts are left alone |
| UserService.SetDefaultCurrency | internal/service/user_service.go:125-158 | answer and new store are those of `SetDefaultCurrencySpec` |
| UserService.FirstAccountIsDefault | internal/service/user_service.go:141-155 | a user without accounts ends with exactly one, which is the default account in that currency with a zero balance |
| Middleware.Split | internal/middleware/auth.go:24 | the pieces hold no separator and joined by it give the header back |
| Middleware.SplitJoin | internal/middleware/auth.go:24 | splitting undoes joining pieces that hold no separator |
| Middleware.BearerToken | internal/middleware/auth.go:24-31 | a header passes the format check only if it is "Bearer " followed by a token without spaces |
| Middleware.BearerTokenComplete | internal/middleware/auth.go:24-31 | every such header passes the format check and yields its token |
| Middleware.EmptyTokenPassesFormat | internal/middleware/auth.go:24-31 | "Bearer " with nothing after it passes the format check with an empty token |
| Middleware.Authenticate | internal/middleware/auth.go:16-46 | every rejection is 401; a missing header and a malformed one each have their own message; an accepted request has a token that passes the signature check and a live session, and carries that session's user |
| Middleware.AcceptsExactly | internal/middleware/auth.go:33-46 | a well-formed header is accepted exactly when its token passes both checks; either failure gives "invalid or expired token" |
| Middleware.SignatureCheckedFirst | internal/middleware/auth.go:34-39 | a token whose signature fails is refused without the sessions being consulted |
| Middleware.AfterAuth | internal/middleware/auth.go:48-51 | an accepted request stores `user` and `userID`, and keeps every other key; a rejected one stores nothing |
| Middleware.GetUserFromContext | internal/middleware/auth.go:55-63 | the second result holds exactly when a user value is stored; then the stored pointer, possibly nil, is returned; otherwise nil |
| Middleware.HandlerSeesUser | internal/middleware/auth.go:49-63 | a handler behind the middleware finds the authenticated user |
| WebClient.PairRate | web/script.js:243-254 | a direct row gives its rate; otherwise an opposite row gives its reciprocal; every rate is positive |
| WebClient.PairRatePivot | web/script.js:247-254 | with neither row, no USD currency or a missing leg gives no rate, and otherwise the rate is the product of the legs, each direct or reciprocal |
| WebClient.GetRate | web/script.js:238-255 | an empty code or equal codes give 1; an unknown code gives no rate; every rate is positive |
| WebClient.GetRateAgrees | web/script.js:238-255 | the client's rates agree with every price table the loaded rows agree with |
| WebClient.PairRateAgrees | web/script.js:243-254 | direct, reciprocal and pivoted client rates agree with the price table |
| WebClient.RateOrZero | web/script.js:260 | an unresolved rate counts as 0, and only then is the rate 0 |
| WebClient.Equivalents | web/script.js:257-264 | one entry per distinct code, in first-occurrence order, holding the amount times the rate |
| WebClient.EquivalentsOnePerCode | web/script.js:258 | every requested code gets exactly one entry and no other code gets one |
| WebClient.EquivalentsPrefix | web/script.js:258-259 | the entries for a prefix of the codes are a prefix of the entries for all of them |
| WebClient.EquivalentOfSource | web/script.js:259-262 | the entry for the source currency holds the amount unchanged |
| WebClient.Test | web/script.js:421-423 | a one-class pattern's `test` holds exactly when some character belongs to the class |
| WebClient.ValidatePassword | web/script.js:419-425 | true exactly when the password has at least eight characters, an upper-case letter, a lower-case letter and a digit |
| WebClient.ClientPasswordPassesServer | web/script.js:419-425 | a password the client accepts also meets the server's six-character minimum |
| WebClient.ValidateTransaction | web/script.js:426-431 | accepts exactly a finite positive amount with type income or expense; an amount of at most 0, including negative infinity, is reported as not positive; positive infinity and NaN, which compare false with 0, are reported as invalid |
| WebClient.ClientTransactionCheckMatchesServer | web/script.js:426-431 | for a finite amount, the client's check agrees with the server's binding of the same fields |
| WebClient.StrengthScore | web/script.js:1807-1811 | the score is at most 4; it is 4 exactly when all four criteria hold and 0 exactly when none does |
| WebClient.Meter | web/script.js:1812-1819 | the bar is 25 per point wide; it is weak exactly at a score of at most 1, medium exactly at 2, good exactly at 3 and strong exactly at 4 |
| WebClient.ValidPasswordScoresThree | web/script.js:1807-1811 | a password the validator accepts scores at least three, so the meter shows good or strong |
| WebClient.GoodScoreNotValid | web/script.js:1807-1811 | "password1!" scores three, yet the validator refuses it |
| WebClient.Lookup | web/script.js:464-469 | `get` returns the data exactly when the key is stored and its entry is at most five minutes old |
| WebClient.Evicted | web/script.js:467 | only an expired entry for the key is removed; every other entry is kept as it was |
| WebClient.EvictionInvisible | web/script.js:464-469 | removing an expired entry changes no answer, now or later |
| WebClient.StoredReturnedForTtl | web/script.js:462-469 | an entry just stored is returned for five minutes and not after |
| WebClient.StoreKeepsOthers | web/script.js:463 | storing under one key changes no other key's answer |
| WebClient.Cache.constructor | web/script.js:462 | a new cache is empty |
| WebClient.Cache.Set | web/script.js:463 | stores the data stamped now, replacing any earlier entry for the key |
| WebClient.Cache.Get | web/script.js:464-469 | answers as `Lookup` on the old entries, and leaves them as `Evicted` says |
| WebClient.Cache.Clear | web/script.js:470 | empties the cache |

## Left out

- Store errors are not modelled: connection loss, scan failures and query errors. The in-memory store never fails, so every `err != nil` branch after a query is absent.
- TransactionService.GetMonthlySummary: always returns twelve entries. A month whose summary fails is omitted in the source, but with an in-memory store no summary fails.
- Calendar.FormatYearMonth: distinct labels are proved only for years 0 to 9999. Go's output for other years is not claimed.
- ExchangeService.UpdateExchangeRates: requires every provider quote to be positive, and so do `GetExchangeRate`, `GetAllExchangeRates`, `ConvertAmount` and `GetUserBalancesInUSD`. A zero quote would be stored, and its reciprocal is `+Inf` in Go, which exact reals cannot represent.
- The rate provider's HTTP call, timeout, status check, body read and JSON decoding are one input. An optional map stands for them, with `None` for every failure. The response is the same for every request made during one service call.
- Clocks are parameters: `time.Now`, `time.Since` and `Date.now`. One `now` serves a whole service call.
- bcrypt hashing and comparison, and JWT generation and signature checking, are foreign libraries. They appear only as parameters: a hash, a comparison function, a token and a signature check.
- The database schema is not part of this model. Two of its constraints are assumed: a unique (base, target) pair for rates, and the currency foreign keys. Unique session tokens are assumed as well.
- IEEE floating point, `parseFloat`, `toFixed(2)` and `Intl.NumberFormat` are not modelled. Amounts and rates are exact reals, and an equivalent's amount is a number rather than a two-decimal string.
- JavaScript strings are modelled as Dafny sequences of characters. JavaScript counts UTF-16 code units, so a character outside the Basic Multilingual Plane counts twice in the client's length checks but once here.
- `validateTransaction` receives non-numbers in the source; the model covers only numbers: finite values, the infinities and NaN.
- The client's `getRate` is modelled over positive loaded rates. A zero rate would give `Infinity` there.
- Repository.GetCategoriesByUserID: `ORDER BY name` is modelled as code-point order, which assumes the database uses the C collation. Nothing in the source sets the collation, and under a locale collation such as en_US.UTF-8 the order can differ, for example "apple" before "Banana". The three-letter uppercase ISO codes that order currencies and rates sort the same under either collation.
- Error texts are not modelled. Each error is a constructor of `Models.Error`. `HashFailed`, `TokenFailed`, `DuplicateToken` and `ForeignKeyViolation` stand for errors from bcrypt, the JWT library and PostgreSQL, which the code passes through unchanged.
- Go map iteration order in `GetTransactionsByCategory` is random. The model emits entries in insertion order, and its contract says nothing about the order.
- The relations joined into results are left out: an account's embedded currency, and a transaction's category and account. Only the joined currency code, which the balance report and the rate ordering use, is modelled.
- Concurrency is not modelled: the background refresh goroutine with its ticker, and races between concurrent balance updates.
- HTTP transport is not modelled: gin routing, JSON binding, status codes and CORS. The binding constraints of the request types are modelled as predicates.
- Pass-through operations are covered by the repository functions they return: `GetUserAccounts`, `GetAccountByID`, `GetDefaultAccount`, `GetUserTransactions`, `GetTransactionByID`, `GetAccountTransactions`, `GetUserWithAccounts`, and the category and currency services.
- Repository statements no core operation uses are left out: `UpdateUser`, `CreateCategory`, `CreateCurrency`, `GetTransactionsByUserID`, `GetTransactionByID`, `GetExchangeRatesByBaseCurrency`.
- Everything DOM, chart, notification, fetch, retry, debounce and timer related in the client script is left out.
- Configuration from environment variables is left out.
