/** Exchange rates: lookup with refresh and fallbacks, the bulk refresh from
    the USD-based provider, conversion between accounts and balances in USD.
    Each service is a method on the store, proved equal to a specification
    function from the old state to the answer and the new state. The
    provider's response is a parameter, the same for every request made
    during one call; `now` is the clock in seconds. */
module ExchangeService {
  import opened Wrappers
  import opened Seqs
  import opened Models
  import opened Repository

  const UsdCode: string := "USD"

  /** A stored rate older than 24 hours is refreshed before it is used. */
  const StaleAfter: int := 24 * 60 * 60

  /** The provider's `rates` object, currency code to units per US dollar;
      `None` stands for every failure: transport, HTTP status, body, JSON. */
  type Quotes = map<string, real>

  predicate IsStale(x: ExchangeRate, now: int) {
    now - x.lastUpdated > StaleAfter
  }

  ghost predicate QuotesPositive(resp: Option<Quotes>) {
    resp.Some? ==> forall code :: code in resp.value ==> resp.value[code] > 0.0
  }

  // ---------------------------------------------------------------------
  // UpdateExchangeRates

  predicate IsUsd(c: Currency) { c.code == UsdCode }

  /** The save loop over `targets`: every currency other than USD whose code
      the provider quotes gets the row (USD, it) upserted with that quote. */
  function StoreQuotes(rates: seq<ExchangeRate>, usdId: int, targets: seq<Currency>, quotes: Quotes, now: int): seq<ExchangeRate>
    decreases |targets|
  {
    if targets == [] then rates
    else
      var before := StoreQuotes(rates, usdId, targets[..|targets| - 1], quotes, now);
      var c := targets[|targets| - 1];
      if IsUsd(c) || c.code !in quotes then before
      else UpsertRate(before, usdId, c.id, quotes[c.code], now)
  }

  /** The whole refresh: no currencies, no USD currency and a failed
      provider request are errors that write nothing; otherwise the quotes
      are saved in `ORDER BY code` order. Only the rates table changes. */
  function Refresh(db: Db, resp: Option<Quotes>, now: int): (r: (Outcome<Error>, Db))
    ensures r.0.Fail? ==> r.1 == db
    ensures r.0 == Fail(NoCurrencies) <==> |db.currencies| == 0
    ensures r.0.Fail? ==> r.0.error == NoCurrencies || r.0.error == UsdNotFound || r.0.error == ProviderFailed
    ensures r.0 == Fail(UsdNotFound) <==>
      |db.currencies| > 0 && forall i :: 0 <= i < |db.currencies| ==> db.currencies[i].code != UsdCode
    ensures r.1 == db.(rates := r.1.rates)
  {
    var cs := GetAllCurrencies(db.currencies);
    if |cs| == 0 then (Fail(NoCurrencies), db)
    else
      var usd := Find(cs, IsUsd);
      assert usd.None? <==> forall i :: 0 <= i < |db.currencies| ==> db.currencies[i].code != UsdCode by {
        FindSameMembers(cs, db.currencies, IsUsd);
      }
      match usd
      case None => (Fail(UsdNotFound), db)
      case Some(u) =>
        if resp.None? then (Fail(ProviderFailed), db)
        else (Pass, db.(rates := StoreQuotes(db.rates, u.id, cs, resp.value, now)))
  }

  lemma {:induction false} StoreQuotesPositive(rates: seq<ExchangeRate>, usdId: int, targets: seq<Currency>, quotes: Quotes, now: int)
    requires RatesPositive(rates) && QuotesPositive(Some(quotes))
    ensures RatesPositive(StoreQuotes(rates, usdId, targets, quotes, now))
    decreases |targets|
  {
    if targets != [] {
      var before := StoreQuotes(rates, usdId, targets[..|targets| - 1], quotes, now);
      StoreQuotesPositive(rates, usdId, targets[..|targets| - 1], quotes, now);
      var c := targets[|targets| - 1];
      if !IsUsd(c) && c.code in quotes {
        var r := UpsertRate(before, usdId, c.id, quotes[c.code], now);
        forall i | 0 <= i < |r| ensures r[i].rate > 0.0 {
          if i < |before| && !SamePair(before[i], usdId, c.id) { assert r[i] == before[i]; }
        }
      }
    }
  }

  /** A refresh keeps every stored rate positive. */
  lemma RefreshPositive(db: Db, resp: Option<Quotes>, now: int)
    requires RatesPositive(db.rates) && QuotesPositive(resp)
    ensures RatesPositive(Refresh(db, resp, now).1.rates)
  {
    var cs := GetAllCurrencies(db.currencies);
    if |cs| > 0 && resp.Some? && Find(cs, IsUsd).Some? {
      StoreQuotesPositive(db.rates, Find(cs, IsUsd).value.id, cs, resp.value, now);
    }
  }

  /** After the save loop, the row (USD, c) of every quoted currency `c`
      holds the provider's quote and the current time. */
  lemma {:induction false} StoreQuotesSets(rates: seq<ExchangeRate>, usdId: int, targets: seq<Currency>, quotes: Quotes, now: int, c: Currency)
    requires c in targets && !IsUsd(c) && c.code in quotes
    requires forall j :: 0 <= j < |targets| && targets[j].id == c.id ==> targets[j] == c
    ensures Repository.GetExchangeRate(StoreQuotes(rates, usdId, targets, quotes, now), usdId, c.id)
            == Some(ExchangeRate(usdId, c.id, quotes[c.code], now))
    decreases |targets|
  {
    var init := targets[..|targets| - 1];
    var last := targets[|targets| - 1];
    var before := StoreQuotes(rates, usdId, init, quotes, now);
    if last == c {
    } else {
      assert c in init by {
        var k :| 0 <= k < |targets| && targets[k] == c;
        assert k < |targets| - 1;
        assert init[k] == c;
      }
      assert forall j :: 0 <= j < |init| ==> init[j] == targets[j];
      StoreQuotesSets(rates, usdId, init, quotes, now, c);
      if !IsUsd(last) && last.code in quotes {
        assert last.id != c.id;
        UpsertRateOther(before, usdId, last.id, quotes[last.code], now, usdId, c.id);
      }
    }
  }

  /** The save loop touches no pair except (USD, c) for a quoted `c`. */
  lemma {:induction false} StoreQuotesKeeps(rates: seq<ExchangeRate>, usdId: int, targets: seq<Currency>, quotes: Quotes, now: int, b: int, t: int)
    requires b != usdId || forall j :: 0 <= j < |targets| && targets[j].id == t ==> IsUsd(targets[j]) || targets[j].code !in quotes
    ensures Repository.GetExchangeRate(StoreQuotes(rates, usdId, targets, quotes, now), b, t) == Repository.GetExchangeRate(rates, b, t)
    decreases |targets|
  {
    if targets != [] {
      var init := targets[..|targets| - 1];
      var last := targets[|targets| - 1];
      assert forall j :: 0 <= j < |init| ==> init[j] == targets[j];
      StoreQuotesKeeps(rates, usdId, init, quotes, now, b, t);
      if !IsUsd(last) && last.code in quotes {
        var before := StoreQuotes(rates, usdId, init, quotes, now);
        UpsertRateOther(before, usdId, last.id, quotes[last.code], now, b, t);
      }
    }
  }

  /** The USD currency the refresh finds in the sorted currency list is the
      one `GetCurrencyByCode` returns, codes being unique. */
  lemma RefreshUsd(currencies: seq<Currency>)
    requires CurrenciesValid(currencies)
    ensures Find(GetAllCurrencies(currencies), IsUsd) == GetCurrencyByCode(currencies, UsdCode)
  {
    var cs := GetAllCurrencies(currencies);
    FindSameMembers(cs, currencies, IsUsd);
    var u := Find(cs, IsUsd);
    var usd := GetCurrencyByCode(currencies, UsdCode);
    if u.Some? {
      assert usd.Some? by {
        var i :| 0 <= i < |currencies| && currencies[i] == u.value;
      }
      var i :| 0 <= i < |currencies| && currencies[i] == u.value;
      var j :| 0 <= j < |currencies| && currencies[j] == usd.value;
    } else {
      assert usd.None?;
    }
  }

  /** What a successful refresh leaves behind: for each currency `c` other
      than USD that the provider quotes, the stored USD-to-`c` rate is the
      quote, stamped with the current time; the lookup of every other pair
      is unchanged. */
  lemma RefreshEffect(db: Db, resp: Option<Quotes>, now: int, b: int, t: int)
    requires CurrenciesValid(db.currencies)
    requires Refresh(db, resp, now).0 == Pass
    ensures GetCurrencyByCode(db.currencies, UsdCode).Some?
    ensures var usd := GetCurrencyByCode(db.currencies, UsdCode).value;
      var after := Refresh(db, resp, now).1.rates;
      match GetCurrencyByID(db.currencies, t)
      case Some(c) =>
        if b == usd.id && c.code != UsdCode && c.code in resp.value
        then Repository.GetExchangeRate(after, b, t) == Some(ExchangeRate(b, t, resp.value[c.code], now))
        else Repository.GetExchangeRate(after, b, t) == Repository.GetExchangeRate(db.rates, b, t)
      case None => Repository.GetExchangeRate(after, b, t) == Repository.GetExchangeRate(db.rates, b, t)
  {
    var cs := GetAllCurrencies(db.currencies);
    RefreshUsd(db.currencies);
    var u := Find(cs, IsUsd).value;
    var quotes := resp.value;
    match GetCurrencyByID(db.currencies, t)
    case Some(c) =>
      SameIdSameCurrency(db.currencies, cs, c);
      if b == u.id && c.code != UsdCode && c.code in quotes {
        StoreQuotesSets(db.rates, u.id, cs, quotes, now, c);
      } else {
        StoreQuotesKeeps(db.rates, u.id, cs, quotes, now, b, t);
      }
    case None =>
      forall j | 0 <= j < |cs| ensures cs[j].id != t {
        assert cs[j] in db.currencies;
      }
      StoreQuotesKeeps(db.rates, u.id, cs, quotes, now, b, t);
  }

  /** In a table with unique ids, every row of `cs` drawn from it that has
      the id of `c` is `c`. */
  lemma SameIdSameCurrency(currencies: seq<Currency>, cs: seq<Currency>, c: Currency)
    requires CurrenciesValid(currencies) && c in currencies
    requires forall j :: 0 <= j < |cs| ==> cs[j] in currencies
    ensures forall j :: 0 <= j < |cs| && cs[j].id == c.id ==> cs[j] == c
  {
    forall j | 0 <= j < |cs| && cs[j].id == c.id ensures cs[j] == c {
      var k :| 0 <= k < |currencies| && currencies[k] == cs[j];
      var m :| 0 <= m < |currencies| && currencies[m] == c;
    }
  }

  /** The scan for the first currency whose code is USD. */
  method FirstUsd(cs: seq<Currency>) returns (r: Option<Currency>)
    ensures r == Find(cs, IsUsd)
  {
    var k := 0;
    while k < |cs| && cs[k].code != UsdCode
      invariant 0 <= k <= |cs|
      invariant forall j :: 0 <= j < k ==> !IsUsd(cs[j])
    {
      k := k + 1;
    }
    if k == |cs| {
      return None;
    }
    FindFirst(cs, IsUsd, k);
    return Some(cs[k]);
  }

  method UpdateExchangeRates(db: Store, resp: Option<Quotes>, now: int) returns (r: Outcome<Error>)
    requires db.Valid() && QuotesPositive(resp)
    modifies db
    ensures db.Valid()
    ensures (r, db.State()) == Refresh(old(db.State()), resp, now)
  {
    ghost var db0 := db.State();
    var cs := GetAllCurrencies(db.currencies);
    if |cs| == 0 {
      RefreshFails(old(db.State()), resp, now);
      return Fail(NoCurrencies);
    }
    var found := FirstUsd(cs);
    if found.None? {
      RefreshFails(old(db.State()), resp, now);
      return Fail(UsdNotFound);
    }
    var usd := found.value;
    if resp.None? {
      RefreshFails(old(db.State()), resp, now);
      return Fail(ProviderFailed);
    }
    SaveQuotes(db, usd, cs, resp.value, now);
    RefreshPass(db0, resp, now, usd);
    r := Pass;
  }

  /** The save loop of the refresh: one upsert per quoted non-USD currency. */
  method SaveQuotes(db: Store, usd: Currency, cs: seq<Currency>, quotes: Quotes, now: int)
    requires db.Valid() && usd in db.currencies
    requires forall j :: 0 <= j < |cs| ==> cs[j] in db.currencies
    requires forall code :: code in quotes ==> quotes[code] > 0.0
    modifies db
    ensures db.Valid()
    ensures db.State() == old(db.State()).(rates := StoreQuotes(old(db.rates), usd.id, cs, quotes, now))
  {
    ghost var db0 := db.State();
    var i := 0;
    while i < |cs|
      invariant 0 <= i <= |cs|
      invariant db.Valid() && db.currencies == db0.currencies
      invariant db.State() == db0.(rates := StoreQuotes(db0.rates, usd.id, cs[..i], quotes, now))
    {
      StoreQuotesStep(db0.rates, usd.id, cs, i, quotes, now);
      SaveQuote(db, usd, cs[i], quotes, now);
      i := i + 1;
    }
    assert cs[..i] == cs;
  }

  /** One step of the save loop: the quote for `c`, when there is one and
      `c` is not USD itself, is upserted as the rate from USD to `c`. */
  method SaveQuote(db: Store, usd: Currency, c: Currency, quotes: Quotes, now: int)
    requires db.Valid() && usd in db.currencies && c in db.currencies
    requires forall code :: code in quotes ==> quotes[code] > 0.0
    modifies db
    ensures db.Valid()
    ensures db.State() == old(db.State()).(rates :=
      if IsUsd(c) || c.code !in quotes then old(db.rates) else UpsertRate(old(db.rates), usd.id, c.id, quotes[c.code], now))
  {
    if c.code != UsdCode && c.code in quotes {
      Present(db.currencies, usd);
      Present(db.currencies, c);
      var saved := db.CreateOrUpdateExchangeRate(usd.id, c.id, quotes[c.code], now);
    }
  }

  lemma Present(currencies: seq<Currency>, c: Currency)
    requires c in currencies
    ensures GetCurrencyByID(currencies, c.id).Some?
  {
    var i :| 0 <= i < |currencies| && currencies[i] == c;
  }

  lemma RefreshFails(db: Db, resp: Option<Quotes>, now: int)
    ensures var cs := GetAllCurrencies(db.currencies);
      (|cs| == 0 ==> Refresh(db, resp, now) == (Fail(NoCurrencies), db)) &&
      (|cs| > 0 && Find(cs, IsUsd).None? ==> Refresh(db, resp, now) == (Fail(UsdNotFound), db)) &&
      (|cs| > 0 && Find(cs, IsUsd).Some? && resp.None? ==> Refresh(db, resp, now) == (Fail(ProviderFailed), db))
  {
  }

  /** One more target in the save loop. */
  lemma StoreQuotesStep(rates: seq<ExchangeRate>, usdId: int, cs: seq<Currency>, i: int, quotes: Quotes, now: int)
    requires 0 <= i < |cs|
    ensures var before := StoreQuotes(rates, usdId, cs[..i], quotes, now);
      StoreQuotes(rates, usdId, cs[..i + 1], quotes, now)
        == if IsUsd(cs[i]) || cs[i].code !in quotes then before else UpsertRate(before, usdId, cs[i].id, quotes[cs[i].code], now)
  {
    assert cs[..i + 1][..i] == cs[..i];
  }

  lemma RefreshPass(db: Db, resp: Option<Quotes>, now: int, usd: Currency)
    requires resp.Some? && Find(GetAllCurrencies(db.currencies), IsUsd) == Some(usd)
    ensures Refresh(db, resp, now)
      == (Pass, db.(rates := StoreQuotes(db.rates, usd.id, GetAllCurrencies(db.currencies), resp.value, now)))
  {
  }

  // ---------------------------------------------------------------------
  // GetExchangeRate

  /** A rate and the time the rows it comes from were last updated. */
  datatype Quote = Quote(rate: real, lastUpdated: int)

  /** One leg of the USD pivot: the stored rate from `a` to `b`, or else the
      reciprocal of the stored rate from `b` to `a`. */
  function Leg(rates: seq<ExchangeRate>, a: int, b: int): (r: Option<Quote>)
    requires RatesPositive(rates)
    ensures r.Some? ==> r.value.rate > 0.0
    ensures r.None? <==> Repository.GetExchangeRate(rates, a, b).None? && Repository.GetExchangeRate(rates, b, a).None?
  {
    match Repository.GetExchangeRate(rates, a, b)
    case Some(x) => Some(Quote(x.rate, x.lastUpdated))
    case None =>
      match Repository.GetExchangeRate(rates, b, a)
      case Some(x) => Some(Quote(1.0 / x.rate, x.lastUpdated))
      case None => None
  }

  function Min(a: int, b: int): int { if b < a then b else a }

  /** What the lookup falls back to when the pair has no row: the reciprocal
      of the opposite row, else the product of the two legs through USD,
      stamped with the older of their times; otherwise no rate. */
  function Fallback(rates: seq<ExchangeRate>, currencies: seq<Currency>, base: int, target: int): (r: Result<ExchangeRate, Error>)
    requires RatesPositive(rates)
    ensures r.Ok? ==> r.value.baseCurrencyId == base && r.value.targetCurrencyId == target && r.value.rate > 0.0
    ensures r.Err? ==> r.error == RateNotAvailable
    ensures Repository.GetExchangeRate(rates, target, base).Some? ==>
      r == Ok(ExchangeRate(base, target, 1.0 / Repository.GetExchangeRate(rates, target, base).value.rate,
                           Repository.GetExchangeRate(rates, target, base).value.lastUpdated))
    ensures Repository.GetExchangeRate(rates, target, base).None? ==>
      var usd := GetCurrencyByCode(currencies, UsdCode);
      (r.Err? <==> usd.None? || Leg(rates, base, usd.value.id).None? || Leg(rates, usd.value.id, target).None?)
  {
    match Repository.GetExchangeRate(rates, target, base)
    case Some(rev) => Ok(ExchangeRate(base, target, 1.0 / rev.rate, rev.lastUpdated))
    case None =>
      match GetCurrencyByCode(currencies, UsdCode)
      case None => Err(RateNotAvailable)
      case Some(usd) =>
        var toUsd, fromUsd := Leg(rates, base, usd.id), Leg(rates, usd.id, target);
        if toUsd.Some? && fromUsd.Some? then Ok(Pivot(base, target, toUsd.value, fromUsd.value))
        else Err(RateNotAvailable)
  }

  /** The rate through USD: the product of the two legs, stamped with the
      older of their times. */
  function Pivot(base: int, target: int, toUsd: Quote, fromUsd: Quote): (r: ExchangeRate)
    ensures r.baseCurrencyId == base && r.targetCurrencyId == target
    ensures r.rate == toUsd.rate * fromUsd.rate
    ensures r.lastUpdated <= toUsd.lastUpdated && r.lastUpdated <= fromUsd.lastUpdated
    ensures r.lastUpdated == toUsd.lastUpdated || r.lastUpdated == fromUsd.lastUpdated
  {
    ExchangeRate(base, target, toUsd.rate * fromUsd.rate, Min(toUsd.lastUpdated, fromUsd.lastUpdated))
  }

  /** The rate from `base` to `target`: 1 for the same currency; the stored
      row when it is fresh. A missing or stale row triggers a refresh: if
      that fails, a stale row is still returned; if it succeeds, the row is
      read again. With no row at all, the fallbacks decide. */
  function Resolve(db: Db, base: int, target: int, resp: Option<Quotes>, now: int): (r: (Result<ExchangeRate, Error>, Db))
    requires RatesPositive(db.rates) && QuotesPositive(resp)
    ensures r.1 == db || r.1 == Refresh(db, resp, now).1
    ensures RatesPositive(r.1.rates)
    ensures r.0.Ok? ==> r.0.value.baseCurrencyId == base && r.0.value.targetCurrencyId == target && r.0.value.rate > 0.0
    ensures r.0.Err? ==> r.0.error == RateNotAvailable
    ensures base == target ==> r.0 == Ok(ExchangeRate(base, target, 1.0, now)) && r.1 == db
    ensures base != target && Repository.GetExchangeRate(db.rates, base, target).Some? && !IsStale(Repository.GetExchangeRate(db.rates, base, target).value, now)
      ==> r == (Ok(Repository.GetExchangeRate(db.rates, base, target).value), db)
  {
    RefreshPositive(db, resp, now);
    if base == target then (Ok(ExchangeRate(base, target, 1.0, now)), db)
    else
      var direct := Repository.GetExchangeRate(db.rates, base, target);
      if direct.Some? && !IsStale(direct.value, now) then (Ok(direct.value), db)
      else
        var refreshed := Refresh(db, resp, now);
        var after := refreshed.1;
        if refreshed.0.Fail? then
          if direct.Some? then (Ok(direct.value), db)
          else (Fallback(db.rates, db.currencies, base, target), db)
        else
          var again := Repository.GetExchangeRate(after.rates, base, target);
          var rate := if again.Some? then again else direct;
          if rate.Some? then (Ok(rate.value), after)
          else (Fallback(after.rates, after.currencies, base, target), after)
  }

  method GetExchangeRate(db: Store, base: int, target: int, resp: Option<Quotes>, now: int) returns (r: Result<ExchangeRate, Error>)
    requires db.Valid() && QuotesPositive(resp)
    modifies db
    ensures db.Valid()
    ensures (r, db.State()) == Resolve(old(db.State()), base, target, resp, now)
  {
    if base == target {
      return Ok(ExchangeRate(base, target, 1.0, now));
    }
    var direct := Repository.GetExchangeRate(db.rates, base, target);
    var rate := direct;
    if direct.None? || IsStale(direct.value, now) {
      var o := UpdateExchangeRates(db, resp, now);
      if o.Fail? {
        if direct.Some? {
          return Ok(direct.value);
        }
      } else {
        var again := Repository.GetExchangeRate(db.rates, base, target);
        if again.Some? {
          rate := again;
        }
      }
    }
    if rate.Some? {
      return Ok(rate.value);
    }
    r := Fallback(db.rates, db.currencies, base, target);
  }

  // ---------------------------------------------------------------------
  // GetAllExchangeRates

  predicate AnyStale(rates: seq<ExchangeRate>, now: int) {
    exists i :: 0 <= i < |rates| && IsStale(rates[i], now)
  }

  /** The rate table: refreshed first when it is empty or holds a stale row.
      A failed refresh still returns the old rows, unless there are none. */
  function AllRates(db: Db, resp: Option<Quotes>, now: int): (r: (Result<seq<ExchangeRate>, Error>, Db))
    ensures r.1 == db || r.1 == Refresh(db, resp, now).1
    ensures r.0.Ok? ==> multiset(r.0.value) == multiset(r.1.rates)
    ensures r.0.Ok? ==> Ordered(r.0.value, (a: ExchangeRate, b: ExchangeRate) => RateLe(r.1.currencies, a, b))
    ensures r.0.Err? <==> |db.rates| == 0 && Refresh(db, resp, now).0.Fail?
    ensures r.0.Err? ==> r.0.error == NoRatesAvailable
    ensures |db.rates| > 0 && !AnyStale(db.rates, now) ==> r.1 == db
    ensures |db.rates| == 0 || AnyStale(db.rates, now) ==> r.1 == Refresh(db, resp, now).1
  {
    var rates := Repository.GetAllExchangeRates(db.rates, db.currencies);
    assert |rates| == |db.rates| by { assert |multiset(rates)| == |multiset(db.rates)|; }
    assert AnyStale(rates, now) <==> AnyStale(db.rates, now) by {
      SameMultisetStale(rates, db.rates, now);
    }
    if |rates| > 0 && !AnyStale(rates, now) then (Ok(rates), db)
    else
      var refreshed := Refresh(db, resp, now);
      var after := refreshed.1;
      if refreshed.0.Fail? then
        if |rates| > 0 then (Ok(rates), db) else (Err(NoRatesAvailable), db)
      else (Ok(Repository.GetAllExchangeRates(after.rates, after.currencies)), after)
  }

  lemma SameMultisetStale(a: seq<ExchangeRate>, b: seq<ExchangeRate>, now: int)
    requires multiset(a) == multiset(b)
    ensures AnyStale(a, now) <==> AnyStale(b, now)
  {
    if AnyStale(a, now) {
      var i :| 0 <= i < |a| && IsStale(a[i], now);
      assert a[i] in multiset(b);
    }
    if AnyStale(b, now) {
      var i :| 0 <= i < |b| && IsStale(b[i], now);
      assert b[i] in multiset(a);
    }
  }

  /** The scan for a row older than a day, stopping at the first. */
  method HasStale(rates: seq<ExchangeRate>, now: int) returns (found: bool)
    ensures found <==> AnyStale(rates, now)
  {
    found := false;
    var i := 0;
    while i < |rates|
      invariant 0 <= i <= |rates|
      invariant forall j :: 0 <= j < i ==> !IsStale(rates[j], now)
    {
      if IsStale(rates[i], now) {
        found := true;
        break;
      }
      i := i + 1;
    }
  }

  method GetAllExchangeRates(db: Store, resp: Option<Quotes>, now: int) returns (r: Result<seq<ExchangeRate>, Error>)
    requires db.Valid() && QuotesPositive(resp)
    modifies db
    ensures db.Valid()
    ensures (r, db.State()) == AllRates(old(db.State()), resp, now)
  {
    var rates := Repository.GetAllExchangeRates(db.rates, db.currencies);
    var needsUpdate := |rates| == 0;
    if !needsUpdate {
      needsUpdate := HasStale(rates, now);
    }
    if needsUpdate {
      var o := UpdateExchangeRates(db, resp, now);
      if o.Fail? {
        if |rates| > 0 {
          return Ok(rates);
        }
        return Err(NoRatesAvailable);
      }
      return Ok(Repository.GetAllExchangeRates(db.rates, db.currencies));
    }
    return Ok(rates);
  }

  // ---------------------------------------------------------------------
  // ConvertAmount

  /** `amount` units of the base currency of `x`, in its target currency. */
  function Scaled(amount: real, x: ExchangeRate): real { amount * x.rate }

  /** An amount held in one account, expressed in the currency of another:
      unchanged when both share a currency, else multiplied by the rate the
      lookup finds (which may refresh the table). */
  function Convert(db: Db, amount: real, fromId: int, toId: int, resp: Option<Quotes>, now: int): (r: (Result<real, Error>, Db))
    requires RatesPositive(db.rates) && QuotesPositive(resp)
    ensures var from, to := GetAccountByID(db.accounts, fromId), GetAccountByID(db.accounts, toId);
      from.Some? && to.Some? && from.value.currencyId != to.value.currencyId ==>
        var found := Resolve(db, from.value.currencyId, to.value.currencyId, resp, now);
        && r.1 == found.1
        && (r.0.Ok? <==> found.0.Ok?)
        && (r.0.Ok? ==> r.0.value == amount * found.0.value.rate)
    ensures r.1 == db || r.1 == Refresh(db, resp, now).1
    ensures RatesPositive(r.1.rates)
    ensures r.0 == Err(SourceAccountNotFound) <==> GetAccountByID(db.accounts, fromId).None?
    ensures r.0 == Err(TargetAccountNotFound) <==> GetAccountByID(db.accounts, fromId).Some? && GetAccountByID(db.accounts, toId).None?
    ensures r.0.Err? ==> r.0.error in {SourceAccountNotFound, TargetAccountNotFound, RateNotAvailable}
    ensures GetAccountByID(db.accounts, fromId).Some? && GetAccountByID(db.accounts, toId).Some?
      && GetAccountByID(db.accounts, fromId).value.currencyId == GetAccountByID(db.accounts, toId).value.currencyId
      ==> r == (Ok(amount), db)
  {
    match GetAccountByID(db.accounts, fromId)
    case None => (Err(SourceAccountNotFound), db)
    case Some(from) =>
      match GetAccountByID(db.accounts, toId)
      case None => (Err(TargetAccountNotFound), db)
      case Some(to) =>
        if from.currencyId == to.currencyId then (Ok(amount), db)
        else
          var found := Resolve(db, from.currencyId, to.currencyId, resp, now);
          (Converted(amount, found.0), found.1)
  }

  /** A conversion request that passes its binding has a positive amount,
      so with positive rates the amount converted between two currencies by
      the rate the lookup finds is positive. */
  lemma ConvertRequestPositive(db: Db, r: ConvertRequest, resp: Option<Quotes>, now: int)
    requires RatesPositive(db.rates) && QuotesPositive(resp) && ConvertRequestValid(r)
    ensures var found := Resolve(db, r.fromId, r.toId, resp, now);
      found.0.Ok? ==> r.amount * found.0.value.rate > 0.0
  {
    var found := Resolve(db, r.fromId, r.toId, resp, now);
    if found.0.Ok? {
      PositiveProduct(r.amount, found.0.value.rate);
    }
  }

  /** The same between two accounts: every converted amount is positive. */
  lemma ConvertAccountsPositive(db: Db, r: ConvertRequest, resp: Option<Quotes>, now: int)
    requires RatesPositive(db.rates) && QuotesPositive(resp) && ConvertRequestValid(r)
    requires Convert(db, r.amount, r.fromId, r.toId, resp, now).0.Ok?
    ensures Convert(db, r.amount, r.fromId, r.toId, resp, now).0.value > 0.0
  {
    var x := ConvertScaled(db, r.amount, r.fromId, r.toId, resp, now);
    assert Scaled(r.amount, x) > 0.0 by {
      PositiveProduct(r.amount, x.rate);
    }
  }

  /** A successful conversion between accounts scales the amount by a
      positive rate: 1 for one currency, else the rate the lookup found. */
  lemma ConvertScaled(db: Db, amount: real, fromId: int, toId: int, resp: Option<Quotes>, now: int) returns (x: ExchangeRate)
    requires RatesPositive(db.rates) && QuotesPositive(resp)
    requires Convert(db, amount, fromId, toId, resp, now).0.Ok?
    ensures x.rate > 0.0 && Convert(db, amount, fromId, toId, resp, now).0 == Ok(Scaled(amount, x))
  {
    var from := GetAccountByID(db.accounts, fromId).value;
    var to := GetAccountByID(db.accounts, toId).value;
    if from.currencyId != to.currencyId {
      var found := Resolve(db, from.currencyId, to.currencyId, resp, now);
      x := found.0.value;
      assert Convert(db, amount, fromId, toId, resp, now) == (Ok(Scaled(amount, found.0.value)), found.1);
    } else {
      x := ExchangeRate(from.currencyId, to.currencyId, 1.0, now);
      assert Convert(db, amount, fromId, toId, resp, now) == (Ok(amount), db);
    }
  }

  lemma PositiveProduct(a: real, b: real)
    requires a > 0.0 && b > 0.0
    ensures a * b > 0.0
  {
  }

  /** The amount scaled by the rate the lookup found, or the lookup's error. */
  function Converted(amount: real, found: Result<ExchangeRate, Error>): (r: Result<real, Error>)
    ensures r.Ok? <==> found.Ok?
    ensures r.Ok? ==> r.value == amount * found.value.rate
    ensures r.Err? ==> r.error == found.error
  {
    match found
    case Err(e) => Err(e)
    case Ok(x) => Ok(Scaled(amount, x))
  }

  method ConvertAmount(db: Store, amount: real, fromId: int, toId: int, resp: Option<Quotes>, now: int) returns (r: Result<real, Error>)
    requires db.Valid() && QuotesPositive(resp)
    modifies db
    ensures db.Valid()
    ensures (r, db.State()) == Convert(old(db.State()), amount, fromId, toId, resp, now)
  {
    var from := Repository.GetAccountByID(db.accounts, fromId);
    if from.None? {
      return Err(SourceAccountNotFound);
    }
    var to := Repository.GetAccountByID(db.accounts, toId);
    if to.None? {
      return Err(TargetAccountNotFound);
    }
    if from.value.currencyId == to.value.currencyId {
      return Ok(amount);
    }
    var x := GetExchangeRate(db, from.value.currencyId, to.value.currencyId, resp, now);
    if x.Err? {
      return Err(x.error);
    }
    return Ok(Scaled(amount, x.value));
  }

  // ---------------------------------------------------------------------
  // GetUserBalancesInUSD

  /** A line is about account `a`: same id and balance, the code of its
      currency, and for a USD account the balance itself as the USD value. */
  predicate LineFor(line: AccountBalance, a: Account, currencies: seq<Currency>) {
    && line.accountId == a.id && line.balance == a.balance
    && line.currencyCode == CodeOf(currencies, a.currencyId)
    && (line.currencyCode == UsdCode ==> line.balanceInUsd == a.balance)
  }

  /** One account's line: a USD account keeps its balance; any other is
      converted by the lookup's rate to USD, or shows 0 when there is none. */
  function BalanceOf(db: Db, a: Account, usdId: int, resp: Option<Quotes>, now: int): (r: (AccountBalance, Db))
    requires RatesPositive(db.rates) && QuotesPositive(resp)
    ensures LineFor(r.0, a, db.currencies)
    ensures r.0.currencyCode == UsdCode ==> r.1 == db
    ensures r.0.currencyCode != UsdCode ==>
      var found := Resolve(db, a.currencyId, usdId, resp, now);
      && r.1 == found.1
      && r.0.balanceInUsd == (if found.0.Ok? then a.balance * found.0.value.rate else 0.0)
    ensures r.1 == db || r.1 == Refresh(db, resp, now).1
    ensures RatesPositive(r.1.rates) && r.1 == db.(rates := r.1.rates)
  {
    var code := CodeOf(db.currencies, a.currencyId);
    if code != UsdCode then
      var found := Resolve(db, a.currencyId, usdId, resp, now);
      (AccountBalance(a.id, code, a.balance, if found.0.Ok? then Scaled(a.balance, found.0.value) else 0.0), found.1)
    else (AccountBalance(a.id, code, a.balance, a.balance), db)
  }

  /** The lines for the first `n` accounts, in order, each computed on the
      table the lookups for the accounts before it left behind. */
  function BalancesFrom(db: Db, accounts: seq<Account>, n: nat, usdId: int, resp: Option<Quotes>, now: int): (r: (seq<AccountBalance>, Db))
    requires n <= |accounts| && RatesPositive(db.rates) && QuotesPositive(resp)
    ensures RatesPositive(r.1.rates) && r.1 == db.(rates := r.1.rates)
    ensures |r.0| == n
  {
    if n == 0 then ([], db)
    else
      var prev := BalancesFrom(db, accounts, n - 1, usdId, resp, now);
      var last := BalanceOf(prev.1, accounts[n - 1], usdId, resp, now);
      (prev.0 + [last.0], last.1)
  }

  /** One step of the balance loop, as a function of the table. */
  ghost function BalanceStep(usdId: int, resp: Option<Quotes>, now: int): (Db, Account) --> (AccountBalance, Db) {
    (t: Db, a: Account) requires RatesPositive(t.rates) && QuotesPositive(resp) => BalanceOf(t, a, usdId, resp, now)
  }

  /** The tables the balance loop passes through: `db` with other rates. */
  ghost function RatesOnly(db: Db, resp: Option<Quotes>): Db -> bool {
    (t: Db) => RatesPositive(t.rates) && QuotesPositive(resp) && t == db.(rates := t.rates)
  }

  lemma {:induction false} BalancesFromThread(db: Db, accounts: seq<Account>, n: nat, usdId: int, resp: Option<Quotes>, now: int)
    requires n <= |accounts| && RatesPositive(db.rates) && QuotesPositive(resp)
    ensures forall t, x :: RatesOnly(db, resp)(t) ==>
      BalanceStep(usdId, resp, now).requires(t, x) && RatesOnly(db, resp)(BalanceStep(usdId, resp, now)(t, x).1)
    ensures BalancesFrom(db, accounts, n, usdId, resp, now)
      == Thread(db, accounts, n, BalanceStep(usdId, resp, now), RatesOnly(db, resp))
  {
    if n > 0 {
      BalancesFromThread(db, accounts, n - 1, usdId, resp, now);
    }
  }

  /** Line `k` of the loop is the line for account `k`, computed on the
      table the lookups for the accounts before it left behind. */
  lemma BalancesFromLines(db: Db, accounts: seq<Account>, n: nat, usdId: int, resp: Option<Quotes>, now: int)
    requires n <= |accounts| && RatesPositive(db.rates) && QuotesPositive(resp)
    ensures forall k :: 0 <= k < n ==>
      BalancesFrom(db, accounts, n, usdId, resp, now).0[k]
        == BalanceOf(BalancesFrom(db, accounts, k, usdId, resp, now).1, accounts[k], usdId, resp, now).0
  {
    forall k | 0 <= k < n
      ensures BalancesFrom(db, accounts, n, usdId, resp, now).0[k]
        == BalanceOf(BalancesFrom(db, accounts, k, usdId, resp, now).1, accounts[k], usdId, resp, now).0
    {
      BalancesFromThread(db, accounts, n, usdId, resp, now);
      BalancesFromThread(db, accounts, k, usdId, resp, now);
      ThreadOutput(db, accounts, n, k, BalanceStep(usdId, resp, now), RatesOnly(db, resp));
    }
  }

  /** Line `i` is about account `i`. */
  ghost predicate LinesFor(lines: seq<AccountBalance>, accounts: seq<Account>, currencies: seq<Currency>)
    requires |lines| <= |accounts|
  {
    forall i :: 0 <= i < |lines| ==> LineFor(lines[i], accounts[i], currencies)
  }

  lemma BalancesFromLinesFor(db: Db, accounts: seq<Account>, n: nat, usdId: int, resp: Option<Quotes>, now: int)
    requires n <= |accounts| && RatesPositive(db.rates) && QuotesPositive(resp)
    ensures LinesFor(BalancesFrom(db, accounts, n, usdId, resp, now).0, accounts, db.currencies)
  {
    var lines := BalancesFrom(db, accounts, n, usdId, resp, now).0;
    BalancesFromLines(db, accounts, n, usdId, resp, now);
    forall k | 0 <= k < n ensures LineFor(lines[k], accounts[k], db.currencies) {
      var t := BalancesFrom(db, accounts, k, usdId, resp, now).1;
      assert t.currencies == db.currencies;
      assert lines[k] == BalanceOf(t, accounts[k], usdId, resp, now).0;
    }
  }

  /** Every account of the user with its balance in USD; the USD currency
      must exist. */
  function UsdBalances(db: Db, userId: int, resp: Option<Quotes>, now: int): (r: (Result<seq<AccountBalance>, Error>, Db))
    requires RatesPositive(db.rates) && QuotesPositive(resp)
    ensures r.0 == Err(UsdNotFound) <==> GetCurrencyByCode(db.currencies, UsdCode).None?
    ensures r.0.Err? ==> r.0 == Err(UsdNotFound) && r.1 == db
    ensures r.0.Ok? ==>
      |r.0.value| == |GetAccountsByUserID(db.accounts, userId)|
      && LinesFor(r.0.value, GetAccountsByUserID(db.accounts, userId), db.currencies)
    ensures r.0.Ok? ==>
      var accounts, usdId := GetAccountsByUserID(db.accounts, userId), GetCurrencyByCode(db.currencies, UsdCode).value.id;
      && r.1 == BalancesFrom(db, accounts, |accounts|, usdId, resp, now).1
      && forall k :: 0 <= k < |accounts| ==>
           r.0.value[k] == BalanceOf(BalancesFrom(db, accounts, k, usdId, resp, now).1, accounts[k], usdId, resp, now).0
  {
    var accounts := GetAccountsByUserID(db.accounts, userId);
    match GetCurrencyByCode(db.currencies, UsdCode)
    case None => (Err(UsdNotFound), db)
    case Some(usd) =>
      var lines := BalancesFrom(db, accounts, |accounts|, usd.id, resp, now);
      BalancesFromLinesFor(db, accounts, |accounts|, usd.id, resp, now);
      BalancesFromLines(db, accounts, |accounts|, usd.id, resp, now);
      (Ok(lines.0), lines.1)
  }

  method GetUserBalancesInUSD(db: Store, userId: int, resp: Option<Quotes>, now: int) returns (r: Result<seq<AccountBalance>, Error>)
    requires db.Valid() && QuotesPositive(resp)
    modifies db
    ensures db.Valid()
    ensures (r, db.State()) == UsdBalances(old(db.State()), userId, resp, now)
  {
    ghost var db0 := db.State();
    var accounts := GetAccountsByUserID(db.accounts, userId);
    var usd := GetCurrencyByCode(db.currencies, UsdCode);
    if usd.None? {
      return Err(UsdNotFound);
    }
    var lines := BalanceLines(db, accounts, usd.value.id, resp, now);
    r := Ok(lines);
  }

  /** The balance loop over `accounts`. */
  method BalanceLines(db: Store, accounts: seq<Account>, usdId: int, resp: Option<Quotes>, now: int)
    returns (lines: seq<AccountBalance>)
    requires db.Valid() && QuotesPositive(resp)
    modifies db
    ensures db.Valid()
    ensures (lines, db.State()) == BalancesFrom(old(db.State()), accounts, |accounts|, usdId, resp, now)
  {
    ghost var db0 := db.State();
    lines := [];
    var i := 0;
    while i < |accounts|
      invariant 0 <= i <= |accounts|
      invariant db.Valid()
      invariant (lines, db.State()) == BalancesFrom(db0, accounts, i, usdId, resp, now)
    {
      var line := BalanceLine(db, accounts[i], usdId, resp, now);
      lines := lines + [line];
      i := i + 1;
    }
  }

  /** One step of the balance loop. */
  method BalanceLine(db: Store, a: Account, usdId: int, resp: Option<Quotes>, now: int) returns (line: AccountBalance)
    requires db.Valid() && QuotesPositive(resp)
    modifies db
    ensures db.Valid()
    ensures (line, db.State()) == BalanceOf(old(db.State()), a, usdId, resp, now)
  {
    var code := CodeOf(db.currencies, a.currencyId);
    if code != UsdCode {
      var x := GetExchangeRate(db, a.currencyId, usdId, resp, now);
      line := AccountBalance(a.id, code, a.balance, if x.Ok? then Scaled(a.balance, x.value) else 0.0);
    } else {
      line := AccountBalance(a.id, code, a.balance, a.balance);
    }
  }

  // ---------------------------------------------------------------------
  // Coherence with a price table

  /** A row agrees with `price` (units of each currency per reference unit)
      when converting by it agrees with converting through the reference. */
  ghost predicate Agrees(x: ExchangeRate, price: int -> real) {
    x.rate * price(x.baseCurrencyId) == price(x.targetCurrencyId)
  }

  ghost predicate RatesAgree(rates: seq<ExchangeRate>, price: int -> real) {
    forall i :: 0 <= i < |rates| ==> Agrees(rates[i], price)
  }

  ghost predicate PricesPositive(price: int -> real) {
    forall id :: price(id) > 0.0
  }

  /** The provider's quotes agree with `price` for the USD currency `usdId`. */
  ghost predicate QuotesAgree(currencies: seq<Currency>, quotes: Quotes, usdId: int, price: int -> real) {
    forall i :: 0 <= i < |currencies| ==> QuoteAgrees(currencies[i], quotes, usdId, price)
  }

  ghost predicate QuoteAgrees(c: Currency, quotes: Quotes, usdId: int, price: int -> real) {
    c.code in quotes ==> quotes[c.code] * price(usdId) == price(c.id)
  }

  lemma Reciprocal(rho: real, inv: real, pb: real, pt: real)
    requires rho > 0.0 && rho * pt == pb && inv == 1.0 / rho
    ensures inv * pb == pt
  {
    calc {
      inv * pb;
      (1.0 / rho) * (rho * pt);
      ((1.0 / rho) * rho) * pt;
      pt;
    }
  }

  lemma Chain(r1: real, r2: real, prod: real, pa: real, pu: real, pt: real)
    requires r1 * pa == pu && r2 * pu == pt && prod == r1 * r2
    ensures prod * pa == pt
  {
    calc {
      prod * pa;
      (r1 * r2) * pa;
      r2 * (r1 * pa);
      pt;
    }
  }

  lemma RowAgrees(rates: seq<ExchangeRate>, x: ExchangeRate, price: int -> real)
    requires RatesAgree(rates, price) && x in rates
    ensures Agrees(x, price)
  {
    var i :| 0 <= i < |rates| && rates[i] == x;
  }

  /** The rate `q` of a leg agrees with `price`. */
  lemma LegAgrees(rates: seq<ExchangeRate>, a: int, b: int, q: Quote, price: int -> real)
    requires RatesPositive(rates) && RatesAgree(rates, price)
    requires Leg(rates, a, b) == Some(q)
    ensures q.rate * price(a) == price(b)
  {
    if Repository.GetExchangeRate(rates, a, b).Some? {
      RowAgrees(rates, Repository.GetExchangeRate(rates, a, b).value, price);
    } else {
      LegReverseAgrees(rates, a, b, q, price);
    }
  }

  lemma LegReverseAgrees(rates: seq<ExchangeRate>, a: int, b: int, q: Quote, price: int -> real)
    requires RatesPositive(rates) && RatesAgree(rates, price)
    requires Repository.GetExchangeRate(rates, a, b).None? && Leg(rates, a, b) == Some(q)
    ensures q.rate * price(a) == price(b)
  {
    var x := Repository.GetExchangeRate(rates, b, a).value;
    RowAgrees(rates, x, price);
    Reciprocal(x.rate, q.rate, price(a), price(b));
  }

  lemma FallbackAgrees(rates: seq<ExchangeRate>, currencies: seq<Currency>, base: int, target: int, price: int -> real)
    requires RatesPositive(rates) && RatesAgree(rates, price)
    requires Fallback(rates, currencies, base, target).Ok?
    ensures Agrees(Fallback(rates, currencies, base, target).value, price)
  {
    if Repository.GetExchangeRate(rates, target, base).Some? {
      ReverseAgrees(rates, currencies, base, target, price);
    } else {
      FallbackPivotAgrees(rates, currencies, base, target, price);
    }
  }

  lemma FallbackPivotAgrees(rates: seq<ExchangeRate>, currencies: seq<Currency>, base: int, target: int, price: int -> real)
    requires RatesPositive(rates) && RatesAgree(rates, price)
    requires Repository.GetExchangeRate(rates, target, base).None?
    requires Fallback(rates, currencies, base, target).Ok?
    ensures Agrees(Fallback(rates, currencies, base, target).value, price)
  {
    var usd, q1, q2 := FallbackPivot(rates, currencies, base, target);
    LegsAgree(rates, Fallback(rates, currencies, base, target).value, usd, q1, q2, price);
  }

  lemma LegsAgree(rates: seq<ExchangeRate>, f: ExchangeRate, usd: int, q1: Quote, q2: Quote, price: int -> real)
    requires RatesPositive(rates) && RatesAgree(rates, price)
    requires Leg(rates, f.baseCurrencyId, usd) == Some(q1) && Leg(rates, usd, f.targetCurrencyId) == Some(q2)
    requires f == Pivot(f.baseCurrencyId, f.targetCurrencyId, q1, q2)
    ensures Agrees(f, price)
  {
    LegAgrees(rates, f.baseCurrencyId, usd, q1, price);
    LegAgrees(rates, usd, f.targetCurrencyId, q2, price);
    PivotAgrees(f, usd, q1, q2, price);
  }

  lemma ReverseAgrees(rates: seq<ExchangeRate>, currencies: seq<Currency>, base: int, target: int, price: int -> real)
    requires RatesPositive(rates) && RatesAgree(rates, price)
    requires Repository.GetExchangeRate(rates, target, base).Some?
    ensures Fallback(rates, currencies, base, target).Ok?
    ensures Agrees(Fallback(rates, currencies, base, target).value, price)
  {
    var rev := Repository.GetExchangeRate(rates, target, base).value;
    RowAgrees(rates, rev, price);
    Reciprocal(rev.rate, Fallback(rates, currencies, base, target).value.rate, price(base), price(target));
  }

  lemma PivotAgrees(f: ExchangeRate, usd: int, q1: Quote, q2: Quote, price: int -> real)
    requires q1.rate * price(f.baseCurrencyId) == price(usd)
    requires q2.rate * price(usd) == price(f.targetCurrencyId)
    requires f.rate == q1.rate * q2.rate
    ensures Agrees(f, price)
  {
    Chain(q1.rate, q2.rate, f.rate, price(f.baseCurrencyId), price(usd), price(f.targetCurrencyId));
  }

  /** Without an opposite row, a fallback answer is the product of the two
      legs through the USD currency `usd`. */
  lemma FallbackPivot(rates: seq<ExchangeRate>, currencies: seq<Currency>, base: int, target: int)
    returns (usd: int, q1: Quote, q2: Quote)
    requires RatesPositive(rates)
    requires Repository.GetExchangeRate(rates, target, base).None?
    requires Fallback(rates, currencies, base, target).Ok?
    ensures GetCurrencyByCode(currencies, UsdCode).Some? && usd == GetCurrencyByCode(currencies, UsdCode).value.id
    ensures Leg(rates, Fallback(rates, currencies, base, target).value.baseCurrencyId, usd) == Some(q1)
    ensures Leg(rates, usd, Fallback(rates, currencies, base, target).value.targetCurrencyId) == Some(q2)
    ensures Fallback(rates, currencies, base, target).value == Pivot(base, target, q1, q2)
  {
    var row := GetCurrencyByCode(currencies, UsdCode);
    assert row.Some?;
    usd := row.value.id;
    assert Leg(rates, base, usd).Some? && Leg(rates, usd, target).Some?;
    q1, q2 := Leg(rates, base, usd).value, Leg(rates, usd, target).value;
  }

  lemma {:induction false} StoreQuotesAgree(rates: seq<ExchangeRate>, usdId: int, targets: seq<Currency>, quotes: Quotes, now: int, price: int -> real)
    requires RatesAgree(rates, price)
    requires QuotesAgree(targets, quotes, usdId, price)
    ensures RatesAgree(StoreQuotes(rates, usdId, targets, quotes, now), price)
    decreases |targets|
  {
    if targets != [] {
      var init := targets[..|targets| - 1];
      var last := targets[|targets| - 1];
      assert QuotesAgree(init, quotes, usdId, price) by {
        assert forall j :: 0 <= j < |init| ==> init[j] == targets[j];
      }
      StoreQuotesAgree(rates, usdId, init, quotes, now, price);
      if !IsUsd(last) && last.code in quotes {
        UpsertAgrees(StoreQuotes(rates, usdId, init, quotes, now), usdId, last.id, quotes[last.code], now, price);
      }
    }
  }

  /** Storing a row that agrees with `price` keeps the table agreeing. */
  lemma UpsertAgrees(rates: seq<ExchangeRate>, base: int, target: int, rate: real, now: int, price: int -> real)
    requires RatesAgree(rates, price) && Agrees(ExchangeRate(base, target, rate, now), price)
    ensures RatesAgree(UpsertRate(rates, base, target, rate, now), price)
  {
    var r := UpsertRate(rates, base, target, rate, now);
    forall i | 0 <= i < |r| ensures Agrees(r[i], price) {
      if i < |rates| && !SamePair(rates[i], base, target) { assert r[i] == rates[i]; }
    }
  }

  /** Where an answer of the lookup comes from: the identity, a stored row
      (before or after the refresh), or the fallbacks on the final table. */
  lemma ResolveSource(db: Db, base: int, target: int, resp: Option<Quotes>, now: int)
    requires RatesPositive(db.rates) && QuotesPositive(resp)
    requires Resolve(db, base, target, resp, now).0.Ok?
    ensures var r, after := Resolve(db, base, target, resp, now).0, Resolve(db, base, target, resp, now).1;
      (base == target && r.value.rate == 1.0) || r.value in db.rates || r.value in after.rates
      || (RatesPositive(after.rates) && r == Fallback(after.rates, after.currencies, base, target))
  {
    var direct := Repository.GetExchangeRate(db.rates, base, target);
    if base != target && (direct.None? || IsStale(direct.value, now)) {
      var refreshed := Refresh(db, resp, now);
      if refreshed.0.Fail? {
        assert Resolve(db, base, target, resp, now).1 == db;
      } else {
        assert Resolve(db, base, target, resp, now).1 == refreshed.1;
      }
    }
  }

  /** A missing or stale row sends the lookup to the provider. When the
      refresh fails nothing is written and a stale row is still the answer;
      when it succeeds the refreshed table is read again. A pair with no row
      before or after goes to the fallbacks on the final table. */
  lemma ResolveRefreshes(db: Db, base: int, target: int, resp: Option<Quotes>, now: int)
    requires RatesPositive(db.rates) && QuotesPositive(resp)
    requires base != target
    requires Repository.GetExchangeRate(db.rates, base, target).None?
      || IsStale(Repository.GetExchangeRate(db.rates, base, target).value, now)
    ensures var d, r := Repository.GetExchangeRate(db.rates, base, target), Resolve(db, base, target, resp, now);
      && (Refresh(db, resp, now).0.Fail? ==> r.1 == db && (d.Some? ==> r.0 == Ok(d.value)))
      && (Refresh(db, resp, now).0.Pass? ==> r.1 == Refresh(db, resp, now).1)
      && (Refresh(db, resp, now).0.Pass? && Repository.GetExchangeRate(r.1.rates, base, target).Some? ==>
            r.0 == Ok(Repository.GetExchangeRate(r.1.rates, base, target).value))
      && (d.None? && Repository.GetExchangeRate(r.1.rates, base, target).None? ==>
            RatesPositive(r.1.rates) && r.0 == Fallback(r.1.rates, r.1.currencies, base, target))
  {
    RefreshPositive(db, resp, now);
  }

  /** Whenever the stored rates and the provider's quotes agree with one
      price table, every rate the lookup returns agrees with it too:
      direct, reciprocal and pivoted rates are coherent. */
  lemma ResolveAgrees(db: Db, base: int, target: int, resp: Option<Quotes>, now: int, price: int -> real)
    requires RatesPositive(db.rates) && QuotesPositive(resp)
    requires RatesAgree(db.rates, price)
    requires resp.Some? && GetCurrencyByCode(db.currencies, UsdCode).Some? ==>
      QuotesAgree(db.currencies, resp.value, GetCurrencyByCode(db.currencies, UsdCode).value.id, price)
    requires CurrenciesValid(db.currencies)
    requires Resolve(db, base, target, resp, now).0.Ok?
    ensures Agrees(Resolve(db, base, target, resp, now).0.value, price)
    ensures RatesAgree(Resolve(db, base, target, resp, now).1.rates, price)
  {
    RefreshAgrees(db, resp, now, price);
    ResolveSource(db, base, target, resp, now);
    AnswerAgrees(db.rates, Resolve(db, base, target, resp, now).1, Resolve(db, base, target, resp, now).0.value,
                 base, target, price);
  }

  lemma AnswerAgrees(rates: seq<ExchangeRate>, after: Db, x: ExchangeRate, base: int, target: int, price: int -> real)
    requires RatesAgree(rates, price) && RatesAgree(after.rates, price) && RatesPositive(after.rates)
    requires x.baseCurrencyId == base && x.targetCurrencyId == target
    requires (base == target && x.rate == 1.0) || x in rates || x in after.rates
      || Fallback(after.rates, after.currencies, base, target) == Ok(x)
    ensures Agrees(x, price)
  {
    if base == target && x.rate == 1.0 {
    } else if x in rates {
      RowAgrees(rates, x, price);
    } else if x in after.rates {
      RowAgrees(after.rates, x, price);
    } else {
      FallbackAgrees(after.rates, after.currencies, base, target, price);
    }
  }

  lemma RefreshAgrees(db: Db, resp: Option<Quotes>, now: int, price: int -> real)
    requires RatesAgree(db.rates, price)
    requires resp.Some? && GetCurrencyByCode(db.currencies, UsdCode).Some? ==>
      QuotesAgree(db.currencies, resp.value, GetCurrencyByCode(db.currencies, UsdCode).value.id, price)
    requires CurrenciesValid(db.currencies)
    ensures RatesAgree(Refresh(db, resp, now).1.rates, price)
  {
    var after := Refresh(db, resp, now).1;
    if Refresh(db, resp, now).0.Pass? {
      var cs := GetAllCurrencies(db.currencies);
      RefreshUsd(db.currencies);
      var u := Find(cs, IsUsd).value;
      assert after.rates == StoreQuotes(db.rates, u.id, cs, resp.value, now);
      QuotesAgreeSorted(db.currencies, resp.value, u.id, price);
      StoreQuotesAgree(db.rates, u.id, cs, resp.value, now, price);
    }
  }

  lemma QuotesAgreeSorted(currencies: seq<Currency>, quotes: Quotes, usdId: int, price: int -> real)
    requires QuotesAgree(currencies, quotes, usdId, price)
    ensures QuotesAgree(GetAllCurrencies(currencies), quotes, usdId, price)
  {
    var cs := GetAllCurrencies(currencies);
    forall j | 0 <= j < |cs| ensures QuoteAgrees(cs[j], quotes, usdId, price) {
      var k :| 0 <= k < |currencies| && currencies[k] == cs[j];
    }
  }

  // ---------------------------------------------------------------------
  // Coherence of the services built on the lookup

  /** The stored rates and the provider's quotes agree with `price`, over
      well-formed currencies. */
  ghost predicate Coherent(db: Db, resp: Option<Quotes>, price: int -> real) {
    && RatesAgree(db.rates, price) && CurrenciesValid(db.currencies)
    && (resp.Some? && GetCurrencyByCode(db.currencies, UsdCode).Some? ==>
          QuotesAgree(db.currencies, resp.value, GetCurrencyByCode(db.currencies, UsdCode).value.id, price))
  }

  lemma PermutedAgree(a: seq<ExchangeRate>, b: seq<ExchangeRate>, price: int -> real)
    requires multiset(a) == multiset(b) && RatesAgree(b, price)
    ensures RatesAgree(a, price)
  {
    forall i | 0 <= i < |a| ensures Agrees(a[i], price) {
      assert a[i] in multiset(a);
      RowAgrees(b, a[i], price);
    }
  }

  /** Every rate the listing returns agrees with the price table, and so
      does the table it leaves behind. */
  lemma AllRatesAgree(db: Db, resp: Option<Quotes>, now: int, price: int -> real)
    requires Coherent(db, resp, price)
    ensures AllRates(db, resp, now).0.Ok? ==> RatesAgree(AllRates(db, resp, now).0.value, price)
    ensures RatesAgree(AllRates(db, resp, now).1.rates, price)
  {
    RefreshAgrees(db, resp, now, price);
    var r := AllRates(db, resp, now);
    if r.0.Ok? {
      PermutedAgree(r.0.value, r.1.rates, price);
    }
  }

  /** `v` units of currency `t` are worth `amount` units of currency `b`
      at the price table. */
  ghost predicate Worth(v: real, amount: real, b: int, t: int, price: int -> real) {
    v * price(b) == amount * price(t)
  }

  lemma ScaledAgrees(amount: real, x: ExchangeRate, price: int -> real)
    requires Agrees(x, price)
    ensures Worth(Scaled(amount, x), amount, x.baseCurrencyId, x.targetCurrencyId, price)
  {
    calc {
      Scaled(amount, x) * price(x.baseCurrencyId);
      (amount * x.rate) * price(x.baseCurrencyId);
      amount * (x.rate * price(x.baseCurrencyId));
    }
  }

  lemma WorthItself(amount: real, c: int, price: int -> real)
    ensures Worth(amount, amount, c, c, price)
  {
  }

  /** A converted amount is worth, at the price table, what the amount was
      worth in the source account's currency. */
  lemma ConvertAgrees(db: Db, amount: real, fromId: int, toId: int, resp: Option<Quotes>, now: int, price: int -> real)
    requires RatesPositive(db.rates) && QuotesPositive(resp) && Coherent(db, resp, price)
    requires Convert(db, amount, fromId, toId, resp, now).0.Ok?
    ensures GetAccountByID(db.accounts, fromId).Some? && GetAccountByID(db.accounts, toId).Some?
    ensures Worth(Convert(db, amount, fromId, toId, resp, now).0.value, amount,
                  GetAccountByID(db.accounts, fromId).value.currencyId,
                  GetAccountByID(db.accounts, toId).value.currencyId, price)
    ensures RatesAgree(Convert(db, amount, fromId, toId, resp, now).1.rates, price)
  {
    var from := GetAccountByID(db.accounts, fromId).value;
    var to := GetAccountByID(db.accounts, toId).value;
    if from.currencyId != to.currencyId {
      var found := Resolve(db, from.currencyId, to.currencyId, resp, now);
      ResolveAgrees(db, from.currencyId, to.currencyId, resp, now, price);
      ScaledAgrees(amount, found.0.value, price);
      assert Convert(db, amount, fromId, toId, resp, now) == (Ok(Scaled(amount, found.0.value)), found.1);
    } else {
      WorthItself(amount, from.currencyId, price);
    }
  }

  /** Whether the line for `a` has a USD value to show: the account holds
      USD, or the lookup from its currency to USD finds a rate. */
  predicate Priced(db: Db, a: Account, usdId: int, resp: Option<Quotes>, now: int)
    requires RatesPositive(db.rates) && QuotesPositive(resp)
  {
    CodeOf(db.currencies, a.currencyId) == UsdCode || Resolve(db, a.currencyId, usdId, resp, now).0.Ok?
  }

  /** A priced line's USD value is its balance at the price table's rate; an
      unpriced one shows 0. */
  ghost predicate LineAgrees(line: AccountBalance, a: Account, usdId: int, priced: bool, price: int -> real) {
    && (priced ==> Worth(line.balanceInUsd, a.balance, a.currencyId, usdId, price))
    && (!priced ==> line.balanceInUsd == 0.0)
  }

  lemma UsdCodeIsUsd(currencies: seq<Currency>, id: int)
    requires CurrenciesValid(currencies) && GetCurrencyByCode(currencies, UsdCode).Some?
    requires CodeOf(currencies, id) == UsdCode
    ensures id == GetCurrencyByCode(currencies, UsdCode).value.id
  {
    var c := GetCurrencyByID(currencies, id).value;
    var u := GetCurrencyByCode(currencies, UsdCode).value;
    var i :| 0 <= i < |currencies| && currencies[i] == c;
    var j :| 0 <= j < |currencies| && currencies[j] == u;
    assert i == j;
  }

  lemma BalanceOfAgrees(db: Db, a: Account, usdId: int, resp: Option<Quotes>, now: int, price: int -> real)
    requires RatesPositive(db.rates) && QuotesPositive(resp) && Coherent(db, resp, price)
    requires GetCurrencyByCode(db.currencies, UsdCode).Some? && GetCurrencyByCode(db.currencies, UsdCode).value.id == usdId
    ensures LineAgrees(BalanceOf(db, a, usdId, resp, now).0, a, usdId, Priced(db, a, usdId, resp, now), price)
    ensures Coherent(BalanceOf(db, a, usdId, resp, now).1, resp, price)
  {
    BalanceOfLineAgrees(db, a, usdId, resp, now, price);
    BalanceOfCoherent(db, a, usdId, resp, now, price);
  }

  lemma BalanceOfCoherent(db: Db, a: Account, usdId: int, resp: Option<Quotes>, now: int, price: int -> real)
    requires RatesPositive(db.rates) && QuotesPositive(resp) && Coherent(db, resp, price)
    ensures Coherent(BalanceOf(db, a, usdId, resp, now).1, resp, price)
  {
    RefreshAgrees(db, resp, now, price);
    CoherentKept(db, BalanceOf(db, a, usdId, resp, now).1, resp, price);
  }

  lemma BalanceOfLineAgrees(db: Db, a: Account, usdId: int, resp: Option<Quotes>, now: int, price: int -> real)
    requires RatesPositive(db.rates) && QuotesPositive(resp) && Coherent(db, resp, price)
    requires GetCurrencyByCode(db.currencies, UsdCode).Some? && GetCurrencyByCode(db.currencies, UsdCode).value.id == usdId
    ensures LineAgrees(BalanceOf(db, a, usdId, resp, now).0, a, usdId, Priced(db, a, usdId, resp, now), price)
  {
    if CodeOf(db.currencies, a.currencyId) != UsdCode {
      var found := Resolve(db, a.currencyId, usdId, resp, now);
      if found.0.Ok? {
        ResolveAgrees(db, a.currencyId, usdId, resp, now, price);
        ScaledAgrees(a.balance, found.0.value, price);
        assert BalanceOf(db, a, usdId, resp, now).0.balanceInUsd == Scaled(a.balance, found.0.value);
      }
    } else {
      UsdCodeIsUsd(db.currencies, a.currencyId);
      WorthItself(a.balance, usdId, price);
    }
  }

  /** A table that differs only in rates that agree with `price` stays coherent. */
  lemma CoherentKept(db: Db, after: Db, resp: Option<Quotes>, price: int -> real)
    requires Coherent(db, resp, price) && after == db.(rates := after.rates) && RatesAgree(after.rates, price)
    ensures Coherent(after, resp, price)
  {
  }

  /** Every table the balance loop passes through stays coherent. */
  lemma {:induction false} BalancesFromCoherent(db: Db, accounts: seq<Account>, n: nat, usdId: int, resp: Option<Quotes>, now: int, price: int -> real)
    requires n <= |accounts| && RatesPositive(db.rates) && QuotesPositive(resp) && Coherent(db, resp, price)
    ensures Coherent(BalancesFrom(db, accounts, n, usdId, resp, now).1, resp, price)
  {
    if n > 0 {
      BalancesFromCoherent(db, accounts, n - 1, usdId, resp, now, price);
      var prev := BalancesFrom(db, accounts, n - 1, usdId, resp, now);
      BalanceOfCoherent(prev.1, accounts[n - 1], usdId, resp, now, price);
    }
  }

  /** Every USD value the balance report shows is the account's balance at
      the price table's rate when its line was priced, and 0 otherwise. */
  lemma UsdBalancesAgree(db: Db, userId: int, resp: Option<Quotes>, now: int, price: int -> real)
    requires RatesPositive(db.rates) && QuotesPositive(resp) && Coherent(db, resp, price)
    ensures var r := UsdBalances(db, userId, resp, now).0;
      var accounts := GetAccountsByUserID(db.accounts, userId);
      r.Ok? ==>
        var usdId := GetCurrencyByCode(db.currencies, UsdCode).value.id;
        forall k :: 0 <= k < |r.value| ==>
          LineAgrees(r.value[k], accounts[k], usdId,
                     Priced(BalancesFrom(db, accounts, k, usdId, resp, now).1, accounts[k], usdId, resp, now), price)
  {
    var usd := GetCurrencyByCode(db.currencies, UsdCode);
    if usd.Some? {
      var accounts := GetAccountsByUserID(db.accounts, userId);
      var usdId := usd.value.id;
      forall k | 0 <= k < |accounts|
        ensures LineAgrees(BalanceOf(BalancesFrom(db, accounts, k, usdId, resp, now).1, accounts[k], usdId, resp, now).0, accounts[k], usdId,
                           Priced(BalancesFrom(db, accounts, k, usdId, resp, now).1, accounts[k], usdId, resp, now), price)
      {
        BalancesFromCoherent(db, accounts, k, usdId, resp, now, price);
        BalanceOfLineAgrees(BalancesFrom(db, accounts, k, usdId, resp, now).1, accounts[k], usdId, resp, now, price);
      }
    }
  }
}
