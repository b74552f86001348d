/** The browser client's own logic: rates worked out from the lists it has
    loaded, equivalents of an amount in several currencies, the password and
    transaction checks run before a request is sent, the password-strength
    meter, and the five-minute response cache. JavaScript numbers are
    modelled as exact reals (`toFixed(2)` rounding is not modelled); the
    clock is the `now` parameter, in milliseconds. */
module WebClient {
  import opened Wrappers
  import opened Seqs
  import opened Models
  import opened Repository
  import ExchangeService

  // ---------------------------------------------------------------------
  // CurrencyConversion.getRate

  /** The rate between two known currency ids, as the client works it out
      from the loaded rows: the direct row, else the reciprocal of the
      opposite row, else the product of the two legs through the currency
      coded "USD", each leg its direct row or the reciprocal of the
      opposite one; `None` is JavaScript's `null`. After the direct row the
      client repeats the server's fallback step for step, so that step is
      written with it. */
  function PairRate(currencies: seq<Currency>, rates: seq<ExchangeRate>, a: int, b: int): (r: Option<real>)
    requires RatesPositive(rates)
    ensures r.Some? ==> r.value > 0.0
    ensures Repository.GetExchangeRate(rates, a, b).Some? ==>
      r == Some(Repository.GetExchangeRate(rates, a, b).value.rate)
    ensures Repository.GetExchangeRate(rates, a, b).None? && Repository.GetExchangeRate(rates, b, a).Some? ==>
      r == Some(1.0 / Repository.GetExchangeRate(rates, b, a).value.rate)
  {
    match Repository.GetExchangeRate(rates, a, b)
    case Some(direct) => Some(direct.rate)
    case None =>
      match ExchangeService.Fallback(rates, currencies, a, b)
      case Ok(x) => Some(x.rate)
      case Err(_) => None
  }

  /** With neither row of the pair, the answer goes through USD: none
      without a currency coded "USD" or with either leg missing, else the
      product of the legs. */
  lemma PairRatePivot(currencies: seq<Currency>, rates: seq<ExchangeRate>, a: int, b: int)
    requires RatesPositive(rates)
    requires Repository.GetExchangeRate(rates, a, b).None? && Repository.GetExchangeRate(rates, b, a).None?
    ensures var usd := GetCurrencyByCode(currencies, "USD");
      && (usd.None? ==> PairRate(currencies, rates, a, b).None?)
      && (usd.Some? ==>
            var toUsd, fromUsd := ExchangeService.Leg(rates, a, usd.value.id), ExchangeService.Leg(rates, usd.value.id, b);
            PairRate(currencies, rates, a, b)
              == if toUsd.Some? && fromUsd.Some? then Some(toUsd.value.rate * fromUsd.value.rate) else None)
  {
    var usd := GetCurrencyByCode(currencies, "USD");
    if usd.Some? {
      var toUsd, fromUsd := ExchangeService.Leg(rates, a, usd.value.id), ExchangeService.Leg(rates, usd.value.id, b);
      if toUsd.Some? && fromUsd.Some? {
        assert ExchangeService.Fallback(rates, currencies, a, b)
          == Ok(ExchangeService.Pivot(a, b, toUsd.value, fromUsd.value));
      }
    }
  }

  /** `getRate`: 1 when either code is empty or both are the same; `None`
      when either code names no loaded currency; otherwise the pair's rate. */
  function GetRate(currencies: seq<Currency>, rates: seq<ExchangeRate>, fromCode: string, toCode: string): (r: Option<real>)
    requires RatesPositive(rates)
    ensures fromCode == "" || toCode == "" || fromCode == toCode ==> r == Some(1.0)
    ensures fromCode != "" && toCode != "" && fromCode != toCode ==>
      ((GetCurrencyByCode(currencies, fromCode).None? || GetCurrencyByCode(currencies, toCode).None?) ==> r.None?)
    ensures r.Some? ==> r.value > 0.0
  {
    if fromCode == "" || toCode == "" || fromCode == toCode then Some(1.0)
    else
      match GetCurrencyByCode(currencies, fromCode)
      case None => None
      case Some(from) =>
        match GetCurrencyByCode(currencies, toCode)
        case None => None
        case Some(to) => PairRate(currencies, rates, from.id, to.id)
  }

  /** Converting one unit of `a` at rate `v` gives what `price` says one
      unit of `a` is worth in `b`. */
  ghost predicate Converts(v: real, a: int, b: int, price: int -> real) {
    v * price(a) == price(b)
  }

  /** The client's rates are consistent with any price table that every
      loaded row agrees with: converting by the answer agrees with
      converting through the reference. */
  lemma GetRateAgrees(currencies: seq<Currency>, rates: seq<ExchangeRate>, fromCode: string, toCode: string,
                      price: int -> real)
    requires RatesPositive(rates) && ExchangeService.RatesAgree(rates, price)
    requires fromCode != "" && toCode != "" && fromCode != toCode
    requires GetRate(currencies, rates, fromCode, toCode).Some?
    ensures GetCurrencyByCode(currencies, fromCode).Some? && GetCurrencyByCode(currencies, toCode).Some?
    ensures Converts(GetRate(currencies, rates, fromCode, toCode).value,
                     GetCurrencyByCode(currencies, fromCode).value.id, GetCurrencyByCode(currencies, toCode).value.id, price)
  {
    var a, b := GetCurrencyByCode(currencies, fromCode).value.id, GetCurrencyByCode(currencies, toCode).value.id;
    assert GetRate(currencies, rates, fromCode, toCode) == PairRate(currencies, rates, a, b);
    PairRateAgrees(currencies, rates, a, b, price);
  }

  lemma PairRateAgrees(currencies: seq<Currency>, rates: seq<ExchangeRate>, a: int, b: int, price: int -> real)
    requires RatesPositive(rates) && ExchangeService.RatesAgree(rates, price)
    requires PairRate(currencies, rates, a, b).Some?
    ensures Converts(PairRate(currencies, rates, a, b).value, a, b, price)
  {
    var direct := Repository.GetExchangeRate(rates, a, b);
    if direct.Some? {
      ExchangeService.RowAgrees(rates, direct.value, price);
    } else {
      FallbackRateAgrees(currencies, rates, a, b, price);
    }
  }

  lemma FallbackRateAgrees(currencies: seq<Currency>, rates: seq<ExchangeRate>, a: int, b: int, price: int -> real)
    requires RatesPositive(rates) && ExchangeService.RatesAgree(rates, price)
    requires Repository.GetExchangeRate(rates, a, b).None? && PairRate(currencies, rates, a, b).Some?
    ensures Converts(PairRate(currencies, rates, a, b).value, a, b, price)
  {
    ExchangeService.FallbackAgrees(rates, currencies, a, b, price);
    AnswerAgrees(PairRate(currencies, rates, a, b), ExchangeService.Fallback(rates, currencies, a, b), a, b, price);
  }

  lemma AnswerAgrees(p: Option<real>, f: Result<ExchangeRate, Error>, a: int, b: int, price: int -> real)
    requires f.Ok? && p == Some(f.value.rate) && f.value.baseCurrencyId == a && f.value.targetCurrencyId == b
    requires ExchangeService.Agrees(f.value, price)
    ensures Converts(p.value, a, b, price)
  {
  }

  // ---------------------------------------------------------------------
  // CurrencyConversion.getEquivalents

  datatype Equivalent = Equivalent(code: string, amount: real)

  /** The rate used for an equivalent: an unresolved rate counts as 0. */
  function RateOrZero(currencies: seq<Currency>, rates: seq<ExchangeRate>, fromCode: string, toCode: string): (r: real)
    requires RatesPositive(rates)
    ensures r >= 0.0
    ensures r == 0.0 <==> GetRate(currencies, rates, fromCode, toCode).None?
    ensures r > 0.0 ==> GetRate(currencies, rates, fromCode, toCode) == Some(r)
  {
    match GetRate(currencies, rates, fromCode, toCode)
    case Some(v) => v
    case None => 0.0
  }

  /** `getEquivalents`: one entry per distinct code, in the order the codes
      first occur, each holding `amount` times the rate from `fromCode`. */
  function Equivalents(currencies: seq<Currency>, rates: seq<ExchangeRate>, amount: real, fromCode: string,
                       codes: seq<string>): (r: seq<Equivalent>)
    requires RatesPositive(rates)
    ensures |r| == |Distinct(codes)|
    ensures forall k :: 0 <= k < |r| ==> r[k] == EquivalentOf(currencies, rates, amount, fromCode, Distinct(codes)[k])
  {
    var uniq := Distinct(codes);
    seq(|uniq|, k requires 0 <= k < |uniq| => EquivalentOf(currencies, rates, amount, fromCode, uniq[k]))
  }

  /** The entry for one code. */
  function EquivalentOf(currencies: seq<Currency>, rates: seq<ExchangeRate>, amount: real, fromCode: string,
                        code: string): Equivalent
    requires RatesPositive(rates)
  {
    Equivalent(code, amount * RateOrZero(currencies, rates, fromCode, code))
  }

  /** Every requested code gets exactly one entry. */
  lemma EquivalentsOnePerCode(currencies: seq<Currency>, rates: seq<ExchangeRate>, amount: real, fromCode: string,
                              codes: seq<string>, c: string)
    requires RatesPositive(rates)
    ensures var r := Equivalents(currencies, rates, amount, fromCode, codes);
      (c in codes <==> exists k :: 0 <= k < |r| && r[k].code == c)
      && forall i, j :: 0 <= i < j < |r| ==> r[i].code != r[j].code
  {
    var r := Equivalents(currencies, rates, amount, fromCode, codes);
    if c in codes {
      var i :| 0 <= i < |codes| && codes[i] == c;
      var k :| 0 <= k < |Distinct(codes)| && Distinct(codes)[k] == c;
      assert r[k].code == c;
    }
  }

  /** First-occurrence order: the entries for a prefix of the codes are a
      prefix of the entries for all of them. */
  lemma EquivalentsPrefix(currencies: seq<Currency>, rates: seq<ExchangeRate>, amount: real, fromCode: string,
                          codes: seq<string>, n: nat)
    requires RatesPositive(rates) && n <= |codes|
    ensures Equivalents(currencies, rates, amount, fromCode, codes[..n])
      <= Equivalents(currencies, rates, amount, fromCode, codes)
  {
    DistinctPrefix(codes, n);
    var short, long := Equivalents(currencies, rates, amount, fromCode, codes[..n]),
                       Equivalents(currencies, rates, amount, fromCode, codes);
    assert forall k :: 0 <= k < |short| ==> short[k] == long[k] by {
      forall k | 0 <= k < |short|
        ensures short[k] == long[k]
      {
        assert Distinct(codes[..n])[k] == Distinct(codes)[k];
      }
    }
  }

  /** The entry for the source currency itself holds the amount unchanged. */
  lemma EquivalentOfSource(currencies: seq<Currency>, rates: seq<ExchangeRate>, amount: real, fromCode: string,
                           codes: seq<string>, k: nat)
    requires RatesPositive(rates)
    requires k < |Equivalents(currencies, rates, amount, fromCode, codes)|
    requires Equivalents(currencies, rates, amount, fromCode, codes)[k].code == fromCode
    ensures Equivalents(currencies, rates, amount, fromCode, codes)[k].amount == amount
  {
  }

  // ---------------------------------------------------------------------
  // SecurityManager.validatePassword and the strength meter

  predicate IsUpper(c: char) { 'A' <= c <= 'Z' }
  predicate IsLower(c: char) { 'a' <= c <= 'z' }
  /** `\d` without the Unicode flag: the ASCII digits only. */
  predicate IsDigit(c: char) { '0' <= c <= '9' }
  predicate IsAlphanumeric(c: char) { IsUpper(c) || IsLower(c) || IsDigit(c) }
  predicate IsSymbol(c: char) { !IsAlphanumeric(c) }

  /** A one-character-class regular expression's `test`: scans the string
      for a character of the class. */
  function Test(s: string, matches: char -> bool): (r: bool)
    ensures r <==> exists i :: 0 <= i < |s| && matches(s[i])
  {
    if s == [] then false
    else if matches(s[0]) then true
    else
      assert forall i :: 1 <= i < |s| ==> s[i] == s[1..][i - 1];
      Test(s[1..], matches)
  }

  const MinPasswordLength: nat := 8

  /** `validatePassword`: at least eight characters with an upper-case
      letter, a lower-case letter and a digit. */
  function ValidatePassword(password: string): (r: bool)
    ensures r <==> (
      && |password| >= MinPasswordLength
      && (exists i :: 0 <= i < |password| && IsUpper(password[i]))
      && (exists i :: 0 <= i < |password| && IsLower(password[i]))
      && (exists i :: 0 <= i < |password| && IsDigit(password[i])))
  {
    var hasUpperCase := Test(password, IsUpper);
    var hasLowerCase := Test(password, IsLower);
    var hasNumbers := Test(password, IsDigit);
    |password| >= MinPasswordLength && hasUpperCase && hasLowerCase && hasNumbers
  }

  /** A password the client accepts also passes the server's register
      binding, which asks for six characters only. */
  lemma ClientPasswordPassesServer(req: RegisterRequest, isEmail: string -> bool)
    requires ValidatePassword(req.password) && req.username != "" && req.email != "" && isEmail(req.email)
    ensures RegisterRequestValid(req, isEmail)
  {
  }

  function Point(b: bool): nat { if b then 1 else 0 }

  /** The strength score: a point each for eight or more characters, a
      digit, both letter cases, and a character that is neither a letter
      nor a digit. */
  function StrengthScore(value: string): (score: nat)
    ensures score <= 4
    ensures score == 4 <==>
      (|value| >= 8 && Test(value, IsDigit) && Test(value, IsLower) && Test(value, IsUpper) && Test(value, IsSymbol))
    ensures score == 0 <==>
      (|value| < 8 && !Test(value, IsDigit) && !(Test(value, IsLower) && Test(value, IsUpper)) && !Test(value, IsSymbol))
  {
    Point(|value| >= 8) + Point(Test(value, IsDigit)) + Point(Test(value, IsLower) && Test(value, IsUpper))
      + Point(Test(value, IsSymbol))
  }

  datatype Level = Weak | Medium | Good | Strong

  /** The bar's width in percent and its colour class. */
  function Meter(value: string): (r: (nat, Level))
    ensures r.0 == 25 * StrengthScore(value) && r.0 <= 100
    ensures r.1 == Weak <==> StrengthScore(value) <= 1
    ensures r.1 == Medium <==> StrengthScore(value) == 2
    ensures r.1 == Good <==> StrengthScore(value) == 3
    ensures r.1 == Strong <==> StrengthScore(value) == 4
  {
    var score := StrengthScore(value);
    ([0, 25, 50, 75, 100][score],
     if score <= 1 then Weak else if score == 2 then Medium else if score == 3 then Good else Strong)
  }

  /** A password the validator accepts scores at least three. */
  lemma ValidPasswordScoresThree(password: string)
    requires ValidatePassword(password)
    ensures StrengthScore(password) >= 3
    ensures Meter(password).1 == Good || Meter(password).1 == Strong
  {
  }

  /** The meter is no substitute for the validator: a password without a
      capital letter scores three yet is refused. */
  lemma GoodScoreNotValid()
    ensures StrengthScore("password1!") == 3 && !ValidatePassword("password1!")
  {
    SampleClasses();
  }

  /** Which character classes "password1!" contains. */
  lemma SampleClasses()
    ensures var p := "password1!";
      Test(p, IsDigit) && Test(p, IsSymbol) && Test(p, IsLower) && !Test(p, IsUpper)
  {
    var p := "password1!";
    assert IsDigit(p[8]) && IsSymbol(p[9]) && IsLower(p[0]);
    assert !exists i :: 0 <= i < |p| && IsUpper(p[i]);
  }

  // ---------------------------------------------------------------------
  // SecurityManager.validateTransaction

  /** A JavaScript number. */
  datatype JsNumber = Finite(value: real) | PositiveInfinity | NegativeInfinity | NaN

  /** `n <= 0`: false for NaN. */
  predicate AtMostZero(n: JsNumber) {
    match n
    case Finite(v) => v <= 0.0
    case NegativeInfinity => true
    case _ => false
  }

  /** The three messages `validateTransaction` throws with. */
  datatype TransactionProblem = AmountNotPositive | AmountInvalid | KindInvalid

  /** `validateTransaction`: an amount that is not positive, then one that
      is not finite, then a type other than income or expense. */
  function ValidateTransaction(amount: JsNumber, kind: string): (r: Result<bool, TransactionProblem>)
    ensures r.Ok? <==> amount.Finite? && amount.value > 0.0 && (kind == Income || kind == Expense)
    ensures r.Ok? ==> r.value
    ensures r == Err(AmountNotPositive) <==> amount == NegativeInfinity || (amount.Finite? && amount.value <= 0.0)
    ensures r == Err(AmountInvalid) <==> amount == PositiveInfinity || amount == NaN
  {
    if AtMostZero(amount) then Err(AmountNotPositive)
    else if !amount.Finite? then Err(AmountInvalid)
    else if !(kind in [Income, Expense]) then Err(KindInvalid)
    else Ok(true)
  }

  /** The client's check on a finite amount and the type agrees with the
      server's binding of the same fields. */
  lemma ClientTransactionCheckMatchesServer(req: TransactionRequest)
    requires req.categoryId != 0 && req.date != ""
    ensures ValidateTransaction(Finite(req.amount), req.kind).Ok? <==> TransactionRequestValid(req)
  {
  }

  // ---------------------------------------------------------------------
  // CacheService

  datatype CacheEntry<T> = CacheEntry(data: T, timestamp: int)

  /** Five minutes, in milliseconds. */
  const CacheTtl: int := 5 * 60 * 1000

  predicate Expired<T>(e: CacheEntry<T>, now: int) { now - e.timestamp > CacheTtl }

  /** What `get` answers for `key` at `now`. */
  function Lookup<T>(cache: map<string, CacheEntry<T>>, key: string, now: int): (r: Option<T>)
    ensures r.Some? <==> key in cache && now - cache[key].timestamp <= CacheTtl
    ensures r.Some? ==> r.value == cache[key].data
  {
    if key !in cache || Expired(cache[key], now) then None else Some(cache[key].data)
  }

  /** The map after `get`: an expired entry for `key` is removed. */
  function Evicted<T>(cache: map<string, CacheEntry<T>>, key: string, now: int): (r: map<string, CacheEntry<T>>)
    ensures r.Keys <= cache.Keys
    ensures forall k :: k in r ==> r[k] == cache[k]
    ensures key in cache && !(key in r) <==> key in cache && Expired(cache[key], now)
  {
    if key in cache && Expired(cache[key], now) then cache - {key} else cache
  }

  /** Removing an expired entry changes no answer, now or later. */
  lemma EvictionInvisible<T>(cache: map<string, CacheEntry<T>>, key: string, now: int, later: int, k: string)
    requires now <= later
    ensures Lookup(Evicted(cache, key, now), k, later) == Lookup(cache, k, later)
  {
  }

  /** An entry just stored is returned for five minutes and not after. */
  lemma StoredReturnedForTtl<T>(cache: map<string, CacheEntry<T>>, key: string, data: T, at: int, now: int)
    ensures Lookup(cache[key := CacheEntry(data, at)], key, now) == (if now - at <= CacheTtl then Some(data) else None)
  {
  }

  /** Storing under one key changes no other key's answer. */
  lemma StoreKeepsOthers<T>(cache: map<string, CacheEntry<T>>, key: string, data: T, at: int, k: string, now: int)
    requires k != key
    ensures Lookup(cache[key := CacheEntry(data, at)], k, now) == Lookup(cache, k, now)
  {
  }

  /** `CacheService`: a map from keys to the data and the time it was set. */
  class Cache<T> {
    var entries: map<string, CacheEntry<T>>

    constructor()
      ensures entries == map[]
    {
      entries := map[];
    }

    /** `set`: stores the data stamped with the current time, replacing any
        earlier entry for the key. */
    method Set(key: string, data: T, now: int)
      modifies this
      ensures entries == old(entries)[key := CacheEntry(data, now)]
    {
      entries := entries[key := CacheEntry(data, now)];
    }

    /** `get`: nothing for a missing key; nothing for an entry older than
        the lifetime, which is deleted; otherwise the stored data. */
    method Get(key: string, now: int) returns (r: Option<T>)
      modifies this
      ensures r == Lookup(old(entries), key, now)
      ensures entries == Evicted(old(entries), key, now)
    {
      if key !in entries {
        return None;
      }
      var item := entries[key];
      if now - item.timestamp > CacheTtl {
        entries := entries - {key};
        return None;
      }
      r := Some(item.data);
    }

    /** `clear`: empties the cache. */
    method Clear()
      modifies this
      ensures entries == map[]
    {
      entries := map[];
    }
  }
}
