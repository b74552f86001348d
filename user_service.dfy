/** Identity and sessions: registration with a unique email, login that
    opens a seven-day session, token validation, logout, and the choice of
    a default currency. The bcrypt hash of a new password, the bcrypt
    comparison and the JWT generator are inputs. */
module UserService {
  import opened Wrappers
  import opened Models
  import opened Repository
  import AccountService

  /** Seven days, in seconds. */
  const SessionLifetime: int := 7 * 24 * 3600

  /** No two users share an email. */
  ghost predicate EmailsUnique(users: seq<User>) {
    forall i, j :: 0 <= i < j < |users| ==> users[i].email != users[j].email
  }

  // ---------------------------------------------------------------------
  // Register

  /** An email already stored is refused; otherwise the user row is the only
      write: no account and no default currency. `hash` is the bcrypt hash of
      the password, `None` when hashing fails. */
  function RegisterSpec(db: Db, username: string, email: string, hash: Option<string>, now: int): (r: (Result<User, Error>, Db))
    ensures r.0 == Err(EmailTaken) <==> GetUserByEmail(db.users, email).Some?
    ensures r.0 == Err(HashFailed) <==> GetUserByEmail(db.users, email).None? && hash.None?
    ensures r.0.Err? ==> r.1 == db
    ensures r.0.Ok? ==>
      && r.0.value == User(db.nextUserId, username, email, hash.value, None, now, now)
      && r.1 == db.(users := db.users + [r.0.value], nextUserId := db.nextUserId + 1)
  {
    if GetUserByEmail(db.users, email).Some? then (Err(EmailTaken), db)
    else if hash.None? then (Err(HashFailed), db)
    else
      var u := User(db.nextUserId, username, email, hash.value, None, now, now);
      (Ok(u), db.(users := db.users + [u], nextUserId := db.nextUserId + 1))
  }

  /** A registration request that passes its binding, with a free address
      and a hash, registers a user with a non-empty name, a well-formed
      address and the hash, never the plain password's length below six. */
  lemma RegisterRequestRegisters(db: Db, req: RegisterRequest, isEmail: string -> bool, hash: Option<string>, now: int)
    requires RegisterRequestValid(req, isEmail) && hash.Some?
    requires GetUserByEmail(db.users, req.email).None?
    ensures var r := RegisterSpec(db, req.username, req.email, hash, now);
      && r.0.Ok? && r.0.value.username != "" && r.0.value.email != "" && isEmail(r.0.value.email)
      && r.0.value.passwordHash == hash.value && r.1.users == db.users + [r.0.value]
  {
  }

  method Register(db: Store, username: string, email: string, hash: Option<string>, now: int) returns (r: Result<User, Error>)
    requires db.Valid()
    modifies db
    ensures db.Valid()
    ensures (r, db.State()) == RegisterSpec(old(db.State()), username, email, hash, now)
  {
    var existing := GetUserByEmail(db.users, email);
    if existing.Some? {
      return Err(EmailTaken);
    }
    if hash.None? {
      return Err(HashFailed);
    }
    var u := db.CreateUser(username, email, hash.value, now);
    r := Ok(u);
  }

  /** Registration keeps emails unique, and the new user is the one found
      by its email afterwards. */
  lemma RegisterKeepsEmailsUnique(db: Db, username: string, email: string, hash: Option<string>, now: int)
    requires EmailsUnique(db.users)
    ensures var r := RegisterSpec(db, username, email, hash, now);
      EmailsUnique(r.1.users) && (r.0.Ok? ==> GetUserByEmail(r.1.users, email) == Some(r.0.value))
  {
    var r := RegisterSpec(db, username, email, hash, now);
    if r.0.Ok? {
      var users := r.1.users;
      assert forall i :: 0 <= i < |db.users| ==> users[i] == db.users[i];
      assert users[|db.users|] == r.0.value;
    }
  }

  // ---------------------------------------------------------------------
  // Login

  datatype LoginResult = LoginResult(user: User, token: string)

  /** An unknown email and a wrong password give the same error; on success
      a session for the user is stored that expires seven days from now.
      `matches(hash, password)` is bcrypt's comparison and `token` the JWT,
      `None` when it cannot be generated. */
  function LoginSpec(db: Db, email: string, password: string, matches: (string, string) -> bool,
                     token: Option<string>, now: int): (r: (Result<LoginResult, Error>, Db))
    ensures r.0 == Err(InvalidCredentials) <==>
      GetUserByEmail(db.users, email).None? || !matches(GetUserByEmail(db.users, email).value.passwordHash, password)
    ensures r.0.Err? ==> r.1 == db
    ensures r.0.Ok? ==>
      && token.Some?
      && r.0.value == LoginResult(GetUserByEmail(db.users, email).value, token.value)
      && r.0.value.user.defaultCurrencyId.None?
      && (forall i :: 0 <= i < |db.sessions| ==> db.sessions[i].token != token.value)
      && r.1 == db.(sessions := db.sessions + [Session(db.nextSessionId, r.0.value.user.id, token.value, now + SessionLifetime, now)],
                    nextSessionId := db.nextSessionId + 1)
    ensures r.0.Err? && r.0 != Err(InvalidCredentials) ==>
      r.0 == Err(TokenFailed) || r.0 == Err(DuplicateToken)
  {
    match GetUserByEmail(db.users, email)
    case None => (Err(InvalidCredentials), db)
    case Some(u) =>
      if !matches(u.passwordHash, password) then (Err(InvalidCredentials), db)
      else match token
        case None => (Err(TokenFailed), db)
        case Some(t) =>
          if exists i :: 0 <= i < |db.sessions| && db.sessions[i].token == t then (Err(DuplicateToken), db)
          else (Ok(LoginResult(u, t)),
                db.(sessions := db.sessions + [Session(db.nextSessionId, u.id, t, now + SessionLifetime, now)],
                    nextSessionId := db.nextSessionId + 1))
  }

  method Login(db: Store, email: string, password: string, matches: (string, string) -> bool,
               token: Option<string>, now: int) returns (r: Result<LoginResult, Error>)
    requires db.Valid()
    modifies db
    ensures db.Valid()
    ensures (r, db.State()) == LoginSpec(old(db.State()), email, password, matches, token, now)
  {
    ghost var db0 := db.State();
    ghost var spec := LoginSpec(db0, email, password, matches, token, now);
    var user := GetUserByEmail(db.users, email);
    if user.None? || !matches(user.value.passwordHash, password) {
      assert spec == (Err(InvalidCredentials), db0);
      return Err(InvalidCredentials);
    }
    var u := user.value;
    if token.None? {
      assert spec == (Err(TokenFailed), db0);
      return Err(TokenFailed);
    }
    var session := db.CreateSession(u.id, token.value, now + SessionLifetime, now);
    if session.Err? {
      assert spec == (Err(DuplicateToken), db0);
      return Err(session.error);
    }
    r := Ok(LoginResult(u, token.value));
    LoginStored(db0, email, password, matches, token.value, now);
  }

  /** A login that passes every check, spelled out. */
  lemma LoginStored(db: Db, email: string, password: string, matches: (string, string) -> bool, token: string, now: int)
    requires GetUserByEmail(db.users, email).Some?
    requires matches(GetUserByEmail(db.users, email).value.passwordHash, password)
    requires forall i :: 0 <= i < |db.sessions| ==> db.sessions[i].token != token
    ensures var u := GetUserByEmail(db.users, email).value;
      LoginSpec(db, email, password, matches, Some(token), now)
        == (Ok(LoginResult(u, token)),
            db.(sessions := db.sessions + [Session(db.nextSessionId, u.id, token, now + SessionLifetime, now)],
                nextSessionId := db.nextSessionId + 1))
  {
  }

  /** The session a login opens is found by its token from the moment of the
      login until seven days later, and not from then on. */
  lemma LoginSessionLifetime(db: Db, email: string, password: string, matches: (string, string) -> bool,
                             token: Option<string>, now: int, at: int)
    requires LoginSpec(db, email, password, matches, token, now).0.Ok?
    ensures var after := LoginSpec(db, email, password, matches, token, now).1;
      GetSessionByToken(after.sessions, token.value, at).Some? <==> at < now + SessionLifetime
  {
    var after := LoginSpec(db, email, password, matches, token, now).1;
    var s := after.sessions[|db.sessions|];
    assert s.token == token.value && s.expiresAt == now + SessionLifetime;
    assert forall i :: 0 <= i < |db.sessions| ==> after.sessions[i] == db.sessions[i];
    if at < now + SessionLifetime {
      assert s.token == token.value && s.expiresAt > at;
    }
  }

  /** A registered user logs in with the password whose hash was stored. */
  lemma RegisterThenLogin(db: Db, username: string, email: string, hash: string, password: string,
                          matches: (string, string) -> bool, token: string, now: int, later: int)
    requires GetUserByEmail(db.users, email).None? && matches(hash, password)
    requires forall i :: 0 <= i < |db.sessions| ==> db.sessions[i].token != token
    ensures var reg := RegisterSpec(db, username, email, Some(hash), now);
      var login := LoginSpec(reg.1, email, password, matches, Some(token), later);
      login.0 == Ok(LoginResult(reg.0.value, token))
  {
    var reg := RegisterSpec(db, username, email, Some(hash), now);
    var users := reg.1.users;
    assert forall i :: 0 <= i < |db.users| ==> users[i] == db.users[i];
    assert users[|db.users|] == reg.0.value;
    assert GetUserByEmail(users, email) == Some(reg.0.value);
  }

  // ---------------------------------------------------------------------
  // ValidateToken and Logout

  /** A live session for the token, then its user; each missing step has its
      own error. */
  function ValidateToken(db: Db, token: string, now: int): (r: Result<User, Error>)
    ensures r == Err(InvalidOrExpiredToken) <==> GetSessionByToken(db.sessions, token, now).None?
    ensures r == Err(UserNotFound) <==>
      GetSessionByToken(db.sessions, token, now).Some?
      && GetUserByID(db.users, GetSessionByToken(db.sessions, token, now).value.userId).None?
    ensures r.Ok? ==>
      (exists i :: 0 <= i < |db.sessions| && db.sessions[i].token == token && db.sessions[i].expiresAt > now
                   && db.sessions[i].userId == r.value.id)
      && (exists i :: 0 <= i < |db.users| && db.users[i].id == r.value.id && r.value == Scanned(db.users[i]))
      && r.value.defaultCurrencyId.None?
  {
    match GetSessionByToken(db.sessions, token, now)
    case None => Err(InvalidOrExpiredToken)
    case Some(s) =>
      match GetUserByID(db.users, s.userId)
      case None => Err(UserNotFound)
      case Some(u) => Ok(u)
  }

  method Logout(db: Store, token: string)
    requires db.Valid()
    modifies db
    ensures db.Valid()
    ensures db.State() == old(db.State()).(sessions := DeleteSessions(old(db.sessions), token))
  {
    db.DeleteSession(token);
  }

  /** After logout the token validates at no time. */
  lemma LogoutInvalidates(db: Db, token: string, now: int)
    ensures ValidateToken(db.(sessions := DeleteSessions(db.sessions, token)), token, now) == Err(InvalidOrExpiredToken)
  {
    var kept := DeleteSessions(db.sessions, token);
    assert forall i :: 0 <= i < |kept| ==> kept[i].token != token;
  }

  /** Logout leaves every other token as it was. */
  lemma LogoutKeepsOthers(db: Db, token: string, other: string, now: int)
    requires SessionsValid(db.sessions, db.nextSessionId) && other != token
    ensures ValidateToken(db.(sessions := DeleteSessions(db.sessions, token)), other, now) == ValidateToken(db, other, now)
  {
    var kept := DeleteSessions(db.sessions, token);
    var before := GetSessionByToken(db.sessions, other, now);
    var after := GetSessionByToken(kept, other, now);
    if before.Some? {
      var k :| 0 <= k < |db.sessions| && db.sessions[k] == before.value;
      assert db.sessions[k] in kept;
      var l :| 0 <= l < |db.sessions| && db.sessions[l] == after.value;
      assert k == l;
    } else {
      forall i | 0 <= i < |kept| ensures !(kept[i].token == other && kept[i].expiresAt > now) {
        assert kept[i] in db.sessions;
      }
    }
  }

  // ---------------------------------------------------------------------
  // SetDefaultCurrency

  /** The account created for a user who picks a currency before having any. */
  function FirstAccount(userId: int, currencyId: int): Account {
    Account(0, userId, currencyId, 0.0, true, 0, 0)
  }

  /** An unknown currency is refused; otherwise the user's default currency
      is set and, when the user has no account yet, one default account with
      a zero balance in that currency is opened. */
  function SetDefaultCurrencySpec(db: Db, userId: int, currencyId: int, now: int): (r: (Outcome<Error>, Db))
    requires AccountsValid(db.accounts, db.nextAccountId, db.currencies)
    ensures r.0 == Fail(CurrencyNotFound) <==> GetCurrencyByID(db.currencies, currencyId).None?
    ensures r.0.Fail? ==> r.1 == db
    ensures r.0.Pass? ==> r.1.users == SetUserCurrency(db.users, userId, currencyId, now)
    ensures r.0.Pass? && |GetAccountsByUserID(db.accounts, userId)| > 0 ==> r.1 == db.(users := r.1.users)
    ensures r.0.Pass? && |GetAccountsByUserID(db.accounts, userId)| == 0 ==>
      && r.1 == db.(users := r.1.users, accounts := db.accounts + [Account(db.nextAccountId, userId, currencyId, 0.0, true, now, now)],
                    nextAccountId := db.nextAccountId + 1)
  {
    if GetCurrencyByID(db.currencies, currencyId).None? then (Fail(CurrencyNotFound), db)
    else
      var db1 := db.(users := SetUserCurrency(db.users, userId, currencyId, now));
      if |GetAccountsByUserID(db1.accounts, userId)| == 0 then
        var created := AccountService.CreateAccountSpec(db1, FirstAccount(userId, currencyId), now);
        NoAccountsNothingCleared(db1.accounts, userId, now);
        (Pass, created.1)
      else (Pass, db1)
  }

  /** When the user has no account, the default reset before the insert has
      nothing to clear. */
  lemma NoAccountsNothingCleared(accounts: seq<Account>, userId: int, now: int)
    requires forall i :: 0 <= i < |accounts| ==> accounts[i].id >= 1
    requires |GetAccountsByUserID(accounts, userId)| == 0
    ensures AccountService.ClearedFor(accounts, userId, true, now) == accounts
  {
    var r := AccountService.ClearedFor(accounts, userId, true, now);
    forall i | 0 <= i < |accounts| ensures r[i] == accounts[i] {
      assert accounts[i].userId != userId;
    }
  }

  method SetDefaultCurrency(db: Store, userId: int, currencyId: int, now: int) returns (r: Outcome<Error>)
    requires db.Valid()
    modifies db
    ensures db.Valid()
    ensures (r, db.State()) == SetDefaultCurrencySpec(old(db.State()), userId, currencyId, now)
  {
    var currency := GetCurrencyByID(db.currencies, currencyId);
    if currency.None? {
      return Fail(CurrencyNotFound);
    }
    db.SetUserDefaultCurrency(userId, currencyId, now);
    var accounts := GetAccountsByUserID(db.accounts, userId);
    if |accounts| == 0 {
      var created := AccountService.CreateAccount(db, FirstAccount(userId, currencyId), now);
      assert created.Ok?;
    }
    r := Pass;
  }

  /** After a currency is set, a user who had no account has exactly one,
      the last row of the table, and it is the user's default, in that
      currency, with a zero balance. */
  lemma FirstAccountIsDefault(db: Db, userId: int, currencyId: int, now: int)
    requires AccountsValid(db.accounts, db.nextAccountId, db.currencies)
    requires GetCurrencyByID(db.currencies, currencyId).Some? && |GetAccountsByUserID(db.accounts, userId)| == 0
    ensures var after := SetDefaultCurrencySpec(db, userId, currencyId, now).1;
      && GetDefaultAccount(after.accounts, userId) == Some(Account(db.nextAccountId, userId, currencyId, 0.0, true, now, now))
      && forall i :: 0 <= i < |after.accounts| && after.accounts[i].userId == userId ==> i == |db.accounts|
  {
    var row := Account(db.nextAccountId, userId, currencyId, 0.0, true, now, now);
    assert SetDefaultCurrencySpec(db, userId, currencyId, now).1.accounts == db.accounts + [row];
    OnlyRowOfUser(db.accounts, row, userId);
  }

  lemma OnlyRowOfUser(accounts: seq<Account>, row: Account, userId: int)
    requires |GetAccountsByUserID(accounts, userId)| == 0 && row.userId == userId && row.isDefault
    ensures GetDefaultAccount(accounts + [row], userId) == Some(row)
    ensures forall i :: 0 <= i < |accounts + [row]| && (accounts + [row])[i].userId == userId ==> i == |accounts|
  {
    var all := accounts + [row];
    assert forall i :: 0 <= i < |accounts| ==> accounts[i].userId != userId;
    assert forall i :: 0 <= i < |accounts| ==> all[i] == accounts[i];
    assert all[|accounts|] == row;
    var d := GetDefaultAccount(all, userId);
    assert d.Some?;
    var k :| 0 <= k < |all| && all[k] == d.value;
  }
}
