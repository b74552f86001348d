/** The authentication middleware: the Authorization header must read
    "Bearer <token>"; the token's signature is checked before its session;
    an accepted request carries the user in its context. */
module Middleware {
  import opened Wrappers
  import opened Models
  import opened Repository
  import UserService

  const Unauthorized: int := 401

  /** The index of the first occurrence of `c` in `s`. */
  function IndexOf(s: string, c: char): (r: nat)
    requires c in s
    ensures r < |s| && s[r] == c && c !in s[..r]
  {
    if s[0] == c then 0
    else
      assert c in s[1..] by {
        var k :| 0 <= k < |s| && s[k] == c;
        assert s[1..][k - 1] == c;
      }
      var r := IndexOf(s[1..], c) + 1;
      assert s[..r] == [s[0]] + s[1..][..r - 1];
      r
  }

  lemma IndexOfUnique(s: string, c: char, k: nat)
    requires k < |s| && s[k] == c && c !in s[..k]
    ensures IndexOf(s, c) == k
  {
  }

  /** The pieces joined back with the separator between them. */
  function Join(parts: seq<string>, sep: char): string
    requires |parts| >= 1
  {
    if |parts| == 1 then parts[0] else parts[0] + [sep] + Join(parts[1..], sep)
  }

  /** Go's `strings.Split` with a one-character separator: the pieces
      between the separators, empty pieces included, so that joining them
      gives the string back. */
  function Split(s: string, sep: char): (r: seq<string>)
    ensures |r| >= 1
    ensures forall i :: 0 <= i < |r| ==> sep !in r[i]
    ensures Join(r, sep) == s
    decreases |s|
  {
    if sep !in s then [s]
    else
      var i := IndexOf(s, sep);
      var rest := Split(s[i + 1..], sep);
      assert s == s[..i] + [sep] + s[i + 1..];
      assert ([s[..i]] + rest)[1..] == rest;
      [s[..i]] + rest
  }

  /** Splitting undoes joining pieces that hold no separator. */
  lemma {:induction false} SplitJoin(parts: seq<string>, sep: char)
    requires |parts| >= 1 && forall i :: 0 <= i < |parts| ==> sep !in parts[i]
    ensures Split(Join(parts, sep), sep) == parts
    decreases |parts|
  {
    if |parts| > 1 {
      var s := Join(parts, sep);
      var tail := Join(parts[1..], sep);
      assert s == parts[0] + [sep] + tail;
      assert s[|parts[0]|] == sep && s[..|parts[0]|] == parts[0];
      IndexOfUnique(s, sep, |parts[0]|);
      assert s[|parts[0]| + 1..] == tail;
      SplitJoin(parts[1..], sep);
      assert parts == [parts[0]] + parts[1..];
    }
  }

  /** The token of a header that splits on single spaces into exactly two
      parts, the first of them "Bearer". The token may be empty. */
  function BearerToken(header: string): (r: Option<string>)
    ensures r.Some? ==> header == "Bearer " + r.value && ' ' !in r.value
  {
    var parts := Split(header, ' ');
    if |parts| != 2 || parts[0] != "Bearer" then None
    else
      assert parts[1..] == [parts[1]];
      Some(parts[1])
  }

  /** Every header of the form "Bearer <token>" with a token free of spaces
      is accepted by the format check, and yields that token. */
  lemma BearerTokenComplete(token: string)
    requires ' ' !in token
    ensures BearerToken("Bearer " + token) == Some(token)
  {
    var parts := ["Bearer", token];
    assert Join(parts, ' ') == "Bearer " + token by {
      assert parts[1..] == [token];
    }
    SplitJoin(parts, ' ');
  }

  /** "Bearer " with nothing after it passes the format check with an empty token. */
  lemma EmptyTokenPassesFormat()
    ensures BearerToken("Bearer ") == Some("")
  {
    BearerTokenComplete("");
    assert "Bearer " + "" == "Bearer ";
  }

  datatype AuthOutcome =
    | Rejected(status: int, message: string)
    | Accepted(user: User, userId: int)

  /** The check order: a missing header, then the format, then the token's
      signature, then its session. `jwtValid` is the JWT signature and
      expiry check. */
  function Authenticate(header: string, jwtValid: string -> bool, db: Db, now: int): (r: AuthOutcome)
    ensures r.Rejected? ==> r.status == Unauthorized
    ensures header == "" ==> r == Rejected(Unauthorized, "Authorization header required")
    ensures header != "" && BearerToken(header).None? ==> r == Rejected(Unauthorized, "Invalid authorization format")
    ensures r.Accepted? ==>
      && BearerToken(header).Some? && jwtValid(BearerToken(header).value)
      && UserService.ValidateToken(db, BearerToken(header).value, now) == Ok(r.user)
      && r.userId == r.user.id
  {
    if header == "" then Rejected(Unauthorized, "Authorization header required")
    else
      match BearerToken(header)
      case None => Rejected(Unauthorized, "Invalid authorization format")
      case Some(token) =>
        if !jwtValid(token) then Rejected(Unauthorized, "Invalid or expired token")
        else
          match UserService.ValidateToken(db, token, now)
          case Err(_) => Rejected(Unauthorized, "Invalid or expired token")
          case Ok(u) => Accepted(u, u.id)
  }

  /** A well-formed header is accepted exactly when its token passes both
      checks; either failure gives the same answer. */
  lemma AcceptsExactly(token: string, jwtValid: string -> bool, db: Db, now: int)
    requires ' ' !in token
    ensures var r := Authenticate("Bearer " + token, jwtValid, db, now);
      && (r.Accepted? <==> jwtValid(token) && UserService.ValidateToken(db, token, now).Ok?)
      && (r.Rejected? ==> r == Rejected(Unauthorized, "Invalid or expired token"))
  {
    BearerTokenComplete(token);
  }

  /** A token whose signature fails is refused without the sessions being
      consulted: the answer is the same whatever the database holds. */
  lemma SignatureCheckedFirst(header: string, jwtValid: string -> bool, db1: Db, db2: Db, now: int)
    requires BearerToken(header).Some? && !jwtValid(BearerToken(header).value)
    ensures Authenticate(header, jwtValid, db1, now) == Authenticate(header, jwtValid, db2, now)
  {
  }

  // ---------------------------------------------------------------------
  // The request context

  /** What `c.Set` may have stored under a key: a user pointer (possibly
      nil), an integer id, or a value of some other type. */
  datatype ContextValue = UserValue(user: Option<User>) | IdValue(id: int) | OtherValue

  /** The context after the middleware: an accepted request carries the
      user and its id; a rejected one is aborted with nothing stored. */
  function AfterAuth(ctx: map<string, ContextValue>, r: AuthOutcome): (c: map<string, ContextValue>)
    ensures r.Rejected? ==> c == ctx
    ensures r.Accepted? ==> c.Keys == ctx.Keys + {"user", "userID"}
    ensures r.Accepted? ==> c["user"] == UserValue(Some(r.user)) && c["userID"] == IdValue(r.userId)
    ensures forall k :: k in ctx && k != "user" && k != "userID" ==> k in c && c[k] == ctx[k]
  {
    match r
    case Rejected(_, _) => ctx
    case Accepted(u, id) => ctx["user" := UserValue(Some(u))]["userID" := IdValue(id)]
  }

  /** No value under "user" and a value of another type both read as
      absent; a stored user pointer is returned as it is. */
  function GetUserFromContext(ctx: map<string, ContextValue>): (r: (Option<User>, bool))
    ensures r.1 <==> "user" in ctx && ctx["user"].UserValue?
    ensures r.1 ==> r.0 == ctx["user"].user
    ensures !r.1 ==> r.0.None?
  {
    if "user" !in ctx then (None, false)
    else match ctx["user"]
      case UserValue(u) => (u, true)
      case _ => (None, false)
  }

  /** A handler behind the middleware finds the authenticated user. */
  lemma HandlerSeesUser(ctx: map<string, ContextValue>, header: string, jwtValid: string -> bool, db: Db, now: int)
    requires Authenticate(header, jwtValid, db, now).Accepted?
    ensures GetUserFromContext(AfterAuth(ctx, Authenticate(header, jwtValid, db, now)))
      == (Some(Authenticate(header, jwtValid, db, now).user), true)
  {
  }
}
