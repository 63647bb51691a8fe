/**
 * The session and credential handlers of routes/auth.js over the `users` and
 * `refresh_tokens` tables: register, login, refresh, logout, check-email and
 * sync-password, with the `generateRefreshToken` helper they share.
 */
module AuthRoutes {
  import opened Common
  import opened Rows
  import opened Credentials
  import opened Schema

  /** The body of a successful register, login or sync-password. */
  datatype Session<U> = Session(user: U, accessToken: AccessGrant, refreshToken: string)

  // ---------------------------------------------------------------- table functions

  /**
   * The register check `SELECT id FROM users WHERE username = $1 OR email = $2` finds a
   * row: some user has the username, or some user has the email, not necessarily the same.
   */
  function Taken(users: seq<User>, username: string, email: string): (found: bool)
    ensures found <==> (exists u :: u in users && u.username == username)
                       || (exists u :: u in users && u.email == email)
  {
    if users == [] then false
    else if users[0].username == username || users[0].email == email then true
    else
      assert forall u :: u in users <==> u == users[0] || u in users[1..];
      Taken(users[1..], username, email)
  }

  /** `WHERE email = $1 OR username = $1`, first row in table order; NULL matches nothing. */
  function FindByIdentifier(users: seq<User>, identifier: Option<string>): (r: Option<User>)
    ensures r.Some? ==> identifier.Some? && r.value in users
                        && (r.value.email == identifier.value || r.value.username == identifier.value)
    ensures r.None? <==> (identifier.None? ||
      forall u :: u in users ==> u.email != identifier.value && u.username != identifier.value)
    ensures r.Some? ==> exists k :: (0 <= k < |users| && users[k] == r.value &&
      forall j :: 0 <= j < k ==> users[j].email != identifier.value && users[j].username != identifier.value)
  {
    if identifier.None? || users == [] then None
    else if users[0].email == identifier.value || users[0].username == identifier.value then Some(users[0])
    else
      var r := FindByIdentifier(users[1..], identifier);
      if r.Some? then
        FirstMatchShift(users, identifier.value, r.value);
        r
      else r
  }

  /** A first match in the tail, behind a head that does not match, is the first match of all. */
  lemma FirstMatchShift(users: seq<User>, id: string, v: User)
    requires users != [] && users[0].email != id && users[0].username != id
    requires exists k :: (0 <= k < |users[1..]| && users[1..][k] == v &&
      forall j :: 0 <= j < k ==> users[1..][j].email != id && users[1..][j].username != id)
    ensures exists k :: (0 <= k < |users| && users[k] == v &&
      forall j :: 0 <= j < k ==> users[j].email != id && users[j].username != id)
  {
    var k :| 0 <= k < |users[1..]| && users[1..][k] == v &&
      forall j :: 0 <= j < k ==> users[1..][j].email != id && users[1..][j].username != id;
    assert users[k + 1] == v;
    forall j | 0 <= j < k + 1
      ensures users[j].email != id && users[j].username != id
    {
      if j > 0 { assert users[j] == users[1..][j - 1]; }
    }
  }

  /** `WHERE token = $1 AND expires_at > NOW()`, first row in table order. */
  function LiveSession(rows: seq<RefreshToken>, token: string, now: int): (r: Option<RefreshToken>)
    ensures r.Some? ==> r.value in rows && r.value.token == token && r.value.expiresAt > now
    ensures r.None? <==> forall x :: x in rows ==> x.token != token || x.expiresAt <= now
  {
    if rows == [] then None
    else if rows[0].token == token && rows[0].expiresAt > now then Some(rows[0])
    else LiveSession(rows[1..], token, now)
  }

  /** `DELETE FROM refresh_tokens WHERE token = $1`: the other rows, in their order and number. */
  function WithoutToken(rows: seq<RefreshToken>, token: string): (r: seq<RefreshToken>)
    ensures forall x :: multiset(r)[x] == if x.token == token then 0 else multiset(rows)[x]
    ensures forall x :: x in r <==> x in rows && x.token != token
  {
    if rows == [] then []
    else
      assert rows == [rows[0]] + rows[1..];
      if rows[0].token == token then WithoutToken(rows[1..], token)
      else [rows[0]] + WithoutToken(rows[1..], token)
  }

  /** Deleting by token twice is deleting once. */
  lemma {:induction false} WithoutTokenIdempotent(rows: seq<RefreshToken>, token: string)
    ensures WithoutToken(WithoutToken(rows, token), token) == WithoutToken(rows, token)
  {
    if rows != [] {
      WithoutTokenIdempotent(rows[1..], token);
    }
  }

  /** `UPDATE users SET password_hash = $1 WHERE email = $2`: every other column and row unchanged. */
  function SetPassword(users: seq<User>, email: string, h: PasswordHash): (r: seq<User>)
    ensures |r| == |users|
    ensures forall i :: 0 <= i < |users| ==>
      r[i] == if users[i].email == email then users[i].(passwordHash := h) else users[i]
  {
    if users == [] then []
    else
      var head := if users[0].email == email then users[0].(passwordHash := h) else users[0];
      [head] + SetPassword(users[1..], email, h)
  }

  /** Changing password hashes keeps every id, username and email, so the keys stay unique. */
  lemma SetPasswordKeepsKeys(users: seq<User>, next: int, email: string, h: PasswordHash)
    requires UsersKeyed(users, next)
    ensures UsersKeyed(SetPassword(users, email, h), next)
  {
    var r := SetPassword(users, email, h);
    assert forall i :: 0 <= i < |users| ==>
      r[i].id == users[i].id && r[i].username == users[i].username && r[i].email == users[i].email;
  }

  /** The first row `UPDATE ... WHERE email = $2 RETURNING ...` hands back. */
  function FirstWithEmail(users: seq<User>, email: string): (r: Option<User>)
    ensures r.Some? ==> r.value in users && r.value.email == email
    ensures r.None? <==> forall u :: u in users ==> u.email != email
  {
    if users == [] then None
    else if users[0].email == email then Some(users[0])
    else FirstWithEmail(users[1..], email)
  }

  // ---------------------------------------------------------------- handlers

  /**
   * `generateRefreshToken`: appends one row for the user whose token is the hex text of
   * the 64 random bytes, expiring after the column default; existing rows stay.
   */
  method GenerateRefreshToken(db: Store, userId: int, random: seq<byte>, now: int) returns (token: string)
    requires db.Valid()
    requires |random| == RefreshTokenBytes && TokenUnused(db.refreshTokens, HexEncode(random))
    modifies db`refreshTokens
    ensures db.Valid()
    ensures token == HexEncode(random) && |token| == 128
    ensures db.refreshTokens
      == old(db.refreshTokens) + [RefreshToken(userId, token, now + db.refreshLifetime, now)]
  {
    token := HexEncode(random);
    db.refreshTokens := db.refreshTokens + [RefreshToken(userId, token, now + db.refreshLifetime, now)];
  }

  /** The user row register inserts. */
  function NewUser(id: int, username: string, password: string, email: string,
                   fullName: Option<string>, now: int): (u: User)
    ensures u.role == Role.User && u.fullName == OrElse(fullName, username)
    ensures Matches(password, u.passwordHash)
  {
    Schema.User(id, username, email, Hash(password), Role.User, OrElse(fullName, username), None, None, now)
  }

  /** A user with the next serial id and an untaken username and email keeps the keys unique. */
  lemma AppendKeepsKeys(users: seq<User>, next: int, u: User)
    requires UsersKeyed(users, next) && u.id == next
    requires !Taken(users, u.username, u.email)
    ensures UsersKeyed(users + [u], next + 1)
  {
    var r := users + [u];
    forall i, j | 0 <= i < j < |r|
      ensures r[i].id != r[j].id && r[i].username != r[j].username && r[i].email != r[j].email
    {
      if j == |users| {
        assert r[i] in users;
      }
    }
  }

  /**
   * `POST /register`: 400 without username, password or email; 400 when the username or
   * the email is taken; otherwise one user with role `user` and one refresh-token row are
   * added and the new account is signed in.
   */
  method Register(db: Store, username: Option<string>, password: Option<string>, email: Option<string>,
                  fullName: Option<string>, random: seq<byte>, now: int)
    returns (reply: Reply<Session<Account>>)
    requires db.Valid()
    requires |random| == RefreshTokenBytes && TokenUnused(db.refreshTokens, HexEncode(random))
    modifies db`users, db`nextUserId, db`refreshTokens
    ensures db.Valid()
    ensures !Truthy(username) || !Truthy(password) || !Truthy(email) ==>
      reply == Fail(400) && db.users == old(db.users) && db.refreshTokens == old(db.refreshTokens)
    ensures Truthy(username) && Truthy(password) && Truthy(email) && Taken(old(db.users), username.value, email.value) ==>
      reply == Fail(400) && db.users == old(db.users) && db.refreshTokens == old(db.refreshTokens)
    ensures reply.Ok? <==>
      Truthy(username) && Truthy(password) && Truthy(email) && !Taken(old(db.users), username.value, email.value)
    ensures reply.Ok? ==>
      var u := NewUser(old(db.nextUserId), username.value, password.value, email.value, fullName, now);
      && db.users == old(db.users) + [u]
      && db.refreshTokens == old(db.refreshTokens) + [RefreshToken(u.id, HexEncode(random), now + db.refreshLifetime, now)]
      && reply.body == Session(AccountOf(u), Grant(u.id, Role.User), HexEncode(random))
    ensures reply.Fail? ==> reply.status == 400
  {
    if !Truthy(username) || !Truthy(password) || !Truthy(email) {
      return Fail(400);
    }
    if Taken(db.users, username.value, email.value) {
      return Fail(400);
    }
    var u := NewUser(db.nextUserId, username.value, password.value, email.value, fullName, now);
    AppendKeepsKeys(db.users, db.nextUserId, u);
    db.users := db.users + [u];
    db.nextUserId := db.nextUserId + 1;
    var access := Grant(u.id, u.role);
    var token := GenerateRefreshToken(db, u.id, random, now);
    reply := Ok(Session(AccountOf(u), access, token));
  }

  /**
   * `POST /login`: the identifier is looked up as an email or a username; unknown, or a
   * password that does not match, is 400 and adds no row; a missing password makes
   * `bcrypt.compare` throw (500). Success adds one refresh-token row.
   */
  method Login(db: Store, identifier: Option<string>, password: Option<string>, random: seq<byte>, now: int)
    returns (reply: Reply<Session<LoginProfile>>)
    requires db.Valid()
    requires |random| == RefreshTokenBytes && TokenUnused(db.refreshTokens, HexEncode(random))
    modifies db`refreshTokens
    ensures db.Valid()
    ensures reply.Fail? ==> db.refreshTokens == old(db.refreshTokens)
    ensures match FindByIdentifier(db.users, identifier)
      case None => reply == Fail(400)
      case Some(u) =>
        if password.None? then reply == Fail(500)
        else if !Matches(password.value, u.passwordHash) then reply == Fail(400)
        else
          && reply == Ok(Session(LoginProfileOf(u), Grant(u.id, u.role), HexEncode(random)))
          && db.refreshTokens == old(db.refreshTokens) + [RefreshToken(u.id, HexEncode(random), now + db.refreshLifetime, now)]
  {
    var found := FindByIdentifier(db.users, identifier);
    if found.None? {
      return Fail(400);
    }
    var u := found.value;
    if password.None? {
      return Fail(500);
    }
    if !Matches(password.value, u.passwordHash) {
      return Fail(400);
    }
    var access := Grant(u.id, u.role);
    var token := GenerateRefreshToken(db, u.id, random, now);
    reply := Ok(Session(LoginProfileOf(u), access, token));
  }

  /**
   * `POST /refresh`: 401 without a token; 403 unless some row has the token and has not
   * expired, and 403 too when that row's user is gone (the property read throws). The new
   * access token carries the user's current role; no table changes.
   */
  method Refresh(db: Store, token: Option<string>, now: int) returns (reply: Reply<AccessGrant>)
    ensures !Truthy(token) ==> reply == Fail(401)
    ensures Truthy(token) && (forall r :: r in db.refreshTokens ==> r.token != token.value || r.expiresAt <= now) ==>
      reply == Fail(403)
    ensures reply.Ok? ==> exists r, u ::
      && r in db.refreshTokens && r.token == token.value && r.expiresAt > now
      && u in db.users && u.id == r.userId && reply.body == Grant(u.id, u.role)
    ensures reply.Fail? ==> reply.status == 401 || reply.status == 403
    ensures Truthy(token) ==> (
      reply == match LiveSession(db.refreshTokens, token.value, now)
        case None => Fail(403)
        case Some(r) => (
          match UserById(db.users, r.userId)
          case None => Fail(403)
          case Some(u) => Ok(Grant(u.id, u.role))))
    ensures db.Valid() && Truthy(token) ==>
      forall r, u :: (r in db.refreshTokens && r.token == token.value && r.expiresAt > now
                      && u in db.users && u.id == r.userId) ==> reply == Ok(Grant(u.id, u.role))
  {
    if db.Valid() && Truthy(token) {
      forall r, u | r in db.refreshTokens && r.token == token.value && r.expiresAt > now
                    && u in db.users && u.id == r.userId
        ensures LiveSession(db.refreshTokens, token.value, now) == Some(r)
        ensures UserById(db.users, r.userId) == Some(u)
      {
        RefreshFindsTheSession(db, token.value, now, r, u);
      }
    }
    if !Truthy(token) {
      return Fail(401);
    }
    var row := LiveSession(db.refreshTokens, token.value, now);
    if row.None? {
      return Fail(403);
    }
    var user := UserById(db.users, row.value.userId);
    if user.None? {
      return Fail(403);
    }
    reply := Ok(Grant(user.value.id, user.value.role));
  }

  /** With unique tokens, refresh succeeds for a live row whose user exists, with that user's role. */
  lemma RefreshFindsTheSession(db: Store, t: string, now: int, r: RefreshToken, u: User)
    requires db.Valid()
    requires r in db.refreshTokens && r.token == t && r.expiresAt > now
    requires u in db.users && u.id == r.userId
    ensures LiveSession(db.refreshTokens, t, now) == Some(r)
    ensures UserById(db.users, r.userId) == Some(u)
  {
    var found := LiveSession(db.refreshTokens, t, now).value;
    var i :| 0 <= i < |db.refreshTokens| && db.refreshTokens[i] == r;
    var j :| 0 <= j < |db.refreshTokens| && db.refreshTokens[j] == found;
    if i < j { assert db.refreshTokens[i].token != db.refreshTokens[j].token; }
    if j < i { assert db.refreshTokens[j].token != db.refreshTokens[i].token; }
    UserByIdUnique(db.users, db.nextUserId, u);
  }

  /**
   * `POST /logout`: deletes exactly the rows holding the given token, and succeeds with
   * no token or an unknown one.
   */
  method Logout(db: Store, token: Option<string>) returns (reply: Reply<()>)
    requires db.Valid()
    modifies db`refreshTokens
    ensures db.Valid()
    ensures reply == Ok(())
    ensures db.refreshTokens == if Truthy(token) then WithoutToken(old(db.refreshTokens), token.value)
                                else old(db.refreshTokens)
    ensures forall r :: r in db.refreshTokens <==>
      r in old(db.refreshTokens) && !(Truthy(token) && r.token == token.value)
  {
    if Truthy(token) {
      ghost var before := db.refreshTokens;
      db.refreshTokens := WithoutToken(db.refreshTokens, token.value);
      SubKeyed(before, db.refreshTokens);
    }
    reply := Ok(());
  }

  /** Dropping rows, each at most as often as it occurred, keeps tokens unique. */
  lemma SubKeyed(before: seq<RefreshToken>, after: seq<RefreshToken>)
    requires TokensKeyed(before)
    requires forall x :: multiset(after)[x] <= multiset(before)[x]
    ensures TokensKeyed(after)
  {
    forall i, j | 0 <= i < j < |after| ensures after[i].token != after[j].token {
      if after[i].token == after[j].token {
        var a, b := after[i], after[j];
        assert a in multiset(after) && b in multiset(after);
        assert a in before && b in before;
        var p :| 0 <= p < |before| && before[p] == a;
        var q :| 0 <= q < |before| && before[q] == b;
        if p == q {
          assert after[..j+1] == after[..i] + [a] + after[i+1..j] + [a];
          assert multiset(after)[a] >= 2 by {
            assert after == after[..i] + [a] + after[i+1..j] + [a] + after[j+1..];
          }
          NoDupTokens(before, a);
        }
        assert false;
      }
    }
  }

  /** In a table with unique tokens every row occurs at most once. */
  lemma NoDupTokens(rows: seq<RefreshToken>, x: RefreshToken)
    requires TokensKeyed(rows)
    ensures multiset(rows)[x] <= 1
  {
    assert NoDup(rows);
    NoDupCount(rows, x);
  }

  /** Logging out twice with the same token leaves the table as logging out once. */
  lemma LogoutIdempotent(rows: seq<RefreshToken>, token: Option<string>)
    ensures var once := if Truthy(token) then WithoutToken(rows, token.value) else rows;
      (if Truthy(token) then WithoutToken(once, token.value) else once) == once
  {
    if Truthy(token) {
      WithoutTokenIdempotent(rows, token.value);
    }
  }

  /** `POST /check-email`: whether some user has the email; an absent email matches none. */
  method CheckEmail(db: Store, email: Option<string>) returns (reply: Reply<bool>)
    ensures reply.Ok?
    ensures reply.body <==> email.Some? && exists u :: u in db.users && u.email == email.value
  {
    var exists_ := email.Some? && FirstWithEmail(db.users, email.value).Some?;
    reply := Ok(exists_);
  }

  /**
   * `POST /sync-password`: 400 without an email or password, 404 when no user has that
   * email; otherwise every user with that email gets the new hash (no other column or
   * row changes), the first of them is signed in, and one refresh-token row is added.
   * The old password is not asked for.
   */
  method SyncPassword(db: Store, identifier: Option<string>, password: Option<string>,
                      random: seq<byte>, now: int)
    returns (reply: Reply<Session<Account>>)
    requires db.Valid()
    requires |random| == RefreshTokenBytes && TokenUnused(db.refreshTokens, HexEncode(random))
    modifies db`users, db`refreshTokens
    ensures db.Valid()
    ensures !Truthy(identifier) || !Truthy(password) ==>
      reply == Fail(400) && db.users == old(db.users) && db.refreshTokens == old(db.refreshTokens)
    ensures Truthy(identifier) && Truthy(password) && (forall u :: u in old(db.users) ==> u.email != identifier.value) ==>
      reply == Fail(404) && db.users == old(db.users) && db.refreshTokens == old(db.refreshTokens)
    ensures reply.Ok? ==>
      && Truthy(identifier) && Truthy(password)
      && db.users == SetPassword(old(db.users), identifier.value, Hash(password.value))
      && var u := FirstWithEmail(old(db.users), identifier.value).value;
      && reply.body == Session(AccountOf(u), Grant(u.id, u.role), HexEncode(random))
      && db.refreshTokens == old(db.refreshTokens) + [RefreshToken(u.id, HexEncode(random), now + db.refreshLifetime, now)]
    ensures reply.Ok? <==> Truthy(identifier) && Truthy(password) && exists u :: u in old(db.users) && u.email == identifier.value
  {
    if !Truthy(identifier) || !Truthy(password) {
      return Fail(400);
    }
    var email := identifier.value;
    var hashed := Hash(password.value);
    var updated := FirstWithEmail(db.users, email);
    if updated.None? {
      return Fail(404);
    }
    var u := updated.value;
    SetPasswordKeepsKeys(db.users, db.nextUserId, email, hashed);
    db.users := SetPassword(db.users, email, hashed);
    var access := Grant(u.id, u.role);
    var token := GenerateRefreshToken(db, u.id, random, now);
    reply := Ok(Session(AccountOf(u), access, token));
  }

  /** After sync-password the matching user's new password matches, and the old hash is gone. */
  lemma SyncPasswordReplacesHash(users: seq<User>, email: string, password: string, i: int)
    requires 0 <= i < |users| && users[i].email == email
    ensures Matches(password, SetPassword(users, email, Hash(password))[i].passwordHash)
  {
  }
}
