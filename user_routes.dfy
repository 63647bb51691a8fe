/**
 * The profile and friendship handlers of routes/user.js over `users` and `friendships`,
 * and the router's dispatch of a request to the first route whose method and path match.
 */
module UserRoutes {
  import opened Common
  import opened Rows
  import opened Text
  import opened Credentials
  import opened Schema

  // ---------------------------------------------------------------- profiles

  /** `SELECT id, username, email, full_name, avatar_url, bio, role, created_at`. */
  datatype Profile = Profile(
    id: int, username: string, email: string, fullName: string,
    avatarUrl: Option<string>, bio: Option<string>, role: Role, createdAt: int)

  function ProfileOf(u: User): Profile
  {
    Profile(u.id, u.username, u.email, u.fullName, u.avatarUrl, u.bio, u.role, u.createdAt)
  }

  /** `SELECT id, username, full_name, avatar_url, bio, created_at`: no email, role or hash. */
  datatype PublicProfile = PublicProfile(
    id: int, username: string, fullName: string, avatarUrl: Option<string>, bio: Option<string>,
    createdAt: int)

  function PublicProfileOf(u: User): PublicProfile
  {
    PublicProfile(u.id, u.username, u.fullName, u.avatarUrl, u.bio, u.createdAt)
  }

  /** The public profile does not depend on the email, the role or the password hash. */
  lemma PublicProfileOmitsPrivateColumns(u: User, email: string, role: Role, h: PasswordHash)
    ensures PublicProfileOf(u.(email := email, role := role, passwordHash := h)) == PublicProfileOf(u)
  {
  }

  /**
   * `GET /profile`: the caller's own row; with no row `rows[0]` is `undefined` and the
   * reply is still 200, with no body (`None`).
   */
  function OwnProfile(users: seq<User>, caller: int): (reply: Reply<Option<Profile>>)
    ensures reply.Ok?
    ensures reply.body.Some? <==> exists u :: u in users && u.id == caller
    ensures reply.body.Some? ==> exists u :: u in users && u.id == caller && reply.body.value == ProfileOf(u)
  {
    match UserById(users, caller)
    case None => Ok(None)
    case Some(u) => Ok(Some(ProfileOf(u)))
  }

  predicate AllDecimal(s: string)
  {
    forall i :: 0 <= i < |s| ==> '0' <= s[i] <= '9'
  }

  /**
   * How the store reads the text of a route parameter compared with the integer `id`
   * column: an optional sign and decimal digits, in the 32-bit range; anything else makes
   * the query fail (`None`).
   */
  function PgInteger(s: string): (r: Option<int>)
    ensures r.Some? ==> Int4Min <= r.value <= Int4Max
    ensures r.Some? ==> |s| > 0 && (AllDecimal(s) || ((s[0] == '-' || s[0] == '+') && AllDecimal(s[1..])))
  {
    var negative := |s| > 0 && s[0] == '-';
    var body := if |s| > 0 && (s[0] == '-' || s[0] == '+') then s[1..] else s;
    if body == [] || !AllDecimal(body) then None
    else
      var n: int := DigitsValue(body, 10);
      var v := if negative then -n else n;
      if Int4Min <= v <= Int4Max then Some(v) else None
  }

  /** The decimal text of an id in range reads back as that id. */
  lemma PgIntegerDecimal(n: nat)
    requires n <= Int4Max
    ensures PgInteger(Decimal(n)) == Some(n)
  {
    var s := Decimal(n);
    assert s[0] != '-' && s[0] != '+';
    DecimalValue(n);
  }

  /**
   * `GET /:id`: 500 when the parameter is not an integer the store accepts, 404 when no
   * user has that id, otherwise the public columns. No token is needed.
   */
  function PublicProfileById(users: seq<User>, id: string): (reply: Reply<PublicProfile>)
    ensures PgInteger(id).None? ==> reply == Fail(500)
    ensures PgInteger(id).Some? ==>
      (reply == Fail(404) <==> forall u :: u in users ==> u.id != PgInteger(id).value)
    ensures reply.Ok? ==> exists u :: u in users && u.id == PgInteger(id).value && reply.body == PublicProfileOf(u)
    ensures reply.Fail? ==> reply.status in {404, 500}
  {
    match PgInteger(id)
    case None => Fail(500)
    case Some(n) =>
      match UserById(users, n)
      case None => Fail(404)
      case Some(u) => Ok(PublicProfileOf(u))
  }

  /** Every user is found by the decimal text of their id. */
  lemma PublicProfileFindsEveryUser(users: seq<User>, next: int, u: User)
    requires UsersKeyed(users, next) && u in users && u.id <= Int4Max
    ensures PublicProfileById(users, Decimal(u.id)) == Ok(PublicProfileOf(u))
  {
    PgIntegerDecimal(u.id);
    UserByIdUnique(users, next, u);
  }

  /** `GET /friends` reaching this handler: `"friends"` is no integer, so the query fails. */
  lemma FriendsPathIsNoId(users: seq<User>)
    ensures PublicProfileById(users, "friends") == Fail(500)
  {
    assert !AllDecimal("friends") by { assert !('0' <= "friends"[0] <= '9'); }
  }

  /** `SET c = COALESCE($k, c)`: an absent field keeps the column; a present one, even `""`, replaces it. */
  function Coalesce<T>(given: Option<T>, current: T): (r: T)
    ensures given.Some? ==> r == given.value
    ensures r == current || given == Some(r)
  {
    if given.Some? then given.value else current
  }

  /** The `UPDATE users ... WHERE id = $4` of `PUT /profile`. */
  function MergeProfiles(users: seq<User>, caller: int, fullName: Option<string>,
                         avatarUrl: Option<string>, bio: Option<string>): (r: seq<User>)
    ensures |r| == |users|
    ensures forall i :: 0 <= i < |users| ==> (r[i] ==
      if users[i].id != caller then users[i]
      else users[i].(fullName := Coalesce(fullName, users[i].fullName),
                     avatarUrl := if avatarUrl.Some? then avatarUrl else users[i].avatarUrl,
                     bio := if bio.Some? then bio else users[i].bio))
  {
    if users == [] then []
    else
      var u := users[0];
      var head := if u.id != caller then u
                  else u.(fullName := Coalesce(fullName, u.fullName),
                          avatarUrl := if avatarUrl.Some? then avatarUrl else u.avatarUrl,
                          bio := if bio.Some? then bio else u.bio);
      [head] + MergeProfiles(users[1..], caller, fullName, avatarUrl, bio)
  }

  /** `RETURNING id, username, email, full_name, avatar_url, bio, role`. */
  datatype UpdatedProfile = UpdatedProfile(
    id: int, username: string, email: string, fullName: string,
    avatarUrl: Option<string>, bio: Option<string>, role: Role)

  function UpdatedProfileOf(u: User): UpdatedProfile
  {
    UpdatedProfile(u.id, u.username, u.email, u.fullName, u.avatarUrl, u.bio, u.role)
  }

  /**
   * `PUT /profile`: only the caller's row changes, and in it only the fields that were sent;
   * the reply carries the updated row (nothing when the caller has no row).
   */
  method UpdateProfile(db: Store, caller: int, fullName: Option<string>,
                       avatarUrl: Option<string>, bio: Option<string>)
    returns (reply: Reply<Option<UpdatedProfile>>)
    requires db.Valid()
    modifies db`users
    ensures db.Valid()
    ensures db.users == MergeProfiles(old(db.users), caller, fullName, avatarUrl, bio)
    ensures reply == Ok(match UserById(db.users, caller)
                        case None => None
                        case Some(u) => Some(UpdatedProfileOf(u)))
  {
    ghost var before := db.users;
    db.users := MergeProfiles(db.users, caller, fullName, avatarUrl, bio);
    assert UsersKeyed(db.users, db.nextUserId) by {
      assert forall i :: 0 <= i < |before| ==>
        db.users[i].id == before[i].id && db.users[i].username == before[i].username
        && db.users[i].email == before[i].email;
    }
    var row := UserById(db.users, caller);
    reply := Ok(if row.None? then None else Some(UpdatedProfileOf(row.value)));
  }

  /** An update with no fields changes nothing, and sending the same fields twice is sending them once. */
  lemma {:induction false} MergeProfilesIdempotent(users: seq<User>, caller: int, fullName: Option<string>,
                                                 avatarUrl: Option<string>, bio: Option<string>)
    ensures MergeProfiles(users, caller, None, None, None) == users
    ensures var once := MergeProfiles(users, caller, fullName, avatarUrl, bio);
      MergeProfiles(once, caller, fullName, avatarUrl, bio) == once
  {
    if users != [] {
      MergeProfilesIdempotent(users[1..], caller, fullName, avatarUrl, bio);
      var once := MergeProfiles(users, caller, fullName, avatarUrl, bio);
      assert once[1..] == MergeProfiles(users[1..], caller, fullName, avatarUrl, bio);
    }
  }

  // ---------------------------------------------------------------- friendships

  /** Some row has the ordered pair `(a, b)`. */
  predicate HasPair(rows: seq<Friendship>, a: int, b: int)
  {
    exists f :: f in rows && f.user1 == a && f.user2 == b
  }

  /**
   * `POST /friends/request`: a pending row `(caller, friend)` is inserted unless the ordered
   * pair is already there, whatever its status; always 200.
   */
  method FriendRequest(db: Store, caller: int, friendId: int) returns (reply: Reply<()>)
    requires db.Valid()
    modifies db`friendships
    ensures db.Valid()
    ensures reply == Ok(())
    ensures HasPair(old(db.friendships), caller, friendId) ==> db.friendships == old(db.friendships)
    ensures !HasPair(old(db.friendships), caller, friendId) ==>
      db.friendships == old(db.friendships) + [Friendship(caller, friendId, Pending)]
    ensures db.friendships == AfterRequest(old(db.friendships), caller, friendId)
  {
    if !HasPair(db.friendships, caller, friendId) {
      db.friendships := db.friendships + [Friendship(caller, friendId, Pending)];
    }
    reply := Ok(());
  }

  /** The table after a friend request. */
  function AfterRequest(rows: seq<Friendship>, caller: int, friendId: int): seq<Friendship>
  {
    if HasPair(rows, caller, friendId) then rows else rows + [Friendship(caller, friendId, Pending)]
  }

  /**
   * A request never turns an accepted friendship back into a pending one, keeps the pair
   * key, and repeating it changes nothing.
   */
  lemma FriendRequestKeepsStatus(rows: seq<Friendship>, caller: int, friendId: int)
    requires FriendshipsKeyed(rows)
    ensures forall f :: f in rows ==> f in AfterRequest(rows, caller, friendId)
    ensures FriendshipsKeyed(AfterRequest(rows, caller, friendId))
    ensures HasPair(AfterRequest(rows, caller, friendId), caller, friendId)
    ensures AfterRequest(AfterRequest(rows, caller, friendId), caller, friendId) == AfterRequest(rows, caller, friendId)
  {
    var r := AfterRequest(rows, caller, friendId);
    assert r[|r| - 1] in r;
    assert HasPair(r, caller, friendId);
  }

  /** The row joins the caller and the friend in one direction or the other. */
  predicate Between(f: Friendship, a: int, b: int)
  {
    (f.user1 == a && f.user2 == b) || (f.user1 == b && f.user2 == a)
  }

  /** `UPDATE friendships SET status = 'accepted' WHERE` the row is between the two. */
  function AcceptPair(rows: seq<Friendship>, a: int, b: int): (r: seq<Friendship>)
    ensures |r| == |rows|
    ensures forall i :: 0 <= i < |rows| ==>
      r[i] == if Between(rows[i], a, b) then rows[i].(status := Accepted) else rows[i]
  {
    if rows == [] then []
    else
      var head := if Between(rows[0], a, b) then rows[0].(status := Accepted) else rows[0];
      [head] + AcceptPair(rows[1..], a, b)
  }

  /**
   * `PUT /friends/accept`: every row between the caller and the friend, in either
   * direction, becomes accepted; 400 when there is none (the table is then unchanged).
   */
  method FriendAccept(db: Store, caller: int, friendId: Option<int>) returns (reply: Reply<()>)
    requires db.Valid()
    modifies db`friendships
    ensures db.Valid()
    ensures friendId.None? ==> reply == Fail(400) && db.friendships == old(db.friendships)
    ensures friendId.Some? ==> db.friendships == AcceptPair(old(db.friendships), caller, friendId.value)
    ensures reply == Ok(()) <==> friendId.Some? && exists f :: f in old(db.friendships) && Between(f, caller, friendId.value)
    ensures reply.Fail? ==> reply == Fail(400)
  {
    if friendId.None? {
      return Fail(400);
    }
    ghost var before := db.friendships;
    var updated := AcceptPair(db.friendships, caller, friendId.value);
    var rowCount := exists f :: f in db.friendships && Between(f, caller, friendId.value);
    assert FriendshipsKeyed(updated) by {
      assert forall i :: 0 <= i < |before| ==> updated[i].user1 == before[i].user1 && updated[i].user2 == before[i].user2;
    }
    db.friendships := updated;
    reply := if rowCount then Ok(()) else Fail(400);
  }

  /**
   * Accepting is symmetric in the two ids, so the one who sent the request can accept it
   * as well as the one who received it.
   */
  lemma AcceptSymmetric(rows: seq<Friendship>, a: int, b: int)
    ensures AcceptPair(rows, a, b) == AcceptPair(rows, b, a)
  {
    var l, r := AcceptPair(rows, a, b), AcceptPair(rows, b, a);
    assert forall i :: 0 <= i < |rows| ==> l[i] == r[i];
  }

  /** After a request and its acceptance the two are friends of each other. */
  lemma RequestThenAccept(rows: seq<Friendship>, caller: int, friendId: int)
    ensures var after := AcceptPair(AfterRequest(rows, caller, friendId), friendId, caller);
      exists f :: f in after && f.user1 == caller && f.user2 == friendId && f.status == Accepted
  {
    var r := AfterRequest(rows, caller, friendId);
    var after := AcceptPair(r, friendId, caller);
    var f :| f in r && f.user1 == caller && f.user2 == friendId;
    var i :| 0 <= i < |r| && r[i] == f;
    assert after[i] == f.(status := Accepted);
  }

  /** `SELECT u.id, u.username, u.full_name, u.avatar_url`. */
  datatype Friend = Friend(id: int, username: string, fullName: string, avatarUrl: Option<string>)

  function FriendOf(u: User): Friend
  {
    Friend(u.id, u.username, u.fullName, u.avatarUrl)
  }

  /** An accepted row joins `me` and `u`, so `u` is listed for it. */
  predicate FriendRow(f: Friendship, me: int, u: User)
  {
    (f.user1 == u.id || f.user2 == u.id) && (f.user1 == me || f.user2 == me)
    && f.status == Accepted && u.id != me
  }

  /** The friendships that list `u` for `me`, each as often as it is stored. */
  function MatchingRows(rows: seq<Friendship>, me: int, u: User): (m: seq<Friendship>)
    ensures forall f :: multiset(m)[f] == if FriendRow(f, me, u) then multiset(rows)[f] else 0
  {
    if rows == [] then []
    else
      assert rows == [rows[0]] + rows[1..];
      (if FriendRow(rows[0], me, u) then [rows[0]] else []) + MatchingRows(rows[1..], me, u)
  }

  /** The rows of the join for one user: one per matching friendship. */
  function FriendRows(rows: seq<Friendship>, me: int, u: User): (r: seq<Friend>)
    ensures forall x :: x in r ==> x == FriendOf(u)
    ensures |r| == |MatchingRows(rows, me, u)| && multiset(r)[FriendOf(u)] == |r|
    ensures r != [] <==> exists f :: f in rows && FriendRow(f, me, u)
  {
    if rows == [] then []
    else
      var rest := FriendRows(rows[1..], me, u);
      assert forall f :: f in rows <==> f == rows[0] || f in rows[1..];
      if FriendRow(rows[0], me, u) then [FriendOf(u)] + rest else rest
  }

  /**
   * `GET /friends`: the other users with an accepted row between them and the caller, in
   * either direction; a user with such rows in both directions is listed once per row.
   */
  function Friends(users: seq<User>, rows: seq<Friendship>, me: int): (list: seq<Friend>)
    ensures forall x :: x in list <==> exists u, f :: u in users && f in rows && FriendRow(f, me, u) && x == FriendOf(u)
  {
    if users == [] then []
    else
      var head := FriendRows(rows, me, users[0]);
      var rest := Friends(users[1..], rows, me);
      assert forall u :: u in users <==> u == users[0] || u in users[1..];
      assert head != [] ==> FriendOf(users[0]) in head by {
        if head != [] { assert head[0] in head; }
      }
      head + rest
  }

  /**
   * With users keyed by id, each user is listed once per accepted friendship that joins
   * them with the caller: twice when there are rows in both directions.
   */
  lemma {:induction false} FriendListedPerRow(users: seq<User>, rows: seq<Friendship>, me: int,
                                              next: int, u: User)
    requires UsersKeyed(users, next)
    requires u in users
    ensures multiset(Friends(users, rows, me))[FriendOf(u)] == |MatchingRows(rows, me, u)|
  {
    var head := FriendRows(rows, me, users[0]);
    var rest := Friends(users[1..], rows, me);
    assert Friends(users, rows, me) == head + rest;
    if users[0] == u {
      forall k | 0 <= k < |users[1..]| ensures users[1..][k].id != u.id {
        assert users[1..][k] == users[k + 1];
      }
      FriendsAbsentId(users[1..], rows, me, u.id);
    } else {
      UsersKeyedTail(users, next);
      assert u in users[1..];
      FriendListedPerRow(users[1..], rows, me, next, u);
      var k :| 0 <= k < |users| && users[k] == u;
      assert users[0].id != u.id;
      assert FriendOf(u) !in head;
    }
  }

  /** A user id that no row of `users` has is never listed. */
  lemma {:induction false} FriendsAbsentId(users: seq<User>, rows: seq<Friendship>, me: int, id: int)
    requires forall k :: 0 <= k < |users| ==> users[k].id != id
    ensures forall x :: x in Friends(users, rows, me) ==> x.id != id
  {
    if users != [] {
      forall k | 0 <= k < |users[1..]| ensures users[1..][k].id != id {
        assert users[1..][k] == users[k + 1];
      }
      FriendsAbsentId(users[1..], rows, me, id);
      assert Friends(users, rows, me) == FriendRows(rows, me, users[0]) + Friends(users[1..], rows, me);
    }
  }

  /** The tail of a keyed users table is keyed. */
  lemma UsersKeyedTail(users: seq<User>, next: int)
    requires UsersKeyed(users, next) && users != []
    ensures UsersKeyed(users[1..], next)
  {
    forall i, j | 0 <= i < j < |users[1..]|
      ensures users[1..][i].id != users[1..][j].id && users[1..][i].username != users[1..][j].username
              && users[1..][i].email != users[1..][j].email
    {
      assert users[1..][i] == users[i + 1] && users[1..][j] == users[j + 1];
    }
  }

  /** The caller is never among their own friends, and a pending row makes no friend. */
  lemma FriendsExcludeSelf(users: seq<User>, rows: seq<Friendship>, me: int)
    ensures forall x :: x in Friends(users, rows, me) ==> x.id != me
    ensures forall x :: x in Friends(users, rows, me) ==>
      exists f :: f in rows && f.status == Accepted && Between(f, me, x.id)
  {
  }

  // ---------------------------------------------------------------- dispatch

  datatype Verb = Get | Post | Put

  /** A path segment of a route: a literal, or a `:name` parameter matching any non-empty segment. */
  datatype Segment = Lit(text: string) | Param

  datatype Handler = OwnProfileHandler | PublicProfileHandler | UpdateProfileHandler
                   | FriendRequestHandler | FriendAcceptHandler | FriendsListHandler

  datatype Route = Route(verb: Verb, pattern: seq<Segment>, handler: Handler)

  predicate PathMatches(pattern: seq<Segment>, path: seq<string>)
  {
    |pattern| == |path| &&
    forall i :: 0 <= i < |path| ==>
      match pattern[i]
      case Lit(t) => path[i] == t
      case Param => path[i] != ""
  }

  predicate RouteMatches(r: Route, verb: Verb, path: seq<string>)
  {
    r.verb == verb && PathMatches(r.pattern, path)
  }

  /** The handler of the first route in declaration order that matches; `None` is a 404. */
  function Dispatch(table: seq<Route>, verb: Verb, path: seq<string>): (h: Option<Handler>)
    ensures h.None? <==> forall k :: 0 <= k < |table| ==> !RouteMatches(table[k], verb, path)
    ensures h.Some? ==> exists k :: (0 <= k < |table| && table[k].handler == h.value
      && RouteMatches(table[k], verb, path)
      && forall j :: 0 <= j < k ==> !RouteMatches(table[j], verb, path))
  {
    if table == [] then None
    else if RouteMatches(table[0], verb, path) then Some(table[0].handler)
    else
      var h := Dispatch(table[1..], verb, path);
      assert h.Some? ==> exists k :: (0 <= k < |table| && table[k].handler == h.value
        && RouteMatches(table[k], verb, path)
        && forall j :: 0 <= j < k ==> !RouteMatches(table[j], verb, path)) by {
        if h.Some? {
          var k :| 0 <= k < |table[1..]| && table[1..][k].handler == h.value
            && RouteMatches(table[1..][k], verb, path)
            && forall j :: 0 <= j < k ==> !RouteMatches(table[1..][j], verb, path);
          assert table[k + 1] == table[1..][k];
          forall j | 0 <= j < k + 1 ensures !RouteMatches(table[j], verb, path) {
            if j > 0 { assert table[j] == table[1..][j - 1]; }
          }
        }
      }
      assert h.None? ==> forall k :: 0 <= k < |table| ==> !RouteMatches(table[k], verb, path) by {
        if h.None? {
          forall k | 0 <= k < |table| ensures !RouteMatches(table[k], verb, path) {
            if k > 0 { assert table[k] == table[1..][k - 1]; }
          }
        }
      }
      h
  }

  /** The routes of routes/user.js in the order they are declared. */
  const DeclaredRoutes: seq<Route> := [
    Route(Get, [Lit("profile")], OwnProfileHandler),
    Route(Get, [Param], PublicProfileHandler),
    Route(Put, [Lit("profile")], UpdateProfileHandler),
    Route(Post, [Lit("friends"), Lit("request")], FriendRequestHandler),
    Route(Put, [Lit("friends"), Lit("accept")], FriendAcceptHandler),
    Route(Get, [Lit("friends")], FriendsListHandler)
  ]

  /** The same routes with the friends list declared ahead of the `/:id` catch-all. */
  const CorrectedRoutes: seq<Route> := [
    Route(Get, [Lit("profile")], OwnProfileHandler),
    Route(Get, [Lit("friends")], FriendsListHandler),
    Route(Get, [Param], PublicProfileHandler),
    Route(Put, [Lit("profile")], UpdateProfileHandler),
    Route(Post, [Lit("friends"), Lit("request")], FriendRequestHandler),
    Route(Put, [Lit("friends"), Lit("accept")], FriendAcceptHandler)
  ]

  /** `/friends` is not `/profile`. */
  lemma FriendsIsNotProfile()
    ensures !PathMatches([Lit("profile")], ["friends"])
  {
    var path: seq<string> := ["friends"];
    assert path[0][0] == 'f' && "profile"[0] == 'p';
  }

  /**
   * As declared, no request reaches the friends-list handler: `GET /friends` is taken by
   * `GET /:id`, which answers 500 for it.
   */
  lemma FriendsListUnreachable(verb: Verb, path: seq<string>, users: seq<User>)
    ensures Dispatch(DeclaredRoutes, verb, path) != Some(FriendsListHandler)
    ensures Dispatch(DeclaredRoutes, Get, ["friends"]) == Some(PublicProfileHandler)
    ensures PublicProfileById(users, "friends") == Fail(500)
  {
    FriendsListShadowed(verb, path);
    GetFriendsIsProfile();
    FriendsPathIsNoId(users);
  }

  /** Whatever matches the friends-list route matches `GET /:id` ahead of it. */
  lemma FriendsListShadowed(verb: Verb, path: seq<string>)
    ensures Dispatch(DeclaredRoutes, verb, path) != Some(FriendsListHandler)
  {
    var t := DeclaredRoutes;
    if Dispatch(t, verb, path) == Some(FriendsListHandler) {
      var k :| 0 <= k < |t| && t[k].handler == FriendsListHandler && RouteMatches(t[k], verb, path)
        && forall j :: 0 <= j < k ==> !RouteMatches(t[j], verb, path);
      assert k == 5;
      assert path[0] == "friends";
      assert RouteMatches(t[1], verb, path);
    }
  }

  /** `GET /friends` reaches the public-profile handler. */
  lemma GetFriendsIsProfile()
    ensures Dispatch(DeclaredRoutes, Get, ["friends"]) == Some(PublicProfileHandler)
  {
    var t := DeclaredRoutes;
    FriendsIsNotProfile();
    assert !RouteMatches(t[0], Get, ["friends"]);
    assert RouteMatches(t[1], Get, ["friends"]);
    assert t[1..][0] == t[1];
  }

  /** A route that does not match can be dropped from the table without changing the dispatch. */
  lemma {:induction false} DispatchSkips(front: seq<Route>, r: Route, back: seq<Route>, verb: Verb, path: seq<string>)
    requires !RouteMatches(r, verb, path)
    ensures Dispatch(front + [r] + back, verb, path) == Dispatch(front + back, verb, path)
  {
    if front == [] {
      assert front + [r] + back == [r] + back;
      assert front + back == back;
      assert ([r] + back)[1..] == back;
    } else {
      DispatchSkips(front[1..], r, back, verb, path);
      assert (front + [r] + back)[1..] == front[1..] + [r] + back;
      assert (front + back)[1..] == front[1..] + back;
    }
  }

  /**
   * With the friends list declared first, `GET /friends` reaches it, and every other
   * request is dispatched exactly as before.
   */
  lemma CorrectedRoutesReachFriends(verb: Verb, path: seq<string>)
    ensures Dispatch(CorrectedRoutes, Get, ["friends"]) == Some(FriendsListHandler)
    ensures !(verb == Get && path == ["friends"]) ==>
      Dispatch(CorrectedRoutes, verb, path) == Dispatch(DeclaredRoutes, verb, path)
  {
    var c, d := CorrectedRoutes, DeclaredRoutes;
    var friends := d[5];
    assert c[0] == Route(Get, [Lit("profile")], OwnProfileHandler);
    FriendsIsNotProfile();
    assert RouteMatches(c[1], Get, ["friends"]);
    if !(verb == Get && path == ["friends"]) {
      assert |path| == 1 && path[0] == "friends" ==> path == ["friends"];
      assert !RouteMatches(friends, verb, path);
      var rest := d[..5];
      assert c == [c[0]] + [friends] + rest[1..];
      assert d == rest + [friends] + [];
      assert rest == [c[0]] + rest[1..];
      DispatchSkips([c[0]], friends, rest[1..], verb, path);
      DispatchSkips(rest, friends, [], verb, path);
      assert rest + [] == rest;
    }
  }
}
