# KaraokeBackend request core, in Dafny

This project models the request-level decision logic of the KaraokeBackend Express server and
proves properties of it. The store is held in memory: one class `Schema.Store` with one sequence of rows per table (`users`,
`refresh_tokens`, `live_rooms`, `room_participants`, `friendships`, `messages`, `moments`,
`moment_likes`, `moment_comments`), in table order, and one serial counter per generated id.
`Store.Valid()` gathers the store's keys: serial ids, unique usernames and emails, unique refresh tokens, and
whole-row keys for participants and likes. Every handler that changes tables keeps `Valid()`.

- `AuthGate` (middlewares/auth.js) holds `verifyToken`. It is a function `Gate` of the
  `Authorization` header, of the token verifier, of `refresh_tokens`, and of whether the
  session query fails. It is also a method `VerifyToken` that updates a `Request` object
  step by step: it attaches `req.user` and counts calls of `next`. `requireAdmin` and
  `requireOwn` are role predicates.
- `AuthRoutes` (routes/auth.js) holds `generateRefreshToken` and the register, login, refresh,
  logout, check-email and sync-password handlers. Each is a method on the store. Its field
  frame (`modifies db`refreshTokens`) says which tables it may change. Its `ensures` give
  every error status and the whole new content of those tables.
- `RoomRoutes`, `UserRoutes`, `ChatRoutes` and `MomentRoutes` hold the handlers of
  routes/rooms.js, routes/user.js, routes/chat.js and routes/moments.js. Handlers that insert,
  update or delete rows are methods. The pure queries are functions over table values: the
  active rooms, the profiles, the friends list, the chat history and the feed.
- `Rows` holds the set-like table operations the handlers share:
  - `INSERT ... ON CONFLICT DO NOTHING` on a key that covers the whole row;
  - `DELETE` of one exact row;
  - a stable `ORDER BY`;
  - `LIMIT`.
- `Text` holds the JavaScript built-ins the handlers use: `trim` over the ECMAScript
  white-space set, `split(' ')`, and `parseInt` without a radix, as in section 19.2.5 of ECMA-262.
- `Credentials` holds the roles, the JWT payload, an abstract bcrypt hash, and the hex text of
  the 64 random bytes of a refresh token.

The tests are modelled as follows:
- JavaScript truthiness is `Common.Truthy` for an optional string (`undefined`, `null` and `""` are
  falsy) and `Common.TruthyId` for an optional number (0 is falsy).
- `!x?.trim()` is `Text.Blank`.

Each handler receives the authenticated caller's `user_id` as a parameter. That is what
`verifyToken` attached.

These foreign calls are parameters:
- the clock (`now`);
- `jwt.verify`, a function from token to optional payload, where `None` stands for any exception;
- `crypto.randomBytes(64)`, a byte sequence whose hex text is not yet a token in the table;
- a failing session query in the gate, a boolean.

`bcrypt.hash` is an unsalted digest of the 72 bytes bcrypt reads. bcryptjs takes the password's
UTF-8 encoding followed by one NUL byte as its key, and reads that key cyclically until it has
72 bytes. So a hash matches exactly the passwords that give the same 72 bytes: those that share
their first 72 bytes, and also pairs such as `"a"` and `"a\0a"`, where the NUL repeats the key.
The bcryptjs library itself is not part of this model. `jwt.sign` is the value `Grant(user, role)`, which lasts 1800 seconds. The
column default of `refresh_tokens.expires_at` does not appear in the source. It is the store
constant `refreshLifetime`.

The code differs from a design one might expect of an authentication core, and the model
follows the code:
- Duplicate registration is answered 400, not 409.
- `generateRefreshToken` only inserts. No earlier token of the user is deleted, and rows of every
  role get the same lifetime.
- There is no account lock, no admin-platform login flag and no guard against role escalation.
- The gate looks at who owns `refresh_tokens` rows, not at whether those rows have expired.

## Model

| member | source | states |
|---|---|---|
| AuthGate.Gate | middlewares/auth.js:11-50 | The gate answers only 401 or 403. It proceeds exactly with a well-formed header whose token the verifier decodes and, for admin and own, a working session query that finds a row; it then carries the decoded payload. |
| AuthGate.VerifyToken | middlewares/auth.js:11-50 | A reject answers with the gate's status and leaves `req.user` and the `next` count unchanged. Otherwise the decoded payload is attached and `next` is called exactly once. |
| AuthGate.MalformedHeaderUnauthenticated | middlewares/auth.js:14-19 | A missing header, or one without the exact prefix `"Bearer "`, is answered 401 whatever the token, the store or the query outcome. |
| AuthGate.LowerCaseSchemeUnauthenticated | middlewares/auth.js:14 | `"bearer "` followed by any text is answered 401, because the prefix test is case-sensitive. |
| AuthGate.BearerToken | middlewares/auth.js:21 | The token is the run of characters after `"Bearer "` up to the next space or the end of the header. |
| AuthGate.SecondFieldOnly | middlewares/auth.js:21 | `"Bearer a b"` hands the verifier `"a"`. |
| AuthGate.InvalidTokenForbidden | middlewares/auth.js:23-49 | A token the verifier rejects is answered 403, whatever the store holds. |
| AuthGate.SessionQueryFailureForbidden | middlewares/auth.js:27-49 | For role admin or own, a failing session query lands in the catch block and is answered 403. |
| AuthGate.HasSession | middlewares/auth.js:28-38 | The scan stops at the first row of the user, and finds a row exactly when the user owns some `refresh_tokens` row. |
| AuthGate.PrivilegedNeedsSessionRow | middlewares/auth.js:27-38 | For role admin or own with a working store, the gate proceeds exactly when the user owns some `refresh_tokens` row; otherwise it answers 401. |
| AuthGate.SessionOwners | middlewares/auth.js:28-33 | The set of users owning a row is exactly the set for which the session query finds a row. |
| AuthGate.ExpiryNotConsulted | middlewares/auth.js:28-33 | Two token tables with the same owners give the same outcome, so `expires_at` plays no part and an expired row keeps an admin in. |
| AuthGate.UnprivilegedIgnoresStore | middlewares/auth.js:27-43 | For every other role a valid token proceeds with its payload, whatever the store holds and whether it fails. |
| AuthGate.ProceedCarriesDecodedPayload | middlewares/auth.js:42-43 | Whatever proceeds carries exactly the payload decoded from the second header field. A privileged payload proceeds only with a working query and a session row. |
| AuthGate.RejectStatuses | middlewares/auth.js:14-49 | The gate answers with no status other than 401 and 403. |
| AuthGate.Request.constructor | middlewares/auth.js:12 | A fresh request carries its header, has no user attached, no answer sent and no `next` call yet. |
| AuthGate.RequireAdmin | middlewares/auth.js:52-58 | Passes exactly for roles own and admin; every other role is answered 403. |
| AuthGate.RequireOwn | middlewares/auth.js:60-65 | Passes exactly for role own; every other role is answered 403. |
| AuthGate.OwnerGateInsideAdminGate | middlewares/auth.js:52-65 | Whoever passes `requireOwn` passes `requireAdmin`. An admin passes `requireAdmin` and is refused by `requireOwn`. |
| Credentials.Utf8Char | routes/auth.js:47 | A character takes one to four bytes, and one byte, its own code, exactly when it is ASCII. |
| Credentials.Utf8 | routes/auth.js:47 | The encoding of a password has at least one and at most four bytes per character. |
| Credentials.BcryptKey | routes/auth.js:47 | The key is the password's UTF-8 encoding followed by one NUL byte. |
| Credentials.Cycle | routes/auth.js:47 | Reading a key cyclically gives the requested number of bytes. They start with the key and repeat with the key's length as period. |
| Credentials.BcryptInput | routes/auth.js:47 | bcrypt reads exactly 72 bytes of the key read cyclically. A password of 72 bytes or more gives its first 72 bytes. A shorter one gives its whole encoding, then NUL, then the key again. |
| Credentials.HashComparesFirst72Bytes | routes/auth.js:97 | A hash matches the password it was made from, and another password exactly when the two agree on the bytes bcrypt reads. |
| Credentials.Utf8Ascii | routes/auth.js:47 | ASCII text is encoded as one byte per character, the character's code. |
| Credentials.ShortAsciiMatchesOnlyItself | routes/auth.js:97 | An ASCII password without NUL, of at most 72 characters, is matched by its own hash and by no other such password. |
| Credentials.ShortInputsFixLength | routes/auth.js:97 | Two such passwords that bcrypt reads as the same bytes have the same length. Stated one way: the first is not shorter. |
| Credentials.LongPasswordsCollide | routes/auth.js:47-97 | 73 `a`s and 72 `a`s followed by `b` differ, yet the second matches the hash of the first. |
| Credentials.NulPasswordsCollide | routes/auth.js:47-97 | `"a"` and `"a\0a"` differ, yet each matches the hash of the other, because both are read as `a`, NUL repeated. |
| Credentials.HexEncode | routes/auth.js:17 | The hex text has two lower-case hex digits per byte. |
| Credentials.NibbleOf | routes/auth.js:17 | Reading a hex digit gives back the nibble that `HexDigit` writes. |
| Credentials.HexDecode | routes/auth.js:17 | Decoding yields one byte per two hex digits. |
| Credentials.HexRoundTrip | routes/auth.js:17 | Decoding the hex text of some bytes gives the bytes back, so distinct random bytes give distinct tokens. |
| AuthRoutes.GenerateRefreshToken | routes/auth.js:16-23 | Appends exactly one row: the user, the hex text of the random bytes, and the default expiry. Every existing row stays, and no other table changes. |
| AuthRoutes.NewUser | routes/auth.js:50-55 | The inserted user has role `user`, `full_name` defaults to the username, and the stored hash matches the password. |
| AuthRoutes.Taken | routes/auth.js:36-43 | The check finds a row exactly when some user has the username or some user has the email, not necessarily the same user. |
| AuthRoutes.Register | routes/auth.js:26-79 | A missing username, password or email is answered 400 with both tables unchanged. So is a username or an email that is already taken. Otherwise exactly one user and one token row are added, and the reply carries the new account, an access token with role `user`, and the refresh token. |
| AuthRoutes.AppendKeepsKeys | routes/auth.js:35-56 | A user with the next serial id and a username and email nobody has keeps ids, usernames and emails unique. |
| Schema.ProjectionsOmitHash | routes/auth.js:87-111 | The user objects returned by register, login and sync-password do not depend on `password_hash`. |
| AuthRoutes.FindByIdentifier | routes/auth.js:86-96 | Finds the first user in table order whose email or username equals the identifier. It finds none for an absent identifier, or when no user matches. |
| AuthRoutes.Login | routes/auth.js:82-125 | An unknown identifier, or a password mismatch, is answered 400. A missing password makes the compare throw, which is answered 500. In all three cases no token row is added. Otherwise the reply is the profile without the hash, an access token with the user's role, and a refresh token, and exactly one token row is added. |
| AuthRoutes.LiveSession | routes/auth.js:133-140 | Finds a row with the token that has not expired, or none when there is no such row. |
| AuthRoutes.Refresh | routes/auth.js:128-156 | No token is answered 401. Otherwise, with no live row for the token, or a live row whose user has gone, the reply is 403. Else it is an access token with that user's current role. In a valid store every live row with the token whose user exists gives that user's grant. No table changes. |
| AuthRoutes.RefreshFindsTheSession | routes/auth.js:133-152 | With unique tokens and ids, refresh finds exactly the live row holding the token and that row's user. |
| Schema.UserById | routes/auth.js:143 | Finds a user with the id, or none when no user has it. |
| Schema.UserByIdUnique | routes/auth.js:143 | With unique ids, the lookup finds exactly that user. |
| AuthRoutes.WithoutToken | routes/auth.js:162 | Deletes exactly the rows holding the token. Every other row keeps its multiplicity. |
| AuthRoutes.WithoutTokenIdempotent | routes/auth.js:162 | Deleting by token twice is deleting once. |
| AuthRoutes.SubKeyed | routes/auth.js:162 | Dropping rows keeps tokens unique. |
| AuthRoutes.Logout | routes/auth.js:159-169 | Always answers 200. A truthy token deletes exactly the rows holding it, and otherwise nothing changes. |
| AuthRoutes.LogoutIdempotent | routes/auth.js:159-165 | Logging out twice with the same token leaves the table as logging out once. |
| AuthRoutes.CheckEmail | routes/auth.js:172-187 | Answers 200. `exists` holds exactly when some user has the email, and an absent email matches none. |
| AuthRoutes.FirstWithEmail | routes/auth.js:206-215 | Finds a user with the email, or none exactly when no user has it. |
| AuthRoutes.SetPassword | routes/auth.js:206-209 | Only the hash of users with that email changes. Every other column and row stays the same. |
| AuthRoutes.SyncPassword | routes/auth.js:190-239 | A missing email or password is answered 400, and an unknown email 404, with both tables unchanged. Otherwise the matching users get the new hash, the matching account is signed in, and exactly one token row is added. The old password is not asked for. |
| AuthRoutes.SetPasswordKeepsKeys | routes/auth.js:203-209 | Replacing password hashes keeps every id, username and email unique. |
| AuthRoutes.SyncPasswordReplacesHash | routes/auth.js:203-209 | After sync-password the new password matches the user's stored hash. |
| Common.OrElse | routes/auth.js:54 | `a || b` on strings: a truthy operand always wins, the result is one of the two operands, and it is `""` only when both are falsy, so a new user's `full_name` is never empty. |
| Text.TrimStart | routes/chat.js:37 | `parseInt` first drops the leading white space: the rest is a suffix that does not start with white space, and all that was cut off is white space. |
| Text.Trim | routes/rooms.js:12 | The result is a slice of the input that neither starts nor ends with white space, and everything removed on either side is white space. |
| Text.TrimEmptyIffBlank | routes/rooms.js:12 | Trimming gives `""` exactly when the text is all white space. |
| Text.TrimIdempotent | routes/rooms.js:21 | Trimming twice is trimming once. |
| Text.Split | middlewares/auth.js:21 | `split(' ')` yields at least one field, and no field contains the separator. |
| Text.JoinSplit | middlewares/auth.js:21 | Joining the fields of a split gives the string back. |
| Text.SplitAfterWord | middlewares/auth.js:21 | A word without separators, followed by a separator, is the first field; the rest splits independently. |
| Text.FirstField | middlewares/auth.js:21 | The first field is the longest prefix without a separator. |
| RoomRoutes.StoredPassword | routes/rooms.js:21 | `password || null`: a stored password is never `""` and is the one the creator gave. The room is open exactly when the given password is falsy. |
| RoomRoutes.CreateRoom | routes/rooms.js:8-35 | A missing or blank name is answered 400 and nothing changes. Otherwise exactly one active room is added, with the trimmed name, the caller as host and the password or NULL. The host becomes a participant, and the reply has no password. |
| RoomRoutes.AddRoom | routes/rooms.js:17-22 | The room is appended with the next serial id, the counter moves on, and the store stays valid. |
| RoomRoutes.RoomsKeyedAppend | routes/rooms.js:17-22 | A room with the next serial id keeps room ids unique. |
| RoomRoutes.CreatedNameTrimmed | routes/rooms.js:12-21 | The stored name of a created room is not empty and has no white space at either end. |
| RoomRoutes.ActiveRoomById | routes/rooms.js:43-44 | Finds an active room with the id, or none exactly when there is none. |
| RoomRoutes.AddParticipant | routes/rooms.js:25-28 | The pair is inserted if absent, and the participants stay free of duplicates. |
| RoomRoutes.JoinRoom | routes/rooms.js:38-59 | No active room with the id is answered 404. A room with a truthy password and a different password supplied is answered 403. Otherwise the caller's pair is inserted if absent. On failure nothing changes. |
| RoomRoutes.AdmitsExactly | routes/rooms.js:46-48 | A room with a password is opened exactly by that password, and a room without one admits anyone. |
| Rows.InsertIfAbsent | routes/rooms.js:50-53 | A row already present leaves the table as it is. An absent row is appended once at the end. |
| Rows.InsertIfAbsentIdempotent | routes/rooms.js:50-53 | Inserting a row twice is inserting it once. Join and like both work this way. |
| Rows.InsertIfAbsentOnce | routes/rooms.js:50-53 | On a table without duplicates the insertion keeps it so, and the row then occurs exactly once. Join and like both rely on this. |
| Rows.NoDupCount | routes/rooms.js:50-53 | In a table without duplicates every row occurs at most once. |
| RoomRoutes.LeaveRoom | routes/rooms.js:62-75 | Always answers 200. Exactly the caller's pair for that room is removed, even when it was absent. Without a room id nothing is removed. |
| Rows.Without | routes/rooms.js:67-70 | Deletes every copy of the row. Every other row keeps its multiplicity. |
| Rows.WithoutIdempotent | routes/rooms.js:67-70 | Deleting an absent row changes nothing, and deleting twice is deleting once. |
| Rows.WithoutKeepsNoDup | routes/rooms.js:67-70 | Deleting a row keeps the table free of duplicates. |
| Rows.CountsNoDup | routes/rooms.js:67-70 | A table in which every row occurs at most once has no duplicates. |
| RoomRoutes.LeaveAfterJoin | routes/rooms.js:50-70 | After a join and then a leave the caller is not listed, and every other pair is as before the join. |
| RoomRoutes.ParticipantCount | routes/rooms.js:84-87 | `COUNT(p.user_id)` per room is 0 exactly when the room has no participant. |
| RoomRoutes.CountAfterAppend | routes/rooms.js:84-87 | Adding a participant raises that room's count by one and leaves every other room's count. |
| RoomRoutes.HostName | routes/rooms.js:83-86 | The host name is NULL exactly when the host has no `users` row. Otherwise it is the username of a user with the host's id. |
| RoomRoutes.ActiveOnly | routes/rooms.js:88 | Keeps every active room exactly as often as it is stored, and no inactive room. |
| RoomRoutes.ActiveEntries | routes/rooms.js:80-89 | Exactly one entry per active room, in table order, each with its host name and participant count. |
| RoomRoutes.ActiveRooms | routes/rooms.js:78-96 | The active listing is a permutation of the entries of the active rooms, newest `created_at` first. |
| RoomRoutes.ActiveRoomListedOnce | routes/rooms.js:80-90 | With rooms keyed by `room_id`, every active room is listed exactly once. |
| RoomRoutes.EntryListedOnce | routes/rooms.js:80-89 | With rooms keyed by `room_id`, the grouped rows hold each active room's entry exactly once. |
| RoomRoutes.ActiveEntriesCons | routes/rooms.js:80-89 | The first stored room contributes its entry ahead of the others' when it is active, and nothing when it is not. |
| RoomRoutes.NewestFirstDescending | routes/rooms.js:90 | Sorted by the key, the listing has `created_at` descending. |
| RoomRoutes.ActiveRoomsShowOnlyOpenRooms | routes/rooms.js:88 | Every listed room is active, and an inactive room is never listed. |
| Rows.InsertSorted | routes/rooms.js:90 | Inserting into a sorted sequence keeps it sorted and adds exactly that row. |
| Rows.SortBy | routes/rooms.js:90 | `ORDER BY` yields a sorted permutation of its input. |
| UserRoutes.OwnProfile | routes/user.js:8-19 | Always answers 200. The body is the caller's row without the hash, or empty when the caller has no row. |
| UserRoutes.PgInteger | routes/user.js:25-27 | A parameter is read as an id only when it is an optional sign followed by decimal digits, in the 32-bit range. |
| UserRoutes.PgIntegerDecimal | routes/user.js:25-27 | The decimal text of an id in range reads back as that id. |
| UserRoutes.PublicProfileById | routes/user.js:22-34 | A parameter that is not an integer is answered 500, and an unknown id 404. Otherwise the reply is the public columns of the user with that id. |
| UserRoutes.PublicProfileOmitsPrivateColumns | routes/user.js:26 | The public profile does not depend on the email, the role or the password hash. |
| UserRoutes.PublicProfileFindsEveryUser | routes/user.js:22-30 | Every user is found by the decimal text of their id. |
| UserRoutes.FriendsPathIsNoId | routes/user.js:22-33 | When the path segment `friends` lands in this handler, the reply is 500. |
| UserRoutes.Coalesce | routes/user.js:44-46 | A sent field always wins, even when it is `""`. Otherwise the column keeps its value: nothing else can appear. |
| UserRoutes.MergeProfiles | routes/user.js:43-49 | Only the caller's row changes, and in it only `full_name`, `avatar_url` and `bio`, each only when sent. |
| UserRoutes.UpdateProfile | routes/user.js:37-56 | The users table becomes the merge. The reply is the caller's updated row, or empty when the caller has no row. |
| UserRoutes.MergeProfilesIdempotent | routes/user.js:43-49 | An update with no fields changes nothing, and the same update twice equals it once. |
| UserRoutes.FriendRequest | routes/user.js:59-72 | Always answers 200. A pending `(caller, friend)` row is inserted unless that ordered pair already exists, whatever its status. The new table is `AfterRequest` of the old one. |
| UserRoutes.FriendRequestKeepsStatus | routes/user.js:64-67 | A request keeps every existing row, so an accepted friendship is never downgraded. The pair key stays unique, the pair is present afterwards, and repeating the request changes nothing. |
| UserRoutes.AcceptPair | routes/user.js:80-86 | Every row between the two users, in either direction, becomes accepted. No other row changes. |
| UserRoutes.FriendAccept | routes/user.js:75-96 | Succeeds exactly when some row lies between the caller and the friend. Otherwise it is answered 400 and the table is unchanged. |
| UserRoutes.AcceptSymmetric | routes/user.js:83 | Accepting is symmetric in the two ids, so the requester can accept their own request. |
| UserRoutes.RequestThenAccept | routes/user.js:64-86 | After a request and its acceptance by the friend, the pair is accepted. |
| UserRoutes.MatchingRows | routes/user.js:106-109 | Keeps each accepted friendship joining the caller and the user, as often as stored, and no other row. |
| UserRoutes.FriendRows | routes/user.js:103-109 | All entries for one user show that user, and there is one per matching friendship. |
| UserRoutes.Friends | routes/user.js:99-116 | The list holds exactly the other parties of the accepted friendships involving the caller. |
| UserRoutes.FriendListedPerRow | routes/user.js:103-109 | With users keyed by id, each user is listed once per accepted friendship joining them with the caller, so twice with rows in both directions. |
| UserRoutes.FriendsAbsentId | routes/user.js:104-106 | An id that no user has is never listed. |
| UserRoutes.FriendsExcludeSelf | routes/user.js:103-109 | The caller is never listed, and each listed user has an accepted row with the caller, in one direction or the other. |
| UserRoutes.Dispatch | routes/user.js:8-99 | A request reaches the first declared route whose method and path match. It reaches no handler exactly when no route matches. |
| UserRoutes.DispatchSkips | routes/user.js:8-99 | A route that does not match a request can be dropped from the table without changing where that request goes. |
| UserRoutes.FriendsIsNotProfile | routes/user.js:8 | The path `/friends` does not match the route `/profile`. |
| UserRoutes.FriendsListUnreachable | routes/user.js:22-99 | As declared, no request reaches the friends-list handler. `GET /friends` reaches the public-profile handler, which answers 500. |
| UserRoutes.FriendsListShadowed | routes/user.js:22-99 | Every request that the friends-list route matches is matched first by `GET /:id`. |
| UserRoutes.GetFriendsIsProfile | routes/user.js:22-99 | `GET /friends` is dispatched to the public-profile handler. |
| UserRoutes.CorrectedRoutesReachFriends | routes/user.js:22-99 | With `/friends` declared before `/:id`, `GET /friends` reaches the friends list, and every other request is dispatched as before. |
| ChatRoutes.SendMessage | routes/chat.js:8-32 | A falsy receiver id or blank content is answered 400 and nothing changes. Otherwise exactly one unread message is added, from the caller, with the trimmed content, and it is returned. |
| ChatRoutes.SentContentTrimmed | routes/chat.js:12-21 | Stored content is not empty and has no white space at either end. |
| ChatRoutes.BetweenRows | routes/chat.js:53-54 | Selects exactly the messages between the two users, in either direction, each as often as stored. |
| ChatRoutes.Conversation | routes/chat.js:44-56 | The history holds exactly the messages between the two users, each as often as stored, ordered by `sent_at` ascending. |
| ChatRoutes.ConversationSymmetric | routes/chat.js:53-54 | The history is the same whichever of the two users asks for it. |
| ChatRoutes.BetweenRowsSymmetric | routes/chat.js:53-54 | The selection does not depend on the order of the two ids. |
| ChatRoutes.MarkRead | routes/chat.js:60-65 | Sets `is_read` on exactly the messages from the friend to the caller. Every other message is unchanged. |
| ChatRoutes.MarkReadEffect | routes/chat.js:60-65 | Afterwards every message from the friend to the caller is read, and messages in the other direction are untouched. Marking again changes nothing. |
| ChatRoutes.MarkReadKeepsKeys | routes/chat.js:60-65 | Marking messages read keeps their ids. |
| ChatRoutes.SnapshotShowsOldFlags | routes/chat.js:44-67 | An unread message from the friend is in the reply as unread. The stored copy is read afterwards. |
| ChatRoutes.History | routes/chat.js:35-72 | A parameter whose `parseInt` is NaN or 0 is answered 400, and an id out of column range 500, with messages unchanged. Otherwise the reply is the history before the call, and the friend's messages to the caller are then marked read. |
| Text.DigitValue | routes/chat.js:37 | A character is a decimal digit exactly when its value is below 10, and a digit of some radix up to 36 exactly when it is an ASCII letter or digit. Digits count from 0, letters from 10 in alphabet order, in either case. |
| Text.DigitRun | routes/chat.js:37 | The longest prefix made of digits of the radix. |
| Text.ParseInt | routes/chat.js:37 | A number is read only from text holding some decimal digit, and a negative one only from text holding a minus sign. |
| Text.Decimal | routes/chat.js:37 | The decimal text of a number, with no leading zero. |
| Text.DecimalValue | routes/chat.js:37 | The decimal text denotes the number. |
| Text.DigitRunAll | routes/chat.js:37 | A string made only of digits is its own digit run. |
| Text.ParseIntDecimal | routes/chat.js:37 | `parseInt(String(n)) === n`, so the decimal text of an id is read as that id. |
| Text.ParseIntDigits | routes/chat.js:37 | A nonempty string of decimal digits is read as the number they denote. |
| Text.ParseIntPlain | routes/chat.js:37 | Text that starts with neither white space, a sign nor a `0x` prefix is read as the decimal digit run it starts with, and is NaN when there is none. |
| Text.ParseIntHex | routes/chat.js:37 | `0x` followed by text is read as the hexadecimal digit run after the prefix, and is NaN when there is none. |
| Text.ParseIntHexRun | routes/chat.js:37 | `0x`, a nonempty run of hexadecimal digits, and text that does not go on with one are read as the run's value. |
| Text.DigitRunPrefix | routes/chat.js:37 | Digits followed by nothing or by a non-digit form exactly the digit run. |
| Text.DigitsValueTwo | routes/chat.js:37 | Two digits denote the first times the radix plus the second. |
| ChatRoutes.HistoryTrailingText | routes/chat.js:37 | `"12"` followed by text that does not start with a digit, such as `"12abc"`, is read as 12: trailing text after the digits is ignored. |
| ChatRoutes.HistoryHexParameter | routes/chat.js:37 | `"0x1f"`, alone or followed by a character that is not a hexadecimal digit, is read as 31: a hexadecimal parameter is also accepted. |
| ChatRoutes.HistoryNoDigits | routes/chat.js:37-41 | A parameter that starts with a letter, such as `"abc"`, is NaN, which is answered 400. |
| MomentRoutes.PostMoment | routes/moments.js:8-29 | A falsy audio URL is answered 400 and nothing is inserted. Otherwise exactly one moment of the caller is added, with no views and description `''` when none is given, and it is returned. |
| MomentRoutes.Joined | routes/moments.js:40-41 | The join holds only stored moments with their author's columns, and every moment whose author exists. |
| MomentRoutes.JoinedListedOnce | routes/moments.js:40-41 | With unique user ids, a moment joined with its author occurs as often as the moment occurs in `moments`, no more and no fewer. |
| MomentRoutes.JoinedCount | routes/moments.js:40-41 | When the lookup of a moment's author finds a user, the moment with that user occurs in the join as often as the moment occurs in `moments`. |
| MomentRoutes.Feed | routes/moments.js:32-49 | The feed has min(50, joined) items, newest first. Every item is a joined moment, and every joined moment left out is no newer than every one shown. |
| MomentRoutes.NewestPrefix | routes/moments.js:42-43 | The first n rows of the sorted join are the newest n. |
| Rows.LimitKeepsSmallest | routes/moments.js:42-43 | Every row cut off by `LIMIT` sorts no earlier than every row kept. |
| MomentRoutes.FeedShowsAllWhenFew | routes/moments.js:42-43 | With at most 50 joined moments, the feed shows them all. |
| MomentRoutes.FeedNeedsAuthor | routes/moments.js:41 | A moment whose author has no `users` row is never in the feed. |
| MomentRoutes.LikeMoment | routes/moments.js:52-69 | A falsy moment id is answered 400 and nothing changes. Otherwise the caller's like is inserted if absent, so it occurs exactly once. |
| MomentRoutes.CommentOn | routes/moments.js:72-91 | A falsy moment id or blank content is answered 400 and nothing changes. Otherwise exactly one comment is added, with the trimmed content, and it is returned. |

## Left out

- The startup check of `JWT_SECRET` is left out. It is process configuration.
- The signatures and salts of `jwt.sign`, `jwt.verify` and `bcrypt` are abstract, as described above.
- Expiry of access tokens is left inside the `verify` parameter. `Grant` records only the 30-minute lifetime.
- Request bodies are modelled as typed optional fields: strings for names and passwords, integers for ids. A JSON number where a string is expected, or a string `"5"` where an id is expected, is not modelled. Neither is the `TypeError` that `.trim()` throws on a non-string, or JavaScript coercions in SQL parameters.
- Store exceptions outside the gate are not modelled. These are the `catch` blocks answering 500: a broken connection, and a foreign-key or NOT NULL violation that the schema might raise. Only the failing session query of the gate is modelled, as a parameter. Integer text that is not an id is modelled in `GET /:id`, and an id out of 32-bit range in the chat history.
- The table schema does not appear in the source, so these are assumptions:
  - the keys in `Store.Valid`;
  - the conflict target of `friendships`, the ordered pair `(user_id1, user_id2)`;
  - the column defaults: rooms active, messages unread, `view_count` 0, and avatar and bio NULL for a new user;
  - `created_at` and `sent_at` take the `now` parameter;
  - `users.id` and the id columns of `messages` are 32-bit `integer` columns, from `Int4Min` to `Int4Max`. `UserRoutes.PgInteger` and the range check in `ChatRoutes.History` rely on this.
- The order of rows that tie in an `ORDER BY` is unspecified in SQL. The model keeps table order, because `SortBy` is stable.
- RoomRoutes.ActiveRooms: the store returns `participant_count` as a numeric string; the model gives it as a number.
- Text.ParseInt: `parseInt` yields a double. Digit runs beyond 2^53 lose precision, and this is not modelled. `-0` is treated as 0, which is falsy in JavaScript too.
- Text.ParseInt: its own contract states only where a number can come from. The value read is stated for decimal text in `Text.ParseIntDecimal`, and for trailing text, a hex prefix and text without digits by `Text.ParseIntPlain`, `Text.ParseIntHex` and the `ChatRoutes.History…` lemmas.
- AuthRoutes.FindByIdentifier: `WHERE email = $1 OR username = $1` has no `ORDER BY`. Register checks each column on its own, so one user's email can be another user's username. The store may then return either row; the model takes the first in table order.
- Credentials.Utf8: JavaScript strings are UTF-16. A lone surrogate, which bcryptjs also encodes, cannot occur in the model's strings of Unicode scalar values.
- UserRoutes.PgInteger: the store's integer input also accepts surrounding white space and some other spellings. These are not modelled, so such parameters count as failures here.
- UserRoutes.FriendRequest: an absent `friend_id` is not modelled (the friend id is a plain integer parameter). It would insert a NULL or be refused by the schema, which is not part of this model.
- Express routing is modelled only for routes/user.js, where declaration order changes the outcome. Path matching there is exact, while Express matches paths case-insensitively and accepts a trailing slash. The mount prefixes of the routers are not part of this model.
- The handlers are module-level methods taking the store, not members of the `Store` class. Each field frame still states which tables a handler may change.
- server.js, routes/songSearch.js, routes/adminSongs.js, routes/adminUsers.js, public/assets/js/admin.js and dataTest.js are not part of this model.

## Findings

| source | as written | input that shows it | evidently intended | confidence | as-written member | corrected member |
|---|---|---|---|---|---|---|
| routes/user.js:22-99 | `GET /:id` is declared before `GET /friends`, so the router hands `/friends` to the public-profile handler, which reads `"friends"` as an id and answers 500. | `GET /friends` with any `Authorization` header | `GET /friends` returns the caller's accepted friends | high; not executed | UserRoutes.FriendsListUnreachable | UserRoutes.CorrectedRoutesReachFriends |
