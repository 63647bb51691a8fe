/**
 * The relational store behind the handlers, held in memory: one sequence of rows per
 * table, in table order, and one serial counter per generated id. The column projections
 * the handlers `SELECT` or `RETURNING` are datatypes of their own; none of them has a
 * password column.
 */
module Schema {
  import opened Common
  import opened Rows
  import opened Credentials

  /** The range of an `integer` column. */
  const Int4Min: int := -0x8000_0000
  const Int4Max: int := 0x7FFF_FFFF

  // ---------------------------------------------------------------- rows

  datatype User = User(
    id: int, username: string, email: string, passwordHash: PasswordHash, role: Role,
    fullName: string, avatarUrl: Option<string>, bio: Option<string>, createdAt: int)

  /** A row of `refresh_tokens`. */
  datatype RefreshToken = RefreshToken(userId: int, token: string, expiresAt: int, createdAt: int)

  /** A row of `live_rooms`; `password` is NULL for an open room. */
  datatype Room = Room(
    roomId: int, name: string, hostId: int, password: Option<string>, createdAt: int, isActive: bool)

  /** A row of `room_participants`, keyed by the pair. */
  datatype Participant = Participant(roomId: int, userId: int)

  datatype FriendStatus = Pending | Accepted

  /** A row of `friendships`, keyed by the ordered pair (`user_id1`, `user_id2`). */
  datatype Friendship = Friendship(user1: int, user2: int, status: FriendStatus)

  datatype Message = Message(
    messageId: int, senderId: int, receiverId: int, content: string, sentAt: int, isRead: bool)

  datatype Moment = Moment(
    momentId: int, userId: int, audioUrl: string, description: string, createdAt: int, viewCount: nat)

  /** A row of `moment_likes`, keyed by the pair. */
  datatype Like = Like(momentId: int, userId: int)

  datatype Comment = Comment(commentId: int, momentId: int, userId: int, content: string, createdAt: int)

  // ---------------------------------------------------------------- projections

  /** `RETURNING id, username, email, full_name, role, created_at` (register, sync-password). */
  datatype Account = Account(
    id: int, username: string, email: string, fullName: string, role: Role, createdAt: int)

  function AccountOf(u: User): Account
  {
    Account(u.id, u.username, u.email, u.fullName, u.role, u.createdAt)
  }

  /** The login `SELECT` after `delete user.password_hash`. */
  datatype LoginProfile = LoginProfile(
    id: int, username: string, email: string, fullName: string, role: Role,
    avatarUrl: Option<string>, bio: Option<string>)

  function LoginProfileOf(u: User): LoginProfile
  {
    LoginProfile(u.id, u.username, u.email, u.fullName, u.role, u.avatarUrl, u.bio)
  }

  /** What register, login and sync-password return does not depend on the password hash. */
  lemma ProjectionsOmitHash(u: User, h: PasswordHash)
    ensures AccountOf(u.(passwordHash := h)) == AccountOf(u)
    ensures LoginProfileOf(u.(passwordHash := h)) == LoginProfileOf(u)
  {
  }

  // ---------------------------------------------------------------- keys

  /** Ids are positive, below the serial counter, and unique; usernames and emails are unique. */
  ghost predicate UsersKeyed(users: seq<User>, next: int)
  {
    && 0 < next
    && (forall i :: 0 <= i < |users| ==> 0 < users[i].id < next)
    && (forall i, j :: 0 <= i < j < |users| ==>
          users[i].id != users[j].id && users[i].username != users[j].username
          && users[i].email != users[j].email)
  }

  ghost predicate TokensKeyed(rows: seq<RefreshToken>)
  {
    forall i, j :: 0 <= i < j < |rows| ==> rows[i].token != rows[j].token
  }

  ghost predicate RoomsKeyed(rooms: seq<Room>, next: int)
  {
    && 0 < next
    && (forall i :: 0 <= i < |rooms| ==> 0 < rooms[i].roomId < next)
    && (forall i, j :: 0 <= i < j < |rooms| ==> rooms[i].roomId != rooms[j].roomId)
  }

  ghost predicate FriendshipsKeyed(rows: seq<Friendship>)
  {
    forall i, j :: 0 <= i < j < |rows| ==>
      (rows[i].user1, rows[i].user2) != (rows[j].user1, rows[j].user2)
  }

  ghost predicate MessagesKeyed(rows: seq<Message>, next: int)
  {
    && 0 < next
    && (forall i :: 0 <= i < |rows| ==> 0 < rows[i].messageId < next)
    && (forall i, j :: 0 <= i < j < |rows| ==> rows[i].messageId != rows[j].messageId)
  }

  ghost predicate MomentsKeyed(rows: seq<Moment>, next: int)
  {
    && 0 < next
    && (forall i :: 0 <= i < |rows| ==> 0 < rows[i].momentId < next)
    && (forall i, j :: 0 <= i < j < |rows| ==> rows[i].momentId != rows[j].momentId)
  }

  ghost predicate CommentsKeyed(rows: seq<Comment>, next: int)
  {
    && 0 < next
    && (forall i :: 0 <= i < |rows| ==> 0 < rows[i].commentId < next)
    && (forall i, j :: 0 <= i < j < |rows| ==> rows[i].commentId != rows[j].commentId)
  }

  // ---------------------------------------------------------------- lookups

  /** `SELECT ... FROM users WHERE id = $1`. */
  function UserById(users: seq<User>, id: int): (r: Option<User>)
    ensures r.Some? ==> r.value in users && r.value.id == id
    ensures r.None? <==> forall u :: u in users ==> u.id != id
  {
    if users == [] then None
    else if users[0].id == id then Some(users[0])
    else UserById(users[1..], id)
  }

  /** At most one user has a given id, so the lookup finds that one. */
  lemma UserByIdUnique(users: seq<User>, next: int, u: User)
    requires UsersKeyed(users, next)
    requires u in users
    ensures UserById(users, u.id) == Some(u)
  {
    var v := UserById(users, u.id).value;
    var i :| 0 <= i < |users| && users[i] == u;
    var j :| 0 <= j < |users| && users[j] == v;
    if i < j { assert users[i].id != users[j].id; }
    if j < i { assert users[j].id != users[i].id; }
  }

  /** The refresh token text is not already in the table. */
  predicate TokenUnused(rows: seq<RefreshToken>, token: string)
  {
    forall r :: r in rows ==> r.token != token
  }

  // ---------------------------------------------------------------- the store

  class Store {
    var users: seq<User>
    var refreshTokens: seq<RefreshToken>
    var liveRooms: seq<Room>
    var roomParticipants: seq<Participant>
    var friendships: seq<Friendship>
    var messages: seq<Message>
    var moments: seq<Moment>
    var momentLikes: seq<Like>
    var momentComments: seq<Comment>

    var nextUserId: int
    var nextRoomId: int
    var nextMessageId: int
    var nextMomentId: int
    var nextCommentId: int

    /** The column default of `refresh_tokens.expires_at`, as an offset from the insertion time. */
    const refreshLifetime: int

    /** The constraints the store enforces: serial ids, unique keys. */
    ghost predicate Valid()
      reads this
    {
      && UsersKeyed(users, nextUserId)
      && TokensKeyed(refreshTokens)
      && RoomsKeyed(liveRooms, nextRoomId)
      && NoDup(roomParticipants)
      && FriendshipsKeyed(friendships)
      && MessagesKeyed(messages, nextMessageId)
      && MomentsKeyed(moments, nextMomentId)
      && NoDup(momentLikes)
      && CommentsKeyed(momentComments, nextCommentId)
    }

    /** An empty store whose serial counters start at 1. */
    constructor (refreshLifetime: int)
      ensures Valid()
      ensures this.refreshLifetime == refreshLifetime
      ensures users == [] && refreshTokens == [] && liveRooms == [] && roomParticipants == []
      ensures friendships == [] && messages == [] && moments == [] && momentLikes == []
      ensures momentComments == []
    {
      users, refreshTokens, liveRooms, roomParticipants := [], [], [], [];
      friendships, messages, moments, momentLikes, momentComments := [], [], [], [], [];
      nextUserId, nextRoomId, nextMessageId, nextMomentId, nextCommentId := 1, 1, 1, 1, 1;
      this.refreshLifetime := refreshLifetime;
    }
  }
}
