/**
 * The live-room handlers of routes/rooms.js over `live_rooms` and `room_participants`:
 * create (the host joins at once), join (with the room password, if any), leave, and the
 * public list of active rooms.
 */
module RoomRoutes {
  import opened Common
  import opened Rows
  import opened Text
  import opened Schema

  /** `RETURNING room_id, name, host_id, created_at, is_active`: the password is not returned. */
  datatype RoomInfo = RoomInfo(roomId: int, name: string, hostId: int, createdAt: int, isActive: bool)

  /** One row of the active-room list. `hostName` is NULL when the host has no `users` row. */
  datatype ActiveRoom = ActiveRoom(
    roomId: int, name: string, createdAt: int, isActive: bool,
    hostName: Option<string>, participantCount: nat)

  /**
   * `password || null`: a stored password is never `""`, so a room is either open (NULL)
   * or locked by the very password its creator gave.
   */
  function StoredPassword(password: Option<string>): (p: Option<string>)
    ensures p.Some? ==> p == password && p.value != ""
    ensures p.None? <==> !Truthy(password)
  {
    if Truthy(password) then password else None
  }

  /** `SELECT * FROM live_rooms WHERE room_id = $1 AND is_active = TRUE`, first row. */
  function ActiveRoomById(rooms: seq<Room>, id: int): (r: Option<Room>)
    ensures r.Some? ==> r.value in rooms && r.value.roomId == id && r.value.isActive
    ensures r.None? <==> forall x :: x in rooms ==> x.roomId != id || !x.isActive
  {
    if rooms == [] then None
    else if rooms[0].roomId == id && rooms[0].isActive then Some(rooms[0])
    else ActiveRoomById(rooms[1..], id)
  }

  /** Whether `password` opens the room: a room without a truthy password opens for anyone. */
  predicate Admits(room: Room, password: Option<string>)
  {
    !(Truthy(room.password) && room.password != password)
  }

  /**
   * `POST /create`: 400 when the name is absent or blank. Otherwise one active room with the
   * trimmed name is added, its creator is its host and a participant, and the reply omits
   * the password.
   */
  method CreateRoom(db: Store, caller: int, name: Option<string>, password: Option<string>, now: int)
    returns (reply: Reply<RoomInfo>)
    requires db.Valid()
    modifies db`liveRooms, db`nextRoomId, db`roomParticipants
    ensures db.Valid()
    ensures Blank(name) ==> reply == Fail(400) && unchanged(db)
    ensures !Blank(name) ==>
      var room := Room(old(db.nextRoomId), Trim(name.value), caller, StoredPassword(password), now, true);
      && db.liveRooms == old(db.liveRooms) + [room]
      && db.roomParticipants == InsertIfAbsent(old(db.roomParticipants), Participant(room.roomId, caller))
      && reply == Ok(RoomInfo(room.roomId, room.name, caller, now, true))
  {
    if Blank(name) {
      return Fail(400);
    }
    var room := Room(db.nextRoomId, Trim(name.value), caller, StoredPassword(password), now, true);
    AddRoom(db, room);
    AddParticipant(db, Participant(room.roomId, caller));
    reply := Ok(RoomInfo(room.roomId, room.name, caller, now, true));
  }

  /** A room with the next serial id keeps the room ids unique. */
  lemma RoomsKeyedAppend(rooms: seq<Room>, next: int, room: Room)
    requires RoomsKeyed(rooms, next) && room.roomId == next
    ensures RoomsKeyed(rooms + [room], next + 1)
  {
  }

  /** `INSERT INTO live_rooms ...`: the room takes the next serial id. */
  method AddRoom(db: Store, room: Room)
    requires db.Valid() && room.roomId == db.nextRoomId
    modifies db`liveRooms, db`nextRoomId
    ensures db.Valid()
    ensures db.liveRooms == old(db.liveRooms) + [room] && db.nextRoomId == old(db.nextRoomId) + 1
  {
    RoomsKeyedAppend(db.liveRooms, db.nextRoomId, room);
    db.liveRooms := db.liveRooms + [room];
    db.nextRoomId := db.nextRoomId + 1;
  }

  /** `INSERT INTO room_participants ... ON CONFLICT DO NOTHING`: the row is present once. */
  method AddParticipant(db: Store, p: Participant)
    requires db.Valid()
    modifies db`roomParticipants
    ensures db.Valid()
    ensures db.roomParticipants == InsertIfAbsent(old(db.roomParticipants), p)
  {
    InsertIfAbsentOnce(db.roomParticipants, p);
    db.roomParticipants := InsertIfAbsent(db.roomParticipants, p);
  }

  /** The name the reply carries has no white space at either end and is never empty. */
  lemma CreatedNameTrimmed(name: string)
    requires !Blank(Some(name))
    ensures var t := Trim(name); t != "" && !IsJsSpace(t[0]) && !IsJsSpace(t[|t| - 1])
  {
  }

  /**
   * `POST /join`: 404 unless an active room has the id; 403 when the room has a password
   * and the one given differs; otherwise the caller becomes a participant, once.
   */
  method JoinRoom(db: Store, caller: int, roomId: Option<int>, password: Option<string>)
    returns (reply: Reply<()>)
    requires db.Valid()
    modifies db`roomParticipants
    ensures db.Valid()
    ensures reply.Fail? ==> db.roomParticipants == old(db.roomParticipants)
    ensures roomId.None? ==> reply == Fail(404)
    ensures roomId.Some? ==>
      match ActiveRoomById(db.liveRooms, roomId.value)
      case None => reply == Fail(404)
      case Some(room) =>
        if !Admits(room, password) then reply == Fail(403)
        else (reply == Ok(())
          && db.roomParticipants == InsertIfAbsent(old(db.roomParticipants), Participant(roomId.value, caller)))
  {
    if roomId.None? {
      return Fail(404);
    }
    var found := ActiveRoomById(db.liveRooms, roomId.value);
    if found.None? {
      return Fail(404);
    }
    if Truthy(found.value.password) && found.value.password != password {
      return Fail(403);
    }
    AddParticipant(db, Participant(roomId.value, caller));
    reply := Ok(());
  }

  /** A room is opened by its own password, and one without a password by anything. */
  lemma AdmitsExactly(room: Room, password: Option<string>)
    ensures Truthy(room.password) ==> (Admits(room, password) <==> password == room.password)
    ensures !Truthy(room.password) ==> Admits(room, password)
  {
  }

  /**
   * `POST /leave`: removes the caller from that room and succeeds whether or not they were
   * in it; without a room id nothing is removed.
   */
  method LeaveRoom(db: Store, caller: int, roomId: Option<int>) returns (reply: Reply<()>)
    requires db.Valid()
    modifies db`roomParticipants
    ensures db.Valid()
    ensures reply == Ok(())
    ensures roomId.None? ==> db.roomParticipants == old(db.roomParticipants)
    ensures roomId.Some? ==>
      db.roomParticipants == Without(old(db.roomParticipants), Participant(roomId.value, caller))
    ensures forall p :: p in db.roomParticipants <==>
      p in old(db.roomParticipants) && !(roomId.Some? && p == Participant(roomId.value, caller))
  {
    if roomId.Some? {
      WithoutKeepsNoDup(db.roomParticipants, Participant(roomId.value, caller));
      db.roomParticipants := Without(db.roomParticipants, Participant(roomId.value, caller));
    }
    reply := Ok(());
  }

  /** Leaving undoes joining: after join then leave the caller is no longer listed. */
  lemma LeaveAfterJoin(ps: seq<Participant>, p: Participant)
    ensures p !in Without(InsertIfAbsent(ps, p), p)
    ensures forall q :: q != p ==> (q in Without(InsertIfAbsent(ps, p), p) <==> q in ps)
  {
  }

  // ---------------------------------------------------------------- the active list

  /** `COUNT(p.user_id)` over the participants of one room (0 when it has none). */
  function ParticipantCount(ps: seq<Participant>, roomId: int): (n: nat)
    ensures n <= |ps|
    ensures n == 0 <==> forall p :: p in ps ==> p.roomId != roomId
  {
    if ps == [] then 0
    else (if ps[0].roomId == roomId then 1 else 0) + ParticipantCount(ps[1..], roomId)
  }

  /** A join of a new participant raises that room's count by one and no other room's. */
  lemma {:induction false} CountAfterAppend(ps: seq<Participant>, p: Participant, roomId: int)
    ensures ParticipantCount(ps + [p], roomId)
      == ParticipantCount(ps, roomId) + (if p.roomId == roomId then 1 else 0)
  {
    if ps != [] {
      assert (ps + [p])[1..] == ps[1..] + [p];
      CountAfterAppend(ps[1..], p, roomId);
    }
  }

  /** `LEFT JOIN users u ON r.host_id = u.id`: the host's username, or NULL. */
  function HostName(users: seq<User>, hostId: int): (n: Option<string>)
    ensures n.Some? <==> exists u :: u in users && u.id == hostId
    ensures n.Some? ==> exists u :: u in users && u.id == hostId && u.username == n.value
  {
    match UserById(users, hostId)
    case None => None
    case Some(u) => Some(u.username)
  }

  function EntryOf(users: seq<User>, ps: seq<Participant>, r: Room): ActiveRoom
  {
    ActiveRoom(r.roomId, r.name, r.createdAt, r.isActive, HostName(users, r.hostId),
               ParticipantCount(ps, r.roomId))
  }

  /**
   * `WHERE r.is_active = TRUE`: every active room exactly as often as it is stored, and no
   * inactive room.
   */
  function ActiveOnly(rooms: seq<Room>): (act: seq<Room>)
    ensures forall r :: multiset(act)[r] == if r.isActive then multiset(rooms)[r] else 0
    ensures |act| <= |rooms|
  {
    if rooms == [] then []
    else
      assert rooms == [rooms[0]] + rooms[1..];
      if rooms[0].isActive then [rooms[0]] + ActiveOnly(rooms[1..]) else ActiveOnly(rooms[1..])
  }

  /**
   * The grouped rows before ordering: one entry per active room, in table order, with its
   * host's name and participant count. Rooms are keyed by `room_id`, so `GROUP BY` makes
   * one group per room.
   */
  function ActiveEntries(users: seq<User>, rooms: seq<Room>, ps: seq<Participant>): (es: seq<ActiveRoom>)
    ensures |es| == |ActiveOnly(rooms)|
    ensures forall i :: 0 <= i < |es| ==> es[i] == EntryOf(users, ps, ActiveOnly(rooms)[i])
    ensures forall e :: e in es <==> exists r :: r in rooms && r.isActive && e == EntryOf(users, ps, r)
  {
    var act := ActiveOnly(rooms);
    var es := seq(|act|, i requires 0 <= i < |act| => EntryOf(users, ps, act[i]));
    forall r ensures r in act <==> r in rooms && r.isActive {
      assert r in act <==> multiset(act)[r] > 0;
      assert r in rooms <==> multiset(rooms)[r] > 0;
    }
    EntriesOfMembers(users, ps, rooms, act, es);
    es
  }

  /** Entries made pointwise from exactly the active rooms are exactly those rooms' entries. */
  lemma EntriesOfMembers(users: seq<User>, ps: seq<Participant>, rooms: seq<Room>, act: seq<Room>,
                         es: seq<ActiveRoom>)
    requires forall r :: r in act <==> r in rooms && r.isActive
    requires |es| == |act| && forall i :: 0 <= i < |es| ==> es[i] == EntryOf(users, ps, act[i])
    ensures forall e :: e in es <==> exists r :: r in rooms && r.isActive && e == EntryOf(users, ps, r)
  {
    forall e ensures e in es <==> exists r :: r in rooms && r.isActive && e == EntryOf(users, ps, r) {
      if exists r :: r in rooms && r.isActive && e == EntryOf(users, ps, r) {
        var r :| r in rooms && r.isActive && e == EntryOf(users, ps, r);
        var i :| 0 <= i < |act| && act[i] == r;
        assert es[i] == e;
      }
    }
  }

  /** Entries made pointwise from `h + tail`, with at most one room in `h`. */
  lemma EntriesCons(users: seq<User>, ps: seq<Participant>, h: seq<Room>, tail: seq<Room>,
                    es: seq<ActiveRoom>, rest: seq<ActiveRoom>)
    requires |h| <= 1
    requires |es| == |h + tail| && forall i :: 0 <= i < |es| ==> es[i] == EntryOf(users, ps, (h + tail)[i])
    requires |rest| == |tail| && forall i :: 0 <= i < |rest| ==> rest[i] == EntryOf(users, ps, tail[i])
    ensures es == (if h == [] then [] else [EntryOf(users, ps, h[0])]) + rest
  {
    var front := if h == [] then [] else [EntryOf(users, ps, h[0])];
    forall i | 0 <= i < |es| ensures es[i] == (front + rest)[i] {
      if i >= |h| {
        assert (h + tail)[i] == tail[i - |h|];
      }
    }
  }

  /** The first stored room contributes its entry in front, when it is active. */
  lemma ActiveEntriesCons(users: seq<User>, rooms: seq<Room>, ps: seq<Participant>)
    requires rooms != []
    ensures ActiveEntries(users, rooms, ps)
            == (if rooms[0].isActive then [EntryOf(users, ps, rooms[0])] else [])
               + ActiveEntries(users, rooms[1..], ps)
  {
    var n := if rooms[0].isActive then 1 else 0;
    assert ActiveOnly(rooms) == rooms[..n] + ActiveOnly(rooms[1..]);
    EntriesCons(users, ps, rooms[..n], ActiveOnly(rooms[1..]), ActiveEntries(users, rooms, ps),
                ActiveEntries(users, rooms[1..], ps));
  }

  /** `ORDER BY r.created_at DESC` as an ascending key. */
  function NewestFirst(e: ActiveRoom): int
  {
    -e.createdAt
  }

  /** Sorted by `NewestFirst` means `created_at` descending. */
  lemma NewestFirstDescending(list: seq<ActiveRoom>)
    requires SortedBy(list, NewestFirst)
    ensures forall i, j :: 0 <= i < j < |list| ==> list[i].createdAt >= list[j].createdAt
  {
    forall i, j | 0 <= i < j < |list| ensures list[i].createdAt >= list[j].createdAt {
      assert NewestFirst(list[i]) <= NewestFirst(list[j]);
    }
  }

  /**
   * `GET /active`: every active room and no other, once each, newest first, with its
   * host's name and participant count.
   */
  function ActiveRooms(users: seq<User>, rooms: seq<Room>, ps: seq<Participant>): (list: seq<ActiveRoom>)
    ensures forall i, j :: 0 <= i < j < |list| ==> list[i].createdAt >= list[j].createdAt
    ensures multiset(list) == multiset(ActiveEntries(users, rooms, ps))
    ensures forall e :: e in list <==> exists r :: r in rooms && r.isActive && e == EntryOf(users, ps, r)
  {
    var es := ActiveEntries(users, rooms, ps);
    var list := SortBy(es, NewestFirst);
    SameMembers(list, es);
    NewestFirstDescending(list);
    list
  }

  /** With rooms keyed by `room_id`, `GROUP BY r.room_id` lists every active room exactly once. */
  lemma ActiveRoomListedOnce(users: seq<User>, rooms: seq<Room>, ps: seq<Participant>, next: int, r: Room)
    requires RoomsKeyed(rooms, next)
    requires r in rooms && r.isActive
    ensures multiset(ActiveRooms(users, rooms, ps))[EntryOf(users, ps, r)] == 1
    ensures multiset(ActiveEntries(users, rooms, ps))[EntryOf(users, ps, r)] == 1
  {
    EntryListedOnce(users, rooms, ps, next, r);
  }

  /** The grouped rows hold an active room's entry once when rooms are keyed. */
  lemma {:induction false} EntryListedOnce(users: seq<User>, rooms: seq<Room>, ps: seq<Participant>,
                                           next: int, r: Room)
    requires RoomsKeyed(rooms, next)
    requires r in rooms && r.isActive
    ensures multiset(ActiveEntries(users, rooms, ps))[EntryOf(users, ps, r)] == 1
  {
    var e := EntryOf(users, ps, r);
    var rest := ActiveEntries(users, rooms[1..], ps);
    RoomsKeyedTail(rooms, next);
    ActiveEntriesCons(users, rooms, ps);
    if rooms[0] == r {
      EntryAbsent(users, rooms[1..], ps, r);
    } else {
      assert r in rooms[1..];
      EntryListedOnce(users, rooms[1..], ps, next, r);
      assert EntryOf(users, ps, rooms[0]).roomId != e.roomId;
    }
  }

  /** A room whose id no stored room has is not among the grouped rows. */
  lemma EntryAbsent(users: seq<User>, rooms: seq<Room>, ps: seq<Participant>, r: Room)
    requires forall x :: x in rooms ==> x.roomId != r.roomId
    ensures EntryOf(users, ps, r) !in ActiveEntries(users, rooms, ps)
  {
  }

  /** The rooms after the first are keyed too, and none shares the first one's id. */
  lemma RoomsKeyedTail(rooms: seq<Room>, next: int)
    requires RoomsKeyed(rooms, next) && rooms != []
    ensures RoomsKeyed(rooms[1..], next)
    ensures forall x :: x in rooms[1..] ==> x.roomId != rooms[0].roomId
  {
    forall i, j | 0 <= i < j < |rooms[1..]| ensures rooms[1..][i].roomId != rooms[1..][j].roomId {
      assert rooms[1..][i] == rooms[i + 1] && rooms[1..][j] == rooms[j + 1];
    }
    forall x | x in rooms[1..] ensures x.roomId != rooms[0].roomId {
      var k :| 0 <= k < |rooms[1..]| && rooms[1..][k] == x;
      assert rooms[k + 1] == x;
    }
  }

  /** Every listed room is active and shows its table values; a closed room is never listed. */
  lemma ActiveRoomsShowOnlyOpenRooms(users: seq<User>, rooms: seq<Room>, ps: seq<Participant>, r: Room)
    requires r in rooms && !r.isActive
    ensures forall e :: e in ActiveRooms(users, rooms, ps) ==> e.isActive
    ensures EntryOf(users, ps, r) !in ActiveRooms(users, rooms, ps)
  {
  }
}
