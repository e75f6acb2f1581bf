/** The server's room coordinator: one process-wide table of live rooms and
    one table of active user ids, changed by the socket event handlers.
    Each handler is one atomic step; its acknowledgement is the `reply`
    out-parameter and the events it broadcasts are the `out` sequence,
    in the order they are emitted. */
module Coordinator {
  import opened Common
  import opened OrderedMap
  import Strings

  /** `room.users`: socket id to user, in insertion order. */
  type Members = seq<Entry<SocketId, User>>

  /** `documentContent`: `None` is the empty string of a room nobody has
      edited yet, `Some(ops)` the `ops` of the stored delta. */
  type Document = Option<seq<EditOp>>

  datatype Room = Room(
    id: RoomId,
    name: string,
    password: Option<string>,
    users: Members,
    document: Document,
    messages: seq<Message>)

  type Rooms = seq<Entry<RoomId, Room>>

  /** The reasons a request is refused, each a `{success: false}` reply. */
  datatype Failure =
    | UserIdInUse
    | RoomAlreadyExists
    | RoomNotFound
    | IncorrectPassword
    | RecipientNotAvailable
    | UserNotInRoom

  datatype Reply<T> = Success(value: T) | Fail(failure: Failure)

  /** The events the server pushes to sockets. */
  datatype Event =
    | UserJoinedRoom(text: string, users: seq<User>)
    | UserLeftRoom(text: string, users: seq<User>)
    | ReceiveRoomMessage(message: Message)
    | ReceivePrivateRoomMessage(message: Message)
    | ReceiveDocumentContent(delta: Delta)
    | ReceiveCursorPosition(userId: UserId, username: string, position: Option<Range>)
    | ReceiveUserTyping(id: UserId, username: string, isTyping: bool)

  /** One emit: an event and the sockets it is delivered to. */
  datatype Emit = Emit(to: set<SocketId>, event: Event)

  /** `socket.to(roomId)`: every socket of the room except the caller's. */
  function Others(users: Members, sid: SocketId): (to: set<SocketId>)
    ensures sid !in to && to <= Keys(users)
    ensures forall i :: 0 <= i < |users| && users[i].key != sid ==> users[i].key in to
  {
    Keys(users) - {sid}
  }

  /** `Array.from(room.users.values()).some(user => user.id === userId)`. */
  predicate HasMember(users: Members, userId: UserId)
    ensures HasMember(users, userId) <==> exists u :: u in Values(users) && u.id == userId
  {
    assert forall u :: u in Values(users) ==> exists i :: 0 <= i < |users| && users[i].value == u;
    exists i :: 0 <= i < |users| && users[i].value.id == userId
  }

  /** `Array.from(room.users.entries()).find(([_, user]) => user.id === userId)?.[0]`:
      the socket of the first member, in insertion order, with that user id. */
  function SocketOfUser(users: Members, userId: UserId): (r: Option<SocketId>)
    ensures r.Some? <==> HasMember(users, userId)
    ensures r.Some? ==> exists i :: 0 <= i < |users| && users[i].key == r.value && users[i].value.id == userId &&
                                   forall j :: 0 <= j < i ==> users[j].value.id != userId
  {
    if users == [] then None
    else if users[0].value.id == userId then Some(users[0].key)
    else
      var r := SocketOfUser(users[1..], userId);
      assert forall i :: 1 <= i < |users| ==> users[i] == users[1..][i - 1];
      if r.Some? then
        var i :| 0 <= i < |users| - 1 && users[1..][i].key == r.value && users[1..][i].value.id == userId &&
                 forall j :: 0 <= j < i ==> users[1..][j].value.id != userId;
        assert forall j :: 0 <= j < i + 1 ==> users[j].value.id != userId;
        r
      else
        r
  }

  /** `room.password && room.password !== data.password`: an absent or empty
      room password lets everyone in. */
  predicate PasswordRejects(roomPassword: Option<string>, supplied: Option<string>)
    ensures roomPassword.None? || roomPassword == Some("") ==> !PasswordRejects(roomPassword, supplied)
    ensures supplied == roomPassword ==> !PasswordRejects(roomPassword, supplied)
    ensures roomPassword.Some? && roomPassword.value != "" && supplied != roomPassword ==> PasswordRejects(roomPassword, supplied)
  {
    roomPassword.Some? && roomPassword.value != "" && supplied != roomPassword
  }

  function JoinedText(username: string): string { username + " joined the room" }

  function LeftText(username: string): string { username + " left the room" }

  /** The copy of a private message the server stores and delivers. */
  function PrivateCopy(m: Message): (p: Message)
    requires m.recipient.Some?
    ensures p.id == m.id && p.sender == m.sender && p.recipient == m.recipient && p.isPrivate
    ensures p.content == Strings.CleanMention(m.content, m.recipient.value.username)
  {
    Message(m.id, m.sender, Strings.CleanMention(m.content, m.recipient.value.username), m.recipient, true)
  }

  // ---------------------------------------------------------------------
  // The document log

  /** The ops held by a document; the empty document holds none. */
  function Ops(doc: Document): seq<EditOp> {
    if doc.None? then [] else doc.value
  }

  /** The merge of `update-document-content`: the first delta becomes the
      document, later ones have their ops appended. */
  function Merge(doc: Document, delta: Delta): (r: Document)
    ensures r.Some?
    ensures Ops(r) == Ops(doc) + delta.ops
  {
    if doc.None? then Some(delta.ops) else Some(doc.value + delta.ops)
  }

  /** The ops of a sequence of deltas, in order. */
  function Concat(deltas: seq<Delta>): seq<EditOp> {
    if deltas == [] then [] else Concat(deltas[..|deltas| - 1]) + deltas[|deltas| - 1].ops
  }

  /** The document after merging `deltas` one by one, in arrival order. */
  function Replay(doc: Document, deltas: seq<Delta>): Document {
    if deltas == [] then doc else Merge(Replay(doc, deltas[..|deltas| - 1]), deltas[|deltas| - 1])
  }

  /** After any sequence of accepted edits the document is the concatenation
      of the deltas' ops, whoever sent them; no delta is transformed. */
  lemma {:induction false} ReplayIsConcatenation(doc: Document, deltas: seq<Delta>)
    ensures Ops(Replay(doc, deltas)) == Ops(doc) + Concat(deltas)
    ensures deltas != [] ==> Replay(doc, deltas).Some?
  {
    if deltas != [] {
      ReplayIsConcatenation(doc, deltas[..|deltas| - 1]);
    }
  }

  /** The merge is associative over batches: replaying two batches one after
      the other is replaying their concatenation. */
  lemma {:induction false} ReplayAppend(doc: Document, xs: seq<Delta>, ys: seq<Delta>)
    ensures Replay(Replay(doc, xs), ys) == Replay(doc, xs + ys)
    decreases |ys|
  {
    if ys != [] {
      ReplayAppend(doc, xs, ys[..|ys| - 1]);
      assert (xs + ys)[..|xs + ys| - 1] == xs + ys[..|ys| - 1];
    } else {
      assert xs + ys == xs;
    }
  }

  // ---------------------------------------------------------------------
  // The room table invariant

  /** A live room is stored under its own id, its sockets are distinct and
      it has at least one member. */
  ghost predicate WellFormed(e: Entry<RoomId, Room>) {
    e.value.id == e.key && Distinct(e.value.users) && e.value.users != []
  }

  ghost predicate ValidRooms(rs: Rooms) {
    Distinct(rs) && forall i :: 0 <= i < |rs| ==> WellFormed(rs[i])
  }

  lemma PutValid(rs: Rooms, room: Room)
    requires ValidRooms(rs) && WellFormed(Entry(room.id, room))
    ensures ValidRooms(Put(rs, room.id, room))
  {
    PutDistinct(rs, room.id, room);
    if room.id in Keys(rs) {
      var i :| 0 <= i < |rs| && rs[i].key == room.id;
      PutInPlace(rs, i, room);
    }
  }

  lemma RemoveValid(rs: Rooms, id: RoomId)
    requires ValidRooms(rs)
    ensures ValidRooms(Remove(rs, id))
  {
    RemoveDistinct(rs, id);
    RemoveSubset(rs, id);
  }

  // ---------------------------------------------------------------------
  // Leaving a room

  /** What is left of `room` once socket `sid` leaves it: `None` when the
      room has become empty and is deleted. */
  function Vacate(room: Room, sid: SocketId): (r: Option<Room>)
    ensures r.None? ==> Keys(room.users) <= {sid}
    ensures r.Some? ==> r.value == room.(users := Remove(room.users, sid)) && r.value.users != []
    ensures r.Some? ==> sid !in Keys(r.value.users) && Keys(r.value.users) == Keys(room.users) - {sid}
  {
    var users := Remove(room.users, sid);
    if users == [] then
      assert Keys(users) == {};
      None
    else Some(room.(users := users))
  }

  /** A room is deleted on leave exactly when the leaving socket was its
      only member. */
  lemma VacateDeletes(room: Room, sid: SocketId)
    requires room.users != []
    ensures Vacate(room, sid).None? <==> Keys(room.users) == {sid}
  {
    var users := Remove(room.users, sid);
    assert room.users[0].key in Keys(room.users);
    assert Keys(users) == Keys(room.users) - {sid};
    if users != [] {
      assert users[0].key in Keys(users);
      assert users[0].key in Keys(room.users) && users[0].key != sid;
    } else {
      assert Keys(users) == {};
      assert Keys(room.users) <= {sid};
    }
  }

  lemma VacateWellFormed(e: Entry<RoomId, Room>, sid: SocketId)
    requires WellFormed(e) && Vacate(e.value, sid).Some?
    ensures WellFormed(Entry(e.key, Vacate(e.value, sid).value))
  {
    RemoveDistinct(e.value.users, sid);
  }

  /** What a disconnect of `sid` leaves of one room-table entry: the entry
      itself when the socket is not a member, otherwise the vacated room, or
      nothing when vacating empties it. */
  function VacateEntry(e: Entry<RoomId, Room>, sid: SocketId): Rooms
  {
    if sid !in Keys(e.value.users) then [e]
    else match Vacate(e.value, sid)
      case None => []
      case Some(r) => [Entry(e.key, r)]
  }

  /** The rooms a disconnect leaves: each room holding the socket loses it,
      and is dropped when that empties it; the others stay as they were. */
  function AfterDisconnect(rs: Rooms, sid: SocketId): Rooms
  {
    if rs == [] then [] else AfterDisconnect(rs[..|rs| - 1], sid) + VacateEntry(rs[|rs| - 1], sid)
  }

  /** The user id a disconnect releases in one room: that of the socket's
      user, if the socket is a member. */
  function Released(e: Entry<RoomId, Room>, sid: SocketId): set<UserId>
  {
    match Get(e.value.users, sid)
    case None => {}
    case Some(u) => {u.id}
  }

  /** The user ids a disconnect releases, over all rooms. */
  function ReleasedIds(rs: Rooms, sid: SocketId): set<UserId>
  {
    if rs == [] then {} else ReleasedIds(rs[..|rs| - 1], sid) + Released(rs[|rs| - 1], sid)
  }

  /** The `user-left-room` notice of leaving `users` under `username`. */
  function LeftNotice(users: Members, sid: SocketId, username: string): Emit
  {
    var rest := Remove(users, sid);
    Emit(Others(rest, sid), UserLeftRoom(LeftText(username), Values(rest)))
  }

  /** The notice a disconnect emits for one room: one if the socket is a
      member, none otherwise. */
  function Notice(e: Entry<RoomId, Room>, sid: SocketId): seq<Emit>
  {
    match Get(e.value.users, sid)
    case None => []
    case Some(u) => [LeftNotice(e.value.users, sid, u.username)]
  }

  /** A disconnect releases exactly the user ids the socket holds in some room. */
  lemma {:induction false} ReleasedIdsAt(rs: Rooms, sid: SocketId, u: UserId)
    ensures u in ReleasedIds(rs, sid) <==>
      exists i :: 0 <= i < |rs| && Get(rs[i].value.users, sid).Some? && Get(rs[i].value.users, sid).value.id == u
  {
    if rs != [] {
      var init := rs[..|rs| - 1];
      ReleasedIdsAt(init, sid, u);
      assert forall i :: 0 <= i < |init| ==> init[i] == rs[i];
      if u in ReleasedIds(rs, sid) && u !in ReleasedIds(init, sid) {
        assert u in Released(rs[|rs| - 1], sid);
      }
    }
  }

  /** The notices a disconnect emits, in the order of the room table. */
  function LeftNotices(rs: Rooms, sid: SocketId): seq<Emit>
  {
    if rs == [] then [] else LeftNotices(rs[..|rs| - 1], sid) + Notice(rs[|rs| - 1], sid)
  }

  /** The entry a disconnect leaves of a room keeps the room's id and no
      longer holds the socket. */
  lemma VacateEntryShape(e: Entry<RoomId, Room>, sid: SocketId)
    ensures |VacateEntry(e, sid)| <= 1
    ensures VacateEntry(e, sid) != [] ==>
      VacateEntry(e, sid)[0].key == e.key && sid !in Keys(VacateEntry(e, sid)[0].value.users)
  {
  }

  /** Appending what a disconnect leaves of `e`, in terms of keys and `get`. */
  lemma AppendVacated(ad: Rooms, e: Entry<RoomId, Room>, sid: SocketId, id: RoomId)
    ensures Keys(ad + VacateEntry(e, sid)) <= Keys(ad) + {e.key}
    ensures id != e.key ==> Get(ad + VacateEntry(e, sid), id) == Get(ad, id)
    ensures e.key !in Keys(ad) ==>
      Get(ad + VacateEntry(e, sid), e.key) == (if sid in Keys(e.value.users) then Vacate(e.value, sid) else Some(e.value))
  {
    var tail := VacateEntry(e, sid);
    if tail == [] {
      assert ad + tail == ad;
    } else {
      assert tail == [tail[0]];
      GetAppend(ad, tail[0], id);
      GetAppend(ad, tail[0], e.key);
    }
  }

  lemma {:induction false} AfterDisconnectKeys(rs: Rooms, sid: SocketId)
    ensures Keys(AfterDisconnect(rs, sid)) <= Keys(rs)
  {
    if rs != [] {
      var e := rs[|rs| - 1];
      var init := rs[..|rs| - 1];
      assert rs == init + [e];
      AfterDisconnectKeys(init, sid);
      GetAppend(init, e, e.key);
      AppendVacated(AfterDisconnect(init, sid), e, sid, e.key);
    }
  }

  /** Disconnect, room by room: the room stored under any id afterwards is
      what `Vacate` leaves of the room stored there before, if the socket
      was a member, and the same room otherwise. */
  lemma {:induction false} AfterDisconnectAt(rs: Rooms, sid: SocketId, id: RoomId)
    requires Distinct(rs)
    ensures Get(AfterDisconnect(rs, sid), id) ==
      match Get(rs, id)
      case None => None
      case Some(room) => if sid in Keys(room.users) then Vacate(room, sid) else Some(room)
  {
    if rs != [] {
      var e := rs[|rs| - 1];
      var init := rs[..|rs| - 1];
      assert rs == init + [e];
      DistinctAppend(init, e);
      AfterDisconnectAt(init, sid, id);
      AfterDisconnectKeys(init, sid);
      GetAppend(init, e, id);
      AppendVacated(AfterDisconnect(init, sid), e, sid, id);
    }
  }

  /** Disconnect keeps the room table valid: in particular no empty room
      survives it. */
  lemma {:induction false} AfterDisconnectValid(rs: Rooms, sid: SocketId)
    requires ValidRooms(rs)
    ensures ValidRooms(AfterDisconnect(rs, sid))
  {
    if rs != [] {
      var e := rs[|rs| - 1];
      var init := rs[..|rs| - 1];
      assert rs == init + [e];
      DistinctAppend(init, e);
      assert WellFormed(e);
      AfterDisconnectValid(init, sid);
      AfterDisconnectKeys(init, sid);
      var ad := AfterDisconnect(init, sid);
      var tail := VacateEntry(e, sid);
      if tail == [] {
        assert ad + tail == ad;
      } else {
        assert tail == [tail[0]];
        if sid in Keys(e.value.users) {
          VacateWellFormed(e, sid);
        }
        DistinctAppend(ad, tail[0]);
      }
    }
  }

  /** No room keeps the socket after a disconnect. */
  lemma {:induction false} AfterDisconnectForgets(rs: Rooms, sid: SocketId)
    ensures forall i :: 0 <= i < |AfterDisconnect(rs, sid)| ==> sid !in Keys(AfterDisconnect(rs, sid)[i].value.users)
  {
    if rs != [] {
      var e := rs[|rs| - 1];
      AfterDisconnectForgets(rs[..|rs| - 1], sid);
      VacateEntryShape(e, sid);
    }
  }

  /** Vacating one room of a table in place, for the loop of `Disconnect`:
      `room.users.delete(sid)` updates the room where it stands ... */
  lemma VacateInPlace(done: Rooms, e: Entry<RoomId, Room>, rest: Rooms, sid: SocketId)
    requires e.key !in Keys(done)
    ensures
      var room := e.value.(users := Remove(e.value.users, sid));
      Put(done + [e] + rest, e.key, room) == done + [Entry(e.key, room)] + rest
  {
    var room := e.value.(users := Remove(e.value.users, sid));
    PutAt(done, e, rest, room);
  }

  /** ... and `rooms.delete(id)` then drops just that entry. */
  lemma DropInPlace(done: Rooms, e: Entry<RoomId, Room>, rest: Rooms)
    requires e.key !in Keys(done) && e.key !in Keys(rest)
    ensures Remove(done + [e] + rest, e.key) == done + rest
  {
    RemoveAt(done, e, rest);
  }

  /** One more room of the table, for the loop of `Disconnect`. */
  lemma DisconnectPrefix(snapshot: Rooms, i: nat, sid: SocketId)
    requires Distinct(snapshot) && i < |snapshot|
    ensures AfterDisconnect(snapshot[..i], sid) + snapshot[i..] ==
      AfterDisconnect(snapshot[..i], sid) + [snapshot[i]] + snapshot[i + 1..]
    ensures snapshot[i].key !in Keys(AfterDisconnect(snapshot[..i], sid))
    ensures snapshot[i].key !in Keys(snapshot[i + 1..])
  {
    AfterDisconnectKeys(snapshot[..i], sid);
    forall j | 0 <= j < i ensures snapshot[..i][j].key != snapshot[i].key {
      assert snapshot[..i][j] == snapshot[j];
    }
    var rest := snapshot[i + 1..];
    forall j | 0 <= j < |rest| ensures rest[j].key != snapshot[i].key {
      assert rest[j] == snapshot[i + 1 + j];
    }
    assert snapshot[i..] == [snapshot[i]] + rest;
  }

  /** The state of the loop of `Disconnect` before its first turn. */
  lemma DisconnectStart(snapshot: Rooms, sid: SocketId, users: map<UserId, SocketId>)
    ensures snapshot == AfterDisconnect(snapshot[..0], sid) + snapshot[0..]
    ensures users == users - ReleasedIds(snapshot[..0], sid)
    ensures [] == LeftNotices(snapshot[..0], sid)
  {
    assert snapshot[..0] == [];
  }

  /** One turn of the loop of `Disconnect` extends the spent prefix by one. */
  lemma DisconnectAdvance(snapshot: Rooms, i: nat, sid: SocketId, users0: map<UserId, SocketId>,
                          rooms: Rooms, users: map<UserId, SocketId>, out: seq<Emit>, notice: seq<Emit>)
    requires i < |snapshot|
    requires rooms == AfterDisconnect(snapshot[..i], sid) + VacateEntry(snapshot[i], sid) + snapshot[i + 1..]
    requires users == users0 - ReleasedIds(snapshot[..i], sid) - Released(snapshot[i], sid)
    requires out == LeftNotices(snapshot[..i], sid) && notice == Notice(snapshot[i], sid)
    ensures rooms == AfterDisconnect(snapshot[..i + 1], sid) + snapshot[i + 1..]
    ensures users == users0 - ReleasedIds(snapshot[..i + 1], sid)
    ensures out + notice == LeftNotices(snapshot[..i + 1], sid)
  {
    var p := snapshot[..i + 1];
    assert p[..i] == snapshot[..i] && p[i] == snapshot[i];
    SubtractTwice(users0, ReleasedIds(snapshot[..i], sid), Released(snapshot[i], sid));
  }

  /** The state of the loop of `Disconnect` after its last turn. */
  lemma DisconnectEnd(snapshot: Rooms, sid: SocketId, rooms: Rooms)
    requires ValidRooms(snapshot)
    requires rooms == AfterDisconnect(snapshot[..|snapshot|], sid) + snapshot[|snapshot|..]
    ensures snapshot[..|snapshot|] == snapshot
    ensures rooms == AfterDisconnect(snapshot, sid) && ValidRooms(rooms)
  {
    assert snapshot[..|snapshot|] == snapshot && snapshot[|snapshot|..] == [];
    AfterDisconnectValid(snapshot, sid);
  }

  /** Deleting two batches of keys from a map deletes their union. */
  lemma SubtractTwice<K, V>(m: map<K, V>, a: set<K>, b: set<K>)
    ensures m - a - b == m - (a + b)
  {
  }

  // ---------------------------------------------------------------------
  // The coordinator

  /** The checks shared by the membership-gated requests. */
  function Admission(rs: Rooms, roomId: RoomId, userId: UserId): (r: Reply<Room>)
    ensures r.Success? <==> roomId in Keys(rs) && HasMember(Get(rs, roomId).value.users, userId)
    ensures r.Success? ==> r.value == Get(rs, roomId).value
    ensures r.Fail? ==> r.failure == if roomId in Keys(rs) then UserNotInRoom else RoomNotFound
  {
    match Get(rs, roomId)
    case None => Fail(RoomNotFound)
    case Some(room) => if HasMember(room.users, userId) then Success(room) else Fail(UserNotInRoom)
  }

  class Server {
    /** `rooms`: room id to room, in creation order. */
    var rooms: Rooms
    /** `activeUsers`: user id to the socket that joined with it. */
    var activeUsers: map<UserId, SocketId>

    ghost predicate Valid()
      reads this
    {
      ValidRooms(rooms)
    }

    constructor ()
      ensures Valid() && rooms == [] && activeUsers == map[]
    {
      rooms := [];
      activeUsers := map[];
    }

    /** `validate-user-id`: an id is available iff no joined socket holds it. */
    method ValidateUserId(userId: UserId) returns (reply: Reply<()>)
      ensures reply.Success? <==> userId !in activeUsers
      ensures reply.Fail? ==> reply.failure == UserIdInUse
      ensures reply == if userId in activeUsers then Fail(UserIdInUse) else Success(())
    {
      if userId in activeUsers {
        return Fail(UserIdInUse);
      }
      return Success(());
    }

    /** `create-room`. The creator becomes the only member, but its user id
        is not recorded as active. */
    method CreateRoom(sid: SocketId, roomName: string, roomId: RoomId, userId: UserId, username: string, password: Option<string>)
      returns (reply: Reply<seq<User>>)
      requires Valid()
      modifies this
      ensures Valid()
      ensures activeUsers == old(activeUsers)
      ensures userId in old(activeUsers) ==> reply == Fail(UserIdInUse)
      ensures userId !in old(activeUsers) && roomId in Keys(old(rooms)) ==> reply == Fail(RoomAlreadyExists)
      ensures reply.Fail? ==> rooms == old(rooms)
      ensures userId !in old(activeUsers) && roomId !in Keys(old(rooms)) ==>
        && reply == Success([User(userId, username)])
        && rooms == old(rooms) + [Entry(roomId, Room(roomId, roomName, password, [Entry(sid, User(userId, username))], None, []))]
    {
      if userId in activeUsers {
        return Fail(UserIdInUse);
      }
      if Get(rooms, roomId).Some? {
        return Fail(RoomAlreadyExists);
      }
      // the room object is stored first and its creator added to it after
      var room := Room(roomId, roomName, password, [Entry(sid, User(userId, username))], None, []);
      PutValid(rooms, room);
      rooms := Put(rooms, roomId, room);
      assert Values(room.users) == [User(userId, username)];
      reply := Success(Values(room.users));
    }

    /** `join-room`. */
    method JoinRoom(sid: SocketId, roomId: RoomId, userId: UserId, username: string, password: Option<string>)
      returns (reply: Reply<seq<User>>, out: seq<Emit>)
      requires Valid()
      modifies this
      ensures Valid()
      ensures reply == Fail(UserIdInUse) <==> userId in old(activeUsers)
      ensures reply == Fail(RoomNotFound) <==> userId !in old(activeUsers) && roomId !in Keys(old(rooms))
      ensures reply == Fail(IncorrectPassword) <==>
        userId !in old(activeUsers) && roomId in Keys(old(rooms)) &&
        PasswordRejects(Get(old(rooms), roomId).value.password, password)
      ensures reply.Success? <==>
        userId !in old(activeUsers) && roomId in Keys(old(rooms)) &&
        !PasswordRejects(Get(old(rooms), roomId).value.password, password)
      ensures reply.Fail? ==> rooms == old(rooms) && activeUsers == old(activeUsers) && out == []
      ensures reply.Success? ==>
        var room := Get(old(rooms), roomId).value;
        var users := Put(room.users, sid, User(userId, username));
        && rooms == Put(old(rooms), roomId, room.(users := users))
        && activeUsers == old(activeUsers)[userId := sid]
        && reply.value == Values(users)
        && out == [Emit(Others(users, sid), UserJoinedRoom(JoinedText(username), Values(users)))]
    {
      out := [];
      if userId in activeUsers {
        return Fail(UserIdInUse), out;
      }
      var found := Get(rooms, roomId);
      if found.None? {
        return Fail(RoomNotFound), out;
      }
      var room := found.value;
      if PasswordRejects(room.password, password) {
        return Fail(IncorrectPassword), out;
      }
      assert WellFormed(Entry(roomId, room)) by {
        var i :| 0 <= i < |rooms| && rooms[i].key == roomId;
      }
      room := room.(users := Put(room.users, sid, User(userId, username)));
      PutDistinct(found.value.users, sid, User(userId, username));
      PutValid(rooms, room);
      rooms := Put(rooms, roomId, room);
      activeUsers := activeUsers[userId := sid];
      out := [Emit(Others(room.users, sid), UserJoinedRoom(JoinedText(username), Values(room.users)))];
      reply := Success(Values(room.users));
    }

    /** `send-room-message`: stored verbatim and relayed to every other
        socket of the room; the sender's membership is not checked. */
    method SendRoomMessage(sid: SocketId, roomId: RoomId, message: Message) returns (out: seq<Emit>)
      requires Valid()
      modifies this
      ensures Valid() && activeUsers == old(activeUsers)
      ensures roomId !in Keys(old(rooms)) ==> rooms == old(rooms) && out == []
      ensures roomId in Keys(old(rooms)) ==>
        var room := Get(old(rooms), roomId).value;
        && rooms == Put(old(rooms), roomId, room.(messages := room.messages + [message]))
        && out == [Emit(Others(room.users, sid), ReceiveRoomMessage(message))]
    {
      var found := Get(rooms, roomId);
      if found.None? {
        return [];
      }
      var room := found.value;
      out := [Emit(Others(room.users, sid), ReceiveRoomMessage(message))];
      assert WellFormed(Entry(roomId, room)) by {
        var i :| 0 <= i < |rooms| && rooms[i].key == roomId;
      }
      room := room.(messages := room.messages + [message]);
      PutValid(rooms, room);
      rooms := Put(rooms, roomId, room);
    }

    /** `send-private-room-message`: the recipient is looked up by user id;
        the stored and delivered copy has the leading mention removed and
        is marked private, and only the recipient's socket receives it. */
    method SendPrivateRoomMessage(sid: SocketId, roomId: RoomId, message: Message)
      returns (reply: Reply<()>, out: seq<Emit>)
      requires Valid()
      modifies this
      ensures Valid() && activeUsers == old(activeUsers)
      ensures reply == Fail(RoomNotFound) <==> roomId !in Keys(old(rooms))
      ensures reply == Fail(RecipientNotAvailable) <==>
        roomId in Keys(old(rooms)) &&
        (message.recipient.None? || !HasMember(Get(old(rooms), roomId).value.users, message.recipient.value.id))
      ensures reply.Success? <==>
        roomId in Keys(old(rooms)) && message.recipient.Some? &&
        HasMember(Get(old(rooms), roomId).value.users, message.recipient.value.id)
      ensures reply.Fail? ==> rooms == old(rooms) && out == []
      ensures reply.Success? ==>
        var room := Get(old(rooms), roomId).value;
        var copy := PrivateCopy(message);
        && rooms == Put(old(rooms), roomId, room.(messages := room.messages + [copy]))
        && out == [Emit({SocketOfUser(room.users, message.recipient.value.id).value}, ReceivePrivateRoomMessage(copy))]
    {
      out := [];
      var found := Get(rooms, roomId);
      if found.None? {
        return Fail(RoomNotFound), out;
      }
      var room := found.value;
      if message.recipient.None? {
        return Fail(RecipientNotAvailable), out;
      }
      var recipientSocket := SocketOfUser(room.users, message.recipient.value.id);
      if recipientSocket.None? {
        return Fail(RecipientNotAvailable), out;
      }
      var copy := PrivateCopy(message);
      out := [Emit({recipientSocket.value}, ReceivePrivateRoomMessage(copy))];
      assert WellFormed(Entry(roomId, room)) by {
        var i :| 0 <= i < |rooms| && rooms[i].key == roomId;
      }
      room := room.(messages := room.messages + [copy]);
      PutValid(rooms, room);
      rooms := Put(rooms, roomId, room);
      reply := Success(());
    }

    /** `get-room-messages`: the whole log, private messages included, for
        any current member. */
    method GetRoomMessages(roomId: RoomId, userId: UserId) returns (reply: Reply<seq<Message>>)
      ensures reply.Success? <==> roomId in Keys(rooms) && HasMember(Get(rooms, roomId).value.users, userId)
      ensures reply.Success? ==> reply.value == Get(rooms, roomId).value.messages
      ensures reply.Fail? ==> reply.failure == if roomId in Keys(rooms) then UserNotInRoom else RoomNotFound
    {
      var admitted := Admission(rooms, roomId, userId);
      if admitted.Fail? {
        return Fail(admitted.failure);
      }
      return Success(admitted.value.messages);
    }

    /** `update-document-content`: merges the delta into the room's document
        and relays the delta itself, not the merged document. */
    method UpdateDocumentContent(sid: SocketId, roomId: RoomId, userId: UserId, delta: Delta)
      returns (reply: Reply<()>, out: seq<Emit>)
      requires Valid()
      modifies this
      ensures Valid() && activeUsers == old(activeUsers)
      ensures reply.Success? <==> roomId in Keys(old(rooms)) && HasMember(Get(old(rooms), roomId).value.users, userId)
      ensures reply.Fail? ==>
        && reply.failure == (if roomId in Keys(old(rooms)) then UserNotInRoom else RoomNotFound)
        && rooms == old(rooms) && out == []
      ensures reply.Success? ==>
        var room := Get(old(rooms), roomId).value;
        && rooms == Put(old(rooms), roomId, room.(document := Merge(room.document, delta)))
        && out == [Emit(Others(room.users, sid), ReceiveDocumentContent(delta))]
    {
      out := [];
      var admitted := Admission(rooms, roomId, userId);
      if admitted.Fail? {
        return Fail(admitted.failure), out;
      }
      var room := admitted.value;
      assert WellFormed(Entry(roomId, room)) by {
        var i :| 0 <= i < |rooms| && rooms[i].key == roomId;
      }
      room := room.(document := Merge(room.document, delta));
      PutValid(rooms, room);
      rooms := Put(rooms, roomId, room);
      out := [Emit(Others(room.users, sid), ReceiveDocumentContent(delta))];
      reply := Success(());
    }

    /** `request-document-content`: the merged document, for any member. */
    method RequestDocumentContent(roomId: RoomId, userId: UserId) returns (reply: Reply<Document>)
      ensures reply.Success? <==> roomId in Keys(rooms) && HasMember(Get(rooms, roomId).value.users, userId)
      ensures reply.Success? ==> reply.value == Get(rooms, roomId).value.document
      ensures reply.Fail? ==> reply.failure == if roomId in Keys(rooms) then UserNotInRoom else RoomNotFound
    {
      var admitted := Admission(rooms, roomId, userId);
      if admitted.Fail? {
        return Fail(admitted.failure);
      }
      return Success(admitted.value.document);
    }

    /** `get-room-users`: the member list in joining order, for any member. */
    method GetRoomUsers(roomId: RoomId, userId: UserId) returns (reply: Reply<seq<User>>)
      ensures reply.Success? <==> roomId in Keys(rooms) && HasMember(Get(rooms, roomId).value.users, userId)
      ensures reply.Success? ==> reply.value == Values(Get(rooms, roomId).value.users)
      ensures reply.Fail? ==> reply.failure == if roomId in Keys(rooms) then UserNotInRoom else RoomNotFound
    {
      var admitted := Admission(rooms, roomId, userId);
      if admitted.Fail? {
        return Fail(admitted.failure);
      }
      return Success(Values(admitted.value.users));
    }

    /** `send-cursor-position`: relayed unchanged (a `None` position too) to
        the other sockets of an existing room; nothing is stored. */
    method SendCursorPosition(sid: SocketId, roomId: RoomId, userId: UserId, cursor: CursorPosition)
      returns (out: seq<Emit>)
      ensures roomId !in Keys(rooms) ==> out == []
      ensures roomId in Keys(rooms) ==>
        out == [Emit(Others(Get(rooms, roomId).value.users, sid),
                     ReceiveCursorPosition(userId, cursor.user.username, cursor.position))]
    {
      var found := Get(rooms, roomId);
      if found.None? {
        return [];
      }
      out := [Emit(Others(found.value.users, sid), ReceiveCursorPosition(userId, cursor.user.username, cursor.position))];
    }

    /** `user-typing`: relayed to the other sockets of an existing room. */
    method UserTyping(sid: SocketId, roomId: RoomId, userId: UserId, username: string, isTyping: bool)
      returns (out: seq<Emit>)
      ensures roomId !in Keys(rooms) ==> out == []
      ensures roomId in Keys(rooms) ==>
        out == [Emit(Others(Get(rooms, roomId).value.users, sid), ReceiveUserTyping(userId, username, isTyping))]
    {
      var found := Get(rooms, roomId);
      if found.None? {
        return [];
      }
      out := [Emit(Others(found.value.users, sid), ReceiveUserTyping(userId, username, isTyping))];
    }

    /** `leave-room`: removes the caller's socket from the room and the
        client-supplied user id from the active ids, tells the others, and
        deletes the room once it is empty. */
    method LeaveRoom(sid: SocketId, roomId: RoomId, userId: UserId, username: string) returns (out: seq<Emit>)
      requires Valid()
      modifies this
      ensures Valid()
      ensures roomId !in Keys(old(rooms)) ==> rooms == old(rooms) && activeUsers == old(activeUsers) && out == []
      ensures roomId in Keys(old(rooms)) ==>
        var room := Get(old(rooms), roomId).value;
        && activeUsers == old(activeUsers) - {userId}
        && rooms == (match Vacate(room, sid)
                     case None => Remove(old(rooms), roomId)
                     case Some(r) => Put(old(rooms), roomId, r))
        && out == [LeftNotice(room.users, sid, username)]
    {
      var found := Get(rooms, roomId);
      if found.None? {
        return [];
      }
      var room := found.value;
      assert WellFormed(Entry(roomId, room)) by {
        var i :| 0 <= i < |rooms| && rooms[i].key == roomId;
      }
      room := room.(users := Remove(room.users, sid));
      activeUsers := activeUsers - {userId};
      out := [Emit(Others(room.users, sid), UserLeftRoom(LeftText(username), Values(room.users)))];
      if room.users == [] {
        // the emptied room object is dropped with the entry that holds it
        RemoveValid(rooms, roomId);
        rooms := Remove(rooms, roomId);
      } else {
        VacateWellFormed(Entry(roomId, found.value), sid);
        PutValid(rooms, room);
        rooms := Put(rooms, roomId, room);
      }
    }

    /** `room.users.delete(sid)` on the room of entry `e`, which stands
        between `done` and `rest` in the room table: the room stays where it
        is, without the socket. */
    method VacateRoom(ghost done: Rooms, e: Entry<RoomId, Room>, ghost rest: Rooms, sid: SocketId)
      returns (room: Room)
      requires rooms == done + [e] + rest && e.key !in Keys(done)
      modifies this
      ensures room == e.value.(users := Remove(e.value.users, sid))
      ensures rooms == done + [Entry(e.key, room)] + rest
      ensures activeUsers == old(activeUsers)
    {
      room := e.value.(users := Remove(e.value.users, sid));
      VacateInPlace(done, e, rest, sid);
      rooms := Put(rooms, e.key, room);
    }

    /** `rooms.delete(id)` on entry `e`, which stands between `done` and
        `rest` in the room table and nowhere else. */
    method RetireRoom(ghost done: Rooms, e: Entry<RoomId, Room>, ghost rest: Rooms)
      requires rooms == done + [e] + rest && e.key !in Keys(done) && e.key !in Keys(rest)
      modifies this
      ensures rooms == done + rest
      ensures activeUsers == old(activeUsers)
    {
      DropInPlace(done, e, rest);
      rooms := Remove(rooms, e.key);
    }

    /** One turn of the loop of `disconnect`: if socket `sid` is a member of
        room entry `e`, which stands between `done` and `rest` in the room
        table, it is removed from the room, its user id is released, the
        others are told, and the room is deleted if now empty. */
    method DropSocket(ghost done: Rooms, e: Entry<RoomId, Room>, ghost rest: Rooms, sid: SocketId)
      returns (notice: seq<Emit>)
      requires rooms == done + [e] + rest && e.key !in Keys(done) && e.key !in Keys(rest)
      modifies this
      ensures rooms == done + VacateEntry(e, sid) + rest
      ensures activeUsers == old(activeUsers) - Released(e, sid)
      ensures notice == Notice(e, sid)
    {
      var member := Get(e.value.users, sid);
      if member.None? {
        assert VacateEntry(e, sid) == [e];
        assert activeUsers == old(activeUsers) - {};
        return [];
      }
      var user := member.value;
      var room := VacateRoom(done, e, rest, sid);
      activeUsers := activeUsers - {user.id};
      notice := [Emit(Others(room.users, sid), UserLeftRoom(LeftText(user.username), Values(room.users)))];
      if room.users == [] {
        RetireRoom(done, Entry(e.key, room), rest);
        assert VacateEntry(e, sid) == [];
      } else {
        assert VacateEntry(e, sid) == [Entry(e.key, room)];
      }
    }

    /** `disconnect`: the socket leaves every room that holds it, in the
        order of the room table; each such room's remaining sockets get a
        `user-left-room` notice and an emptied room is deleted. */
    method Disconnect(sid: SocketId) returns (out: seq<Emit>)
      requires Valid()
      modifies this
      ensures Valid()
      ensures rooms == AfterDisconnect(old(rooms), sid)
      ensures activeUsers == old(activeUsers) - ReleasedIds(old(rooms), sid)
      ensures out == LeftNotices(old(rooms), sid)
    {
      var snapshot := rooms;
      out := [];
      var i := 0;
      DisconnectStart(snapshot, sid, activeUsers);
      while i < |snapshot|
        invariant 0 <= i <= |snapshot| && Distinct(snapshot)
        invariant rooms == AfterDisconnect(snapshot[..i], sid) + snapshot[i..]
        invariant activeUsers == old(activeUsers) - ReleasedIds(snapshot[..i], sid)
        invariant out == LeftNotices(snapshot[..i], sid)
      {
        ghost var done := AfterDisconnect(snapshot[..i], sid);
        ghost var rest := snapshot[i + 1..];
        var e := snapshot[i];
        DisconnectPrefix(snapshot, i, sid);
        ghost var before := out;
        var notice := DropSocket(done, e, rest, sid);
        out := out + notice;
        DisconnectAdvance(snapshot, i, sid, old(activeUsers), rooms, activeUsers, before, notice);
        i := i + 1;
      }
      DisconnectEnd(snapshot, sid, rooms);
    }
  }
}
