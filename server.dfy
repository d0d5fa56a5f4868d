/** Model of src/server.rs: the user store (`Users`), the connection registry
    (`Servers`) and the decision a connection handler takes for each parsed
    inbound `JsonMessage` (`Server::on_message`).

    Each store appears twice: as a value (`UserTable`, `Registry`) whose
    functions say what every operation does, and as a class (`Users`,
    `Servers`) whose fields the methods update in place, proved against those
    functions. */
module ChatServer {

  datatype Option<+T> = None | Some(value: T)

  /** `msg.len() <= 300`: the limit is on the UTF-8 byte length of a chat message. */
  const MAX_MESSAGE_LEN: nat := 300
  /** RANGE_LATLON: the rectangular pre-filter window, in degrees. */
  const RANGE_LATLON: real := 0.1
  /** RANGE_KM: the great-circle radius, in kilometres. */
  const RANGE_KM: real := 10.0

  datatype Position = Position(lat: real, lon: real)

  /** The collaborators the core calls but does not implement.
      - hash(password, salt): `pbkdf2_simple`, with the salt it draws at random as input;
      - check(password, stored): `pbkdf2_check(..) == Ok(())`;
      - distance(p, q): `User::distance_to`, the source's great-circle estimate in kilometres;
      - salt(id): the random salt drawn when the user with id `id` is added. */
  datatype Env = Env(
    hash: (string, nat) -> string,
    check: (string, string) -> bool,
    distance: (Position, Position) -> real,
    salt: nat -> nat)

  /** What the model assumes of pbkdf2, besides `hash` being total (`pbkdf2_simple`
      never fails): a password checks against its own hash. */
  ghost predicate CheckAcceptsHash(env: Env) {
    forall password, salt :: env.check(password, env.hash(password, salt))
  }

  function Abs(x: real): real {
    if x < 0.0 then -x else x
  }

  /** UTF-8 width of one Unicode scalar value. */
  function Utf8Width(c: char): nat {
    if c as int < 0x80 then 1
    else if c as int < 0x800 then 2
    else if c as int < 0x1_0000 then 3
    else 4
  }

  /** `String::len`: the number of bytes of the UTF-8 encoding. */
  function Utf8Len(s: string): (n: nat)
    ensures |s| <= n <= 4 * |s|
  {
    if s == [] then 0 else Utf8Width(s[0]) + Utf8Len(s[1..])
  }

  // ---------------------------------------------------------------------------
  // Users

  datatype User = User(id: nat, name: string, lat: real, lon: real, password: string)
  {
    /** `User::new`: a fresh record sits at (0.0, 0.0). */
    static function New(id: nat, name: string, password: string): (u: User)
      ensures u.id == id && u.name == name && u.password == password
      ensures u.lat == 0.0 && u.lon == 0.0
    {
      User(id, name, 0.0, 0.0, password)
    }

    function Pos(): Position {
      Position(lat, lon)
    }

    /** `User::within_bounds`, on exact reals. */
    predicate WithinBounds(other: User, diff: real)
      ensures WithinBounds(other, diff) ==> diff > 0.0
      ensures Pos() == other.Pos() ==> (WithinBounds(other, diff) <==> diff > 0.0)
    {
      Abs(lat - other.lat) < diff && Abs(lon - other.lon) < diff
    }
  }

  /** The value held by a `Users` store: the id counter, the user table and the
      name index. */
  datatype UserTable = UserTable(currentId: nat, users: map<nat, User>, usersByName: map<string, nat>)
  {
    /** Every record sits under its own id, below the counter, and every
        indexed name resolves to a record that carries exactly that name. */
    ghost predicate Valid() {
      && (forall id :: id in users ==> id < currentId && users[id].id == id)
      && (forall name :: name in usersByName ==>
            usersByName[name] in users && users[usersByName[name]].name == name)
    }

    /** `Users::contains_username`. */
    predicate ContainsUsername(username: string)
      ensures Valid() && ContainsUsername(username) ==>
        exists id :: id in users && users[id].name == username
    {
      username in usersByName
    }

    /** `Users::get_by_id` (and the lookup of `get_mut_by_id`). */
    function GetById(id: nat): (r: Option<User>)
      ensures r.Some? <==> id in users
      ensures Valid() && r.Some? ==> r.value.id == id
    {
      if id in users then Some(users[id]) else None
    }

    /** `Users::get_by_name`: resolve the name through the index, then the table. */
    function GetByName(username: string): (r: Option<User>)
      ensures username !in usersByName ==> r == None
      ensures r.Some? ==> username in usersByName && usersByName[username] in users
                          && r.value == users[usersByName[username]]
      ensures Valid() ==> (r.Some? <==> ContainsUsername(username))
      ensures Valid() && r.Some? ==> r.value.name == username && r.value.id == usersByName[username]
    {
      if username in usersByName then GetById(usersByName[username]) else None
    }

    /** `Users::in_range`: both records exist, they pass the rectangular
        pre-filter and their distance is below RANGE_KM. */
    function InRange(env: Env, id1: nat, id2: nat): (b: bool)
      ensures b ==> id1 in users && id2 in users
      ensures b ==> (Abs(users[id1].lat - users[id2].lat) < RANGE_LATLON
                  && Abs(users[id1].lon - users[id2].lon) < RANGE_LATLON)
      ensures b ==> env.distance(users[id1].Pos(), users[id2].Pos()) < RANGE_KM
    {
      match GetById(id1)
      case None => false
      case Some(u1) =>
        match GetById(id2)
        case None => false
        case Some(u2) =>
          u1.WithinBounds(u2, RANGE_LATLON) && env.distance(u1.Pos(), u2.Pos()) < RANGE_KM
    }

    /** `Users::add`: take the counter value as the new id, store a fresh record
        with the hashed password under it and index the name to it. Returns the
        new table and the id. */
    function Add(env: Env, username: string, password: string): (r: (UserTable, nat))
      ensures r.1 == currentId && r.0.currentId == currentId + 1
      ensures r.0.users.Keys == users.Keys + {r.1}
      ensures r.0.users[r.1] == User.New(r.1, username, env.hash(password, env.salt(r.1)))
      ensures r.0.usersByName.Keys == usersByName.Keys + {username}
      ensures r.0.usersByName[username] == r.1
      ensures forall n :: n in usersByName && n != username ==> r.0.usersByName[n] == usersByName[n]
      ensures Valid() ==> r.1 !in users && forall id :: id in users ==> r.0.users[id] == users[id]
      ensures Valid() ==> r.0.Valid()
    {
      var id := currentId;
      var user := User.New(id, username, env.hash(password, env.salt(id)));
      (UserTable(currentId + 1, users[id := user], usersByName[username := id]), id)
    }

    /** `get_mut_by_id` followed by the write of `lat` and `lon` through the
        guard: an existing record gets the new position, an absent id changes
        nothing. */
    function SetLocation(id: nat, lat: real, lon: real): (r: UserTable)
      ensures r.currentId == currentId && r.usersByName == usersByName
      ensures r.users.Keys == users.Keys
      ensures id in users ==> r.users[id] == users[id].(lat := lat, lon := lon)
      ensures forall other :: other in users && other != id ==> r.users[other] == users[other]
      ensures id !in users ==> r == this
      ensures Valid() ==> r.Valid()
    {
      match GetById(id)
      case None => this
      case Some(u) => this.(users := users[id := u.(lat := lat, lon := lon)])
    }
  }

  function EmptyUserTable(): (t: UserTable)
    ensures t.Valid() && t.users == map[] && t.usersByName == map[]
  {
    UserTable(0, map[], map[])
  }

  /** Ids handed out by two successive adds are strictly increasing. */
  lemma AddIdsIncrease(env: Env, t: UserTable, n1: string, p1: string, n2: string, p2: string)
    requires t.Valid()
    ensures var (t1, id1) := t.Add(env, n1, p1);
            var (t2, id2) := t1.Add(env, n2, p2);
            && id1 < id2 && id1 !in t.users && id2 !in t1.users
            && t2.users[id1] == t1.users[id1] && t2.users[id1].name == n1
  {
  }

  /** The rectangular pre-filter alone rules out pairs whose latitude or
      longitude differ by RANGE_LATLON or more. */
  lemma FarApartNotInRange(env: Env, t: UserTable, id1: nat, id2: nat)
    requires id1 in t.users && id2 in t.users
    requires Abs(t.users[id1].lat - t.users[id2].lat) >= RANGE_LATLON
          || Abs(t.users[id1].lon - t.users[id2].lon) >= RANGE_LATLON
    ensures !t.InRange(env, id1, id2)
  {
  }

  /** With a symmetric distance, `in_range` does not depend on the direction. */
  lemma InRangeSymmetric(env: Env, t: UserTable, id1: nat, id2: nat)
    requires forall p, q :: env.distance(p, q) == env.distance(q, p)
    ensures t.InRange(env, id1, id2) == t.InRange(env, id2, id1)
  {
    if id1 in t.users && id2 in t.users {
      var u1, u2 := t.users[id1], t.users[id2];
      assert Abs(u1.lat - u2.lat) == Abs(u2.lat - u1.lat);
      assert Abs(u1.lon - u2.lon) == Abs(u2.lon - u1.lon);
      assert env.distance(u1.Pos(), u2.Pos()) == env.distance(u2.Pos(), u1.Pos());
    }
  }

  /** The `Users` store: three maps-and-counter fields updated in place. */
  class Users {
    var currentId: nat
    var users: map<nat, User>
    var usersByName: map<string, nat>

    function Model(): UserTable
      reads this
    {
      UserTable(currentId, users, usersByName)
    }

    /** `Users::new`. */
    constructor ()
      ensures Model() == EmptyUserTable()
    {
      currentId := 0;
      users := map[];
      usersByName := map[];
    }

    /** `Users::add`: `fetch_add` on the counter, then two inserts. */
    method Add(env: Env, username: string, password: string) returns (id: nat)
      modifies this
      ensures (Model(), id) == old(Model()).Add(env, username, password)
    {
      id := currentId;
      currentId := currentId + 1;
      var user := User.New(id, username, env.hash(password, env.salt(id)));
      users := users[id := user];
      usersByName := usersByName[username := id];
    }

    /** `get_mut_by_id(id)` and the writes through its guard. */
    method SetLocation(id: nat, lat: real, lon: real)
      modifies this
      ensures Model() == old(Model()).SetLocation(id, lat, lon)
    {
      if id in users {
        var user := users[id];
        users := users[id := user.(lat := lat, lon := lon)];
      }
    }
  }

  // ---------------------------------------------------------------------------
  // Connections

  /** A registry entry (`Server`): the opaque delivery handle (`socket`) and
      the content of its `user_id` cell, the user bound to the connection. */
  datatype Server = Server(socket: nat, userId: Option<nat>)

  /** The value held by a `Servers` registry: the id counter and the map from
      connection id to entry (the read view, equal to the written map because
      every write is followed by `refresh`). */
  datatype Registry = Registry(currentId: nat, entries: map<nat, Server>)
  {
    /** Every live connection id was handed out by the counter. */
    ghost predicate Valid() {
      forall id :: id in entries ==> id < currentId
    }

    /** `Servers::get`. */
    function Get(id: nat): (r: Option<Server>)
      ensures r.Some? <==> id in entries
      ensures Valid() && r.Some? ==> id < currentId
    {
      if id in entries then Some(entries[id]) else None
    }

    /** `Servers::len`: the number of live connections, never more than the
        number of ids handed out. */
    function Len(): (n: nat)
      ensures Valid() ==> n <= currentId
    {
      KeysBelowCount(entries.Keys, currentId);
      |entries|
    }

    /** `Servers::get_next_id`: return the counter, then bump it. */
    function NextId(): (r: (Registry, nat))
      ensures r.1 == currentId && r.0.currentId == r.1 + 1 && r.0.entries == entries
      ensures Valid() ==> r.1 !in entries && r.0.Valid()
    {
      (this.(currentId := currentId + 1), currentId)
    }

    /** `Servers::update`: insert or replace the entry for `id`. */
    function Update(id: nat, server: Server): (r: Registry)
      ensures r.currentId == currentId
      ensures r.Get(id) == Some(server)
      ensures forall other :: other != id ==> r.Get(other) == Get(other)
      ensures r.Len() == if id in entries then Len() else Len() + 1
      ensures Valid() && id < currentId ==> r.Valid()
    {
      this.(entries := entries[id := server])
    }

    /** `Servers::empty`: remove the entry for `id`; absent ids are a no-op. */
    function Empty(id: nat): (r: Registry)
      ensures r.currentId == currentId
      ensures r.Get(id) == None
      ensures forall other :: other != id ==> r.Get(other) == Get(other)
      ensures id !in entries ==> r == this
      ensures r.Len() == if id in entries then Len() - 1 else Len()
      ensures Valid() ==> r.Valid()
    {
      if id in entries then
        assert entries.Keys == (entries - {id}).Keys + {id};
        this.(entries := entries - {id})
      else
        this
    }
  }

  function EmptyRegistry(): (r: Registry)
    ensures r.Valid() && r.entries == map[]
  {
    Registry(0, map[])
  }

  /** A set of naturals all below `n` has at most `n` elements. */
  lemma {:induction false} KeysBelowCount(keys: set<nat>, n: nat)
    ensures (forall k :: k in keys ==> k < n) ==> |keys| <= n
    decreases n
  {
    if n > 0 && forall k :: k in keys ==> k < n {
      KeysBelowCount(keys - {n - 1}, n - 1);
    }
  }

  /** Ids handed out by two successive `get_next_id` calls are strictly increasing. */
  lemma NextIdsIncrease(r: Registry)
    ensures r.NextId().1 < r.NextId().0.NextId().1
  {
  }

  /** The `Servers` registry: the counter and the map, updated in place. */
  class Servers {
    var currentId: nat
    var entries: map<nat, Server>

    function Model(): Registry
      reads this
    {
      Registry(currentId, entries)
    }

    /** `Servers::new`. */
    constructor ()
      ensures Model() == EmptyRegistry()
    {
      currentId := 0;
      entries := map[];
    }

    /** `Servers::get_next_id`. */
    method GetNextId() returns (id: nat)
      modifies this
      ensures (Model(), id) == old(Model()).NextId()
    {
      id := currentId;
      currentId := currentId + 1;
    }

    /** `Servers::update`, with its `refresh`. */
    method Update(id: nat, server: Server)
      modifies this
      ensures Model() == old(Model()).Update(id, server)
    {
      entries := entries[id := server];
    }

    /** `Servers::empty`, with its `refresh`. */
    method Empty(id: nat)
      modifies this
      ensures Model() == old(Model()).Empty(id)
    {
      if id in entries {
        entries := entries - {id};
      }
    }
  }

  // ---------------------------------------------------------------------------
  // Messages

  /** The inbound and outbound JSON messages, already parsed. */
  datatype JsonMessage =
    | Location(lat: real, lon: real)
    | Login(username: string, password: string)
    | LoginResponse(status: bool)
    | Register(username: string, password: string)
    | RegisterResponse(status: bool)
    | SendMessage(msg: string)
    | Message(username: string, msg: string)
    | Error(reason: string)

  /** The commands workers take from the queue (the `Message` enum). Reply
      channels are not part of the value: what a worker sends back is its
      `Reply` (module Worker). The close code is only printed and is left out. */
  datatype Command =
    | Open(server: Server)
    | Close(id: nat)
    | Login(id: nat, username: string, password: string)
    | Register(id: nat, username: string, password: string)
    | Message(userId: nat, msg: string)
    | Location(userId: nat, lat: real, lon: real)

  /** `Server::on_message` for a parsed message, seen from the handler whose
      connection id is `id` and whose `user_id` cell holds `userId`: the command
      it puts on the queue, if any. */
  function OnMessage(id: nat, userId: Option<nat>, m: JsonMessage): (r: Option<Command>)
    ensures r.Some? ==> m.Location? || m.Login? || m.Register? || m.SendMessage?
    ensures m.Location? ==> (r.Some? <==> userId.Some?)
    ensures m.SendMessage? ==> (r.Some? <==> Utf8Len(m.msg) <= MAX_MESSAGE_LEN && userId.Some?)
    ensures (m.Login? || m.Register?) ==> r.Some? && (r.value.Login? || r.value.Register?) && r.value.id == id
    ensures r.Some? && (r.value.Message? || r.value.Location?) ==> userId.Some? && r.value.userId == userId.value
    ensures r.Some? && m.Login? ==> r.value == Command.Login(id, m.username, m.password)
    ensures r.Some? && m.Register? ==> r.value == Command.Register(id, m.username, m.password)
    ensures r.Some? && m.SendMessage? ==> r.value.Message? && r.value.msg == m.msg
    ensures r.Some? && m.Location? ==> r.value.Location? && r.value.lat == m.lat && r.value.lon == m.lon
  {
    match m
    case Location(lat, lon) =>
      if userId.Some? then Some(Command.Location(userId.value, lat, lon)) else None
    case Login(username, password) =>
      Some(Command.Login(id, username, password))
    case Register(username, password) =>
      Some(Command.Register(id, username, password))
    case SendMessage(msg) =>
      if Utf8Len(msg) <= MAX_MESSAGE_LEN && userId.Some? then Some(Command.Message(userId.value, msg)) else None
    case _ => None
  }

  /** A chat message of more than 300 characters is never forwarded (it has
      more than 300 bytes); one of at most 75 characters always fits. */
  lemma MessageLengthLimit(id: nat, userId: Option<nat>, msg: string)
    ensures |msg| > MAX_MESSAGE_LEN ==> OnMessage(id, userId, JsonMessage.SendMessage(msg)) == None
    ensures 4 * |msg| <= MAX_MESSAGE_LEN && userId.Some? ==>
      OnMessage(id, userId, JsonMessage.SendMessage(msg)) == Some(Command.Message(userId.value, msg))
  {
  }

  /** Characters below U+0080 take one byte each, so for ASCII text the byte
      limit is a character limit. */
  lemma {:induction false} AsciiLen(s: string)
    requires forall i :: 0 <= i < |s| ==> s[i] as int < 0x80
    ensures Utf8Len(s) == |s|
  {
    if s != [] {
      AsciiLen(s[1..]);
    }
  }
}
