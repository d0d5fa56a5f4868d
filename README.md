# chat_server core in Dafny

This project models the in-memory state of a location-aware chat server and the
sequential meaning of each command its worker threads execute. The server has two
shared stores:

- the **user store** (`Users`): a map from user id to record (name, position,
  password hash), an index from name to id, and a monotonic id counter;
- the **connection registry** (`Servers`): a map from connection id to the entry
  for that connection (its delivery handle and the user bound to it), and a
  monotonic id counter.

A connection handler turns each parsed inbound JSON message into a queue command,
or drops it (`Server::on_message`). A worker takes one command at a time (Open,
Close, Login, Register, Message, Location) and executes it against the two stores
(the `match msg` body of the worker loop).

Files:

- `server.dfy`, module `ChatServer` (src/server.rs). Each store appears twice:
  - as a value (`UserTable`, `Registry`) whose functions state what each operation
    does;
  - as a class (`Users`, `Servers`) whose methods update the same fields in place,
    each proved equal to the corresponding function.

  The module also holds the dispatch decision `OnMessage`.
- `worker.dfy`, module `Worker` (src/main.rs):
  - `Step` is one command as a function of the two store values;
  - `Worker.Handle` runs that command in place on the two store objects, proved
    equal to `Step`;
  - `Worker.Broadcast` is the delivery loop over the registry, proved equal to the
    `Recipients` set;
  - `Run` executes a sequence of commands;
  - the lemmas state each command's effect, the store invariant `Inv`, and how
    commands combine.

The password hash and check, the distance estimate and the random salts are
fields of an `Env` value:

- `hash(password, salt)` stands for `pbkdf2_simple`;
- `check(password, stored)` stands for `pbkdf2_check`;
- `distance(p, q)` stands for `User::distance_to`;
- `salt(id)` is the salt drawn when user `id` is added.

Two things are assumed of them. First, `hash` is a total function: `pbkdf2_simple`
always returns a hash, so its `.unwrap()` never panics. Second, `CheckAcceptsHash`
holds: a password checks against its own hash. Lemmas that need the second fact
list it as a precondition.

Behaviour as the code has it:

- Login on a connection that is already bound binds it again, silently. The
  registry entry is overwritten with the new user.
- Register replies `true` on a free name even when the connection id is no longer
  in the registry. The user is added anyway.
- A chat message goes to every bound connection in range of the sender. This
  includes the sender's own connections.
- The 300 limit on chat messages applies to `String::len`, the UTF-8 byte length.
  It is not a character count. `Utf8Len` models it, and `MessageLengthLimit`
  relates it to character counts.
- Login failure for an unknown name and for a wrong password give the same reply.

## Model

| member | source | states |
|---|---|---|
| `ChatServer.Utf8Len` | src/server.rs:294 | the byte length `msg.len()` lies between the character count and four times it |
| `ChatServer.UserTable.ContainsUsername` | src/server.rs:110-112 | a name is contained when it is a key of the name index; for a valid table, some record then carries that name |
| `ChatServer.UserTable.GetById` | src/server.rs:129-131 | a record is found exactly when the id is a key of the user table; for a valid table, it carries that id |
| `ChatServer.UserTable.GetByName` | src/server.rs:137-143 | None for a name missing from the index; otherwise the table's record for the indexed id; for a valid table, found exactly when the name is contained, and the record carries that name and the indexed id |
| `ChatServer.UserTable.InRange` | src/server.rs:145-154 | true only if both ids have records, their latitudes and longitudes each differ by less than RANGE_LATLON, and their distance is below RANGE_KM; false whenever either record is missing |
| `ChatServer.User.New` | src/server.rs:65-73 | a fresh record carries the given id, name and password hash and sits at (0.0, 0.0) |
| `ChatServer.User.WithinBounds` | src/server.rs:89-91 | never true for a non-positive bound; two records at the same position are within any positive bound |
| `ChatServer.UserTable.Add` | src/server.rs:114-127 | returns the counter value before the increment; adds exactly that key to the table, holding a fresh record with the name, the hashed password and position (0.0, 0.0) (User::new, src/server.rs:65-73); indexes the name to it, changing no other index entry; for a valid table the id is fresh, no existing record changes, and the table stays valid |
| `ChatServer.UserTable.SetLocation` | src/server.rs:133-135 | get_mut_by_id plus the writes through its guard: an existing record gets the new lat/lon and nothing else changes; an absent id leaves the table identical; validity is kept |
| `ChatServer.EmptyUserTable` | src/server.rs:102-108 | the store starts empty and valid |
| `ChatServer.AddIdsIncrease` | src/server.rs:114-115 | two successive adds return strictly increasing, fresh ids, and the second add leaves the first record in place |
| `ChatServer.FarApartNotInRange` | src/server.rs:89-91 | two users whose latitudes or longitudes differ by RANGE_LATLON or more are never in range |
| `ChatServer.InRangeSymmetric` | src/server.rs:145-154 | if the distance is symmetric, in_range does not depend on the order of the two ids |
| `ChatServer.Users.constructor` | src/server.rs:102-108 | `Users::new` holds the empty table |
| `ChatServer.Users.Add` | src/server.rs:114-127 | the in-place add returns the id and leaves the fields equal to `UserTable.Add` of the old fields |
| `ChatServer.Users.SetLocation` | src/main.rs:141-144 | the in-place position write leaves the fields equal to `UserTable.SetLocation` of the old fields |
| `ChatServer.Registry.Get` | src/server.rs:196-203 | an entry is found exactly when the id is registered; for a valid registry, such an id lies below the counter |
| `ChatServer.Registry.Len` | src/server.rs:205-207 | for a valid registry, the number of live connections never exceeds the number of ids handed out |
| `ChatServer.Registry.NextId` | src/server.rs:192-194 | returns the counter value and bumps the counter, leaving the entries unchanged; for a valid registry the id is not registered yet and validity is kept |
| `ChatServer.Registry.Update` | src/server.rs:184-186 | afterwards get(id) is the given entry and every other id's entry is unchanged; len grows by one exactly when the id was absent |
| `ChatServer.Registry.Empty` | src/server.rs:188-190 | afterwards get(id) is None and every other id's entry is unchanged; an absent id leaves the registry identical; len drops by one exactly when the id was present |
| `ChatServer.EmptyRegistry` | src/server.rs:165-172 | the registry starts empty and valid |
| `ChatServer.NextIdsIncrease` | src/server.rs:192-194 | two successive get_next_id calls return strictly increasing values |
| `ChatServer.Servers.constructor` | src/server.rs:165-172 | `Servers::new` holds the empty registry |
| `ChatServer.Servers.GetNextId` | src/server.rs:192-194 | the in-place fetch_add returns the value and leaves the fields equal to `Registry.NextId` |
| `ChatServer.Servers.Update` | src/server.rs:184-186 | the in-place update leaves the fields equal to `Registry.Update` of the old fields |
| `ChatServer.Servers.Empty` | src/server.rs:188-190 | the in-place removal leaves the fields equal to `Registry.Empty` of the old fields |
| `ChatServer.OnMessage` | src/server.rs:253-306 | a command is produced only for Location, Login, Register and SendMessage; Location is forwarded exactly when the connection has a bound user; SendMessage exactly when it is at most 300 bytes and the connection has a bound user; Message and Location commands carry the connection's bound user and no other; Login and Register always go out with the handler's own id, name and password |
| `ChatServer.MessageLengthLimit` | src/server.rs:293-299 | a chat message of more than 300 characters is never forwarded; one of at most 75 characters from a bound connection always is |
| `ChatServer.AsciiLen` | src/server.rs:294 | for ASCII text the byte length equals the character count |
| `Worker.Step` | src/main.rs:54-146 | the reply kind per command: only Open answers with its id; Login and Register always answer their own connection, with a login or register response; only a Message from an existing user delivers; Message and Login leave the user table unchanged. Each arm's full effect is stated by the lemmas below |
| `Worker.Initial` | src/main.rs:23-24 | the two fresh stores satisfy the invariant |
| `Worker.Bind` | src/main.rs:83-86 | a registered connection's entry gets the user id in its user_id cell, replacing any earlier binding; every other entry is unchanged; an absent connection leaves the registry identical |
| `Worker.Recipients` | src/main.rs:128-136 | only registered connections receive a message |
| `Worker.Run` | src/main.rs:52-54 | the worker loop taken one command at a time, in queue order, in place of the threads: each command's step starts from the stores the previous step left, and a run yields one reply per command |
| `Worker.Worker.Handle` | src/main.rs:54-146 | the in-place execution of one command leaves the stores and the reply equal to `Step` of the old stores |
| `Worker.Worker.BindUser` | src/main.rs:111-114 | the in-place get, cell write and update leave the registry equal to `Bind` of the old registry |
| `Worker.Worker.Broadcast` | src/main.rs:128-136 | the loop over the registry collects exactly the connections whose bound user is in range of the sender |
| `Worker.OpenAllocatesFreshId` | src/main.rs:55-67 | Open replies with the registry counter, which is above every registered id; the registry then maps it to the given entry, keeps every other entry, grows by one and bumps the counter; the user store is untouched |
| `Worker.CloseRemovesExactly` | src/main.rs:68-72 | Close removes that id and keeps every other entry; closing an absent id changes nothing; the user store is untouched |
| `Worker.LoginOutcome` | src/main.rs:79-97 | Login replies true exactly when the name is indexed and the password checks against the stored hash; on false nothing changes; on true a registered connection is bound to that user, whatever it was bound to before; the user store never changes |
| `Worker.RegisterTakenName` | src/main.rs:105-107 | Register on an indexed name replies false and leaves both stores unchanged |
| `Worker.RegisterFreeName` | src/main.rs:108-117 | Register on a free name replies true and adds exactly one record, under a fresh id; afterwards exactly one record carries the name; no other record changes; a registered connection is bound to the new user, and an absent one leaves the registry unchanged |
| `Worker.MessageDelivery` | src/main.rs:122-138 | Message changes no store; from an unknown sender it delivers nothing; otherwise the event carries the sender's name and goes to exactly the registered connections whose bound user is in range of the sender |
| `Worker.SenderConnectionsIncluded` | src/main.rs:128-136 | the sender's own bound connections are not excluded: they receive the message whenever the sender is in range of itself |
| `Worker.LocationUpdate` | src/main.rs:140-145 | Location overwrites lat/lon of an existing user only and touches nothing else; for an absent id it is a no-op |
| `Worker.StepKeepsUsers` | src/main.rs:54-146 | no command removes a user or changes a user's id, name or password hash, and neither id counter goes down |
| `Worker.StepPreservesInv` | src/main.rs:54-146 | each command preserves the invariant. Invariant: every indexed name maps to an id below the counter whose record has that name, every record's name is indexed to it, and every bound user has a record |
| `Worker.RegisterThenLogin` | src/main.rs:79-117 | after a successful Register, Login with the same name and password succeeds from any connection |
| `Worker.SecondRegisterFails` | src/main.rs:99-121 | registering a name twice: the first attempt succeeds; the second replies false and leaves the stores as the first left them |
| `Worker.RegisteredConnectionSpeaksAsUser` | src/main.rs:111-114 | after a successful Register on a registered connection, that connection's chat messages within the limit are forwarded under the new user id |
| `Worker.RunPreservesInv` | src/main.rs:52-150 | a whole run of commands keeps the invariant, provided each Open brings an unbound connection |
| `Worker.RunOpenedAtLeast` | src/main.rs:55-67 | each Open in a run replies with an id no smaller than the registry counter at the start of the run |
| `Worker.OpenIdsIncrease` | src/main.rs:55-67 | connection ids replied to Opens strictly increase along a run, so no id is handed out twice |

## Left out

- Worker threads, the command queue, the forwarding thread and the worker loop itself (src/main.rs:21-30, 47-53, 147-161) are not modelled. Commands run one at a time. So the model cannot show two races:
  - The check-then-add in Register can let two concurrent registrations of one name both succeed.
  - The get-then-update in Login and Register can put back a connection that a concurrent Close just removed.
- evmap's read/write split, the CHashMap locks and the parking_lot locks are replaced by plain maps. Each `update`/`empty` is followed by `refresh`, so the read view equals the written map.
- Transport is left out: the websocket handshake, `on_open` waiting for its id, `on_close` sending Close, socket sends and closes, the listen address and settings. Delivery is the set of recipient connection ids in a `Deliver` reply.
- Each registry entry's `user_id` cell is shared between the registry and its transport handler. The model treats the cell as a value inside the entry. `OnMessage` receives the cell's content as a parameter.
- The entry's `id` field is left out: the registry copy keeps the handler's initial 0. The entry's `channel` field and the close code, which is only printed, are also left out.
- pbkdf2 and its iteration count are abstract functions of `Env`. `CheckAcceptsHash` and the totality of `hash` are assumed of them.
- JSON parsing and serialisation are left out. Non-text frames and malformed JSON are dropped before the model's input. Serialising outbound messages is taken to succeed.
- Floating point is left out:
  - Coordinates are exact reals, and `within_bounds` is evaluated on them with RANGE_LATLON exactly 0.1. f32 rounding and NaN are not modelled.
  - `distance_to` (a great-circle estimate in f32) is the abstract `Env.distance`. The model makes no claim about the formula. As written, src/server.rs:75-87 puts the latitude difference and the two raw longitudes where the haversine form takes the longitude difference and the two latitudes. So (60, 0) and (60, 0.09) come out about 10 km apart, though they are about 5 km apart. No lemma depends on the formula; `InRangeSymmetric` only assumes the estimate is symmetric.
- `println!` diagnostics are left out.
- ChatServer.UserTable.Add: hashing is assumed to succeed. If `pbkdf2_simple(..).unwrap()` at src/server.rs:120 panicked, `fetch_add` would already have used up the id, neither insert would run, the Register reply would never be sent and the worker thread would be lost. The model does not capture that path.
- ChatServer.UserTable.Add: the counter is unbounded. The usize wrap-around of `fetch_add` after 2^64 additions is not modelled.
- ChatServer.Registry.NextId: the counter is unbounded. The usize wrap-around of `fetch_add` after 2^64 connections is not modelled.
