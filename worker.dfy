/** Model of the worker loop body in src/main.rs: one command taken from the
    queue, executed against the user store and the connection registry.

    `Step` is the transition as a function of the two store values; the
    `Worker` class holds the two store objects and its `Handle` method runs the
    same transition in place, arm by arm, with the broadcast done by a loop over
    a snapshot of the registry. */
module Worker {
  import opened ChatServer

  /** The two shared stores, as values. */
  datatype Stores = Stores(users: UserTable, servers: Registry)

  /** What one command produces for the outside world.
      - Opened(id): the connection id sent back on the `Open` reply channel;
      - Respond(m): the `LoginResponse`/`RegisterResponse` sent on the reply channel;
      - Deliver(recipients, event): `event` is sent to the socket of every
        connection in `recipients`. */
  datatype Reply =
    | NoReply
    | Opened(id: nat)
    | Respond(response: JsonMessage)
    | Deliver(recipients: set<nat>, event: JsonMessage)

  /** The stores a worker starts from (`Users::new`, `Servers::new`). */
  function Initial(): (s: Stores)
    ensures Inv(s)
  {
    Stores(EmptyUserTable(), EmptyRegistry())
  }

  /** `servers.get(id)`, write `Some(userId)` into the entry's `user_id` cell,
      then `servers.update(id, server)`. An absent connection is left alone. */
  function Bind(reg: Registry, id: nat, userId: nat): (r: Registry)
    ensures r.currentId == reg.currentId
    ensures id in reg.entries ==> r.Get(id) == Some(reg.entries[id].(userId := Some(userId)))
    ensures id !in reg.entries ==> r == reg
    ensures forall other :: other != id ==> r.Get(other) == reg.Get(other)
  {
    match reg.Get(id)
    case Some(server) => reg.Update(id, server.(userId := Some(userId)))
    case None => reg
  }

  /** Connection `c` receives a chat message from `sender`: it has a bound
      user and that user is in range of the sender. */
  predicate Delivers(env: Env, s: Stores, sender: nat, c: nat)
    requires c in s.servers.entries
  {
    var bound := s.servers.entries[c].userId;
    bound.Some? && s.users.InRange(env, sender, bound.value)
  }

  /** The connections a chat message from `sender` is delivered to. */
  function Recipients(env: Env, s: Stores, sender: nat): (r: set<nat>)
    ensures r <= s.servers.entries.Keys
  {
    set c | c in s.servers.entries && Delivers(env, s, sender, c)
  }

  /** One command, as the `match msg` arms of the worker loop run it. */
  function Step(env: Env, s: Stores, cmd: Command): (r: (Stores, Reply))
    ensures r.1.Opened? <==> cmd.Open?
    ensures r.1.Respond? <==> cmd.Login? || cmd.Register?
    ensures r.1.Deliver? ==> cmd.Message? && cmd.userId in s.users.users
    ensures cmd.Login? && r.1.Respond? ==> r.1.response.LoginResponse?
    ensures cmd.Register? && r.1.Respond? ==> r.1.response.RegisterResponse?
    ensures (cmd.Message? || cmd.Login?) ==> r.0.users == s.users
  {
    match cmd
    case Open(server) =>
      var (reg, id) := s.servers.NextId();
      (s.(servers := reg.Update(id, server)), Opened(id))
    case Close(id) =>
      (s.(servers := s.servers.Empty(id)), NoReply)
    case Login(id, username, password) =>
      (match s.users.GetByName(username)
       case Some(user) =>
         if env.check(password, user.password) then
           (s.(servers := Bind(s.servers, id, user.id)), Respond(JsonMessage.LoginResponse(true)))
         else
           (s, Respond(JsonMessage.LoginResponse(false)))
       case None =>
         (s, Respond(JsonMessage.LoginResponse(false))))
    case Register(id, username, password) =>
      if s.users.ContainsUsername(username) then
        (s, Respond(JsonMessage.RegisterResponse(false)))
      else
        var (users, userId) := s.users.Add(env, username, password);
        (Stores(users, Bind(s.servers, id, userId)), Respond(JsonMessage.RegisterResponse(true)))
    case Message(userId, msg) =>
      (match s.users.GetById(userId)
       case Some(user) =>
         (s, Deliver(Recipients(env, s, userId), JsonMessage.Message(user.name, msg)))
       case None =>
         (s, NoReply))
    case Location(userId, lat, lon) =>
      (s.(users := s.users.SetLocation(userId, lat, lon)), NoReply)
  }

  /** A sequence of commands run one after the other, with every reply. */
  function Run(env: Env, s: Stores, cmds: seq<Command>): (r: (Stores, seq<Reply>))
    ensures |r.1| == |cmds|
    decreases |cmds|
  {
    if cmds == [] then (s, [])
    else
      var (s1, reply) := Step(env, s, cmds[0]);
      var (s2, replies) := Run(env, s1, cmds[1..]);
      (s2, [reply] + replies)
  }

  // ---------------------------------------------------------------------------
  // The invariant

  /** The stores' invariant: both stores are valid, the name index and the
      user table agree in both directions (so names are unique), and every
      bound user of a live connection has a record. */
  ghost predicate Inv(s: Stores) {
    && s.users.Valid()
    && s.servers.Valid()
    && (forall id :: id in s.users.users ==>
          s.users.users[id].name in s.users.usersByName
          && s.users.usersByName[s.users.users[id].name] == id)
    && (forall c :: c in s.servers.entries && s.servers.entries[c].userId.Some? ==>
          s.servers.entries[c].userId.value in s.users.users)
  }

  /** The transport hands `Open` a clone of a handler whose `user_id` cell was
      just created empty. */
  predicate Admissible(cmd: Command) {
    cmd.Open? ==> cmd.server.userId == None
  }

  // ---------------------------------------------------------------------------
  // The worker

  /** One worker thread: clones of the two shared stores and the collaborators. */
  class Worker {
    const users: Users
    const servers: Servers
    const env: Env

    function Model(): Stores
      reads users, servers
    {
      Stores(users.Model(), servers.Model())
    }

    constructor (users: Users, servers: Servers, env: Env)
      ensures this.users == users && this.servers == servers && this.env == env
    {
      this.users := users;
      this.servers := servers;
      this.env := env;
    }

    /** The body of the worker loop for one command taken from the queue. */
    method Handle(cmd: Command) returns (reply: Reply)
      modifies users, servers
      ensures (Model(), reply) == Step(env, old(Model()), cmd)
    {
      match cmd
      case Open(server) =>
        var cId := servers.GetNextId();
        servers.Update(cId, server);
        reply := Opened(cId);
      case Close(id) =>
        servers.Empty(id);
        reply := NoReply;
      case Login(id, username, password) =>
        var status := false;
        var user := users.Model().GetByName(username);
        if user.Some? && env.check(password, user.value.password) {
          BindUser(id, user.value.id);
          status := true;
        }
        reply := Respond(JsonMessage.LoginResponse(status));
      case Register(id, username, password) =>
        var status := false;
        if !users.Model().ContainsUsername(username) {
          var userId := users.Add(env, username, password);
          BindUser(id, userId);
          status := true;
        }
        reply := Respond(JsonMessage.RegisterResponse(status));
      case Message(userId, msg) =>
        var user := users.Model().GetById(userId);
        if user.Some? {
          var recipients := Broadcast(userId);
          reply := Deliver(recipients, JsonMessage.Message(user.value.name, msg));
        } else {
          reply := NoReply;
        }
      case Location(userId, lat, lon) =>
        users.SetLocation(userId, lat, lon);
        reply := NoReply;
    }

    /** Bind connection `id` to `userId` if the connection is still registered. */
    method BindUser(id: nat, userId: nat)
      modifies servers
      ensures servers.Model() == Bind(old(servers.Model()), id, userId)
    {
      var server := servers.Model().Get(id);
      if server.Some? {
        servers.Update(id, server.value.(userId := Some(userId)));
      }
    }

    /** The `for_each` over the registry's read view: collect every connection
        whose bound user is in range of `sender`. */
    method Broadcast(sender: nat) returns (recipients: set<nat>)
      ensures recipients == Recipients(env, Model(), sender)
    {
      var table := users.Model();
      var snapshot := servers.entries;
      var pending := snapshot.Keys;
      recipients := {};
      while pending != {}
        invariant pending <= snapshot.Keys
        invariant forall c :: c in recipients <==>
          c in snapshot && c !in pending && Delivers(env, Model(), sender, c)
        decreases pending
      {
        var c :| c in pending;
        var other := snapshot[c].userId;
        if other.Some? && table.InRange(env, sender, other.value) {
          recipients := recipients + {c};
        }
        pending := pending - {c};
      }
    }
  }

  // ---------------------------------------------------------------------------
  // Properties of one command

  /** Open: the reply is the counter value, above every id handed out before;
      the registry maps it to the given entry and nothing else changes. */
  lemma OpenAllocatesFreshId(env: Env, s: Stores, server: Server)
    requires s.servers.Valid()
    ensures var (s', reply) := Step(env, s, Command.Open(server));
            && reply == Opened(s.servers.currentId)
            && (forall c :: c in s.servers.entries ==> c < reply.id)
            && s'.servers.Get(reply.id) == Some(server)
            && (forall c :: c != reply.id ==> s'.servers.Get(c) == s.servers.Get(c))
            && s'.servers.Len() == s.servers.Len() + 1
            && s'.servers.currentId == reply.id + 1
            && s'.users == s.users
  {
  }

  /** Close: exactly that connection is gone, a close of an absent id changes
      nothing, and the user store is untouched. */
  lemma CloseRemovesExactly(env: Env, s: Stores, id: nat)
    ensures var (s', reply) := Step(env, s, Command.Close(id));
            && reply == NoReply
            && s'.users == s.users
            && s'.servers.Get(id) == None
            && (forall c :: c != id ==> s'.servers.Get(c) == s.servers.Get(c))
            && (id !in s.servers.entries ==> s' == s)
  {
  }

  /** Login: the reply is true exactly when the name is indexed and the
      password checks against the stored hash; on false nothing changes, on
      true the connection (if still registered) is bound to that user, whatever
      it was bound to before. The user store never changes. */
  lemma LoginOutcome(env: Env, s: Stores, id: nat, username: string, password: string)
    requires s.users.Valid()
    ensures var (s', reply) := Step(env, s, Command.Login(id, username, password));
            var ok := username in s.users.usersByName
                      && env.check(password, s.users.users[s.users.usersByName[username]].password);
            && reply == Respond(JsonMessage.LoginResponse(ok))
            && s'.users == s.users
            && (!ok ==> s' == s)
            && (ok ==> s'.servers == Bind(s.servers, id, s.users.usersByName[username]))
            && (ok && id in s.servers.entries ==>
                  s'.servers.Get(id) == Some(s.servers.entries[id].(userId := Some(s.users.usersByName[username]))))
  {
  }

  /** Register on a name already indexed: false, and both stores unchanged. */
  lemma RegisterTakenName(env: Env, s: Stores, id: nat, username: string, password: string)
    requires username in s.users.usersByName
    ensures Step(env, s, Command.Register(id, username, password))
            == (s, Respond(JsonMessage.RegisterResponse(false)))
  {
  }

  /** Register on a free name: true; exactly one new record, under a fresh id,
      carries the name afterwards; the connection is bound if registered and
      the registry is unchanged if not. */
  lemma RegisterFreeName(env: Env, s: Stores, id: nat, username: string, password: string)
    requires Inv(s)
    requires username !in s.users.usersByName
    ensures var (s', reply) := Step(env, s, Command.Register(id, username, password));
            var userId := s.users.currentId;
            && reply == Respond(JsonMessage.RegisterResponse(true))
            && userId !in s.users.users
            && s'.users.users.Keys == s.users.users.Keys + {userId}
            && (forall u :: u in s.users.users ==> s'.users.users[u] == s.users.users[u])
            && s'.users.users[userId].name == username
            && s'.users.usersByName[username] == userId
            && (set u | u in s'.users.users && s'.users.users[u].name == username) == {userId}
            && (id in s.servers.entries ==>
                  s'.servers.Get(id) == Some(s.servers.entries[id].(userId := Some(userId))))
            && (id !in s.servers.entries ==> s'.servers == s.servers)
  {
    forall u | u in s.users.users
      ensures s.users.users[u].name != username
    {
    }
  }

  /** Message: from an unknown sender nothing is delivered; otherwise the
      event carries the sender's name and goes to exactly the registered
      connections whose bound user is in range of the sender. Neither store
      changes. */
  lemma MessageDelivery(env: Env, s: Stores, userId: nat, msg: string)
    ensures var (s', reply) := Step(env, s, Command.Message(userId, msg));
            && s' == s
            && (userId !in s.users.users ==> reply == NoReply)
            && (userId in s.users.users ==>
                  && reply.Deliver?
                  && reply.event == JsonMessage.Message(s.users.users[userId].name, msg)
                  && forall c :: c in reply.recipients <==>
                       c in s.servers.entries && s.servers.entries[c].userId.Some?
                       && s.users.InRange(env, userId, s.servers.entries[c].userId.value))
  {
  }

  /** The sender's own connections are not excluded: they receive the message
      whenever the sender is in range of itself. */
  lemma SenderConnectionsIncluded(env: Env, s: Stores, userId: nat, msg: string, c: nat)
    requires userId in s.users.users
    requires c in s.servers.entries && s.servers.entries[c].userId == Some(userId)
    requires env.distance(s.users.users[userId].Pos(), s.users.users[userId].Pos()) < RANGE_KM
    ensures var reply := Step(env, s, Command.Message(userId, msg)).1;
            reply.Deliver? && c in reply.recipients
  {
    var u := s.users.users[userId];
    assert u.lat - u.lat == 0.0 && u.lon - u.lon == 0.0;
  }

  /** Location: an existing user gets the new position and nothing else
      changes; an absent id is a no-op. */
  lemma LocationUpdate(env: Env, s: Stores, userId: nat, lat: real, lon: real)
    ensures var (s', reply) := Step(env, s, Command.Location(userId, lat, lon));
            && reply == NoReply
            && s'.servers == s.servers
            && s'.users.usersByName == s.users.usersByName
            && s'.users.users.Keys == s.users.users.Keys
            && (userId in s.users.users ==>
                  s'.users.users[userId] == s.users.users[userId].(lat := lat, lon := lon))
            && (forall u :: u in s.users.users && u != userId ==> s'.users.users[u] == s.users.users[u])
            && (userId !in s.users.users ==> s' == s)
  {
  }

  /** No command removes a user or changes a user's id, name or password hash,
      and neither id counter ever goes down. */
  lemma StepKeepsUsers(env: Env, s: Stores, cmd: Command)
    requires s.users.Valid()
    ensures var s' := Step(env, s, cmd).0;
            && s.users.users.Keys <= s'.users.users.Keys
            && (forall u :: u in s.users.users ==>
                  && s'.users.users[u].id == s.users.users[u].id
                  && s'.users.users[u].name == s.users.users[u].name
                  && s'.users.users[u].password == s.users.users[u].password)
            && s.users.currentId <= s'.users.currentId
            && s.servers.currentId <= s'.servers.currentId
  {
  }

  /** Every admissible command preserves the invariant. */
  lemma StepPreservesInv(env: Env, s: Stores, cmd: Command)
    requires Inv(s) && Admissible(cmd)
    ensures Inv(Step(env, s, cmd).0)
  {
    var s' := Step(env, s, cmd).0;
    match cmd
    case Open(server) =>
      forall c | c in s'.servers.entries && s'.servers.entries[c].userId.Some?
        ensures s'.servers.entries[c].userId.value in s'.users.users
      {
        assert s'.servers.Get(c) == s.servers.Get(c);
      }
    case Close(id) =>
      forall c | c in s'.servers.entries && s'.servers.entries[c].userId.Some?
        ensures s'.servers.entries[c].userId.value in s'.users.users
      {
        assert s'.servers.Get(c) == s.servers.Get(c);
      }
    case Login(id, username, password) =>
      forall c | c in s'.servers.entries && s'.servers.entries[c].userId.Some?
        ensures s'.servers.entries[c].userId.value in s'.users.users
      {
        if c != id {
          assert s'.servers.Get(c) == s.servers.Get(c);
        }
      }
    case Register(id, username, password) =>
      if !s.users.ContainsUsername(username) {
        var userId := s.users.currentId;
        forall u | u in s'.users.users
          ensures s'.users.users[u].name in s'.users.usersByName
          ensures s'.users.usersByName[s'.users.users[u].name] == u
        {
          if u != userId {
            assert s'.users.users[u] == s.users.users[u];
            assert s.users.users[u].name != username;
          }
        }
        forall c | c in s'.servers.entries && s'.servers.entries[c].userId.Some?
          ensures s'.servers.entries[c].userId.value in s'.users.users
        {
          if c != id {
            assert s'.servers.Get(c) == s.servers.Get(c);
          }
        }
        assert s'.servers.Valid() by {
          forall c | c in s'.servers.entries ensures c < s'.servers.currentId {
            assert s'.servers.Get(c).Some?;
          }
        }
      }
    case Message(userId, msg) =>
    case Location(userId, lat, lon) =>
  }

  // ---------------------------------------------------------------------------
  // Properties of several commands

  /** A password checks against the hash stored by a successful Register, so
      logging in with it afterwards succeeds, from any connection. */
  lemma RegisterThenLogin(env: Env, s: Stores, id: nat, id2: nat, username: string, password: string)
    requires CheckAcceptsHash(env) && Inv(s)
    requires username !in s.users.usersByName
    ensures var s1 := Step(env, s, Command.Register(id, username, password)).0;
            Step(env, s1, Command.Login(id2, username, password)).1
              == Respond(JsonMessage.LoginResponse(true))
  {
    var userId := s.users.currentId;
    var s1 := Step(env, s, Command.Register(id, username, password)).0;
    assert s1.users == s.users.Add(env, username, password).0;
    assert s1.users.Valid();
    assert s1.users.usersByName[username] == userId;
    assert s1.users.GetByName(username) == Some(s1.users.users[userId]);
    assert s1.users.users[userId].password == env.hash(password, env.salt(userId));
    assert env.check(password, env.hash(password, env.salt(userId)));
  }

  /** Registering the same name twice: the second attempt replies false and
      leaves the stores as the first one left them. */
  lemma SecondRegisterFails(env: Env, s: Stores, id: nat, id2: nat, username: string, p1: string, p2: string)
    requires username !in s.users.usersByName
    ensures var (s1, r1) := Step(env, s, Command.Register(id, username, p1));
            && r1 == Respond(JsonMessage.RegisterResponse(true))
            && Step(env, s1, Command.Register(id2, username, p2))
               == (s1, Respond(JsonMessage.RegisterResponse(false)))
  {
  }

  /** After a successful Register on a registered connection, that
      connection's `user_id` cell holds the new user, so its chat messages of
      at most 300 bytes are forwarded under that user id and no other. */
  lemma RegisteredConnectionSpeaksAsUser(env: Env, s: Stores, id: nat, username: string, password: string, msg: string)
    requires Inv(s)
    requires username !in s.users.usersByName && id in s.servers.entries
    requires Utf8Len(msg) <= MAX_MESSAGE_LEN
    ensures var s1 := Step(env, s, Command.Register(id, username, password)).0;
            && id in s1.servers.entries
            && OnMessage(id, s1.servers.entries[id].userId, JsonMessage.SendMessage(msg))
               == Some(Command.Message(s.users.currentId, msg))
  {
    var s1 := Step(env, s, Command.Register(id, username, password)).0;
    assert s1.servers.Get(id).Some?;
  }

  /** Every admissible run from a state satisfying the invariant ends in one. */
  lemma {:induction false} RunPreservesInv(env: Env, s: Stores, cmds: seq<Command>)
    requires Inv(s)
    requires forall i :: 0 <= i < |cmds| ==> Admissible(cmds[i])
    ensures Inv(Run(env, s, cmds).0)
    decreases |cmds|
  {
    if cmds != [] {
      StepPreservesInv(env, s, cmds[0]);
      RunPreservesInv(env, Step(env, s, cmds[0]).0, cmds[1..]);
    }
  }

  /** The reply to the j-th command of a run, if an Open, is an id no smaller
      than the registry counter at the start of the run. */
  lemma {:induction false} RunOpenedAtLeast(env: Env, s: Stores, cmds: seq<Command>, j: nat)
    requires j < |cmds| && cmds[j].Open?
    ensures Run(env, s, cmds).1[j].Opened?
    ensures Run(env, s, cmds).1[j].id >= s.servers.currentId
    decreases j
  {
    var s1 := Step(env, s, cmds[0]).0;
    assert s.servers.currentId <= s1.servers.currentId;
    if j > 0 {
      RunOpenedAtLeast(env, s1, cmds[1..], j - 1);
      assert Run(env, s, cmds).1[j] == Run(env, s1, cmds[1..]).1[j - 1];
    }
  }

  /** Connection ids replied to Opens are strictly increasing along a run, so
      no id is ever handed out twice. */
  lemma {:induction false} OpenIdsIncrease(env: Env, s: Stores, cmds: seq<Command>, i: nat, j: nat)
    requires i < j < |cmds| && cmds[i].Open? && cmds[j].Open?
    ensures Run(env, s, cmds).1[i].Opened? && Run(env, s, cmds).1[j].Opened?
    ensures Run(env, s, cmds).1[i].id < Run(env, s, cmds).1[j].id
    decreases i
  {
    var s1 := Step(env, s, cmds[0]).0;
    RunOpenedAtLeast(env, s, cmds, i);
    RunOpenedAtLeast(env, s, cmds, j);
    assert Run(env, s, cmds).1[j] == Run(env, s1, cmds[1..]).1[j - 1];
    if i == 0 {
      RunOpenedAtLeast(env, s1, cmds[1..], j - 1);
    } else {
      OpenIdsIncrease(env, s1, cmds[1..], i - 1, j - 1);
      assert Run(env, s, cmds).1[i] == Run(env, s1, cmds[1..]).1[i - 1];
    }
  }
}
