/**
 The connection handler of the server: which request does what, the reply to each, and the loop that
 reads a request, handles it and writes one reply. Concurrent connections are the business of
 RegistryRuns and Archive; here one connection runs alone.
 */
module Handler {
  import opened Bytes
  import opened Clients
  import opened Decimal
  import opened Framing
  import opened Link
  import Archive
  import Registry

  const REGISTER := "register"
  const REQUEST_OTP := "request_otp"
  const HELLO := "hello"
  const LOG := "log"
  const ERROR := "error"

  /** A type assertion to string of one member, empty when it fails. */
  function TextField(data: Json, key: string): string {
    if data.Object? && key in data.fields && data.fields[key].Text? then data.fields[key].text else ""
  }

  function Member(data: Json, key: string): Json {
    if data.Object? && key in data.fields then data.fields[key] else Null
  }

  function AgentIDOf(req: Message): string {
    TextField(req.data, "agent_id")
  }

  /** The device of a register request, by way of JSON: members of another type stay empty. */
  function DeviceOf(data: Json): DeviceInfo {
    DeviceInfo(TextField(data, "hostName"), TextField(data, "ipAddress"), TextField(data, "macAddress"),
      TextField(data, "hardwareID"))
  }

  /** What a request meets: the clock and its text, a new client id, failures, randomness, the writes. */
  datatype Env = Env(now: nat, time: string, uuid: string, deviceQueryFails: bool, archiveOpens: bool,
                     iv: Option<Block>, lengthWrite: Sent, bodyWrite: Sent)

  predicate Known(kind: string) {
    kind == REGISTER || kind == REQUEST_OTP || kind == HELLO || kind == LOG
  }

  /** The request comes from a registered agent or carries no agent id. */
  ghost predicate Allowed(rows: seq<ManagedClient>, req: Message) {
    AgentIDOf(req) == "" || HasAgent(rows, AgentIDOf(req))
  }

  ghost predicate Admitted(rows: seq<ManagedClient>, req: Message) {
    Known(req.kind) && (req.kind == HELLO || req.kind == LOG ==> Allowed(rows, req))
  }

  /** What the server keeps: the table, the id counter, the hello times and the text of the archive. */
  datatype World = World(rows: seq<ManagedClient>, next: nat, hello: map<string, nat>, archive: string)

  /**
   A device that is found keeps its row; any other gets one new row under the id that is next. The
   reply names the row.
   */
  ghost predicate Registered(w: World, req: Message, env: Env, reply: Message, w2: World) {
    var device := DeviceOf(req.data);
    if !env.deviceQueryFails && exists i :: 0 <= i < |w.rows| && w.rows[i].device.hardwareID == device.hardwareID
    then w2 == w && exists r :: r in w.rows && r.device.hardwareID == device.hardwareID && reply == RegisterReply(r)
    else
      var added := ManagedClient(env.uuid, Padded(w.next, 3), device, "", None, false);
      w2 == w.(rows := InsertOrReplace(w.rows, added), next := w.next + 1) && reply == RegisterReply(added)
  }

  function RegisterReply(row: ManagedClient): Message {
    Message.Message(REGISTER,
      Json.Object(map["client_id" := Json.Text(row.clientID), "agent_id" := Json.Text(row.agentID)]))
  }

  function Refused(text: string): Message {
    Message.Message(ERROR, Json.Text(text))
  }

  const UNREGISTERED := "Agent not registered. Please register again."

  ghost predicate HelloHandled(w: World, req: Message, env: Env, reply: Message, w2: World) {
    var id := AgentIDOf(req);
    if !Allowed(w.rows, req) then w2 == w && reply == Refused(UNREGISTERED)
    else
      && w2 == (if id == "" then w else w.(hello := w.hello[id := env.now]))
      && reply == Message.Message(HELLO, Json.Object(map["agent_id" := Json.Text(id), "payload" := req.data]))
  }

  ghost predicate LogHandled(w: World, req: Message, env: Env, reply: Message, w2: World) {
    var id := AgentIDOf(req);
    if !Allowed(w.rows, req) then w2 == w && reply == Refused(UNREGISTERED)
    else
      && w2 == (if env.archiveOpens
                then w.(archive := w.archive + (Archive.Marshal(EntryOf(req, env)) + ['\n'])) else w)
      && reply ==
        Message.Message(LOG, Json.Object(map["agent_id" := Json.Text(id), "result" := Json.Text("log received")]))
  }

  /** What a request does to the server, and the reply to it. */
  ghost predicate Handled(totp: string -> string, w: World, req: Message, env: Env, reply: Message, w2: World) {
    if req.kind == REGISTER then Registered(w, req, env, reply, w2)
    else if req.kind == REQUEST_OTP then
      && w2 == w.(next := NextAfter(w.rows))
      && reply == Message.Message(REQUEST_OTP, OtpReply(w.rows, AgentIDOf(req), totp))
    else if req.kind == HELLO then HelloHandled(w, req, env, reply, w2)
    else if req.kind == LOG then LogHandled(w, req, env, reply, w2)
    else w2 == w && reply == Refused("Unknown request type")
  }

  class Handler {
    const server: Registry.Server
    const totp: string -> string
    var archive: string

    constructor (server: Registry.Server, totp: string -> string, archive: string)
      ensures this.server == server && this.totp == totp && this.archive == archive
    {
      this.server, this.totp, this.archive := server, totp, archive;
    }

    ghost function AsWorld(): World
      reads this, server
    {
      World(server.rows, server.nextAgentID, server.helloLastSeen, archive)
    }

    method HandleRegister(req: Message, env: Env) returns (resp: Message)
      requires server.Valid()
      modifies server`rows, server`nextAgentID
      ensures server.Valid() && Registered(old(AsWorld()), req, env, resp, AsWorld())
      ensures exists r ::
                && r in server.rows && r.device.hardwareID == DeviceOf(req.data).hardwareID
                && resp == RegisterReply(r)
    {
      ghost var before := server.rows;
      var device := DeviceOf(req.data);
      var clientID, agentID := server.Register(device, env.uuid, env.deviceQueryFails);
      ghost var added := ManagedClient(clientID, agentID, device, "", None, false);
      assert InsertOrReplace(before, added)[|Without(before, added)|] == added;
      return Message.Message(REGISTER,
        Json.Object(map["client_id" := Json.Text(clientID), "agent_id" := Json.Text(agentID)]));
    }

    method HandleRequestOTP(req: Message) returns (resp: Message)
      requires server.Valid()
      modifies server`nextAgentID
      ensures server.Valid() && server.nextAgentID == NextAfter(server.rows)
      ensures resp == Message.Message(REQUEST_OTP, OtpReply(server.rows, AgentIDOf(req), totp))
    {
      var agentID := AgentIDOf(req);
      var clientID := server.FindClientID(agentID);
      var otp := "";
      if clientID != "" {
        otp := totp(clientID);
      }
      return Message.Message(REQUEST_OTP, Json.Object(map["agent_id" := Json.Text(agentID), "otp" := Json.Text(otp)]));
    }

    method HandleHello(req: Message, env: Env) returns (resp: Message)
      modifies server`helloLastSeen
      ensures HelloHandled(old(AsWorld()), req, env, resp, AsWorld())
      ensures resp.kind == ERROR <==> AgentIDOf(req) != "" && !HasAgent(server.rows, AgentIDOf(req))
      ensures resp.kind == ERROR || AgentIDOf(req) == "" ==> server.helloLastSeen == old(server.helloLastSeen)
    {
      var agentID := AgentIDOf(req);
      var accepted := server.Hello(agentID, env.now);
      if !accepted {
        return Message.Message(ERROR, Json.Text(UNREGISTERED));
      }
      return Message.Message(HELLO, Json.Object(map["agent_id" := Json.Text(agentID), "payload" := req.data]));
    }

    method HandleLog(req: Message, env: Env) returns (resp: Message)
      modifies this`archive
      ensures LogHandled(old(AsWorld()), req, env, resp, AsWorld())
      ensures resp.kind == if AgentIDOf(req) == "" || HasAgent(server.rows, AgentIDOf(req)) then LOG else ERROR
      ensures archive == if resp.kind == LOG && env.archiveOpens
                         then old(archive) + Archive.Marshal(EntryOf(req, env)) + ['\n'] else old(archive)
    {
      var agentID := AgentIDOf(req);
      if agentID != "" {
        var registered := server.AgentExists(agentID);
        if !registered {
          return Message.Message(ERROR, Json.Text(UNREGISTERED));
        }
      }
      var logEntry := Archive.LogEntry(env.time, agentID, TextField(Member(req.data, "payload"), "message"));
      if env.archiveOpens {
        Regroup(archive, Archive.Marshal(logEntry), ['\n']);
        archive := archive + Archive.Marshal(logEntry);
        archive := archive + ['\n'];
      }
      return Message.Message(LOG,
        Json.Object(map["agent_id" := Json.Text(agentID), "result" := Json.Text("log received")]));
    }

    /** The switch on the type of the request. */
    method HandleRequest(req: Message, env: Env) returns (resp: Message)
      requires server.Valid()
      modifies server, this`archive
      ensures server.Valid()
      ensures resp.kind == if Admitted(old(server.rows), req) then req.kind else ERROR
      ensures req.kind != REGISTER ==> server.rows == old(server.rows)
      ensures req.kind != REGISTER && req.kind != REQUEST_OTP ==> server.nextAgentID == old(server.nextAgentID)
      ensures server.helloLastSeen == if req.kind == HELLO && Admitted(old(server.rows), req) && AgentIDOf(req) != ""
                                      then old(server.helloLastSeen)[AgentIDOf(req) := env.now]
                                        else old(server.helloLastSeen)
      ensures archive == if req.kind == LOG && Admitted(old(server.rows), req) && env.archiveOpens
                         then old(archive) + Archive.Marshal(EntryOf(req, env)) + ['\n'] else old(archive)
      ensures Handled(totp, old(AsWorld()), req, env, resp, AsWorld())
    {
      if req.kind == REGISTER {
        resp := HandleRegister(req, env);
      } else if req.kind == REQUEST_OTP {
        resp := HandleRequestOTP(req);
      } else if req.kind == HELLO {
        resp := HandleHello(req, env);
      } else if req.kind == LOG {
        resp := HandleLog(req, env);
      } else {
        resp := Message.Message(ERROR, Json.Text("Unknown request type"));
      }
    }

    /** One turn of the loop; done tells that the connection is closed after it. */
    method HandleTurn(c: Codec<Message>, conn: Conn, env: Env) returns (handled: Option<Exchange>, done: bool)
      requires server.Valid() && conn.Valid()
      modifies server, this`archive, conn
      ensures server.Valid() && conn.Valid()
      ensures match ReadOne(c, old(conn.Rest()))
              case Message(m, rest) => handled.Some? && handled.value.request == m && conn.Rest() == rest
              case Stopped(_) => handled == None
      ensures match handled
              case Some(x) => Handled(totp, old(AsWorld()), x.request, env, x.reply, AsWorld())
              case None => AsWorld() == old(AsWorld())
      ensures done <==> handled.None? || !Succeeds(env)
      ensures conn.output == match handled
                             case Some(x) => old(conn.output) + Answer(c, env, x.reply)
                             case None => old(conn.output)
    {
      var message, _ := conn.Receive(c);
      if message.None? {
        return None, true;
      }
      var reply := HandleRequest(message.value, env);
      handled := Some(Exchange(message.value, reply));
      if env.iv.None? {
        return handled, true;
      }
      var body := SealReply(c, env.iv.value, reply);
      var prefix := LengthPrefix(c.putUint32, body);
      var ok := conn.Write(prefix, env.lengthWrite);
      if !ok {
        return handled, true;
      }
      ok := conn.Write(body, env.bodyWrite);
      Regroup(old(conn.output), prefix, Part(body, env.bodyWrite));
      return handled, !ok;
    }

    /**
     The loop of one connection. handled lists the requests with their replies, worlds the states
     before, between and after them; env gives what the i-th request meets.
     */
    method HandleConn(c: Codec<Message>, conn: Conn, env: nat -> Env)
      returns (handled: seq<Exchange>, ghost worlds: seq<World>)
      requires server.Valid() && conn.Valid()
      modifies server, this`archive, conn
      ensures server.Valid() && conn.Valid()
      ensures var messages := ReadAll(c, old(conn.Rest())).messages;
              |handled| <= |messages| && Requests(handled) == messages[..|handled|]
      ensures Chain(totp, worlds, handled, env) && worlds[0] == old(AsWorld()) && worlds[|handled|] == AsWorld()
      ensures archive == old(archive) + Archive.Written(Logged(worlds, handled, env))
      ensures (forall i :: Succeeds(env(i))) ==>
                && Requests(handled) == ReadAll(c, old(conn.Rest())).messages
                && conn.output == old(conn.output) + Wire(c.putUint32, ReplyBodies(c, handled, env))
    {
      handled, worlds := [], [AsWorld()];
      var done := false;
      ghost var first := Turn(AsWorld(), conn.output, conn.Rest());
      ServingStarts(c, totp, env, first);
      while !done
        invariant server.Valid() && conn.Valid()
        invariant !done ==>
                    Serving(c, totp, env, first, handled, worlds, Turn(AsWorld(), conn.output, conn.Rest()))
        invariant done ==>
                    Finished(c, totp, env, first, handled, worlds, Turn(AsWorld(), conn.output, conn.Rest()))
        decreases if done then 0 else 1 + |conn.Rest()|
      {
        ghost var turn := Turn(AsWorld(), conn.output, conn.Rest());
        var one;
        one, done := HandleTurn(c, conn, env(|handled|));
        ServingTurn(c, totp, env, first, handled, worlds, turn, one, done, Turn(AsWorld(), conn.output, conn.Rest()));
        if one.Some? {
          handled, worlds := handled + [one.value], worlds + [AsWorld()];
        }
      }
      ChainLogs(totp, worlds, handled, env);
    }
  }

  /** The server, what was written and what is still to be read, between two turns. */
  datatype Turn = Turn(world: World, output: seq<byte>, rest: seq<byte>)

  /** Between two turns: the requests so far are handled and answered, and the others are still on the stream. */
  ghost predicate Serving(c: Codec<Message>, totp: string -> string, env: nat -> Env, first: Turn,
                          handled: seq<Exchange>, worlds: seq<World>, now: Turn)
  {
    && Chain(totp, worlds, handled, env) && worlds[0] == first.world && worlds[|handled|] == now.world
    && ReadAll(c, first.rest).messages == Requests(handled) + ReadAll(c, now.rest).messages
    && now.output == first.output + Wire(c.putUint32, ReplyBodies(c, handled, env))
  }

  /** When the loop is left: without failures all requests are handled and answered. */
  ghost predicate Finished(c: Codec<Message>, totp: string -> string, env: nat -> Env, first: Turn,
                           handled: seq<Exchange>, worlds: seq<World>, now: Turn)
  {
    && Chain(totp, worlds, handled, env) && worlds[0] == first.world && worlds[|handled|] == now.world
    && Requests(handled) <= ReadAll(c, first.rest).messages
    && ((forall i :: Succeeds(env(i))) ==>
          && Requests(handled) == ReadAll(c, first.rest).messages
          && now.output == first.output + Wire(c.putUint32, ReplyBodies(c, handled, env)))
  }

  lemma ServingStarts(c: Codec<Message>, totp: string -> string, env: nat -> Env, first: Turn)
    ensures Serving(c, totp, env, first, [], [first.world], first)
  {
    assert first.output + Wire(c.putUint32, ReplyBodies(c, [], env)) == first.output;
    assert Requests([]) + ReadAll(c, first.rest).messages == ReadAll(c, first.rest).messages;
  }

  /** One turn on: what HandleTurn promises takes the loop to the next turn or out. */
  lemma ServingTurn(c: Codec<Message>, totp: string -> string, env: nat -> Env, first: Turn, handled: seq<Exchange>,
                    worlds: seq<World>, before: Turn, one: Option<Exchange>, done: bool, after: Turn)
    requires Serving(c, totp, env, first, handled, worlds, before)
    requires IsTurn(c, totp, env(|handled|), before, one, done, after)
    ensures var hs := if one.Some? then handled + [one.value] else handled;
            var ws := if one.Some? then worlds + [after.world] else worlds;
            if done then Finished(c, totp, env, first, hs, ws, after)
            else Serving(c, totp, env, first, hs, ws, after)
  {
    TurnRead(c, before.rest, after.rest, handled, one, ReadAll(c, first.rest).messages);
    if one.Some? {
      ChainMore(totp, worlds, handled, env, one.value, after.world);
      if !done {
        WireGrows(c, handled, one.value, env, first.output);
      }
    }
  }

  /** What one turn of the loop does: the contract of HandleTurn. */
  ghost predicate IsTurn(
    c: Codec<Message>, totp: string -> string, env: Env, before: Turn, one: Option<Exchange>, done: bool, after: Turn)
  {
    && (match ReadOne(c, before.rest)
        case Message(m, left) => one.Some? && one.value.request == m && after.rest == left
        case Stopped(_) => one == None)
    && (match one
        case Some(x) =>
          && Handled(totp, before.world, x.request, env, x.reply, after.world)
          && after.output == before.output + Answer(c, env, x.reply)
        case None => after.world == before.world && after.output == before.output)
    && (done <==> one.None? || !Succeeds(env))
  }

  /** What the server writes for a reply: a frame, less what randomness and the two writes take from it. */
  function Answer(c: Codec<Message>, env: Env, reply: Message): seq<byte> {
    if env.iv.None? then []
    else
      var body := SealReply(c, env.iv.value, reply);
      var prefix := LengthPrefix(c.putUint32, body);
      if env.lengthWrite.Cut? then Part(prefix, env.lengthWrite) else prefix + Part(body, env.bodyWrite)
  }

  /** Each request was handled in the state that the ones before it left. */
  ghost predicate Chain(totp: string -> string, worlds: seq<World>, handled: seq<Exchange>, env: nat -> Env) {
    && |worlds| == |handled| + 1
    && forall i :: 0 <= i < |handled| ==>
         Handled(totp, worlds[i], handled[i].request, env(i), handled[i].reply, worlds[i + 1])
  }

  lemma ChainMore(
    totp: string -> string, worlds: seq<World>, handled: seq<Exchange>, env: nat -> Env, one: Exchange, w: World)
    requires Chain(totp, worlds, handled, env)
    requires Handled(totp, worlds[|handled|], one.request, env(|handled|), one.reply, w)
    ensures Chain(totp, worlds + [w], handled + [one], env)
  {
    var ws, hs := worlds + [w], handled + [one];
    forall i | 0 <= i < |hs| ensures Handled(totp, ws[i], hs[i].request, env(i), hs[i].reply, ws[i + 1]) {
      if i < |handled| {
        assert ws[i] == worlds[i] && ws[i + 1] == worlds[i + 1] && hs[i] == handled[i];
      }
    }
  }

  /** Every request has a reply in every state of the server. */
  lemma SomeReply(totp: string -> string, w: World, req: Message, env: Env) returns (reply: Message, w2: World)
    ensures Handled(totp, w, req, env, reply, w2)
  {
    var id := AgentIDOf(req);
    reply, w2 := Refused(if Known(req.kind) then UNREGISTERED else "Unknown request type"), w;
    if req.kind == REGISTER {
      reply, w2 := SomeRegistration(w, req, env);
    } else if req.kind == REQUEST_OTP {
      reply := Message.Message(REQUEST_OTP, OtpReply(w.rows, id, totp));
      w2 := w.(next := NextAfter(w.rows));
    } else if req.kind == HELLO && Allowed(w.rows, req) {
      reply := Message.Message(HELLO, Json.Object(map["agent_id" := Json.Text(id), "payload" := req.data]));
      w2 := if id == "" then w else w.(hello := w.hello[id := env.now]);
    } else if req.kind == LOG && Allowed(w.rows, req) {
      reply := Message.Message(LOG,
        Json.Object(map["agent_id" := Json.Text(id), "result" := Json.Text("log received")]));
      if env.archiveOpens {
        w2 := w.(archive := w.archive + (Archive.Marshal(EntryOf(req, env)) + ['\n']));
      }
    }
  }

  lemma SomeRegistration(w: World, req: Message, env: Env) returns (reply: Message, w2: World)
    ensures Registered(w, req, env, reply, w2)
  {
    var device := DeviceOf(req.data);
    if !env.deviceQueryFails && exists i :: 0 <= i < |w.rows| && w.rows[i].device.hardwareID == device.hardwareID {
      var i :| 0 <= i < |w.rows| && w.rows[i].device.hardwareID == device.hardwareID;
      assert w.rows[i] in w.rows;
      reply, w2 := RegisterReply(w.rows[i]), w;
    } else {
      var added := ManagedClient(env.uuid, Padded(w.next, 3), device, "", None, false);
      reply, w2 := RegisterReply(added), w.(rows := InsertOrReplace(w.rows, added), next := w.next + 1);
    }
  }

  /** So any list of requests can be handled one after the other. */
  lemma {:induction false} ChainExists(totp: string -> string, w: World, messages: seq<Message>, env: nat -> Env)
    returns (handled: seq<Exchange>, worlds: seq<World>)
    ensures Chain(totp, worlds, handled, env) && worlds[0] == w && Requests(handled) == messages
  {
    if messages == [] {
      handled, worlds := [], [w];
    } else {
      var last := |messages| - 1;
      handled, worlds := ChainExists(totp, w, messages[..last], env);
      var reply, w2 := SomeReply(totp, worlds[last], messages[last], env(last));
      ChainMore(totp, worlds, handled, env, Exchange(messages[last], reply), w2);
      handled, worlds := handled + [Exchange(messages[last], reply)], worlds + [w2];
      LastApart(messages);
    }
  }

  /** The request is archived: it is an admitted log entry, and the archive opens. */
  ghost predicate Archives(w: World, req: Message, env: Env) {
    req.kind == LOG && Admitted(w.rows, req) && env.archiveOpens
  }

  /** The entries of the requests that are archived, in order. */
  ghost function Logged(worlds: seq<World>, handled: seq<Exchange>, env: nat -> Env): seq<Archive.LogEntry>
    requires |worlds| == |handled| + 1
  {
    if handled == [] then []
    else
      var last := |handled| - 1;
      var req := handled[last].request;
      Logged(worlds[..|handled|], handled[..last], env)
      + if Archives(worlds[last], req, env(last)) then [EntryOf(req, env(last))] else []
  }

  lemma ArchiveGrows(
    totp: string -> string, w: World, req: Message, env: Env, reply: Message, w2: World)
    requires Handled(totp, w, req, env, reply, w2)
    ensures w2.archive == if Archives(w, req, env) then w.archive + (Archive.Marshal(EntryOf(req, env)) + ['\n'])
        else w.archive
  {}

  /** So the archive has grown by just those entries. */
  lemma {:induction false} ChainLogs(totp: string -> string, worlds: seq<World>, handled: seq<Exchange>,
      env: nat -> Env)
    requires Chain(totp, worlds, handled, env)
    ensures worlds[|handled|].archive == worlds[0].archive + Archive.Written(Logged(worlds, handled, env))
  {
    if handled == [] {
      assert worlds[0].archive + [] == worlds[0].archive;
    } else {
      var last := |handled| - 1;
      var req := handled[last].request;
      ChainLess(totp, worlds, handled, env);
      ChainLogs(totp, worlds[..|handled|], handled[..last], env);
      ArchiveGrows(totp, worlds[last], req, env(last), handled[last].reply, worlds[last + 1]);
      var entries := Logged(worlds[..|handled|], handled[..last], env);
      if Archives(worlds[last], req, env(last)) {
        Archive.WrittenMore(entries, EntryOf(req, env(last)));
        Regroup(worlds[0].archive, Archive.Written(entries), Archive.Marshal(EntryOf(req, env(last))) + ['\n']);
      } else {
        assert entries + [] == entries;
      }
    }
  }

  lemma ChainLess(totp: string -> string, worlds: seq<World>, handled: seq<Exchange>,
      env: nat -> Env)
    requires Chain(totp, worlds, handled, env) && handled != []
    ensures Chain(totp, worlds[..|handled|], handled[..|handled| - 1], env)
  {
    var ws, hs := worlds[..|handled|], handled[..|handled| - 1];
    forall i | 0 <= i < |hs| ensures Handled(totp, ws[i], hs[i].request, env(i), hs[i].reply, ws[i + 1]) {
      assert ws[i] == worlds[i] && ws[i + 1] == worlds[i + 1] && hs[i] == handled[i];
    }
  }

  predicate Succeeds(env: Env) {
    env.iv.Some? && env.lengthWrite.Whole? && env.bodyWrite.Whole?
  }

  function Requests(handled: seq<Exchange>): (r: seq<Message>)
    ensures |r| == |handled|
  {
    seq(|handled|, i requires 0 <= i < |handled| => handled[i].request)
  }

  /** The bodies of the replies, each under its own vector. */
  function ReplyBodies(c: Codec<Message>, handled: seq<Exchange>, env: nat -> Env): seq<seq<byte>> {
    seq(|handled|, i requires 0 <= i < |handled| =>
      if env(i).iv.Some? then SealReply(c, env(i).iv.value, handled[i].reply) else [])
  }

  /** What a turn reads is the next of all the messages on the stream, or there is none left. */
  lemma {:induction false} TurnRead(
    c: Codec<Message>, stream: seq<byte>, rest: seq<byte>, handled: seq<Exchange>, one: Option<Exchange>,
      all: seq<Message>)
    requires all == Requests(handled) + ReadAll(c, stream).messages
    requires match ReadOne(c, stream)
             case Message(m, left) => one.Some? && one.value.request == m && rest == left
             case Stopped(_) => one == None
    ensures one.Some? ==> all == Requests(handled + [one.value]) + ReadAll(c, rest).messages
    ensures one.Some? ==> Requests(handled + [one.value]) <= all
    ensures one.None? ==> all == Requests(handled)
  {
    if one.Some? {
      assert Requests(handled + [one.value]) == Requests(handled) + [one.value.request];
      Regroup(Requests(handled), [one.value.request], ReadAll(c, rest).messages);
    }
  }

  lemma WireGrows(c: Codec<Message>, handled: seq<Exchange>, one: Exchange, env: nat -> Env, start: seq<byte>)
    requires env(|handled|).iv.Some?
    ensures (start + Wire(c.putUint32, ReplyBodies(c, handled, env)))
            + Frame(c.putUint32, SealReply(c, env(|handled|).iv.value, one.reply))
            == start + Wire(c.putUint32, ReplyBodies(c, handled + [one], env))
  {
    OneMoreBody(c, handled, one, env);
    OneMoreFrame(c.putUint32, start, ReplyBodies(c, handled, env), SealReply(c, env(|handled|).iv.value, one.reply));
  }

  lemma OneMoreBody(c: Codec<Message>, handled: seq<Exchange>, one: Exchange, env: nat -> Env)
    requires env(|handled|).iv.Some?
    ensures ReplyBodies(c, handled + [one], env) ==
            ReplyBodies(c, handled, env) + [SealReply(c, env(|handled|).iv.value, one.reply)]
  {
    var now, before := ReplyBodies(c, handled + [one], env), ReplyBodies(c, handled, env);
    assert now[..|handled|] == before;
    LastApart(now);
  }

  lemma {:induction false} OneMoreFrame(put: Put, start: seq<byte>, bodies: seq<seq<byte>>, body: seq<byte>)
    ensures (start + Wire(put, bodies)) + Frame(put, body) == start + Wire(put, bodies + [body])
  {
    WireAppend(put, bodies, [body]);
    WireOne(put, body);
    Regroup(start, Wire(put, bodies), Frame(put, body));
  }

  ghost function OtpReply(rows: seq<ManagedClient>, agentID: string, totp: string -> string): Json {
    var clientID := ScanForClientID(rows, agentID);
    Json.Object(map["agent_id" := Json.Text(agentID),
      "otp" := Json.Text(if clientID != "" then totp(clientID) else "")])
  }

  function EntryOf(req: Message, env: Env): Archive.LogEntry {
    Archive.LogEntry(env.time, AgentIDOf(req), TextField(Member(req.data, "payload"), "message"))
  }

  /**
   The steps of the link that read what one turn reads: a message is two steps that take the same bytes
   off the stream; a length or a body that the server refuses is a step that closes; if bytes are
   missing there is no such step.
   */
  ghost predicate ReadBySteps(e: Ends, s: State, one: One<Message>) {
    var s1 := Step(e, s, Action.ServerReadLength);
    match one
    case Message(m, rest) =>
      && s1.Some? && |rest| <= |s.up| && s.up[|s.up| - |rest|..] == rest
      && Step(e, s1.value, Action.ServerReadBody) == Some(s.(server := Handling(m), upRead := |s.up| - |rest|))
    case Stopped(EndOfStream) => s1 == None
    case Stopped(InvalidLength) => s1.Some? && s1.value.server.Closed?
    case Stopped(CutShort) => s1.Some? ==> Step(e, s1.value, Action.ServerReadBody) == None
    case Stopped(Rejected) =>
      && s1.Some?
      && var s2 := Step(e, s1.value, Action.ServerReadBody);
         s2.Some? && s2.value.server.Closed?
  }

  lemma ServerReadsAreSteps(c: Codec<Message>, s: State)
    requires s.server.AwaitRequest? && s.upRead <= |s.up|
    ensures ReadBySteps(LinkCodec(c), s, ReadOne(c, s.up[s.upRead..]))
  {
    if s.upRead + 4 <= |s.up| {
      var n, found, rest := ReadOneFinds(c, s.up, s.upRead);
      ServerReadSteps(LinkCodec(c), s, n, found, rest, ReadOne(c, s.up[s.upRead..]));
    }
  }

  /** What ReadOne makes of the number on the stream and of the body behind it. */
  function ReadAs(n: uint32, size: nat, found: Option<Message>, rest: seq<byte>): One<Message> {
    if n == 0 || n > MAX_MESSAGE then Stopped(InvalidLength)
    else if size < n then Stopped(CutShort)
    else match found case None => Stopped(Rejected) case Some(m) => One.Message(m, rest)
  }

  lemma ServerReadSteps(e: Ends, s: State, n: uint32, found: Option<Message>, rest: seq<byte>, one: One<Message>)
    requires s.server.AwaitRequest? && s.upRead + 4 <= |s.up| && n == e.get(s.up[s.upRead..s.upRead + 4])
    requires var p := s.upRead + 4;
             p + n <= |s.up| ==> found == e.open(s.up[p..p + n]) && rest == s.up[p + n..]
    requires one == ReadAs(n, |s.up| - (s.upRead + 4), found, rest)
    ensures ReadBySteps(e, s, one)
  {}

  lemma ReadOneFinds(c: Codec<Message>, bytes: seq<byte>, start: nat)
    returns (n: uint32, found: Option<Message>, rest: seq<byte>)
    requires start + 4 <= |bytes|
    ensures var e, p := LinkCodec(c), start + 4;
            && n == e.get(bytes[start..p])
            && (p + n <= |bytes| ==> found == e.open(bytes[p..p + n]) && rest == bytes[p + n..])
            && ReadOne(c, bytes[start..]) == ReadAs(n, |bytes| - p, found, rest)
  {
    var stream, p := bytes[start..], start + 4;
    assert stream[..4] == bytes[start..p];
    n, found, rest := c.getUint32(stream[..4]), None, [];
    if p + n <= |bytes| {
      assert stream[4..][..n] == bytes[p..p + n] && stream[4..][n..] == bytes[p + n..];
      found, rest := Open(c, bytes[p..p + n]), bytes[p + n..];
    }
  }

  /** The reply is one or two steps of the link, which put the same bytes on the stream. */
  lemma ServerWritesAreSteps(c: Codec<Message>, s: State, env: Env, reply: Message)
    requires s.server.Handling? && env.iv.Some? && |SealReply(c, env.iv.value, reply)| < TWO_32
    ensures var e, iv, body := LinkCodec(c), env.iv.value, SealReply(c, env.iv.value, reply);
            var s1 := Step(e, s, Action.ServerReply(reply, iv, Length(env.lengthWrite, 4), env.lengthWrite.Whole?));
            && s1.Some? && s1.value.handled == s.handled + [Exchange(s.server.request, reply)]
            && (env.lengthWrite.Cut? ==> s1.value.server.Closed? && s1.value.down == s.down + Answer(c, env, reply))
            && (env.lengthWrite.Whole? ==>
                  var s2 := Step(e, s1.value,
                                 Action.ServerWriteBody(Length(env.bodyWrite, |body|), env.bodyWrite.Whole?));
                  && s2.Some? && s2.value.down == s.down + Answer(c, env, reply)
                  && s2.value.server == if Succeeds(env) then AwaitRequest else Closed)
  {
    var body := SealReply(c, env.iv.value, reply);
    var prefix := LengthPrefix(c.putUint32, body);
    ServerWriteSteps(LinkCodec(c), s, reply, env.iv.value, env.lengthWrite, env.bodyWrite);
    Regroup(s.down, prefix, Part(body, env.bodyWrite));
  }

  /** The two writing steps in terms of what the writes let through. */
  lemma ServerWriteSteps(e: Ends, s: State, reply: Message, iv: Block, first: Sent, second: Sent)
    requires s.server.Handling? && |e.sealReply(iv, reply)| < TWO_32
    ensures var body := e.sealReply(iv, reply);
            var prefix := LengthPrefix(e.put, body);
            var s1 := Step(e, s, Action.ServerReply(reply, iv, Length(first, 4), first.Whole?));
            && s1.Some? && s1.value.handled == s.handled + [Exchange(s.server.request, reply)]
            && s1.value.down == s.down + Part(prefix, first) && (first.Cut? ==> s1.value.server.Closed?)
            && (first.Whole? ==>
                  var s2 := Step(e, s1.value, Action.ServerWriteBody(Length(second, |body|), second.Whole?));
                  && s2.Some? && s2.value.down == (s.down + prefix) + Part(body, second)
                  && s2.value.server == if second.Whole? then AwaitRequest else Closed)
  {
    var body := e.sealReply(iv, reply);
    var prefix := LengthPrefix(e.put, body);
    assert Part(prefix, first) == prefix[..Length(first, 4)];
    assert Part(body, second) == body[..Length(second, |body|)];
  }

  /** How many of size bytes a Write puts on the stream. */
  function Length(sent: Sent, size: nat): (n: nat)
    ensures n <= size
  {
    match sent case Whole => size case Cut(n) => if n < size then n else size
  }
}
