/**
 One healthy connection from end to end: the client tails its log and sends the lines among its other
 requests, the request loop writes them, the handler takes and archives them, and the archive loads.
 */
module Pipeline {
  import opened Bytes
  import opened Framing
  import opened Link
  import Archive
  import Clients
  import Crypto
  import Handler
  import Lines
  import RequestLoop
  import Tail

  /** The request that carries one line of the log. */
  function LineMessage(agentID: string, line: string): Message {
    Message.Message("log",
      Json.Object(map["agent_id" := Json.Text(agentID), "payload" := Json.Object(map["message" := Json.Text(line)])]))
  }

  /** The requests of the tail; textOf is the text that JSON makes of the bytes of a line. */
  function LineMessages(agentID: string, textOf: seq<byte> -> string, lines: seq<seq<byte>>): seq<Message> {
    seq(|lines|, i requires 0 <= i < |lines| => LineMessage(agentID, textOf(lines[i])))
  }

  /** The log requests among all requests. */
  function LogsOf(messages: seq<Message>): seq<Message> {
    if messages == [] then []
    else
      var last := |messages| - 1;
      LogsOf(messages[..last]) + if messages[last].kind == "log" then [messages[last]] else []
  }

  /** The agent and the text of a log request, and of an archived entry. */
  datatype Line = Line(agentID: string, text: string)

  function LineOf(req: Message): Line {
    Line(Handler.AgentIDOf(req), Handler.TextField(Handler.Member(req.data, "payload"), "message"))
  }

  function LinesOf(requests: seq<Message>): seq<Line> {
    seq(|requests|, i requires 0 <= i < |requests| => LineOf(requests[i]))
  }

  function Entered(entries: seq<Archive.LogEntry>): seq<Line> {
    seq(|entries|, i requires 0 <= i < |entries| => Line(entries[i].agentID, entries[i].message))
  }

  /** The archive loads as these earlier entries and then one entry for each of these lines. */
  predicate LoadsAs(archive: string, earlier: seq<Archive.LogEntry>, lines: seq<Line>) {
    match Archive.Load(archive)
    case None => false
    case Some(entries) =>
      && |entries| == |earlier| + |lines|
      && entries[..|earlier|] == earlier && Entered(entries[|earlier|..]) == lines
  }

  /**
   Both loops on one connection that does not fail: each end reads what the other writes. bodies are
   the sealed requests, all within the server's limit; handled and worlds are what HandleConn returns
   for what the request loop wrote.
   */
  ghost predicate Connected(
    c: Codec<Message>, totp: string -> string, requests: seq<RequestLoop.Request>, bodies: seq<seq<byte>>,
    handled: seq<Exchange>, worlds: seq<Handler.World>, env: nat -> Handler.Env)
  {
    && Faithful(c)
    && RequestLoop.Healthy(LinkCodec(c), requests, bodies)
    && (forall i :: 0 <= i < |bodies| ==> |bodies[i]| <= MAX_MESSAGE)
    && (forall i :: Handler.Succeeds(env(i)))
    && Handler.Chain(totp, worlds, handled, env)
    && Handler.Requests(handled) == ReadAll(c, Loop(c, requests, handled, env).1.output).messages
  }

  /** What the request loop returns and writes when it reads the handler's replies. */
  function Loop(c: Codec<Message>, requests: seq<RequestLoop.Request>, handled: seq<Exchange>,
                env: nat -> Handler.Env): (seq<Option<Message>>, RequestLoop.Line)
  {
    var replies := Wire(c.putUint32, Handler.ReplyBodies(c, handled, env));
    RequestLoop.Turns(LinkCodec(c), RequestLoop.Line([], replies), requests)
  }

  function Sent(requests: seq<RequestLoop.Request>): seq<Message> {
    seq(|requests|, i requires 0 <= i < |requests| => requests[i].msg)
  }

  /** The handler handles the agent's very requests, all of them and in order. */
  lemma EveryRequestIsHandled(
    c: Codec<Message>, totp: string -> string, requests: seq<RequestLoop.Request>, bodies: seq<seq<byte>>,
    handled: seq<Exchange>, worlds: seq<Handler.World>, env: nat -> Handler.Env)
    requires Connected(c, totp, requests, bodies, handled, worlds, env)
    ensures Handler.Requests(handled) == Sent(requests)
  {
    LoopIsRead(c, requests, bodies, handled, env);
  }

  /** Whatever the replies are, what the request loop writes is read as its requests. */
  lemma {:induction false} LoopIsRead(c: Codec<Message>, requests: seq<RequestLoop.Request>, bodies: seq<seq<byte>>,
                   handled: seq<Exchange>, env: nat -> Handler.Env)
    requires Faithful(c) && RequestLoop.Healthy(LinkCodec(c), requests, bodies)
    requires forall i :: 0 <= i < |bodies| ==> |bodies[i]| <= MAX_MESSAGE
    ensures ReadAll(c, Loop(c, requests, handled, env).1.output).messages == Sent(requests)
  {
    var replies := Wire(c.putUint32, Handler.ReplyBodies(c, handled, env));
    RequestLoop.HealthyOutput(LinkCodec(c), RequestLoop.Line([], replies), requests, bodies);
    assert [] + Wire(c.putUint32, bodies) == Wire(c.putUint32, bodies);
    var ivs := HealthyCarries(c, requests, bodies);
    ReadWhole(c, bodies, ivs, Sent(requests));
  }

  lemma HealthyCarries(c: Codec<Message>, requests: seq<RequestLoop.Request>, bodies: seq<seq<byte>>)
    returns (ivs: seq<Block>)
    requires RequestLoop.Healthy(LinkCodec(c), requests, bodies)
    ensures Carries(c, bodies, ivs, Sent(requests))
  {
    ivs := seq(|requests|, i requires 0 <= i < |requests| => requests[i].iv.value);
    forall i | 0 <= i < |bodies|
      ensures var m := Sent(requests)[i];
              c.marshal(m).Some? && bodies[i] == Crypto.Seal(c.block, ivs[i], c.marshal(m).value)
    {
      assert LinkCodec(c).seal(requests[i].iv.value, requests[i].msg) == Some(bodies[i]);
    }
  }

  /** Both loops run to the end: from any state of the server there is such a connection for these requests. */
  lemma ConnectionExists(c: Codec<Message>, totp: string -> string, requests: seq<RequestLoop.Request>,
                         bodies: seq<seq<byte>>, w: Handler.World, env: nat -> Handler.Env)
    requires Faithful(c) && RequestLoop.Healthy(LinkCodec(c), requests, bodies)
    requires forall i :: 0 <= i < |bodies| ==> |bodies[i]| <= MAX_MESSAGE
    requires forall i :: Handler.Succeeds(env(i))
    ensures exists handled, worlds ::
              && Connected(c, totp, requests, bodies, handled, worlds, env)
              && |worlds| == |handled| + 1 && worlds[0] == w
  {
    var handled, worlds := Handler.ChainExists(totp, w, Sent(requests), env);
    LoopIsRead(c, requests, bodies, handled, env);
    assert Connected(c, totp, requests, bodies, handled, worlds, env);
  }

  /** The i-th call returns the very reply that the handler chose for the i-th request. */
  lemma EveryRequestIsAnswered(
    c: Codec<Message>, totp: string -> string, requests: seq<RequestLoop.Request>, bodies: seq<seq<byte>>,
    handled: seq<Exchange>, worlds: seq<Handler.World>, env: nat -> Handler.Env, i: nat)
    requires Connected(c, totp, requests, bodies, handled, worlds, env) && i < |requests|
    requires forall k :: 0 <= k < |handled| ==> |SealReply(c, env(k).iv.value, handled[k].reply)| < TWO_32
    ensures |handled| == |requests| && handled[i].request == requests[i].msg
    ensures c.marshal(handled[i].reply).Some? ==>
              Loop(c, requests, handled, env).0[i] == Some(handled[i].reply)
  {
    EveryRequestIsHandled(c, totp, requests, bodies, handled, worlds, env);
    assert Handler.Requests(handled)[i] == Sent(requests)[i];
    ResponseIsOpened(c, requests, bodies, handled, env, i);
    if c.marshal(handled[i].reply).Some? {
      OpenSealed(c, handled[i].reply, env(i).iv.value);
    }
  }

  lemma ResponseIsOpened(c: Codec<Message>, requests: seq<RequestLoop.Request>, bodies: seq<seq<byte>>,
                         handled: seq<Exchange>, env: nat -> Handler.Env, i: nat)
    requires LengthsAgree(c) && RequestLoop.Healthy(LinkCodec(c), requests, bodies)
    requires i < |handled| == |requests| && forall k :: 0 <= k < |handled| ==> env(k).iv.Some?
    requires forall k :: 0 <= k < |handled| ==> |SealReply(c, env(k).iv.value, handled[k].reply)| < TWO_32
    ensures Loop(c, requests, handled, env).0[i] == Open(c, SealReply(c, env(i).iv.value, handled[i].reply))
  {
    var replies := Handler.ReplyBodies(c, handled, env);
    assert Wire(c.putUint32, replies) + [] == Wire(c.putUint32, replies);
    RequestLoop.ResponsesInOrder(LinkCodec(c), requests, bodies, [], replies, []);
    LinkOpens(c, replies[i]);
  }

  /** No request registers a device, and those that log come from a registered agent and find the archive. */
  ghost predicate Logging(messages: seq<Message>, rows: seq<Clients.ManagedClient>, env: nat -> Handler.Env) {
    forall i :: 0 <= i < |messages| ==>
      && messages[i].kind != Handler.REGISTER
      && (messages[i].kind == Handler.LOG ==> Handler.Allowed(rows, messages[i]) && env(i).archiveOpens)
  }

  /** Then the archive grows by one entry for each log request, in order, whatever else is requested in between. */
  lemma {:induction false} LogsAreArchived(totp: string -> string, worlds: seq<Handler.World>, handled: seq<Exchange>,
                                           env: nat -> Handler.Env)
    requires Handler.Chain(totp, worlds, handled, env) && Logging(Handler.Requests(handled), worlds[0].rows, env)
    ensures worlds[|handled|].rows == worlds[0].rows
    ensures Entered(Handler.Logged(worlds, handled, env)) == LinesOf(LogsOf(Handler.Requests(handled)))
  {
    if handled != [] {
      var last := |handled| - 1;
      Handler.ChainLess(totp, worlds, handled, env);
      assert Handler.Requests(handled)[..last] == Handler.Requests(handled[..last]);
      LogsAreArchived(totp, worlds[..|handled|], handled[..last], env);
      RowsStay(totp, worlds[last], handled[last], env(last), worlds[last + 1]);
      OneMoreRequest(worlds, handled, env);
    }
  }

  lemma RowsStay(totp: string -> string, w: Handler.World, x: Exchange, env: Handler.Env, w2: Handler.World)
    requires Handler.Handled(totp, w, x.request, env, x.reply, w2) && x.request.kind != Handler.REGISTER
    ensures w2.rows == w.rows
  {}

  lemma {:induction false} OneMoreRequest(worlds: seq<Handler.World>, handled: seq<Exchange>, env: nat -> Handler.Env)
    requires |worlds| == |handled| + 1 && handled != []
    requires Logging(Handler.Requests(handled), worlds[|handled| - 1].rows, env)
    requires var last := |handled| - 1;
             Entered(Handler.Logged(worlds[..|handled|], handled[..last], env))
             == LinesOf(LogsOf(Handler.Requests(handled[..last])))
    ensures Entered(Handler.Logged(worlds, handled, env)) == LinesOf(LogsOf(Handler.Requests(handled)))
  {
    var last := |handled| - 1;
    var req := handled[last].request;
    assert Handler.Requests(handled)[..last] == Handler.Requests(handled[..last]);
    assert Handler.Requests(handled)[last] == req;
    if req.kind == Handler.LOG {
      EnteredMore(Handler.Logged(worlds[..|handled|], handled[..last], env), Handler.EntryOf(req, env(last)));
      LinesMore(LogsOf(Handler.Requests(handled[..last])), req);
    } else {
      assert Handler.Logged(worlds, handled, env) == Handler.Logged(worlds[..|handled|], handled[..last], env);
    }
  }

  lemma EnteredMore(entries: seq<Archive.LogEntry>, e: Archive.LogEntry)
    ensures Entered(entries + [e]) == Entered(entries) + [Line(e.agentID, e.message)]
  {}

  lemma LinesMore(requests: seq<Message>, req: Message)
    ensures LinesOf(requests + [req]) == LinesOf(requests) + [LineOf(req)]
  {}

  /** So the archive, whatever connections wrote it before, loads as what they wrote and these lines. */
  lemma {:induction false} LogsAreLoaded(totp: string -> string, worlds: seq<Handler.World>, handled: seq<Exchange>,
                      env: nat -> Handler.Env, earlier: seq<Archive.Append>)
    requires Handler.Chain(totp, worlds, handled, env) && Logging(Handler.Requests(handled), worlds[0].rows, env)
    requires Archive.Run(earlier).Some? && worlds[0].archive == Archive.Run(earlier).value.file
    ensures LoadsAs(worlds[|handled|].archive, Archive.Run(earlier).value.landed,
              LinesOf(LogsOf(Handler.Requests(handled))))
  {
    var landed, entries := Archive.Run(earlier).value.landed, Handler.Logged(worlds, handled, env);
    LogsAreArchived(totp, worlds, handled, env);
    Handler.ChainLogs(totp, worlds, handled, env);
    Archive.RunIsReadThenRest(earlier, Archive.Written(entries));
    Archive.WrittenIsRead(entries, []);
    assert Archive.Written(entries) + [] == Archive.Written(entries) && entries + [] == entries;
    assert (landed + entries)[|landed|..] == entries;
  }

  function LinesFrom(agentID: string, textOf: seq<byte> -> string, lines: seq<seq<byte>>): seq<Line> {
    seq(|lines|, i requires 0 <= i < |lines| => Line(agentID, textOf(lines[i])))
  }

  lemma LinesOfLineMessages(agentID: string, textOf: seq<byte> -> string, lines: seq<seq<byte>>)
    ensures LinesOf(LineMessages(agentID, textOf, lines)) == LinesFrom(agentID, textOf, lines)
  {}

  /** The lines that were sent are those of the file exactly when there are as many. */
  lemma {:induction false} SentIff(p: Tail.Progress, file: seq<byte>, turns: seq<Tail.Turn>)
    requires Tail.Grows(file, p.lastSize, turns) && p.sent == []
    requires forall i :: 0 <= i < |turns| ==> turns[i].Poll? && turns[i].readOk
    ensures var end, sent := Tail.End(p.lastSize, turns), Tail.After(p, file, turns).sent;
            var region := Lines.Payloads(file[p.lastSize..end]);
            && (|sent| == |region| ==> sent == region)
            && (sent == region <==> forall i :: 0 <= i < |turns| ==> Tail.CleanAt(file, p.lastSize, turns[i].size, end))
  {
    Tail.PollsContinue(p, file, turns);
    Tail.ExtraPayloads(file, p.lastSize, turns);
    Tail.PollsSendLinesIff(p, file, turns);
    assert [] + Tail.Handed(file, p.lastSize, turns) == Tail.Handed(file, p.lastSize, turns);
  }

  /** Lines are logged by a registered agent, so all log requests are admitted. */
  lemma {:induction false} LineMessagesAreLogging(messages: seq<Message>, agentID: string, textOf: seq<byte> -> string,
                               lines: seq<seq<byte>>, rows: seq<Clients.ManagedClient>, env: nat -> Handler.Env)
    requires LogsOf(messages) == LineMessages(agentID, textOf, lines)
    requires Clients.HasAgent(rows, agentID) && forall i :: env(i).archiveOpens
    requires forall m :: m in messages ==> m.kind != Handler.REGISTER
    ensures Logging(messages, rows, env)
  {
    forall i | 0 <= i < |messages| && messages[i].kind == Handler.LOG ensures Handler.Allowed(rows, messages[i]) {
      LogIsOfLogs(messages, i);
    }
  }

  lemma {:induction false} LogIsOfLogs(messages: seq<Message>, i: nat)
    requires i < |messages| && messages[i].kind == Handler.LOG
    ensures messages[i] in LogsOf(messages)
  {
    var last := |messages| - 1;
    if i < last {
      LogIsOfLogs(messages[..last], i);
    }
  }

  /**
   From the file to the archive. The client tails its log and sends each line over one connection,
   among hellos and other requests. Then the archive, whatever connections wrote it before, loads as
   what they wrote followed by exactly the non-empty lines of the file, in order, if and only if no
   poll cut a line in two.
   */
  lemma {:induction false} FileReachesTheArchiveIff(
    c: Codec<Message>, totp: string -> string, requests: seq<RequestLoop.Request>, bodies: seq<seq<byte>>,
    handled: seq<Exchange>, worlds: seq<Handler.World>, env: nat -> Handler.Env, earlier: seq<Archive.Append>,
    agentID: string, textOf: seq<byte> -> string, p: Tail.Progress, file: seq<byte>, turns: seq<Tail.Turn>)
    requires Connected(c, totp, requests, bodies, handled, worlds, env)
    requires Archive.Run(earlier).Some? && worlds[0].archive == Archive.Run(earlier).value.file
    requires Clients.HasAgent(worlds[0].rows, agentID) && forall i :: env(i).archiveOpens
    requires forall m :: m in Sent(requests) ==> m.kind != Handler.REGISTER
    requires Tail.Grows(file, p.lastSize, turns) && p.sent == []
    requires forall i :: 0 <= i < |turns| ==> turns[i].Poll? && turns[i].readOk
    requires LogsOf(Sent(requests)) == LineMessages(agentID, textOf, Tail.After(p, file, turns).sent)
    ensures var end := Tail.End(p.lastSize, turns);
            LoadsAs(worlds[|handled|].archive, Archive.Run(earlier).value.landed,
              LinesFrom(agentID, textOf, Lines.Payloads(file[p.lastSize..end])))
            <==> forall i :: 0 <= i < |turns| ==> Tail.CleanAt(file, p.lastSize, turns[i].size, end)
  {
    var sent := Tail.After(p, file, turns).sent;
    var region := Lines.Payloads(file[p.lastSize..Tail.End(p.lastSize, turns)]);
    EveryRequestIsHandled(c, totp, requests, bodies, handled, worlds, env);
    LineMessagesAreLogging(Sent(requests), agentID, textOf, sent, worlds[0].rows, env);
    LogsAreLoaded(totp, worlds, handled, env, earlier);
    LinesOfLineMessages(agentID, textOf, sent);
    SentIff(p, file, turns);
    assert |LinesFrom(agentID, textOf, sent)| == |sent| && |LinesFrom(agentID, textOf, region)| == |region|;
  }
}
