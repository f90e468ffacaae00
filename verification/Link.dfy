/**
 The agent-server link as a step system: any number of Agent.Request calls, the one request loop,
 the two byte streams of the connection, and the server's connection handler. A failed connection
 stays failed, and only the request loop touches it.
 */
module Link {
  import opened Bytes
  import opened Framing
  import Crypto

  /** A JSON value, as json.Unmarshal leaves it in an interface. */
  datatype Json =
    | Null
    | Bool(b: bool)
    | Number(n: real)
    | Text(text: string)
    | List(items: seq<Json>)
    | Object(fields: map<string, Json>)

  datatype Message = Message(kind: string, data: Json)

  /**
   What the two ends do to a message: seal it under a vector (None when json.Marshal fails), and
   open a body again. A reply is sealed even when json.Marshal failed, for the server drops the
   error. LinkCodec below builds these from the real codec.
   */
  datatype Ends = Ends(seal: (Block, Message) -> Option<seq<byte>>,
                       sealReply: (Block, Message) -> seq<byte>,
                       open: seq<byte> -> Option<Message>,
                       put: uint32 -> Word,
                       get: Word -> uint32)

  ghost predicate Sound(c: Ends) {
    && (forall n :: c.get(c.put(n)) == n)
    && (forall iv, m {:trigger c.seal(iv, m)} :: c.seal(iv, m).Some? ==> SealedWell(c, m, c.seal(iv, m).value))
    && (forall iv, m {:trigger c.sealReply(iv, m)} ::
          c.open(c.sealReply(iv, m)).Some? ==> c.open(c.sealReply(iv, m)) == Some(m))
  }

  /** Read up to the length that was announced, the body opens to m; it never does if that wrapped. */
  ghost predicate SealedWell(c: Ends, m: Message, body: seq<byte>) {
    c.open(body[..|body| % TWO_32]) == if |body| < TWO_32 then Some(m) else None
  }

  datatype Response = Reply(msg: Message) | Failed

  /** Offering: blocked on the unbuffered requestChan. Waiting: in the select. */
  datatype Phase = Offering | Waiting | TimedOut | Returned(response: Response)

  /** One call of Agent.Request: its phase, and its own channel with the number of sends so far. */
  datatype Call = Call(msg: Message, phase: Phase, chan: seq<Response>, sends: nat)

  /** Where StartRequestLoop is. */
  datatype Loop =
    | AtHead
    | Dequeued(id: nat)
    | LengthWritten(id: nat)
    | AwaitLength(id: nat)
    | AwaitBody(id: nat, length: nat)
    | Responding(id: nat, response: Response)

  /** Where handleConn is. */
  datatype Server =
    | AwaitRequest
    | AwaitRequestBody(length: nat)
    | Handling(request: Message)
    | ReplyLengthWritten
    | Closed

  /** A request the server handled, and the reply it chose for it. */
  datatype Exchange = Exchange(request: Message, reply: Message)

  /**
   The streams are kept whole, with the readers' positions. requests and requestBodies list, in
   order, the calls whose frame the loop began to write; handled and replyBodies the same for the
   server's replies. framesRead counts the reply frames the loop has read.
   */
  datatype State = State(
    calls: map<nat, Call>, loop: Loop, broken: bool,
    requests: seq<nat>, requestBodies: seq<seq<byte>>, up: seq<byte>, upRead: nat,
    server: Server, handled: seq<Exchange>, replyBodies: seq<seq<byte>>, down: seq<byte>, downRead: nat,
    framesRead: nat)

  function Initial(): State {
    State(map[], AtHead, false, [], [], [], 0, AwaitRequest, [], [], [], 0, 0)
  }

  /**
   A write puts its first n bytes on the stream; ok tells whether it returned without an error, and
   then n is all of them. A read fails at any moment when its ok is false.
   */
  datatype Action =
    | Offer(id: nat, msg: Message)
    | Rendezvous(id: nat)
    | PrepareFails
    | WriteLength(iv: Block, n: nat, ok: bool)
    | WriteBody(n: nat, ok: bool)
    | ReadLength(ok: bool)
    | ReadBody(ok: bool)
    | Deliver
    | Receive(id: nat)
    | TimeOut(id: nat)
    | ServerReadLength
    | ServerReadBody
    | ServerReply(reply: Message, iv: Block, n: nat, ok: bool)
    | ServerWriteBody(n: nat, ok: bool)
    | ServerCloses

  predicate WriteOutcome(n: nat, size: nat, ok: bool) {
    n <= size && (ok ==> n == size)
  }

  /** The connection has failed for good: this request gets an error. */
  function Fail(s: State, id: nat): State {
    s.(broken := true, loop := Responding(id, Failed))
  }

  function Step(c: Ends, s: State, a: Action): Option<State> {
    match a
    case Offer(id, msg) => StepOffer(s, id, msg)
    case Rendezvous(id) => StepRendezvous(s, id)
    case PrepareFails => StepPrepareFails(s)
    case WriteLength(iv, n, ok) => StepWriteLength(c, s, iv, n, ok)
    case WriteBody(n, ok) => StepWriteBody(s, n, ok)
    case ReadLength(ok) => StepReadLength(c, s, ok)
    case ReadBody(ok) => StepReadBody(c, s, ok)
    case Deliver => StepDeliver(s)
    case Receive(id) => StepReceive(s, id)
    case TimeOut(id) => StepTimeOut(s, id)
    case ServerReadLength => StepServerReadLength(c, s)
    case ServerReadBody => StepServerReadBody(c, s)
    case ServerReply(reply, iv, n, ok) => StepServerReply(c, s, reply, iv, n, ok)
    case ServerWriteBody(n, ok) => StepServerWriteBody(s, n, ok)
    case ServerCloses => Some(s.(server := Closed))
  }

  function StepOffer(s: State, id: nat, msg: Message): Option<State> {
    if id in s.calls then None
    else Some(s.(calls := s.calls[id := Call(msg, Offering, [], 0)]))
  }

  function StepRendezvous(s: State, id: nat): Option<State> {
    if !s.loop.AtHead? || id !in s.calls || !s.calls[id].phase.Offering? then None
    else Some(s.(loop := Dequeued(id), calls := s.calls[id := s.calls[id].(phase := Waiting)]))
  }

  /** json.Marshal or Encrypt fails, the latter also when the cipher was never initialised. */
  function StepPrepareFails(s: State): Option<State> {
    if !s.loop.Dequeued? then None
    else Some(s.(loop := Responding(s.loop.id, Failed)))
  }

  function StepReadLength(c: Ends, s: State, ok: bool): Option<State> {
    if !s.loop.AwaitLength? then None
    else if !ok then Some(Fail(s, s.loop.id))
    else if s.broken || |s.down| < s.downRead + 4 then None
    else
      var n := c.get(s.down[s.downRead..s.downRead + 4]);
      Some(s.(loop := AwaitBody(s.loop.id, n), downRead := s.downRead + 4))
  }

  function StepReadBody(c: Ends, s: State, ok: bool): Option<State> {
    if !s.loop.AwaitBody? then None
    else if !ok then Some(Fail(s, s.loop.id))
    else if s.broken || |s.down| < s.downRead + s.loop.length then None
    else
      var body := s.down[s.downRead..s.downRead + s.loop.length];
      var response := match c.open(body) case Some(m) => Reply(m) case None => Failed;
      Some(s.(loop := Responding(s.loop.id, response), downRead := s.downRead + s.loop.length,
        framesRead := s.framesRead + 1))
  }

  /** The send on the call's channel of capacity one. */
  function StepDeliver(s: State): Option<State> {
    if !s.loop.Responding? || s.loop.id !in s.calls || s.calls[s.loop.id].chan != [] then None
    else
      var call := s.calls[s.loop.id];
      var answered := call.(chan := [s.loop.response], sends := call.sends + 1);
      Some(s.(loop := AtHead, calls := s.calls[s.loop.id := answered]))
  }

  function StepReceive(s: State, id: nat): Option<State> {
    if id !in s.calls || !s.calls[id].phase.Waiting? || s.calls[id].chan == [] then None
    else
      var call := s.calls[id];
      Some(s.(calls := s.calls[id := call.(phase := Returned(call.chan[0]), chan := call.chan[1..])]))
  }

  function StepTimeOut(s: State, id: nat): Option<State> {
    if id !in s.calls || !s.calls[id].phase.Waiting? then None
    else Some(s.(calls := s.calls[id := s.calls[id].(phase := TimedOut)]))
  }

  function StepServerReadLength(c: Ends, s: State): Option<State> {
    if !s.server.AwaitRequest? || |s.up| < s.upRead + 4 then None
    else
      var n := c.get(s.up[s.upRead..s.upRead + 4]);
      Some(s.(upRead := s.upRead + 4,
              server := if n == 0 || n > MAX_MESSAGE then Closed else AwaitRequestBody(n)))
  }

  function StepServerReadBody(c: Ends, s: State): Option<State> {
    if !s.server.AwaitRequestBody? || |s.up| < s.upRead + s.server.length then None
    else
      var body := s.up[s.upRead..s.upRead + s.server.length];
      Some(s.(upRead := s.upRead + s.server.length,
              server := match c.open(body) case Some(m) => Handling(m) case None => Closed))
  }

  function StepServerWriteBody(s: State, n: nat, ok: bool): Option<State> {
    if !s.server.ReplyLengthWritten? || s.replyBodies == [] then None
    else
      var body := s.replyBodies[|s.replyBodies| - 1];
      if !WriteOutcome(n, |body|, ok) then None
      else Some(s.(down := s.down + body[..n], server := if ok then AwaitRequest else Closed))
  }

  function StepWriteLength(c: Ends, s: State, iv: Block, n: nat, ok: bool): Option<State> {
    if !s.loop.Dequeued? || s.loop.id !in s.calls || c.seal(iv, s.calls[s.loop.id].msg).None? then None
    else if s.broken then (if ok then None else Some(Fail(s, s.loop.id)))
    else if !WriteOutcome(n, 4, ok) then None
    else
      var body := c.seal(iv, s.calls[s.loop.id].msg).value;
      var s' := s.(requests := s.requests + [s.loop.id], requestBodies := s.requestBodies + [body],
                   up := s.up + LengthPrefix(c.put, body)[..n], loop := LengthWritten(s.loop.id));
      Some(if ok then s' else Fail(s', s.loop.id))
  }

  function StepWriteBody(s: State, n: nat, ok: bool): Option<State> {
    if !s.loop.LengthWritten? || s.broken || s.requestBodies == [] then None
    else
      var body := s.requestBodies[|s.requestBodies| - 1];
      if !WriteOutcome(n, |body|, ok) then None
      else
        var s' := s.(up := s.up + body[..n], loop := AwaitLength(s.loop.id));
        Some(if ok then s' else Fail(s', s.loop.id))
  }

  /** The handler may choose any reply; only replies below 4 GiB are considered. */
  function StepServerReply(c: Ends, s: State, reply: Message, iv: Block, n: nat, ok: bool): Option<State> {
    var body := c.sealReply(iv, reply);
    if !s.server.Handling? || !WriteOutcome(n, 4, ok) || |body| >= TWO_32 then None
    else Some(s.(handled := s.handled + [Exchange(s.server.request, reply)],
                 replyBodies := s.replyBodies + [body],
                 down := s.down + LengthPrefix(c.put, body)[..n],
                 server := if ok then ReplyLengthWritten else Closed))
  }

  function Run(c: Ends, actions: seq<Action>): Option<State> {
    if actions == [] then Some(Initial())
    else
      match Run(c, actions[..|actions| - 1])
      case None => None
      case Some(s) => Step(c, s, actions[|actions| - 1])
  }

  /** The response is an error, or the server's reply to the request frame of this very call. */
  ghost predicate Genuine(s: State, id: nat, r: Response) {
    r.Failed?
    || exists j :: 0 <= j < |s.handled| && j < |s.requests| && s.requests[j] == id
                   && id in s.calls && s.handled[j] == Exchange(s.calls[id].msg, r.msg)
  }

  /** Frames on a stream of which at most the last is incomplete. */
  ghost predicate Carried(put: Put, bodies: seq<seq<byte>>, bytes: seq<byte>) {
    && bytes <= Wire(put, bodies)
    && (bodies != [] ==> |Wire(put, bodies[..|bodies| - 1])| <= |bytes|)
  }

  /** Every frame complete but the last, of which only the length is there. */
  ghost predicate AtLength(put: Put, bodies: seq<seq<byte>>, bytes: seq<byte>) {
    && bodies != []
    && bytes == Wire(put, bodies[..|bodies| - 1]) + LengthPrefix(put, bodies[|bodies| - 1])
  }

  ghost predicate HistoryInv(c: Ends, s: State) {
    && |s.requests| == |s.requestBodies|
    && |s.handled| == |s.replyBodies|
    && (forall i, j :: 0 <= i < j < |s.requests| ==> s.requests[i] != s.requests[j])
    && (forall i :: 0 <= i < |s.requests| ==> RequestInv(c, s, s.requests[i], s.requestBodies[i]))
    && (forall j :: 0 <= j < |s.handled| ==> ReplyInv(c, s.handled[j], s.replyBodies[j]))
  }

  ghost predicate RequestInv(c: Ends, s: State, id: nat, body: seq<byte>) {
    && id in s.calls && !s.calls[id].phase.Offering?
    && exists iv :: c.seal(iv, s.calls[id].msg) == Some(body)
  }

  ghost predicate ReplyInv(c: Ends, x: Exchange, body: seq<byte>) {
    && |body| < TWO_32
    && exists iv :: body == c.sealReply(iv, x.reply)
  }

  function Served(s: State): nat {
    |s.handled| + if s.server.Handling? then 1 else 0
  }

  /** The server has handled a prefix of the requests, each under its own message. */
  ghost predicate ServerInv(c: Ends, s: State)
    requires |s.requests| == |s.requestBodies| && |s.handled| == |s.replyBodies|
  {
    && Served(s) <= |s.requests|
    && (forall j :: 0 <= j < |s.handled| ==>
          s.requests[j] in s.calls && s.handled[j].request == s.calls[s.requests[j]].msg)
    && (s.server.Handling? ==>
          var id := s.requests[|s.handled|]; id in s.calls && s.server.request == s.calls[id].msg)
    && (s.server.AwaitRequestBody? ==>
          && Served(s) < |s.requests|
          && s.server.length == |s.requestBodies[Served(s)]| % TWO_32
          && 0 < s.server.length <= MAX_MESSAGE)
    && (!s.server.Closed? ==>
          s.upRead == |Wire(c.put, s.requestBodies[..Served(s)])| + if s.server.AwaitRequestBody? then 4 else 0)
    && (if s.server.ReplyLengthWritten? then AtLength(c.put, s.replyBodies, s.down)
        else if s.server.Closed? then Carried(c.put, s.replyBodies, s.down)
        else s.down == Wire(c.put, s.replyBodies))
  }

  function Pending(s: State): nat {
    if s.loop.LengthWritten? || s.loop.AwaitLength? || s.loop.AwaitBody? then 1 else 0
  }

  /** On a healthy connection, frames written and frames read differ by the one under way. */
  ghost predicate ClientInv(c: Ends, s: State)
    requires |s.requests| == |s.requestBodies| && |s.handled| == |s.replyBodies|
  {
    && s.framesRead <= |s.handled|
    && (if s.broken then Carried(c.put, s.requestBodies, s.up)
        else if s.loop.LengthWritten? then AtLength(c.put, s.requestBodies, s.up)
        else s.up == Wire(c.put, s.requestBodies))
    && (s.broken ==> !s.loop.LengthWritten? && !s.loop.AwaitLength? && !s.loop.AwaitBody?)
    && (!s.broken ==>
          && |s.requests| == s.framesRead + Pending(s)
          && (Pending(s) == 1 ==> s.requests[s.framesRead] == s.loop.id)
          && s.downRead == |Wire(c.put, s.replyBodies[..s.framesRead])| + (if s.loop.AwaitBody? then 4 else 0)
          && (s.loop.AwaitBody? ==>
                s.framesRead < |s.handled| && s.loop.length == |s.replyBodies[s.framesRead]|))
  }

  /** Each call has had exactly one send once the loop is done with it, and none before. */
  ghost predicate CallsInv(s: State) {
    && (!s.loop.AtHead? ==>
          && s.loop.id in s.calls
          && !s.calls[s.loop.id].phase.Offering?
          && s.calls[s.loop.id].sends == 0)
    && (s.loop.Dequeued? ==> s.loop.id !in s.requests)
    && (s.loop.Responding? ==> Genuine(s, s.loop.id, s.loop.response))
    && forall id :: id in s.calls ==> CallInv(s, id)
  }

  ghost predicate CallInv(s: State, id: nat)
    requires id in s.calls
  {
    var call := s.calls[id];
    && call.sends <= 1
    && (call.phase.Offering? ==> call.sends == 0)
    && (call.sends == 0 && !call.phase.Offering? ==> !s.loop.AtHead? && s.loop.id == id)
    && |call.chan| == (if call.sends == 1 && !call.phase.Returned? then 1 else 0)
    && (call.phase.Returned? ==> call.sends == 1 && Genuine(s, id, call.phase.response))
    && forall r :: r in call.chan ==> Genuine(s, id, r)
  }

  ghost predicate Inv(c: Ends, s: State) {
    HistoryInv(c, s) && ServerInv(c, s) && ClientInv(c, s) && CallsInv(s)
  }

  /** s2 continues the histories of s and keeps every call's message. */
  ghost predicate Extends(s: State, s2: State) {
    && s.handled <= s2.handled
    && s.requests <= s2.requests
    && forall id :: id in s.calls ==> id in s2.calls && s2.calls[id].msg == s.calls[id].msg
  }

  lemma GenuineKept(s: State, s2: State, id: nat, r: Response)
    requires Extends(s, s2) && Genuine(s, id, r)
    ensures Genuine(s2, id, r)
  {
    if !r.Failed? {
      var j :| 0 <= j < |s.handled| && j < |s.requests| && s.requests[j] == id
               && id in s.calls && s.handled[j] == Exchange(s.calls[id].msg, r.msg);
      assert s2.requests[j] == id && s2.handled[j] == s.handled[j];
    }
  }

  /** A step that leaves every call alone keeps what is known of the calls. */
  lemma CallsKept(s: State, s2: State)
    requires CallsInv(s) && Extends(s, s2) && s2.calls == s.calls
    requires !s.loop.AtHead? ==> !s2.loop.AtHead? && s2.loop.id == s.loop.id
    requires s.loop.AtHead? ==> s2.loop.AtHead?
    requires s2.loop.Dequeued? ==> s2.loop.id !in s2.requests
    requires s2.loop.Responding? && s2.loop != s.loop ==> Genuine(s2, s2.loop.id, s2.loop.response)
    ensures CallsInv(s2)
  {
    if s2.loop.Responding? && s2.loop == s.loop {
      GenuineKept(s, s2, s.loop.id, s.loop.response);
    }
    forall id | id in s2.calls ensures CallInv(s2, id) {
      assert CallInv(s, id);
      var call := s.calls[id];
      if call.phase.Returned? {
        GenuineKept(s, s2, id, call.phase.response);
      }
      forall r | r in call.chan ensures Genuine(s2, id, r) {
        GenuineKept(s, s2, id, r);
      }
    }
  }

  lemma UpIsWire(c: Ends, s: State)
    requires |s.requests| == |s.requestBodies| && |s.handled| == |s.replyBodies|
    requires ClientInv(c, s)
    ensures s.up <= Wire(c.put, s.requestBodies)
  {
    if s.loop.LengthWritten? && !s.broken {
      AtLengthIsPrefix(c.put, s.requestBodies, s.up);
    }
  }

  lemma DownIsWire(c: Ends, s: State)
    requires |s.requests| == |s.requestBodies| && |s.handled| == |s.replyBodies|
    requires ServerInv(c, s)
    ensures s.down <= Wire(c.put, s.replyBodies)
  {
    if s.server.ReplyLengthWritten? {
      AtLengthIsPrefix(c.put, s.replyBodies, s.down);
    }
  }

  lemma {:induction false} AtLengthIsPrefix(put: Put, bodies: seq<seq<byte>>, bytes: seq<byte>)
    requires AtLength(put, bodies, bytes)
    ensures bytes <= Wire(put, bodies) && Carried(put, bodies, bytes)
  {
    LastFrame(put, bodies);
  }

  lemma {:induction false} LastFrame(put: Put, bodies: seq<seq<byte>>)
    requires bodies != []
    ensures var last := |bodies| - 1;
            Wire(put, bodies) == Wire(put, bodies[..last]) + LengthPrefix(put, bodies[last]) + bodies[last]
  {
    WireAt(put, bodies, |bodies| - 1);
    assert bodies[..|bodies|] == bodies;
  }

  /** A further frame, of which only n bytes of the length reach the stream. */
  lemma {:induction false} StartFrame(put: Put, bodies: seq<seq<byte>>, body: seq<byte>, n: nat)
    requires n <= 4
    ensures Carried(put, bodies + [body], Wire(put, bodies) + LengthPrefix(put, body)[..n])
    ensures AtLength(put, bodies + [body], Wire(put, bodies) + LengthPrefix(put, body))
    ensures LengthPrefix(put, body)[..4] == LengthPrefix(put, body)
  {
    var more := bodies + [body];
    assert more[..|bodies|] == bodies;
    LastFrame(put, more);
    assert LengthPrefix(put, body) == LengthPrefix(put, body)[..n] + LengthPrefix(put, body)[n..];
  }

  /** n bytes of the body follow the length. */
  lemma {:induction false} FinishFrame(put: Put, bodies: seq<seq<byte>>, bytes: seq<byte>, n: nat)
    requires AtLength(put, bodies, bytes) && n <= |bodies[|bodies| - 1]|
    ensures Carried(put, bodies, bytes + bodies[|bodies| - 1][..n])
    ensures n == |bodies[|bodies| - 1]| ==> bytes + bodies[|bodies| - 1][..n] == Wire(put, bodies)
  {
    var body := bodies[|bodies| - 1];
    LastFrame(put, bodies);
    assert body == body[..n] + body[n..];
  }

  lemma {:induction false} WireIsCarried(put: Put, bodies: seq<seq<byte>>)
    ensures Carried(put, bodies, Wire(put, bodies))
  {
    if bodies != [] {
      LastFrame(put, bodies);
    }
  }

  /** The client's side moved; the histories and the server's part of the invariant do not notice. */
  lemma ServerSideKept(c: Ends, s: State, s2: State)
    requires HistoryInv(c, s) && ServerInv(c, s)
    requires s2 == s.(calls := s2.calls, loop := s2.loop, broken := s2.broken,
                      up := s2.up, downRead := s2.downRead, framesRead := s2.framesRead)
    requires forall id :: id in s.calls ==>
               && id in s2.calls && s2.calls[id].msg == s.calls[id].msg
               && (s2.calls[id].phase.Offering? ==> s.calls[id].phase.Offering?)
    ensures HistoryInv(c, s2) && ServerInv(c, s2)
  {
    forall i | 0 <= i < |s.requests| ensures RequestInv(c, s2, s2.requests[i], s2.requestBodies[i]) {
      assert RequestInv(c, s, s.requests[i], s.requestBodies[i]);
    }
  }

  lemma OfferKeepsInv(c: Ends, s: State, id: nat, msg: Message)
    requires Inv(c, s) && id !in s.calls
    ensures Inv(c, StepOffer(s, id, msg).value)
  {
    var s2 := StepOffer(s, id, msg).value;
    ServerSideKept(c, s, s2);
    ChangedCallKeepsInv(s, s2, id);
  }

  lemma ReceiveKeepsCalls(s: State, id: nat)
    requires CallsInv(s) && StepReceive(s, id).Some?
    ensures CallsInv(StepReceive(s, id).value)
  {
    var s2 := StepReceive(s, id).value;
    assert CallInv(s, id);
    GenuineKept(s, s2, id, s.calls[id].chan[0]);
    ChangedCallKeepsInv(s, s2, id);
  }

  lemma ReceiveKeepsInv(c: Ends, s: State, id: nat)
    requires Inv(c, s) && StepReceive(s, id).Some?
    ensures Inv(c, StepReceive(s, id).value)
  {
    ServerSideKept(c, s, StepReceive(s, id).value);
    ReceiveKeepsCalls(s, id);
  }

  lemma TimeOutKeepsCalls(s: State, id: nat)
    requires CallsInv(s) && StepTimeOut(s, id).Some?
    ensures CallsInv(StepTimeOut(s, id).value)
  {
    var s2 := StepTimeOut(s, id).value;
    assert CallInv(s, id);
    forall r | r in s.calls[id].chan ensures Genuine(s2, id, r) {
      GenuineKept(s, s2, id, r);
    }
    ChangedCallKeepsInv(s, s2, id);
  }

  lemma TimeOutKeepsInv(c: Ends, s: State, id: nat)
    requires Inv(c, s) && StepTimeOut(s, id).Some?
    ensures Inv(c, StepTimeOut(s, id).value)
  {
    ServerSideKept(c, s, StepTimeOut(s, id).value);
    TimeOutKeepsCalls(s, id);
  }

  lemma RendezvousKeepsInv(c: Ends, s: State, id: nat)
    requires Inv(c, s) && StepRendezvous(s, id).Some?
    ensures Inv(c, StepRendezvous(s, id).value)
  {
    var s2 := StepRendezvous(s, id).value;
    ServerSideKept(c, s, s2);
    assert CallInv(s, id);
    forall k | k in s2.calls && k != id ensures CallInv(s2, k) {
      assert CallInv(s, k);
      OtherCallKept(s, s2, k);
    }
    forall i | 0 <= i < |s.requests| ensures s.requests[i] != id {
      assert RequestInv(c, s, s.requests[i], s.requestBodies[i]);
    }
  }

  lemma DeliverKeepsCalls(s: State)
    requires CallsInv(s) && StepDeliver(s).Some?
    ensures CallsInv(StepDeliver(s).value)
  {
    var s2, id := StepDeliver(s).value, s.loop.id;
    assert CallInv(s, id);
    GenuineKept(s, s2, id, s.loop.response);
    forall k | k in s2.calls && k != id ensures CallInv(s2, k) {
      assert CallInv(s, k);
      OtherCallKept(s, s2, k);
    }
  }

  lemma DeliverKeepsInv(c: Ends, s: State)
    requires Inv(c, s) && StepDeliver(s).Some?
    ensures Inv(c, StepDeliver(s).value)
  {
    ServerSideKept(c, s, StepDeliver(s).value);
    DeliverKeepsCalls(s);
  }

  lemma PrepareFailsKeepsInv(c: Ends, s: State)
    requires Inv(c, s) && StepPrepareFails(s).Some?
    ensures Inv(c, StepPrepareFails(s).value)
  {
    var s2 := StepPrepareFails(s).value;
    ServerSideKept(c, s, s2);
    CallsKept(s, s2);
  }

  /** The connection fails under the loop: histories, server and calls are as before. */
  lemma FailKeepsInv(c: Ends, s: State)
    requires Inv(c, s) && !s.loop.AtHead? && !s.loop.LengthWritten?
    ensures Inv(c, Fail(s, s.loop.id))
  {
    var s2 := Fail(s, s.loop.id);
    FailKeepsClient(c, s);
    ServerSideKept(c, s, s2);
    CallsKept(s, s2);
  }

  lemma FailKeepsClient(c: Ends, s: State)
    requires |s.requests| == |s.requestBodies| && |s.handled| == |s.replyBodies|
    requires ClientInv(c, s) && !s.loop.AtHead? && !s.loop.LengthWritten?
    ensures ClientInv(c, Fail(s, s.loop.id))
  {
    WireIsCarried(c.put, s.requestBodies);
  }

  lemma WriteLengthKeepsInv(c: Ends, s: State, iv: Block, n: nat, ok: bool)
    requires Inv(c, s) && StepWriteLength(c, s, iv, n, ok).Some?
    ensures Inv(c, StepWriteLength(c, s, iv, n, ok).value)
  {
    if s.broken {
      FailKeepsInv(c, s);
    } else {
      WriteLengthKeepsHistory(c, s, iv, n, ok);
      WriteLengthKeepsClient(c, s, iv, n, ok);
      CallsKept(s, StepWriteLength(c, s, iv, n, ok).value);
    }
  }

  lemma WriteLengthKeepsHistory(c: Ends, s: State, iv: Block, n: nat, ok: bool)
    requires HistoryInv(c, s) && ServerInv(c, s) && CallsInv(s)
    requires !s.broken && StepWriteLength(c, s, iv, n, ok).Some?
    ensures HistoryInv(c, StepWriteLength(c, s, iv, n, ok).value)
    ensures ServerInv(c, StepWriteLength(c, s, iv, n, ok).value)
  {
    var s2 := StepWriteLength(c, s, iv, n, ok).value;
    forall i | 0 <= i < |s2.requests| ensures RequestInv(c, s2, s2.requests[i], s2.requestBodies[i]) {
      if i < |s.requests| {
        assert RequestInv(c, s, s.requests[i], s.requestBodies[i]);
      } else {
        assert c.seal(iv, s.calls[s.loop.id].msg) == Some(s2.requestBodies[i]);
      }
    }
    WriteLengthKeepsServer(c, s, s2);
  }

  lemma WriteLengthKeepsServer(c: Ends, s: State, s2: State)
    requires |s.requests| == |s.requestBodies| && |s.handled| == |s.replyBodies|
    requires ServerInv(c, s) && s.requests <= s2.requests && s.requestBodies <= s2.requestBodies
    requires |s2.requests| == |s2.requestBodies|
    requires s2 == s.(requests := s2.requests, requestBodies := s2.requestBodies, up := s2.up, loop := s2.loop,
        broken := s2.broken)
    ensures ServerInv(c, s2)
  {
    assert s2.requestBodies[..Served(s)] == s.requestBodies[..Served(s)];
  }

  lemma WriteLengthKeepsClient(c: Ends, s: State, iv: Block, n: nat, ok: bool)
    requires |s.requests| == |s.requestBodies| && |s.handled| == |s.replyBodies|
    requires ClientInv(c, s) && !s.broken && StepWriteLength(c, s, iv, n, ok).Some?
    ensures ClientInv(c, StepWriteLength(c, s, iv, n, ok).value)
  {
    StartFrame(c.put, s.requestBodies, c.seal(iv, s.calls[s.loop.id].msg).value, n);
  }

  lemma WriteBodyKeepsInv(c: Ends, s: State, n: nat, ok: bool)
    requires Inv(c, s) && StepWriteBody(s, n, ok).Some?
    ensures Inv(c, StepWriteBody(s, n, ok).value)
  {
    var s2 := StepWriteBody(s, n, ok).value;
    WriteBodyKeepsClient(c, s, n, ok);
    ServerSideKept(c, s, s2);
    CallsKept(s, s2);
  }

  lemma WriteBodyKeepsClient(c: Ends, s: State, n: nat, ok: bool)
    requires |s.requests| == |s.requestBodies| && |s.handled| == |s.replyBodies|
    requires ClientInv(c, s) && StepWriteBody(s, n, ok).Some?
    ensures ClientInv(c, StepWriteBody(s, n, ok).value)
  {
    FinishFrame(c.put, s.requestBodies, s.up, n);
  }

  lemma ReadLengthKeepsInv(c: Ends, s: State, ok: bool)
    requires Sound(c) && Inv(c, s) && StepReadLength(c, s, ok).Some?
    ensures Inv(c, StepReadLength(c, s, ok).value)
  {
    if !ok {
      FailKeepsInv(c, s);
    } else {
      var s2 := StepReadLength(c, s, ok).value;
      ReadLengthKeepsClient(c, s);
      ServerSideKept(c, s, s2);
      CallsKept(s, s2);
    }
  }

  lemma ReadLengthKeepsClient(c: Ends, s: State)
    requires Sound(c) && HistoryInv(c, s) && ServerInv(c, s) && ClientInv(c, s)
    requires StepReadLength(c, s, true).Some?
    ensures ClientInv(c, StepReadLength(c, s, true).value)
  {
    DownIsWire(c, s);
    ReadLengthFinds(c, s);
  }

  /** The four bytes that the loop reads are the length of the next reply. */
  lemma ReadLengthFinds(c: Ends, s: State)
    requires Sound(c) && HistoryInv(c, s) && s.framesRead <= |s.handled|
    requires s.down <= Wire(c.put, s.replyBodies) && s.downRead == |Wire(c.put, s.replyBodies[..s.framesRead])|
    requires s.downRead + 4 <= |s.down|
    ensures s.framesRead < |s.handled|
    ensures c.get(s.down[s.downRead..s.downRead + 4]) == |s.replyBodies[s.framesRead]|
  {
    LengthAtFrame(c.put, s.replyBodies, s.down, s.framesRead);
    assert ReplyInv(c, s.handled[s.framesRead], s.replyBodies[s.framesRead]);
  }

  lemma ReadBodyKeepsInv(c: Ends, s: State, ok: bool)
    requires Sound(c) && Inv(c, s) && StepReadBody(c, s, ok).Some?
    ensures Inv(c, StepReadBody(c, s, ok).value)
  {
    if !ok {
      FailKeepsInv(c, s);
    } else {
      var s2 := StepReadBody(c, s, ok).value;
      ReadBodyFinds(c, s);
      ReadBodyIsGenuine(c, s);
      ServerSideKept(c, s, s2);
      CallsKept(s, s2);
    }
  }

  /** The body under way is the whole body of reply framesRead. */
  lemma ReadBodyFinds(c: Ends, s: State)
    requires HistoryInv(c, s) && ServerInv(c, s) && ClientInv(c, s)
    requires StepReadBody(c, s, true).Some?
    ensures var k := s.framesRead;
            && k < |s.handled| && s.requests[k] == s.loop.id
            && s.down[s.downRead..s.downRead + s.loop.length] == s.replyBodies[k]
            && s.downRead + s.loop.length == |Wire(c.put, s.replyBodies[..k + 1])|
  {
    var body := s.replyBodies[s.framesRead];
    DownIsWire(c, s);
    BodyAtFrame(c.put, s.replyBodies, s.down, s.framesRead, |body|);
    assert body[..|body|] == body;
  }

  lemma ReadBodyIsGenuine(c: Ends, s: State)
    requires Sound(c) && HistoryInv(c, s) && ServerInv(c, s)
    requires StepReadBody(c, s, true).Some? && s.framesRead < |s.handled|
    requires s.requests[s.framesRead] == s.loop.id
    requires s.down[s.downRead..s.downRead + s.loop.length] == s.replyBodies[s.framesRead]
    ensures var s2 := StepReadBody(c, s, true).value; Genuine(s2, s.loop.id, s2.loop.response)
  {
    assert ReplyInv(c, s.handled[s.framesRead], s.replyBodies[s.framesRead]);
  }

  lemma ServerReadLengthKeepsInv(c: Ends, s: State)
    requires Sound(c) && Inv(c, s) && StepServerReadLength(c, s).Some?
    ensures Inv(c, StepServerReadLength(c, s).value)
  {
    UpIsWire(c, s);
    ServerReadLengthKeepsServer(c, s);
    ServerChangeKeepsOthers(c, s, StepServerReadLength(c, s).value);
  }

  lemma ServerReadLengthKeepsServer(c: Ends, s: State)
    requires |s.requests| == |s.requestBodies| && |s.handled| == |s.replyBodies|
    requires s.up <= Wire(c.put, s.requestBodies) && Sound(c)
    requires ServerInv(c, s) && StepServerReadLength(c, s).Some?
    ensures ServerInv(c, StepServerReadLength(c, s).value)
  {
    LengthAtFrame(c.put, s.requestBodies, s.up, Served(s));
    WireIsCarried(c.put, s.replyBodies);
  }

  /** The server moved without adding to a history. */
  lemma ServerChangeKeepsOthers(c: Ends, s: State, s2: State)
    requires HistoryInv(c, s) && ClientInv(c, s) && CallsInv(s)
    requires s2 == s.(server := s2.server, upRead := s2.upRead, down := s2.down)
    ensures HistoryInv(c, s2) && ClientInv(c, s2) && CallsInv(s2)
  {
    forall i | 0 <= i < |s.requests| ensures RequestInv(c, s2, s2.requests[i], s2.requestBodies[i]) {
      assert RequestInv(c, s, s.requests[i], s.requestBodies[i]);
    }
    CallsKept(s, s2);
  }

  /** The server either takes the very message of the next call or closes the connection. */
  lemma ServerReadBodyTakesRequest(c: Ends, s: State)
    requires Sound(c) && HistoryInv(c, s) && ServerInv(c, s) && StepServerReadBody(c, s).Some?
    requires s.up <= Wire(c.put, s.requestBodies)
    ensures var s2, k := StepServerReadBody(c, s).value, Served(s);
            s.requests[k] in s.calls &&
            (s2.server.Closed? ||
             (&& s2.server == Handling(s.calls[s.requests[k]].msg)
              && s2.upRead == |Wire(c.put, s.requestBodies[..k + 1])|))
  {
    ServerReadBodyFinds(c, s);
    RequestIsSealedWell(c, s, Served(s));
  }

  /** The bytes that the server reads are those of the next request, up to the length that was announced. */
  lemma ServerReadBodyFinds(c: Ends, s: State)
    requires |s.requests| == |s.requestBodies| && |s.handled| == |s.replyBodies|
    requires ServerInv(c, s) && StepServerReadBody(c, s).Some? && s.up <= Wire(c.put, s.requestBodies)
    ensures var k := Served(s);
            && k < |s.requests| && s.server.length == |s.requestBodies[k]| % TWO_32
            && s.up[s.upRead..s.upRead + s.server.length] == s.requestBodies[k][..s.server.length]
            && (|s.requestBodies[k]| < TWO_32 ==>
                  s.upRead + s.server.length == |Wire(c.put, s.requestBodies[..k + 1])|)
  {
    BodyAtFrame(c.put, s.requestBodies, s.up, Served(s), s.server.length);
  }

  lemma RequestIsSealedWell(c: Ends, s: State, k: nat)
    requires Sound(c) && HistoryInv(c, s) && k < |s.requests|
    ensures s.requests[k] in s.calls && SealedWell(c, s.calls[s.requests[k]].msg, s.requestBodies[k])
  {
    assert RequestInv(c, s, s.requests[k], s.requestBodies[k]);
    var m := s.calls[s.requests[k]].msg;
    var iv :| c.seal(iv, m) == Some(s.requestBodies[k]);
    assert SealedWell(c, m, s.requestBodies[k]);
  }

  lemma ServerReadBodyKeepsInv(c: Ends, s: State)
    requires Sound(c) && Inv(c, s) && StepServerReadBody(c, s).Some?
    ensures Inv(c, StepServerReadBody(c, s).value)
  {
    var s2 := StepServerReadBody(c, s).value;
    UpIsWire(c, s);
    ServerReadBodyTakesRequest(c, s);
    RequestTakenKeepsServer(c, s, s2);
    ServerChangeKeepsOthers(c, s, s2);
  }

  lemma RequestTakenKeepsServer(c: Ends, s: State, s2: State)
    requires |s.requests| == |s.requestBodies| && |s.handled| == |s.replyBodies|
    requires ServerInv(c, s) && s.server.AwaitRequestBody?
    requires s2 == s.(server := s2.server, upRead := s2.upRead)
    requires s.requests[Served(s)] in s.calls
    requires s2.server.Closed? ||
             (&& s2.server == Handling(s.calls[s.requests[Served(s)]].msg)
              && s2.upRead == |Wire(c.put, s.requestBodies[..Served(s) + 1])|)
    ensures ServerInv(c, s2)
  {
    WireIsCarried(c.put, s.replyBodies);
  }

  lemma ServerReplyKeepsInv(c: Ends, s: State, reply: Message, iv: Block, n: nat, ok: bool)
    requires Inv(c, s) && StepServerReply(c, s, reply, iv, n, ok).Some?
    ensures Inv(c, StepServerReply(c, s, reply, iv, n, ok).value)
  {
    var s2 := StepServerReply(c, s, reply, iv, n, ok).value;
    ServerReplyKeepsHistory(c, s, reply, iv, n, ok);
    ServerReplyKeepsServer(c, s, reply, iv, n, ok);
    assert s2.replyBodies[..s.framesRead] == s.replyBodies[..s.framesRead];
    CallsKept(s, s2);
  }

  lemma ServerReplyKeepsHistory(c: Ends, s: State, reply: Message, iv: Block, n: nat, ok: bool)
    requires HistoryInv(c, s) && StepServerReply(c, s, reply, iv, n, ok).Some?
    ensures HistoryInv(c, StepServerReply(c, s, reply, iv, n, ok).value)
  {
    var s2 := StepServerReply(c, s, reply, iv, n, ok).value;
    forall i | 0 <= i < |s.requests| ensures RequestInv(c, s2, s2.requests[i], s2.requestBodies[i]) {
      assert RequestInv(c, s, s.requests[i], s.requestBodies[i]);
    }
    forall j | 0 <= j < |s2.handled| ensures ReplyInv(c, s2.handled[j], s2.replyBodies[j]) {
      assert j < |s.handled| ==> ReplyInv(c, s.handled[j], s.replyBodies[j]);
    }
  }

  lemma ServerReplyKeepsServer(c: Ends, s: State, reply: Message, iv: Block, n: nat, ok: bool)
    requires |s.requests| == |s.requestBodies| && |s.handled| == |s.replyBodies|
    requires ServerInv(c, s) && StepServerReply(c, s, reply, iv, n, ok).Some?
    ensures ServerInv(c, StepServerReply(c, s, reply, iv, n, ok).value)
  {
    StartFrame(c.put, s.replyBodies, c.sealReply(iv, reply), n);
  }

  lemma ServerWriteBodyKeepsInv(c: Ends, s: State, n: nat, ok: bool)
    requires Inv(c, s) && StepServerWriteBody(s, n, ok).Some?
    ensures Inv(c, StepServerWriteBody(s, n, ok).value)
  {
    FinishFrame(c.put, s.replyBodies, s.down, n);
    ServerChangeKeepsOthers(c, s, StepServerWriteBody(s, n, ok).value);
  }

  lemma ServerClosesKeepsInv(c: Ends, s: State)
    requires Inv(c, s)
    ensures Inv(c, s.(server := Closed))
  {
    WireIsCarried(c.put, s.replyBodies);
    if s.server.ReplyLengthWritten? {
      AtLengthIsPrefix(c.put, s.replyBodies, s.down);
    }
    ServerChangeKeepsOthers(c, s, s.(server := Closed));
  }

  predicate ByServer(a: Action) {
    a.ServerReadLength? || a.ServerReadBody? || a.ServerReply? || a.ServerWriteBody? || a.ServerCloses?
  }

  lemma ServerStepKeepsInv(c: Ends, s: State, a: Action)
    requires Sound(c) && Inv(c, s) && Step(c, s, a).Some? && ByServer(a)
    ensures Inv(c, Step(c, s, a).value)
  {
    match a
    case ServerReadLength => ServerReadLengthKeepsInv(c, s);
    case ServerReadBody => ServerReadBodyKeepsInv(c, s);
    case ServerReply(reply, iv, n, ok) => ServerReplyKeepsInv(c, s, reply, iv, n, ok);
    case ServerWriteBody(n, ok) => ServerWriteBodyKeepsInv(c, s, n, ok);
    case ServerCloses => ServerClosesKeepsInv(c, s);
  }

  lemma StepKeepsInv(c: Ends, s: State, a: Action)
    requires Sound(c) && Inv(c, s) && Step(c, s, a).Some?
    ensures Inv(c, Step(c, s, a).value)
  {
    if ByServer(a) {
      ServerStepKeepsInv(c, s, a);
    } else {
      match a
      case Offer(id, msg) => OfferKeepsInv(c, s, id, msg);
      case Rendezvous(id) => RendezvousKeepsInv(c, s, id);
      case PrepareFails => PrepareFailsKeepsInv(c, s);
      case WriteLength(iv, n, ok) => WriteLengthKeepsInv(c, s, iv, n, ok);
      case WriteBody(n, ok) => WriteBodyKeepsInv(c, s, n, ok);
      case ReadLength(ok) => ReadLengthKeepsInv(c, s, ok);
      case ReadBody(ok) => ReadBodyKeepsInv(c, s, ok);
      case Deliver => DeliverKeepsInv(c, s);
      case Receive(id) => ReceiveKeepsInv(c, s, id);
      case TimeOut(id) => TimeOutKeepsInv(c, s, id);
    }
  }

  lemma {:induction false} RunKeepsInv(c: Ends, actions: seq<Action>)
    requires Sound(c) && Run(c, actions).Some?
    ensures Inv(c, Run(c, actions).value)
  {
    if actions != [] {
      var before := actions[..|actions| - 1];
      RunKeepsInv(c, before);
      StepKeepsInv(c, Run(c, before).value, actions[|actions| - 1]);
    }
  }

  /** A call's request is on the stream at most once. */
  lemma {:induction false} OneFramePerCall(c: Ends, actions: seq<Action>, i: nat, j: nat)
    requires Sound(c) && Run(c, actions).Some?
    requires var s := Run(c, actions).value; i < |s.requests| && j < |s.requests| && s.requests[i] == s.requests[j]
    ensures i == j
  {
    RunKeepsInv(c, actions);
  }

  /** The response has arrived on the call's channel, or was returned from it. */
  ghost predicate Holds(s: State, id: nat, r: Response) {
    id in s.calls && (r in s.calls[id].chan || s.calls[id].phase == Returned(r))
  }

  /** Exchange k is the one that answers the call with this message. */
  ghost predicate AnsweredBy(s: State, k: nat, id: nat, reply: Message) {
    && k < |s.handled| && k < |s.requests| && s.requests[k] == id
    && id in s.calls && s.handled[k] == Exchange(s.calls[id].msg, reply)
  }

  /** Each answered call has exactly one exchange that answers it, and two calls never have the same. */
  lemma {:induction false} RepliesAreNotShared(c: Ends, actions: seq<Action>, id: nat, other: nat, m: Message,
      n: Message)
    requires Sound(c) && Run(c, actions).Some? && id != other
    requires Holds(Run(c, actions).value, id, Reply(m)) && Holds(Run(c, actions).value, other, Reply(n))
    ensures var s := Run(c, actions).value;
            exists i, j :: && AnsweredBy(s, i, id, m) && AnsweredBy(s, j, other, n) && i != j
                           && (forall k :: AnsweredBy(s, k, id, m) ==> k == i)
                           && (forall k :: AnsweredBy(s, k, other, n) ==> k == j)
  {
    RunKeepsInv(c, actions);
    var s := Run(c, actions).value;
    var i := AnsweredOnce(c, s, id, m);
    var j := AnsweredOnce(c, s, other, n);
    assert AnsweredBy(s, i, id, m) && AnsweredBy(s, j, other, n) && i != j;
  }

  lemma AnsweredOnce(c: Ends, s: State, id: nat, m: Message) returns (i: nat)
    requires HistoryInv(c, s) && CallsInv(s) && Holds(s, id, Reply(m))
    ensures AnsweredBy(s, i, id, m) && forall k :: AnsweredBy(s, k, id, m) ==> k == i
  {
    assert CallInv(s, id);
    assert Genuine(s, id, Reply(m));
    i :| 0 <= i < |s.handled| && i < |s.requests| && s.requests[i] == id
      && s.handled[i] == Exchange(s.calls[id].msg, m);
  }

  /** At the head of the loop on a healthy connection, frames written equal frames read. */
  lemma {:induction false} FramesBalance(c: Ends, actions: seq<Action>)
    requires Sound(c) && Run(c, actions).Some? && !Run(c, actions).value.broken
    ensures var s := Run(c, actions).value;
            && s.framesRead <= |s.requests| <= s.framesRead + 1
            && (s.loop.AtHead? ==> |s.requests| == s.framesRead && s.up == Wire(c.put, s.requestBodies))
  {
    RunKeepsInv(c, actions);
  }

  /** The loop never blocks on a caller: its send on the channel is always possible, and is the only one. */
  lemma {:induction false} DeliverNeverBlocks(c: Ends, actions: seq<Action>)
    requires Sound(c) && Run(c, actions).Some? && Run(c, actions).value.loop.Responding?
    ensures Run(c, actions + [Deliver]).Some?
    ensures var s := Run(c, actions).value; s.calls[s.loop.id].sends == 0
  {
    RunKeepsInv(c, actions);
    var s := Run(c, actions).value;
    assert CallInv(s, s.loop.id);
    assert (actions + [Deliver])[..|actions|] == actions;
  }

  /** Once the loop is back at its head, every call it ever took has had exactly one send. */
  lemma {:induction false} ExactlyOneSend(c: Ends, actions: seq<Action>, id: nat)
    requires Sound(c) && Run(c, actions).Some? && id in Run(c, actions).value.calls
    ensures var s := Run(c, actions).value;
            s.loop.AtHead? ==> s.calls[id].sends == if s.calls[id].phase.Offering? then 0 else 1
  {
    RunKeepsInv(c, actions);
    assert CallInv(Run(c, actions).value, id);
  }

  lemma {:induction false} RunThen(c: Ends, actions: seq<Action>, a: Action)
    requires Run(c, actions).Some?
    ensures Run(c, actions + [a]) == Step(c, Run(c, actions).value, a)
  {
    assert (actions + [a])[..|actions|] == actions;
  }

  /** What is on the channel of a waiting call is what the call returns; nothing else changes. */
  lemma {:induction false} ReceiveReturns(c: Ends, actions: seq<Action>, id: nat, r: Response)
    requires Run(c, actions).Some? && id in Run(c, actions).value.calls
    requires Run(c, actions).value.calls[id].phase.Waiting? && Run(c, actions).value.calls[id].chan == [r]
    ensures Run(c, actions + [Receive(id)]).Some?
    ensures var s, t := Run(c, actions).value, Run(c, actions + [Receive(id)]).value;
            && t == s.(calls := t.calls) && t.calls.Keys == s.calls.Keys
            && t.calls[id].phase == Returned(r) && t.calls[id].chan == [] && t.calls[id].msg == s.calls[id].msg
            && forall k :: k in s.calls && k != id ==> t.calls[k] == s.calls[k]
  {
    RunThen(c, actions, Receive(id));
  }

  /** A waiting call can always time out. It never returns a response then, and one that returned never changes it. */
  lemma {:induction false} OutcomeIsFinal(c: Ends, before: seq<Action>, later: seq<Action>, id: nat)
    requires Run(c, before).Some? && id in Run(c, before).value.calls && Run(c, before + later).Some?
    ensures var call := Run(c, before).value.calls[id];
            && (call.phase.Waiting? ==> Run(c, before + [TimeOut(id)]).Some?
                                        && Run(c, before + [TimeOut(id)]).value.calls[id].phase == TimedOut)
            && (call.phase.TimedOut? || call.phase.Returned? ==>
                  id in Run(c, before + later).value.calls
                  && Run(c, before + later).value.calls[id].phase == call.phase)
  {
    RunThen(c, before, TimeOut(id));
    if later == [] {
      assert before + later == before;
    } else {
      var most, last := later[..|later| - 1], later[|later| - 1];
      LastApart(later);
      Regroup(before, most, [last]);
      assert (before + later)[..|before + most|] == before + most;
      OutcomeIsFinal(c, before, most, id);
      RunThen(c, before + most, last);
      if Run(c, before).value.calls[id].phase.TimedOut? || Run(c, before).value.calls[id].phase.Returned? {
        StepKeepsOutcome(c, Run(c, before + most).value, last, id);
      }
    }
  }

  lemma StepKeepsOutcome(c: Ends, s: State, a: Action, id: nat)
    requires Step(c, s, a).Some? && id in s.calls && (s.calls[id].phase.TimedOut? || s.calls[id].phase.Returned?)
    ensures id in Step(c, s, a).value.calls && Step(c, s, a).value.calls[id].phase == s.calls[id].phase
  {}

  /** Once the server has closed the connection it handles no request on it and writes no reply. */
  lemma {:induction false} ClosedIsFinal(c: Ends, before: seq<Action>, later: seq<Action>)
    requires Run(c, before).Some? && Run(c, before + [ServerCloses] + later).Some?
    ensures var s, t := Run(c, before).value, Run(c, before + [ServerCloses] + later).value;
            t.server.Closed? && t.handled == s.handled && t.down == s.down && t.upRead == s.upRead
  {
    RunThen(c, before, ServerCloses);
    if later == [] {
      assert before + [ServerCloses] + later == before + [ServerCloses];
    } else {
      var most, last := later[..|later| - 1], later[|later| - 1];
      LastApart(later);
      Regroup(before + [ServerCloses], most, [last]);
      assert (before + [ServerCloses] + later)[..|before + [ServerCloses] + most|] == before + [ServerCloses] + most;
      ClosedIsFinal(c, before, most);
      RunThen(c, before + [ServerCloses] + most, last);
      StepKeepsClosed(c, Run(c, before + [ServerCloses] + most).value, last);
    }
  }

  lemma StepKeepsClosed(c: Ends, s: State, a: Action)
    requires s.server.Closed? && Step(c, s, a).Some?
    ensures var t := Step(c, s, a).value;
            t.server.Closed? && t.handled == s.handled && t.down == s.down && t.upRead == s.upRead
  {}

  /** Nothing is under way on a connection that has not failed. */
  predicate Idle(s: State) {
    && s.loop.AtHead? && !s.broken && s.server.AwaitRequest?
    && s.upRead == |s.up| && s.downRead == |s.down|
  }

  /** One whole call: offered, written, handled, answered, read, delivered and received. */
  function Round(c: Ends, id: nat, m: Message, iv: Block, reply: Message, replyIv: Block): seq<Action>
    requires c.seal(iv, m).Some?
  {
    [Offer(id, m), Rendezvous(id), WriteLength(iv, 4, true), WriteBody(|c.seal(iv, m).value|, true)]
    + [ServerReadLength, ServerReadBody, ServerReply(reply, replyIv, 4, true),
       ServerWriteBody(|c.sealReply(replyIv, reply)|, true)]
    + [ReadLength(true), ReadBody(true), Deliver, Receive(id)]
  }

  /**
   Without failures the call returns the reply that the server chose, and the request that the server
   handled is the one of the call; after it the link is idle again.
   */
  lemma {:induction false} RoundReturnsReply(
    c: Ends, before: seq<Action>, id: nat, m: Message, iv: Block, reply: Message, replyIv: Block)
    requires Sound(c) && Run(c, before).Some? && Idle(Run(c, before).value) && id !in Run(c, before).value.calls
    requires c.seal(iv, m).Some? && 0 < |c.seal(iv, m).value| <= MAX_MESSAGE
    requires c.open(c.sealReply(replyIv, reply)).Some? && |c.sealReply(replyIv, reply)| < TWO_32
    ensures Run(c, before + Round(c, id, m, iv, reply, replyIv)).Some?
    ensures var s, t := Run(c, before).value, Run(c, before + Round(c, id, m, iv, reply, replyIv)).value;
            && t.calls == s.calls[id := Call(m, Returned(Reply(reply)), [], 1)]
            && t.handled == s.handled + [Exchange(m, reply)] && Idle(t)
  {
    var s := Run(c, before).value;
    var sent, answer := c.seal(iv, m).value, c.sealReply(replyIv, reply);
    var written := [Offer(id, m), Rendezvous(id), WriteLength(iv, 4, true), WriteBody(|sent|, true)];
    var handled := [ServerReadLength, ServerReadBody, ServerReply(reply, replyIv, 4, true),
                    ServerWriteBody(|answer|, true)];
    var s1 := RequestIsWritten(c, before, s, id, m, iv);
    SealedOpens(c, iv, m);
    var s2 := RequestIsHandled(c, before + written, s1, s.up, m, sent, reply, replyIv);
    var s3 := ReplyIsReturned(c, before + written + handled, s2, s.down, id, answer, reply);
    Regroup(before, written, handled);
    Regroup(before, written + handled, [ReadLength(true), ReadBody(true), Deliver, Receive(id)]);
  }

  lemma SealedOpens(c: Ends, iv: Block, m: Message)
    requires Sound(c) && c.seal(iv, m).Some? && |c.seal(iv, m).value| < TWO_32
    ensures c.open(c.seal(iv, m).value) == Some(m)
  {
    var body := c.seal(iv, m).value;
    assert SealedWell(c, m, body);
    assert body[..|body|] == body;
  }

  lemma {:induction false} TwoSteps(c: Ends, before: seq<Action>, s: State, a: Action, t: State, b: Action, u: State)
    requires Run(c, before) == Some(s) && Step(c, s, a) == Some(t) && Step(c, t, b) == Some(u)
    ensures Run(c, before + [a, b]) == Some(u)
  {
    RunThen(c, before, a);
    RunThen(c, before + [a], b);
    assert before + [a, b] == before + [a] + [b];
  }

  lemma JoinPairs<T>(before: seq<T>, a: T, b: T, c: T, d: T)
    ensures before + [a, b] + [c, d] == before + [a, b, c, d]
  {}

  lemma {:induction false} FourSteps(c: Ends, before: seq<Action>, s: State, a1: Action, s1: State, a2: Action,
                                     s2: State, a3: Action, s3: State, a4: Action, s4: State)
    requires Run(c, before) == Some(s) && Step(c, s, a1) == Some(s1) && Step(c, s1, a2) == Some(s2)
    requires Step(c, s2, a3) == Some(s3) && Step(c, s3, a4) == Some(s4)
    ensures Run(c, before + [a1, a2, a3, a4]) == Some(s4)
  {
    TwoSteps(c, before, s, a1, s1, a2, s2);
    TwoSteps(c, before + [a1, a2], s2, a3, s3, a4, s4);
    JoinPairs(before, a1, a2, a3, a4);
  }

  lemma {:induction false} RequestIsWritten(c: Ends, before: seq<Action>, s: State, id: nat, m: Message, iv: Block)
    returns (t: State)
    requires Run(c, before) == Some(s) && s.loop.AtHead? && !s.broken && id !in s.calls && c.seal(iv, m).Some?
    ensures var body := c.seal(iv, m).value;
            && Run(c, before + [Offer(id, m), Rendezvous(id), WriteLength(iv, 4, true), WriteBody(|body|, true)])
               == Some(t)
            && t == s.(calls := s.calls[id := Call(m, Waiting, [], 0)], loop := AwaitLength(id),
                       requests := s.requests + [id], requestBodies := s.requestBodies + [body],
                       up := s.up + Frame(c.put, body))
  {
    var body := c.seal(iv, m).value;
    var s1 := s.(calls := s.calls[id := Call(m, Offering, [], 0)]);
    var s2 := s.(loop := Dequeued(id), calls := s.calls[id := Call(m, Waiting, [], 0)]);
    assert s1.calls[id := Call(m, Waiting, [], 0)] == s2.calls;
    t := BothWrites(c, s2, id, m, iv);
    var s3 := Step(c, s2, WriteLength(iv, 4, true)).value;
    FourSteps(c, before, s, Offer(id, m), s1, Rendezvous(id), s2, WriteLength(iv, 4, true), s3,
      WriteBody(|body|, true), t);
  }

  lemma BothWrites(c: Ends, s: State, id: nat, m: Message, iv: Block) returns (t: State)
    requires s.loop == Dequeued(id) && !s.broken && id in s.calls && s.calls[id].msg == m && c.seal(iv, m).Some?
    ensures var body := c.seal(iv, m).value;
            && Step(c, s, WriteLength(iv, 4, true)).Some?
            && Step(c, Step(c, s, WriteLength(iv, 4, true)).value, WriteBody(|body|, true)) == Some(t)
            && t == s.(loop := AwaitLength(id), requests := s.requests + [id],
                       requestBodies := s.requestBodies + [body], up := s.up + Frame(c.put, body))
  {
    var body := c.seal(iv, m).value;
    var prefix := LengthPrefix(c.put, body);
    assert prefix[..4] == prefix && body[..|body|] == body;
    Regroup(s.up, prefix, body);
    t := s.(loop := AwaitLength(id), requests := s.requests + [id],
            requestBodies := s.requestBodies + [body], up := s.up + Frame(c.put, body));
  }

  lemma {:induction false} RequestIsHandled(c: Ends, before: seq<Action>, s: State, read: seq<byte>, m: Message,
                                            body: seq<byte>, reply: Message, iv: Block)
    returns (t: State)
    requires (forall n :: c.get(c.put(n)) == n) && Run(c, before) == Some(s) && s.server.AwaitRequest?
    requires s.up == read + Frame(c.put, body) && s.upRead == |read|
    requires 0 < |body| <= MAX_MESSAGE && c.open(body) == Some(m) && |c.sealReply(iv, reply)| < TWO_32
    ensures var answer := c.sealReply(iv, reply);
            && Run(c, before + [ServerReadLength, ServerReadBody, ServerReply(reply, iv, 4, true),
                                ServerWriteBody(|answer|, true)]) == Some(t)
            && t == s.(upRead := |s.up|, handled := s.handled + [Exchange(m, reply)],
                       replyBodies := s.replyBodies + [answer], down := s.down + Frame(c.put, answer))
  {
    var answer := c.sealReply(iv, reply);
    var s1, s2 := ServerReads(c, s, read, m, body);
    var s3, s4 := ServerWrites(c, s2, m, reply, iv);
    t := s4;
    FourSteps(c, before, s, ServerReadLength, s1, ServerReadBody, s2, ServerReply(reply, iv, 4, true), s3,
      ServerWriteBody(|answer|, true), s4);
  }

  lemma ServerReads(c: Ends, s: State, read: seq<byte>, m: Message, body: seq<byte>) returns (s1: State, s2: State)
    requires (forall n :: c.get(c.put(n)) == n) && s.server.AwaitRequest?
    requires s.up == read + Frame(c.put, body) && s.upRead == |read|
    requires 0 < |body| <= MAX_MESSAGE && c.open(body) == Some(m)
    ensures Step(c, s, ServerReadLength) == Some(s1) && Step(c, s1, ServerReadBody) == Some(s2)
    ensures s2 == s.(upRead := |s.up|, server := Handling(m))
  {
    FrameIsThere(c.put, read, body);
    s1 := s.(upRead := s.upRead + 4, server := AwaitRequestBody(|body|));
    s2 := s.(upRead := |s.up|, server := Handling(m));
  }

  lemma ServerWrites(c: Ends, s: State, m: Message, reply: Message, iv: Block) returns (s3: State, s4: State)
    requires s.server == Handling(m) && |c.sealReply(iv, reply)| < TWO_32
    ensures var answer := c.sealReply(iv, reply);
            && Step(c, s, ServerReply(reply, iv, 4, true)) == Some(s3)
            && Step(c, s3, ServerWriteBody(|answer|, true)) == Some(s4)
            && s4 == s.(handled := s.handled + [Exchange(m, reply)], replyBodies := s.replyBodies + [answer],
                        down := s.down + Frame(c.put, answer), server := AwaitRequest)
  {
    var answer := c.sealReply(iv, reply);
    var prefix := LengthPrefix(c.put, answer);
    assert prefix[..4] == prefix && answer[..|answer|] == answer;
    Regroup(s.down, prefix, answer);
    s3 := s.(handled := s.handled + [Exchange(m, reply)], replyBodies := s.replyBodies + [answer],
             down := s.down + prefix, server := ReplyLengthWritten);
    s4 := s3.(down := s.down + Frame(c.put, answer), server := AwaitRequest);
  }

  lemma FrameIsThere(put: Put, read: seq<byte>, body: seq<byte>)
    ensures var bytes, p := read + Frame(put, body), |read|;
            && bytes[p..p + 4] == LengthPrefix(put, body) && bytes[p + 4..p + 4 + |body|] == body
            && |bytes| == p + 4 + |body|
  {}

  lemma {:induction false} ReplyIsReturned(c: Ends, before: seq<Action>, s: State, read: seq<byte>, id: nat,
                                           body: seq<byte>, reply: Message)
    returns (t: State)
    requires (forall n :: c.get(c.put(n)) == n) && Run(c, before) == Some(s)
    requires s.loop == AwaitLength(id) && !s.broken && id in s.calls
    requires s.calls[id].phase.Waiting? && s.calls[id].chan == []
    requires s.down == read + Frame(c.put, body) && s.downRead == |read|
    requires |body| < TWO_32 && c.open(body) == Some(reply)
    ensures Run(c, before + [ReadLength(true), ReadBody(true), Deliver, Receive(id)]) == Some(t)
    ensures var call := s.calls[id];
            t == s.(loop := AtHead, downRead := |s.down|, framesRead := s.framesRead + 1,
                    calls := s.calls[id := Call(call.msg, Returned(Reply(reply)), [], call.sends + 1)])
  {
    var s1, s2, s3, s4 := ReplySteps(c, s, read, id, body, reply);
    t := s4;
    FourSteps(c, before, s, ReadLength(true), s1, ReadBody(true), s2, Deliver, s3, Receive(id), s4);
  }

  lemma ReplySteps(c: Ends, s: State, read: seq<byte>, id: nat, body: seq<byte>, reply: Message)
    returns (s1: State, s2: State, s3: State, s4: State)
    requires (forall n :: c.get(c.put(n)) == n) && s.loop == AwaitLength(id) && !s.broken && id in s.calls
    requires s.calls[id].phase.Waiting? && s.calls[id].chan == []
    requires s.down == read + Frame(c.put, body) && s.downRead == |read|
    requires |body| < TWO_32 && c.open(body) == Some(reply)
    ensures Step(c, s, ReadLength(true)) == Some(s1) && Step(c, s1, ReadBody(true)) == Some(s2)
    ensures Step(c, s2, Deliver) == Some(s3) && Step(c, s3, Receive(id)) == Some(s4)
    ensures var call := s.calls[id];
            s4 == s.(loop := AtHead, downRead := |s.down|, framesRead := s.framesRead + 1,
                     calls := s.calls[id := Call(call.msg, Returned(Reply(reply)), [], call.sends + 1)])
  {
    s1, s2 := LoopReads(c, s, read, id, body, reply);
    s3, s4 := CallReturns(c, s2, id, Reply(reply));
  }

  lemma LoopReads(c: Ends, s: State, read: seq<byte>, id: nat, body: seq<byte>, reply: Message)
    returns (s1: State, s2: State)
    requires (forall n :: c.get(c.put(n)) == n) && s.loop == AwaitLength(id) && !s.broken
    requires s.down == read + Frame(c.put, body) && s.downRead == |read|
    requires |body| < TWO_32 && c.open(body) == Some(reply)
    ensures Step(c, s, ReadLength(true)) == Some(s1) && Step(c, s1, ReadBody(true)) == Some(s2)
    ensures s2 == s.(loop := Responding(id, Reply(reply)), downRead := |s.down|, framesRead := s.framesRead + 1)
  {
    FrameIsThere(c.put, read, body);
    s1 := s.(loop := AwaitBody(id, |body|), downRead := s.downRead + 4);
    s2 := s.(loop := Responding(id, Reply(reply)), downRead := |s.down|, framesRead := s.framesRead + 1);
  }

  lemma CallReturns(c: Ends, s: State, id: nat, r: Response) returns (s3: State, s4: State)
    requires s.loop == Responding(id, r) && id in s.calls && s.calls[id].phase.Waiting? && s.calls[id].chan == []
    ensures Step(c, s, Deliver) == Some(s3) && Step(c, s3, Receive(id)) == Some(s4)
    ensures var call := s.calls[id];
            s4 == s.(loop := AtHead, calls := s.calls[id := Call(call.msg, Returned(r), [], call.sends + 1)])
  {
    var call := s.calls[id];
    s3 := s.(loop := AtHead, calls := s.calls[id := Call(call.msg, Waiting, [r], call.sends + 1)]);
    s4 := s.(loop := AtHead, calls := s.calls[id := Call(call.msg, Returned(r), [], call.sends + 1)]);
    assert [r][1..] == [];
    assert s3.calls[id := s4.calls[id]] == s4.calls;
  }

  /** Only call id differs, and it is in order: the other calls still are. */
  lemma ChangedCallKeepsInv(s: State, s2: State, id: nat)
    requires CallsInv(s) && id in s2.calls
    requires s2.handled == s.handled && s2.requests == s.requests
    requires forall k :: k in s2.calls ==> k == id || (k in s.calls && s2.calls[k] == s.calls[k])
    requires forall k :: k in s.calls ==> k in s2.calls && s2.calls[k].msg == s.calls[k].msg
    requires s2.loop == s.loop && (!s.loop.AtHead? && s.loop.id == id ==>
                                     !s2.calls[id].phase.Offering? && s2.calls[id].sends == 0)
    requires CallInv(s2, id)
    ensures CallsInv(s2)
  {
    if s2.loop.Responding? {
      GenuineKept(s, s2, s.loop.id, s.loop.response);
    }
    forall k | k in s2.calls && k != id ensures CallInv(s2, k) {
      OtherCallKept(s, s2, k);
    }
  }

  lemma OtherCallKept(s: State, s2: State, k: nat)
    requires Extends(s, s2) && k in s.calls && k in s2.calls && s2.calls[k] == s.calls[k]
    requires CallInv(s, k)
    requires !s.loop.AtHead? && s.loop.id == k && s.calls[k].sends == 0 ==> !s2.loop.AtHead? && s2.loop.id == k
    ensures CallInv(s2, k)
  {
    var call := s.calls[k];
    if call.phase.Returned? {
      GenuineKept(s, s2, k, call.phase.response);
    }
    forall r | r in call.chan ensures Genuine(s2, k, r) {
      GenuineKept(s, s2, k, r);
    }
  }

  /** json.Marshal and Encrypt, with a cipher that may not be there. */
  function SealRequest(block: Option<Block -> Block>, c: Codec<Message>, iv: Block, m: Message): Option<seq<byte>> {
    match c.marshal(m)
    case None => None
    case Some(text) => match Crypto.SealWith(block, Some(iv), text) case Ok(body) => Some(body) case Err(_) => None
  }

  /** Decrypt and json.Unmarshal, with a cipher that may not be there. */
  function OpenReply(block: Option<Block -> Block>, c: Codec<Message>, body: seq<byte>): Option<Message> {
    if block.None? then None else Open(c.(block := block.value), body)
  }

  /** The two ends, from JSON, the byte order and the server's cipher in c, and the agent's own cipher. */
  function AgentEnds(block: Option<Block -> Block>, c: Codec<Message>): Ends {
    Ends(
      (iv: Block, m: Message) => SealRequest(block, c, iv, m),
      (iv: Block, m: Message) => SealReply(c, iv, m),
      (body: seq<byte>) => OpenReply(block, c, body),
      c.putUint32,
      c.getUint32)
  }

  /** The ends of the shipped system when both have the cipher. */
  function LinkCodec(c: Codec<Message>): Ends {
    AgentEnds(Some(c.block), c)
  }

  lemma LinkCodecIsSound(c: Codec<Message>)
    requires Faithful(c)
    ensures Sound(LinkCodec(c))
  {
    var e := LinkCodec(c);
    forall iv: Block, m: Message | e.seal(iv, m).Some? ensures SealedWell(e, m, e.seal(iv, m).value) {
      LinkSeals(c, iv, m);
      SealedRequestIsWell(c, iv, m);
    }
    forall iv: Block, m: Message | e.open(e.sealReply(iv, m)).Some? ensures e.open(e.sealReply(iv, m)) == Some(m) {
      LinkOpens(c, SealReply(c, iv, m));
      SealedReplyOpens(c, iv, m);
    }
  }

  lemma SealedRequestIsWell(c: Codec<Message>, iv: Block, m: Message)
    requires Faithful(c) && c.marshal(m).Some?
    ensures LinkCodec(c).seal(iv, m).Some? && SealedWell(LinkCodec(c), m, LinkCodec(c).seal(iv, m).value)
  {
    OpenAtLength(c, m, iv);
    OpensAsSealed(c, iv, m);
  }

  lemma OpensAsSealed(c: Codec<Message>, iv: Block, m: Message)
    requires c.marshal(m).Some?
    requires var body := Crypto.Seal(c.block, iv, c.marshal(m).value);
             Open(c, body[..|body| % TWO_32]) == if |body| < TWO_32 then Some(m) else None
    ensures LinkCodec(c).seal(iv, m).Some? && SealedWell(LinkCodec(c), m, LinkCodec(c).seal(iv, m).value)
  {
    LinkSeals(c, iv, m);
    var body := Crypto.Seal(c.block, iv, c.marshal(m).value);
    LinkOpens(c, body[..|body| % TWO_32]);
    OpenedIsWell(LinkCodec(c), m, body, Open(c, body[..|body| % TWO_32]));
  }

  lemma OpenedIsWell(e: Ends, m: Message, body: seq<byte>, found: Option<Message>)
    requires e.open(body[..|body| % TWO_32]) == found
    requires found == if |body| < TWO_32 then Some(m) else None
    ensures SealedWell(e, m, body)
  {}

  lemma LinkSeals(c: Codec<Message>, iv: Block, m: Message)
    ensures LinkCodec(c).seal(iv, m) ==
            match c.marshal(m) case Some(text) => Some(Crypto.Seal(c.block, iv, text)) case None => None
  {}

  lemma SealedReplyOpens(c: Codec<Message>, iv: Block, m: Message)
    requires Faithful(c) && Open(c, SealReply(c, iv, m)).Some?
    ensures Open(c, SealReply(c, iv, m)) == Some(m)
  {
    if c.marshal(m).Some? {
      OpenSealed(c, m, iv);
    } else {
      Crypto.UnsealOfSeal(c.block, iv, []);
    }
  }

  lemma LinkOpens(c: Codec<Message>, body: seq<byte>)
    ensures LinkCodec(c).open(body) == Open(c, body)
  {
    assert c.(block := c.block) == c;
  }

  /**
   The first call over the shipped codec, with a request within the server's limit, returns the reply
   that the server chose; by RoundReturnsReply so does every later one.
   */
  lemma {:induction false} FirstCallReturnsReply(codec: Codec<Message>, id: nat, m: Message, iv: Block,
                                                 reply: Message, replyIv: Block)
    requires Faithful(codec) && codec.marshal(m).Some? && codec.marshal(reply).Some?
    requires |codec.marshal(m).value| <= 49136 && |SealReply(codec, replyIv, reply)| < TWO_32
    ensures var c := LinkCodec(codec);
            && c.seal(iv, m).Some?
            && var run := Run(c, Round(c, id, m, iv, reply, replyIv));
               && run.Some? && id in run.value.calls && run.value.calls[id].phase == Returned(Reply(reply))
               && run.value.handled == [Exchange(m, reply)]
  {
    var c := LinkCodec(codec);
    LinkCodecIsSound(codec);
    LinkSeals(codec, iv, m);
    Crypto.SealedSize(codec.block, iv, codec.marshal(m).value);
    LinkOpens(codec, SealReply(codec, replyIv, reply));
    OpenSealed(codec, reply, replyIv);
    var round := Round(c, id, m, iv, reply, replyIv);
    assert [] + round == round;
    RoundReturnsReply(c, [], id, m, iv, reply, replyIv);
  }

  /**
   In every run, whatever the interleaving, the timeouts and the failures: what arrives on a call's
   channel, or was returned from it, is an error or the server's reply to that call's own request.
   */
  lemma {:induction false} ResponsesAreGenuine(codec: Codec<Message>, actions: seq<Action>, id: nat, r: Response)
    requires Faithful(codec) && Run(LinkCodec(codec), actions).Some?
    requires var s := Run(LinkCodec(codec), actions).value;
             id in s.calls && (r in s.calls[id].chan || s.calls[id].phase == Returned(r))
    ensures Genuine(Run(LinkCodec(codec), actions).value, id, r)
  {
    LinkCodecIsSound(codec);
    RunKeepsInv(LinkCodec(codec), actions);
    assert CallInv(Run(LinkCodec(codec), actions).value, id);
  }
}
