/**
 The agent's request loop as it runs: for each request it writes one frame, reads one reply and sends
 one response. Here the reply bytes are what will arrive on the connection; the runs in which the
 server produces them meanwhile are the business of Link, whose steps these turns are, and whose
 LinkCodec gives the functions in Ends.
 */
module RequestLoop {
  import opened Bytes
  import opened Framing
  import opened Link
  import Crypto

  /** A dequeued request, and what randomness and the two writes do to it. */
  datatype Request = Request(msg: Message, iv: Option<Block>, lengthWrite: Sent, bodyWrite: Sent)

  /** The connection: the bytes written so far, and those that are still to be read. */
  datatype Line = Line(output: seq<byte>, rest: seq<byte>)

  /** The reading half of a turn; there is no limit on the length of a reply. */
  function ReadReply(c: Ends, stream: seq<byte>): (Option<Message>, seq<byte>) {
    if |stream| < 4 then (None, [])
    else
      var n, after := c.get(stream[..4]), stream[4..];
      if |after| < n then (None, []) else (c.open(after[..n]), after[n..])
  }

  function Turn(c: Ends, line: Line, r: Request): (Option<Message>, Line) {
    if r.iv.None? then (None, line)
    else
      match c.seal(r.iv.value, r.msg)
      case None => (None, line)
      case Some(body) =>
        var prefix := LengthPrefix(c.put, body);
        if r.lengthWrite.Cut? then (None, line.(output := line.output + Part(prefix, r.lengthWrite)))
        else if r.bodyWrite.Cut? then (None, line.(output := line.output + prefix + Part(body, r.bodyWrite)))
        else
          var (reply, rest) := ReadReply(c, line.rest);
          (reply, Line(line.output + Frame(c.put, body), rest))
  }

  function Turns(c: Ends, line: Line, requests: seq<Request>): (r: (seq<Option<Message>>, Line))
    ensures |r.0| == |requests|
  {
    if requests == [] then ([], line)
    else
      var (responses, before) := Turns(c, line, requests[..|requests| - 1]);
      var (response, after) := Turn(c, before, requests[|requests| - 1]);
      (responses + [response], after)
  }

  class Agent {
    const conn: Conn

    constructor (conn: Conn)
      ensures this.conn == conn
    {
      this.conn := conn;
    }

    ghost function AsLine(): Line
      requires conn.Valid()
      reads conn
    {
      Line(conn.output, conn.Rest())
    }

    /** From io.ReadFull of the length to json.Unmarshal. */
    method ReceiveReply(cipher: Crypto.Cipher, c: Codec<Message>) returns (reply: Option<Message>)
      requires conn.Valid()
      modifies conn`position
      ensures conn.Valid()
      ensures (reply, conn.Rest()) == ReadReply(AgentEnds(cipher.block, c), old(conn.Rest()))
    {
      var lenBuf, _ := conn.ReadFull(4);
      if lenBuf.None? {
        return None;
      }
      var buf, _ := conn.ReadFull(c.getUint32(lenBuf.value));
      if buf.None? {
        return None;
      }
      var decryptedResp := cipher.Decrypt(buf.value);
      if decryptedResp.Err? {
        return None;
      }
      reply := c.unmarshal(decryptedResp.text);
    }

    /** json.Marshal, then Encrypt. */
    method SealMessage(cipher: Crypto.Cipher, c: Codec<Message>, r: Request) returns (encrypted: Option<seq<byte>>)
      ensures encrypted == if r.iv.None? then None else AgentEnds(cipher.block, c).seal(r.iv.value, r.msg)
    {
      var jsonMsg := c.marshal(r.msg);
      if jsonMsg.None? {
        return None;
      }
      var text := cipher.Encrypt(jsonMsg.value, r.iv);
      return if text.Ok? then Some(text.text) else None;
    }

    /** The body of the loop: on every exit there is one response. */
    method HandleRequest(cipher: Crypto.Cipher, c: Codec<Message>, r: Request) returns (response: Option<Message>)
      requires conn.Valid()
      modifies conn
      ensures conn.Valid()
      ensures (response, AsLine()) == Turn(AgentEnds(cipher.block, c), old(AsLine()), r)
    {
      var encrypted := SealMessage(cipher, c, r);
      if encrypted.None? {
        return None;
      }
      var encryptedMsg := encrypted.value;
      var prefix := LengthPrefix(c.putUint32, encryptedMsg);
      var ok := conn.Write(prefix, r.lengthWrite);
      if !ok {
        return None;
      }
      ok := conn.Write(encryptedMsg, r.bodyWrite);
      if !ok {
        return None;
      }
      ghost var before := old(conn.output);
      assert (before + prefix) + encryptedMsg == before + (prefix + encryptedMsg);
      response := ReceiveReply(cipher, c);
    }

    method StartRequestLoop(cipher: Crypto.Cipher, c: Codec<Message>, requests: seq<Request>)
      returns (responses: seq<Option<Message>>)
      requires conn.Valid()
      modifies conn
      ensures conn.Valid()
      ensures (responses, AsLine()) == Turns(AgentEnds(cipher.block, c), old(AsLine()), requests)
    {
      responses := [];
      for i := 0 to |requests|
        invariant conn.Valid()
        invariant (responses, AsLine()) == Turns(AgentEnds(cipher.block, c), old(AsLine()), requests[..i])
      {
        assert requests[..i + 1][..i] == requests[..i];
        var response := HandleRequest(cipher, c, requests[i]);
        responses := responses + [response];
      }
      assert requests[..|requests|] == requests;
    }

    /**
     The loop in a program that calls InitCipher first, with what aes.NewCipher returns, or that does
     not call it, as the agent's program does not: then every request fails before a byte is written.
     */
    method Run(newCipher: Option<Option<Block -> Block>>, c: Codec<Message>, requests: seq<Request>)
      returns (responses: seq<Option<Message>>)
      requires conn.Valid()
      modifies conn
      ensures conn.Valid()
      ensures newCipher == Some(Some(c.block)) ==>
                (responses, AsLine()) == Turns(LinkCodec(c), old(AsLine()), requests)
      ensures newCipher.None? || newCipher.value.None? ==>
                && AsLine() == old(AsLine()) && |responses| == |requests|
                && forall i :: 0 <= i < |responses| ==> responses[i] == None
    {
      var cipher := new Crypto.Cipher();
      if newCipher.Some? {
        cipher.InitCipher(newCipher.value);
      }
      responses := StartRequestLoop(cipher, c, requests);
      if cipher.block.None? {
        NoCipherNoBytes(AgentEnds(cipher.block, c), old(AsLine()), requests);
      }
    }
  }

  /** Bodies that these requests seal to, with no failure on the way. */
  ghost predicate Healthy(c: Ends, requests: seq<Request>, bodies: seq<seq<byte>>) {
    && |bodies| == |requests|
    && forall i :: 0 <= i < |requests| ==>
         && requests[i].lengthWrite.Whole? && requests[i].bodyWrite.Whole?
         && requests[i].iv.Some? && c.seal(requests[i].iv.value, requests[i].msg) == Some(bodies[i])
  }

  lemma ReadReplyFrame(c: Ends, body: seq<byte>, more: seq<byte>)
    requires (forall n :: c.get(c.put(n)) == n) && |body| < TWO_32
    ensures ReadReply(c, Frame(c.put, body) + more) == (c.open(body), more)
  {
    FrameParts(c.put, body, more);
  }

  /** The i-th response is the i-th reply, opened. */
  ghost predicate Answers(c: Ends, responses: seq<Option<Message>>, replies: seq<seq<byte>>) {
    |responses| == |replies| && forall i :: 0 <= i < |replies| ==> responses[i] == c.open(replies[i])
  }

  lemma AnswersMore(c: Ends, responses: seq<Option<Message>>, replies: seq<seq<byte>>)
    requires replies != [] && Answers(c, responses, replies[..|replies| - 1])
    ensures Answers(c, responses + [c.open(replies[|replies| - 1])], replies)
  {
    var last := |replies| - 1;
    forall i | 0 <= i < last ensures responses[i] == c.open(replies[i]) {
      assert replies[i] == replies[..last][i];
    }
  }

  /** Without failures the i-th response is the i-th reply, and one frame was written for each request. */
  lemma {:induction false} ResponsesInOrder(
    c: Ends, requests: seq<Request>, bodies: seq<seq<byte>>, output: seq<byte>, replies: seq<seq<byte>>,
      more: seq<byte>)
    requires (forall n :: c.get(c.put(n)) == n) && Healthy(c, requests, bodies) && |replies| == |requests|
    requires forall i :: 0 <= i < |replies| ==> |replies[i]| < TWO_32
    ensures var (responses, line) := Turns(c, Line(output, Wire(c.put, replies) + more), requests);
            Answers(c, responses, replies) && line == Line(output + Wire(c.put, bodies), more)
  {
    if requests == [] {
      assert Wire(c.put, replies) + more == more && output + Wire(c.put, bodies) == output;
    } else {
      var last := |requests| - 1;
      var later, mid := Frame(c.put, replies[last]) + more, output + Wire(c.put, bodies[..last]);
      var start := Line(output, Wire(c.put, replies[..last]) + later);
      HealthyParts(c, requests, bodies);
      ResponsesInOrder(c, requests[..last], bodies[..last], output, replies[..last], later);
      HealthyTurn(c, mid, requests[last], bodies[last], replies[last], more);
      TurnsThen(c, start, requests, Line(mid, later), c.open(replies[last]),
        Line(mid + Frame(c.put, bodies[last]), more));
      AnswersMore(c, Turns(c, start, requests[..last]).0, replies);
      LastFrameAndMore(c.put, replies, more);
      LastFrameAfter(c.put, bodies, output);
    }
  }

  /** Without failures the loop writes the frames of its requests, whatever it reads. */
  lemma {:induction false} HealthyOutput(c: Ends, line: Line, requests: seq<Request>, bodies: seq<seq<byte>>)
    requires Healthy(c, requests, bodies)
    ensures Turns(c, line, requests).1.output == line.output + Wire(c.put, bodies)
  {
    if requests == [] {
      assert line.output + [] == line.output;
    } else {
      var last := |requests| - 1;
      HealthyParts(c, requests, bodies);
      HealthyOutput(c, line, requests[..last], bodies[..last]);
      HealthyWrites(c, Turns(c, line, requests[..last]).1, requests[last], bodies[last]);
      LastFrameAfter(c.put, bodies, line.output);
    }
  }

  lemma HealthyWrites(c: Ends, line: Line, r: Request, body: seq<byte>)
    requires Healthy(c, [r], [body])
    ensures Turn(c, line, r).1.output == line.output + Frame(c.put, body)
  {
    assert [r][0] == r && [body][0] == body;
  }

  lemma HealthyParts(c: Ends, requests: seq<Request>, bodies: seq<seq<byte>>)
    requires Healthy(c, requests, bodies) && requests != []
    ensures var last := |requests| - 1;
            Healthy(c, requests[..last], bodies[..last]) && Healthy(c, [requests[last]], [bodies[last]])
  {}

  lemma {:induction false} TurnsThen(c: Ends, line: Line, requests: seq<Request>, mid: Line,
      response: Option<Message>, after: Line)
    requires requests != [] && Turns(c, line, requests[..|requests| - 1]).1 == mid
    requires Turn(c, mid, requests[|requests| - 1]) == (response, after)
    ensures Turns(c, line, requests) == (Turns(c, line, requests[..|requests| - 1]).0 + [response], after)
  {}

  lemma HealthyTurn(
    c: Ends, output: seq<byte>, r: Request, body: seq<byte>, reply: seq<byte>, more: seq<byte>)
    requires (forall n :: c.get(c.put(n)) == n) && Healthy(c, [r], [body]) && |reply| < TWO_32
    ensures Turn(c, Line(output, Frame(c.put, reply) + more), r) ==
        (c.open(reply), Line(output + Frame(c.put, body), more))
  {
    assert [r][0] == r && [body][0] == body;
    ReadReplyFrame(c, reply, more);
  }

  lemma {:induction false} LastFrameAndMore(put: Put, bodies: seq<seq<byte>>, more: seq<byte>)
    requires bodies != []
    ensures var last := |bodies| - 1;
            Wire(put, bodies) + more == Wire(put, bodies[..last]) + (Frame(put, bodies[last]) + more)
  {
    var last := |bodies| - 1;
    WireOfLast(put, bodies);
    Regroup(Wire(put, bodies[..last]), Frame(put, bodies[last]), more);
  }

  lemma {:induction false} LastFrameAfter(put: Put, bodies: seq<seq<byte>>, output: seq<byte>)
    requires bodies != []
    ensures var last := |bodies| - 1;
            output + Wire(put, bodies) == (output + Wire(put, bodies[..last])) + Frame(put, bodies[last])
  {
    var last := |bodies| - 1;
    WireOfLast(put, bodies);
    Regroup(output, Wire(put, bodies[..last]), Frame(put, bodies[last]));
  }

  lemma {:induction false} WireOfLast(put: Put, bodies: seq<seq<byte>>)
    requires bodies != []
    ensures Wire(put, bodies) == Wire(put, bodies[..|bodies| - 1]) + Frame(put, bodies[|bodies| - 1])
  {
    var last := |bodies| - 1;
    assert bodies == bodies[..last] + [bodies[last]];
    WireAppend(put, bodies[..last], [bodies[last]]);
    WireOne(put, bodies[last]);
  }

  /** As long as nothing can be sealed, with no cipher or no randomness, every request fails and nothing is written. */
  lemma {:induction false} NoCipherNoBytes(c: Ends, line: Line, requests: seq<Request>)
    requires forall r :: r in requests ==> r.iv.None? || c.seal(r.iv.value, r.msg).None?
    ensures Turns(c, line, requests).1 == line
    ensures forall i :: 0 <= i < |requests| ==> Turns(c, line, requests).0[i] == None
  {
    if requests != [] {
      var last := |requests| - 1;
      NoCipherNoBytes(c, line, requests[..last]);
      assert requests[last] in requests;
    }
  }

  /** A request that cannot be sealed is a step that leaves the connection as it was. */
  lemma FailedSealIsStep(c: Ends, s: State, r: Request, rest: seq<byte>)
    requires s.loop.Dequeued? && (r.iv.None? || c.seal(r.iv.value, r.msg).None?)
    ensures var s1 := Step(c, s, Action.PrepareFails);
            && s1 == Some(s.(loop := Responding(s.loop.id, Failed)))
            && Turn(c, Line(s.up, rest), r) == (None, Line(s1.value.up, rest))
  {}

  /** The writing half of a turn is two steps of the link, which put the same bytes on the stream. */
  lemma WritesAreSteps(c: Ends, s: State, iv: Block, rest: seq<byte>)
    requires s.loop.Dequeued? && s.loop.id in s.calls && !s.broken && c.seal(iv, s.calls[s.loop.id].msg).Some?
    ensures var body := c.seal(iv, s.calls[s.loop.id].msg).value;
            var r := Request(s.calls[s.loop.id].msg, Some(iv), Whole, Whole);
            var s1 := Step(c, s, Action.WriteLength(iv, 4, true));
            && s1.Some?
            && var s2 := Step(c, s1.value, Action.WriteBody(|body|, true));
               && s2.Some? && s2.value.loop == AwaitLength(s.loop.id)
               && s2.value.up == Turn(c, Line(s.up, rest), r).1.output
  {
    var body := c.seal(iv, s.calls[s.loop.id].msg).value;
    var prefix := LengthPrefix(c.put, body);
    assert prefix[..4] == prefix && body[..|body|] == body;
    Regroup(s.up, prefix, body);
  }

  /** A write that fails is a step too: the same bytes are on the stream, and the call gets an error. */
  lemma CutLengthIsStep(c: Ends, s: State, iv: Block, n: nat, rest: seq<byte>)
    requires s.loop.Dequeued? && s.loop.id in s.calls && !s.broken && c.seal(iv, s.calls[s.loop.id].msg).Some? && n <= 4
    ensures var r := Request(s.calls[s.loop.id].msg, Some(iv), Cut(n), Whole);
            var (response, line) := Turn(c, Line(s.up, rest), r);
            var s1 := Step(c, s, Action.WriteLength(iv, n, false));
            && s1.Some? && response == None && s1.value.loop == Responding(s.loop.id, Failed)
            && s1.value.broken && s1.value.up == line.output
  {}

  lemma CutBodyIsStep(c: Ends, s: State, iv: Block, n: nat, rest: seq<byte>)
    requires s.loop.Dequeued? && s.loop.id in s.calls && !s.broken && c.seal(iv, s.calls[s.loop.id].msg).Some?
    requires n <= |c.seal(iv, s.calls[s.loop.id].msg).value|
    ensures var r := Request(s.calls[s.loop.id].msg, Some(iv), Whole, Cut(n));
            var (response, line) := Turn(c, Line(s.up, rest), r);
            var s1 := Step(c, s, Action.WriteLength(iv, 4, true));
            && s1.Some? && response == None
            && var s2 := Step(c, s1.value, Action.WriteBody(n, false));
               && s2.Some? && s2.value.loop == Responding(s.loop.id, Failed)
               && s2.value.broken && s2.value.up == line.output
  {
    var body := c.seal(iv, s.calls[s.loop.id].msg).value;
    var prefix := LengthPrefix(c.put, body);
    assert prefix[..4] == prefix;
    Regroup(s.up, prefix, body[..n]);
  }

  /** Once a reply is there, the reading half is two more steps, with the same response. */
  lemma ReadsAreSteps(c: Ends, s: State)
    requires s.loop.AwaitLength? && !s.broken && s.downRead + 4 <= |s.down|
    requires s.downRead + 4 + c.get(s.down[s.downRead..s.downRead + 4]) <= |s.down|
    ensures var (reply, rest) := ReadReply(c, s.down[s.downRead..]);
            var s1 := Step(c, s, Action.ReadLength(true));
            && s1.Some?
            && var s2 := Step(c, s1.value, Action.ReadBody(true));
               && s2.Some? && s2.value.down[s2.value.downRead..] == rest
               && s2.value.loop == Responding(s.loop.id, match reply case Some(m) => Reply(m) case None => Failed)
  {
    var stream, p := s.down[s.downRead..], s.downRead;
    var n := c.get(stream[..4]);
    assert stream[..4] == s.down[p..p + 4];
    assert stream[4..][..n] == s.down[p + 4..p + 4 + n];
    assert stream[4..][n..] == s.down[p + 4 + n..];
  }

  /** If the stream ends before the reply does, the failed read is the last step, with an error for the call. */
  lemma FailedReadsAreSteps(c: Ends, s: State)
    requires s.loop.AwaitLength? && !s.broken && s.downRead <= |s.down|
    requires var left := |s.down| - s.downRead;
             left < 4 || left - 4 < c.get(s.down[s.downRead..s.downRead + 4])
    ensures ReadReply(c, s.down[s.downRead..]) == (None, [])
    ensures var s1 := Step(c, s, Action.ReadLength(|s.down| - s.downRead >= 4));
            && s1.Some?
            && (|s.down| - s.downRead < 4 ==> s1.value.broken && s1.value.loop == Responding(s.loop.id, Failed))
            && (|s.down| - s.downRead >= 4 ==>
                  && Step(c, s1.value, Action.ReadBody(true)) == None
                  && var s2 := Step(c, s1.value, Action.ReadBody(false));
                     s2.Some? && s2.value.broken && s2.value.loop == Responding(s.loop.id, Failed))
  {
    if |s.down| - s.downRead >= 4 {
      assert s.down[s.downRead..][..4] == s.down[s.downRead..s.downRead + 4];
    }
  }
}
