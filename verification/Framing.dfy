/**
 Length-prefixed frames on a byte stream: what the request loop writes and what the connection
 handler reads. JSON stays a pair of functions; only the facts named in Faithful are used.
 */
module Framing {
  import opened Bytes
  import Crypto

  const MAX_MESSAGE := 65536

  /** Four bytes on the wire, and the numbers they stand for. */
  type Word = b: seq<byte> | |b| == 4 witness [0, 0, 0, 0]
  type uint32 = n: int | 0 <= n < TWO_32
  type Put = uint32 -> Word

  /**
   The functions the two ends share: the block cipher, encoding/json and encoding/binary. The last
   two are left open; Faithful says what is used of them.
   */
  datatype Codec<!M> = Codec(block: Block -> Block,
                             marshal: M -> Option<seq<byte>>,
                             unmarshal: seq<byte> -> Option<M>,
                             putUint32: uint32 -> Word,
                             getUint32: Word -> uint32)

  /** Lengths and objects survive the round trip, and no object that is cut short parses. */
  ghost predicate Faithful<M(!new)>(c: Codec<M>) {
    && LengthsAgree(c)
    && c.unmarshal([]) == None
    && (forall m :: c.marshal(m).Some? ==> c.unmarshal(c.marshal(m).value) == Some(m))
    && (forall m, t {:trigger c.marshal(m), c.unmarshal(t)} ::
          c.marshal(m).Some? && t < c.marshal(m).value ==> c.unmarshal(t) == None)
  }

  ghost predicate LengthsAgree<M>(c: Codec<M>) {
    forall n :: c.getUint32(c.putUint32(n)) == n
  }

  /** binary.BigEndian, which both ends use, is such a pair. */
  lemma BigEndianAgrees<M>(c: Codec<M>)
    requires c.putUint32 == ((n: uint32) => PutUint32(n)) && c.getUint32 == ((b: Word) => Uint32(b))
    ensures LengthsAgree(c)
  {
    forall n: uint32 ensures c.getUint32(c.putUint32(n)) == n {
      Uint32OfPut(n);
    }
  }

  /** Decrypt followed by json.Unmarshal; any failure makes the reader give the message up. */
  function Open<M>(c: Codec<M>, body: seq<byte>): Option<M> {
    match Crypto.Unseal(c.block, body)
    case Ok(text) => c.unmarshal(text)
    case Err(_) => None
  }

  /** A reply is sealed even when json.Marshal failed, for the server drops that error. */
  function SealReply<M>(c: Codec<M>, iv: Block, reply: M): seq<byte> {
    Crypto.Seal(c.block, iv, match c.marshal(reply) case Some(text) => text case None => [])
  }

  /** The length is written as uint32(len(body)), so it wraps for bodies of 4 GiB and more. */
  function LengthPrefix(put: Put, body: seq<byte>): (p: Word) {
    put(|body| % TWO_32)
  }

  function Frame(put: Put, body: seq<byte>): (f: seq<byte>)
    ensures |f| == 4 + |body|
  {
    LengthPrefix(put, body) + body
  }

  function Wire(put: Put, bodies: seq<seq<byte>>): seq<byte> {
    if bodies == [] then [] else Frame(put, bodies[0]) + Wire(put, bodies[1..])
  }

  lemma {:induction false} WireAppend(put: Put, a: seq<seq<byte>>, b: seq<seq<byte>>)
    ensures Wire(put, a + b) == Wire(put, a) + Wire(put, b)
  {
    if a == [] {
      assert a + b == b;
    } else {
      assert (a + b)[0] == a[0] && (a + b)[1..] == a[1..] + b;
      WireAppend(put, a[1..], b);
      var x, y, z := Frame(put, a[0]), Wire(put, a[1..]), Wire(put, b);
      assert x + (y + z) == (x + y) + z;
    }
  }

  lemma WireOne(put: Put, body: seq<byte>)
    ensures Wire(put, [body]) == Frame(put, body)
  {
    assert [body][1..] == [];
  }

  lemma {:induction false} WireSplit(put: Put, bodies: seq<seq<byte>>, k: nat)
    requires k <= |bodies|
    ensures Wire(put, bodies) == Wire(put, bodies[..k]) + Wire(put, bodies[k..])
  {
    assert bodies == bodies[..k] + bodies[k..];
    WireAppend(put, bodies[..k], bodies[k..]);
  }

  /** Frame k starts where the first k frames end. */
  lemma {:induction false} WireAt(put: Put, bodies: seq<seq<byte>>, k: nat)
    requires k < |bodies|
    ensures Wire(put, bodies[..k + 1]) == Wire(put, bodies[..k]) + Frame(put, bodies[k])
    ensures Wire(put, bodies[..k + 1]) <= Wire(put, bodies)
  {
    var upTo := bodies[..k + 1];
    WireSplit(put, bodies, k + 1);
    WireSplit(put, upTo, k);
    assert upTo[..k] == bodies[..k] && upTo[k..] == [bodies[k]];
    WireOne(put, bodies[k]);
  }

  /** A reader standing at the start of frame k finds its length there, if four bytes are there at all. */
  lemma {:induction false} LengthAtFrame(put: Put, bodies: seq<seq<byte>>, bytes: seq<byte>, k: nat)
    requires bytes <= Wire(put, bodies) && k <= |bodies|
    requires |Wire(put, bodies[..k])| + 4 <= |bytes|
    ensures k < |bodies|
    ensures var p := |Wire(put, bodies[..k])|;
            bytes[p..p + 4] == LengthPrefix(put, bodies[k])
  {
    assert bodies[..|bodies|] == bodies;
    WireAt(put, bodies, k);
    var p, w := |Wire(put, bodies[..k])|, Wire(put, bodies);
    assert bytes[p..p + 4] == w[p..p + 4] == LengthPrefix(put, bodies[k]);
  }

  /** After the length come the bytes of the body. */
  lemma {:induction false} BodyAtFrame(put: Put, bodies: seq<seq<byte>>, bytes: seq<byte>, k: nat, n: nat)
    requires bytes <= Wire(put, bodies) && k < |bodies| && n <= |bodies[k]|
    requires |Wire(put, bodies[..k])| + 4 + n <= |bytes|
    ensures var p := |Wire(put, bodies[..k])| + 4;
            bytes[p..p + n] == bodies[k][..n] && p + |bodies[k]| == |Wire(put, bodies[..k + 1])|
  {
    WireAt(put, bodies, k);
    var p, w := |Wire(put, bodies[..k])| + 4, Wire(put, bodies);
    assert w[p..p + |bodies[k]|] == bodies[k];
    assert bytes[p..p + n] == w[p..p + n] == w[p..p + |bodies[k]|][..n];
  }

  datatype Stop = EndOfStream | CutShort | InvalidLength | Rejected

  datatype Received<M> = Received(messages: seq<M>, stop: Stop)

  datatype One<M> = Message(message: M, rest: seq<byte>) | Stopped(stop: Stop)

  /** One turn of the handler's loop on a stream that ends after these bytes. */
  function ReadOne<M>(c: Codec<M>, stream: seq<byte>): (r: One<M>)
    ensures r.Message? ==> |r.rest| < |stream|
  {
    if stream == [] then Stopped(EndOfStream)
    else if |stream| < 4 then Stopped(CutShort)
    else
      var n, after := c.getUint32(stream[..4]), stream[4..];
      if n == 0 || n > MAX_MESSAGE then Stopped(InvalidLength)
      else if |after| < n then Stopped(CutShort)
      else
        match Open(c, after[..n])
        case None => Stopped(Rejected)
        case Some(m) => Message(m, after[n..])
  }

  /** What the handler's read loop takes from such a stream before it closes the connection. */
  function ReadAll<M>(c: Codec<M>, stream: seq<byte>): Received<M>
    decreases |stream|
  {
    match ReadOne(c, stream)
    case Stopped(stop) => Received([], stop)
    case Message(m, rest) =>
      var later := ReadAll(c, rest);
      Received([m] + later.messages, later.stop)
  }

  /** What a Write did: all of it, or an error after the first n bytes. */
  datatype Sent = Whole | Cut(n: nat)

  function Part(data: seq<byte>, sent: Sent): seq<byte> {
    match sent case Whole => data case Cut(n) => data[..if n < |data| then n else |data|]
  }

  /** One end of a connection: the bytes that will arrive, how many were read, and the bytes written. */
  class Conn {
    const input: seq<byte>
    var position: nat
    var output: seq<byte>

    constructor (input: seq<byte>)
      ensures this.input == input && position == 0 && output == []
    {
      this.input := input;
      position, output := 0, [];
    }

    method Write(data: seq<byte>, sent: Sent) returns (ok: bool)
      modifies this`output
      ensures ok == sent.Whole? && output == old(output) + Part(data, sent)
    {
      output := output + Part(data, sent);
      ok := sent.Whole?;
    }

    ghost predicate Valid()
      reads this
    {
      position <= |input|
    }

    /** The bytes still to be read. */
    ghost function Rest(): seq<byte>
      requires Valid()
      reads this
    {
      input[position..]
    }

    /** io.ReadFull: all n bytes, or an error that tells an empty read from a short one. */
    method ReadFull(n: nat) returns (data: Option<seq<byte>>, atEnd: bool)
      requires Valid()
      modifies this`position
      ensures Valid()
      ensures atEnd == (old(Rest()) == [])
      ensures data == if n <= |old(Rest())| then Some(old(Rest())[..n]) else None
      ensures Rest() == if n <= |old(Rest())| then old(Rest())[n..] else []
    {
      atEnd := position == |input|;
      if n <= |input| - position {
        data := Some(input[position..][..n]);
        position := position + n;
      } else {
        data := None;
        position := |input|;
      }
    }

    /** The receiving half of one turn of handleConn. */
    method Receive<M>(c: Codec<M>) returns (message: Option<M>, stop: Stop)
      requires Valid()
      modifies this`position
      ensures Valid()
      ensures match ReadOne(c, old(Rest()))
              case Message(m, rest) => message == Some(m) && Rest() == rest
              case Stopped(why) => message == None && stop == why
    {
      message, stop := None, CutShort;
      var lenBuf, atEnd := ReadFull(4);
      if lenBuf.None? {
        return None, if atEnd then EndOfStream else CutShort;
      }
      var msgLen := c.getUint32(lenBuf.value);
      if msgLen == 0 || msgLen > MAX_MESSAGE {
        return None, InvalidLength;
      }
      var msgBuf, _ := ReadFull(msgLen);
      if msgBuf.None? {
        return None, CutShort;
      }
      message := Open(c, msgBuf.value);
      stop := Rejected;
    }

    /** The whole loop, up to the point where handleConn closes the connection. */
    method ReceiveAll<M>(c: Codec<M>) returns (r: Received<M>)
      requires Valid()
      modifies this`position
      ensures Valid()
      ensures r == ReadAll(c, old(Rest()))
    {
      var messages: seq<M> := [];
      ghost var all := ReadAll(c, Rest());
      assert Then([], all) == all;
      while true
        invariant Valid()
        invariant all == Then(messages, ReadAll(c, Rest()))
        decreases |Rest()|
      {
        ghost var stream := Rest();
        var message, stop := Receive(c);
        ThenNext(c, stream, messages);
        if message.None? {
          return Received(messages, stop);
        }
        messages := messages + [message.value];
      }
    }
  }

  function Then<M>(first: seq<M>, more: Received<M>): Received<M> {
    Received(first + more.messages, more.stop)
  }

  lemma {:induction false} ThenNext<M>(c: Codec<M>, stream: seq<byte>, first: seq<M>)
    ensures Then(first, ReadAll(c, stream)) ==
            match ReadOne(c, stream)
            case Message(m, rest) => Then(first + [m], ReadAll(c, rest))
            case Stopped(stop) => Received(first, stop)
  {
    match ReadOne(c, stream)
    case Message(m, rest) => assert first + ([m] + ReadAll(c, rest).messages) ==
      (first + [m]) + ReadAll(c, rest).messages;
    case Stopped(_) => assert first + [] == first;
  }

  /** Bodies that carry these messages, each under its own vector. */
  ghost predicate Carries<M>(c: Codec<M>, bodies: seq<seq<byte>>, ivs: seq<Block>, messages: seq<M>) {
    && |bodies| == |ivs| == |messages|
    && forall i :: 0 <= i < |bodies| ==>
         c.marshal(messages[i]).Some? && bodies[i] == Crypto.Seal(c.block, ivs[i], c.marshal(messages[i]).value)
  }

  lemma OpenSealed<M(!new)>(c: Codec<M>, m: M, iv: Block)
    requires Faithful(c) && c.marshal(m).Some?
    ensures Open(c, Crypto.Seal(c.block, iv, c.marshal(m).value)) == Some(m)
  {
    Crypto.UnsealOfSeal(c.block, iv, c.marshal(m).value);
  }

  /** A body read up to a wrapped length never opens. */
  lemma OpenWrapped<M(!new)>(c: Codec<M>, m: M, iv: Block)
    requires Faithful(c) && c.marshal(m).Some?
    requires |Crypto.Seal(c.block, iv, c.marshal(m).value)| >= TWO_32
    ensures var body := Crypto.Seal(c.block, iv, c.marshal(m).value);
            Open(c, body[..|body| % TWO_32]) == None
  {
    var plain := c.marshal(m).value;
    var body := Crypto.Seal(c.block, iv, plain);
    var k := |body| % TWO_32 / 4;
    assert |body| % TWO_32 == 4 * k;
    Crypto.UnsealOfCut(c.block, iv, plain, 4 * k);
    match Crypto.Unseal(c.block, body[..4 * k])
    case Ok(cut) => assert c.unmarshal(cut) == None;
    case Err(_) =>
  }

  lemma LengthOfFrame<M>(c: Codec<M>, body: seq<byte>)
    requires LengthsAgree(c) && |body| < TWO_32
    ensures c.getUint32(LengthPrefix(c.putUint32, body)) == |body|
  {}

  lemma ReadOneParts<M>(c: Codec<M>, stream: seq<byte>, body: seq<byte>, rest: seq<byte>)
    requires |stream| >= 4 && stream[4..] == body + rest && (body + rest)[..|body|] == body
        && (body + rest)[|body|..] == rest
    requires c.getUint32(stream[..4]) == |body| && 0 < |body| <= MAX_MESSAGE
    ensures ReadOne(c, stream) == match Open(c, body) case None => Stopped(Rejected) case Some(m) => Message(m, rest)
  {}

  lemma ReadOneFrame<M>(c: Codec<M>, body: seq<byte>, m: M, rest: seq<byte>)
    requires LengthsAgree(c) && Open(c, body) == Some(m) && 0 < |body| <= MAX_MESSAGE
    ensures ReadOne(c, Frame(c.putUint32, body) + rest) == Message(m, rest)
  {
    FrameParts(c.putUint32, body, rest);
    LengthOfFrame(c, body);
    ReadOneParts(c, Frame(c.putUint32, body) + rest, body, rest);
  }

  lemma FrameParts(put: Put, body: seq<byte>, rest: seq<byte>)
    ensures (Frame(put, body) + rest)[..4] == LengthPrefix(put, body)
    ensures (Frame(put, body) + rest)[4..] == body + rest
    ensures (body + rest)[..|body|] == body && (body + rest)[|body|..] == rest
  {}

  lemma ReadOneCut<M>(c: Codec<M>, body: seq<byte>, cut: nat)
    requires LengthsAgree(c) && 0 < |body| <= MAX_MESSAGE && cut < |Frame(c.putUint32, body)|
    ensures ReadOne(c, Frame(c.putUint32, body)[..cut]) == Stopped(if cut == 0 then EndOfStream else CutShort)
  {
    if cut >= 4 {
      assert Frame(c.putUint32, body)[..cut][..4] == c.putUint32(|body|);
    }
  }

  /** What was sealed opens to the same message, unless its length wrapped: then it does not open. */
  lemma OpenAtLength<M(!new)>(c: Codec<M>, m: M, iv: Block)
    requires Faithful(c) && c.marshal(m).Some?
    ensures var body := Crypto.Seal(c.block, iv, c.marshal(m).value);
            Open(c, body[..|body| % TWO_32]) == if |body| < TWO_32 then Some(m) else None
  {
    var body := Crypto.Seal(c.block, iv, c.marshal(m).value);
    if |body| < TWO_32 {
      assert body[..|body| % TWO_32] == body;
      OpenSealed(c, m, iv);
    } else {
      OpenWrapped(c, m, iv);
    }
  }

  /** Bodies the handler takes, and the messages it reads out of them. */
  ghost predicate Readable<M>(c: Codec<M>, bodies: seq<seq<byte>>, messages: seq<M>) {
    && |bodies| == |messages|
    && forall i :: 0 <= i < |bodies| ==> 0 < |bodies[i]| <= MAX_MESSAGE && Open(c, bodies[i]) == Some(messages[i])
  }

  /** From any prefix of the stream the loop takes exactly the messages whose frames are complete. */
  lemma {:induction false} ReadPrefix<M>(c: Codec<M>, bodies: seq<seq<byte>>, messages: seq<M>, cut: nat, k: nat)
    requires LengthsAgree(c) && Readable(c, bodies, messages)
    requires k <= |bodies| && |Wire(c.putUint32, bodies[..k])| <= cut <= |Wire(c.putUint32, bodies)|
    requires k < |bodies| ==> cut < |Wire(c.putUint32, bodies[..k + 1])|
    ensures ReadAll(c, Wire(c.putUint32, bodies)[..cut]) ==
            Received(messages[..k], if cut == |Wire(c.putUint32, bodies[..k])| then EndOfStream else CutShort)
    decreases k
  {
    if k == 0 {
      ReadNoneYet(c, bodies, messages, cut);
    } else {
      var left := cut - |Frame(c.putUint32, bodies[0])|;
      ReadableRest(c, bodies, messages);
      CutAfterFirst(c.putUint32, bodies, cut, k);
      ReadPrefix(c, bodies[1..], messages[1..], left, k - 1);
      ReadFirst(c, bodies, messages, cut, left, messages[1..][..k - 1]);
      TakeFirst(messages, k);
    }
  }

  lemma ReadableRest<M>(c: Codec<M>, bodies: seq<seq<byte>>, messages: seq<M>)
    requires Readable(c, bodies, messages) && bodies != []
    ensures Readable(c, bodies[1..], messages[1..])
  {
    var rest, later := bodies[1..], messages[1..];
    forall i | 0 <= i < |rest| ensures 0 < |rest[i]| <= MAX_MESSAGE && Open(c, rest[i]) == Some(later[i]) {
      assert rest[i] == bodies[i + 1] && later[i] == messages[i + 1];
    }
  }

  lemma TakeFirst<T>(s: seq<T>, k: nat)
    requires 0 < k <= |s|
    ensures s[..k] == [s[0]] + s[1..][..k - 1]
  {}

  lemma {:induction false} ReadFirst<M>(
    c: Codec<M>, bodies: seq<seq<byte>>, messages: seq<M>, cut: nat, left: nat, later: seq<M>)
    requires LengthsAgree(c) && Readable(c, bodies, messages) && bodies != []
    requires cut <= |Wire(c.putUint32, bodies)| && left <= |Wire(c.putUint32, bodies[1..])|
    requires Wire(c.putUint32, bodies)[..cut] ==
             Frame(c.putUint32, bodies[0]) + Wire(c.putUint32, bodies[1..])[..left]
    requires ReadAll(c, Wire(c.putUint32, bodies[1..])[..left]).messages == later
    ensures ReadAll(c, Wire(c.putUint32, bodies)[..cut]) ==
            Received([messages[0]] + later, ReadAll(c, Wire(c.putUint32, bodies[1..])[..left]).stop)
  {
    ReadThen(c, bodies[0], messages[0], Wire(c.putUint32, bodies[1..])[..left]);
  }

  lemma {:induction false} ReadNoneYet<M>(c: Codec<M>, bodies: seq<seq<byte>>, messages: seq<M>, cut: nat)
    requires LengthsAgree(c) && Readable(c, bodies, messages) && cut <= |Wire(c.putUint32, bodies)|
    requires bodies != [] ==> cut < |Wire(c.putUint32, bodies[..1])|
    ensures ReadAll(c, Wire(c.putUint32, bodies)[..cut]) == Received([], if cut == 0 then EndOfStream else CutShort)
  {
    if bodies != [] {
      WireAt(c.putUint32, bodies, 0);
      assert Wire(c.putUint32, bodies)[..cut] == Frame(c.putUint32, bodies[0])[..cut];
      ReadOneCut(c, bodies[0], cut);
    }
  }

  lemma {:induction false} ReadThen<M>(c: Codec<M>, body: seq<byte>, m: M, rest: seq<byte>)
    requires LengthsAgree(c) && Open(c, body) == Some(m) && 0 < |body| <= MAX_MESSAGE
    ensures var later := ReadAll(c, rest);
            ReadAll(c, Frame(c.putUint32, body) + rest) == Received([m] + later.messages, later.stop)
  {
    ReadOneFrame(c, body, m, rest);
  }

  lemma FirstAndRest(put: Put, bodies: seq<seq<byte>>, k: nat)
    requires 0 < k <= |bodies|
    ensures Wire(put, bodies[..k]) == Frame(put, bodies[0]) + Wire(put, bodies[1..][..k - 1])
  {
    assert bodies[..k][1..] == bodies[1..][..k - 1];
  }

  lemma CutAfterFirst(put: Put, bodies: seq<seq<byte>>, cut: nat, k: nat)
    requires 0 < k <= |bodies| && |Wire(put, bodies[..k])| <= cut <= |Wire(put, bodies)|
    ensures var rest, size := bodies[1..], |Frame(put, bodies[0])|;
            && |Wire(put, bodies[..k])| == size + |Wire(put, rest[..k - 1])|
            && (k < |bodies| ==> |Wire(put, bodies[..k + 1])| == size + |Wire(put, rest[..k])|)
            && size <= cut <= size + |Wire(put, rest)|
            && Wire(put, bodies)[..cut] == Frame(put, bodies[0]) + Wire(put, rest)[..cut - size]
  {
    FirstAndRest(put, bodies, k);
    if k < |bodies| {
      FirstAndRest(put, bodies, k + 1);
    }
  }

  lemma CarriedIsReadable<M(!new)>(c: Codec<M>, bodies: seq<seq<byte>>, ivs: seq<Block>,
      messages: seq<M>)
    requires Faithful(c) && Carries(c, bodies, ivs, messages)
    requires forall i :: 0 <= i < |bodies| ==> |bodies[i]| <= MAX_MESSAGE
    ensures Readable(c, bodies, messages)
  {
    forall i | 0 <= i < |bodies| ensures |bodies[i]| > 0 && Open(c, bodies[i]) == Some(messages[i]) {
      OpenSealed(c, messages[i], ivs[i]);
    }
  }

  /** How many frames are complete among the first cut bytes of the stream. */
  function CompleteFrames(put: Put, bodies: seq<seq<byte>>, cut: nat): (k: nat)
    ensures k <= |bodies| && |Wire(put, bodies[..k])| <= cut
    ensures k < |bodies| ==> cut < |Wire(put, bodies[..k + 1])|
  {
    if bodies == [] then 0
    else if cut < |Frame(put, bodies[0])| then
      assert bodies[..1] == [bodies[0]];
      WireOne(put, bodies[0]);
      0
    else
      var k := CompleteFrames(put, bodies[1..], cut - |Frame(put, bodies[0])|);
      FirstAndRest(put, bodies, k + 1);
      assert k + 1 < |bodies| ==> cut < |Wire(put, bodies[..k + 2])| by {
        if k + 1 < |bodies| {
          FirstAndRest(put, bodies, k + 2);
        }
      }
      k + 1
  }

  /** From every byte prefix of the stream the loop takes exactly the messages whose frames are complete. */
  lemma {:induction false} ReadEveryPrefix<M(!new)>(
    c: Codec<M>, bodies: seq<seq<byte>>, ivs: seq<Block>, messages: seq<M>, cut: nat)
    requires Faithful(c) && Carries(c, bodies, ivs, messages)
    requires forall i :: 0 <= i < |bodies| ==> |bodies[i]| <= MAX_MESSAGE
    requires cut <= |Wire(c.putUint32, bodies)|
    ensures var k := CompleteFrames(c.putUint32, bodies, cut);
            ReadAll(c, Wire(c.putUint32, bodies)[..cut]) ==
            Received(messages[..k], if cut == |Wire(c.putUint32, bodies[..k])| then EndOfStream else CutShort)
  {
    CarriedIsReadable(c, bodies, ivs, messages);
    ReadPrefix(c, bodies, messages, cut, CompleteFrames(c.putUint32, bodies, cut));
  }

  /** The whole stream gives back the whole list, in order, and a clean end. */
  lemma {:induction false} ReadWhole<M(!new)>(c: Codec<M>, bodies: seq<seq<byte>>, ivs: seq<Block>, messages: seq<M>)
    requires Faithful(c) && Carries(c, bodies, ivs, messages)
    requires forall i :: 0 <= i < |bodies| ==> |bodies[i]| <= MAX_MESSAGE
    ensures ReadAll(c, Wire(c.putUint32, bodies)) == Received(messages, EndOfStream)
  {
    CarriedIsReadable(c, bodies, ivs, messages);
    assert bodies[..|bodies|] == bodies && messages[..|messages|] == messages;
    assert Wire(c.putUint32, bodies)[..|Wire(c.putUint32, bodies)|] == Wire(c.putUint32, bodies);
    ReadPrefix(c, bodies, messages, |Wire(c.putUint32, bodies)|, |bodies|);
  }

  /** Whatever its size, a message is taken by the loop exactly when it has at most 49136 bytes. */
  lemma TakenIffFits<M(!new)>(c: Codec<M>, m: M, iv: Block, rest: seq<byte>)
    requires Faithful(c) && c.marshal(m).Some?
    ensures ReadOne(c, Frame(c.putUint32, Crypto.Seal(c.block, iv, c.marshal(m).value)) + rest) == Message(m, rest)
       <==> |c.marshal(m).value| <= 49136
  {
    var body := Crypto.Seal(c.block, iv, c.marshal(m).value);
    Crypto.SealedSize(c.block, iv, c.marshal(m).value);
    if |body| <= MAX_MESSAGE {
      OpenSealed(c, m, iv);
      ReadOneFrame(c, body, m, rest);
    } else {
      if |body| >= TWO_32 {
        OpenWrapped(c, m, iv);
      }
      ReadOneTooLong(c, body, rest);
    }
  }

  lemma ReadOneTooLong<M>(c: Codec<M>, body: seq<byte>, rest: seq<byte>)
    requires LengthsAgree(c) && |body| > MAX_MESSAGE
    requires |body| >= TWO_32 ==> Open(c, body[..|body| % TWO_32]) == None
    ensures ReadOne(c, Frame(c.putUint32, body) + rest).Stopped?
  {
    var n := |body| % TWO_32;
    FrameParts(c.putUint32, body, rest);
    ReadOneStops(c, Frame(c.putUint32, body) + rest, body, rest, n);
  }

  lemma ReadOneStops<M>(c: Codec<M>, stream: seq<byte>, body: seq<byte>, rest: seq<byte>, n: nat)
    requires |stream| >= 4 && stream[4..] == body + rest && c.getUint32(stream[..4]) == n <= |body|
    requires n > MAX_MESSAGE || Open(c, body[..n]) == None
    ensures ReadOne(c, stream).Stopped?
  {
    assert (body + rest)[..n] == body[..n];
  }
}
