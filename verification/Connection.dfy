/** Cutting the TCP byte stream back into chunks (src/ua_connection.c). */
module Connection {
  import opened Bytes

  // Message types, first three bytes of a chunk, as little-endian numbers.
  const ACK: int := 0x4B4341
  const HEL: int := 0x4C4548
  const MSG: int := 0x47534D
  const OPN: int := 0x4E504F
  const CLO: int := 0x4F4C43
  const ERR: int := 0x525245

  const CHUNK_FINAL: byte := 0x46
  const CHUNK_INTERMEDIATE: byte := 0x43
  const CHUNK_ABORT: byte := 0x41

  /** What the receiver can tell from the bytes at the read position. */
  datatype Head = Wait | Reject(status: Status) | Complete(length: nat)

  function MessageTypeOf(buf: seq<byte>): int
    requires |buf| >= 3
  {
    buf[0] as int + 0x100 * (buf[1] as int) + 0x1_0000 * (buf[2] as int)
  }

  function Examine(buf: seq<byte>, limit: nat): (h: Head)
    ensures h.Complete? ==> 16 <= h.length <= |buf| && h.length <= limit
    ensures h.Reject? ==> h.status != Good && |buf| >= 8
    ensures h.Wait? ==> |buf| < 8 || |buf| < limit
  {
    if |buf| < 8 then Wait
    else if MessageTypeOf(buf) !in {MSG, ERR, OPN, HEL, ACK, CLO} then Reject(BadTcpMessageTypeInvalid)
    else if buf[3] !in {CHUNK_INTERMEDIATE, CHUNK_FINAL, CHUNK_ABORT} then Reject(BadTcpMessageTypeInvalid)
    else
      var length := DecodeU32(buf, 4);
      if length < 16 || length > limit then Reject(BadTcpMessageTooLarge)
      else if length > |buf| then Wait
      else Complete(length)
  }

  /** The first three bytes as characters. */
  function Word(buf: seq<byte>): string
    requires |buf| >= 3
  {
    [buf[0] as char, buf[1] as char, buf[2] as char]
  }

  predicate KnownWord(w: string) {
    w == "HEL" || w == "ACK" || w == "ERR" || w == "OPN" || w == "MSG" || w == "CLO"
  }

  predicate KnownKind(b: byte) {
    b as char == 'C' || b as char == 'F' || b as char == 'A'
  }

  /** The size field: bytes 4 to 7, the lowest first. */
  function SizeField(buf: seq<byte>): int
    requires |buf| >= 8
  {
    buf[4] as int + 256 * (buf[5] as int) + 65536 * (buf[6] as int) + 16777216 * (buf[7] as int)
  }

  /** Six words and three kinds are let through, with a size from 16 to the limit. */
  lemma RefusedIff(buf: seq<byte>, limit: nat)
    requires |buf| >= 8
    ensures Examine(buf, limit) == Reject(BadTcpMessageTypeInvalid) <==> !KnownWord(Word(buf)) || !KnownKind(buf[3])
    ensures Examine(buf, limit) == Reject(BadTcpMessageTooLarge)
       <==> KnownWord(Word(buf)) && KnownKind(buf[3]) && (SizeField(buf) < 16 || SizeField(buf) > limit)
    ensures Examine(buf, limit).Reject? <==> Examine(buf, limit) == Reject(BadTcpMessageTypeInvalid) || Examine(buf, limit) == Reject(BadTcpMessageTooLarge)
    ensures Examine(buf, limit).Complete? ==> Examine(buf, limit) == Complete(SizeField(buf))
    ensures Examine(buf, limit) == Wait ==> SizeField(buf) > |buf|
  {
    WordsAreCodes(buf);
  }

  lemma WordsAreCodes(buf: seq<byte>)
    requires |buf| >= 3
    ensures KnownWord(Word(buf)) <==> MessageTypeOf(buf) in {MSG, ERR, OPN, HEL, ACK, CLO}
  {
    var w, t := Word(buf), MessageTypeOf(buf);
    assert w == "HEL" <==> t == HEL by { SameWord(buf, "HEL", HEL); }
    assert w == "ACK" <==> t == ACK by { SameWord(buf, "ACK", ACK); }
    assert w == "ERR" <==> t == ERR by { SameWord(buf, "ERR", ERR); }
    assert w == "OPN" <==> t == OPN by { SameWord(buf, "OPN", OPN); }
    assert w == "MSG" <==> t == MSG by { SameWord(buf, "MSG", MSG); }
    assert w == "CLO" <==> t == CLO by { SameWord(buf, "CLO", CLO); }
  }

  /** A word and its code as a number stand for the same three bytes. */
  lemma SameWord(buf: seq<byte>, w: string, code: int)
    requires |buf| >= 3 && |w| == 3 && w[0] < 256 as char && w[1] < 256 as char && w[2] < 256 as char
    requires code == w[0] as int + 256 * (w[1] as int) + 65536 * (w[2] as int)
    ensures Word(buf) == w <==> MessageTypeOf(buf) == code
  {
    if MessageTypeOf(buf) == code {
      assert buf[0] as int == code % 256 && buf[1] as int == code / 256 % 256 && buf[2] as int == code / 65536;
      assert Word(buf)[0] == w[0] && Word(buf)[1] == w[1] && Word(buf)[2] == w[2];
    }
  }

  /** A whole chunk of any known type and kind, with its own length in the size field, is
      handed to the application, whatever follows it. */
  lemma WholeChunkIsHandedOver<S>(chunk: seq<byte>, rest: seq<byte>, limit: nat, step: Callback<S>, app: S)
    requires 16 <= |chunk| <= limit && KnownWord(Word(chunk)) && KnownKind(chunk[3]) && SizeField(chunk) == |chunk|
    ensures var p, (app', status) := Drain(chunk + rest, Framing(limit), step, app), step(app, chunk);
      && p.delivered != [] && p.delivered[0] == chunk
      && (if status == Good then p.app == Drain(rest, Framing(limit), step, app').app else p.app == app' && p.status == status)
  {
    var buf := chunk + rest;
    assert Word(buf) == Word(chunk) && buf[3] == chunk[3] && SizeField(buf) == SizeField(chunk);
    RefusedIff(buf, limit);
    assert Framing(limit)(buf) == Examine(buf, limit) == Complete(|chunk|);
    assert buf[..|chunk|] == chunk && buf[|chunk|..] == rest;
  }

  /** What the conditions on the header decide: with eight bytes at hand the receiver waits
      exactly when some bytes to come complete the chunk, no more and no less. */
  lemma WaitsExactly(buf: seq<byte>, limit: nat)
    requires |buf| >= 8
    ensures Examine(buf, limit) == Wait <==> exists rest :: rest != [] && Examine(buf + rest, limit) == Complete(|buf + rest|)
  {
    forall rest: seq<byte>
      ensures MessageTypeOf(buf + rest) == MessageTypeOf(buf) && (buf + rest)[3] == buf[3]
      ensures DecodeU32(buf + rest, 4) == DecodeU32(buf, 4)
    {
    }
    if Examine(buf, limit) == Wait {
      var rest := Repeat(0, DecodeU32(buf, 4) - |buf|);
      assert Examine(buf + rest, limit) == Complete(|buf + rest|);
    }
  }

  /** A rule that finds the next chunk at the front of a buffer and always makes progress. */
  type Framer = f: seq<byte> -> Head |
    forall b :: (f(b).Complete? ==> 0 < f(b).length <= |b|) && (f(b).Reject? ==> f(b).status != Good)
    witness b => Wait

  /** More bytes behind never change a decision already taken. */
  ghost predicate Stable(frame: Framer) {
    forall a, b :: !frame(a).Wait? ==> frame(a + b) == frame(a)
  }

  function Framing(limit: nat): (f: Framer) {
    var f := (buf: seq<byte>) => Examine(buf, limit);
    f
  }

  lemma FramingStable(limit: nat)
    ensures Stable(Framing(limit))
  {
    forall a: seq<byte>, b: seq<byte> | !Framing(limit)(a).Wait?
      ensures Framing(limit)(a + b) == Framing(limit)(a)
    {
      assert forall i :: 0 <= i < 8 ==> (a + b)[i] == a[i];
    }
  }

  /** Result of feeding bytes: the application state, the chunks handed to it (the last one
      may be the one it failed on), the status and the bytes kept for the next packet. */
  datatype Progress<S> = Progress(app: S, delivered: seq<seq<byte>>, status: Status, rest: seq<byte>) {
    /** Continue after this result, unless it is an error. */
    function Then(next: (S, seq<byte>) -> Progress<S>): Progress<S> {
      if status != Good then this
      else var q := next(app, rest); q.(delivered := delivered + q.delivered)
    }
  }

  type Callback<!S> = (S, seq<byte>) -> (S, Status)

  /** Reference semantics: parse one contiguous byte string. */
  function Drain<S>(buf: seq<byte>, frame: Framer, step: Callback<S>, app: S): (p: Progress<S>)
    decreases |buf|
  {
    match frame(buf)
    case Wait => Progress(app, [], Good, buf)
    case Reject(e) => Progress(app, [], e, [])
    case Complete(n) =>
      var (app', status) := step(app, buf[..n]);
      if status != Good then Progress(app', [buf[..n]], status, [])
      else
        var p := Drain(buf[n..], frame, step, app');
        p.(delivered := [buf[..n]] + p.delivered)
  }

  /** The part of the result that the code keeps. */
  function Outcome<S>(buf: seq<byte>, frame: Framer, step: Callback<S>, app: S): (S, Status, seq<byte>) {
    var p := Drain(buf, frame, step, app); (p.app, p.status, p.rest)
  }

  /** One round of the parse. */
  lemma OutcomeOf<S>(buf: seq<byte>, head: Head, frame: Framer, step: Callback<S>, app: S)
    requires frame(buf) == head
    ensures match head
      case Wait => Outcome(buf, frame, step, app) == (app, Good, buf)
      case Reject(e) => Outcome(buf, frame, step, app) == (app, e, [])
      case Complete(n) =>
        var (app', status) := step(app, buf[..n]);
        Outcome(buf, frame, step, app) ==
          if status != Good then (app', status, []) else Outcome(buf[n..], frame, step, app')
  {
  }

  /** Reference semantics: packet after packet, until the first error. */
  function Receive<S>(packets: seq<seq<byte>>, carry: seq<byte>, frame: Framer, step: Callback<S>, app: S): (p: Progress<S>)
  {
    if packets == [] then Progress(app, [], Good, carry)
    else Drain(carry + packets[0], frame, step, app)
         .Then((app', carry') => Receive(packets[1..], carry', frame, step, app'))
  }

  /** Parsing a whole is parsing a first part and then the carried-over rest with what follows. */
  lemma {:induction false} DrainSplit<S>(a: seq<byte>, b: seq<byte>, frame: Framer, step: Callback<S>, app: S)
    requires Stable(frame)
    ensures Drain(a + b, frame, step, app) ==
            Drain(a, frame, step, app).Then((app', rest) => Drain(rest + b, frame, step, app'))
    decreases |a|
  {
    match frame(a)
    case Wait =>
    case Reject(_) =>
      assert frame(a + b) == frame(a);
    case Complete(n) =>
      assert frame(a + b) == frame(a);
      assert (a + b)[..n] == a[..n] && (a + b)[n..] == a[n..] + b;
      var (app', status) := step(app, a[..n]);
      if status == Good {
        DrainSplit(a[n..], b, frame, step, app');
        var p := Drain(a[n..], frame, step, app');
        if p.status == Good {
          var q := Drain(p.rest + b, frame, step, p.app);
          assert [a[..n]] + (p.delivered + q.delivered) == [a[..n]] + p.delivered + q.delivered;
        }
      }
  }

  /** While nothing failed no byte is lost or invented and the carry-over holds no complete
      chunk. After an error what was delivered is a prefix of the input. */
  ghost predicate Conserves<S>(p: Progress<S>, buf: seq<byte>, frame: Framer) {
    if p.status == Good then Flatten(p.delivered) + p.rest == buf && frame(p.rest) == Wait
    else Flatten(p.delivered) <= buf
  }

  lemma ConservesMore<S>(p: Progress<S>, chunk: seq<byte>, buf: seq<byte>, frame: Framer)
    requires Conserves(p, buf, frame)
    ensures Conserves(p.(delivered := [chunk] + p.delivered), chunk + buf, frame)
  {
    assert ([chunk] + p.delivered)[1..] == p.delivered;
    assert Flatten([chunk] + p.delivered) == chunk + Flatten(p.delivered);
    assert chunk + Flatten(p.delivered) + p.rest == chunk + (Flatten(p.delivered) + p.rest);
  }

  lemma {:induction false} Conservation<S>(buf: seq<byte>, frame: Framer, step: Callback<S>, app: S)
    ensures Conserves(Drain(buf, frame, step, app), buf, frame)
    decreases |buf|
  {
    match frame(buf)
    case Wait =>
    case Reject(_) =>
    case Complete(n) =>
      var (app', status) := step(app, buf[..n]);
      assert buf == buf[..n] + buf[n..];
      if status == Good {
        Conservation(buf[n..], frame, step, app');
        ConservesMore(Drain(buf[n..], frame, step, app'), buf[..n], buf[n..], frame);
      } else {
        assert Flatten([buf[..n]]) == buf[..n];
      }
  }

  /** However the stream is cut into packets, the result is that of the uncut stream. */
  lemma {:induction false} PacketsAreOneStream<S>(packets: seq<seq<byte>>, carry: seq<byte>, frame: Framer, step: Callback<S>, app: S)
    requires Stable(frame) && frame(carry) == Wait
    ensures Receive(packets, carry, frame, step, app) == Drain(carry + Flatten(packets), frame, step, app)
    decreases |packets|
  {
    if packets == [] {
      assert carry + Flatten(packets) == carry;
    } else {
      var first := carry + packets[0];
      var p := Drain(first, frame, step, app);
      Associative(carry, packets[0], Flatten(packets[1..]));
      DrainSplit(first, Flatten(packets[1..]), frame, step, app);
      Conservation(first, frame, step, app);
      if p.status == Good {
        PacketsAreOneStream(packets[1..], p.rest, frame, step, p.app);
      }
    }
  }

  /** Packet cutting does not matter: two cuts of one stream give the same application
      state, delivered chunks, first error and carry-over. */
  lemma CutsAgree<S>(cut1: seq<seq<byte>>, cut2: seq<seq<byte>>, limit: nat, step: Callback<S>, app: S)
    requires Flatten(cut1) == Flatten(cut2)
    ensures Receive(cut1, [], Framing(limit), step, app) == Receive(cut2, [], Framing(limit), step, app)
  {
    FramingStable(limit);
    PacketsAreOneStream(cut1, [], Framing(limit), step, app);
    PacketsAreOneStream(cut2, [], Framing(limit), step, app);
  }

  /** Over any run without an error: delivered chunks and carry-over are exactly the bytes
      received, and the carry-over is shorter than max(8, limit). */
  lemma NothingLost<S>(packets: seq<seq<byte>>, limit: nat, step: Callback<S>, app: S)
    ensures var p := Receive(packets, [], Framing(limit), step, app);
      && Conserves(p, Flatten(packets), Framing(limit))
      && (p.status == Good ==> |p.rest| < 8 || |p.rest| < limit)
  {
    FramingStable(limit);
    PacketsAreOneStream(packets, [], Framing(limit), step, app);
    assert [] + Flatten(packets) == Flatten(packets);
    Conservation(Flatten(packets), Framing(limit), step, app);
  }

  class TcpConnection {
    const recvBufferSize: nat
    var incompleteMessage: seq<byte>

    constructor (limit: nat)
      ensures recvBufferSize == limit && incompleteMessage == []
    {
      recvBufferSize, incompleteMessage := limit, [];
    }

    method PrependIncompleteChunk(packet: seq<byte>) returns (message: seq<byte>)
      modifies this
      ensures message == old(incompleteMessage) + packet && incompleteMessage == []
    {
      message := incompleteMessage + packet;
      incompleteMessage := [];
    }

    method BufferIncompleteChunk(bytes: seq<byte>)
      requires |bytes| > 0
      modifies this
      ensures incompleteMessage == bytes
    {
      incompleteMessage := bytes;
    }

    /** One step at position pos of the message: either the parse ends here, or one chunk
        has been handed over and the parse goes on behind it. */
    method ProcessChunk<S>(message: seq<byte>, pos: nat, step: Callback<S>, app: S)
      returns (app': S, pos': nat, done: bool, status: Status)
      requires pos <= |message| && incompleteMessage == []
      modifies this
      ensures pos <= pos' <= |message|
      ensures done || status != Good ==>
        (app', status, incompleteMessage) == Outcome(message[pos..], Framing(recvBufferSize), step, app)
      ensures !done && status == Good ==>
        pos < pos' && incompleteMessage == [] &&
        Outcome(message[pos'..], Framing(recvBufferSize), step, app')
        == Outcome(message[pos..], Framing(recvBufferSize), step, app)
    {
      var buf := message[pos..];
      var head := Examine(buf, recvBufferSize);
      assert Framing(recvBufferSize)(buf) == head;
      OutcomeOf(buf, head, Framing(recvBufferSize), step, app);
      done, status := KeepIncomplete(buf, head);
      app', pos' := app, pos;
      if head.Complete? {
        pos' := pos + head.length;
        assert buf[head.length..] == message[pos'..];
        var (a, s) := step(app, buf[..head.length]);
        app', status := a, s;
      }
    }

    /** What is done before the callback: a piece of a chunk is kept for the next packet, and
        only a complete chunk goes on. */
    method KeepIncomplete(buf: seq<byte>, head: Head) returns (done: bool, status: Status)
      requires incompleteMessage == []
      modifies this
      ensures done == !head.Complete? && status == (if head.Reject? then head.status else Good)
      ensures incompleteMessage == if head.Wait? then buf else []
    {
      done, status := !head.Complete?, if head.Reject? then head.status else Good;
      if head.Wait? && |buf| > 0 {
        BufferIncompleteChunk(buf);
      }
    }

    /** A received packet: the do-while loop over the chunks of carry-over plus packet
        computes the reference parse and keeps its remainder. */
    method ProcessChunks<S>(packet: seq<byte>, step: Callback<S>, app: S)
      returns (app': S, status: Status)
      modifies this
      ensures (app', status, incompleteMessage)
           == Outcome(old(incompleteMessage) + packet, Framing(recvBufferSize), step, app)
    {
      var message := packet;
      if |incompleteMessage| > 0 {
        message := PrependIncompleteChunk(packet);
      }
      assert message == old(incompleteMessage) + packet;
      assert message[0..] == message;
      var pos, done := 0, true;
      app', pos, done, status := ProcessChunk(message, pos, step, app);
      while !done && status == Good
        invariant pos <= |message|
        invariant !done && status == Good ==> incompleteMessage == []
        invariant !done && status == Good ==>
          Outcome(message[pos..], Framing(recvBufferSize), step, app')
          == Outcome(message, Framing(recvBufferSize), step, app)
        invariant done || status != Good ==>
          (app', status, incompleteMessage) == Outcome(message, Framing(recvBufferSize), step, app)
        decreases |message| - pos, !done && status == Good
      {
        app', pos, done, status := ProcessChunk(message, pos, step, app');
      }
    }
  }
}
