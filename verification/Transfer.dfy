/** Messages on their way between two objects: chunk by chunk out of a secure channel
    (UA_MessageContext in src/ua_securechannel.c), packet by packet into a connection and the
    secure channel behind it (src/ua_connection.c). */
module Transfer {
  import opened Bytes
  import opened Channel
  import opened ChunkSecurity
  import opened EndToEnd
  import opened MessageContext
  import opened Reassembly
  import opened SecureChannel
  import opened SymmetricChunk
  import Connection

  // -------------------------------------------------------------------- sending

  /** Of all the chunks of a stream, wires have been sent and those of xs are to come. */
  ghost predicate OnTheWay(p: Policy, all: seq<seq<byte>>, wires: seq<seq<byte>>, c: State, xs: seq<Piece>, limit: nat) {
    && limit < TWO32 && (forall x :: x in xs ==> Sendable(p, c.mode, x, limit))
    && all == wires + SendAll(p, c, xs, limit)
  }

  lemma OneMore(p: Policy, all: seq<seq<byte>>, wires: seq<seq<byte>>, c: State, xs: seq<Piece>, limit: nat, wire: seq<byte>, c': State)
    requires xs != [] && OnTheWay(p, all, wires, c, xs, limit)
    requires Sendable(p, c.mode, xs[0], limit) && (c', wire) == SendPiece(p, c, xs[0], limit)
    ensures OnTheWay(p, all, wires + [wire], c', xs[1..], limit)
  {
  }

  /** The context of a message, ready for the next body. */
  ghost predicate Ready(mc: Context, ch: UASecureChannel, l: Limits, m: Outgoing, size: nat)
    reads mc, ch
  {
    && mc.channel == ch && mc.limits == l && mc.messageType == m.messageType && mc.requestId == m.requestId
    && mc.buffer.Length == size && mc.bufPos == HEADER && mc.bufEnd - HEADER == Capacity(ch.policy.sym, ch.mode, size)
  }

  /** Bytes of the first i bodies. */
  function SizeOf(m: Outgoing, i: nat): nat
    requires i <= |m.bodies|
  {
    if i == 0 then 0 else SizeOf(m, i - 1) + |m.bodies[i - 1]|
  }

  /** The counters of a message context after i bodies; there are 16 bits for the chunks. */
  predicate Counted(m: Outgoing, i: nat, sizeSoFar: nat, chunksSoFar: nat) {
    i <= |m.bodies| && sizeSoFar == SizeOf(m, i) && chunksSoFar == i % 65536
  }

  /** No chunk of the message exceeds the limits of the peer. */
  ghost predicate Respects(l: Limits, m: Outgoing) {
    forall i :: 0 < i <= |m.bodies| ==> !TooLarge(l, SizeOf(m, i), i % 65536)
  }

  /** What the limit on the message size counts is the length that the receiver will see. */
  lemma {:induction false} SizeIsLength(m: Outgoing, i: nat)
    requires i <= |m.bodies|
    ensures SizeOf(m, i) == |Flatten(m.bodies[..i])|
    ensures i == |m.bodies| ==> SizeOf(m, i) == |Flatten(m.bodies)|
  {
    if i > 0 {
      SizeIsLength(m, i - 1);
      FlattenAppend(m.bodies[..i - 1], [m.bodies[i - 1]]);
      assert m.bodies[..i - 1] + [m.bodies[i - 1]] == m.bodies[..i];
      assert Flatten([m.bodies[i - 1]]) == m.bodies[i - 1];
    }
    assert i == |m.bodies| ==> m.bodies[..i] == m.bodies;
  }

  lemma CountedNext(l: Limits, m: Outgoing, i: nat, sizeSoFar: nat, chunksSoFar: nat)
    requires i < |m.bodies| && Counted(m, i, sizeSoFar, chunksSoFar)
    ensures Counted(m, i + 1, sizeSoFar + |m.bodies[i]|, (chunksSoFar + 1) % 65536)
    ensures Respects(l, m) ==> !TooLarge(l, sizeSoFar + |m.bodies[i]|, (chunksSoFar + 1) % 65536)
  {
    assert SizeOf(m, i + 1) == SizeOf(m, i) + |m.bodies[i]|;
  }

  /** The body can be encoded in one go, its chunk fits, and it is not empty. */
  predicate Fits(p: Policy, mode: Mode, body: seq<byte>, size: nat) {
    1 <= |body| <= Capacity(p.sym, mode, size) && TotalLength(p.sym, mode, |body|) <= size
  }

  /** One body: encoded into the buffer of the context and sent, as a final chunk or not. */
  method SendBody(mc: Context, body: seq<byte>, final: bool, ghost m: Outgoing, size: nat) returns (status: Status, wire: seq<byte>)
    requires size < TWO32 && SendableType(m.messageType)
    requires Ready(mc, mc.channel, mc.limits, m, size) && Fits(mc.channel.policy, mc.channel.mode, body, size)
    modifies mc, mc.buffer, mc.channel`sendSeq
    ensures mc.buffer == old(mc.buffer)
    ensures mc.messageSizeSoFar == old(mc.messageSizeSoFar) + |body| && mc.chunksSoFar == (old(mc.chunksSoFar) + 1) % 65536
    ensures |mc.channel.local.iv| == mc.channel.policy.sym.blockSize ==>
      (status == Good <==> !TooLarge(mc.limits, mc.messageSizeSoFar, mc.chunksSoFar))
    ensures var x := Piece(if final then Final else Intermediate, m.messageType, m.requestId, body);
      status == Good ==> (mc.channel.View(), wire) == SendPiece(mc.channel.policy, old(mc.channel.View()), x, size)
  {
    mc.Encode(body);
    mc.final := final;
    assert mc.buffer[HEADER..mc.bufPos] == body;
    status, wire := mc.SendChunk();
  }

  /** The same as part of a stream, with a new buffer for the next body. */
  method SendNext(mc: Context, body: seq<byte>, final: bool, ghost m: Outgoing, size: nat,
                  ghost all: seq<seq<byte>>, ghost wires: seq<seq<byte>>, ghost xs: seq<Piece>)
    returns (status: Status, wire: seq<byte>)
    requires Ready(mc, mc.channel, mc.limits, m, size) && Fits(mc.channel.policy, mc.channel.mode, body, size)
    requires OnTheWay(mc.channel.policy, all, wires, mc.channel.View(), xs, size) && SendableType(m.messageType)
    requires xs != [] && xs[0] == Piece(if final then Final else Intermediate, m.messageType, m.requestId, body)
    modifies mc, mc.buffer, mc.channel`sendSeq
    ensures fresh(mc.buffer) && Ready(mc, mc.channel, mc.limits, m, size)
    ensures mc.messageSizeSoFar == old(mc.messageSizeSoFar) + |body| && mc.chunksSoFar == (old(mc.chunksSoFar) + 1) % 65536
    ensures |mc.channel.local.iv| == mc.channel.policy.sym.blockSize ==>
      (status == Good <==> !TooLarge(mc.limits, mc.messageSizeSoFar, mc.chunksSoFar))
    ensures status == Good ==> OnTheWay(mc.channel.policy, all, wires + [wire], mc.channel.View(), xs[1..], size)
  {
    ghost var c := mc.channel.View();
    status, wire := SendBody(mc, body, final, m, size);
    if status == Good {
      assert xs[0] in xs;
      OneMore(mc.channel.policy, all, wires, c, xs, size, wire, mc.channel.View());
    }
    mc.NewBuffer(size);
  }

  /** Body i of a message, with the counters kept. */
  method SendBodyOf(mc: Context, m: Outgoing, i: nat, size: nat,
                    ghost all: seq<seq<byte>>, ghost wires: seq<seq<byte>>, ghost after: seq<Piece>, ghost xs: seq<Piece>)
    returns (status: Status, wire: seq<byte>)
    requires i < |m.bodies| && Fits(mc.channel.policy, mc.channel.mode, m.bodies[i], size) && SendableType(m.messageType)
    requires Ready(mc, mc.channel, mc.limits, m, size) && Counted(m, i, mc.messageSizeSoFar, mc.chunksSoFar)
    requires xs == Pieces(m) + after && OnTheWay(mc.channel.policy, all, wires, mc.channel.View(), xs[i..], size)
    modifies mc, mc.buffer, mc.channel`sendSeq
    ensures fresh(mc.buffer) && Ready(mc, mc.channel, mc.limits, m, size) && Counted(m, i + 1, mc.messageSizeSoFar, mc.chunksSoFar)
    ensures Respects(mc.limits, m) && |mc.channel.local.iv| == mc.channel.policy.sym.blockSize ==> status == Good
    ensures status == Good ==> OnTheWay(mc.channel.policy, all, wires + [wire], mc.channel.View(), xs[i + 1..], size)
  {
    CountedNext(mc.limits, m, i, mc.messageSizeSoFar, mc.chunksSoFar);
    NextPiece(m, after, xs, i);
    status, wire := SendNext(mc, m.bodies[i], i == |m.bodies| - 1, m, size, all, wires, xs[i..]);
  }

  /** The piece to be sent after i bodies. */
  lemma NextPiece(m: Outgoing, after: seq<Piece>, xs: seq<Piece>, i: nat)
    requires i < |m.bodies| && xs == Pieces(m) + after
    ensures m.bodies[i] in m.bodies && xs[i..] != [] && xs[i..][1..] == xs[i + 1..]
    ensures xs[i..][0] == Piece(if i == |m.bodies| - 1 then Final else Intermediate, m.messageType, m.requestId, m.bodies[i])
  {
    assert xs[i] == Pieces(m)[i];
  }

  /** A message, body by body: UA_MessageContext_begin, the encoding callback for all bodies
      but the last, and UA_MessageContext_finish. It goes out whole if it respects the limits
      of the peer. after is what will be sent later. */
  method SendMessage(ch: UASecureChannel, l: Limits, m: Outgoing, size: nat,
                     ghost all: seq<seq<byte>>, ghost sent: seq<seq<byte>>, ghost after: seq<Piece>)
    returns (status: Status, wires: seq<seq<byte>>)
    requires HEADER < size && SendableType(m.messageType) && forall b :: b in m.bodies ==> Fits(ch.policy, ch.mode, b, size)
    requires OnTheWay(ch.policy, all, sent, ch.View(), Pieces(m) + after, size)
    modifies ch`sendSeq
    ensures Respects(l, m) && |ch.local.iv| == ch.policy.sym.blockSize ==> status == Good
    ensures status == Good ==> OnTheWay(ch.policy, all, sent + wires, ch.View(), after, size)
  {
    wires := [];
    var mc: Context?;
    status, mc := Context.Begin(ch, l, m.requestId, m.messageType, size);
    ghost var xs := Pieces(m) + after;
    assert sent + wires == sent && xs[0..] == xs;
    var i := 0;
    while i < |m.bodies| && status == Good
      invariant 0 <= i <= |m.bodies| && fresh(mc) && fresh(mc.buffer) && Ready(mc, ch, l, m, size)
      invariant Counted(m, i, mc.messageSizeSoFar, mc.chunksSoFar)
      invariant status == Good ==> OnTheWay(ch.policy, all, sent + wires, ch.View(), xs[i..], size)
      invariant Respects(l, m) && |ch.local.iv| == ch.policy.sym.blockSize ==> status == Good
      decreases |m.bodies| - i
    {
      var wire;
      assert m.bodies[i] in m.bodies;
      status, wire := SendBodyOf(mc, m, i, size, all, sent + wires, after, xs);
      Longer(sent, wires, wire);
      wires := wires + [wire];
      i := i + 1;
    }
    assert i == |m.bodies| ==> xs[i..] == after;
  }

  lemma Longer(sent: seq<seq<byte>>, wires: seq<seq<byte>>, wire: seq<byte>)
    ensures sent + wires + [wire] == sent + (wires + [wire])
  {
  }

  lemma RestOf(ms: seq<Outgoing>, k: nat)
    requires k < |ms|
    ensures AllPieces(ms[k..]) == Pieces(ms[k]) + AllPieces(ms[k + 1..])
  {
    assert ms[k..][0] == ms[k] && ms[k..][1..] == ms[k + 1..];
  }

  ghost predicate AllRespect(l: Limits, ms: seq<Outgoing>) {
    forall m :: m in ms ==> Respects(l, m)
  }

  lemma MessageAt(p: Policy, mode: Mode, l: Limits, ms: seq<Outgoing>, k: nat, size: nat)
    requires k < |ms| && forall m :: m in ms ==> SendableMessage(p, mode, m, size)
    requires forall m :: m in ms ==> Encodable(p, mode, m, size)
    ensures SendableType(ms[k].messageType) && forall b :: b in ms[k].bodies ==> Fits(p, mode, b, size)
    ensures AllRespect(l, ms) ==> Respects(l, ms[k])
  {
    assert SendableMessage(p, mode, ms[k], size) && Encodable(p, mode, ms[k], size);
  }

  /** Message after message on one channel. */
  method SendMessages(ch: UASecureChannel, l: Limits, ms: seq<Outgoing>, size: nat)
    returns (status: Status, wires: seq<seq<byte>>)
    requires HEADER < size < TWO32 && forall m :: m in ms ==> SendableMessage(ch.policy, ch.mode, m, size)
    requires forall m :: m in ms ==> Encodable(ch.policy, ch.mode, m, size)
    modifies ch`sendSeq
    ensures AllRespect(l, ms) && |ch.local.iv| == ch.policy.sym.blockSize ==> status == Good
    ensures status == Good ==> Flatten(wires) == Wire(ch.policy, old(ch.View()), ms, size)
  {
    status, wires := Good, [];
    ghost var all := Begun(ch.policy, ch.View(), ms, size);
    assert ms[0..] == ms;
    var k := 0;
    while k < |ms| && status == Good
      invariant 0 <= k <= |ms|
      invariant status == Good ==> OnTheWay(ch.policy, all, wires, ch.View(), AllPieces(ms[k..]), size)
      invariant AllRespect(l, ms) && |ch.local.iv| == ch.policy.sym.blockSize ==> status == Good
      decreases |ms| - k
    {
      var more;
      RestOf(ms, k);
      MessageAt(ch.policy, ch.mode, l, ms, k, size);
      status, more := SendMessage(ch, l, ms[k], size, all, wires, AllPieces(ms[k + 1..]));
      wires := wires + more;
      k := k + 1;
    }
    if status == Good {
      Ended(ch.policy, ch.View(), all, wires, AllPieces(ms[k..]), size);
    }
  }

  /** The encoder cuts messages into bodies that fill at most the room in the buffer. */
  predicate Encodable(p: Policy, mode: Mode, m: Outgoing, size: nat) {
    forall b :: b in m.bodies ==> |b| <= Capacity(p.sym, mode, size)
  }

  lemma Begun(p: Policy, c: State, ms: seq<Outgoing>, size: nat) returns (all: seq<seq<byte>>)
    requires size < TWO32 && forall m :: m in ms ==> SendableMessage(p, c.mode, m, size)
    ensures OnTheWay(p, all, [], c, AllPieces(ms), size) && Flatten(all) == Wire(p, c, ms, size)
  {
    PiecesSendable(p, c.mode, ms, size);
    all := SendAll(p, c, AllPieces(ms), size);
  }

  lemma Ended(p: Policy, c: State, all: seq<seq<byte>>, wires: seq<seq<byte>>, xs: seq<Piece>, size: nat)
    requires xs == [] && OnTheWay(p, all, wires, c, xs, size)
    ensures all == wires
  {
  }

  // ------------------------------------------------------------------ receiving

  /** The part of a reception that the objects keep. */
  function Received<S>(packets: seq<seq<byte>>, carry: seq<byte>, frame: Connection.Framer, step: Connection.Callback<S>, app: S): (S, Status, seq<byte>) {
    var r := Connection.Receive(packets, carry, frame, step, app); (r.app, r.status, r.rest)
  }

  lemma ReceivedOne<S>(packets: seq<seq<byte>>, carry: seq<byte>, frame: Connection.Framer, step: Connection.Callback<S>, app: S)
    requires packets != []
    ensures var (app', status, rest) := Connection.Outcome(carry + packets[0], frame, step, app);
      Received(packets, carry, frame, step, app)
      == if status != Good then (app', status, rest) else Received(packets[1..], rest, frame, step, app')
  {
  }

  /** A connection with the secure channel it serves, and the messages delivered so far. The
      loop is that of TcpConnection.ProcessChunks, which hands its chunks to an application
      given as a function; here the callback is a method that changes an object. */
  class Endpoint {
    const connection: Connection.TcpConnection
    const channel: UASecureChannel
    var log: seq<Message>

    constructor (cn: Connection.TcpConnection, ch: UASecureChannel)
      ensures connection == cn && channel == ch && log == []
    {
      connection, channel, log := cn, ch, [];
    }

    ghost function View(): Receiver
      reads this, channel, channel.chunks
    {
      Receiver(channel.View(), log)
    }

    /** The objects that receiving changes. */
    ghost function Repr(): set<object>
      reads channel.chunks
    {
      {connection, channel, channel.chunks} + (set x | x in channel.chunks.spine)
    }

    ghost predicate Valid()
      reads channel, channel.chunks, channel.chunks.spine
    {
      channel.Valid()
    }

    /** One chunk goes to the channel, completed messages to the log. */
    method HandChunk(chunk: seq<byte>) returns (status: Status)
      requires Valid()
      modifies `log, channel, channel.chunks, channel.chunks.spine
      ensures Valid() && fresh(Repr() - old(Repr()))
      ensures (View(), status) == Deliver(channel.policy)(old(View()), chunk)
    {
      log, status := channel.Receive(chunk, Log, log);
    }

    /** processChunk with the channel as callback. */
    method ProcessChunk(message: seq<byte>, pos: nat) returns (pos': nat, done: bool, status: Status)
      requires Valid() && pos <= |message| && connection.incompleteMessage == []
      modifies `log, Repr()
      ensures Valid() && fresh(Repr() - old(Repr()))
      ensures pos <= pos' <= |message|
      ensures done || status != Good ==>
        (View(), status, connection.incompleteMessage)
        == Connection.Outcome(message[pos..], Connection.Framing(connection.recvBufferSize), Deliver(channel.policy), old(View()))
      ensures !done && status == Good ==>
        pos < pos' && connection.incompleteMessage == [] &&
        Connection.Outcome(message[pos'..], Connection.Framing(connection.recvBufferSize), Deliver(channel.policy), View())
        == Connection.Outcome(message[pos..], Connection.Framing(connection.recvBufferSize), Deliver(channel.policy), old(View()))
    {
      var buf := message[pos..];
      var head := Connection.Examine(buf, connection.recvBufferSize);
      assert Connection.Framing(connection.recvBufferSize)(buf) == head;
      Connection.OutcomeOf(buf, head, Connection.Framing(connection.recvBufferSize), Deliver(channel.policy), View());
      done, status := connection.KeepIncomplete(buf, head);
      pos' := pos;
      if head.Complete? {
        pos' := pos + head.length;
        assert buf[head.length..] == message[pos'..];
        status := HandChunk(buf[..head.length]);
      }
    }

    /** UA_Connection_processChunks with the channel as callback. */
    method ReceivePacket(packet: seq<byte>) returns (status: Status)
      requires Valid()
      modifies `log, Repr()
      ensures Valid() && fresh(Repr() - old(Repr()))
      ensures (View(), status, connection.incompleteMessage)
           == Connection.Outcome(old(connection.incompleteMessage) + packet, Connection.Framing(connection.recvBufferSize),
                                 Deliver(channel.policy), old(View()))
    {
      ghost var app, frame, step := View(), Connection.Framing(connection.recvBufferSize), Deliver(channel.policy);
      var message := packet;
      if |connection.incompleteMessage| > 0 {
        message := connection.PrependIncompleteChunk(packet);
      }
      assert message == old(connection.incompleteMessage) + packet && message[0..] == message;
      var pos, done := 0, true;
      pos, done, status := ProcessChunk(message, pos);
      while !done && status == Good
        invariant pos <= |message| && Valid() && fresh(Repr() - old(Repr()))
        invariant !done && status == Good ==>
          && connection.incompleteMessage == []
          && Connection.Outcome(message[pos..], frame, step, View()) == Connection.Outcome(message, frame, step, app)
        invariant done || status != Good ==>
          (View(), status, connection.incompleteMessage) == Connection.Outcome(message, frame, step, app)
        decreases |message| - pos, !done && status == Good
      {
        pos, done, status := ProcessChunk(message, pos);
      }
    }

    /** Packet after packet, until the first error. */
    method ReceivePackets(packets: seq<seq<byte>>) returns (status: Status)
      requires Valid()
      modifies `log, Repr()
      ensures Valid() && fresh(Repr() - old(Repr()))
      ensures (View(), status, connection.incompleteMessage)
           == Received(packets, old(connection.incompleteMessage), Connection.Framing(connection.recvBufferSize),
                       Deliver(channel.policy), old(View()))
    {
      ghost var frame, step := Connection.Framing(connection.recvBufferSize), Deliver(channel.policy);
      ghost var end := Received(packets, connection.incompleteMessage, frame, step, View());
      status := Good;
      var k := 0;
      assert packets[0..] == packets;
      while k < |packets| && status == Good
        invariant 0 <= k <= |packets| && Valid() && fresh(Repr() - old(Repr()))
        invariant status == Good ==> Received(packets[k..], connection.incompleteMessage, frame, step, View()) == end
        invariant status != Good ==> (View(), status, connection.incompleteMessage) == end
        decreases |packets| - k
      {
        ReceivedOne(packets[k..], connection.incompleteMessage, frame, step, View());
        assert packets[k..][0] == packets[k] && packets[k..][1..] == packets[k + 1..];
        status := ReceivePacket(packets[k]);
        k := k + 1;
      }
      assert k == |packets| ==> packets[k..] == [];
    }
  }

  // ----------------------------------------------------------------- end to end

  /** From object to object: whatever the messages, their split into bodies and the cut of
      the byte stream into packets, the receiving endpoint logs exactly the messages, in
      order, and nothing is left over. The messages respect the limits that the receiver has
      announced, and its buffer is not smaller than the sender's. */
  method CarryMessages(tx: UASecureChannel, l: Limits, rx: Endpoint, ms: seq<Outgoing>, size: nat, cut: seq<byte> -> seq<seq<byte>>)
    returns (status: Status)
    requires tx != rx.channel && rx.Valid() && tx.policy == rx.channel.policy
    requires InStep(tx.policy, tx.View(), rx.channel.View()) && rx.channel.View().pending == map[]
    requires size <= rx.connection.recvBufferSize && rx.connection.incompleteMessage == [] && rx.log == []
    requires HEADER < size < TWO32 && forall m :: m in ms ==> SendableMessage(tx.policy, tx.mode, m, size)
    requires AllRespect(l, ms) && forall m :: m in ms ==> Encodable(tx.policy, tx.mode, m, size)
    requires forall w :: Flatten(cut(w)) == w
    modifies tx`sendSeq, rx`log, rx.Repr()
    ensures status == Good && rx.log == Messages(ms)
    ensures rx.Valid() && rx.channel.View().pending == map[] && rx.connection.incompleteMessage == []
  {
    var wires;
    status, wires := SendMessages(tx, l, ms, size);
    var packets := cut(Flatten(wires));
    MessagesArriveInStep(tx.policy, old(tx.View()), rx.channel.View(), ms, size, rx.connection.recvBufferSize, packets);
    status := rx.ReceivePackets(packets);
  }
}
