/** From messages on one end of a secure channel, through any cut of the byte stream into
    packets, to messages on the other end. */
module EndToEnd {
  import opened Bytes
  import opened Channel
  import opened ChunkSecurity
  import opened Reassembly
  import opened SequenceNumbers
  import opened SymmetricChunk
  import Connection

  // ---------------------------------------------------------------- the sender

  function IdsOf(c: State): Ids {
    Ids(c.token.channelId, c.token.tokenId)
  }

  /** Can this chunk be sent on the channel and received with the given buffer size? */
  predicate Sendable(p: Policy, mode: Mode, x: Piece, limit: nat)
  {
    SendableType(x.messageType) && |x.body| >= 1 && TotalLength(p.sym, mode, |x.body|) <= limit
  }

  /** One call of sendSymmetricChunk: count up, build, send. */
  function SendPiece(p: Policy, c: State, x: Piece, limit: nat): (State, seq<byte>)
    requires limit < TWO32 && Sendable(p, c.mode, x, limit)
  {
    var sn := (c.sendSeq + 1) % TWO32;
    (c.(sendSeq := sn),
     BuildChunk(p.sym, c.mode, c.local, IdsOf(c), x.messageType, x.kind, sn, x.requestId, x.body))
  }

  function SendAll(p: Policy, c: State, xs: seq<Piece>, limit: nat): seq<seq<byte>>
    requires limit < TWO32
    requires forall x :: x in xs ==> Sendable(p, c.mode, x, limit)
    decreases |xs|
  {
    if xs == [] then []
    else
      var (c', chunk) := SendPiece(p, c, xs[0], limit);
      [chunk] + SendAll(p, c', xs[1..], limit)
  }

  // -------------------------------------------------------------- the receiver

  datatype Receiver = Receiver(channel: State, log: seq<Message>)

  /** An application that keeps every message it gets. */
  function Log(log: seq<Message>, m: Message): (seq<Message>, Status) {
    (log + [m], Good)
  }

  /** The secure channel as callback of the connection. */
  function Deliver(p: Policy): Connection.Callback<Receiver>
  {
    (r: Receiver, chunk) =>
      var res := ProcessChunk(p, r.channel, chunk, Log, r.log);
      (Receiver(res.channel, res.app), res.status)
  }

  /** The two ends agree: same mode and token, the receiver holds the sender's keys and has
      accepted everything sent so far. */
  ghost predicate InStep(p: Policy, tx: State, rx: State) {
    && tx.mode == rx.mode && tx.local == rx.remote && |tx.local.iv| == p.sym.blockSize
    && tx.token == rx.token && tx.sendSeq == rx.recvSeq
  }

  // --------------------------------------------------------------- one chunk

  lemma HeaderFields(chunk: seq<byte>, t: TypeCode, k: Kind, total: uint32, ids: Ids)
    requires |chunk| >= CLEAR_HEADER && chunk[..CLEAR_HEADER] == ClearHeader(t, k, total, ids)
    ensures DecodeU32(chunk, 0) == t + 0x100_0000 * (KindByte(k) as int)
    ensures DecodeU32(chunk, 4) == total
    ensures DecodeU32(chunk, 8) == ids.channelId && DecodeU32(chunk, 12) == ids.tokenId
    ensures Connection.MessageTypeOf(chunk) == t && chunk[3] == KindByte(k)
  {
    var x: uint32 := t + 0x100_0000 * (KindByte(k) as int);
    var h := ClearHeader(t, k, total, ids);
    var a, b, c, d := EncodeU32(x), EncodeU32(total), EncodeU32(ids.channelId), EncodeU32(ids.tokenId);
    Grouped(a, b, c, d);
    NumberAt(chunk, h, [], x, b + c + d);
    NumberAt(chunk, h, a, total, c + d);
    NumberAt(chunk, h, a + b, ids.channelId, d);
    NumberAt(chunk, h, a + b + c, ids.tokenId, []);
    TypeInFront(chunk, h, a, b + c + d);
    TypeBytes(t, KindByte(k));
  }

  lemma Grouped(a: seq<byte>, b: seq<byte>, c: seq<byte>, d: seq<byte>)
    ensures a + b + c + d == [] + a + (b + c + d) == a + b + (c + d) == a + b + c + d + [] == a + (b + c + d)
  {
  }

  /** A number in the header is found in the chunk. */
  lemma NumberAt(chunk: seq<byte>, h: seq<byte>, pre: seq<byte>, x: uint32, post: seq<byte>)
    requires h == pre + EncodeU32(x) + post && |h| <= |chunk| && chunk[..|h|] == h
    ensures DecodeU32(chunk, |pre|) == x
  {
    U32RoundTrip(pre, x, post);
    SameNumber(chunk, h, |pre|);
  }

  lemma SameNumber(chunk: seq<byte>, h: seq<byte>, at: nat)
    requires at + 4 <= |h| <= |chunk| && chunk[..|h|] == h
    ensures DecodeU32(chunk, at) == DecodeU32(h, at)
  {
    assert forall i :: 0 <= i < |h| ==> chunk[i] == h[i];
  }

  lemma TypeInFront(chunk: seq<byte>, h: seq<byte>, a: seq<byte>, rest: seq<byte>)
    requires |a| == 4 && h == a + rest && |h| <= |chunk| && chunk[..|h|] == h
    ensures chunk[0] == a[0] && chunk[1] == a[1] && chunk[2] == a[2] && chunk[3] == a[3]
  {
    assert forall i :: 0 <= i < 4 ==> chunk[i] == h[i];
  }

  lemma LowBytes(x: uint32)
    ensures x % 256 + 0x100 * (x / 0x100 % 256) + 0x1_0000 * (x / 0x1_0000 % 256) == x % 0x100_0000
  {
    var y := x / 0x100;
    assert y / 0x100 == x / 0x1_0000;
    assert x % 0x100_0000 == x - 0x100_0000 * (x / 0x100_0000);
    assert x / 0x1_0000 / 256 == x / 0x100_0000;
  }

  lemma TypeBytes(t: TypeCode, k: byte)
    ensures var a := EncodeU32(t + 0x100_0000 * (k as int));
      a[0] as int + 0x100 * (a[1] as int) + 0x1_0000 * (a[2] as int) == t && a[3] == k
  {
    var x: uint32 := t + 0x100_0000 * (k as int);
    LowBytes(x);
    assert x % 0x100_0000 == t && x / 0x100_0000 == k;
  }

  /** The shortest chunk that the connection lets through is such a case: with 16-byte blocks
      and 32-byte signatures the padding length is looked for 17 bytes in front of it. */
  lemma HeaderOnlyChunkReadsOutside(p: SymPolicy, keys: Keys, ids: Ids)
    requires p.blockSize == 16 && p.sigSize == 32 && |keys.iv| == 16
    ensures var chunk := ClearHeader(Connection.MSG, Final, 16, ids);
      && Connection.Examine(chunk, 65535) == Connection.Complete(16)
      && OpenChunk(SignAndEncrypt, false, SymUnlock(p, keys), chunk, CLEAR_HEADER) == Bad(Undefined)
  {
    var chunk := ClearHeader(Connection.MSG, Final, 16, ids);
    HeaderFields(chunk, Connection.MSG, Final, 16, ids);
    SymmetricPayloadInBounds(p, SignAndEncrypt, keys, chunk);
  }

  /** What the receiver can read off a chunk of this sender. */
  ghost predicate Carries(p: Policy, c: State, x: Piece, sn: uint32, chunk: seq<byte>)
  {
    && CLEAR_HEADER <= |chunk| == TotalLength(p.sym, c.mode, |x.body|) < TWO32 && SendableType(x.messageType)
    && chunk[..CLEAR_HEADER] == ClearHeader(x.messageType, x.kind, |chunk|, IdsOf(c))
    && OpenChunk(c.mode, false, SymUnlock(p.sym, c.local), chunk, CLEAR_HEADER)
       == Payload(x.requestId, sn, x.body)
  }

  // ----------------------------------------------------------- on the wire

  /** Decryption gives back what was signed, with its code behind it. */
  lemma PlainTextOfChunk(p: SymPolicy, mode: Mode, keys: Keys, ids: Ids, t: TypeCode, k: Kind, sn: uint32, id: uint32, body: seq<byte>)
    requires TotalLength(p, mode, |body|) < TWO32
    ensures var chunk, pre := BuildChunk(p, mode, keys, ids, t, k, sn, id, body), Unsigned(p, mode, ids, t, k, sn, id, body);
      && |chunk| == TotalLength(p, mode, |body|) >= CLEAR_HEADER
      && PlainText(p, mode, keys, chunk)
         == if mode == Sign || mode == SignAndEncrypt then pre + p.mac(keys.signing, pre) else pre
  {
    ChunkLength(p, mode, keys, ids, t, k, sn, id, body);
    var pre := Unsigned(p, mode, ids, t, k, sn, id, body);
    if mode == SignAndEncrypt {
      PaddingCorrect(p, |body|);
      var signed := pre + p.mac(keys.signing, pre);
      Cut(signed[..CLEAR_HEADER], p.encrypt(keys, signed[CLEAR_HEADER..]));
      assert signed[..CLEAR_HEADER] + signed[CLEAR_HEADER..] == signed;
    }
  }

  lemma Cut(a: seq<byte>, b: seq<byte>)
    ensures (a + b)[..|a|] == a && (a + b)[|a|..] == b
  {
  }

  /** The header of every chunk, byte by byte: type and kind as characters, size, channel,
      token, and after decryption sequence number and request id. */
  lemma HeaderOnTheWire(p: SymPolicy, mode: Mode, keys: Keys, ids: Ids, t: TypeCode, k: Kind, sn: uint32, id: uint32, body: seq<byte>)
    requires TotalLength(p, mode, |body|) < TWO32 && SendableType(t)
    ensures var chunk := BuildChunk(p, mode, keys, ids, t, k, sn, id, body);
            var plain := PlainText(p, mode, keys, chunk);
      && Connection.Word(chunk) == (if t == Connection.MSG then "MSG" else "CLO")
      && chunk[3] as char == (match k case Final => 'F' case Intermediate => 'C' case Abort => 'A')
      && Connection.SizeField(chunk) == |chunk|
      && DecodeU32(chunk, 8) == ids.channelId && DecodeU32(chunk, 12) == ids.tokenId
      && DecodeU32(plain, 16) == sn && DecodeU32(plain, 20) == id
  {
    ChunkLength(p, mode, keys, ids, t, k, sn, id, body);
    PlainTextOfChunk(p, mode, keys, ids, t, k, sn, id, body);
    var chunk := BuildChunk(p, mode, keys, ids, t, k, sn, id, body);
    HeaderFields(chunk, t, k, |chunk|, ids);
    Connection.SameWord(chunk, "MSG", Connection.MSG);
    Connection.SameWord(chunk, "CLO", Connection.CLO);
    var sh := EncodeU32(sn) + EncodeU32(id);
    Sections(ClearHeader(t, k, |chunk|, ids), sh, body, PadBytes(p, mode, |body|),
             if mode == Sign || mode == SignAndEncrypt then p.mac(keys.signing, Unsigned(p, mode, ids, t, k, sn, id, body)) else [],
             PlainText(p, mode, keys, chunk));
    SequenceHeaderAt(PlainText(p, mode, keys, chunk), 16, sn, id);
  }

  lemma Sections(h: seq<byte>, sh: seq<byte>, body: seq<byte>, pad: seq<byte>, sig: seq<byte>, plain: seq<byte>)
    requires |h| == 16 && |sh| == 8 && (plain == h + sh + body + pad + sig || (sig == [] && plain == h + sh + body + pad))
    ensures |plain| == 24 + |body| + |pad| + |sig| && plain[16..24] == sh && plain[24..24 + |body|] == body
    ensures plain[24 + |body|..24 + |body| + |pad|] == pad
    ensures plain[..24 + |body| + |pad|] == h + sh + body + pad && plain[24 + |body| + |pad|..] == sig
  {
  }

  /** The rest of the plain text: body, padding bytes that each state the padding size, and
      the signature. */
  lemma BodyOnTheWire(p: SymPolicy, mode: Mode, keys: Keys, ids: Ids, t: TypeCode, k: Kind, sn: uint32, id: uint32, body: seq<byte>)
    requires TotalLength(p, mode, |body|) < TWO32
    ensures var plain := PlainText(p, mode, keys, BuildChunk(p, mode, keys, ids, t, k, sn, id, body));
            var n := PaddingSym(p, |body| + 8);
      && HEADER + |body| <= |plain| && plain[HEADER..HEADER + |body|] == body
      && (mode == SignAndEncrypt ==>
            && |plain| == HEADER + |body| + n + 1 + p.sigSize
            && plain[HEADER + |body|..HEADER + |body| + n + 1] == Repeat(n, n + 1))
      && (mode == Sign ==> |plain| == HEADER + |body| + p.sigSize)
  {
    PlainTextOfChunk(p, mode, keys, ids, t, k, sn, id, body);
    var chunk, pre := BuildChunk(p, mode, keys, ids, t, k, sn, id, body), Unsigned(p, mode, ids, t, k, sn, id, body);
    var sig := if mode == Sign || mode == SignAndEncrypt then p.mac(keys.signing, pre) else [];
    Sections(ClearHeader(t, k, |chunk|, ids), EncodeU32(sn) + EncodeU32(id), body, PadBytes(p, mode, |body|), sig,
             PlainText(p, mode, keys, chunk));
    PaddingIsRepeated(p, |body|);
  }

  lemma PaddingIsRepeated(p: SymPolicy, bodyLength: nat)
    ensures var n := PaddingSym(p, bodyLength + 8); PadBytes(p, SignAndEncrypt, bodyLength) == Repeat(n, n + 1)
  {
    var n := PaddingSym(p, bodyLength + 8);
    assert n % 256 == n && n / 256 % 256 == 0;
    assert Repeat(n, n + 1) + [] == Repeat(n, n + 1);
  }

  /** In the signing modes every chunk carries the code of everything in front of it. */
  lemma SentIsAuthentic(p: SymPolicy, mode: Mode, keys: Keys, ids: Ids, t: TypeCode, k: Kind, sn: uint32, id: uint32, body: seq<byte>)
    requires TotalLength(p, mode, |body|) < TWO32 && (mode == Sign || mode == SignAndEncrypt)
    ensures Authentic(p, keys, PlainText(p, mode, keys, BuildChunk(p, mode, keys, ids, t, k, sn, id, body)))
  {
    PlainTextOfChunk(p, mode, keys, ids, t, k, sn, id, body);
    var pre := Unsigned(p, mode, ids, t, k, sn, id, body);
    Cut(pre, p.mac(keys.signing, pre));
  }

  lemma BuiltChunkCarries(p: Policy, c: State, x: Piece, sn: uint32, chunk: seq<byte>)
    requires SendableType(x.messageType) && |x.body| >= 1 && TotalLength(p.sym, c.mode, |x.body|) < TWO32
    requires |c.local.iv| == p.sym.blockSize
    requires chunk == BuildChunk(p.sym, c.mode, c.local, IdsOf(c), x.messageType, x.kind, sn, x.requestId, x.body)
    ensures Carries(p, c, x, sn, chunk)
  {
    ChunkLength(p.sym, c.mode, c.local, IdsOf(c), x.messageType, x.kind, sn, x.requestId, x.body);
    ChunkRoundTrip(p.sym, c.mode, c.local, IdsOf(c), x.messageType, x.kind, sn, x.requestId, x.body);
  }

  /** A chunk at the front of the stream is cut out whole. */
  lemma ChunkIsFramed(p: Policy, c: State, x: Piece, sn: uint32, chunk: seq<byte>, limit: nat, rest: seq<byte>)
    requires Carries(p, c, x, sn, chunk) && Sendable(p, c.mode, x, limit)
    ensures Connection.Framing(limit)(chunk + rest) == Connection.Complete(|chunk|)
  {
    assert (chunk + rest)[..CLEAR_HEADER] == chunk[..CLEAR_HEADER];
    HeaderFields(chunk + rest, x.messageType, x.kind, |chunk|, IdsOf(c));
  }

  /** The receiver's state after a chunk of an in-step sender. */
  function After(rx: State, x: Piece): State {
    rx.(recvSeq := (rx.recvSeq + 1) % TWO32, pending := Step(rx.pending, x).0)
  }

  /** The accepted path through the receiver. */
  lemma AcceptedSymmetric(p: Policy, rx: State, x: Piece, sn: uint32, chunk: seq<byte>, log: seq<Message>)
    requires |chunk| >= CLEAR_HEADER
    requires DecodeU32(chunk, 12) == rx.token.tokenId && Accepts(rx.recvSeq, sn)
    requires OpenChunk(rx.mode, false, SymUnlock(p.sym, rx.remote), chunk, CLEAR_HEADER)
          == Payload(x.requestId, sn, x.body)
    requires SendableType(x.messageType)
    ensures ProcessSymmetric(p, rx, chunk, x.messageType, KindByte(x.kind), Log, log)
         == Dispatch(rx.(recvSeq := sn), x.messageType, KindByte(x.kind), Payload(x.requestId, sn, x.body), Log, log)
  {
  }

  lemma DispatchIsStep(c: State, x: Piece, sn: uint32, log: seq<Message>)
    requires SendableType(x.messageType)
    ensures Dispatch(c, x.messageType, KindByte(x.kind), Payload(x.requestId, sn, x.body), Log, log)
         == Result(c.(pending := Step(c.pending, x).0), log + Step(c.pending, x).1, Good)
  {
    assert KindOf(KindByte(x.kind)) == (true, x.kind);
    assert log + [] == log;
  }

  /** The receiver accepts the chunk of an in-step sender and hands exactly its piece to
      reassembly. */
  lemma OneChunk(p: Policy, tx: State, rx: State, x: Piece, chunk: seq<byte>, log: seq<Message>)
    requires InStep(p, tx, rx) && SendableType(x.messageType)
    requires Carries(p, tx, x, (tx.sendSeq + 1) % TWO32, chunk)
    ensures Deliver(p)(Receiver(rx, log), chunk)
         == (Receiver(After(rx, x), log + Step(rx.pending, x).1), Good)
  {
    var sn := (tx.sendSeq + 1) % TWO32;
    HeaderFields(chunk, x.messageType, x.kind, |chunk|, IdsOf(tx));
    AcceptedSymmetric(p, rx, x, sn, chunk, log);
    DispatchIsStep(rx.(recvSeq := sn), x, sn, log);
    TypeAndKind(x.messageType, KindByte(x.kind));
  }

  lemma TypeAndKind(t: TypeCode, k: byte)
    ensures (t + 0x100_0000 * (k as int)) % 0x100_0000 == t
    ensures (t + 0x100_0000 * (k as int)) / 0x100_0000 == k
  {
  }

  // -------------------------------------------------------------- whole streams

  function AfterAll(rx: State, xs: seq<Piece>): State
    decreases |xs|
  {
    if xs == [] then rx else AfterAll(After(rx, xs[0]), xs[1..])
  }

  lemma {:induction false} AfterAllPending(rx: State, xs: seq<Piece>)
    ensures AfterAll(rx, xs).pending == Run(rx.pending, xs).0
    decreases |xs|
  {
    if xs != [] {
      AfterAllPending(After(rx, xs[0]), xs[1..]);
    }
  }

  /** A stream whose chunks are each framed whole and accepted by the callback. */
  ghost predicate Accepted<S(!new)>(chunks: seq<seq<byte>>, frame: Connection.Framer, step: Connection.Callback<S>, app: S, app': S)
    decreases |chunks|
  {
    if chunks == [] then app' == app
    else exists mid :: OneAccepted(chunks[0], frame, step, app, mid) && Accepted(chunks[1..], frame, step, mid, app')
  }

  ghost predicate OneAccepted<S>(chunk: seq<byte>, frame: Connection.Framer, step: Connection.Callback<S>, app: S, app': S) {
    && (forall rest :: frame(chunk + rest) == Connection.Complete(|chunk|))
    && step(app, chunk) == (app', Good)
  }

  /** Such a stream is delivered chunk by chunk, with nothing left over. */
  lemma {:induction false} AcceptedStream<S(!new)>(chunks: seq<seq<byte>>, frame: Connection.Framer, step: Connection.Callback<S>, app: S, app': S)
    requires Accepted(chunks, frame, step, app, app') && frame([]) == Connection.Wait
    ensures Connection.Drain(Flatten(chunks), frame, step, app) == Connection.Progress(app', chunks, Good, [])
    decreases |chunks|
  {
    if chunks != [] {
      var mid :| OneAccepted(chunks[0], frame, step, app, mid) && Accepted(chunks[1..], frame, step, mid, app');
      AcceptedStream(chunks[1..], frame, step, mid, app');
      var buf, n := Flatten(chunks), |chunks[0]|;
      assert frame(buf) == Connection.Complete(n);
      assert buf[..n] == chunks[0] && buf[n..] == Flatten(chunks[1..]);
      assert chunks == [chunks[0]] + chunks[1..];
    }
  }

  /** A single accepted chunk in any packets. */
  lemma OneChunkInPackets<S(!new)>(chunk: seq<byte>, packets: seq<seq<byte>>, limit: nat, step: Connection.Callback<S>, app: S, app': S)
    requires OneAccepted(chunk, Connection.Framing(limit), step, app, app') && Flatten(packets) == chunk
    ensures Connection.Receive(packets, [], Connection.Framing(limit), step, app) == Connection.Progress(app', [chunk], Good, [])
  {
    Connection.FramingStable(limit);
    Connection.PacketsAreOneStream(packets, [], Connection.Framing(limit), step, app);
    assert [] + Flatten(packets) == chunk == Flatten([chunk]);
    var none: seq<seq<byte>> := [];
    AcceptedCons(chunk, none, Connection.Framing(limit), step, app, app', app');
    assert [chunk] + none == [chunk];
    AcceptedStream([chunk], Connection.Framing(limit), step, app, app');
  }

  lemma SentChunkAccepted(p: Policy, tx: State, rx: State, x: Piece, size: nat, limit: nat, log: seq<Message>)
    requires size <= limit && size < TWO32 && InStep(p, tx, rx) && Sendable(p, tx.mode, x, size)
    ensures OneAccepted(SendPiece(p, tx, x, size).1, Connection.Framing(limit), Deliver(p),
                        Receiver(rx, log), Receiver(After(rx, x), log + Step(rx.pending, x).1))
  {
    var chunk := SendPiece(p, tx, x, size).1;
    BuiltChunkCarries(p, tx, x, (tx.sendSeq + 1) % TWO32, chunk);
    CarriedChunkAccepted(p, tx, rx, x, size, limit, log, chunk);
  }

  lemma CarriedChunkAccepted(p: Policy, tx: State, rx: State, x: Piece, size: nat, limit: nat, log: seq<Message>, chunk: seq<byte>)
    requires size <= limit && size < TWO32 && InStep(p, tx, rx) && Sendable(p, tx.mode, x, size)
    requires Carries(p, tx, x, (tx.sendSeq + 1) % TWO32, chunk)
    ensures OneAccepted(chunk, Connection.Framing(limit), Deliver(p),
                        Receiver(rx, log), Receiver(After(rx, x), log + Step(rx.pending, x).1))
  {
    OneChunk(p, tx, rx, x, chunk, log);
    forall rest
      ensures Connection.Framing(limit)(chunk + rest) == Connection.Complete(|chunk|)
    {
      ChunkIsFramed(p, tx, x, (tx.sendSeq + 1) % TWO32, chunk, limit, rest);
    }
  }

  /** Any interleaving of chunks of an in-step sender is accepted throughout. */
  lemma {:induction false} SentStreamAccepted(p: Policy, tx: State, rx: State, xs: seq<Piece>, size: nat, limit: nat, log: seq<Message>)
    requires size <= limit && size < TWO32 && InStep(p, tx, rx)
    requires forall x :: x in xs ==> Sendable(p, tx.mode, x, size)
    ensures Accepted(SendAll(p, tx, xs, size), Connection.Framing(limit), Deliver(p),
                     Receiver(rx, log), Receiver(AfterAll(rx, xs), log + Run(rx.pending, xs).1))
    decreases |xs|
  {
    if xs == [] {
      assert log + [] == log;
    } else {
      var x := xs[0];
      var (tx', chunk) := SendPiece(p, tx, x, size);
      var log' := log + Step(rx.pending, x).1;
      SentStreamAccepted(p, tx', After(rx, x), xs[1..], size, limit, log');
      RunCons(log, rx.pending, xs);
      SentChunkAccepted(p, tx, rx, x, size, limit, log);
      AcceptedCons(chunk, SendAll(p, tx', xs[1..], size), Connection.Framing(limit), Deliver(p),
                   Receiver(rx, log), Receiver(After(rx, x), log'),
                   Receiver(AfterAll(rx, xs), log + Run(rx.pending, xs).1));
    }
  }

  lemma RunCons(log: seq<Message>, p: Pending, xs: seq<Piece>)
    requires xs != []
    ensures log + Run(p, xs).1 == (log + Step(p, xs[0]).1) + Run(Step(p, xs[0]).0, xs[1..]).1
  {
  }

  lemma AcceptedCons<S(!new)>(chunk: seq<byte>, chunks: seq<seq<byte>>, frame: Connection.Framer, step: Connection.Callback<S>, app: S, mid: S, app': S)
    requires OneAccepted(chunk, frame, step, app, mid) && Accepted(chunks, frame, step, mid, app')
    ensures Accepted([chunk] + chunks, frame, step, app, app')
  {
    assert ([chunk] + chunks)[0] == chunk && ([chunk] + chunks)[1..] == chunks;
  }

  /** Any interleaving of chunks, any packets: the receiver's application sees exactly what
      reassembly of the sent pieces yields, nothing fails and nothing is left over. The
      sequence number may wrap on the way. */
  lemma PiecesArrive(p: Policy, tx: State, rx: State, xs: seq<Piece>, size: nat, limit: nat, packets: seq<seq<byte>>)
    requires size <= limit && size < TWO32 && InStep(p, tx, rx)
    requires forall x :: x in xs ==> Sendable(p, tx.mode, x, size)
    requires Flatten(packets) == Flatten(SendAll(p, tx, xs, size))
    ensures Connection.Receive(packets, [], Connection.Framing(limit), Deliver(p), Receiver(rx, []))
         == Connection.Progress(Receiver(AfterAll(rx, xs), Run(rx.pending, xs).1),
                                SendAll(p, tx, xs, size), Good, [])
  {
    Connection.FramingStable(limit);
    Connection.PacketsAreOneStream(packets, [], Connection.Framing(limit), Deliver(p), Receiver(rx, []));
    assert [] + Flatten(packets) == Flatten(packets);
    SentStreamAccepted(p, tx, rx, xs, size, limit, []);
    assert [] + Run(rx.pending, xs).1 == Run(rx.pending, xs).1;
    AcceptedStream(SendAll(p, tx, xs, size), Connection.Framing(limit), Deliver(p),
                   Receiver(rx, []), Receiver(AfterAll(rx, xs), Run(rx.pending, xs).1));
  }

  /** A message that can be sent: cut into non-empty bodies that fit. */
  predicate SendableMessage(p: Policy, mode: Mode, m: Outgoing, limit: nat)
  {
    && SendableType(m.messageType) && |m.bodies| > 0
    && forall b :: b in m.bodies ==> |b| >= 1 && TotalLength(p.sym, mode, |b|) <= limit
  }

  lemma {:induction false} PiecesSendable(p: Policy, mode: Mode, ms: seq<Outgoing>, limit: nat)
    requires forall m :: m in ms ==> SendableMessage(p, mode, m, limit)
    ensures forall x :: x in AllPieces(ms) ==> Sendable(p, mode, x, limit)
  {
    if ms != [] {
      PiecesSendable(p, mode, ms[1..], limit);
      assert SendableMessage(p, mode, ms[0], limit);
      forall x | x in Pieces(ms[0])
        ensures Sendable(p, mode, x, limit)
      {
        assert x.body in ms[0].bodies;
      }
    }
  }

  /** The bytes of a list of messages on the wire. */
  function Wire(p: Policy, tx: State, ms: seq<Outgoing>, limit: nat): seq<byte>
    requires limit < TWO32
    requires forall m :: m in ms ==> SendableMessage(p, tx.mode, m, limit)
  {
    PiecesSendable(p, tx.mode, ms, limit);
    Flatten(SendAll(p, tx, AllPieces(ms), limit))
  }

  /** Two ends in step: any list of messages, any split into bodies, any cut into packets.
      size is the sender's buffer, limit the receiver's, which may be larger. */
  lemma MessagesArriveInStep(p: Policy, tx: State, rx: State, ms: seq<Outgoing>, size: nat, limit: nat, packets: seq<seq<byte>>)
    requires size <= limit && size < TWO32 && InStep(p, tx, rx) && rx.pending == map[]
    requires forall m :: m in ms ==> SendableMessage(p, tx.mode, m, size)
    requires Flatten(packets) == Wire(p, tx, ms, size)
    ensures var r := Connection.Receive(packets, [], Connection.Framing(limit), Deliver(p), Receiver(rx, []));
      r.status == Good && r.rest == [] && r.app.log == Messages(ms) && r.app.channel.pending == map[]
  {
    PiecesSendable(p, tx.mode, ms, size);
    PiecesArrive(p, tx, rx, AllPieces(ms), size, limit, packets);
    MessagesArrive(ms);
    AfterAllPending(rx, AllPieces(ms));
  }

  /** End to end: two ends that derived their keys from exchanged nonces, any list of
      messages, any split into bodies, any cut into packets. The receiver's application
      gets exactly the messages, in order. */
  lemma MessagesArriveEndToEnd(p: Policy, tx: State, rx: State, ms: seq<Outgoing>, size: nat, limit: nat, packets: seq<seq<byte>>)
    requires size <= limit && size < TWO32
    requires tx.mode == rx.mode && tx.token == rx.token && tx.sendSeq == rx.recvSeq
    requires tx.localNonce == rx.remoteNonce && tx.remoteNonce == rx.localNonce
    requires rx.pending == map[]
    requires forall m :: m in ms ==> SendableMessage(p, tx.mode, m, size)
    requires Flatten(packets) == Wire(p, GenerateNewKeys(p, tx), ms, size)
    ensures var r := Connection.Receive(packets, [], Connection.Framing(limit), Deliver(p),
                                        Receiver(GenerateNewKeys(p, rx), []));
      && r.status == Good && r.rest == []
      && r.app.log == Messages(ms)
      && r.app.channel.pending == map[]
  {
    MessagesArriveInStep(p, GenerateNewKeys(p, tx), GenerateNewKeys(p, rx), ms, size, limit, packets);
  }
}
