/** A secure channel as a value: tokens, keys, sequence numbers, reassembly and the
    processing of one received chunk (src/ua_securechannel.c). */
module Channel {
  import opened Bytes
  import opened ChunkSecurity
  import opened KeyDerivation
  import opened Reassembly
  import opened SequenceNumbers
  import opened SymmetricChunk
  import Connection

  datatype Token = Token(channelId: uint32, tokenId: uint32)

  const NO_TOKEN := Token(0, 0)

  datatype Policy = Policy(
    sym: SymPolicy,
    asym: Unlock,
    policyUri: seq<byte>,
    thumbprintOk: seq<byte> -> bool,
    hash: Hash)

  datatype State = State(
    isFresh: bool,
    mode: Mode,
    token: Token,
    next: Token,
    localNonce: seq<byte>,
    remoteNonce: seq<byte>,
    local: Keys,
    remote: Keys,
    sendSeq: uint32,
    recvSeq: uint32,
    pending: Pending)

  // ------------------------------------------------------------------- keys

  /** Bytes needed for signing key, encryption key and initialization vector. */
  function KeyMaterial(p: SymPolicy): nat {
    p.blockSize + p.signingKeyLength + p.encryptionKeyLength
  }

  function DeriveKeys(p: Policy, secret: seq<byte>, seed: seq<byte>): (k: Keys)
    ensures |k.signing| == p.sym.signingKeyLength && |k.encrypting| == p.sym.encryptionKeyLength
    ensures |k.iv| == p.sym.blockSize
    ensures k.signing + k.encrypting + k.iv
         == KeyBytes(p.hash.mac, p.hash.length, secret, seed, KeyMaterial(p.sym))
  {
    var s, e := p.sym.signingKeyLength, p.sym.encryptionKeyLength;
    var buffer := KeyBytes(p.hash.mac, p.hash.length, secret, seed, KeyMaterial(p.sym));
    assert buffer[..s] + buffer[s..s + e] + buffer[s + e..] == buffer;
    Keys(buffer[..s], buffer[s..s + e], buffer[s + e..])
  }

  function GenerateNewKeys(p: Policy, c: State): State
  {
    c.(local := DeriveKeys(p, c.remoteNonce, c.localNonce),
       remote := DeriveKeys(p, c.localNonce, c.remoteNonce))
  }

  /** k is cut from the P_hash of secret and seed. */
  ghost predicate DerivedFrom(p: Policy, k: Keys, secret: seq<byte>, seed: seq<byte>) {
    && |k.signing| == p.sym.signingKeyLength && |k.encrypting| == p.sym.encryptionKeyLength && |k.iv| == p.sym.blockSize
    && IsPHash(k.signing + k.encrypting + k.iv, p.hash.mac, secret, seed)
  }

  lemma DeriveKeysDerives(p: Policy, secret: seq<byte>, seed: seq<byte>)
    ensures DerivedFrom(p, DeriveKeys(p, secret, seed), secret, seed)
  {
  }

  /** Which nonce is the secret: the own keys come from the secret of the other end, the keys
      of the other end from the own secret. */
  lemma KeyDirection(p: Policy, c: State)
    ensures DerivedFrom(p, GenerateNewKeys(p, c).local, c.remoteNonce, c.localNonce)
    ensures DerivedFrom(p, GenerateNewKeys(p, c).remote, c.localNonce, c.remoteNonce)
  {
    DeriveKeysDerives(p, c.remoteNonce, c.localNonce);
    DeriveKeysDerives(p, c.localNonce, c.remoteNonce);
  }

  /** Two ends that exchanged nonces hold each other's keys, cut without overlap. */
  lemma PeersDeriveMatchingKeys(p: Policy, c: State, d: State)
    requires c.localNonce == d.remoteNonce && c.remoteNonce == d.localNonce
    ensures GenerateNewKeys(p, c).local == GenerateNewKeys(p, d).remote
    ensures GenerateNewKeys(p, c).remote == GenerateNewKeys(p, d).local
  {
  }

  // ------------------------------------------------------------------ tokens

  function RevolveTokens(p: Policy, c: State): (State, Status)
  {
    if c.next.tokenId == 0 then (c, BadSecureChannelTokenUnknown)
    else (GenerateNewKeys(p, c.(token := c.next, next := NO_TOKEN)), Good)
  }

  /** A token is used up by revolving: the next one becomes current with new keys, and there
      is none to revolve to until another one is issued. Nothing else changes. */
  lemma RevolvedState(p: Policy, c: State)
    ensures var (c', status) := RevolveTokens(p, c);
      && (status == Good <==> c.next.tokenId != 0)
      && (status != Good ==> c' == c && status == BadSecureChannelTokenUnknown)
      && (status == Good ==>
            && c'.token == c.next && RevolveTokens(p, c').1 == BadSecureChannelTokenUnknown
            && DerivedFrom(p, c'.local, c.remoteNonce, c.localNonce) && DerivedFrom(p, c'.remote, c.localNonce, c.remoteNonce)
            && c' == c.(token := c'.token, next := c'.next, local := c'.local, remote := c'.remote))
  {
    KeyDirection(p, c.(token := c.next, next := NO_TOKEN));
  }

  function CheckSymHeader(p: Policy, c: State, tokenId: uint32): (State, Status)
  {
    if tokenId == c.token.tokenId then (c, Good)
    else if tokenId != c.next.tokenId then (c, BadSecureChannelTokenUnknown)
    else RevolveTokens(p, c)
  }

  // --------------------------------------------------------- sequence numbers

  function ProcessSequenceNumberSym(c: State, sn: uint32): (State, Status) {
    if Accepts(c.recvSeq, sn) then (c.(recvSeq := sn), Good) else (c, BadSecurityChecksFailed)
  }

  // ------------------------------------------------------------- one chunk

  type Handler<!A> = (A, Message) -> (A, Status)

  datatype Result<A> = Result(channel: State, app: A, status: Status)

  function KindOf(b: int): (k: (bool, Kind)) {
    if b == Connection.CHUNK_FINAL then (true, Final)
    else if b == Connection.CHUNK_INTERMEDIATE then (true, Intermediate)
    else if b == Connection.CHUNK_ABORT then (true, Abort)
    else (false, Abort)
  }

  /** The accepted payload of a chunk goes to the chunk list, a completed message to the
      application. */
  function Dispatch<A>(c: State, t: TypeCode, kindByte: int, d: Decoded, handler: Handler<A>, app: A): Result<A>
    requires d.Payload?
  {
    var (known, kind) := KindOf(kindByte);
    if !known then Result(c, app, BadTcpMessageTypeInvalid)
    else
      var (pending, out) := Step(c.pending, Piece(kind, t, d.requestId, d.bytes));
      var c' := c.(pending := pending);
      if out == [] then Result(c', app, Good)
      else var (app', status) := handler(app, out[0]); Result(c', app', status)
  }

  function DecodeByteString(s: seq<byte>, at: nat): (r: (bool, seq<byte>, nat))
    requires at <= |s|
    ensures r.0 ==> r.2 <= |s|
  {
    if at + 4 > |s| then (false, [], at)
    else
      var n := DecodeU32(s, at);
      if n == 0 || n >= 0x8000_0000 then (true, [], at + 4)
      else if at + 4 + n > |s| then (false, [], at)
      else (true, s[at + 4..at + 4 + n], at + 4 + n)
  }

  /** A null string, of length -1 on the wire, reads as an empty one. */
  lemma NullStringIsEmpty(s: seq<byte>, at: nat)
    requires at + 4 <= |s| && s[at] == s[at + 1] == s[at + 2] == s[at + 3] == 255
    ensures DecodeByteString(s, at) == (true, [], at + 4)
  {
  }

  /** Asymmetric security header: policy uri, sender certificate, receiver thumbprint.
      Yields the offset behind it, or why it is refused. */
  function CheckAsymHeader(p: Policy, chunk: seq<byte>): (r: (Status, nat))
    requires |chunk| >= 12
    ensures r.0 == Good ==> r.1 <= |chunk|
  {
    var (ok1, uri, at1) := DecodeByteString(chunk, 12);
    if !ok1 then (BadDecodingError, 0)
    else
      var (ok2, _, at2) := DecodeByteString(chunk, at1);
      if !ok2 then (BadDecodingError, 0)
      else
        var (ok3, thumbprint, at3) := DecodeByteString(chunk, at2);
        if !ok3 then (BadDecodingError, 0)
        else if uri != p.policyUri then (BadSecurityPolicyRejected, 0)
        else if !p.thumbprintOk(thumbprint) then (BadCertificateInvalid, 0)
        else (Good, at3)
  }

  function ProcessSymmetric<A>(p: Policy, c: State, chunk: seq<byte>, t: TypeCode, kindByte: int, handler: Handler<A>, app: A): Result<A>
  {
    if |chunk| < CLEAR_HEADER then Result(c, app, BadDecodingError)
    else
      var (c1, s1) := CheckSymHeader(p, c, DecodeU32(chunk, 12));
      if s1 != Good then Result(c1, app, s1)
      else
        var d := OpenChunk(c1.mode, false, SymUnlock(p.sym, c1.remote), chunk, CLEAR_HEADER);
        if d.Bad? then Result(c1, app, d.status)
        else
          var (c2, s2) := ProcessSequenceNumberSym(c1, d.sequenceNumber);
          if s2 != Good then Result(c2, app, s2)
          else Dispatch(c2, t, kindByte, d, handler, app)
  }

  function ProcessOpen<A>(p: Policy, c: State, chunk: seq<byte>, kindByte: int, handler: Handler<A>, app: A): Result<A>
    requires |chunk| >= 12
  {
    if kindByte != Connection.CHUNK_FINAL then Result(c, app, BadTcpMessageTypeInvalid)
    else
      var (s1, offset) := CheckAsymHeader(p, chunk);
      if s1 != Good then Result(c, app, s1)
      else
        var d := OpenChunk(c.mode, true, p.asym, chunk, offset);
        if d.Bad? then Result(c, app, d.status)
        else Dispatch(c.(recvSeq := d.sequenceNumber), Connection.OPN, kindByte, d, handler, app)
  }

  /** UA_SecureChannel_processChunk */
  function ProcessChunk<A>(p: Policy, c: State, chunk: seq<byte>, handler: Handler<A>, app: A): Result<A>
  {
    if |chunk| < 12 then Result(c, app, BadDecodingError)
    else if DecodeU32(chunk, 8) != c.token.channelId && !c.isFresh then Result(c, app, BadSecureChannelIdInvalid)
    else
      var typeAndKind := DecodeU32(chunk, 0);
      var t, kindByte := typeAndKind % 0x100_0000, typeAndKind / 0x100_0000;
      if t == Connection.ERR then
        if kindByte != Connection.CHUNK_FINAL then Result(c, app, BadTcpMessageTypeInvalid)
        else var (app', status) := handler(app, Message(t, 0, chunk[12..])); Result(c, app', status)
      else if t == Connection.MSG || t == Connection.CLO then
        ProcessSymmetric(p, c, chunk, t, kindByte, handler, app)
      else if t == Connection.OPN then ProcessOpen(p, c, chunk, kindByte, handler, app)
      else Result(c, app, BadTcpMessageTypeInvalid)
  }
}
