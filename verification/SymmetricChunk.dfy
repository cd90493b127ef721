/** Building a symmetric chunk (sendSymmetricChunk, calculatePaddingSym and setBufPos in
    src/ua_securechannel.c) and its round trip through the receiver. */
module SymmetricChunk {
  import opened Bytes
  import opened ChunkSecurity
  import opened NumberTheory
  import opened Reassembly
  import Connection

  datatype Keys = Keys(signing: seq<byte>, encrypting: seq<byte>, iv: seq<byte>)

  /** The symmetric module of a security policy. Signing is a message authentication code
      that the receiver recomputes; the cipher is a function of the keys. */
  datatype SymModule = SymModule(
    sigSize: nat,
    blockSize: nat,
    signingKeyLength: nat,
    encryptionKeyLength: nat,
    mac: (seq<byte>, seq<byte>) -> seq<byte>,
    encrypt: (Keys, seq<byte>) -> seq<byte>,
    decrypt: (Keys, seq<byte>) -> seq<byte>)

  /** What is assumed of the cryptography: fixed-length codes, and a length-keeping cipher
      that decryption with the same keys undoes on whole blocks. */
  ghost predicate Sound(p: SymModule) {
    && 1 <= p.blockSize <= 255
    && p.encryptionKeyLength <= 2048
    && (forall k, m :: |p.mac(k, m)| == p.sigSize)
    && (forall k, x :: |p.encrypt(k, x)| == |x|)
    && (forall k, x :: |p.decrypt(k, x)| == |x|)
    && (forall k, x :: |x| % p.blockSize == 0 ==> p.decrypt(k, p.encrypt(k, x)) == x)
  }

  type SymPolicy = p: SymModule | Sound(p)
    ghost witness SymModule(0, 1, 0, 0, (k, m) => [], (k, x) => x, (k, x) => x)

  const HEADER: nat := 24       // message header, token id and sequence header
  const CLEAR_HEADER: nat := 16 // the part that is never encrypted

  // ---------------------------------------------------------------- padding

  function PaddingSym(p: SymPolicy, bytesToWrite: nat): (r: nat)
    ensures 1 <= r <= p.blockSize
  {
    p.blockSize - (bytesToWrite + p.sigSize + 1) % p.blockSize
  }

  /** The padding bytes with their length byte, and a second length byte when the count
      does not fit one. */
  function PadBytes(p: SymPolicy, mode: Mode, bodyLength: nat): (r: seq<byte>)
  {
    if mode != SignAndEncrypt then []
    else
      var n := PaddingSym(p, bodyLength + 8);
      Repeat(n % 256, n + 1) + (if n / 256 % 256 > 0 then [n / 256 % 256] else [])
  }

  function SignatureLength(p: SymPolicy, mode: Mode): nat {
    if Signs(mode) then p.sigSize else 0
  }

  function TotalLength(p: SymPolicy, mode: Mode, bodyLength: nat): nat
  {
    HEADER + bodyLength + |PadBytes(p, mode, bodyLength)| + SignatureLength(p, mode)
  }

  /** For blocks of up to 255 bytes the encrypted part is a whole number of blocks and the
      padding describes itself to the receiver. */
  lemma PaddingCorrect(p: SymPolicy, bodyLength: nat)
    ensures (TotalLength(p, SignAndEncrypt, bodyLength) - CLEAR_HEADER) % p.blockSize == 0
    ensures SelfDescribing(PadBytes(p, SignAndEncrypt, bodyLength), p.encryptionKeyLength)
  {
    var B, x := p.blockSize, bodyLength + 8 + p.sigSize + 1;
    var n := PaddingSym(p, bodyLength + 8);
    assert x + n == (x / B + 1) * B + 0 by {
      assert x == B * (x / B) + x % B;
    }
    DivModUnique(x + n, B, x / B + 1, 0);
  }

  /** Room for the body in a buffer of length L, after setBufPos. */
  function Capacity(p: SymPolicy, mode: Mode, L: nat): int {
    L - HEADER - SignatureLength(p, mode) - (if mode == SignAndEncrypt then 2 else 0)
  }

  /** Without encryption every admitted body fits, exactly filling the buffer at most. */
  lemma UnpaddedFits(p: SymPolicy, mode: Mode, L: nat, bodyLength: nat)
    requires mode != SignAndEncrypt
    ensures bodyLength <= Capacity(p, mode, L) <==> TotalLength(p, mode, bodyLength) <= L
  {
  }

  /** With encryption the two reserved bytes are enough for every admitted body exactly
      when the encrypted part of a full buffer is a whole number of blocks. */
  lemma PaddedFitsIff(p: SymPolicy, L: nat)
    requires Capacity(p, SignAndEncrypt, L) >= 0
    ensures (forall n: nat :: n <= Capacity(p, SignAndEncrypt, L) ==> TotalLength(p, SignAndEncrypt, n) <= L)
       <==> (L - CLEAR_HEADER) % p.blockSize == 0
  {
    var top := Capacity(p, SignAndEncrypt, L);
    if (L - CLEAR_HEADER) % p.blockSize == 0 {
      forall n: nat | n <= top
        ensures TotalLength(p, SignAndEncrypt, n) <= L
      {
        PaddingCorrect(p, n);
        NextMultiple(n + 9 + p.sigSize, TotalLength(p, SignAndEncrypt, n) - CLEAR_HEADER,
                     L - CLEAR_HEADER, p.blockSize);
      }
    } else {
      PaddingCorrect(p, top);
      assert TotalLength(p, SignAndEncrypt, top) - CLEAR_HEADER > L - CLEAR_HEADER - 1;
      assert TotalLength(p, SignAndEncrypt, top) > L;
    }
  }

  /** Of two multiples of B above x, one at most B away is not the larger. */
  lemma NextMultiple(x: int, y: int, z: int, B: int)
    requires B > 0 && x < y <= x + B && x < z
    requires y % B == 0 && z % B == 0
    ensures y <= z
  {
    var i := MultipleOf(y, B);
    var j := MultipleOf(z, B);
    var d := i - j;
    assert d * B == y - z;
    assert d >= 1 ==> d * B >= B;
  }

  /** The default buffer size with 16-byte blocks is a case that does not fit. */
  lemma DefaultBufferTooShort(p: SymPolicy)
    requires p.blockSize == 16 && p.sigSize == 20
    ensures Capacity(p, SignAndEncrypt, 65535) == 65489
    ensures TotalLength(p, SignAndEncrypt, 65489) > 65535
  {
    assert (65489 + 8 + 20 + 1) % 16 == 14;
  }

  // --------------------------------------------------------------- the chunk

  function KindByte(k: Kind): byte {
    match k
    case Final => Connection.CHUNK_FINAL
    case Intermediate => Connection.CHUNK_INTERMEDIATE
    case Abort => Connection.CHUNK_ABORT
  }

  predicate SendableType(t: int) {
    t == Connection.MSG || t == Connection.CLO
  }

  type TypeCode = t: int | 0 <= t < 0x100_0000

  datatype Ids = Ids(channelId: uint32, tokenId: uint32)

  function ClearHeader(t: TypeCode, k: Kind, total: uint32, ids: Ids): (r: seq<byte>)
    ensures |r| == CLEAR_HEADER
  {
    EncodeU32(t + 0x100_0000 * (KindByte(k) as int)) + EncodeU32(total)
    + EncodeU32(ids.channelId) + EncodeU32(ids.tokenId)
  }

  function Unsigned(p: SymPolicy, mode: Mode, ids: Ids, t: TypeCode, k: Kind, sn: uint32, id: uint32, body: seq<byte>): (r: seq<byte>)
    requires TotalLength(p, mode, |body|) < TWO32
  {
    ClearHeader(t, k, TotalLength(p, mode, |body|), ids)
    + (EncodeU32(sn) + EncodeU32(id)) + body + PadBytes(p, mode, |body|)
  }

  /** Signature and encryption, as far as the mode asks for them. */
  function Seal(p: SymPolicy, mode: Mode, keys: Keys, pre: seq<byte>): seq<byte>
    requires |pre| >= CLEAR_HEADER
  {
    var signed := if Signs(mode) then pre + p.mac(keys.signing, pre) else pre;
    if mode == SignAndEncrypt then signed[..CLEAR_HEADER] + p.encrypt(keys, signed[CLEAR_HEADER..])
    else signed
  }

  /** The bytes that go onto the wire. */
  function BuildChunk(p: SymPolicy, mode: Mode, keys: Keys, ids: Ids, t: TypeCode, k: Kind, sn: uint32, id: uint32, body: seq<byte>): (r: seq<byte>)
    requires TotalLength(p, mode, |body|) < TWO32
  {
    Seal(p, mode, keys, Unsigned(p, mode, ids, t, k, sn, id, body))
  }

  /** The receiver's view of the symmetric module. */
  function SymUnlock(p: SymPolicy, keys: Keys): Unlock
  {
    Unlock(p.sigSize, p.encryptionKeyLength,
           (m, s) => |s| == p.sigSize && s == p.mac(keys.signing, m),
           x => if |keys.iv| != p.blockSize || |x| % p.blockSize != 0 then Failed(BadInternalError)
                else Plain(p.decrypt(keys, x)))
  }

  lemma ChunkLength(p: SymPolicy, mode: Mode, keys: Keys, ids: Ids, t: TypeCode, k: Kind, sn: uint32, id: uint32, body: seq<byte>)
    requires TotalLength(p, mode, |body|) < TWO32
    ensures |BuildChunk(p, mode, keys, ids, t, k, sn, id, body)| == TotalLength(p, mode, |body|)
    ensures BuildChunk(p, mode, keys, ids, t, k, sn, id, body)[..CLEAR_HEADER]
         == ClearHeader(t, k, TotalLength(p, mode, |body|), ids)
  {
    var pre := Unsigned(p, mode, ids, t, k, sn, id, body);
    assert pre[..CLEAR_HEADER] == ClearHeader(t, k, TotalLength(p, mode, |body|), ids);
    var signed := if Signs(mode) then pre + p.mac(keys.signing, pre) else pre;
    assert signed[..CLEAR_HEADER] == pre[..CLEAR_HEADER];
  }

  /** In every security mode the receiver recovers exactly the body, request id and
      sequence number of a chunk with a non-empty body. */
  lemma ChunkRoundTrip(p: SymPolicy, mode: Mode, keys: Keys, ids: Ids, t: TypeCode, k: Kind, sn: uint32, id: uint32, body: seq<byte>)
    requires TotalLength(p, mode, |body|) < TWO32 && |body| >= 1
    requires |keys.iv| == p.blockSize
    ensures var chunk := BuildChunk(p, mode, keys, ids, t, k, sn, id, body);
      |chunk| >= CLEAR_HEADER &&
      OpenChunk(mode, false, SymUnlock(p, keys), chunk, CLEAR_HEADER) == Payload(id, sn, body)
  {
    ChunkLength(p, mode, keys, ids, t, k, sn, id, body);
    var chunk := BuildChunk(p, mode, keys, ids, t, k, sn, id, body);
    var pre := Unsigned(p, mode, ids, t, k, sn, id, body);
    var sig := if Signs(mode) then p.mac(keys.signing, pre) else [];
    if mode == SignAndEncrypt {
      PaddingCorrect(p, |body|);
    }
    SealedOpens(p, mode, keys, pre + sig, chunk);
    OpenSealed(mode, false, SymUnlock(p, keys), ClearHeader(t, k, TotalLength(p, mode, |body|), ids),
               sn, id, body, PadBytes(p, mode, |body|), sig, []);
    assert pre + sig + [] == pre + sig;
  }

  /** Decryption restores the signed chunk. */
  lemma SealedOpens(p: SymPolicy, mode: Mode, keys: Keys, signed: seq<byte>, chunk: seq<byte>)
    requires |keys.iv| == p.blockSize && |signed| >= CLEAR_HEADER
    requires mode == SignAndEncrypt ==> (|signed| - CLEAR_HEADER) % p.blockSize == 0
    requires chunk == if mode == SignAndEncrypt
                      then signed[..CLEAR_HEADER] + p.encrypt(keys, signed[CLEAR_HEADER..]) else signed
    ensures |chunk| == |signed|
    ensures OpenChunk(mode, false, SymUnlock(p, keys), chunk, CLEAR_HEADER)
         == OpenPlain(mode, false, SymUnlock(p, keys), signed, |signed|, CLEAR_HEADER)
  {
    assert signed == signed[..CLEAR_HEADER] + signed[CLEAR_HEADER..];
    assert chunk[|chunk|..] == [];
    if mode == SignAndEncrypt {
      assert chunk[CLEAR_HEADER..] == p.encrypt(keys, signed[CLEAR_HEADER..]);
      assert p.decrypt(keys, chunk[CLEAR_HEADER..]) == signed[CLEAR_HEADER..];
    }
    assert chunk[..CLEAR_HEADER] + signed[CLEAR_HEADER..] + chunk[|chunk|..] == signed;
  }

  /** The receiver looks for the padding length in front of the chunk. */
  predicate PaddingOutside(p: SymPolicy, mode: Mode, keys: Keys, chunkLength: nat) {
    && mode == SignAndEncrypt && CLEAR_HEADER <= chunkLength <= p.sigSize
    && |keys.iv| == p.blockSize && (chunkLength - CLEAR_HEADER) % p.blockSize == 0
  }

  /** Whatever arrives, an accepted symmetric payload is non-empty and lies inside the
      chunk. Bytes outside the chunk are read exactly for encrypted chunks of whole blocks
      that are not longer than the signature. */
  lemma SymmetricPayloadInBounds(p: SymPolicy, mode: Mode, keys: Keys, chunk: seq<byte>)
    requires |chunk| >= CLEAR_HEADER
    ensures var d := OpenChunk(mode, false, SymUnlock(p, keys), chunk, CLEAR_HEADER);
      && (d.Payload? ==> 1 <= |d.bytes| && HEADER + |d.bytes| + SignatureLength(p, mode) <= |chunk|)
      && (d == Bad(Undefined) <==> PaddingOutside(p, mode, keys, |chunk|))
  {
  }

  /** The chunk after decryption, which leaves its first sixteen bytes alone. */
  function PlainText(p: SymPolicy, mode: Mode, keys: Keys, chunk: seq<byte>): (r: seq<byte>)
    requires |chunk| >= CLEAR_HEADER
    ensures |r| == |chunk|
  {
    if mode == SignAndEncrypt then chunk[..CLEAR_HEADER] + p.decrypt(keys, chunk[CLEAR_HEADER..]) else chunk
  }

  /** The last bytes are the code of all bytes in front of them. */
  predicate Authentic(p: SymPolicy, keys: Keys, plain: seq<byte>) {
    p.sigSize <= |plain| && plain[|plain| - p.sigSize..] == p.mac(keys.signing, plain[..|plain| - p.sigSize])
  }

  /** In the signing modes no chunk is accepted without a valid code. */
  lemma AcceptedIsAuthentic(p: SymPolicy, mode: Mode, keys: Keys, chunk: seq<byte>)
    requires |chunk| >= CLEAR_HEADER && (mode == Sign || mode == SignAndEncrypt)
    requires OpenChunk(mode, false, SymUnlock(p, keys), chunk, CLEAR_HEADER).Payload?
    ensures Authentic(p, keys, PlainText(p, mode, keys, chunk))
  {
    var u, plain := SymUnlock(p, keys), PlainText(p, mode, keys, chunk);
    PlainTextIsOpened(p, mode, keys, chunk);
    AcceptedIsVerified(mode, false, u, plain, |plain|, CLEAR_HEADER);
    assert plain[|plain| - p.sigSize..|plain|] == plain[|plain| - p.sigSize..];
  }

  /** In mode Sign a chunk without a valid code fails the security checks. */
  lemma ForgedStatus(p: SymPolicy, keys: Keys, chunk: seq<byte>)
    requires |chunk| >= CLEAR_HEADER && !Authentic(p, keys, chunk)
    ensures OpenChunk(Sign, false, SymUnlock(p, keys), chunk, CLEAR_HEADER) == Bad(BadSecurityChecksFailed)
  {
    assert chunk[..CLEAR_HEADER] + chunk[CLEAR_HEADER..] + chunk[|chunk|..] == chunk;
    if p.sigSize <= |chunk| {
      assert chunk[|chunk| - p.sigSize..|chunk|] == chunk[|chunk| - p.sigSize..];
    }
  }

  /** Encrypted data that is not a whole number of blocks cannot be decrypted. */
  lemma BrokenBlocksRefused(p: SymPolicy, keys: Keys, chunk: seq<byte>)
    requires |chunk| >= CLEAR_HEADER && (|chunk| - CLEAR_HEADER) % p.blockSize != 0
    ensures OpenChunk(SignAndEncrypt, false, SymUnlock(p, keys), chunk, CLEAR_HEADER) == Bad(BadInternalError)
  {
  }

  /** Without security a chunk is what stands behind its header, which must not be nothing. */
  lemma UnsecuredChunk(p: SymPolicy, keys: Keys, chunk: seq<byte>)
    requires |chunk| >= CLEAR_HEADER
    ensures OpenChunk(None, false, SymUnlock(p, keys), chunk, CLEAR_HEADER)
      == if |chunk| < HEADER then Bad(BadDecodingError)
         else if |chunk| == HEADER then Bad(BadSecurityChecksFailed)
         else Payload(DecodeU32(chunk, 20), DecodeU32(chunk, 16), chunk[HEADER..])
  {
    assert chunk[..CLEAR_HEADER] + chunk[CLEAR_HEADER..] + chunk[|chunk|..] == chunk;
    if |chunk| > HEADER {
      assert chunk[HEADER..|chunk|] == chunk[HEADER..];
    }
  }

  /** What an accepted chunk yields stands in its plain text: sequence number, request id and
      body, in this order. */
  lemma AcceptedIsInPlainText(p: SymPolicy, mode: Mode, keys: Keys, chunk: seq<byte>)
    requires |chunk| >= CLEAR_HEADER
    requires OpenChunk(mode, false, SymUnlock(p, keys), chunk, CLEAR_HEADER).Payload?
    ensures var d, plain := OpenChunk(mode, false, SymUnlock(p, keys), chunk, CLEAR_HEADER), PlainText(p, mode, keys, chunk);
      && HEADER + |d.bytes| <= |plain| && d.bytes == plain[HEADER..HEADER + |d.bytes|]
      && d.sequenceNumber == DecodeU32(plain, 16) && d.requestId == DecodeU32(plain, 20)
  {
    PlainTextIsOpened(p, mode, keys, chunk);
    AcceptedYields(mode, false, SymUnlock(p, keys), PlainText(p, mode, keys, chunk), |chunk|, CLEAR_HEADER);
  }

  lemma PlainTextIsOpened(p: SymPolicy, mode: Mode, keys: Keys, chunk: seq<byte>)
    requires |chunk| >= CLEAR_HEADER
    requires OpenChunk(mode, false, SymUnlock(p, keys), chunk, CLEAR_HEADER).Payload?
    ensures OpenChunk(mode, false, SymUnlock(p, keys), chunk, CLEAR_HEADER)
         == OpenPlain(mode, false, SymUnlock(p, keys), PlainText(p, mode, keys, chunk), |chunk|, CLEAR_HEADER)
  {
    var bytes := if mode == SignAndEncrypt then p.decrypt(keys, chunk[CLEAR_HEADER..]) else chunk[CLEAR_HEADER..];
    assert chunk[|chunk|..] == [] && chunk[..CLEAR_HEADER] + bytes + [] == chunk[..CLEAR_HEADER] + bytes;
    assert chunk[..CLEAR_HEADER] + chunk[CLEAR_HEADER..] == chunk;
  }
}
