/** The asymmetric OPN message (sendAsymmetricOPNMessage in src/ua_securechannel.c) and its
    way through the receiver. */
module OpenMessage {
  import opened Bytes
  import opened Channel
  import opened ChunkSecurity
  import opened NumberTheory
  import opened Reassembly
  import opened RsaBlocks
  import Connection
  import EndToEnd

  /** The sending half of the asymmetric module: the receiver's key and the own signature. */
  datatype Sender = Sender(peer: Rsa, sigSize: nat, sign: seq<byte> -> seq<byte>)

  /** getRemoteKeyLength as the sender sees it: the receiver's key length in bits. */
  function PeerBits(s: Sender): nat {
    s.peer.cipherSize * 8
  }

  /** calculatePaddingAsym */
  function PaddingAsym(s: Sender, bytesToWrite: nat): (n: nat)
    ensures 1 <= n <= s.peer.plainSize
  {
    s.peer.plainSize - (bytesToWrite + s.sigSize + LengthBytes(PeerBits(s))) % s.peer.plainSize
  }

  /** Padding bytes, and a second length byte for keys above 2048 bits. */
  function PadAsym(s: Sender, bodyLength: nat): (r: seq<byte>)
  {
    var n := PaddingAsym(s, bodyLength + 8);
    Repeat(n % 256, n + 1) + (if PeerBits(s) > 2048 then [n / 256 % 256] else [])
  }

  /** Length of the part that is encrypted. */
  function PlainLength(s: Sender, bodyLength: nat): nat {
    8 + bodyLength + |PadAsym(s, bodyLength)| + s.sigSize
  }

  /** The plain text is a whole number of RSA blocks, and a receiver that assumes the
      sender's number of length bytes can read the padding. */
  lemma PaddingAsymCorrect(s: Sender, bodyLength: nat)
    ensures PlainLength(s, bodyLength) % s.peer.plainSize == 0
    ensures SelfDescribing(PadAsym(s, bodyLength), PeerBits(s))
  {
    var B, x := s.peer.plainSize, bodyLength + 8 + s.sigSize + LengthBytes(PeerBits(s));
    var n := PaddingAsym(s, bodyLength + 8);
    assert x + n == (x / B + 1) * B + 0 by {
      assert x == B * (x / B) + x % B;
    }
    DivModUnique(x + n, B, x / B + 1, 0);
  }

  /** With the other number of length bytes the padding reads differently. */
  lemma PaddingMisread(s: Sender, bodyLength: nat, keyLength: nat)
    requires LengthBytes(keyLength) != LengthBytes(PeerBits(s))
    ensures var pad := PadAsym(s, bodyLength);
      2 <= |pad| && if PeerBits(s) > 2048 then PaddingSize(pad, |pad|, keyLength) < |pad| else PaddingSize(pad, |pad|, keyLength) > |pad|
  {
    var n := PaddingAsym(s, bodyLength + 8);
    var pad := PadAsym(s, bodyLength);
    if keyLength > 2048 {
      assert pad[|pad| - 1] == n % 256 && pad[|pad| - 2] == n % 256;
      assert n == n % 256;
    } else {
      assert pad[|pad| - 1] == n / 256 % 256;
    }
  }

  /** Everything behind the clear header, before encryption. */
  function SignedPart(s: Sender, head: seq<byte>, sn: uint32, id: uint32, body: seq<byte>): (r: seq<byte>) {
    var pre := head + (EncodeU32(sn) + EncodeU32(id)) + body + PadAsym(s, |body|);
    (EncodeU32(sn) + EncodeU32(id)) + body + PadAsym(s, |body|) + s.sign(pre)
  }

  /** The OPN chunk: encrypted and signed, or in the clear without security. */
  function BuildOpn(s: Sender, mode: Mode, r: nat, head: seq<byte>, sn: uint32, id: uint32, body: seq<byte>): seq<byte> {
    if Signs(mode) then head + EncryptBlocks(s.peer, r, SignedPart(s, head, sn, id, body))
    else head + (EncodeU32(sn) + EncodeU32(id)) + body
  }

  /** The message size that is written into the header, before encryption. */
  function OpnSize(s: Sender, mode: Mode, headLength: nat, bodyLength: nat): nat {
    if Signs(mode) then headLength + PlainLength(s, bodyLength) + Overhead(s.peer, PlainLength(s, bodyLength))
    else headLength + 8 + bodyLength
  }

  /** It is the length of the chunk. */
  lemma SizeWrittenIsSizeSent(s: Sender, mode: Mode, r: nat, head: seq<byte>, sn: uint32, id: uint32, body: seq<byte>)
    requires forall m :: |s.sign(m)| == s.sigSize
    ensures |BuildOpn(s, mode, r, head, sn, id, body)| == OpnSize(s, mode, |head|, |body|)
  {
    SignedLength(s, head, sn, id, body);
    AsymRoundTrip(s.peer, r, SignedPart(s, head, sn, id, body));
  }

  /** The receiver has the private key, knows the sender's signature, and looks at the
      sender's key length. Mode none goes with the policy without security. */
  ghost predicate Matches(s: Sender, mode: Mode, u: Unlock) {
    && u.sigSize == (if Signs(mode) then s.sigSize else 0)
    && (forall m :: |s.sign(m)| == s.sigSize)
    && (if Signs(mode) then forall m :: u.verify(m, s.sign(m)) else forall m, x :: u.verify(m, x))
    && (forall y :: u.decrypt(y) == if Signs(mode) then AsymDecrypt(s.peer, y) else Plain(y))
  }

  /** Decryption leaves the signed plain text in front of the rest of the longer cipher text. */
  lemma OpnDecrypts(s: Sender, u: Unlock, mode: Mode, r: nat, head: seq<byte>, plain: seq<byte>) returns (tail: seq<byte>)
    requires |plain| % s.peer.plainSize == 0 && |plain| > 0
    requires forall y :: u.decrypt(y) == AsymDecrypt(s.peer, y)
    ensures |tail| >= 1
    ensures OpenChunk(mode, true, u, head + EncryptBlocks(s.peer, r, plain), |head|)
         == OpenPlain(mode, true, u, (head + plain) + tail, |head + plain|, |head|)
  {
    AsymRoundTrip(s.peer, r, plain);
    CipherIsLonger(s.peer, |plain|);
    tail := EncryptBlocks(s.peer, r, plain)[|plain|..];
    OpenDecrypted(mode, true, u, head, EncryptBlocks(s.peer, r, plain), plain);
  }

  lemma CipherIsLonger(k: Rsa, length: nat)
    requires length % k.plainSize == 0 && length > 0
    ensures Overhead(k, length) >= 1
  {
    WholeAndMore(length, k.plainSize, k.cipherSize - k.plainSize);
  }

  lemma WholeAndMore(length: nat, b: nat, d: nat)
    requires b > 0 && d > 0 && length > 0 && length % b == 0
    ensures length / b * d >= 1
  {
    var q := length / b;
    assert q >= 1;
    assert q * d >= d;
  }

  /** The plain text is header, body, padding and signature in a row. */
  lemma SignedPartLayout(s: Sender, head: seq<byte>, sn: uint32, id: uint32, body: seq<byte>)
    ensures var pre := head + (EncodeU32(sn) + EncodeU32(id)) + body + PadAsym(s, |body|);
      head + SignedPart(s, head, sn, id, body) == pre + s.sign(pre)
  {
  }

  lemma SameSideOpens(s: Sender, u: Unlock, mode: Mode, head: seq<byte>, sn: uint32, id: uint32, body: seq<byte>, tail: seq<byte>)
    requires Signs(mode) && |tail| >= 1 && Matches(s, mode, u)
    requires u.keyLength > 2048 <==> PeerBits(s) > 2048
    ensures var data := head + SignedPart(s, head, sn, id, body);
      OpenPlain(mode, true, u, data + tail, |data|, |head|) == Payload(id, sn, body)
  {
    var pad := PadAsym(s, |body|);
    PaddingAsymCorrect(s, |body|);
    SignedPartLayout(s, head, sn, id, body);
    OpenSealed(mode, true, u, head, sn, id, body, pad,
               s.sign(head + (EncodeU32(sn) + EncodeU32(id)) + body + pad), tail);
  }

  /** The receiver expects the other number of length bytes. With fewer than were written it
      takes padding for body, and nothing tells it; with more it cuts off too much. */
  ghost predicate Corrupted(s: Sender, u: Unlock, id: uint32, sn: uint32, body: seq<byte>, d: Decoded) {
    if PeerBits(s) > 2048 then d.Payload? && d.requestId == id && d.sequenceNumber == sn && body < d.bytes
    else d.Payload? ==> d.bytes < body
  }

  lemma OtherSideCorrupts(s: Sender, u: Unlock, mode: Mode, head: seq<byte>, sn: uint32, id: uint32, body: seq<byte>, tail: seq<byte>)
    requires Signs(mode) && |tail| >= 1 && Matches(s, mode, u)
    requires LengthBytes(u.keyLength) != LengthBytes(PeerBits(s))
    ensures var data := head + SignedPart(s, head, sn, id, body);
      Corrupted(s, u, id, sn, body, OpenPlain(mode, true, u, data + tail, |data|, |head|))
  {
    var sh, pad := EncodeU32(sn) + EncodeU32(id), PadAsym(s, |body|);
    var pre := head + sh + body + pad;
    var sig := s.sign(pre);
    SignedPartLayout(s, head, sn, id, body);
    PaddingMisread(s, |body|, u.keyLength);
    SequenceHeaderAt(sh, 0, sn, id);
    OpensAsRead(mode, true, u, head, sh, body, pad, pre, sig, tail, pre + sig + tail);
  }

  /** An OPN message without security is opened unless its body is empty. */
  lemma UnsecuredOpensIff(s: Sender, u: Unlock, r: nat, head: seq<byte>, sn: uint32, id: uint32, body: seq<byte>)
    requires Matches(s, None, u)
    ensures OpenChunk(None, true, u, BuildOpn(s, None, r, head, sn, id, body), |head|) == Payload(id, sn, body) <==> |body| >= 1
  {
    var sh := EncodeU32(sn) + EncodeU32(id);
    var chunk := head + sh + body;
    assert chunk[..|head|] + chunk[|head|..] + chunk[|chunk|..] == chunk;
    if |body| >= 1 {
      assert chunk + [] + [] == chunk && chunk + [] == chunk;
      OpenSealed(None, true, u, head, sn, id, body, [], [], []);
    }
  }

  /** The receiver recovers the body exactly when the keys of both ends are on the same side
      of 2048 bits; without security, when it is not empty. */
  lemma OpnOpensIff(s: Sender, u: Unlock, mode: Mode, r: nat, head: seq<byte>, sn: uint32, id: uint32, body: seq<byte>)
    requires mode != Invalid && Matches(s, mode, u)
    ensures OpenChunk(mode, true, u, BuildOpn(s, mode, r, head, sn, id, body), |head|) == Payload(id, sn, body)
       <==> if mode == None then |body| >= 1 else (u.keyLength > 2048 <==> PeerBits(s) > 2048)
  {
    if mode == None {
      UnsecuredOpensIff(s, u, r, head, sn, id, body);
    } else if u.keyLength > 2048 <==> PeerBits(s) > 2048 {
      var tail := SignedTail(s, u, mode, r, head, sn, id, body);
      SameSideOpens(s, u, mode, head, sn, id, body, tail);
    } else {
      OpnCorrupted(s, u, mode, r, head, sn, id, body);
    }
  }

  lemma SignedLength(s: Sender, head: seq<byte>, sn: uint32, id: uint32, body: seq<byte>)
    requires forall m :: |s.sign(m)| == s.sigSize
    ensures |SignedPart(s, head, sn, id, body)| == PlainLength(s, |body|) > 0
    ensures PlainLength(s, |body|) % s.peer.plainSize == 0
  {
    PaddingAsymCorrect(s, |body|);
  }

  lemma SignedTail(s: Sender, u: Unlock, mode: Mode, r: nat, head: seq<byte>, sn: uint32, id: uint32, body: seq<byte>)
    returns (tail: seq<byte>)
    requires Signs(mode) && Matches(s, mode, u)
    ensures |tail| >= 1
    ensures var data := head + SignedPart(s, head, sn, id, body);
      OpenChunk(mode, true, u, BuildOpn(s, mode, r, head, sn, id, body), |head|)
      == OpenPlain(mode, true, u, data + tail, |data|, |head|)
  {
    SignedLength(s, head, sn, id, body);
    tail := OpnDecrypts(s, u, mode, r, head, SignedPart(s, head, sn, id, body));
  }

  /** With keys on different sides: a signed message, verified and delivered with other bytes
      than were sent, if the sender wrote two length bytes. */
  lemma OpnCorrupted(s: Sender, u: Unlock, mode: Mode, r: nat, head: seq<byte>, sn: uint32, id: uint32, body: seq<byte>)
    requires Signs(mode) && Matches(s, mode, u) && (u.keyLength > 2048 <==> PeerBits(s) <= 2048)
    ensures Corrupted(s, u, id, sn, body, OpenChunk(mode, true, u, BuildOpn(s, mode, r, head, sn, id, body), |head|))
  {
    var tail := SignedTail(s, u, mode, r, head, sn, id, body);
    OtherSideCorrupts(s, u, mode, head, sn, id, body, tail);
  }

  /** Enough of an RSA key for an example. */
  lemma SomeRsa() returns (k: Rsa)
    ensures k.plainSize == 214 && k.cipherSize == 256
  {
    var m := RsaModule(214, 256, (r, x) => seq(256, i => if 0 <= i < |x| then x[i] else 0),
                       y => Plain(if |y| >= 214 then y[..214] else []));
    forall r, x | |x| == 214
      ensures m.decrypt(m.encrypt(r, x)) == Plain(x)
    {
      assert m.encrypt(r, x)[..214] == x;
    }
    k := m;
  }

  /** Two ends as Basic256Sha256 admits them: a receiver with a 2048-bit key and a sender with
      a 4096-bit key. No body gets through. */
  lemma KeysOnDifferentSides() returns (s: Sender, u: Unlock)
    ensures s.peer.cipherSize == 256 && s.peer.plainSize == 214 && s.sigSize == 512 && u.keyLength == 4096
    ensures Matches(s, Sign, u) && Matches(s, SignAndEncrypt, u)
    ensures forall mode, r: nat, head, sn, id, body :: Signs(mode) ==>
      OpenChunk(mode, true, u, BuildOpn(s, mode, r, head, sn, id, body), |head|) != Payload(id, sn, body)
  {
    var k := SomeRsa();
    s := Sender(k, 512, m => Repeat(0, 512));
    u := Unlock(512, 4096, (m, x) => true, y => AsymDecrypt(k, y));
    forall mode, r: nat, head, sn, id, body | Signs(mode)
      ensures OpenChunk(mode, true, u, BuildOpn(s, mode, r, head, sn, id, body), |head|) != Payload(id, sn, body)
    {
      OpnOpensIff(s, u, mode, r, head, sn, id, body);
    }
  }

  // ------------------------------------------------------------ room in the buffer

  /** Room for the body after hideBytesAsym, of what is left behind the clear header. */
  function OpnCapacity(s: Sender, room: nat): int {
    room - 8 - s.sigSize - 2 - Overhead(s.peer, room)
  }

  /** RSA blocks of a message. */
  function Blocks(s: Sender, bodyLength: nat): nat {
    (bodyLength + 8 + s.sigSize + LengthBytes(PeerBits(s))) / s.peer.plainSize + 1
  }

  lemma EncryptedBlocks(s: Sender, bodyLength: nat)
    ensures OpnSize(s, Sign, 0, bodyLength) == Blocks(s, bodyLength) * s.peer.cipherSize
  {
    var B, x := s.peer.plainSize, bodyLength + 8 + s.sigSize + LengthBytes(PeerBits(s));
    PaddingAsymCorrect(s, bodyLength);
    RoundUp(x, B);
    WholeBlocks(s.peer, PlainLength(s, bodyLength));
  }

  lemma RoundUp(x: nat, b: nat)
    requires b > 0
    ensures (x + (b - x % b)) / b == x / b + 1
  {
    assert x + (b - x % b) == (x / b + 1) * b + 0 by {
      assert x == b * (x / b) + x % b;
    }
    DivModUnique(x + (b - x % b), b, x / b + 1, 0);
  }

  lemma MoreBlocks(s: Sender, m: nat, n: nat)
    requires m <= n
    ensures Blocks(s, m) * s.peer.cipherSize <= Blocks(s, n) * s.peer.cipherSize
  {
    var x := m + 8 + s.sigSize + LengthBytes(PeerBits(s));
    DivMonotone(x, x + (n - m), s.peer.plainSize);
    MulMonotone(Blocks(s, m), Blocks(s, n), s.peer.cipherSize);
  }

  /** Every body that hideBytesAsym admits fits exactly when the blocks of the largest one do;
      their number depends on the room and the key alone, not on the signature. */
  lemma OpnFitsIff(s: Sender, room: nat)
    requires OpnCapacity(s, room) >= 0
    ensures var x := room - 2 + LengthBytes(PeerBits(s)) - Overhead(s.peer, room);
      (forall n: nat :: n <= OpnCapacity(s, room) ==> OpnSize(s, Sign, 0, n) <= room)
      <==> (x / s.peer.plainSize + 1) * s.peer.cipherSize <= room
  {
    var top: nat := OpnCapacity(s, room);
    assert Blocks(s, top) == (room - 2 + LengthBytes(PeerBits(s)) - Overhead(s.peer, room)) / s.peer.plainSize + 1;
    forall n: nat | n <= top
      ensures OpnSize(s, Sign, 0, n) <= Blocks(s, top) * s.peer.cipherSize
    {
      EncryptedBlocks(s, n);
      MoreBlocks(s, n, top);
    }
    EncryptedBlocks(s, top);
  }

  /** It is not always enough: 2048-bit keys with 245-byte blocks and 65535 bytes of room. */
  lemma OpnReserveTooShort(s: Sender)
    requires s.peer.plainSize == 245 && s.peer.cipherSize == 256 && s.sigSize == 256
    ensures OpnCapacity(s, 65535) == 62332 && OpnSize(s, Sign, 0, 62332) == 65536
  {
    EncryptedBlocks(s, 62332);
    assert 65535 / 245 == 267 && (62332 + 8 + 256 + 1) / 245 == 255;
  }

  // --------------------------------------------------------- the clear header

  function EncodeByteString(b: seq<byte>): (r: seq<byte>)
    requires |b| < 0x8000_0000
    ensures |r| == 4 + |b|
  {
    EncodeU32(|b|) + b
  }

  /** Message header and asymmetric security header. */
  function OpnHead(channelId: uint32, size: uint32, uri: seq<byte>, certificate: seq<byte>, thumbprint: seq<byte>): seq<byte>
    requires |uri| < 0x8000_0000 && |certificate| < 0x8000_0000 && |thumbprint| < 0x8000_0000
  {
    EncodeU32(OPN_FINAL) + EncodeU32(size) + EncodeU32(channelId)
    + EncodeByteString(uri) + EncodeByteString(certificate) + EncodeByteString(thumbprint)
  }

  lemma ByteStringRoundTrip(pre: seq<byte>, b: seq<byte>, post: seq<byte>)
    requires |b| < 0x8000_0000
    ensures DecodeByteString(pre + EncodeByteString(b) + post, |pre|) == (true, b, |pre| + 4 + |b|)
  {
    U32RoundTrip(pre, |b|, b + post);
    var s := pre + EncodeByteString(b) + post;
    assert s == pre + EncodeU32(|b|) + (b + post);
    assert s[|pre| + 4..|pre| + 4 + |b|] == b;
  }

  lemma ByteStringAt(chunk: seq<byte>, at: nat, pre: seq<byte>, b: seq<byte>, post: seq<byte>)
    requires |b| < 0x8000_0000 && at == |pre| && chunk == pre + EncodeByteString(b) + post
    ensures at <= |chunk| && DecodeByteString(chunk, at) == (true, b, at + 4 + |b|)
  {
    ByteStringRoundTrip(pre, b, post);
  }

  lemma Regroup(pre: seq<byte>, u: seq<byte>, v: seq<byte>, w: seq<byte>, post: seq<byte>)
    ensures pre + u + v + w + post == pre + u + (v + w + post) == pre + u + v + (w + post)
  {
  }

  lemma FirstString(pre: seq<byte>, x: seq<byte>, v: seq<byte>, w: seq<byte>, post: seq<byte>)
    requires |x| < 0x8000_0000
    ensures DecodeByteString(pre + EncodeByteString(x) + v + w + post, |pre|) == (true, x, |pre| + 4 + |x|)
  {
    Regroup(pre, EncodeByteString(x), v, w, post);
    ByteStringAt(pre + EncodeByteString(x) + v + w + post, |pre|, pre, x, v + w + post);
  }

  lemma SecondString(pre: seq<byte>, u: seq<byte>, y: seq<byte>, w: seq<byte>, post: seq<byte>)
    requires |y| < 0x8000_0000
    ensures DecodeByteString(pre + u + EncodeByteString(y) + w + post, |pre| + |u|) == (true, y, |pre| + |u| + 4 + |y|)
  {
    Regroup(pre, u, EncodeByteString(y), w, post);
    ByteStringAt(pre + u + EncodeByteString(y) + w + post, |pre| + |u|, pre + u, y, w + post);
  }

  lemma ThirdString(pre: seq<byte>, u: seq<byte>, v: seq<byte>, z: seq<byte>, post: seq<byte>)
    requires |z| < 0x8000_0000
    ensures DecodeByteString(pre + u + v + EncodeByteString(z) + post, |pre| + |u| + |v|) == (true, z, |pre| + |u| + |v| + 4 + |z|)
  {
    ByteStringAt(pre + u + v + EncodeByteString(z) + post, |pre| + |u| + |v|, pre + u + v, z, post);
  }

  lemma ThreeNumbers(x: uint32, y: uint32, z: uint32, post: seq<byte>)
    ensures var chunk := EncodeU32(x) + EncodeU32(y) + EncodeU32(z) + post;
      DecodeU32(chunk, 0) == x && DecodeU32(chunk, 4) == y && DecodeU32(chunk, 8) == z && chunk[..4] == EncodeU32(x)
  {
    var a, b, c := EncodeU32(x), EncodeU32(y), EncodeU32(z);
    U32RoundTrip([], x, b + c + post);
    assert a + b + c + post == [] + a + (b + c + post) == a + b + (c + post);
    U32RoundTrip(a, y, c + post);
    U32RoundTrip(a + b, z, post);
  }

  lemma HeaderChecked(p: Policy, chunk: seq<byte>, uri: seq<byte>, certificate: seq<byte>, thumbprint: seq<byte>, at1: nat, at2: nat, at3: nat)
    requires 12 <= |chunk| && at1 <= |chunk| && at2 <= |chunk|
    requires DecodeByteString(chunk, 12) == (true, uri, at1)
    requires DecodeByteString(chunk, at1) == (true, certificate, at2)
    requires DecodeByteString(chunk, at2) == (true, thumbprint, at3)
    ensures CheckAsymHeader(p, chunk)
      == if uri != p.policyUri then (BadSecurityPolicyRejected, 0)
         else if !p.thumbprintOk(thumbprint) then (BadCertificateInvalid, 0) else (Good, at3)
  {
  }

  const OPN_FINAL: uint32 := Connection.OPN + 0x100_0000 * (Connection.CHUNK_FINAL as int)

  /** The receiver reads message type, chunk type and channel id. */
  lemma HeadNumbers(channelId: uint32, size: uint32, uri: seq<byte>, certificate: seq<byte>, thumbprint: seq<byte>, post: seq<byte>)
    requires |uri| < 0x8000_0000 && |certificate| < 0x8000_0000 && |thumbprint| < 0x8000_0000
    ensures var chunk := OpnHead(channelId, size, uri, certificate, thumbprint) + post;
      && |chunk| >= 12 && DecodeU32(chunk, 0) == OPN_FINAL && DecodeU32(chunk, 4) == size && DecodeU32(chunk, 8) == channelId
      && Connection.MessageTypeOf(chunk) == Connection.OPN && chunk[3] == Connection.CHUNK_FINAL
  {
    var u, v, w := EncodeByteString(uri), EncodeByteString(certificate), EncodeByteString(thumbprint);
    ThreeNumbers(OPN_FINAL, size, channelId, u + v + w + post);
    EndToEnd.TypeBytes(Connection.OPN, Connection.CHUNK_FINAL);
    assert OpnHead(channelId, size, uri, certificate, thumbprint) + post
        == EncodeU32(OPN_FINAL) + EncodeU32(size) + EncodeU32(channelId) + (u + v + w + post);
  }

  /** The receiver reads the three strings of the security header and finds its end. */
  lemma HeadDecodes(channelId: uint32, size: uint32, uri: seq<byte>, certificate: seq<byte>, thumbprint: seq<byte>, post: seq<byte>)
    requires |uri| < 0x8000_0000 && |certificate| < 0x8000_0000 && |thumbprint| < 0x8000_0000
    ensures var head := OpnHead(channelId, size, uri, certificate, thumbprint);
            var at1, at2 := 16 + |uri|, 20 + |uri| + |certificate|;
      && |head| == at2 + 4 + |thumbprint|
      && DecodeByteString(head + post, 12) == (true, uri, at1)
      && DecodeByteString(head + post, at1) == (true, certificate, at2)
      && DecodeByteString(head + post, at2) == (true, thumbprint, |head|)
  {
    var pre := EncodeU32(OPN_FINAL) + EncodeU32(size) + EncodeU32(channelId);
    var u, v, w := EncodeByteString(uri), EncodeByteString(certificate), EncodeByteString(thumbprint);
    FirstString(pre, uri, v, w, post);
    SecondString(pre, u, certificate, w, post);
    ThirdString(pre, u, v, thumbprint, post);
  }

  /** It then checks policy and thumbprint. */
  lemma HeadStrings(p: Policy, channelId: uint32, size: uint32, uri: seq<byte>, certificate: seq<byte>, thumbprint: seq<byte>, post: seq<byte>)
    requires |uri| < 0x8000_0000 && |certificate| < 0x8000_0000 && |thumbprint| < 0x8000_0000
    ensures var head := OpnHead(channelId, size, uri, certificate, thumbprint);
      |head| >= 12 && CheckAsymHeader(p, head + post)
        == if uri != p.policyUri then (BadSecurityPolicyRejected, 0)
           else if !p.thumbprintOk(thumbprint) then (BadCertificateInvalid, 0) else (Good, |head|)
  {
    HeadDecodes(channelId, size, uri, certificate, thumbprint, post);
    var head := OpnHead(channelId, size, uri, certificate, thumbprint);
    HeaderChecked(p, head + post, uri, certificate, thumbprint, 16 + |uri|, 20 + |uri| + |certificate|, |head|);
  }

  /** An OPN for another policy or another certificate is refused, whatever follows. */
  lemma ForeignOpnRefused<A>(p: Policy, c: State, channelId: uint32, size: uint32, uri: seq<byte>, certificate: seq<byte>,
                             thumbprint: seq<byte>, post: seq<byte>, handler: Handler<A>, app: A)
    requires |uri| < 0x8000_0000 && |certificate| < 0x8000_0000 && |thumbprint| < 0x8000_0000
    requires (channelId == c.token.channelId || c.isFresh) && (uri != p.policyUri || !p.thumbprintOk(thumbprint))
    ensures ProcessChunk(p, c, OpnHead(channelId, size, uri, certificate, thumbprint) + post, handler, app)
         == Result(c, app, if uri != p.policyUri then BadSecurityPolicyRejected else BadCertificateInvalid)
  {
    var chunk := OpnHead(channelId, size, uri, certificate, thumbprint) + post;
    HeadNumbers(channelId, size, uri, certificate, thumbprint, post);
    HeadStrings(p, channelId, size, uri, certificate, thumbprint, post);
    IsOpen(p, c, chunk, handler, app);
  }

  /** The state after an OPN message: its sequence number is taken over and nothing is
      pending under its request id. */
  function AfterOpn(c: State, sn: uint32, id: uint32): State {
    c.(recvSeq := sn, pending := c.pending - {id})
  }

  /** What the application gets: bytes of an unfinished message with the same request id come
      in front of the body. */
  function OpnMessage(c: State, id: uint32, body: seq<byte>): Message {
    Message(Connection.OPN, id, Collected(c.pending, id) + body)
  }

  /** The two ends of an OPN message: what the sender writes into the header suits the
      receiver, and the receiver can read the padding. */
  ghost predicate Agree(s: Sender, p: Policy, c: State, channelId: uint32, certificate: seq<byte>, thumbprint: seq<byte>, body: seq<byte>) {
    && |p.policyUri| < 0x8000_0000 && |certificate| < 0x8000_0000 && |thumbprint| < 0x8000_0000
    && p.thumbprintOk(thumbprint) && (channelId == c.token.channelId || c.isFresh)
    && c.mode != Invalid && Matches(s, c.mode, p.asym)
    && (if c.mode == None then |body| >= 1 else (p.asym.keyLength > 2048 <==> PeerBits(s) > 2048))
  }

  /** A whole OPN message through processChunk. */
  lemma OpnArrives<A>(s: Sender, p: Policy, c: State, r: nat, channelId: uint32, size: uint32,
                      certificate: seq<byte>, thumbprint: seq<byte>, sn: uint32, id: uint32, body: seq<byte>,
                      handler: Handler<A>, app: A)
    requires Agree(s, p, c, channelId, certificate, thumbprint, body)
    ensures var head := OpnHead(channelId, size, p.policyUri, certificate, thumbprint);
            var (app', status) := handler(app, OpnMessage(c, id, body));
      ProcessChunk(p, c, BuildOpn(s, c.mode, r, head, sn, id, body), handler, app)
      == Result(AfterOpn(c, sn, id), app', status)
  {
    var head := OpnHead(channelId, size, p.policyUri, certificate, thumbprint);
    var chunk := BuildOpn(s, c.mode, r, head, sn, id, body);
    var rest := HeadFirst(s, c.mode, r, head, sn, id, body);
    HeadNumbers(channelId, size, p.policyUri, certificate, thumbprint, rest);
    HeadStrings(p, channelId, size, p.policyUri, certificate, thumbprint, rest);
    OpnOpensIff(s, p.asym, c.mode, r, head, sn, id, body);
    OpenedOpn(p, c, chunk, |head|, sn, id, body, handler, app);
  }

  /** The application gets the body as it was sent exactly when nothing is pending under its
      request id. */
  lemma BodyArrivesIff(s: Sender, p: Policy, c: State, r: nat, channelId: uint32, size: uint32,
                       certificate: seq<byte>, thumbprint: seq<byte>, sn: uint32, id: uint32, body: seq<byte>, log: seq<Message>)
    requires Agree(s, p, c, channelId, certificate, thumbprint, body)
    ensures var head := OpnHead(channelId, size, p.policyUri, certificate, thumbprint);
      ProcessChunk(p, c, BuildOpn(s, c.mode, r, head, sn, id, body), EndToEnd.Log, log).app == log + [Message(Connection.OPN, id, body)]
      <==> Collected(c.pending, id) == []
  {
    OpnArrives(s, p, c, r, channelId, size, certificate, thumbprint, sn, id, body, EndToEnd.Log, log);
    LastMessage(log, c, id, body);
  }

  lemma LastMessage(log: seq<Message>, c: State, id: uint32, body: seq<byte>)
    ensures log + [OpnMessage(c, id, body)] == log + [Message(Connection.OPN, id, body)] <==> Collected(c.pending, id) == []
  {
    assert (log + [OpnMessage(c, id, body)])[|log|] == OpnMessage(c, id, body);
    assert (log + [Message(Connection.OPN, id, body)])[|log|] == Message(Connection.OPN, id, body);
    if Collected(c.pending, id) == [] {
      assert [] + body == body;
    } else {
      assert |OpnMessage(c, id, body).bytes| > |body|;
    }
  }

  /** A case where it does not: the sender has started a message and sends the OPN under the
      same request id before it is complete. The receiver accepts both chunks, and the
      application gets the two pieces as one OPN message. */
  lemma OpnBehindPartialMessage(s: Sender, p: Policy, tx: State, c: State, r: nat, channelId: uint32, size: uint32,
                                certificate: seq<byte>, thumbprint: seq<byte>, sn: uint32, id: uint32,
                                part: seq<byte>, body: seq<byte>, limit: nat, log: seq<Message>)
    requires Agree(s, p, c, channelId, certificate, thumbprint, body) && id !in c.pending
    requires EndToEnd.InStep(p, tx, c) && limit < TWO32
    requires EndToEnd.Sendable(p, tx.mode, Piece(Intermediate, Connection.MSG, id, part), limit)
    ensures var x := Piece(Intermediate, Connection.MSG, id, part);
            var c' := EndToEnd.After(c, x);
            var head := OpnHead(channelId, size, p.policyUri, certificate, thumbprint);
      && EndToEnd.Deliver(p)(EndToEnd.Receiver(c, log), EndToEnd.SendPiece(p, tx, x, limit).1) == (EndToEnd.Receiver(c', log), Good)
      && ProcessChunk(p, c', BuildOpn(s, c.mode, r, head, sn, id, body), EndToEnd.Log, log).app
         == log + [Message(Connection.OPN, id, part + body)]
      && part + body != body
  {
    var x := Piece(Intermediate, Connection.MSG, id, part);
    EndToEnd.SentChunkAccepted(p, tx, c, x, limit, limit, log);
    assert log + [] == log && [] + part == part;
    OpnArrives(s, p, EndToEnd.After(c, x), r, channelId, size, certificate, thumbprint, sn, id, body, EndToEnd.Log, log);
    assert |part + body| > |body|;
  }

  lemma HeadFirst(s: Sender, mode: Mode, r: nat, head: seq<byte>, sn: uint32, id: uint32, body: seq<byte>) returns (rest: seq<byte>)
    ensures BuildOpn(s, mode, r, head, sn, id, body) == head + rest
  {
    if Signs(mode) {
      rest := EncryptBlocks(s.peer, r, SignedPart(s, head, sn, id, body));
    } else {
      rest := (EncodeU32(sn) + EncodeU32(id)) + body;
    }
  }

  lemma OpenedOpn<A>(p: Policy, c: State, chunk: seq<byte>, offset: nat, sn: uint32, id: uint32, body: seq<byte>,
                     handler: Handler<A>, app: A)
    requires |chunk| >= 12 && CheckAsymHeader(p, chunk) == (Good, offset)
    requires DecodeU32(chunk, 0) == OPN_FINAL
    requires DecodeU32(chunk, 8) == c.token.channelId || c.isFresh
    requires OpenChunk(c.mode, true, p.asym, chunk, offset) == Payload(id, sn, body)
    ensures var (app', status) := handler(app, OpnMessage(c, id, body));
      ProcessChunk(p, c, chunk, handler, app) == Result(AfterOpn(c, sn, id), app', status)
  {
    IsOpen(p, c, chunk, handler, app);
    DispatchedOpn(c.(recvSeq := sn), Payload(id, sn, body), handler, app);
  }

  /** The message type leads to the asymmetric branch. */
  lemma IsOpen<A>(p: Policy, c: State, chunk: seq<byte>, handler: Handler<A>, app: A)
    requires |chunk| >= 12 && DecodeU32(chunk, 0) == OPN_FINAL
    requires DecodeU32(chunk, 8) == c.token.channelId || c.isFresh
    ensures ProcessChunk(p, c, chunk, handler, app) == ProcessOpen(p, c, chunk, Connection.CHUNK_FINAL, handler, app)
  {
    EndToEnd.TypeAndKind(Connection.OPN, Connection.CHUNK_FINAL);
  }

  lemma DispatchedOpn<A>(c: State, d: Decoded, handler: Handler<A>, app: A)
    requires d.Payload?
    ensures var (app', status) := handler(app, OpnMessage(c, d.requestId, d.bytes));
      Dispatch(c, Connection.OPN, Connection.CHUNK_FINAL, d, handler, app)
      == Result(c.(pending := c.pending - {d.requestId}), app', status)
  {
  }

  // ----------------------------------------------------------------- in packets

  /** The size that the sender writes makes the connection cut the message out whole. */
  lemma OpnIsFramed(channelId: uint32, size: uint32, uri: seq<byte>, certificate: seq<byte>, thumbprint: seq<byte>,
                    chunk: seq<byte>, rest: seq<byte>, post: seq<byte>, limit: nat)
    requires |uri| < 0x8000_0000 && |certificate| < 0x8000_0000 && |thumbprint| < 0x8000_0000
    requires chunk == OpnHead(channelId, size, uri, certificate, thumbprint) + rest && |chunk| == size <= limit
    ensures Connection.Framing(limit)(chunk + post) == Connection.Complete(|chunk|)
  {
    HeadNumbers(channelId, size, uri, certificate, thumbprint, rest + post);
    assert chunk + post == OpnHead(channelId, size, uri, certificate, thumbprint) + (rest + post);
  }

  /** An OPN message arrives through the connection, however its bytes are cut into packets. */
  lemma OpnArrivesInPackets(s: Sender, p: Policy, c: State, r: nat, channelId: uint32, size: uint32,
                            certificate: seq<byte>, thumbprint: seq<byte>, sn: uint32, id: uint32, body: seq<byte>,
                            limit: nat, packets: seq<seq<byte>>, log: seq<Message>)
    requires Agree(s, p, c, channelId, certificate, thumbprint, body)
    requires size == OpnSize(s, c.mode, 24 + |p.policyUri| + |certificate| + |thumbprint|, |body|) <= limit
    requires Flatten(packets) == BuildOpn(s, c.mode, r, OpnHead(channelId, size, p.policyUri, certificate, thumbprint), sn, id, body)
    ensures Connection.Receive(packets, [], Connection.Framing(limit), EndToEnd.Deliver(p), EndToEnd.Receiver(c, log))
         == Connection.Progress(EndToEnd.Receiver(AfterOpn(c, sn, id), log + [OpnMessage(c, id, body)]), [Flatten(packets)], Good, [])
  {
    var head := OpnHead(channelId, size, p.policyUri, certificate, thumbprint);
    var chunk := BuildOpn(s, c.mode, r, head, sn, id, body);
    SizeWrittenIsSizeSent(s, c.mode, r, head, sn, id, body);
    var rest := HeadFirst(s, c.mode, r, head, sn, id, body);
    forall post
      ensures Connection.Framing(limit)(chunk + post) == Connection.Complete(|chunk|)
    {
      OpnIsFramed(channelId, size, p.policyUri, certificate, thumbprint, chunk, rest, post, limit);
    }
    OpnArrives(s, p, c, r, channelId, size, certificate, thumbprint, sn, id, body, EndToEnd.Log, log);
    EndToEnd.OneChunkInPackets(chunk, packets, limit, EndToEnd.Deliver(p), EndToEnd.Receiver(c, log),
                               EndToEnd.Receiver(AfterOpn(c, sn, id), log + [OpnMessage(c, id, body)]));
  }

  /** The same through the connection. */
  lemma BodyArrivesInPacketsIff(s: Sender, p: Policy, c: State, r: nat, channelId: uint32, size: uint32,
                                certificate: seq<byte>, thumbprint: seq<byte>, sn: uint32, id: uint32, body: seq<byte>,
                                limit: nat, packets: seq<seq<byte>>, log: seq<Message>)
    requires Agree(s, p, c, channelId, certificate, thumbprint, body)
    requires size == OpnSize(s, c.mode, 24 + |p.policyUri| + |certificate| + |thumbprint|, |body|) <= limit
    requires Flatten(packets) == BuildOpn(s, c.mode, r, OpnHead(channelId, size, p.policyUri, certificate, thumbprint), sn, id, body)
    ensures Connection.Receive(packets, [], Connection.Framing(limit), EndToEnd.Deliver(p), EndToEnd.Receiver(c, log)).app.log
            == log + [Message(Connection.OPN, id, body)]
       <==> Collected(c.pending, id) == []
  {
    OpnArrivesInPackets(s, p, c, r, channelId, size, certificate, thumbprint, sn, id, body, limit, packets, log);
    LastMessage(log, c, id, body);
  }
}
