/** Taking a received chunk apart: decryption, padding, signature and sequence header
    (decryptChunk in src/ua_securechannel.c), for symmetric and asymmetric chunks alike. */
module ChunkSecurity {
  import opened Bytes

  datatype Mode = Invalid | None | Sign | SignAndEncrypt

  predicate Signs(m: Mode) {
    m == Sign || m == SignAndEncrypt
  }

  datatype Opened = Plain(bytes: seq<byte>) | Failed(status: Status)

  /** The receiving half of a crypto module with the peer's keys. keyLength is what
      getRemoteKeyLength reports. */
  datatype Unlock = Unlock(
    sigSize: nat,
    keyLength: nat,
    verify: (seq<byte>, seq<byte>) -> bool,
    decrypt: seq<byte> -> Opened)

  datatype Decoded =
    | Payload(requestId: uint32, sequenceNumber: uint32, bytes: seq<byte>)
    | Bad(status: Status)

  predicate HasPadding(mode: Mode, isOpn: bool) {
    mode == SignAndEncrypt || (isOpn && Signs(mode))
  }

  /** Number of bytes that say how long the padding is. */
  function LengthBytes(keyLength: nat): nat {
    if keyLength > 2048 then 2 else 1
  }

  /** Padding including its length bytes, read backwards from the position end. */
  function PaddingSize(data: seq<byte>, end: nat, keyLength: nat): nat
    requires LengthBytes(keyLength) <= end <= |data|
  {
    if keyLength > 2048 then (data[end - 1] as int) * 256 + (data[end - 2] as int) + 2
    else data[end - 1] as int + 1
  }

  /** Everything behind decryption. data has the length of the received chunk; its plain
      text ends at after. */
  function OpenPlain(mode: Mode, isOpn: bool, u: Unlock, data: seq<byte>, after: nat, offset: nat): Decoded
    requires offset <= after <= |data|
  {
    var secured := Signs(mode) || isOpn;
    var sig := if secured then u.sigSize else 0;
    if HasPadding(mode, isOpn) && after < sig + LengthBytes(u.keyLength) then Bad(Undefined)
    else
      var pad := if HasPadding(mode, isOpn) then PaddingSize(data, after - sig, u.keyLength) else 0;
      if secured && offset + pad + sig >= after then Bad(BadSecurityChecksFailed)
      else if secured && !u.verify(data[..after - sig], data[after - sig..after]) then Bad(BadSecurityChecksFailed)
      else if offset + 8 > |data| then Bad(BadDecodingError)
      else if offset + 8 + pad + sig >= |data| then Bad(BadSecurityChecksFailed)
      else if offset + 8 + pad + sig > after then Bad(Undefined)
      else Payload(DecodeU32(data, offset + 4), DecodeU32(data, offset), data[offset + 8..after - sig - pad])
  }

  /** Decryption happens in place: bytes behind a shorter plain text stay as they were. */
  function OpenChunk(mode: Mode, isOpn: bool, u: Unlock, chunk: seq<byte>, offset: nat): Decoded
    requires offset <= |chunk|
  {
    var o := if mode == SignAndEncrypt || isOpn then u.decrypt(chunk[offset..]) else Plain(chunk[offset..]);
    if o.Failed? then Bad(o.status)
    else if |o.bytes| > |chunk| - offset then Bad(Undefined)
    else
      var after := offset + |o.bytes|;
      OpenPlain(mode, isOpn, u, chunk[..offset] + o.bytes + chunk[after..], after, offset)
  }

  /** Decryption in place puts the plain text over the front of the cipher text. */
  lemma OpenDecrypted(mode: Mode, isOpn: bool, u: Unlock, head: seq<byte>, cipher: seq<byte>, plain: seq<byte>)
    requires (mode == SignAndEncrypt || isOpn) && |plain| <= |cipher| && u.decrypt(cipher) == Plain(plain)
    ensures OpenChunk(mode, isOpn, u, head + cipher, |head|)
         == OpenPlain(mode, isOpn, u, (head + plain) + cipher[|plain|..], |head + plain|, |head|)
  {
    Overlay(head, cipher, |plain|);
  }

  lemma Overlay(head: seq<byte>, cipher: seq<byte>, n: nat)
    requires n <= |cipher|
    ensures (head + cipher)[..|head|] == head && (head + cipher)[|head|..] == cipher
    ensures (head + cipher)[|head| + n..] == cipher[n..]
  {
  }

  /** When the code reads outside an OPN chunk or computes a payload length below zero: the
      plain text ends before the padding length, or it passes every check, which compare with
      the received length, but is too short for sequence header, padding and signature. */
  lemma OpnUndefinedIff(mode: Mode, u: Unlock, data: seq<byte>, after: nat, offset: nat)
    requires offset <= after <= |data|
    ensures OpenPlain(mode, true, u, data, after, offset) == Bad(Undefined)
       <==> if Signs(mode) && after < u.sigSize + LengthBytes(u.keyLength) then true
            else
              var pad := if Signs(mode) then PaddingSize(data, after - u.sigSize, u.keyLength) else 0;
              && offset + pad + u.sigSize < after < offset + 8 + pad + u.sigSize < |data|
              && u.verify(data[..after - u.sigSize], data[after - u.sigSize..after])
  {
  }

  /** Such an input: 512 bytes of cipher text that decrypt to three bytes, a padding length of
      zero and a valid signature. The payload length comes out as minus five. */
  lemma OpnPayloadLengthWraps(u: Unlock, head: seq<byte>, cipher: seq<byte>, plain: seq<byte>)
    requires u.sigSize == 256 && u.keyLength <= 2048 && |cipher| == 512 && |plain| == 260 && plain[3] == 0
    requires u.decrypt(cipher) == Plain(plain) && u.verify(head + plain[..4], plain[4..])
    ensures OpenChunk(Sign, true, u, head + cipher, |head|) == Bad(Undefined)
  {
    var data := (head + plain) + cipher[260..];
    OpenDecrypted(Sign, true, u, head, cipher, plain);
    assert data[..|head| + 4] == head + plain[..4];
    assert data[|head| + 4..|head| + 260] == plain[4..];
    assert data[|head| + 3] == 0;
    OpnUndefinedIff(Sign, u, data, |head| + 260, |head|);
  }

  /** pad ends in length bytes that state its own length. */
  predicate SelfDescribing(pad: seq<byte>, keyLength: nat) {
    LengthBytes(keyLength) <= |pad| && PaddingSize(pad, |pad|, keyLength) == |pad|
  }

  /** Where the parts of a sealed chunk are. */
  lemma Layout(head: seq<byte>, sh: seq<byte>, body: seq<byte>, pad: seq<byte>, sig: seq<byte>, tail: seq<byte>)
    ensures var pre := head + sh + body + pad;
            var data := pre + sig + tail;
            && data[..|pre|] == pre
            && data[|pre|..|pre| + |sig|] == sig
            && data[|head|..|head| + |sh|] == sh
            && data[|head| + |sh|..|pre| - |pad|] == body
            && data[|pre| - |pad|..|pre|] == pad
  {
  }

  /** Whatever is accepted where signatures are in use has been verified, over everything
      in front of the last sigSize bytes of the plain text. */
  lemma AcceptedIsVerified(mode: Mode, isOpn: bool, u: Unlock, data: seq<byte>, after: nat, offset: nat)
    requires offset <= after <= |data| && OpenPlain(mode, isOpn, u, data, after, offset).Payload?
    requires mode == Sign || mode == SignAndEncrypt || isOpn
    ensures u.sigSize <= after && u.verify(data[..after - u.sigSize], data[after - u.sigSize..after])
  {
  }

  /** What is accepted stands behind the header: sequence number, request id, body. */
  lemma AcceptedYields(mode: Mode, isOpn: bool, u: Unlock, data: seq<byte>, after: nat, offset: nat)
    requires offset <= after <= |data| && OpenPlain(mode, isOpn, u, data, after, offset).Payload?
    ensures var d := OpenPlain(mode, isOpn, u, data, after, offset);
      && offset + 8 + |d.bytes| <= after && d.bytes == data[offset + 8..offset + 8 + |d.bytes|]
      && d.sequenceNumber == DecodeU32(data, offset) && d.requestId == DecodeU32(data, offset + 4)
  {
  }

  lemma SequenceHeaderAt(data: seq<byte>, at: nat, sn: uint32, id: uint32)
    requires at + 8 <= |data| && data[at..at + 8] == EncodeU32(sn) + EncodeU32(id)
    ensures DecodeU32(data, at) == sn && DecodeU32(data, at + 4) == id
  {
    var h := data[at..at + 8];
    U32RoundTrip([], sn, EncodeU32(id));
    U32RoundTrip(EncodeU32(sn), id, []);
    assert h == [] + EncodeU32(sn) + EncodeU32(id) == EncodeU32(sn) + EncodeU32(id) + [];
    assert DecodeU32(h, 0) == sn && DecodeU32(h, 4) == id;
    assert data[at] == h[0] && data[at + 1] == h[1] && data[at + 2] == h[2] && data[at + 3] == h[3];
    assert data[at + 4] == h[4] && data[at + 5] == h[5] && data[at + 6] == h[6] && data[at + 7] == h[7];
  }

  lemma PaddingAt(data: seq<byte>, end: nat, pad: seq<byte>, keyLength: nat)
    requires SelfDescribing(pad, keyLength)
    requires |pad| <= end <= |data| && data[end - |pad|..end] == pad
    ensures PaddingSize(data, end, keyLength) == |pad|
  {
    assert pad[|pad| - 1] == data[end - 1];
    if keyLength > 2048 {
      assert pad[|pad| - 2] == data[end - 2];
    }
  }

  /** What a sender put behind the header comes out again: sequence header, body, padding
      and signature, whatever is left over behind the plain text. Something must be: the
      body, or cipher text behind a shorter plain text. */
  lemma OpenSealed(mode: Mode, isOpn: bool, u: Unlock, head: seq<byte>, sn: uint32, id: uint32,
                   body: seq<byte>, pad: seq<byte>, sig: seq<byte>, tail: seq<byte>)
    requires |body| >= 1 || |tail| >= 1
    requires if HasPadding(mode, isOpn) then SelfDescribing(pad, u.keyLength) else pad == []
    requires if Signs(mode) || isOpn then |sig| == u.sigSize else sig == []
    requires Signs(mode) || isOpn ==>
      u.verify(head + (EncodeU32(sn) + EncodeU32(id)) + body + pad, sig)
    ensures var signed := head + (EncodeU32(sn) + EncodeU32(id)) + body + pad + sig;
      OpenPlain(mode, isOpn, u, signed + tail, |signed|, |head|) == Payload(id, sn, body)
  {
    var sh := EncodeU32(sn) + EncodeU32(id);
    var pre := head + sh + body + pad;
    var data := pre + sig + tail;
    Layout(head, sh, body, pad, sig, tail);
    SequenceHeaderAt(data, |head|, sn, id);
    if HasPadding(mode, isOpn) {
      PaddingAt(data, |pre|, pad, u.keyLength);
    }
    OpensAs(mode, isOpn, u, data, |pre| + |sig|, |head|, |pad|, |sig|, sn, id, body);
  }

  lemma OpensAs(mode: Mode, isOpn: bool, u: Unlock, data: seq<byte>, after: nat, offset: nat, pad: nat, sig: nat,
                sn: uint32, id: uint32, body: seq<byte>)
    requires after == offset + 8 + |body| + pad + sig && after <= |data| && offset + 8 + pad + sig < |data|
    requires sig == if Signs(mode) || isOpn then u.sigSize else 0
    requires if HasPadding(mode, isOpn) then LengthBytes(u.keyLength) <= pad == PaddingSize(data, after - sig, u.keyLength) else pad == 0
    requires Signs(mode) || isOpn ==> u.verify(data[..after - sig], data[after - sig..after])
    requires DecodeU32(data, offset) == sn && DecodeU32(data, offset + 4) == id
    requires data[offset + 8..after - sig - pad] == body
    ensures OpenPlain(mode, isOpn, u, data, after, offset) == Payload(id, sn, body)
  {
  }

  /** The receiver removes as much padding as it reads, rightly or not: with less than there
      is it hands out padding behind the body, with more it cuts the body short. pre is the
      signed part, data the plain text with its signature and what is left behind it. */
  lemma OpensAsRead(mode: Mode, isOpn: bool, u: Unlock, head: seq<byte>, sh: seq<byte>, body: seq<byte>, pad: seq<byte>,
                    pre: seq<byte>, sig: seq<byte>, tail: seq<byte>, data: seq<byte>)
    requires HasPadding(mode, isOpn) && |sig| == u.sigSize && |tail| >= 1 && |pad| >= 2 && |sh| == 8
    requires pre == head + sh + body + pad && data == pre + sig + tail && u.verify(pre, sig)
    ensures var d := OpenPlain(mode, isOpn, u, data, |pre| + |sig|, |head|);
            var n := PaddingSize(pad, |pad|, u.keyLength);
      && (n < |pad| ==> d.Payload? && d.requestId == DecodeU32(sh, 4) && d.sequenceNumber == DecodeU32(sh, 0) && body < d.bytes)
      && (n > |pad| && d.Payload? ==> d.bytes < body)
  {
    Parts(head, sh, body, pad, pre, u.keyLength);
    assert pre == (head + sh) + body + pad && |head + sh| - 8 == |head|;
    if PaddingSize(pad, |pad|, u.keyLength) < |pad| {
      TooLittle(mode, isOpn, u, head + sh, body, pad, pre, sig, tail, data, DecodeU32(sh, 0), DecodeU32(sh, 4));
    } else {
      TooMuch(mode, isOpn, u, head + sh, body, pad, pre, sig, tail, data);
    }
  }

  lemma TooLittle(mode: Mode, isOpn: bool, u: Unlock, front: seq<byte>, body: seq<byte>, pad: seq<byte>, pre: seq<byte>,
                  sig: seq<byte>, tail: seq<byte>, data: seq<byte>, sn: uint32, id: uint32)
    requires HasPadding(mode, isOpn) && |sig| == u.sigSize && |tail| >= 1 && u.verify(pre, sig)
    requires |front| >= 8 && pre == front + body + pad && data == pre + sig + tail
    requires DecodeU32(pre, |front| - 8) == sn && DecodeU32(pre, |front| - 4) == id
    requires PaddingSize(pre, |pre|, u.keyLength) < |pad|
    ensures var d := OpenPlain(mode, isOpn, u, data, |pre| + |sig|, |front| - 8);
      d.Payload? && d.requestId == id && d.sequenceNumber == sn && body < d.bytes
  {
    var n := PaddingSize(pre, |pre|, u.keyLength);
    Behind(front, body, pad, pre, n);
    OpensSigned(mode, isOpn, u, pre, sig, tail, data, |front| - 8, n, sn, id, body + pad[..|pad| - n]);
  }

  lemma TooMuch(mode: Mode, isOpn: bool, u: Unlock, front: seq<byte>, body: seq<byte>, pad: seq<byte>, pre: seq<byte>,
                sig: seq<byte>, tail: seq<byte>, data: seq<byte>)
    requires HasPadding(mode, isOpn) && |sig| == u.sigSize
    requires |front| >= 8 && pre == front + body + pad && data == pre + sig + tail
    ensures var d := OpenPlain(mode, isOpn, u, data, |pre| + |sig|, |front| - 8);
      PaddingSize(pre, |pre|, u.keyLength) > |pad| && d.Payload? ==> d.bytes < body
  {
    var n := PaddingSize(pre, |pre|, u.keyLength);
    OpensAtMost(mode, isOpn, u, pre, sig, tail, data, |front| - 8, n);
    if |pad| < n <= |body| + |pad| {
      Before(front, body, pad, pre, n);
    }
  }

  /** Sequence header and padding length are found in the signed part. */
  lemma Parts(head: seq<byte>, sh: seq<byte>, body: seq<byte>, pad: seq<byte>, pre: seq<byte>, keyLength: nat)
    requires |pad| >= 2 && |sh| == 8 && pre == head + sh + body + pad
    ensures PaddingSize(pre, |pre|, keyLength) == PaddingSize(pad, |pad|, keyLength)
    ensures DecodeU32(pre, |head|) == DecodeU32(sh, 0) && DecodeU32(pre, |head| + 4) == DecodeU32(sh, 4)
  {
    assert pre[|pre| - 1] == pad[|pad| - 1] && pre[|pre| - 2] == pad[|pad| - 2];
    assert forall i :: 0 <= i < 8 ==> pre[|head| + i] == sh[i];
  }

  lemma Behind(front: seq<byte>, body: seq<byte>, pad: seq<byte>, pre: seq<byte>, n: nat)
    requires n < |pad| && pre == front + body + pad
    ensures pre[|front|..|pre| - n] == body + pad[..|pad| - n] && body < body + pad[..|pad| - n]
  {
  }

  lemma Before(front: seq<byte>, body: seq<byte>, pad: seq<byte>, pre: seq<byte>, n: nat)
    requires |pad| <= n <= |body| + |pad| && pre == front + body + pad
    ensures pre[|front|..|pre| - n] == body[..|body| + |pad| - n]
  {
  }

  /** Signature and rest do not change what is read in the signed part. */
  lemma ReadsInFront(pre: seq<byte>, sig: seq<byte>, tail: seq<byte>, data: seq<byte>, offset: nat, keyLength: nat)
    requires offset + 8 <= |pre| && data == pre + sig + tail
    ensures data[..|pre|] == pre && data[|pre|..|pre| + |sig|] == sig
    ensures DecodeU32(data, offset) == DecodeU32(pre, offset) && DecodeU32(data, offset + 4) == DecodeU32(pre, offset + 4)
    ensures PaddingSize(data, |pre|, keyLength) == PaddingSize(pre, |pre|, keyLength)
  {
  }

  lemma SliceInFront(pre: seq<byte>, data: seq<byte>, i: nat, j: nat)
    requires i <= j <= |pre| <= |data| && data[..|pre|] == pre
    ensures data[i..j] == pre[i..j]
  {
    forall k | 0 <= k < j - i
      ensures data[i..j][k] == pre[i..j][k]
    {
      assert data[i + k] == data[..|pre|][i + k];
    }
  }

  lemma OpensSigned(mode: Mode, isOpn: bool, u: Unlock, pre: seq<byte>, sig: seq<byte>, tail: seq<byte>, data: seq<byte>,
                    offset: nat, n: nat, sn: uint32, id: uint32, payload: seq<byte>)
    requires HasPadding(mode, isOpn) && |sig| == u.sigSize && |tail| >= 1 && u.verify(pre, sig) && data == pre + sig + tail
    requires |pre| == offset + 8 + |payload| + n && PaddingSize(pre, |pre|, u.keyLength) == n
    requires DecodeU32(pre, offset) == sn && DecodeU32(pre, offset + 4) == id && pre[offset + 8..|pre| - n] == payload
    ensures OpenPlain(mode, isOpn, u, data, |pre| + |sig|, offset) == Payload(id, sn, payload)
  {
    ReadsInFront(pre, sig, tail, data, offset, u.keyLength);
    SliceInFront(pre, data, offset + 8, |pre| - n);
    OpensAs(mode, isOpn, u, data, |pre| + |sig|, offset, n, |sig|, sn, id, payload);
  }

  /** What a chunk yields if it is accepted. */
  lemma OpensAtMost(mode: Mode, isOpn: bool, u: Unlock, pre: seq<byte>, sig: seq<byte>, tail: seq<byte>, data: seq<byte>,
                    offset: nat, n: nat)
    requires HasPadding(mode, isOpn) && |sig| == u.sigSize && offset + 8 <= |pre| && data == pre + sig + tail
    requires PaddingSize(pre, |pre|, u.keyLength) == n
    ensures var d := OpenPlain(mode, isOpn, u, data, |pre| + |sig|, offset);
      d.Payload? ==> offset + 8 + n <= |pre| && d.bytes == pre[offset + 8..|pre| - n]
  {
    ReadsInFront(pre, sig, tail, data, offset, u.keyLength);
    if offset + 8 + n <= |pre| {
      SliceInFront(pre, data, offset + 8, |pre| - n);
    }
  }
}
