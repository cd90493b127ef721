/** Sending a symmetric message chunk by chunk from one buffer (UA_MessageContext and
    sendSymmetricChunk in src/ua_securechannel.c). */
module MessageContext {
  import opened Bytes
  import opened ChunkSecurity
  import opened KeyDerivation
  import opened Reassembly
  import opened SecureChannel
  import opened SymmetricChunk
  import Connection
  import EndToEnd

  /** Limits announced by the peer; zero means none. */
  datatype Limits = Limits(maxMessageSize: nat, maxChunkCount: nat)

  predicate TooLarge(l: Limits, size: nat, chunkCount: nat) {
    (l.maxMessageSize != 0 && size > l.maxMessageSize) || (l.maxChunkCount != 0 && chunkCount > l.maxChunkCount)
  }

  class Context {
    const channel: UASecureChannel
    const limits: Limits
    const requestId: uint32
    const messageType: TypeCode
    var chunksSoFar: nat
    var messageSizeSoFar: nat
    var buffer: array<byte>
    var bufPos: nat
    var bufEnd: int
    var final: bool

    /** The context of a permitted message. */
    constructor (ch: UASecureChannel, l: Limits, id: uint32, t: TypeCode, sendBufferSize: nat)
      requires SendableType(t) && sendBufferSize > HEADER
      ensures channel == ch && limits == l && requestId == id && messageType == t
      ensures chunksSoFar == 0 && messageSizeSoFar == 0 && !final
      ensures fresh(buffer) && buffer.Length == sendBufferSize
      ensures bufPos == HEADER && bufEnd - HEADER == Capacity(ch.policy.sym, ch.mode, sendBufferSize)
    {
      channel, limits, requestId, messageType := ch, l, id, t;
      chunksSoFar, messageSizeSoFar, final := 0, 0, false;
      buffer := new byte[sendBufferSize](_ => 0);
      bufPos, bufEnd := 0, 0;
      new;
      SetBufPos();
    }

    /** UA_MessageContext_begin: only MSG and CLO messages, and only with room for a header. */
    static method Begin(ch: UASecureChannel, l: Limits, id: uint32, t: TypeCode, sendBufferSize: nat)
      returns (status: Status, mc: Context?)
      ensures status == if t != Connection.MSG && t != Connection.CLO then BadInternalError
                        else if sendBufferSize <= HEADER then BadResponseTooLarge else Good
      ensures mc != null <==> status == Good
      ensures mc != null ==>
        && fresh(mc) && fresh(mc.buffer) && mc.channel == ch && mc.limits == l && mc.requestId == id && mc.messageType == t
        && mc.chunksSoFar == 0 && mc.messageSizeSoFar == 0 && !mc.final && mc.buffer.Length == sendBufferSize
        && mc.bufPos == HEADER && mc.bufEnd - HEADER == Capacity(ch.policy.sym, ch.mode, sendBufferSize)
    {
      if !SendableType(t) {
        return BadInternalError, null;
      }
      if sendBufferSize <= HEADER {
        return BadResponseTooLarge, null;
      }
      mc := new Context(ch, l, id, t, sendBufferSize);
      return Good, mc;
    }

    /** Hide the room for header, signature and padding from the encoder. */
    method SetBufPos()
      modifies this`bufPos, this`bufEnd
      ensures bufPos == HEADER && bufEnd - HEADER == Capacity(channel.policy.sym, channel.mode, buffer.Length)
    {
      bufPos := HEADER;
      bufEnd := buffer.Length;
      if channel.mode == Sign || channel.mode == SignAndEncrypt {
        bufEnd := bufEnd - channel.policy.sym.sigSize;
      }
      if channel.mode == SignAndEncrypt {
        bufEnd := bufEnd - 2;
      }
    }

    /** The second half of sendSymmetricEncodingCallback: a new buffer for the next chunk. */
    method NewBuffer(sendBufferSize: nat)
      modifies this`buffer, this`bufPos, this`bufEnd
      ensures fresh(buffer) && buffer.Length == sendBufferSize
      ensures bufPos == HEADER && bufEnd - HEADER == Capacity(channel.policy.sym, channel.mode, sendBufferSize)
    {
      buffer := new byte[sendBufferSize](_ => 0);
      SetBufPos();
    }

    /** The encoder writes body bytes at the position; it stays below bufEnd. */
    method Encode(bytes: seq<byte>)
      requires HEADER <= bufPos && bufPos + |bytes| <= bufEnd && bufEnd <= buffer.Length
      modifies this`bufPos, buffer
      ensures bufPos == old(bufPos) + |bytes|
      ensures buffer[HEADER..bufPos] == old(buffer[HEADER..bufPos]) + bytes
    {
      CopyInto(bytes, buffer, bufPos);
      assert buffer[HEADER..bufPos + |bytes|] == buffer[..bufPos][HEADER..] + buffer[bufPos..bufPos + |bytes|];
      assert buffer[..bufPos][HEADER..] == old(buffer[..bufPos])[HEADER..];
      bufPos := bufPos + |bytes|;
    }

    /** The padding loop: one byte more than the padding size, and a second length byte for
        sizes above 255. The code writes on behind the buffer if the padding does not fit;
        the model stops there and says so. */
    method WritePadding(ghost body: seq<byte>) returns (inside: bool)
      requires HEADER <= bufPos <= buffer.Length && body == buffer[HEADER..bufPos]
      modifies this`bufPos, buffer
      ensures inside <==> HEADER + |body| + |PadBytes(channel.policy.sym, channel.mode, |body|)| <= buffer.Length
      ensures inside ==> bufPos == HEADER + |body| + |PadBytes(channel.policy.sym, channel.mode, |body|)|
      ensures inside ==> buffer[HEADER..bufPos] == body + PadBytes(channel.policy.sym, channel.mode, |body|)
    {
      if channel.mode == SignAndEncrypt {
        var start := bufPos;
        var total := PaddingSym(channel.policy.sym, start - HEADER + 8);
        var paddingSize, extra := total % 256, total / 256 % 256;
        var i := 0;
        while i <= total
          invariant 0 <= i <= total + 1 && bufPos == start + i <= buffer.Length
          invariant buffer[HEADER..bufPos] == body + Repeat(paddingSize, i)
        {
          if bufPos == buffer.Length {
            return false;
          }
          WriteByte(paddingSize);
          assert body + Repeat(paddingSize, i) + [paddingSize] == body + Repeat(paddingSize, i + 1);
          i := i + 1;
        }
        if extra > 0 {
          if bufPos == buffer.Length {
            return false;
          }
          WriteByte(extra);
        }
      } else {
        assert body + [] == body;
      }
      return true;
    }

    method WriteByte(b: byte)
      requires HEADER <= bufPos < buffer.Length
      modifies this`bufPos, buffer
      ensures bufPos == old(bufPos) + 1 && buffer[HEADER..bufPos] == old(buffer[HEADER..bufPos]) + [b]
    {
      buffer[bufPos] := b;
      bufPos := bufPos + 1;
      assert buffer[HEADER..bufPos] == buffer[HEADER..bufPos - 1] + [b];
    }

    /** Header fields in front of the body. */
    method WriteHeader(header: seq<byte>, ghost rest: seq<byte>)
      requires |header| == HEADER <= bufPos <= buffer.Length && buffer[HEADER..bufPos] == rest
      modifies buffer
      ensures buffer[..bufPos] == header + rest
    {
      CopyInto(header, buffer, 0);
      assert buffer[HEADER..bufPos] == buffer[HEADER..][..bufPos - HEADER];
      assert buffer[..bufPos] == buffer[0..HEADER] + buffer[HEADER..bufPos];
    }

    /** Signature behind the padding, then encryption in place from the sequence header on. */
    method SignAndCrypt(total: nat, ghost pre: seq<byte>) returns (status: Status)
      requires CLEAR_HEADER <= bufPos && total == bufPos + SignatureLength(channel.policy.sym, channel.mode) <= buffer.Length
      requires pre == buffer[..bufPos]
      requires channel.mode == SignAndEncrypt ==> (total - CLEAR_HEADER) % channel.policy.sym.blockSize == 0
      modifies buffer
      ensures status == if channel.mode == SignAndEncrypt && |channel.local.iv| != channel.policy.sym.blockSize
                        then BadInternalError else Good
      ensures status == Good ==> buffer[..total] == Seal(channel.policy.sym, channel.mode, channel.local, pre)
    {
      var p, keys := channel.policy.sym, channel.local;
      if channel.mode == Sign || channel.mode == SignAndEncrypt {
        CopyInto(p.mac(keys.signing, buffer[..bufPos]), buffer, bufPos);
        assert buffer[..total] == buffer[..bufPos] + buffer[bufPos..total];
      }
      ghost var signed := buffer[..total];
      assert signed == if Signs(channel.mode) then pre + p.mac(keys.signing, pre) else pre;
      if channel.mode == SignAndEncrypt {
        if |keys.iv| != p.blockSize || (total - CLEAR_HEADER) % p.blockSize != 0 {
          return BadInternalError;
        }
        CopyInto(p.encrypt(keys, buffer[CLEAR_HEADER..total]), buffer, CLEAR_HEADER);
        assert signed[CLEAR_HEADER..] == old(buffer[..])[CLEAR_HEADER..bufPos] + signed[bufPos..];
        assert buffer[..total] == buffer[..CLEAR_HEADER] + buffer[CLEAR_HEADER..total];
      }
      return Good;
    }

    /** Padding and headers around the body, as far as chunk and signature fit the buffer. */
    method Fill(sn: uint32, ghost body: seq<byte>) returns (inside: bool, total: nat)
      requires HEADER <= bufPos <= buffer.Length < TWO32 && body == buffer[HEADER..bufPos]
      modifies this`bufPos, buffer
      ensures inside <==> TotalLength(channel.policy.sym, channel.mode, |body|) <= buffer.Length
      ensures inside ==>
        && total == TotalLength(channel.policy.sym, channel.mode, |body|)
        && CLEAR_HEADER <= bufPos <= buffer.Length && total == bufPos + SignatureLength(channel.policy.sym, channel.mode)
        && buffer[..bufPos] == Unsigned(channel.policy.sym, channel.mode, Ids(channel.token.channelId, channel.token.tokenId),
                                        messageType, if final then Final else Intermediate, sn, requestId, body)
        && (channel.mode == SignAndEncrypt ==> (total - CLEAR_HEADER) % channel.policy.sym.blockSize == 0)
    {
      inside := WritePadding(body);
      total := bufPos + SignatureLength(channel.policy.sym, channel.mode);
      if !inside || total > buffer.Length {
        return false, total;
      }
      var clear := ClearHeader(messageType, if final then Final else Intermediate, total,
                               Ids(channel.token.channelId, channel.token.tokenId));
      var header := clear + (EncodeU32(sn) + EncodeU32(requestId));
      ghost var rest := body + PadBytes(channel.policy.sym, channel.mode, |body|);
      WriteHeader(header, rest);
      assert header + rest == header + body + PadBytes(channel.policy.sym, channel.mode, |body|);
      if channel.mode == SignAndEncrypt {
        PaddingCorrect(channel.policy.sym, |body|);
      }
    }

    /** The piece of the message that the buffer holds. */
    ghost function Current(): Piece
      reads this, buffer
      requires HEADER <= bufPos <= buffer.Length
    {
      Piece(if final then Final else Intermediate, messageType, requestId, buffer[HEADER..bufPos])
    }

    /** sendSymmetricChunk: count, check the limits, pad, write the headers, sign, encrypt
        and send. The body is what the encoder left in the buffer. Undefined stands for a
        write behind the buffer: it happens exactly for bodies whose chunk does not fit. */
    method SendChunk() returns (status: Status, wire: seq<byte>)
      requires HEADER <= bufPos <= buffer.Length < TWO32
      modifies this`chunksSoFar, this`messageSizeSoFar, this`bufPos, buffer, channel`sendSeq
      ensures messageSizeSoFar == old(messageSizeSoFar) + old(bufPos) - HEADER
      ensures chunksSoFar == (old(chunksSoFar) + 1) % 65536
      ensures var over := (limits.maxMessageSize != 0 && messageSizeSoFar > limits.maxMessageSize)
                       || (limits.maxChunkCount != 0 && chunksSoFar > limits.maxChunkCount);
        && channel.View() == old(channel.View()).(
             sendSeq := if over then old(channel.sendSeq) else (old(channel.sendSeq) + 1) % TWO32)
        && status == (if over then BadResponseTooLarge
             else if TotalLength(channel.policy.sym, channel.mode, old(bufPos) - HEADER) > buffer.Length then Undefined
             else if channel.mode == SignAndEncrypt && |channel.local.iv| != channel.policy.sym.blockSize then BadInternalError
             else Good)
      ensures status != Good ==> wire == []
      ensures status == Good ==>
        wire == BuildChunk(channel.policy.sym, channel.mode, channel.local, EndToEnd.IdsOf(channel.View()), messageType,
                           old(Current()).kind, channel.sendSeq, requestId, old(Current()).body)
    {
      wire := [];
      var bodyLength := bufPos - HEADER;
      messageSizeSoFar := messageSizeSoFar + bodyLength;
      chunksSoFar := (chunksSoFar + 1) % 65536;
      if TooLarge(limits, messageSizeSoFar, chunksSoFar) {
        return BadResponseTooLarge, [];
      }
      status, wire := Emit();
    }

    /** What follows when the limits are kept: the chunk with the next sequence number. */
    method Emit() returns (status: Status, wire: seq<byte>)
      requires HEADER <= bufPos <= buffer.Length < TWO32
      modifies this`bufPos, buffer, channel`sendSeq
      ensures channel.sendSeq == (old(channel.sendSeq) + 1) % TWO32
      ensures status ==
        if TotalLength(channel.policy.sym, channel.mode, old(bufPos) - HEADER) > buffer.Length then Undefined
        else if channel.mode == SignAndEncrypt && |channel.local.iv| != channel.policy.sym.blockSize then BadInternalError
        else Good
      ensures status != Good ==> wire == []
      ensures status == Good ==>
        wire == BuildChunk(channel.policy.sym, channel.mode, channel.local, EndToEnd.IdsOf(channel.View()), messageType,
                           old(Current()).kind, channel.sendSeq, requestId, old(Current()).body)
    {
      wire := [];
      ghost var body := buffer[HEADER..bufPos];
      channel.sendSeq := (channel.sendSeq + 1) % TWO32;
      var inside, total := Fill(channel.sendSeq, body);
      if !inside {
        return Undefined, [];
      }
      status := SignAndCrypt(total, buffer[..bufPos]);
      if status == Good {
        wire := buffer[..total];
      }
    }
  }
}
