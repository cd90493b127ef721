/** The secure channel object: the methods update fields and the chunk list in place and
    are proved against the functions of module Channel. */
module SecureChannel {
  import opened Bytes
  import opened Channel
  import opened ChunkList
  import opened ChunkSecurity
  import opened KeyDerivation
  import opened Reassembly
  import opened SymmetricChunk
  import Connection

  lemma OneBack(n: uint32)
    ensures ((n - 1) % TWO32 + 1) % TWO32 == n
  {
  }

  class UASecureChannel {
    const policy: Policy
    const chunks: Chunks
    var isFresh: bool
    var mode: Mode
    var token: Token
    var next: Token
    var localNonce: seq<byte>
    var remoteNonce: seq<byte>
    var local: Keys
    var remote: Keys
    var sendSeq: uint32
    var recvSeq: uint32

    constructor (p: Policy, m: Mode)
      ensures policy == p && Valid() && fresh(chunks) && chunks.spine == []
      ensures View() == State(true, m, NO_TOKEN, NO_TOKEN, [], [], Keys([], [], []), Keys([], [], []), 0, 0, map[])
    {
      policy, mode, isFresh := p, m, true;
      chunks := new Chunks();
      token, next := NO_TOKEN, NO_TOKEN;
      localNonce, remoteNonce := [], [];
      local, remote := Keys([], [], []), Keys([], [], []);
      sendSeq, recvSeq := 0, 0;
    }

    ghost predicate Valid()
      reads this, chunks, chunks.spine
    {
      chunks.Valid()
    }

    ghost function View(): State
      reads this, chunks
    {
      State(isFresh, mode, token, next, localNonce, remoteNonce, local, remote, sendSeq, recvSeq, chunks.Table())
    }

    /** Key material for one direction, cut into signing key, encryption key and vector. */
    method MakeKeys(secret: seq<byte>, seed: seq<byte>) returns (k: Keys)
      ensures k == DeriveKeys(policy, secret, seed)
    {
      var s, e := policy.sym.signingKeyLength, policy.sym.encryptionKeyLength;
      var buffer := new byte[policy.sym.blockSize + s + e](_ => 0);
      GenerateKey(policy.hash.mac, policy.hash.length, secret, seed, buffer);
      var material := buffer[..];
      k := Keys(material[..s], material[s..s + e], material[s + e..]);
    }

    method GenerateKeys()
      modifies this`local, this`remote
      ensures View() == GenerateNewKeys(policy, old(View()))
    {
      local := MakeKeys(remoteNonce, localNonce);
      remote := MakeKeys(localNonce, remoteNonce);
    }

    method Revolve() returns (status: Status)
      modifies this
      ensures (View(), status) == RevolveTokens(policy, old(View()))
      ensures status == Good ==>
        && token == old(next) && next.tokenId == 0
        && DerivedFrom(policy, local, remoteNonce, localNonce) && DerivedFrom(policy, remote, localNonce, remoteNonce)
    {
      RevolvedState(policy, View());
      if next.tokenId == 0 {
        return BadSecureChannelTokenUnknown;
      }
      token := next;
      next := NO_TOKEN;
      GenerateKeys();
      return Good;
    }

    method CheckSym(tokenId: uint32) returns (status: Status)
      modifies this
      ensures (View(), status) == CheckSymHeader(policy, old(View()), tokenId)
    {
      if tokenId != token.tokenId {
        if tokenId != next.tokenId {
          return BadSecureChannelTokenUnknown;
        }
        status := Revolve();
        return;
      }
      return Good;
    }

    /** The number after the last one, or a jump over the end of the number range. */
    method CheckSequenceNumber(sequenceNumber: uint32) returns (status: Status)
      modifies this`recvSeq
      ensures (View(), status) == ProcessSequenceNumberSym(old(View()), sequenceNumber)
    {
      if sequenceNumber != (recvSeq + 1) % TWO32 {
        if (recvSeq + 1) % TWO32 > 4294966271 && sequenceNumber < 1024 {
          recvSeq := (sequenceNumber - 1) % TWO32;
          OneBack(sequenceNumber);
        } else {
          return BadSecurityChecksFailed;
        }
      }
      recvSeq := (recvSeq + 1) % TWO32;
      return Good;
    }

    /** The last part of processChunk: append, finish or drop a partial message. */
    method ProcessPayload<A>(t: TypeCode, kindByte: int, d: Decoded, handler: Handler<A>, app: A)
      returns (app': A, status: Status)
      requires Valid() && d.Payload?
      modifies chunks, chunks.spine
      ensures Valid() && (forall x :: x in chunks.spine ==> x in old(chunks.spine) || fresh(x))
      ensures Result(View(), app', status) == Dispatch(old(View()), t, kindByte, d, handler, app)
    {
      app', status := app, Good;
      if kindByte == Connection.CHUNK_FINAL {
        var bytes := chunks.FinalizeChunk(d.requestId, d.bytes);
        var (a, s) := handler(app, Message(t, d.requestId, bytes));
        app', status := a, s;
      } else if kindByte == Connection.CHUNK_INTERMEDIATE {
        chunks.AppendChunk(d.requestId, d.bytes);
      } else if kindByte == Connection.CHUNK_ABORT {
        chunks.RemoveChunks(d.requestId);
      } else {
        status := BadTcpMessageTypeInvalid;
      }
    }

    method ReceiveSymmetric<A>(chunk: seq<byte>, t: TypeCode, kindByte: int, handler: Handler<A>, app: A)
      returns (app': A, status: Status)
      requires Valid()
      modifies this, chunks, chunks.spine
      ensures Valid() && (forall x :: x in chunks.spine ==> x in old(chunks.spine) || fresh(x))
      ensures Result(View(), app', status)
           == ProcessSymmetric(policy, old(View()), chunk, t, kindByte, handler, app)
    {
      app' := app;
      if |chunk| < CLEAR_HEADER {
        return app, BadDecodingError;
      }
      status := CheckSym(DecodeU32(chunk, 12));
      if status != Good {
        return;
      }
      var d := OpenChunk(mode, false, SymUnlock(policy.sym, remote), chunk, CLEAR_HEADER);
      if d.Bad? {
        return app, d.status;
      }
      status := CheckSequenceNumber(d.sequenceNumber);
      if status != Good {
        return;
      }
      app', status := ProcessPayload(t, kindByte, d, handler, app);
    }

    method ReceiveOpen<A>(chunk: seq<byte>, kindByte: int, handler: Handler<A>, app: A)
      returns (app': A, status: Status)
      requires Valid() && |chunk| >= 12
      modifies this, chunks, chunks.spine
      ensures Valid() && (forall x :: x in chunks.spine ==> x in old(chunks.spine) || fresh(x))
      ensures Result(View(), app', status)
           == ProcessOpen(policy, old(View()), chunk, kindByte, handler, app)
    {
      if kindByte != Connection.CHUNK_FINAL {
        return app, BadTcpMessageTypeInvalid;
      }
      var (s, offset) := CheckAsymHeader(policy, chunk);
      if s != Good {
        return app, s;
      }
      var d := OpenChunk(mode, true, policy.asym, chunk, offset);
      if d.Bad? {
        return app, d.status;
      }
      recvSeq := d.sequenceNumber;
      app', status := ProcessPayload(Connection.OPN, kindByte, d, handler, app);
    }

    /** UA_SecureChannel_processChunk */
    method Receive<A>(chunk: seq<byte>, handler: Handler<A>, app: A) returns (app': A, status: Status)
      requires Valid()
      modifies this, chunks, chunks.spine
      ensures Valid() && (forall x :: x in chunks.spine ==> x in old(chunks.spine) || fresh(x))
      ensures Result(View(), app', status) == ProcessChunk(policy, old(View()), chunk, handler, app)
    {
      if |chunk| < 12 {
        return app, BadDecodingError;
      }
      if DecodeU32(chunk, 8) != token.channelId && !isFresh {
        return app, BadSecureChannelIdInvalid;
      }
      var typeAndKind := DecodeU32(chunk, 0);
      var t, kindByte := typeAndKind % 0x100_0000, typeAndKind / 0x100_0000;
      if t == Connection.ERR {
        if kindByte != Connection.CHUNK_FINAL {
          return app, BadTcpMessageTypeInvalid;
        }
        var (a, s) := handler(app, Message(t, 0, chunk[12..]));
        return a, s;
      } else if t == Connection.MSG || t == Connection.CLO {
        app', status := ReceiveSymmetric(chunk, t, kindByte, handler, app);
      } else if t == Connection.OPN {
        app', status := ReceiveOpen(chunk, kindByte, handler, app);
      } else {
        return app, BadTcpMessageTypeInvalid;
      }
    }
  }
}
