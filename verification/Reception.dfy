/** What a secure channel refuses, and what refusing leaves alone: whole chunks and whole runs
    of processChunk in src/ua_securechannel.c. */
module Reception {
  import opened Bytes
  import opened Channel
  import opened ChunkSecurity
  import opened Reassembly
  import opened SequenceNumbers
  import opened SymmetricChunk
  import EndToEnd
  import Tokens
  import Connection

  function TypeOf(chunk: seq<byte>): int
    requires |chunk| >= 4
  {
    DecodeU32(chunk, 0) % 0x100_0000
  }

  function KindByteOf(chunk: seq<byte>): int
    requires |chunk| >= 4
  {
    DecodeU32(chunk, 0) / 0x100_0000
  }

  /** A chunk of a message, for this channel. */
  predicate ForChannel(c: State, chunk: seq<byte>) {
    |chunk| >= 16 && (TypeOf(chunk) == Connection.MSG || TypeOf(chunk) == Connection.CLO)
    && (DecodeU32(chunk, 8) == c.token.channelId || c.isFresh)
  }

  /** The channel after the token check. */
  function Checked(p: Policy, c: State, chunk: seq<byte>): State
    requires |chunk| >= 16
  {
    CheckSymHeader(p, c, DecodeU32(chunk, 12)).0
  }

  function Opened(p: Policy, c: State, chunk: seq<byte>): Decoded
    requires |chunk| >= 16
  {
    var c1 := Checked(p, c, chunk);
    OpenChunk(c1.mode, false, SymUnlock(p.sym, c1.remote), chunk, CLEAR_HEADER)
  }

  /** Neither the application nor sequence number nor unfinished messages have changed. */
  ghost predicate Untouched<A>(c: State, app: A, r: Result<A>) {
    r.app == app && r.channel.recvSeq == c.recvSeq && r.channel.pending == c.pending && r.status != Good
  }

  // ------------------------------------------------------------------ one chunk

  /** A chunk for another channel is refused and changes nothing. */
  lemma ForeignChannelRefused<A>(p: Policy, c: State, chunk: seq<byte>, handler: Handler<A>, app: A)
    requires |chunk| >= 12 && DecodeU32(chunk, 8) != c.token.channelId && !c.isFresh
    ensures ProcessChunk(p, c, chunk, handler, app) == Result(c, app, BadSecureChannelIdInvalid)
  {
  }

  /** A chunk with a token id that is neither current nor issued is refused and changes nothing. */
  lemma UnknownTokenRefused<A>(p: Policy, c: State, chunk: seq<byte>, handler: Handler<A>, app: A)
    requires ForChannel(c, chunk) && Tokens.Retired(c, DecodeU32(chunk, 12))
    ensures ProcessChunk(p, c, chunk, handler, app) == Result(c, app, BadSecureChannelTokenUnknown)
  {
  }

  /** A chunk without a valid code is refused in the signing modes. */
  lemma ForgedRefused<A>(p: Policy, c: State, chunk: seq<byte>, handler: Handler<A>, app: A)
    requires ForChannel(c, chunk) && (c.mode == Sign || c.mode == SignAndEncrypt)
    requires var c1 := Checked(p, c, chunk); !Authentic(p.sym, c1.remote, PlainText(p.sym, c.mode, c1.remote, chunk))
    ensures Untouched(c, app, ProcessChunk(p, c, chunk, handler, app))
    ensures c.mode == Sign && !Tokens.Retired(c, DecodeU32(chunk, 12)) ==>
      ProcessChunk(p, c, chunk, handler, app).status == BadSecurityChecksFailed
  {
    if Opened(p, c, chunk).Payload? {
      AcceptedIsAuthentic(p.sym, c.mode, Checked(p, c, chunk).remote, chunk);
    }
    BadIsRefused(p, c, chunk, handler, app);
    if c.mode == Sign {
      ForgedStatus(p.sym, Checked(p, c, chunk).remote, chunk);
    }
  }

  /** What cannot be opened is refused, with the status of the failure. */
  lemma BadIsRefused<A>(p: Policy, c: State, chunk: seq<byte>, handler: Handler<A>, app: A)
    requires ForChannel(c, chunk) && Opened(p, c, chunk).Bad?
    ensures Untouched(c, app, ProcessChunk(p, c, chunk, handler, app))
    ensures !Tokens.Retired(c, DecodeU32(chunk, 12)) ==>
      ProcessChunk(p, c, chunk, handler, app).status == Opened(p, c, chunk).status
  {
  }

  /** A sequence number out of order is refused. */
  lemma WrongNumberRefused<A>(p: Policy, c: State, chunk: seq<byte>, handler: Handler<A>, app: A)
    requires ForChannel(c, chunk) && Opened(p, c, chunk).Payload?
    requires !Accepts(c.recvSeq, Opened(p, c, chunk).sequenceNumber)
    ensures Untouched(c, app, ProcessChunk(p, c, chunk, handler, app))
    ensures !Tokens.Retired(c, DecodeU32(chunk, 12)) ==>
      ProcessChunk(p, c, chunk, handler, app).status == BadSecurityChecksFailed
  {
  }

  /** A refused chunk leaves the whole channel as it was exactly when it does not name the next
      token: the token check comes first and revolves before the code is looked at. */
  lemma RefusedRevolvesIff<A>(p: Policy, c: State, chunk: seq<byte>, handler: Handler<A>, app: A)
    requires ForChannel(c, chunk)
    requires var d := Opened(p, c, chunk); d.Bad? || !Accepts(c.recvSeq, d.sequenceNumber)
    ensures var id, c' := DecodeU32(chunk, 12), ProcessChunk(p, c, chunk, handler, app).channel;
      if id == c.next.tokenId && id != c.token.tokenId && id != 0
      then c'.token == c.next && c'.next == NO_TOKEN && c' != c && c' == RevolveTokens(p, c).0
      else c' == c
  {
    RefusedLeavesChecked(p, c, chunk, handler, app);
  }

  lemma RefusedLeavesChecked<A>(p: Policy, c: State, chunk: seq<byte>, handler: Handler<A>, app: A)
    requires ForChannel(c, chunk)
    requires var d := Opened(p, c, chunk); d.Bad? || !Accepts(c.recvSeq, d.sequenceNumber)
    ensures ProcessChunk(p, c, chunk, handler, app).channel == Checked(p, c, chunk)
  {
  }

  /** Such a chunk: a header that names the next token, with no code behind it. */
  lemma HeaderOnlyChunkRevolves<A>(p: Policy, c: State, handler: Handler<A>, app: A)
    requires c.mode == Sign && c.next.tokenId != 0 && c.next.tokenId != c.token.tokenId
    ensures var r := ProcessChunk(p, c, ClearHeader(Connection.MSG, Final, 16, Ids(c.token.channelId, c.next.tokenId)), handler, app);
      && r.status == BadSecurityChecksFailed && r.channel.token == c.next != c.token
  {
    var ids := Ids(c.token.channelId, c.next.tokenId);
    var chunk := ClearHeader(Connection.MSG, Final, 16, ids);
    EndToEnd.HeaderFields(chunk, Connection.MSG, Final, 16, ids);
    RefusedRevolvesIff(p, c, chunk, handler, app);
    BadIsRefused(p, c, chunk, handler, app);
  }

  /** A chunk that ends in its header is refused. */
  lemma ShortChunkRefused<A>(p: Policy, c: State, chunk: seq<byte>, handler: Handler<A>, app: A)
    requires |chunk| < 12 || (|chunk| < 16 && (TypeOf(chunk) == Connection.MSG || TypeOf(chunk) == Connection.CLO)
                              && (DecodeU32(chunk, 8) == c.token.channelId || c.isFresh))
    ensures ProcessChunk(p, c, chunk, handler, app) == Result(c, app, BadDecodingError)
  {
  }

  /** Is the chunk taken, and with which sequence number? */
  datatype Verdict = Refused | Taken(number: uint32)

  function Judge(p: Policy, c: State, chunk: seq<byte>): Verdict {
    if ForChannel(c, chunk) && CheckSymHeader(p, c, DecodeU32(chunk, 12)).1 == Good && Opened(p, c, chunk).Payload?
       && ProcessSequenceNumberSym(Checked(p, c, chunk), Opened(p, c, chunk).sequenceNumber).1 == Good
    then Taken(Opened(p, c, chunk).sequenceNumber) else Refused
  }

  predicate IsOpn(chunk: seq<byte>) {
    |chunk| >= 12 && TypeOf(chunk) == Connection.OPN
  }

  predicate IsErr(chunk: seq<byte>) {
    |chunk| >= 12 && TypeOf(chunk) == Connection.ERR
  }

  /** A chunk that is taken carries the number that comes next, is stored as the last number,
      and its payload goes to reassembly. */
  lemma TakenMeans<A>(p: Policy, c: State, chunk: seq<byte>, handler: Handler<A>, app: A)
    requires Judge(p, c, chunk).Taken?
    ensures var n, c1 := Judge(p, c, chunk).number, Checked(p, c, chunk);
      && Accepts(c.recvSeq, n) && c1.recvSeq == c.recvSeq && c1.pending == c.pending
      && ProcessChunk(p, c, chunk, handler, app)
         == Dispatch(c1.(recvSeq := n), TypeOf(chunk), KindByteOf(chunk), Opened(p, c, chunk), handler, app)
      && ProcessChunk(p, c, chunk, handler, app).channel.recvSeq == n
  {
  }

  /** Any other chunk but an OPN changes neither sequence number nor unfinished messages, and
      only an ERR chunk reaches the application. */
  lemma RefusedMeans<A>(p: Policy, c: State, chunk: seq<byte>, handler: Handler<A>, app: A)
    requires Judge(p, c, chunk).Refused? && !IsOpn(chunk)
    ensures var r := ProcessChunk(p, c, chunk, handler, app);
      && r.channel.recvSeq == c.recvSeq && r.channel.pending == c.pending
      && (!IsErr(chunk) ==> Untouched(c, app, r))
  {
  }

  /** The chunk kind decides between collecting, delivering and dropping; any other kind is
      refused. */
  lemma UnknownKindRefused<A>(c: State, t: TypeCode, kindByte: int, d: Decoded, handler: Handler<A>, app: A)
    requires d.Payload? && kindByte != 'F' as int && kindByte != 'C' as int && kindByte != 'A' as int
    ensures Dispatch(c, t, kindByte, d, handler, app) == Result(c, app, BadTcpMessageTypeInvalid)
  {
  }

  /** An ERR chunk, which is never encrypted, reaches the application with everything behind
      the message header, if it is a final one. */
  lemma ErrReachesApplication<A>(p: Policy, c: State, chunk: seq<byte>, handler: Handler<A>, app: A)
    requires IsErr(chunk) && (DecodeU32(chunk, 8) == c.token.channelId || c.isFresh)
    ensures var (app', status) := handler(app, Message(TypeOf(chunk), 0, chunk[12..]));
      ProcessChunk(p, c, chunk, handler, app)
      == if KindByteOf(chunk) == 'F' as int then Result(c, app', status) else Result(c, app, BadTcpMessageTypeInvalid)
  {
  }

  /** Types that do not belong on a channel are refused, and so are OPN chunks that are not
      final. */
  lemma OtherTypesRefused<A>(p: Policy, c: State, chunk: seq<byte>, handler: Handler<A>, app: A)
    requires |chunk| >= 12 && (DecodeU32(chunk, 8) == c.token.channelId || c.isFresh)
    requires Connection.Word(chunk) == "HEL" || Connection.Word(chunk) == "ACK"
          || (Connection.Word(chunk) == "OPN" && chunk[3] as char != 'F')
    ensures ProcessChunk(p, c, chunk, handler, app) == Result(c, app, BadTcpMessageTypeInvalid)
  {
    FirstNumber(chunk);
    Connection.SameWord(chunk, "HEL", Connection.HEL);
    Connection.SameWord(chunk, "ACK", Connection.ACK);
    Connection.SameWord(chunk, "OPN", Connection.OPN);
    NoBranch(p, c, chunk, handler, app);
  }

  /** The first number of a chunk is its type and kind. */
  lemma FirstNumber(chunk: seq<byte>)
    requires |chunk| >= 4
    ensures TypeOf(chunk) == Connection.MessageTypeOf(chunk) && KindByteOf(chunk) == chunk[3]
  {
    var t, k := Connection.MessageTypeOf(chunk), chunk[3] as int;
    assert 0 <= t < 0x100_0000 && DecodeU32(chunk, 0) == t + 0x100_0000 * k;
  }

  lemma NoBranch<A>(p: Policy, c: State, chunk: seq<byte>, handler: Handler<A>, app: A)
    requires |chunk| >= 12 && (DecodeU32(chunk, 8) == c.token.channelId || c.isFresh)
    requires TypeOf(chunk) == Connection.HEL || TypeOf(chunk) == Connection.ACK
          || (TypeOf(chunk) == Connection.OPN && KindByteOf(chunk) != 'F' as int)
    ensures ProcessChunk(p, c, chunk, handler, app) == Result(c, app, BadTcpMessageTypeInvalid)
  {
  }

  // ------------------------------------------------------------------ whole runs

  /** Chunks arrive, renewals issue tokens, and timeouts or requests revolve. */
  datatype Event = Arrive(chunk: seq<byte>) | Issue(t: Token) | Revolve

  function Next<A>(p: Policy, c: State, app: A, e: Event, handler: Handler<A>): (State, A) {
    match e
    case Arrive(chunk) => var r := ProcessChunk(p, c, chunk, handler, app); (r.channel, r.app)
    case Issue(t) => (c.(next := t), app)
    case Revolve => (RevolveTokens(p, c).0, app)
  }

  function JudgeEvent(p: Policy, c: State, e: Event): Verdict {
    if e.Arrive? then Judge(p, c, e.chunk) else Refused
  }

  /** Event k happens in states[k] with the application in apps[k] and gets verdicts[k]. */
  datatype Trace<A> = Trace(states: seq<State>, apps: seq<A>, events: seq<Event>, verdicts: seq<Verdict>)

  ghost predicate Happens<A>(p: Policy, handler: Handler<A>, c: State, app: A, e: Event, v: Verdict, c': State, app': A) {
    (c', app') == Next(p, c, app, e, handler) && v == JudgeEvent(p, c, e)
  }

  ghost predicate IsTrace<A>(p: Policy, handler: Handler<A>, t: Trace<A>) {
    && |t.states| == |t.apps| == |t.events| + 1 && |t.verdicts| == |t.events|
    && forall k {:trigger t.events[k]} :: 0 <= k < |t.events| ==>
         Happens(p, handler, t.states[k], t.apps[k], t.events[k], t.verdicts[k], t.states[k + 1], t.apps[k + 1])
  }

  /** No OPN message arrives, which would set the number anew. */
  ghost predicate WithoutOpn<A>(t: Trace<A>) {
    forall k :: 0 <= k < |t.events| && t.events[k].Arrive? ==> !IsOpn(t.events[k].chunk)
  }

  // ------------------------------------------------------------ sequence numbers

  /** The numbers of the chunks taken, in order. */
  function Numbers(vs: seq<Verdict>): seq<uint32> {
    if vs == [] then []
    else Numbers(vs[..|vs| - 1]) + (if vs[|vs| - 1].Taken? then [vs[|vs| - 1].number] else [])
  }

  lemma NumbersSnoc(vs: seq<Verdict>, k: nat)
    requires k < |vs|
    ensures Numbers(vs[..k + 1]) == Numbers(vs[..k]) + (if vs[k].Taken? then [vs[k].number] else [])
  {
    assert vs[..k + 1][..k] == vs[..k];
  }

  lemma {:induction false} NumbersGrow(vs: seq<Verdict>, i: nat, j: nat)
    requires i <= j <= |vs|
    ensures Numbers(vs[..i]) <= Numbers(vs[..j])
    decreases j
  {
    if i < j {
      NumbersGrow(vs, i, j - 1);
      NumbersSnoc(vs, j - 1);
    }
  }

  lemma NextNumber<A>(p: Policy, handler: Handler<A>, c: State, app: A, e: Event, v: Verdict, c': State, app': A)
    requires Happens(p, handler, c, app, e, v, c', app') && (e.Arrive? ==> !IsOpn(e.chunk))
    ensures if v.Taken? then Accepts(c.recvSeq, v.number) && c'.recvSeq == v.number else c'.recvSeq == c.recvSeq
  {
    if e.Arrive? {
      if v.Taken? {
        TakenMeans(p, c, e.chunk, handler, app);
      } else {
        RefusedMeans(p, c, e.chunk, handler, app);
      }
    }
  }

  lemma RunSnoc(a: seq<uint32>, n: uint32)
    requires a != [] && AcceptedRun(a) && Accepts(a[|a| - 1], n)
    ensures AcceptedRun(a + [n])
  {
    var b := a + [n];
    forall i | 0 <= i < |b| - 1
      ensures Accepts(b[i], b[i + 1])
    {
      assert b[i] == a[i];
      if i < |a| - 1 {
        assert b[i + 1] == a[i + 1];
      }
    }
  }

  /** Over any run without an OPN, the first number and the numbers of the chunks taken follow
      the rule, and the last of them is the one the channel remembers. */
  lemma {:induction false} NumbersFollowTheRule<A>(p: Policy, handler: Handler<A>, t: Trace<A>, k: nat)
    requires IsTrace(p, handler, t) && WithoutOpn(t) && k <= |t.events|
    ensures var a := [t.states[0].recvSeq] + Numbers(t.verdicts[..k]);
      AcceptedRun(a) && a[|a| - 1] == t.states[k].recvSeq
  {
    if k > 0 {
      NumbersFollowTheRule(p, handler, t, k - 1);
      var e, v := t.events[k - 1], t.verdicts[k - 1];
      NextNumber(p, handler, t.states[k - 1], t.apps[k - 1], e, v, t.states[k], t.apps[k]);
      NumbersSnoc(t.verdicts, k - 1);
      Grown(t.states[0].recvSeq, Numbers(t.verdicts[..k - 1]), v);
    }
  }

  lemma Grown(first: uint32, ns: seq<uint32>, v: Verdict)
    requires var a := [first] + ns; AcceptedRun(a) && (v.Taken? ==> Accepts(a[|a| - 1], v.number))
    ensures var b := [first] + (ns + (if v.Taken? then [v.number] else []));
      AcceptedRun(b) && b[|b| - 1] == if v.Taken? then v.number else ([first] + ns)[|ns|]
  {
    var a := [first] + ns;
    if v.Taken? {
      RunSnoc(a, v.number);
      assert [first] + (ns + [v.number]) == a + [v.number];
    } else {
      assert ns + [] == ns;
    }
  }

  /** No replay: a sequence number with which a chunk has been taken is not taken again before
      4294965249 chunks have been. */
  lemma ReplayRefused<A>(p: Policy, handler: Handler<A>, t: Trace<A>, i: nat, j: nat)
    requires IsTrace(p, handler, t) && WithoutOpn(t) && i < j < |t.events|
    requires t.verdicts[i].Taken? && t.verdicts[j] == t.verdicts[i]
    ensures |Numbers(t.verdicts[..j])| - |Numbers(t.verdicts[..i])| >= 4294965249
  {
    NumbersFollowTheRule(p, handler, t, j + 1);
    NumbersSnoc(t.verdicts, i);
    NumbersSnoc(t.verdicts, j);
    NumbersGrow(t.verdicts, i + 1, j);
    TwoPlaces(t.states[0].recvSeq, Numbers(t.verdicts[..i]), Numbers(t.verdicts[..j]), t.verdicts[i].number);
  }

  lemma TwoPlaces(first: uint32, x: seq<uint32>, y: seq<uint32>, n: uint32)
    requires x + [n] <= y && AcceptedRun([first] + (y + [n]))
    ensures |y| - |x| >= 4294965249
  {
    var a := [first] + (y + [n]);
    assert a[1 + |x|] == y[|x|] == (x + [n])[|x|] == n && a[1 + |y|] == n;
    NoEarlyReplay(a, 1 + |x|, 1 + |y|);
  }

  /** And a chunk that is not taken changes nothing that matters: sequence number, unfinished
      messages and application stay, unless it is an ERR message for the application. */
  lemma NotTakenChangesNothing<A>(p: Policy, handler: Handler<A>, t: Trace<A>, k: nat)
    requires IsTrace(p, handler, t) && WithoutOpn(t) && k < |t.events| && t.verdicts[k].Refused?
    ensures t.states[k + 1].recvSeq == t.states[k].recvSeq && t.states[k + 1].pending == t.states[k].pending
    ensures t.events[k].Arrive? && !IsErr(t.events[k].chunk) ==> t.apps[k + 1] == t.apps[k]
  {
    var e := t.events[k];
    if e.Arrive? {
      RefusedMeans(p, t.states[k], e.chunk, handler, t.apps[k]);
    }
  }

  // -------------------------------------------------------------------- tokens

  /** A chunk moves the tokens as the token check does, or not at all. */
  lemma TokensAfterChunk<A>(p: Policy, c: State, chunk: seq<byte>, handler: Handler<A>, app: A)
    ensures var c' := ProcessChunk(p, c, chunk, handler, app).channel;
      || (c'.token == c.token && c'.next == c.next)
      || (|chunk| >= 16 && c'.token == Checked(p, c, chunk).token && c'.next == Checked(p, c, chunk).next)
  {
    var c' := ProcessChunk(p, c, chunk, handler, app).channel;
    Branches(p, c, chunk, handler, app);
    if c' != c {
      if TypeOf(chunk) == Connection.OPN {
        TokensAfterOpen(p, c, chunk, KindByteOf(chunk), handler, app);
      } else {
        TokensAfterSymmetric(p, c, chunk, TypeOf(chunk), KindByteOf(chunk), handler, app);
      }
    }
  }

  /** Only two branches change the channel. */
  lemma Branches<A>(p: Policy, c: State, chunk: seq<byte>, handler: Handler<A>, app: A)
    ensures var c' := ProcessChunk(p, c, chunk, handler, app).channel;
      c' == c || (|chunk| >= 12
                  && if TypeOf(chunk) == Connection.OPN then c' == ProcessOpen(p, c, chunk, KindByteOf(chunk), handler, app).channel
                     else c' == ProcessSymmetric(p, c, chunk, TypeOf(chunk), KindByteOf(chunk), handler, app).channel)
  {
  }

  lemma TokensAfterDispatch<A>(c: State, t: TypeCode, kindByte: int, d: Decoded, handler: Handler<A>, app: A)
    requires d.Payload?
    ensures var c' := Dispatch(c, t, kindByte, d, handler, app).channel; c'.token == c.token && c'.next == c.next
  {
  }

  lemma TokensAfterSymmetric<A>(p: Policy, c: State, chunk: seq<byte>, t: TypeCode, kindByte: int, handler: Handler<A>, app: A)
    ensures var c' := ProcessSymmetric(p, c, chunk, t, kindByte, handler, app).channel;
      if |chunk| < 16 then c' == c
      else c'.token == Checked(p, c, chunk).token && c'.next == Checked(p, c, chunk).next
  {
    if |chunk| >= 16 && Opened(p, c, chunk).Payload? {
      var d := Opened(p, c, chunk);
      TokensAfterDispatch(ProcessSequenceNumberSym(Checked(p, c, chunk), d.sequenceNumber).0, t, kindByte, d, handler, app);
    }
  }

  lemma TokensAfterOpen<A>(p: Policy, c: State, chunk: seq<byte>, kindByte: int, handler: Handler<A>, app: A)
    requires |chunk| >= 12
    ensures var c' := ProcessOpen(p, c, chunk, kindByte, handler, app).channel; c'.token == c.token && c'.next == c.next
  {
  }

  /** The token check makes the next token current, or leaves both as they are. */
  lemma TokensAfterCheck(p: Policy, c: State, id: uint32)
    ensures var c' := CheckSymHeader(p, c, id).0;
      || (c'.token == c.token && c'.next == c.next)
      || (c.next.tokenId != 0 && c'.token == c.next && c'.next == NO_TOKEN)
  {
  }

  lemma TokensAfterEvent<A>(p: Policy, handler: Handler<A>, c: State, app: A, e: Event)
    requires !e.Issue?
    ensures var c' := Next(p, c, app, e, handler).0;
      || (c'.token == c.token && c'.next == c.next)
      || (c.next.tokenId != 0 && c'.token == c.next && c'.next == NO_TOKEN)
  {
    if e.Arrive? {
      TokensAfterChunk(p, c, e.chunk, handler, app);
      if |e.chunk| >= 16 {
        TokensAfterCheck(p, c, DecodeU32(e.chunk, 12));
      }
    }
  }

  lemma {:induction false} RetiredStays<A>(p: Policy, handler: Handler<A>, t: Trace<A>, i: nat, j: nat, id: uint32)
    requires IsTrace(p, handler, t) && i <= j <= |t.events| && Tokens.Retired(t.states[i], id)
    requires forall k :: i <= k < j ==> !(t.events[k].Issue? && t.events[k].t.tokenId == id)
    ensures Tokens.Retired(t.states[j], id)
    decreases j - i
  {
    if i < j {
      RetiredStays(p, handler, t, i, j - 1, id);
      if !t.events[j - 1].Issue? {
        TokensAfterEvent(p, handler, t.states[j - 1], t.apps[j - 1], t.events[j - 1]);
      }
    }
  }

  /** Over any run of chunks and renewals: once a token has been replaced, chunks that present
      its id are refused, unless it has been issued again. */
  lemma ReplacedTokenChunkRefused<A>(p: Policy, handler: Handler<A>, t: Trace<A>, i: nat, j: nat)
    requires IsTrace(p, handler, t) && i < j < |t.events|
    requires t.events[j].Arrive? && ForChannel(t.states[j], t.events[j].chunk)
    requires var id := DecodeU32(t.events[j].chunk, 12);
      && id == t.states[i].token.tokenId && id != t.states[i + 1].token.tokenId
      && forall k :: i < k < j ==> !(t.events[k].Issue? && t.events[k].t.tokenId == id)
    ensures ProcessChunk(p, t.states[j], t.events[j].chunk, handler, t.apps[j])
         == Result(t.states[j], t.apps[j], BadSecureChannelTokenUnknown)
  {
    var id, e := DecodeU32(t.events[j].chunk, 12), t.events[i];
    assert Happens(p, handler, t.states[i], t.apps[i], e, t.verdicts[i], t.states[i + 1], t.apps[i + 1]);
    if !e.Issue? {
      TokensAfterEvent(p, handler, t.states[i], t.apps[i], e);
    }
    RetiredStays(p, handler, t, i + 1, j, id);
    UnknownTokenRefused(p, t.states[j], t.events[j].chunk, handler, t.apps[j]);
  }
}
