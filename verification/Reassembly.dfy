/** Putting chunk bodies back together per request id: what the chunk list of a secure
    channel has to compute, and what that means for whole runs. */
module Reassembly {
  import opened Bytes

  datatype Kind = Intermediate | Final | Abort

  datatype Piece = Piece(kind: Kind, messageType: int, requestId: uint32, body: seq<byte>)

  datatype Message = Message(messageType: int, requestId: uint32, bytes: seq<byte>)

  /** Bytes collected so far per request id. */
  type Pending = map<uint32, seq<byte>>

  function Collected(p: Pending, id: uint32): seq<byte> {
    if id in p then p[id] else []
  }

  /** One piece: the new table and the messages completed by it (none or one). */
  function Step(p: Pending, x: Piece): (Pending, seq<Message>) {
    match x.kind
    case Intermediate => (p[x.requestId := Collected(p, x.requestId) + x.body], [])
    case Final => (p - {x.requestId},
                   [Message(x.messageType, x.requestId, Collected(p, x.requestId) + x.body)])
    case Abort => (p - {x.requestId}, [])
  }

  function Run(p: Pending, xs: seq<Piece>): (Pending, seq<Message>)
    decreases |xs|
  {
    if xs == [] then (p, [])
    else
      var (p1, out1) := Step(p, xs[0]);
      var (p2, out2) := Run(p1, xs[1..]);
      (p2, out1 + out2)
  }

  // ------------------------------------------------ the same, without a table

  predicate Closes(x: Piece, id: uint32) {
    x.requestId == id && x.kind != Intermediate
  }

  /** k is where the current message of id starts in the history xs: behind the last final
      or abort piece of that id. */
  ghost predicate StartsAt(xs: seq<Piece>, id: uint32, k: nat) {
    && k <= |xs|
    && (k == 0 || Closes(xs[k - 1], id))
    && forall i :: k <= i < |xs| ==> !Closes(xs[i], id)
  }

  /** The bodies of one id, in order. */
  function BodiesOf(xs: seq<Piece>, id: uint32): seq<byte> {
    if xs == [] then []
    else (if xs[0].requestId == id then xs[0].body else []) + BodiesOf(xs[1..], id)
  }

  lemma {:induction false} BodiesAppend(a: seq<Piece>, b: seq<Piece>, id: uint32)
    ensures BodiesOf(a + b, id) == BodiesOf(a, id) + BodiesOf(b, id)
  {
    if a == [] {
      assert a + b == b;
    } else {
      BodiesAppend(a[1..], b, id);
      assert (a + b)[0] == a[0] && (a + b)[1..] == a[1..] + b;
      var first := if a[0].requestId == id then a[0].body else [];
      Associative(first, BodiesOf(a[1..], id), BodiesOf(b, id));
    }
  }

  lemma {:induction false} RunAppend(p: Pending, a: seq<Piece>, b: seq<Piece>)
    ensures var (p1, out1) := Run(p, a);
            var (p2, out2) := Run(p1, b);
            Run(p, a + b) == (p2, out1 + out2)
    decreases |a|
  {
    if a == [] {
      assert a + b == b;
      assert [] + Run(p, b).1 == Run(p, b).1;
    } else {
      var (p1, out1) := Step(p, a[0]);
      RunAppend(p1, a[1..], b);
      assert (a + b)[0] == a[0] && (a + b)[1..] == a[1..] + b;
      var (q1, o1) := Run(p1, a[1..]);
      var (q2, o2) := Run(q1, b);
      assert out1 + (o1 + o2) == (out1 + o1) + o2;
    }
  }

  lemma RunSnoc(p: Pending, xs: seq<Piece>, x: Piece)
    ensures var (p1, out1) := Run(p, xs);
            var (p2, out2) := Step(p1, x);
            Run(p, xs + [x]) == (p2, out1 + out2)
  {
    RunAppend(p, xs, [x]);
    var (p1, out1) := Run(p, xs);
    var (p2, out2) := Step(p1, x);
    assert Run(p1, [x]) == (p2, out2) by {
      assert [x][1..] == [];
      assert out2 + [] == out2;
    }
  }

  lemma BodiesSnoc(xs: seq<Piece>, k: nat, x: Piece, id: uint32)
    requires k <= |xs|
    ensures BodiesOf((xs + [x])[k..], id)
         == BodiesOf(xs[k..], id) + (if x.requestId == id then x.body else [])
  {
    assert (xs + [x])[k..] == xs[k..] + [x];
    BodiesAppend(xs[k..], [x], id);
    assert [x][1..] == [];
  }

  /** A piece that does not close id leaves the start where it was. */
  lemma StartSnoc(xs: seq<Piece>, x: Piece, id: uint32, k: nat)
    requires StartsAt(xs, id, k)
    ensures StartsAt(xs + [x], id, if Closes(x, id) then |xs| + 1 else k)
  {
    var ys := xs + [x];
    assert forall i :: 0 <= i < |xs| ==> ys[i] == xs[i];
    assert ys[|xs|] == x;
  }

  ghost predicate Mentioned(xs: seq<Piece>, id: uint32, k: nat) {
    exists i :: k <= i < |xs| && xs[i].requestId == id
  }

  lemma MentionedSnoc(xs: seq<Piece>, x: Piece, id: uint32, k: nat)
    requires k <= |xs|
    ensures Mentioned(xs + [x], id, k) <==> Mentioned(xs, id, k) || x.requestId == id
  {
    var ys := xs + [x];
    assert forall i :: 0 <= i < |xs| ==> ys[i] == xs[i];
    assert ys[|xs|] == x;
  }

  /** After any run the table holds, for every id, exactly the bodies since the last final
      or abort piece of that id, whatever came in between for other ids. */
  lemma {:induction false} PendingIsSinceLastClose(xs: seq<Piece>, id: uint32) returns (k: nat)
    ensures StartsAt(xs, id, k)
    ensures Collected(Run(map[], xs).0, id) == BodiesOf(xs[k..], id)
    ensures id in Run(map[], xs).0 <==> Mentioned(xs, id, k)
  {
    if xs == [] {
      k := 0;
    } else {
      var init, x := xs[..|xs| - 1], xs[|xs| - 1];
      assert xs == init + [x];
      k := PendingIsSinceLastClose(init, id);
      RunSnoc(map[], init, x);
      StartSnoc(init, x, id, k);
      if Closes(x, id) {
        k := |xs|;
        assert xs[k..] == [];
      } else {
        BodiesSnoc(init, k, x, id);
        MentionedSnoc(init, x, id, k);
      }
    }
  }

  /** Every final piece completes one message, made of that id's bodies since its last
      final or abort piece; every other piece completes none. */
  lemma FinalDeliversSinceLastClose(xs: seq<Piece>, x: Piece) returns (k: nat)
    ensures StartsAt(xs, x.requestId, k)
    ensures Run(map[], xs + [x]).1 == Run(map[], xs).1 +
      if x.kind == Final
      then [Message(x.messageType, x.requestId, BodiesOf((xs + [x])[k..], x.requestId))]
      else []
  {
    k := PendingIsSinceLastClose(xs, x.requestId);
    RunSnoc(map[], xs, x);
    BodiesSnoc(xs, k, x, x.requestId);
  }

  // ----------------------------------------------------- messages sent in one go

  /** A message as the sender cuts it: all bodies but the last go out as intermediate chunks. */
  datatype Outgoing = Outgoing(messageType: int, requestId: uint32, bodies: seq<seq<byte>>)

  function Pieces(m: Outgoing): (r: seq<Piece>)
    ensures |r| == |m.bodies|
  {
    seq(|m.bodies|, i requires 0 <= i < |m.bodies| =>
      Piece(if i == |m.bodies| - 1 then Final else Intermediate, m.messageType, m.requestId, m.bodies[i]))
  }

  function AllPieces(ms: seq<Outgoing>): seq<Piece> {
    if ms == [] then [] else Pieces(ms[0]) + AllPieces(ms[1..])
  }

  function Messages(ms: seq<Outgoing>): seq<Message> {
    if ms == [] then []
    else [Message(ms[0].messageType, ms[0].requestId, Flatten(ms[0].bodies))] + Messages(ms[1..])
  }

  lemma {:induction false} MessageArrives(p: Pending, m: Outgoing)
    requires |m.bodies| > 0
    ensures Run(p, Pieces(m)) ==
      (p - {m.requestId}, [Message(m.messageType, m.requestId, Collected(p, m.requestId) + Flatten(m.bodies))])
    decreases |m.bodies|
  {
    var x := Pieces(m)[0];
    var (p1, out1) := Step(p, x);
    if |m.bodies| == 1 {
      assert Pieces(m)[1..] == [];
      assert Flatten(m.bodies) == m.bodies[0] + Flatten(m.bodies[1..]) == m.bodies[0];
      assert out1 + [] == out1;
    } else {
      var rest := m.(bodies := m.bodies[1..]);
      assert Pieces(m)[1..] == Pieces(rest);
      MessageArrives(p1, rest);
      assert out1 + Run(p1, Pieces(rest)).1 == Run(p1, Pieces(rest)).1;
      Associative(Collected(p, m.requestId), m.bodies[0], Flatten(rest.bodies));
      assert p1 - {m.requestId} == p - {m.requestId};
    }
  }

  /** Messages sent one after the other arrive complete, unmixed and in order, also when
      they share request ids. */
  lemma {:induction false} MessagesArrive(ms: seq<Outgoing>)
    requires forall m :: m in ms ==> |m.bodies| > 0
    ensures Run(map[], AllPieces(ms)) == (map[], Messages(ms))
  {
    if ms != [] {
      MessageArrives(map[], ms[0]);
      MessagesArrive(ms[1..]);
      RunAppend(map[], Pieces(ms[0]), AllPieces(ms[1..]));
      var none: Pending := map[];
      assert none - {ms[0].requestId} == none;
      assert [] + Flatten(ms[0].bodies) == Flatten(ms[0].bodies);
    }
  }
}
