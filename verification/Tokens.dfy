/** Security tokens over whole runs of a channel. */
module Tokens {
  import opened Bytes
  import opened Channel

  /** What happens to the tokens of a channel: a renewal issues the next token, a symmetric
      chunk presents a token id, and a timeout or a client request revolves. */
  datatype Event = Issue(t: Token) | Present(tokenId: uint32) | Revolve

  function Apply(p: Policy, c: State, e: Event): (State, Status) {
    match e
    case Issue(t) => (c.(next := t), Good)
    case Present(id) => CheckSymHeader(p, c, id)
    case Revolve => RevolveTokens(p, c)
  }

  /** State before event k of a run. */
  function StateAt(p: Policy, c: State, es: seq<Event>, k: nat): State
    requires k <= |es|
  {
    if k == 0 then c else Apply(p, StateAt(p, c, es, k - 1), es[k - 1]).0
  }

  /** id is neither in use nor waiting to be used. */
  predicate Retired(c: State, id: uint32) {
    id != c.token.tokenId && (id == 0 || id != c.next.tokenId)
  }

  lemma {:induction false} RetiredStays(p: Policy, c: State, es: seq<Event>, i: nat, j: nat, id: uint32)
    requires i <= j <= |es| && Retired(StateAt(p, c, es, i), id)
    requires forall k :: i <= k < j ==> !(es[k].Issue? && es[k].t.tokenId == id)
    ensures Retired(StateAt(p, c, es, j), id)
    decreases j - i
  {
    if i < j {
      RetiredStays(p, c, es, i, j - 1, id);
    }
  }

  /** Over any run: once a token id has been replaced, presenting it fails, unless it has
      been issued again in between. */
  lemma ReplacedTokenRejected(p: Policy, c: State, es: seq<Event>, i: nat, j: nat)
    requires i < j < |es|
    requires var id := StateAt(p, c, es, i).token.tokenId;
      && id != StateAt(p, c, es, i + 1).token.tokenId
      && es[j] == Present(id)
      && forall k :: i < k < j ==> !(es[k].Issue? && es[k].t.tokenId == id)
    ensures Apply(p, StateAt(p, c, es, j), es[j]).1 == BadSecureChannelTokenUnknown
  {
    RetiredStays(p, c, es, i + 1, j, StateAt(p, c, es, i).token.tokenId);
  }

  /** A presented id is accepted exactly when it is the current token or the issued next
      one, and then it is the current token. */
  lemma AcceptedTokenIsCurrent(p: Policy, c: State, id: uint32)
    ensures var (c', s) := CheckSymHeader(p, c, id);
      && (s == Good <==> !Retired(c, id))
      && (s == Good ==> c'.token.tokenId == id)
      && (s != Good ==> c' == c)
  {
  }
}
