/** The nodestore as its users see it: a map from node ids to versions, borrowed versions
    with reference counts, and optimistic copy and replace. Properties of whole runs. */
module StoreModel {

  datatype NodeId =
    | Numeric(namespace: nat, num: nat)
    | Other(namespace: nat, identifier: seq<int>)

  /** A node: its id and everything else. */
  datatype Node = Node(id: NodeId, attributes: seq<int>)

  datatype Option<+T> = None | Some(value: T)

  datatype Status = Good | BadNodeIdUnknown | BadNodeIdExists | BadInternalError

  const REFCOUNT_RANGE: nat := 65536

  /** What the store knows of one allocated version. freed says that its memory was released. */
  datatype Info<E> = Info(node: Node, orig: Option<E>, refCount: nat, deleted: bool, freed: bool)

  datatype Store<E> = Store(nodes: map<NodeId, E>, info: map<E, Info<E>>) {

    predicate Linked(e: E)
      requires e in info
    {
      info[e].node.id in nodes && nodes[info[e].node.id] == e
    }

    /** Made by newNode or getNodeCopy and still in the hands of the user. */
    predicate Private(e: E) {
      e in info && !info[e].freed && !info[e].deleted && !Linked(e)
    }

    /** Has been in the store at some time. */
    predicate Published(e: E) {
      e in info && (Linked(e) || info[e].deleted)
    }
  }

  predicate IsZero(id: NodeId) {
    id.Numeric? && id.num == 0
  }

  /** The operations of the interface with their arguments. e is the version a call
      allocates or is given; id of Insert is the id that the store settles on. Refused is an
      insertion for which the table had to grow and no memory was found. */
  datatype Op<E> =
    | New(e: E, node: Node)
    | Edit(e: E, node: Node)
    | Delete(e: E)
    | Insert(e: E, id: NodeId)
    | Refused(e: E)
    | Remove(id: NodeId)
    | Get(id: NodeId)
    | Release(e: E)
    | Copy(id: NodeId, e: E)
    | Replace(e: E)

  /** State after the call, its status, the version lent out or given back, and the memory
      released. */
  datatype Effect<E> = Effect(store: Store<E>, status: Status, lent: Option<E>, returned: Option<E>, frees: seq<E>)

  /** What users must respect: fresh memory, edits and insertions of private versions only,
      and a zero id is replaced by an unused one of the same namespace. */
  ghost predicate Allowed<E>(s: Store<E>, op: Op<E>) {
    match op
    case New(e, _) => e !in s.info
    case Copy(_, e) => e !in s.info
    case Edit(e, _) => s.Private(e)
    case Delete(e) => s.Private(e)
    case Refused(e) => s.Private(e)
    case Replace(e) => s.Private(e)
    case Insert(e, id) =>
      && s.Private(e)
      && var given := s.info[e].node.id;
         if IsZero(given) then id.Numeric? && id.namespace == given.namespace && id !in s.nodes
         else id == given
    case Release(e) => e in s.info
    case Remove(_) => true
    case Get(_) => true
  }

  /** cleanupEntry */
  function Cleanup<E>(s: Store<E>, e: E): (Store<E>, seq<E>)
    requires e in s.info
  {
    if s.info[e].deleted && s.info[e].refCount == 0
    then (s.(info := s.info[e := s.info[e].(freed := true)]), [e])
    else (s, [])
  }

  function Free<E>(s: Store<E>, e: E): Store<E>
    requires e in s.info
  {
    s.(info := s.info[e := s.info[e].(freed := true)])
  }

  /** One call. The reference count is a 16-bit number. A version that does not exist is
      not touched. */
  function Apply<E>(s: Store<E>, op: Op<E>): Effect<E>
  {
    match op
    case New(e, node) =>
      Effect(s.(info := s.info[e := Info(node, None, 0, false, false)]), Good, None, None, [])
    case Copy(id, e) =>
      if id !in s.nodes || s.nodes[id] !in s.info then Effect(s, BadNodeIdUnknown, None, None, [])
      else
        var prev := s.nodes[id];
        Effect(s.(info := s.info[e := Info(s.info[prev].node, Some(prev), 0, false, false)]), Good, None, None, [])
    case Remove(id) =>
      if id !in s.nodes || s.nodes[id] !in s.info then Effect(s, BadNodeIdUnknown, None, None, [])
      else
        var e := s.nodes[id];
        var (s', frees) := Cleanup(Store(s.nodes - {id}, s.info[e := s.info[e].(deleted := true)]), e);
        Effect(s', Good, None, None, frees)
    case Get(id) =>
      if id !in s.nodes || s.nodes[id] !in s.info then Effect(s, BadNodeIdUnknown, None, None, [])
      else
        var e := s.nodes[id];
        var n := (s.info[e].refCount + 1) % REFCOUNT_RANGE;
        Effect(s.(info := s.info[e := s.info[e].(refCount := n)]), Good, Some(e), None, [])
    case _ =>
      if op.e !in s.info then Effect(s, BadInternalError, None, None, []) else ApplyTo(s, op, op.e)
  }

  /** A call on a version that exists. */
  function ApplyTo<E>(s: Store<E>, op: Op<E>, e: E): Effect<E>
    requires e in s.info
  {
    match op
    case Edit(_, node) =>
      Effect(s.(info := s.info[e := s.info[e].(node := node)]), Good, None, None, [])
    case Delete(_) =>
      Effect(Free(s, e), Good, None, None, [e])
    case Insert(_, id) =>
      var named := s.(info := s.info[e := s.info[e].(node := s.info[e].node.(id := id))]);
      if id in s.nodes then Effect(Free(named, e), BadNodeIdExists, None, None, [e])
      else Effect(named.(nodes := s.nodes[id := e]), Good, None, None, [])
    case Release(_) =>
      var n := if s.info[e].refCount == 0 then REFCOUNT_RANGE - 1 else s.info[e].refCount - 1;
      var (s', frees) := Cleanup(s.(info := s.info[e := s.info[e].(refCount := n)]), e);
      Effect(s', Good, None, Some(e), frees)
    case Replace(_) =>
      var id := s.info[e].node.id;
      if id !in s.nodes || s.nodes[id] !in s.info then Effect(s, BadNodeIdUnknown, None, None, [])
      else if s.info[e].orig != Some(s.nodes[id]) then Effect(Free(s, e), BadInternalError, None, None, [e])
      else
        var prev := s.nodes[id];
        var (s', frees) := Cleanup(Store(s.nodes[id := e], s.info[prev := s.info[prev].(deleted := true)]), prev);
        Effect(s', Good, None, None, frees)
    case _ => Effect(s, BadInternalError, None, None, [])
  }

  // ------------------------------------------------------------ one step

  /** Linked versions carry their own id and are neither deleted nor freed; memory is
      released exactly when a deleted version has no reference left; private versions
      have none. */
  ghost predicate StoreInv<E>(s: Store<E>) {
    && (forall id :: id in s.nodes ==>
         s.nodes[id] in s.info && s.info[s.nodes[id]].node.id == id
         && !s.info[s.nodes[id]].deleted && !s.info[s.nodes[id]].freed)
    && (forall e :: e in s.info && s.info[e].deleted ==> (s.info[e].freed <==> s.info[e].refCount == 0))
    && (forall e :: e in s.info && s.info[e].refCount > 0 ==> s.Published(e))
  }

  /** A new description of one version fits, given what the table says about it. */
  ghost predicate Fits<E>(nodes: map<NodeId, E>, e: E, i: Info<E>) {
    && (forall id :: id in nodes && nodes[id] == e ==> i.node.id == id && !i.deleted && !i.freed)
    && (i.deleted ==> (i.freed <==> i.refCount == 0))
    && (i.refCount > 0 ==> i.deleted || (i.node.id in nodes && nodes[i.node.id] == e))
  }

  /** The invariant after changing one version and the entry of one id. */
  lemma UpdateKeepsInv<E>(s: Store<E>, nodes: map<NodeId, E>, e: E, i: Info<E>)
    requires StoreInv(s) && Fits(nodes, e, i)
    requires forall id :: id in nodes && nodes[id] != e ==>
      nodes[id] in s.info && s.info[nodes[id]].node.id == id && !s.info[nodes[id]].deleted && !s.info[nodes[id]].freed
    requires forall f :: f in s.info && f != e && s.info[f].refCount > 0 && !s.info[f].deleted ==>
      s.info[f].node.id in nodes && nodes[s.info[f].node.id] == f
    ensures StoreInv(Store(nodes, s.info[e := i]))
  {
  }

  /** Counts stay in range: nothing is released that is not lent out, and not too much is. */
  ghost predicate CountsInRange<E>(s: Store<E>, op: Op<E>) {
    && (op.Get? && op.id in s.nodes && s.nodes[op.id] in s.info ==> s.info[s.nodes[op.id]].refCount + 1 < REFCOUNT_RANGE)
    && (op.Release? && op.e in s.info ==> s.info[op.e].refCount > 0)
  }

  /** A version that was in the store keeps its node, and a freed one stays freed. */
  lemma StepKeepsPublished<E>(s: Store<E>, op: Op<E>, e: E)
    requires StoreInv(s) && Allowed(s, op) && e in s.info
    ensures var s' := Apply(s, op).store;
      && e in s'.info
      && (s.Published(e) ==> s'.Published(e) && s'.info[e].node == s.info[e].node)
      && (s.info[e].deleted ==> s'.info[e].deleted)
      && (s.info[e].freed ==> s'.info[e].freed)
      && (s'.info[e].orig == s.info[e].orig)
  {
    StepKeepsMarks(s, op, e);
    if s.Published(e) {
      StepKeepsNode(s, op, e);
    }
  }

  lemma StepKeepsMarks<E>(s: Store<E>, op: Op<E>, e: E)
    requires StoreInv(s) && Allowed(s, op) && e in s.info
    ensures var s' := Apply(s, op).store;
      && e in s'.info && s'.info[e].orig == s.info[e].orig
      && (s.info[e].deleted ==> s'.info[e].deleted) && (s.info[e].freed ==> s'.info[e].freed)
  {
  }

  lemma StepKeepsNode<E>(s: Store<E>, op: Op<E>, e: E)
    requires StoreInv(s) && Allowed(s, op) && s.Published(e)
    ensures var s' := Apply(s, op).store; s'.Published(e) && s'.info[e].node == s.info[e].node
  {
  }

  /** Memory is released only once, never while linked or lent out. */
  lemma StepFrees<E>(s: Store<E>, op: Op<E>, e: E)
    requires StoreInv(s) && Allowed(s, op) && CountsInRange(s, op) && e in Apply(s, op).frees
    ensures e in s.info && !s.info[e].freed
    ensures var s' := Apply(s, op).store;
      e in s'.info && s'.info[e].freed && s'.info[e].refCount == 0 && !s'.Linked(e)
  {
  }

  // -------------------------------------------- the calls as single updates

  /** Call op turns s into s', and the invariant holds there. */
  ghost predicate Performs<E>(s: Store<E>, op: Op<E>, s': Store<E>) {
    s' == Apply(s, op).store && StoreInv(s')
  }

  /** One reference more to e. */
  function Counted<E>(info: map<E, Info<E>>, e: E): map<E, Info<E>>
    requires e in info
  {
    info[e := info[e].(refCount := info[e].refCount + 1)]
  }

  function Freed<E>(info: map<E, Info<E>>, e: E): map<E, Info<E>>
    requires e in info
  {
    info[e := info[e].(freed := true)]
  }

  /** e leaves the store, and its memory goes unless it is lent out. */
  function Retired<E>(info: map<E, Info<E>>, e: E): map<E, Info<E>>
    requires e in info
  {
    info[e := info[e].(deleted := true, freed := info[e].freed || info[e].refCount == 0)]
  }

  function Named<E>(info: map<E, Info<E>>, e: E, id: NodeId): map<E, Info<E>>
    requires e in info
  {
    info[e := info[e].(node := info[e].node.(id := id))]
  }

  lemma GetReady<E>(s: Store<E>, id: NodeId)
    requires StoreInv(s) && CountsInRange(s, Get(id))
    ensures id in s.nodes ==> s.nodes[id] in s.info && s.info[s.nodes[id]].refCount + 1 < REFCOUNT_RANGE
  {
  }

  /** The two outcomes of a get, as a single update. */
  ghost predicate Borrowed<E>(s: Store<E>, id: NodeId, lent: Option<E>, s': Store<E>) {
    if id !in s.nodes then lent == None && s' == s
    else
      var e := s.nodes[id];
      && lent == Some(e) && e in s.info
      && s' == Store(s.nodes, Counted(s.info, e))
  }

  lemma LentIsBorrowed<E>(s: Store<E>, id: NodeId, e: E, info: map<E, Info<E>>)
    requires id in s.nodes && s.nodes[id] == e && e in s.info
    requires info == Counted(s.info, e)
    ensures Borrowed(s, id, Some(e), Store(s.nodes, info))
  {
  }

  lemma BorrowedPerforms<E>(s: Store<E>, id: NodeId, lent: Option<E>, s': Store<E>)
    requires StoreInv(s) && CountsInRange(s, Get(id)) && Borrowed(s, id, lent, s')
    ensures Performs(s, Get(id), s') && Apply(s, Get(id)).lent == lent
    ensures lent == None <==> id !in s.nodes
  {
    if id in s.nodes {
      GetUpdates(s, id, s.nodes[id], s');
    }
  }

  lemma GetUpdates<E>(s: Store<E>, id: NodeId, e: E, s': Store<E>)
    requires StoreInv(s) && id in s.nodes && s.nodes[id] == e && s.info[e].refCount + 1 < REFCOUNT_RANGE
    requires s' == Store(s.nodes, Counted(s.info, e))
    ensures Performs(s, Get(id), s') && Apply(s, Get(id)).lent == Some(e)
  {
    UpdateKeepsInv(s, s.nodes, s.nodes[id], s'.info[s.nodes[id]]);
  }

  /** A version that is lent out has not been freed, if it is marked as deleted. */
  lemma ReleaseReady<E>(s: Store<E>, e: E)
    requires StoreInv(s) && e in s.info && CountsInRange(s, Release(e))
    ensures s.info[e].refCount > 0 && (s.info[e].deleted ==> !s.info[e].freed)
  {
  }

  lemma ReleaseUpdates<E>(s: Store<E>, e: E, s': Store<E>)
    requires StoreInv(s) && e in s.info && s.info[e].refCount > 0
    requires var i := s.info[e]; var n := i.refCount - 1;
      s' == Store(s.nodes, s.info[e := i.(refCount := n, freed := i.freed || (i.deleted && n == 0))])
    ensures Performs(s, Release(e), s')
  {
    var i := s'.info[e];
    assert s.info[e := s.info[e].(refCount := i.refCount)][e := i] == s.info[e := i];
    UpdateKeepsInv(s, s.nodes, e, i);
  }

  lemma NewUpdates<E>(s: Store<E>, e: E, node: Node, s': Store<E>)
    requires StoreInv(s) && e !in s.info
    requires s' == Store(s.nodes, s.info[e := Info(node, None, 0, false, false)])
    ensures Performs(s, New(e, node), s')
  {
    UpdateKeepsInv(s, s.nodes, e, s'.info[e]);
  }

  lemma CopyUpdates<E>(s: Store<E>, id: NodeId, e: E, s': Store<E>)
    requires StoreInv(s) && e !in s.info && id in s.nodes
    requires s' == Store(s.nodes, s.info[e := Info(s.info[s.nodes[id]].node, Some(s.nodes[id]), 0, false, false)])
    ensures Performs(s, Copy(id, e), s')
  {
    UpdateKeepsInv(s, s.nodes, e, s'.info[e]);
  }

  lemma EditUpdates<E>(s: Store<E>, e: E, node: Node, s': Store<E>)
    requires StoreInv(s) && s.Private(e)
    requires s' == Store(s.nodes, s.info[e := s.info[e].(node := node)])
    ensures Performs(s, Edit(e, node), s')
  {
    UpdateKeepsInv(s, s.nodes, e, s'.info[e]);
  }

  lemma DeleteUpdates<E>(s: Store<E>, e: E, s': Store<E>)
    requires StoreInv(s) && s.Private(e) && s' == Store(s.nodes, s.info[e := s.info[e].(freed := true)])
    ensures Performs(s, Delete(e), s')
  {
    UpdateKeepsInv(s, s.nodes, e, s'.info[e]);
  }

  lemma RemoveUpdates<E>(s: Store<E>, id: NodeId, s': Store<E>)
    requires StoreInv(s) && id in s.nodes
    requires var e := s.nodes[id]; var i := s.info[e];
      s' == Store(s.nodes - {id}, s.info[e := i.(deleted := true, freed := i.freed || i.refCount == 0)])
    ensures Performs(s, Remove(id), s')
  {
    var e := s.nodes[id];
    var i := s'.info[e];
    assert s.info[e := s.info[e].(deleted := true)][e := i] == s.info[e := i];
    UpdateKeepsInv(s, s.nodes - {id}, e, i);
  }

  lemma ReplaceUpdates<E>(s: Store<E>, e: E, v: E, s': Store<E>)
    requires StoreInv(s) && s.Private(e) && s.info[e].orig == Some(v)
    requires s.info[e].node.id in s.nodes && s.nodes[s.info[e].node.id] == v
    requires var i := s.info[v];
      s' == Store(s.nodes[s.info[e].node.id := e], s.info[v := i.(deleted := true, freed := i.freed || i.refCount == 0)])
    ensures Performs(s, Replace(e), s') && Apply(s, Replace(e)).status == Good
  {
    var i := s'.info[v];
    assert s.info[v := s.info[v].(deleted := true)][v := i] == s.info[v := i];
    UpdateKeepsInv(s, s'.nodes, v, i);
  }

  lemma StaleReplaceUpdates<E>(s: Store<E>, e: E, s': Store<E>)
    requires StoreInv(s) && s.Private(e)
    requires s.info[e].node.id in s.nodes && s.info[e].orig != Some(s.nodes[s.info[e].node.id])
    requires s' == Store(s.nodes, s.info[e := s.info[e].(freed := true)])
    ensures Performs(s, Replace(e), s') && Apply(s, Replace(e)).status == BadInternalError
  {
    UpdateKeepsInv(s, s.nodes, e, s'.info[e]);
  }

  /** The three outcomes of a replace, as single updates. */
  ghost predicate Replaced<E>(s: Store<E>, e: E, status: Status, s': Store<E>)
    requires e in s.info
  {
    var id := s.info[e].node.id;
    if id !in s.nodes then status == BadNodeIdUnknown && s' == s
    else if s.info[e].orig != Some(s.nodes[id]) then
      status == BadInternalError && s' == Store(s.nodes, s.info[e := s.info[e].(freed := true)])
    else
      var v := s.nodes[id];
      && status == Good && v in s.info
      && s' == Store(s.nodes[id := e],
                     s.info[v := s.info[v].(deleted := true, freed := s.info[v].freed || s.info[v].refCount == 0)])
  }

  lemma StaleIsReplaced<E>(s: Store<E>, e: E, v: E, info: map<E, Info<E>>)
    requires e in s.info && s.info[e].node.id in s.nodes && s.nodes[s.info[e].node.id] == v && s.info[e].orig != Some(v)
    requires info == Freed(s.info, e)
    ensures Replaced(s, e, BadInternalError, Store(s.nodes, info))
  {
  }

  lemma GoodIsReplaced<E>(s: Store<E>, e: E, v: E, s': Store<E>)
    requires e in s.info && s.info[e].node.id in s.nodes && s.nodes[s.info[e].node.id] == v && s.info[e].orig == Some(v)
    requires v in s.info && s'.nodes == s.nodes[s.info[e].node.id := e]
    requires s'.info == Retired(s.info, v)
    ensures Replaced(s, e, Good, s')
  {
  }

  lemma ReplacedPerforms<E>(s: Store<E>, e: E, status: Status, s': Store<E>)
    requires StoreInv(s) && s.Private(e) && Replaced(s, e, status, s')
    ensures Performs(s, Replace(e), s') && Apply(s, Replace(e)).status == status
  {
    var id := s.info[e].node.id;
    if id in s.nodes {
      if s.info[e].orig == Some(s.nodes[id]) {
        ReplaceUpdates(s, e, s.nodes[id], s');
      } else {
        StaleReplaceUpdates(s, e, s');
      }
    }
  }

  lemma InsertUpdates<E>(s: Store<E>, e: E, id: NodeId, s': Store<E>)
    requires StoreInv(s) && Allowed(s, Insert(e, id))
    requires s' == Store(if id in s.nodes then s.nodes else s.nodes[id := e],
                         s.info[e := s.info[e].(node := s.info[e].node.(id := id), freed := id in s.nodes)])
    ensures Performs(s, Insert(e, id), s')
    ensures Apply(s, Insert(e, id)).status == if id in s.nodes then BadNodeIdExists else Good
  {
    var i := s'.info[e];
    assert s.info[e := s.info[e].(node := i.node)][e := i] == s.info[e := i];
    UpdateKeepsInv(s, s'.nodes, e, i);
  }

  /** The two outcomes of an insertion, as single updates. */
  ghost predicate Inserted<E>(s: Store<E>, e: E, id: NodeId, status: Status, s': Store<E>)
    requires e in s.info
  {
    && status == (if id in s.nodes then BadNodeIdExists else Good)
    && s'.nodes == (if id in s.nodes then s.nodes else s.nodes[id := e])
    && s'.info == s.info[e := s.info[e].(node := s.info[e].node.(id := id), freed := id in s.nodes)]
  }

  /** Naming a version and then publishing or freeing it makes an insertion. */
  lemma InsertedInSteps<E>(s: Store<E>, e: E, id: NodeId, s': Store<E>)
    requires e in s.info && !s.info[e].freed
    requires s'.nodes == if id in s.nodes then s.nodes else s.nodes[id := e]
    requires s'.info == if id in s.nodes then Freed(Named(s.info, e, id), e) else Named(s.info, e, id)
    ensures Inserted(s, e, id, if id in s.nodes then BadNodeIdExists else Good, s')
  {
  }

  /** Every allowed call keeps the invariant while the counts are in range. */
  lemma StepKeepsInv<E>(s: Store<E>, op: Op<E>)
    requires StoreInv(s) && Allowed(s, op) && CountsInRange(s, op)
    ensures StoreInv(Apply(s, op).store)
  {
    match op
    case New(e, node) => NewUpdates(s, e, node, Apply(s, op).store);
    case Copy(id, e) => if id in s.nodes { CopyUpdates(s, id, e, Apply(s, op).store); }
    case Edit(e, node) => EditUpdates(s, e, node, Apply(s, op).store);
    case Delete(e) => DeleteUpdates(s, e, Apply(s, op).store);
    case Insert(e, id) => InsertKeepsInv(s, e, id);
    case Get(id) => if id in s.nodes { GetUpdates(s, id, s.nodes[id], Apply(s, op).store); }
    case Release(e) => ReleaseKeepsInv(s, e);
    case Refused(_) =>
    case Remove(id) => if id in s.nodes { RemoveKeepsInv(s, id); }
    case Replace(e) => if s.info[e].node.id in s.nodes { ReplaceKeepsInv(s, e); }
  }

  lemma InsertKeepsInv<E>(s: Store<E>, e: E, id: NodeId)
    requires StoreInv(s) && Allowed(s, Insert(e, id))
    ensures StoreInv(Apply(s, Insert(e, id)).store)
  {
    InsertUpdates(s, e, id,
      Store(if id in s.nodes then s.nodes else s.nodes[id := e],
            s.info[e := s.info[e].(node := s.info[e].node.(id := id), freed := id in s.nodes)]));
  }

  lemma ReleaseKeepsInv<E>(s: Store<E>, e: E)
    requires StoreInv(s) && e in s.info && s.info[e].refCount > 0
    ensures StoreInv(Apply(s, Release(e)).store)
  {
    var i := s.info[e];
    var n := i.refCount - 1;
    ReleaseUpdates(s, e, Store(s.nodes, s.info[e := i.(refCount := n, freed := i.freed || (i.deleted && n == 0))]));
  }

  lemma RemoveKeepsInv<E>(s: Store<E>, id: NodeId)
    requires StoreInv(s) && id in s.nodes
    ensures StoreInv(Apply(s, Remove(id)).store)
  {
    var e := s.nodes[id];
    var i := s.info[e];
    RemoveUpdates(s, id, Store(s.nodes - {id}, s.info[e := i.(deleted := true, freed := i.freed || i.refCount == 0)]));
  }

  lemma ReplaceKeepsInv<E>(s: Store<E>, e: E)
    requires StoreInv(s) && s.Private(e) && s.info[e].node.id in s.nodes
    ensures StoreInv(Apply(s, Replace(e)).store)
  {
    var v := s.nodes[s.info[e].node.id];
    var i := s.info[v];
    if s.info[e].orig == Some(v) {
      ReplaceUpdates(s, e, v, Store(s.nodes[s.info[e].node.id := e],
                                    s.info[v := i.(deleted := true, freed := i.freed || i.refCount == 0)]));
    } else {
      StaleReplaceUpdates(s, e, Store(s.nodes, s.info[e := s.info[e].(freed := true)]));
    }
  }

  // ----------------------------------------------------------------- whole runs

  /** A sequence of calls: states[k] is the state before call k, effects[k] what it does. */
  datatype Run<E> = Run(states: seq<Store<E>>, ops: seq<Op<E>>, effects: seq<Effect<E>>)

  /** The store starts empty and every call is allowed. */
  ghost predicate IsRun<E>(r: Run<E>) {
    && |r.states| == |r.ops| + 1 && |r.effects| == |r.ops| && r.states[0] == Store(map[], map[])
    && (forall k {:trigger r.ops[k]} :: 0 <= k < |r.ops| ==> Calls(r.states[k], r.ops[k], r.effects[k]))
    && (forall k {:trigger r.effects[k]} :: 0 <= k < |r.ops| ==> r.states[k + 1] == r.effects[k].store)
  }

  ghost predicate Calls<E>(s: Store<E>, op: Op<E>, f: Effect<E>) {
    Allowed(s, op) && f == Apply(s, op)
  }

  /** Number of times e has been lent out and not yet given back before call k. */
  ghost function Outstanding<E>(r: Run<E>, k: nat, e: E): int
    requires IsRun(r) && k <= |r.ops|
  {
    if k == 0 then 0
    else Outstanding(r, k - 1, e)
         + (if r.effects[k - 1].lent == Some(e) then 1 else 0)
         - (if r.effects[k - 1].returned == Some(e) then 1 else 0)
  }

  /** Every release gives back something that is lent out, and no version is lent out more
      often than its counter can count. */
  ghost predicate WellPaired<E>(r: Run<E>)
    requires IsRun(r)
  {
    forall k, e {:trigger Outstanding(r, k, e)} :: 0 <= k < |r.ops| && e in r.states[k].info ==>
      && (r.effects[k].returned == Some(e) ==> Outstanding(r, k, e) > 0)
      && (r.effects[k].lent == Some(e) ==> Outstanding(r, k, e) + 1 < REFCOUNT_RANGE)
  }

  function References<E>(s: Store<E>, e: E): int {
    if e in s.info then s.info[e].refCount else 0
  }

  lemma StepCounts<E>(s: Store<E>, op: Op<E>, e: E)
    requires StoreInv(s) && Allowed(s, op) && CountsInRange(s, op)
    ensures References(Apply(s, op).store, e) == References(s, e)
      + (if Apply(s, op).lent == Some(e) then 1 else 0) - (if Apply(s, op).returned == Some(e) then 1 else 0)
  {
  }

  /** Everything a single call guarantees about version e. */
  ghost predicate Respects<E>(s: Store<E>, f: Effect<E>, e: E) {
    && References(f.store, e) == References(s, e)
       + (if f.lent == Some(e) then 1 else 0) - (if f.returned == Some(e) then 1 else 0)
    && (e in s.info ==> Persists(s, f.store, e))
    && (e in f.frees ==> e in s.info && !s.info[e].freed && e in f.store.info
                         && f.store.info[e].freed && f.store.info[e].refCount == 0 && !f.store.Linked(e))
  }

  ghost predicate Persists<E>(s: Store<E>, s': Store<E>, e: E)
    requires e in s.info
  {
    && e in s'.info && s'.info[e].orig == s.info[e].orig
    && (s.Published(e) ==> s'.Published(e) && s'.info[e].node == s.info[e].node)
    && (s.info[e].deleted ==> s'.info[e].deleted)
    && (s.info[e].freed ==> s'.info[e].freed)
  }

  lemma StepRespects<E>(s: Store<E>, op: Op<E>, e: E)
    requires StoreInv(s) && Allowed(s, op) && CountsInRange(s, op)
    ensures Respects(s, Apply(s, op), e)
  {
    StepCounts(s, op, e);
    if e in s.info {
      StepKeepsPublished(s, op, e);
    }
    if e in Apply(s, op).frees {
      StepFrees(s, op, e);
    }
  }

  /** Counts in range, from what is outstanding. */
  lemma CallCounts<E>(s: Store<E>, op: Op<E>, f: Effect<E>)
    requires StoreInv(s) && Calls(s, op, f)
    requires f.lent.Some? ==> References(s, f.lent.value) + 1 < REFCOUNT_RANGE
    requires f.returned.Some? ==> References(s, f.returned.value) > 0
    ensures CountsInRange(s, op)
  {
  }

  lemma CallNames<E>(s: Store<E>, op: Op<E>, f: Effect<E>)
    requires StoreInv(s) && Calls(s, op, f)
    ensures f.lent.Some? ==> f.lent.value in s.info && s.Linked(f.lent.value)
    ensures f.returned.Some? ==> f.returned.value in s.info
  {
  }

  /** Call k of a run starts in a good state and keeps its counts in range. */
  lemma {:induction false} CallInRange<E>(r: Run<E>, k: nat)
    requires IsRun(r) && WellPaired(r) && k < |r.ops|
    ensures StoreInv(r.states[k]) && Calls(r.states[k], r.ops[k], r.effects[k])
    ensures CountsInRange(r.states[k], r.ops[k])
    decreases k, 2
  {
    RunInv(r, k);
    var s, op, f := r.states[k], r.ops[k], r.effects[k];
    CallNames(s, op, f);
    if f.lent.Some? {
      CountersAreTrue(r, k, f.lent.value);
    }
    if f.returned.Some? {
      CountersAreTrue(r, k, f.returned.value);
    }
    CallCounts(s, op, f);
  }

  /** In every reachable state the invariant holds. */
  lemma {:induction false} RunInv<E>(r: Run<E>, k: nat)
    requires IsRun(r) && WellPaired(r) && k <= |r.ops|
    ensures StoreInv(r.states[k])
    decreases k, 0
  {
    if k > 0 {
      CallInRange(r, k - 1);
      CallKeepsInv(r.states[k - 1], r.ops[k - 1], r.effects[k - 1]);
    }
  }

  lemma CallKeepsInv<E>(s: Store<E>, op: Op<E>, f: Effect<E>)
    requires StoreInv(s) && Calls(s, op, f) && CountsInRange(s, op)
    ensures StoreInv(f.store)
  {
    StepKeepsInv(s, op);
  }

  lemma {:induction false} RunRespects<E>(r: Run<E>, k: nat, e: E)
    requires IsRun(r) && WellPaired(r) && k < |r.ops|
    ensures Respects(r.states[k], r.effects[k], e)
    decreases k, 3
  {
    CallInRange(r, k);
    StepRespects(r.states[k], r.ops[k], e);
  }

  /** In every reachable state the counters hold the true numbers of borrowed references. */
  lemma {:induction false} CountersAreTrue<E>(r: Run<E>, k: nat, e: E)
    requires IsRun(r) && WellPaired(r) && k <= |r.ops|
    ensures References(r.states[k], e) == Outstanding(r, k, e)
    decreases k, 1
  {
    if k > 0 {
      CountersAreTrue(r, k - 1, e);
      RunRespects(r, k - 1, e);
    }
  }

  /** Facts about a version that last from call i on. */
  lemma {:induction false} Lasting<E>(r: Run<E>, i: nat, j: nat, e: E)
    requires IsRun(r) && WellPaired(r) && i <= j <= |r.ops| && e in r.states[i].info
    ensures Persists(r.states[i], r.states[j], e)
    decreases j - i
  {
    if i < j {
      Lasting(r, i, j - 1, e);
      RunRespects(r, j - 1, e);
      assert r.states[j] == r.effects[j - 1].store;
    }
  }

  /** No version is freed twice, and none is freed while it is in the store or lent out. */
  lemma FreedOnceAndOnlyUnused<E>(r: Run<E>, i: nat, e: E)
    requires IsRun(r) && WellPaired(r) && i < |r.ops| && e in r.effects[i].frees
    ensures e in r.states[i + 1].info && !r.states[i + 1].Linked(e) && Outstanding(r, i + 1, e) == 0
    ensures forall j :: i < j < |r.ops| ==> e !in r.effects[j].frees
  {
    RunRespects(r, i, e);
    CountersAreTrue(r, i + 1, e);
    forall j | i < j < |r.ops|
      ensures e !in r.effects[j].frees
    {
      Lasting(r, i + 1, j, e);
      RunRespects(r, j, e);
    }
  }

  /** A version that is marked as freed was freed by a call of the run: with the lemma above,
      by exactly one. */
  lemma {:induction false} FreedByACall<E>(r: Run<E>, j: nat, e: E)
    requires IsRun(r) && WellPaired(r) && j <= |r.ops| && e in r.states[j].info && r.states[j].info[e].freed
    ensures exists i :: 0 <= i < j && e in r.effects[i].frees
  {
    if j > 0 {
      CallInRange(r, j - 1);
      CallFrees(r.states[j - 1], r.ops[j - 1], r.effects[j - 1], e);
      assert r.states[j] == r.effects[j - 1].store;
      if e !in r.effects[j - 1].frees {
        FreedByACall(r, j - 1, e);
      }
    }
  }

  /** The mark is set only by freeing. */
  lemma CallFrees<E>(s: Store<E>, op: Op<E>, f: Effect<E>, e: E)
    requires StoreInv(s) && Calls(s, op, f) && e in f.store.info && f.store.info[e].freed
    ensures e in f.frees || (e in s.info && s.info[e].freed)
  {
  }

  /** Nothing leaks: a version that was in the store, is not any more and is lent out to
      nobody has been freed. */
  lemma UnusedIsFreed<E>(r: Run<E>, i: nat, j: nat, e: E)
    requires IsRun(r) && WellPaired(r) && i <= j <= |r.ops| && r.states[i].Published(e)
    ensures e in r.states[j].info
    ensures !r.states[j].Linked(e) && Outstanding(r, j, e) == 0 ==> r.states[j].info[e].freed
  {
    Lasting(r, i, j, e);
    RunInv(r, j);
    CountersAreTrue(r, j, e);
  }

  /** A borrower keeps seeing the version it got, unchanged and in valid memory, until
      everything lent out has been given back. */
  lemma BorrowedVersionStays<E>(r: Run<E>, i: nat, j: nat, e: E)
    requires IsRun(r) && WellPaired(r) && i < j <= |r.ops|
    requires r.effects[i].lent == Some(e) && Outstanding(r, j, e) > 0
    ensures e in r.states[i].info && e in r.states[j].info
    ensures r.states[j].info[e].node == r.states[i].info[e].node && !r.states[j].info[e].freed
  {
    RunInv(r, i);
    LentIsLinked(r, i, e);
    Lasting(r, i, j, e);
    RunInv(r, j);
    CountersAreTrue(r, j, e);
  }

  lemma LentIsLinked<E>(r: Run<E>, i: nat, e: E)
    requires IsRun(r) && i < |r.ops| && StoreInv(r.states[i]) && r.effects[i].lent == Some(e)
    ensures e in r.states[i].info && r.states[i].Linked(e)
  {
    CallNames(r.states[i], r.ops[i], r.effects[i]);
  }

  // ---------------------------------------------------------- the store is a map

  function Lookup<E>(s: Store<E>, id: NodeId): Option<E> {
    if id in s.nodes then Some(s.nodes[id]) else None
  }

  /** A successful insert, remove or replace of id. */
  ghost predicate Writes<E>(s: Store<E>, op: Op<E>, f: Effect<E>, id: NodeId) {
    && f.status == Good
    && match op
       case Insert(_, i) => i == id
       case Remove(i) => i == id
       case Replace(e) => e in s.info && s.info[e].node.id == id
       case _ => false
  }

  /** What such a call leaves under its id. */
  function Written<E>(op: Op<E>): Option<E> {
    match op
    case Insert(e, _) => Some(e)
    case Replace(e) => Some(e)
    case _ => None
  }

  lemma StepWrites<E>(s: Store<E>, op: Op<E>, f: Effect<E>, id: NodeId)
    requires StoreInv(s) && Calls(s, op, f)
    ensures Lookup(f.store, id) == if Writes(s, op, f, id) then Written(op) else Lookup(s, id)
  {
  }

  ghost predicate RunWrites<E>(r: Run<E>, k: nat, id: NodeId)
    requires IsRun(r) && k < |r.ops|
  {
    Writes(r.states[k], r.ops[k], r.effects[k], id)
  }

  lemma CallWrites<E>(r: Run<E>, k: nat, id: NodeId)
    requires IsRun(r) && WellPaired(r) && k < |r.ops|
    ensures Lookup(r.states[k + 1], id) == if RunWrites(r, k, id) then Written(r.ops[k]) else Lookup(r.states[k], id)
  {
    CallInRange(r, k);
    StepWrites(r.states[k], r.ops[k], r.effects[k], id);
  }

  /** Over any run the store is a plain map: it holds under an id what the last successful
      write to that id put there, and nothing if that was a removal. */
  lemma {:induction false} LastWriteWins<E>(r: Run<E>, i: nat, j: nat, id: NodeId)
    requires IsRun(r) && WellPaired(r) && i < j <= |r.ops| && RunWrites(r, i, id)
    requires forall k :: i < k < j ==> !RunWrites(r, k, id)
    ensures Lookup(r.states[j], id) == Written(r.ops[i])
    decreases j - i
  {
    if i + 1 < j {
      LastWriteWins(r, i, j - 1, id);
    }
    CallWrites(r, j - 1, id);
  }

  /** An id that has never been written is not stored. */
  lemma {:induction false} NeverWritten<E>(r: Run<E>, j: nat, id: NodeId)
    requires IsRun(r) && WellPaired(r) && j <= |r.ops|
    requires forall k :: 0 <= k < j ==> !RunWrites(r, k, id)
    ensures Lookup(r.states[j], id) == None
  {
    if j > 0 {
      NeverWritten(r, j - 1, id);
      CallWrites(r, j - 1, id);
    }
  }

  /** A get lends out exactly the version that the last successful write stored. */
  lemma GetSeesLastWrite<E>(r: Run<E>, i: nat, j: nat, id: NodeId)
    requires IsRun(r) && WellPaired(r) && i < j < |r.ops| && RunWrites(r, i, id) && r.ops[j] == Get(id)
    requires forall k :: i < k < j ==> !RunWrites(r, k, id)
    ensures r.effects[j].lent == Written(r.ops[i])
  {
    LastWriteWins(r, i, j, id);
    CallInRange(r, j);
    GetLends(r.states[j], r.effects[j], id);
  }

  lemma GetLends<E>(s: Store<E>, f: Effect<E>, id: NodeId)
    requires StoreInv(s) && Calls(s, Get(id), f)
    ensures f.lent == Lookup(s, id)
  {
  }

  /** A replace succeeds exactly when the stored version is the one the copy was taken from,
      and then that version leaves the store for good. */
  lemma ReplaceSucceedsIff<E>(s: Store<E>, e: E)
    requires StoreInv(s) && s.Private(e)
    ensures var id, f := s.info[e].node.id, Apply(s, Replace(e));
      && (f.status == Good <==> id in s.nodes && s.info[e].orig == Some(s.nodes[id]))
      && (f.status == Good ==> s.info[e].orig.value in f.store.info && !s.info[s.info[e].orig.value].deleted
                               && f.store.info[s.info[e].orig.value].deleted)
  {
  }

  /** A call that puts e into the store or frees it. */
  ghost predicate Consumes<E>(s: Store<E>, op: Op<E>, e: E) {
    match op
    case Insert(x, _) => x == e
    case Delete(x) => x == e
    case Replace(x) => x == e && e in s.info && s.info[e].node.id in s.nodes
    case _ => false
  }

  /** A failed replace or insert frees the node that was given to it exactly when its id is
      stored and the table did not fail to grow. The interface promises it always does. */
  lemma FailureFreesIff<E>(s: Store<E>, op: Op<E>, e: E)
    requires StoreInv(s) && Allowed(s, op) && Apply(s, op).status != Good
    requires op == Replace(e) || op == Refused(e) || (op.Insert? && op.e == e)
    ensures e in Apply(s, op).frees <==> !op.Refused? && s.info[e].node.id in s.nodes
    ensures e !in Apply(s, op).frees ==> Apply(s, op).store == s && s.Private(e)
  {
  }

  /** Private versions stay as they are until they are consumed. */
  lemma StepKeepsPrivate<E>(s: Store<E>, op: Op<E>, e: E)
    requires StoreInv(s) && Allowed(s, op) && CountsInRange(s, op) && s.Private(e) && !Consumes(s, op, e)
    ensures Apply(s, op).store.Private(e) && e !in Apply(s, op).frees
  {
  }

  /** Over any run: the node of a replace with an unknown id, or of an insertion that found
      no memory, stays allocated until the user deletes it, or inserts or replaces it again. */
  lemma {:induction false} PrivateUntilConsumed<E>(r: Run<E>, i: nat, j: nat, e: E)
    requires IsRun(r) && WellPaired(r) && i <= j <= |r.ops| && r.states[i].Private(e)
    requires forall k :: i <= k < j ==> !RunConsumes(r, k, e)
    ensures r.states[j].Private(e)
    decreases j - i
  {
    if i < j {
      PrivateUntilConsumed(r, i, j - 1, e);
      CallInRange(r, j - 1);
      assert !RunConsumes(r, j - 1, e);
      CallKeepsPrivate(r.states[j - 1], r.ops[j - 1], r.effects[j - 1], e);
      assert r.states[j] == r.effects[j - 1].store;
    }
  }

  lemma CallKeepsPrivate<E>(s: Store<E>, op: Op<E>, f: Effect<E>, e: E)
    requires StoreInv(s) && Calls(s, op, f) && CountsInRange(s, op) && s.Private(e) && !Consumes(s, op, e)
    ensures f.store.Private(e) && e !in f.frees
  {
    StepKeepsPrivate(s, op, e);
  }

  ghost predicate RunConsumes<E>(r: Run<E>, k: nat, e: E)
    requires IsRun(r) && k < |r.ops|
  {
    Consumes(r.states[k], r.ops[k], e)
  }

  /** A copy whose original was removed: replacing fails and the copy is not freed. */
  lemma RemovedBeforeReplace<E>(original: E, copy: E, node: Node) returns (r: Run<E>)
    requires original != copy && !IsZero(node.id)
    ensures IsRun(r) && WellPaired(r)
    ensures r.ops == [New(original, node), Insert(original, node.id), Copy(node.id, copy), Remove(node.id), Replace(copy)]
    ensures r.effects[4].status == BadNodeIdUnknown && copy !in r.effects[4].frees && r.states[5].Private(copy)
  {
    var o, c := Info(node, None, 0, false, false), Info(node, Some(original), 0, false, false);
    var s0: Store<E> := Store(map[], map[]);
    var s1 := Store(map[], map[original := o]);
    var s2 := Store(map[node.id := original], map[original := o]);
    var s3 := Store(map[node.id := original], map[original := o, copy := c]);
    var s4 := Store(map[], map[original := o.(deleted := true, freed := true), copy := c]);
    NewCall(s0, original, node, s1);
    InsertCall(s1, original, s2);
    CopyCall(s2, node.id, copy, s3);
    RemovedCall(s3, original, node.id, s4);
    UnknownCall(s4, copy);
    r := Run([s0, s1, s2, s3, s4, s4],
             [New(original, node), Insert(original, node.id), Copy(node.id, copy), Remove(node.id), Replace(copy)],
             [Silent(s1, Good), Silent(s2, Good), Silent(s3, Good), Effect(s4, Good, None, None, [original]),
              Silent(s4, BadNodeIdUnknown)]);
  }

  /** A call that lends, gives back and frees nothing. */
  function Silent<E>(s: Store<E>, status: Status): Effect<E> {
    Effect(s, status, None, None, [])
  }

  lemma NewCall<E>(s: Store<E>, e: E, node: Node, s': Store<E>)
    requires e !in s.info && s'.nodes == s.nodes && s'.info == s.info[e := Info(node, None, 0, false, false)]
    ensures Calls(s, New(e, node), Silent(s', Good))
  {
  }

  lemma InsertCall<E>(s: Store<E>, e: E, s': Store<E>)
    requires s.Private(e) && !IsZero(s.info[e].node.id) && s.info[e].node.id !in s.nodes
    requires s'.nodes == s.nodes[s.info[e].node.id := e] && s'.info == s.info
    ensures Calls(s, Insert(e, s.info[e].node.id), Silent(s', Good))
  {
    assert s.info[e := s.info[e].(node := s.info[e].node.(id := s.info[e].node.id))] == s.info;
  }

  lemma CopyCall<E>(s: Store<E>, id: NodeId, e: E, s': Store<E>)
    requires e !in s.info && id in s.nodes && s.nodes[id] in s.info && s'.nodes == s.nodes
    requires s'.info == s.info[e := Info(s.info[s.nodes[id]].node, Some(s.nodes[id]), 0, false, false)]
    ensures Calls(s, Copy(id, e), Silent(s', Good))
  {
  }

  lemma UnknownCall<E>(s: Store<E>, e: E)
    requires s.Private(e) && s.info[e].node.id !in s.nodes
    ensures Calls(s, Replace(e), Silent(s, BadNodeIdUnknown))
  {
  }

  lemma RemovedCall<E>(s: Store<E>, e: E, id: NodeId, s': Store<E>)
    requires id in s.nodes && s.nodes[id] == e && e in s.info && s.info[e].refCount == 0
    requires s'.nodes == s.nodes - {id} && s'.info == s.info[e := s.info[e].(deleted := true, freed := true)]
    ensures Calls(s, Remove(id), Effect(s', Good, None, None, [e]))
  {
    var i := s.info[e].(deleted := true);
    assert s.info[e := i][e := i.(freed := true)] == s'.info;
  }

  /** The status of every call, by what is stored. */
  lemma StatusTells<E>(s: Store<E>, op: Op<E>)
    requires StoreInv(s) && Allowed(s, op)
    ensures op.Remove? ==> Apply(s, op).status == if op.id in s.nodes then Good else BadNodeIdUnknown
    ensures op.Get? ==> Apply(s, op).status == if op.id in s.nodes then Good else BadNodeIdUnknown
    ensures op.Copy? ==> Apply(s, op).status == if op.id in s.nodes then Good else BadNodeIdUnknown
    ensures op.Insert? ==> Apply(s, op).status == if op.id in s.nodes then BadNodeIdExists else Good
    ensures op.Refused? ==> Apply(s, op).status == BadInternalError
    ensures op.Replace? ==>
      var id := s.info[op.e].node.id;
      Apply(s, op).status == if id !in s.nodes then BadNodeIdUnknown
                             else if s.info[op.e].orig == Some(s.nodes[id]) then Good else BadInternalError
    ensures op.New? || op.Edit? || op.Delete? || op.Release? ==> Apply(s, op).status == Good
  {
  }

  /** What a version holds: it is made with the given node or as a copy of the stored one, and
      afterwards its attributes change by edits and its id by edits and by its insertion. */
  lemma NodesAreKept<E>(s: Store<E>, op: Op<E>, e: E)
    requires StoreInv(s) && Allowed(s, op) && e in Apply(s, op).store.info
    ensures var n := Apply(s, op).store.info[e].node;
      && (op.New? && op.e == e ==> n == op.node)
      && (op.Copy? && op.e == e && op.id in s.nodes ==> n == s.info[s.nodes[op.id]].node)
      && (op.Edit? && op.e == e ==> n == op.node)
      && (op.Insert? && op.e == e ==> n.id == op.id && n.attributes == s.info[e].node.attributes)
      && (e in s.info && !(op.Edit? && op.e == e) && !(op.Insert? && op.e == e) ==> n == s.info[e].node)
  {
  }

  /** The counter has 16 bits: one borrow more than it can count makes it zero. */
  lemma BorrowLimitIsSharp<E>(s: Store<E>, id: NodeId)
    requires StoreInv(s) && id in s.nodes && s.info[s.nodes[id]].refCount == 65535
    ensures Apply(s, Get(id)).store.info[s.nodes[id]].refCount == 0
  {
  }

  /** Call k replaces version v by its edited copy e. */
  ghost predicate Replaces<E>(r: Run<E>, k: nat, e: E, v: E)
    requires IsRun(r) && k < |r.ops|
  {
    r.ops[k] == Replace(e) && r.effects[k].status == Good
    && e in r.states[k].info && r.states[k].info[e].orig == Some(v)
  }

  lemma ReplaceRetires<E>(r: Run<E>, k: nat, e: E, v: E)
    requires IsRun(r) && k < |r.ops| && StoreInv(r.states[k]) && Replaces(r, k, e, v)
    ensures v in r.states[k].info && !r.states[k].info[v].deleted
    ensures v in r.states[k + 1].info && r.states[k + 1].info[v].deleted
  {
    ReplaceSucceedsIff(r.states[k], e);
  }

  /** No lost update: of all copies of one version at most one replace ever succeeds,
      whatever happens in between. */
  lemma NoLostUpdate<E>(r: Run<E>, i: nat, j: nat, e: E, f: E, v: E)
    requires IsRun(r) && WellPaired(r) && i < |r.ops| && j < |r.ops|
    requires Replaces(r, i, e, v) && Replaces(r, j, f, v)
    ensures i == j && e == f
  {
    if i < j {
      RetiredForGood(r, i, j, e, f, v);
    } else if j < i {
      RetiredForGood(r, j, i, f, e, v);
    }
  }

  lemma RetiredForGood<E>(r: Run<E>, i: nat, j: nat, e: E, f: E, v: E)
    requires IsRun(r) && WellPaired(r) && i < j < |r.ops|
    requires Replaces(r, i, e, v)
    ensures !Replaces(r, j, f, v)
  {
    RunInv(r, i);
    ReplaceRetires(r, i, e, v);
    Lasting(r, i + 1, j, v);
    RunInv(r, j);
    if Replaces(r, j, f, v) {
      ReplaceRetires(r, j, f, v);
    }
  }
}
