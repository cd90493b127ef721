/** The nodestore object in use: every sequence of calls on it is a run of StoreModel, so the
    theorems about runs are theorems about the object. */
module StoreSession {
  import opened HashSlots
  import opened NodeMap
  import opened StoreModel

  // ------------------------------------------------------------- one call more

  function Last<E>(r: Run<E>): Store<E>
    requires r.states != []
  {
    r.states[|r.states| - 1]
  }

  /** The run with one call more. */
  function Extended<E>(r: Run<E>, op: Op<E>): Run<E>
    requires r.states != []
  {
    var f := Apply(Last(r), op);
    Run(r.states + [f.store], r.ops + [op], r.effects + [f])
  }

  /** The call is permitted, and a borrow or release keeps the books balanced. */
  ghost predicate MayFollow<E>(r: Run<E>, op: Op<E>)
    requires IsRun(r)
  {
    var f := Apply(Last(r), op);
    && Allowed(Last(r), op)
    && (f.returned.Some? ==> Outstanding(r, |r.ops|, f.returned.value) > 0)
    && (f.lent.Some? ==> Outstanding(r, |r.ops|, f.lent.value) + 1 < REFCOUNT_RANGE)
  }

  /** Calls that neither lend nor give back only need to be permitted. */
  lemma QuietMayFollow<E>(r: Run<E>, op: Op<E>)
    requires IsRun(r) && Allowed(Last(r), op) && !op.Get? && !op.Release?
    ensures MayFollow(r, op)
  {
  }

  lemma InsertMayFollow(r: Run<Entry>, e: Entry, id: NodeId, count: nat, size: nat)
    requires IsRun(r) && Last(r).Private(e)
    requires GivenOrFresh(Last(r).nodes.Keys, count, size, Last(r).info[e].node.id, id)
    ensures MayFollow(r, Insert(e, id))
  {
    var given := Last(r).info[e].node.id;
    assert IsZero(given) ==> given == Numeric(given.namespace, 0);
    QuietMayFollow(r, Insert(e, id));
  }

  lemma CopyMayFollow<E>(r: Run<E>, id: NodeId, e: E)
    requires IsRun(r) && e !in Last(r).info
    ensures MayFollow(r, Copy(id, e))
  {
  }

  lemma ExtendedIsRun<E>(r: Run<E>, op: Op<E>)
    requires IsRun(r) && Allowed(Last(r), op)
    ensures IsRun(Extended(r, op))
  {
    var t := Extended(r, op);
    forall k | 0 <= k < |t.ops|
      ensures Calls(t.states[k], t.ops[k], t.effects[k]) && t.states[k + 1] == t.effects[k].store
    {
      if k < |r.ops| {
        assert t.states[k] == r.states[k] && t.states[k + 1] == r.states[k + 1];
        assert t.ops[k] == r.ops[k] && t.effects[k] == r.effects[k];
      }
    }
  }

  /** What has been lent out before does not depend on later calls. */
  lemma {:induction false} SameBooks<E>(r: Run<E>, op: Op<E>, k: nat, e: E)
    requires IsRun(r) && IsRun(Extended(r, op)) && k <= |r.ops|
    ensures Outstanding(Extended(r, op), k, e) == Outstanding(r, k, e)
  {
    if k > 0 {
      SameBooks(r, op, k - 1, e);
      assert Extended(r, op).effects[k - 1] == r.effects[k - 1];
    }
  }

  lemma ExtendedIsPaired<E>(r: Run<E>, op: Op<E>)
    requires IsRun(r) && WellPaired(r) && MayFollow(r, op)
    ensures IsRun(Extended(r, op)) && WellPaired(Extended(r, op))
  {
    ExtendedIsRun(r, op);
    var t := Extended(r, op);
    forall k, e | 0 <= k < |t.ops| && e in t.states[k].info
      ensures t.effects[k].returned == Some(e) ==> Outstanding(t, k, e) > 0
      ensures t.effects[k].lent == Some(e) ==> Outstanding(t, k, e) + 1 < REFCOUNT_RANGE
    {
      SameBooks(r, op, k, e);
      if k < |r.ops| {
        assert t.states[k] == r.states[k] && t.effects[k] == r.effects[k];
        assert Outstanding(r, k, e) == Outstanding(t, k, e);
      }
    }
  }

  /** What the store object asks of the state before the call. */
  lemma ReadyFor<E>(r: Run<E>, op: Op<E>)
    requires IsRun(r) && WellPaired(r) && MayFollow(r, op)
    ensures StoreInv(Last(r)) && CountsInRange(Last(r), op)
  {
    ExtendedIsPaired(r, op);
    var t := Extended(r, op);
    CallInRange(t, |r.ops|);
    assert t.states[|r.ops|] == Last(r) && t.ops[|r.ops|] == op;
  }

  // ------------------------------------------------------------------ the session

  class Session {
    const store: Map
    ghost var run: Run<Entry>

    constructor (h: Hash)
      requires TableIsPrime()
      ensures Valid() && fresh(store) && fresh(store.entries) && run.ops == []
    {
      store := new Map(h);
      run := Run([Store(map[], map[])], [], []);
    }

    /** The object is in the last state of a well-paired run. */
    ghost predicate Valid()
      reads this, store, store.entries, store.info.Keys
    {
      store.Valid() && IsRun(run) && WellPaired(run) && Last(run) == store.View()
    }

    method New(node: Node) returns (e: Entry)
      requires Valid()
      modifies this, store
      ensures Valid() && fresh(e) && run == Extended(old(run), StoreModel.New(e, node))
    {
      RunInv(run, |run.ops|);
      e := store.NewNode(node);
      Follow(StoreModel.New(e, node));
    }

    method Edit(e: Entry, node: Node)
      requires Valid() && store.View().Private(e)
      modifies this, store, e`node
      ensures Valid() && run == Extended(old(run), StoreModel.Edit(e, node))
    {
      RunInv(run, |run.ops|);
      QuietMayFollow(run, StoreModel.Edit(e, node));
      store.EditNode(e, node);
      Follow(StoreModel.Edit(e, node));
    }

    method Delete(e: Entry)
      requires Valid() && store.View().Private(e)
      modifies this, store, e`freed
      ensures Valid() && run == Extended(old(run), StoreModel.Delete(e))
    {
      RunInv(run, |run.ops|);
      QuietMayFollow(run, StoreModel.Delete(e));
      store.DeleteNode(e);
      Follow(StoreModel.Delete(e));
    }

    /** The id that the node gets is part of the recorded call. */
    method Insert(e: Entry, memory: bool) returns (status: Status, id: NodeId)
      requires Valid() && store.View().Private(e) && store.count < MAX_COUNT
      modifies this, store, store.entries, store.info.Keys
      ensures Valid() && (store.entries == old(store.entries) || fresh(store.entries))
      ensures run == Extended(old(run), if status == BadInternalError then Refused(e) else StoreModel.Insert(e, id))
      ensures status == run.effects[|old(run).ops|].status
    {
      RunInv(run, |run.ops|);
      status, id := store.InsertNode(e, memory);
      if status == BadInternalError {
        Follow(Refused(e));
      } else {
        InsertMayFollow(run, e, id, old(store.count), store.size);
        Follow(StoreModel.Insert(e, id));
      }
    }

    method Get(id: NodeId) returns (e: Entry?)
      requires Valid() && MayFollow(run, StoreModel.Get(id))
      modifies this, store, store.info.Keys
      ensures Valid() && run == Extended(old(run), StoreModel.Get(id))
      ensures run.effects[|old(run).ops|].lent == NonNull(e)
    {
      ReadyFor(run, StoreModel.Get(id));
      e := store.GetNode(id);
      Follow(StoreModel.Get(id));
    }

    method Release(e: Entry)
      requires Valid() && e in store.info && Outstanding(run, |run.ops|, e) > 0
      modifies this, store, e
      ensures Valid() && run == Extended(old(run), StoreModel.Release(e))
    {
      ReadyFor(run, StoreModel.Release(e));
      store.ReleaseNode(e);
      Follow(StoreModel.Release(e));
    }

    /** A copy is recorded when there is something to copy. */
    method Copy(id: NodeId) returns (status: Status, e: Entry?)
      requires Valid()
      modifies this, store
      ensures Valid() && (status == Good <==> e != null)
      ensures run == if e == null then old(run) else Extended(old(run), StoreModel.Copy(id, e))
    {
      RunInv(run, |run.ops|);
      status, e := store.GetNodeCopy(id);
      if e != null {
        var copy: Entry := e;
        CopyMayFollow(run, id, copy);
        Follow(StoreModel.Copy(id, copy));
      }
    }

    method Remove(id: NodeId, memory: bool) returns (status: Status)
      requires Valid()
      modifies this, store, store.entries, store.info.Keys
      ensures Valid() && (store.entries == old(store.entries) || fresh(store.entries))
      ensures run == Extended(old(run), StoreModel.Remove(id)) && status == run.effects[|old(run).ops|].status
    {
      RunInv(run, |run.ops|);
      QuietMayFollow(run, StoreModel.Remove(id));
      status := store.RemoveNode(id, memory);
      Follow(StoreModel.Remove(id));
    }

    method Replace(e: Entry) returns (status: Status)
      requires Valid() && store.View().Private(e)
      modifies this, store, store.entries, store.info.Keys
      ensures Valid() && store.entries == old(store.entries)
      ensures run == Extended(old(run), StoreModel.Replace(e)) && status == run.effects[|old(run).ops|].status
    {
      RunInv(run, |run.ops|);
      QuietMayFollow(run, StoreModel.Replace(e));
      status := store.ReplaceNode(e);
      Follow(StoreModel.Replace(e));
    }

    /** Bring the run up to date after a call of the store. */
    ghost method Follow(op: Op<Entry>)
      requires store.Valid() && IsRun(run) && WellPaired(run) && MayFollow(run, op)
      requires store.View() == Apply(Last(run), op).store
      modifies `run
      ensures Valid() && run == Extended(old(run), op)
    {
      ExtendedIsPaired(run, op);
      run := Extended(run, op);
    }
  }
}
