/** The nodestore object of plugins/ua_nodestore_default.c: a growing and shrinking hash map
    whose methods are proved to refine the calls of StoreModel. */
module NodeMap {
  import opened FreshIds
  import opened HashSlots
  import opened NumberTheory
  import opened ProbeTable
  import opened StoreModel

  const MINSIZE: nat := 64
  const TWO32: nat := 0x1_0000_0000

  /** Up to this count no 32-bit product of the load tests wraps around. */
  const MAX_COUNT: nat := 536870894

  function Mul32(a: nat, b: nat): nat {
    (a * b) % TWO32
  }

  lemma ProductsInRange(count: nat, size: nat)
    requires count <= MAX_COUNT && size <= 1073741789
    ensures Mul32(count, 2) == 2 * count && Mul32(count, 4) == 4 * count && Mul32(count, 8) == 8 * count
    ensures Mul32(size, 3) == 3 * size
  {
  }

  // ------------------------------------------------------------------- fresh ids

  /** The k-th candidate has been tried: the ones before are taken, and slot tells about this one. */
  ghost predicate TriedUpTo(t: Table<NodeId>, hash: Hash, ns: nat, inc: nat, k: nat, id: NodeId, slot: int) {
    && 0 < inc < |t| && k <= Live(t) && id == Numeric(ns, Candidate(|t|, inc, k)) && AllTaken(t, ns, |t|, inc, k)
    && (slot == -1 <==> Stored(t, id))
    && (slot != -1 ==> 0 <= slot < |t| && Usable(t, hash, id, slot))
  }

  /** The id of a node that asked for id: its own, unless that is the null id of a namespace,
      which stands for a fresh one. */
  ghost predicate ChosenId(t: Table<NodeId>, count: nat, id: NodeId, chosen: NodeId) {
    |t| > 2 && if IsZero(id) then IsFresh(t, id.namespace, Stride(count + 1, |t|), chosen) else chosen == id
  }

  /** The same without the table: the first candidate that no stored node has, found after at
      most one try more than there are nodes. */
  ghost predicate FirstUnused(stored: set<NodeId>, count: nat, ns: nat, size: nat, inc: nat, id: NodeId) {
    && inc < size && id !in stored
    && exists k: nat :: k <= count && id == Numeric(ns, Candidate(size, inc, k)) && AllUsed(stored, ns, size, inc, k)
  }

  ghost predicate AllUsed(stored: set<NodeId>, ns: nat, size: nat, inc: nat, k: nat)
    requires inc < size
  {
    forall i: nat :: i < k ==> Numeric(ns, Candidate(size, inc, i)) in stored
  }

  ghost predicate Settled(stored: set<NodeId>, count: nat, size: nat, given: NodeId, id: NodeId) {
    size > 2 && if IsZero(given) then FirstUnused(stored, count, given.namespace, size, Stride(count + 1, size), id) else id == given
  }

  /** A node with the numeric id 0, of any namespace, gets the first unused candidate of that
      namespace; a node with any other id keeps it. */
  ghost predicate GivenOrFresh(stored: set<NodeId>, count: nat, size: nat, given: NodeId, id: NodeId) {
    && size > 2
    && (forall ns: nat :: given == Numeric(ns, 0) ==> FirstUnused(stored, count, ns, size, 1 + (count + 1) % (size - 2), id))
    && ((forall ns: nat :: given != Numeric(ns, 0)) ==> id == given)
  }

  lemma SettledMeans(stored: set<NodeId>, count: nat, size: nat, given: NodeId, id: NodeId)
    requires Settled(stored, count, size, given, id)
    ensures GivenOrFresh(stored, count, size, given, id)
  {
    if forall ns: nat :: given != Numeric(ns, 0) {
      assert given.Numeric? ==> given != Numeric(given.namespace, 0);
    }
  }

  /** The first fresh id of an empty store is 50128. */
  lemma FirstFreshId(ns: nat, id: NodeId)
    requires GivenOrFresh({}, 0, 127, Numeric(ns, 0), id)
    ensures id == Numeric(ns, 50128)
  {
    var inc := 1 + (0 + 1) % (127 - 2);
    assert FirstUnused({}, 0, ns, 127, inc, id);
    var k: nat :| k <= 0 && id == Numeric(ns, Candidate(127, inc, k)) && AllUsed({}, ns, 127, inc, k);
    assert Candidate(127, inc, 0) == 50128;
  }

  /** The start value is meant to stay clear of low ids, but a collision can lead below it:
      in a table of the initial size with these two nodes the next fresh id is 49882. */
  lemma FreshBelow50000(ns: nat)
    ensures FirstUnused({Numeric(ns, 50128), Numeric(ns, 50005)}, 2, ns, 127, Stride(3, 127), Numeric(ns, 49882))
  {
    var stored := {Numeric(ns, 50128), Numeric(ns, 50005)};
    assert Candidate(127, 4, 0) == 50128 && Candidate(127, 4, 1) == 50005 && Candidate(127, 4, 2) == 49882;
    assert AllUsed(stored, ns, 127, 4, 2);
  }

  lemma ChosenIsSettled(t: Table<NodeId>, nodes: map<NodeId, Entry>, ids: Ids, given: NodeId, id: NodeId)
    requires Bound(t, nodes, ids) && ChosenId(t, Live(t), given, id)
    ensures Settled(nodes.Keys, Live(t), |t|, given, id)
    ensures IsZero(given) ==> id.Numeric? && id.namespace == given.namespace
  {
    if IsZero(given) {
      var inc := Stride(Live(t) + 1, |t|);
      FreshIsUnused(t, nodes, ids, given.namespace, inc, id);
    }
  }

  lemma FreshIsUnused(t: Table<NodeId>, nodes: map<NodeId, Entry>, ids: Ids, ns: nat, inc: nat, id: NodeId)
    requires Bound(t, nodes, ids) && IsFresh(t, ns, inc, id)
    ensures FirstUnused(nodes.Keys, Live(t), ns, |t|, inc, id) && id.Numeric? && id.namespace == ns
  {
    var k: nat :| k <= Live(t) && id == Numeric(ns, Candidate(|t|, inc, k)) && AllTaken(t, ns, |t|, inc, k);
    TakenIsUsed(t, nodes, ids, ns, inc, k);
  }

  lemma TakenIsUsed(t: Table<NodeId>, nodes: map<NodeId, Entry>, ids: Ids, ns: nat, inc: nat, k: nat)
    requires Bound(t, nodes, ids) && inc < |t| && AllTaken(t, ns, |t|, inc, k)
    ensures AllUsed(nodes.Keys, ns, |t|, inc, k)
  {
  }

  /** A taken candidate is not the last one. */
  lemma GoesOn(t: Table<NodeId>, hash: Hash, ns: nat, inc: nat, k: nat, id: NodeId)
    requires TableInv(t, hash) && SmallSize(|t|) && Live(t) < |t| && TriedUpTo(t, hash, ns, inc, k, id, -1)
    ensures k + 1 <= Live(t) && AllTaken(t, ns, |t|, inc, k + 1)
    ensures Candidate(|t|, inc, k + 1) != StartId(|t|)
  {
    assert AllTaken(t, ns, |t|, inc, k + 1);
    TakenBound(t, hash, ns, inc, k + 1);
    BelowStart(|t|, inc, k + 1);
  }

  /** The loop of insertNode that looks for an unused numeric id: it tries at most count + 1
      ids and always finds one, so it never gets back to the one it started with. */
  method FreshLoop(entries: array<Slot>, hash: Hash, count: nat, e: Entry, ns: nat, ghost t: Table<NodeId>, ghost ids: Ids)
    returns (slot: nat)
    requires TableInv(t, hash) && Mirrors(entries[..], t, ids) && Tagged(ids) && HasRoom(t)
    requires SmallSize(|t|) && Live(t) == count < |t| && e !in ids
    modifies e`node
    ensures slot < |t| && Usable(t, hash, e.node.id, slot) && IsFresh(t, ns, Stride(count + 1, |t|), e.node.id)
    ensures e.node == old(e.node).(id := e.node.id) && Tagged(ids)
  {
    var size := entries.Length;
    var identifier: nat := StartId(size);
    var increase := Stride(count + 1, size);
    var startId := identifier;
    ghost var k := 0;
    var found := TryId(entries, hash, e, Numeric(ns, identifier), t, ids);
    while found == -1
      invariant identifier == Candidate(|t|, increase, k) && Tagged(ids)
      invariant e.node == old(e.node).(id := Numeric(ns, identifier))
      invariant TriedUpTo(t, hash, ns, increase, k, e.node.id, found)
      decreases Live(t) - k
    {
      GoesOn(t, hash, ns, increase, k, e.node.id);
      k := k + 1;
      identifier := identifier + increase;
      if identifier >= size {
        identifier := identifier - size;
      }
      assert identifier != startId;
      found := TryId(entries, hash, e, Numeric(ns, identifier), t, ids);
    }
    return found;
  }

  /** One round: write the id and look for a slot. */
  method TryId(entries: array<Slot>, hash: Hash, e: Entry, id: NodeId, ghost t: Table<NodeId>, ghost ids: Ids)
    returns (slot: int)
    requires TableInv(t, hash) && Mirrors(entries[..], t, ids) && Tagged(ids) && HasRoom(t) && e !in ids
    modifies e`node
    ensures Tagged(ids) && e.node == old(e.node).(id := id)
    ensures slot == -1 <==> Stored(t, id)
    ensures slot != -1 ==> 0 <= slot < |t| && Usable(t, hash, id, slot)
  {
    e.node := e.node.(id := id);
    slot := FindFreeSlot(entries, hash, id, t, ids);
  }

  // ------------------------------------------------------------------- the object

  /** A table of one of the listed sizes, neither too large nor, but for the last entry,
      more than three quarters full. */
  ghost predicate Fit(c: Contents) {
    && Sound(c) && c.index < 28 && |c.table| == PRIMES[c.index]
    && Live(c.table) <= MAX_COUNT && 4 * (Live(c.table) - 1) < 3 * |c.table|
  }

  type Fitting = c: Contents | Fit(c) ghost witness Smallest()

  ghost function Smallest(): (c: Contents)
    ensures Fit(c)
  {
    var t := seq(7, _ => Empty);
    SevenIsPrime();
    EmptyTable(t, _ => 0);
    Contents(_ => 0, 0, seq(7, _ => Null), t, map[], map[])
  }

  lemma SevenIsPrime()
    ensures IsPrime(7)
  {
    assert !Divides(2, 7) && !Divides(3, 7) && !Divides(4, 7) && !Divides(5, 7) && !Divides(6, 7);
  }

  lemma Measures(c: Fitting)
    ensures |c.cells| == |c.table| && SmallSize(|c.table|) && Live(c.table) < |c.table| && HasRoom(c.table)
  {
    PrimeSizes(c.index);
    RoomLeft(c.table);
  }

  lemma LiveIsStored(c: Fitting)
    ensures Live(c.table) == |c.nodes|
  {
    KeysCount(c.table);
    forall id
      ensures id in Keys(c.table) <==> id in c.nodes
    {
      KeysMembers(c.table, id);
    }
    assert Keys(c.table) == c.nodes.Keys;
  }

  lemma BuriedFit(c: Fitting, slot: nat, id: NodeId)
    requires At(c, slot, id)
    ensures Fit(Buried(c, slot, id)) && Live(c.table) > 0
    ensures ShapeOf(Buried(c, slot, id)) == ShapeOf(c).(count := Live(c.table) - 1)
  {
    BuriedSound(c, slot, id);
  }

  lemma SwappedFit(c: Fitting, slot: nat, id: NodeId, e: Entry)
    requires At(c, slot, id) && e !in c.ids
    ensures Fit(Swapped(c, slot, id, e)) && ShapeOf(Swapped(c, slot, id, e)) == ShapeOf(c)
  {
    SwappedSound(c, slot, id, e);
  }

  lemma FilledFit(c: Fitting, slot: nat, id: NodeId, e: Entry)
    requires Live(c.table) < MAX_COUNT && 4 * Live(c.table) < 3 * |c.table|
    requires Usable(c.table, c.hash, id, slot) && id !in c.nodes && e !in c.ids
    ensures slot < |c.cells| && Fit(Filled(c, slot, id, e))
    ensures ShapeOf(Filled(c, slot, id, e)) == ShapeOf(c).(count := Live(c.table) + 1)
  {
    FilledSound(c, slot, id, e);
  }

  /** The numbers kept in memory. */
  datatype Shape = Shape(hash: Hash, size: nat, index: nat, count: nat)

  function ShapeOf(c: Contents): Shape {
    Shape(c.hash, |c.table|, c.index, Live(c.table))
  }

  lemma SizesUpTo61(i: nat)
    requires i < 30
    ensures i < 4 <==> PRIMES[i] <= 64
  {
    assert PRIMES[3] == 61 && PRIMES[4] == 127;
    if i < 3 {
      PrimesSorted(i, 3);
    } else if i > 4 {
      PrimesSorted(4, i);
    }
  }

  lemma PrimeSizes(i: nat)
    requires i < 28
    ensures 7 <= PRIMES[i] <= 1073741789
  {
    if i > 0 {
      PrimesSorted(0, i);
    }
    if i < 27 {
      PrimesSorted(i, 27);
    }
    assert PRIMES[0] == 7 && PRIMES[27] == 1073741789;
  }

  /** The stored entries are described with their ids. */
  ghost predicate Known(ids: Ids, info: map<Entry, Info<Entry>>) {
    forall e :: e in ids ==> e in info && info[e].node.id == ids[e]
  }

  /** Another array of slots with the same entries. */
  ghost predicate Moved(c: Contents, d: Contents) {
    d.nodes == c.nodes && d.ids == c.ids
  }

  class Map {
    const hash: Hash
    var entries: array<Slot>
    var size: nat
    var count: nat
    var sizePrimeIndex: nat
    ghost var contents: Fitting
    ghost var info: map<Entry, Info<Entry>>

    ghost predicate Described()
      reads `info, info.Keys
    {
      forall e :: e in info ==> info[e] == e.Describe()
    }

    /** Contents and info say what is in memory. */
    ghost predicate Valid()
      reads this, entries, info.Keys
    {
      && TableIsPrime() && ShapeOf(contents) == Shape(hash, size, sizePrimeIndex, count)
      && entries[..] == contents.cells && Described() && Known(contents.ids, info)
    }

    /** The store as its users see it. */
    ghost function View(): Store<Entry>
      reads `contents, `info
    {
      Store(contents.nodes, info)
    }

    /** UA_Nodestore_default_new */
    constructor (h: Hash)
      requires TableIsPrime()
      ensures Valid() && hash == h && View() == Store(map[], map[]) && StoreInv(View()) && size == 127 && fresh(entries)
    {
      hash := h;
      var index := HigherPrimeIndex(MINSIZE);
      assert PRIMES[3] == 61 && PRIMES[4] == 127;
      sizePrimeIndex := index;
      size := PRIMES[index];
      count := 0;
      entries := new Slot[PRIMES[index]](_ => Null);
      ghost var t := seq(PRIMES[index], _ => Empty);
      EmptyTable(t, h);
      contents := Contents(h, index, seq(PRIMES[index], _ => Null), t, map[], map[]);
      info := map[];
    }

    /** In every valid state the size is a table prime, count is the number of stored nodes,
        and the load leaves a free slot. */
    lemma SizeAndCount()
      requires Valid()
      ensures IsPrime(size) && size in PRIMES && 4 * (count - 1) < 3 * size
      ensures count == |contents.nodes| < size && HasRoom(contents.table)
    {
      Measures(contents);
      LiveIsStored(contents);
    }

    /** A private version is not in any slot. */
    lemma PrivateHasNoSlot(e: Entry)
      requires Valid() && View().Private(e)
      ensures e !in contents.ids
    {
    }

    // ----------------------------------------------- entries; the slots stay as they are

    /** deleteEntry: releases memory that has not been released before. */
    method DeleteEntry(e: Entry)
      requires !e.freed
      modifies e`freed
      ensures e.freed
    {
      e.freed := true;
    }

    /** cleanupEntry */
    method CleanupEntry(e: Entry)
      requires e.deleted && e.refCount == 0 ==> !e.freed
      modifies e`freed
      ensures e.freed == (old(e.freed) || (e.deleted && e.refCount == 0))
    {
      if e.deleted && e.refCount == 0 {
        DeleteEntry(e);
      }
    }

    /** newEntry, with its node and the version it is a copy of. */
    method Allocate(node: Node, orig: Entry?) returns (e: Entry)
      requires Valid()
      modifies `info
      ensures Valid() && fresh(e) && e !in old(info)
      ensures info == old(info)[e := Info(node, NonNull(orig), 0, false, false)]
    {
      e := new Entry(node, orig);
      info := info[e := e.Describe()];
    }

    /** Count one more reference. */
    method CountUp(e: Entry)
      requires Valid() && e in info && info[e].refCount + 1 < REFCOUNT_RANGE
      modifies e`refCount, `info
      ensures Valid() && info == Counted(old(info), e)
    {
      e.refCount := (e.refCount + 1) % REFCOUNT_RANGE;
      info := info[e := e.Describe()];
    }

    /** Count one reference less, and clean up. */
    method CountDown(e: Entry)
      requires Valid() && e in info && info[e].refCount > 0 && (info[e].deleted ==> !info[e].freed)
      modifies e`refCount, e`freed, `info
      ensures Valid()
      ensures var i := old(info)[e]; var n := i.refCount - 1;
        info == old(info)[e := i.(refCount := n, freed := i.freed || (i.deleted && n == 0))]
    {
      e.refCount := e.refCount - 1;
      CleanupEntry(e);
      info := info[e := e.Describe()];
    }

    /** Mark an entry that leaves its slot, and clean up. */
    method Retire(e: Entry)
      requires Valid() && e in info && !info[e].freed
      modifies e`deleted, e`freed, `info
      ensures Valid() && info == Retired(old(info), e)
    {
      e.deleted := true;
      CleanupEntry(e);
      info := info[e := e.Describe()];
    }

    /** Delete an entry that is in no slot. */
    method FreeEntry(e: Entry)
      requires Valid() && e in info && !info[e].freed
      modifies e`freed, `info
      ensures Valid() && info == Freed(old(info), e)
    {
      DeleteEntry(e);
      info := info[e := e.Describe()];
    }

    // --------------------------------------------- slots; the entries stay as they are

    /** One slot changes, and the count with it. */
    method WriteSlot(slot: nat, x: Slot, n: nat, ghost c: Fitting)
      requires Valid() && slot < |contents.cells| && c.cells == contents.cells[slot := x]
      requires ShapeOf(c) == Shape(hash, size, sizePrimeIndex, n) && Known(c.ids, info)
      modifies entries, `contents, `count
      ensures Valid() && contents == c && count == n
    {
      PutSlot(slot, x);
      Adopt(n, c);
    }

    method PutSlot(slot: nat, x: Slot)
      requires slot < entries.Length && Described()
      modifies entries
      ensures entries[..] == old(entries[..])[slot := x] && Described()
    {
      entries[slot] := x;
    }

    /** The slots are as c says, and from now on contents says so too. */
    method Adopt(n: nat, ghost c: Fitting)
      requires TableIsPrime() && ShapeOf(c) == Shape(hash, size, sizePrimeIndex, n) && entries[..] == c.cells
      requires Described() && Known(c.ids, info)
      modifies `contents, `count
      ensures Valid() && contents == c && count == n
    {
      count, contents := n, c;
    }

    /** The slot part of clearSlot: a tombstone takes the place of the entry. */
    method BurySlot(slot: nat, ghost id: NodeId)
      requires Valid() && At(contents, slot, id)
      modifies entries, `contents, `count
      ensures Valid() && contents == Buried(old(contents), slot, id) && count == old(count) - 1
    {
      BuriedFit(contents, slot, id);
      WriteSlot(slot, Tomb, count - 1, Buried(contents, slot, id));
    }

    /** The slot part of replaceNode: another version of the same id. */
    method SwapSlot(slot: nat, e: Entry, ghost id: NodeId)
      requires Valid() && At(contents, slot, id) && e !in contents.ids && e in info && info[e].node.id == id
      modifies entries, `contents, `count
      ensures Valid() && contents == Swapped(old(contents), slot, id, e) && count == old(count)
    {
      SwappedFit(contents, slot, id, e);
      WriteSlot(slot, Full(e), count, Swapped(contents, slot, id, e));
    }

    /** The slot part of insertNode. */
    method FillSlot(slot: nat, e: Entry, ghost id: NodeId)
      requires Valid() && count < MAX_COUNT && 4 * count < 3 * size
      requires Usable(contents.table, hash, id, slot) && id !in contents.nodes
      requires e !in contents.ids && e in info && info[e].node.id == id
      modifies entries, `contents, `count
      ensures Valid() && slot < |old(contents).cells| && contents == Filled(old(contents), slot, id, e) && count == old(count) + 1
    {
      FilledFit(contents, slot, id, e);
      WriteSlot(slot, Full(e), count + 1, Filled(contents, slot, id, e));
    }

    /** Stored entries carry their ids in memory. */
    lemma IsTagged()
      requires Valid()
      ensures Tagged(contents.ids)
    {
    }

    /** The slot of a stored id, or -1. */
    method Find(id: NodeId) returns (slot: int)
      requires Valid()
      ensures Valid() && (slot == -1 <==> id !in contents.nodes)
      ensures slot != -1 ==> 0 <= slot && At(contents, slot, id) && contents.nodes[id] in info
    {
      IsTagged();
      slot := FindOccupiedSlot(entries, hash, id, contents.table, contents.ids);
    }

    // ------------------------------------------------------------------- resizing

    /** expand: keeps all entries; a resized table has the least table size that leaves it at
        most half full. memory tells whether a new array can be allocated. */
    method Expand(memory: bool) returns (ok: bool)
      requires Valid()
      modifies `entries, `size, `sizePrimeIndex, `contents
      ensures Valid() && Moved(old(contents), contents) && ok == ((2 * count < old(size) && (8 * count > old(size) || old(size) <= 64)) || memory)
      ensures if (2 * count < old(size) && (8 * count > old(size) || old(size) <= 64)) || !memory
        then size == old(size) && entries == old(entries)
        else fresh(entries) && 2 * count <= size && forall i :: 0 <= i < sizePrimeIndex ==> PRIMES[i] < 2 * count
    {
      Measures(contents);
      ProductsInRange(count, size);
      if Mul32(count, 2) < size && (Mul32(count, 8) > size || size <= MINSIZE) {
        return true;
      }
      if !memory {
        return false;
      }
      var nindex := HigherPrimeIndex(Mul32(count, 2));
      assert PRIMES[27] == 1073741789;
      Resize(nindex);
      return true;
    }

    /** Move everything into a new array of another table size. */
    method Resize(nindex: nat)
      requires Valid() && nindex < 28 && 2 * count <= PRIMES[nindex]
      modifies `entries, `size, `sizePrimeIndex, `contents
      ensures Valid() && Moved(old(contents), contents) && fresh(entries) && sizePrimeIndex == nindex
    {
      IsTagged();
      PrimeSizes(nindex);
      var nentries;
      ghost var nt;
      nentries, nt := Rehash(entries, hash, count, PRIMES[nindex], contents.table, contents.ids, contents.nodes);
      ghost var moved := contents.(index := nindex, cells := nentries[..], table := nt);
      RehashedSound(contents, moved);
      entries, size, sizePrimeIndex, contents := nentries, PRIMES[nindex], nindex, moved;
    }

    /** The load test of clearSlot: shrink a very empty table, if there is memory. */
    method ShrinkIfEmpty(memory: bool)
      requires Valid()
      modifies `entries, `size, `sizePrimeIndex, `contents
      ensures Valid() && Moved(old(contents), contents) && (entries == old(entries) || fresh(entries))
      ensures memory ==> size <= 64 || size <= 8 * count
    {
      Measures(contents);
      ProductsInRange(count, size);
      if Mul32(count, 8) < size && size > 32 {
        var _ := Expand(memory); // on failure the bigger table stays
        if sizePrimeIndex >= 4 && 2 * count > PRIMES[sizePrimeIndex - 1] {
          LeastSizeIsUsed(sizePrimeIndex, count);
        }
        SizesUpTo61(sizePrimeIndex);
      }
    }

    /** The load test of insertNode: afterwards there is room for one more entry, unless a
        full table found no memory to grow. */
    method GrowIfFull(memory: bool) returns (ok: bool)
      requires Valid()
      modifies `entries, `size, `sizePrimeIndex, `contents
      ensures ok == (4 * count < 3 * old(size) || memory)
      ensures Valid() && Moved(old(contents), contents) && (entries == old(entries) || fresh(entries))
      ensures ok ==> 4 * count < 3 * size
    {
      Measures(contents);
      ProductsInRange(count, size);
      ok := true;
      if Mul32(size, 3) <= Mul32(count, 4) {
        ok := Expand(memory);
        Measures(contents);
      }
    }

    // ------------------------------------------------------------- the interface

    /** UA_NodeMap_newNode */
    method NewNode(node: Node) returns (e: Entry)
      requires Valid() && StoreInv(View())
      modifies `info
      ensures fresh(e) && e !in old(info) && Valid() && Performs(old(View()), New(e, node), View())
    {
      e := Allocate(node, null);
      NewUpdates(old(View()), e, node, View());
    }

    /** UA_NodeMap_deleteNode, for a node that is not in the store. */
    method DeleteNode(e: Entry)
      requires Valid() && StoreInv(View()) && View().Private(e)
      modifies e`freed, `info
      ensures Valid() && Performs(old(View()), Delete(e), View())
    {
      FreeEntry(e);
      DeleteUpdates(old(View()), e, View());
    }

    /** A user writes to a node that is not in the store. */
    method EditNode(e: Entry, node: Node)
      requires Valid() && StoreInv(View()) && View().Private(e)
      modifies e`node, `info
      ensures Valid() && Performs(old(View()), Edit(e, node), View())
    {
      PrivateHasNoSlot(e);
      WriteNode(e, node);
      EditUpdates(old(View()), e, node, View());
    }

    method WriteNode(e: Entry, node: Node)
      requires Valid() && e in info && e !in contents.ids
      modifies e`node, `info
      ensures Valid() && info == old(info)[e := old(info)[e].(node := node)]
    {
      e.node := node;
      info := info[e := e.Describe()];
      assert Described();
      assert Known(contents.ids, info);
    }

    /** UA_NodeMap_getNode */
    method GetNode(id: NodeId) returns (e: Entry?)
      requires Valid() && StoreInv(View()) && CountsInRange(View(), Get(id))
      modifies info.Keys`refCount, `info
      ensures Valid() && Performs(old(View()), Get(id), View())
      ensures Apply(old(View()), Get(id)).lent == NonNull(e) && (e == null <==> id !in contents.nodes)
    {
      GetReady(View(), id);
      e := Borrow(id);
      BorrowedPerforms(old(View()), id, NonNull(e), View());
    }

    /** The body of getNode. */
    method Borrow(id: NodeId) returns (e: Entry?)
      requires Valid()
      requires id in contents.nodes && contents.nodes[id] in info ==> info[contents.nodes[id]].refCount + 1 < REFCOUNT_RANGE
      modifies info.Keys`refCount, `info
      ensures Valid() && Borrowed(old(View()), id, NonNull(e), View())
    {
      var slot := Find(id);
      e := null;
      if slot != -1 {
        e := BorrowAt(slot, id);
      }
    }

    method BorrowAt(slot: nat, ghost id: NodeId) returns (e: Entry)
      requires Valid() && At(contents, slot, id) && contents.nodes[id] in info
      requires info[contents.nodes[id]].refCount + 1 < REFCOUNT_RANGE
      modifies info.Keys`refCount, `info
      ensures Valid() && Borrowed(old(View()), id, Some(e), View())
    {
      e := entries[slot].entry;
      ghost var s := View();
      CountUp(e);
      LentIsBorrowed(s, id, e, info);
    }

    /** UA_NodeMap_releaseNode */
    method ReleaseNode(e: Entry)
      requires Valid() && StoreInv(View()) && e in info && CountsInRange(View(), Release(e))
      modifies e`refCount, e`freed, `info
      ensures Valid() && Performs(old(View()), Release(e), View())
    {
      ReleaseReady(View(), e);
      CountDown(e);
      ReleaseUpdates(old(View()), e, View());
    }

    /** UA_NodeMap_getNodeCopy: a private copy that remembers the version it was taken from. */
    method GetNodeCopy(id: NodeId) returns (status: Status, e: Entry?)
      requires Valid() && StoreInv(View())
      modifies `info
      ensures Valid()
      ensures id !in contents.nodes ==> status == BadNodeIdUnknown && e == null && View() == old(View())
      ensures id in contents.nodes ==> status == Good && e != null && fresh(e) && e !in old(info) && Performs(old(View()), Copy(id, e), View())
    {
      var slot := Find(id);
      status, e := BadNodeIdUnknown, null;
      if slot != -1 {
        var entry := entries[slot].entry;
        e := Allocate(entry.node, entry);
        status := Good;
        CopyUpdates(old(View()), id, e, View());
      }
    }

    /** clearSlot: exactly this id leaves the store, its version is retired. */
    method ClearSlot(slot: nat, e: Entry, memory: bool, ghost id: NodeId)
      requires Valid() && At(contents, slot, id) && contents.nodes[id] == e && e in info && !info[e].freed
      modifies this, entries, e`deleted, e`freed
      ensures Valid() && (entries == old(entries) || fresh(entries))
      ensures contents.nodes == old(contents.nodes) - {id} && info == Retired(old(info), e)
      ensures memory ==> size <= 64 || size <= 8 * count
    {
      Detach(slot, e, id);
      ShrinkIfEmpty(memory);
    }

    /** A tombstone in the slot of the entry, which is retired. */
    method Detach(slot: nat, e: Entry, ghost id: NodeId)
      requires Valid() && At(contents, slot, id) && contents.nodes[id] == e && e in info && !info[e].freed
      modifies entries, `contents, `count, `info, e`deleted, e`freed
      ensures Valid() && contents.nodes == old(contents.nodes) - {id} && info == Retired(old(info), e)
    {
      BurySlot(slot, id);
      Retire(e);
    }

    /** UA_NodeMap_removeNode: succeeds also when the table cannot shrink. */
    method RemoveNode(id: NodeId, memory: bool) returns (status: Status)
      requires Valid() && StoreInv(View())
      modifies this, entries, info.Keys
      ensures Valid() && (entries == old(entries) || fresh(entries))
      ensures status == Apply(old(View()), Remove(id)).status && Performs(old(View()), Remove(id), View())
      ensures status == Good && memory ==> size <= 64 || size <= 8 * count
    {
      var slot := Find(id);
      status := BadNodeIdUnknown;
      if slot != -1 {
        ClearSlot(slot, entries[slot].entry, memory, id);
        status := Good;
        RemoveUpdates(old(View()), id, View());
      }
    }

    /** UA_NodeMap_replaceNode */
    method ReplaceNode(e: Entry) returns (status: Status)
      requires Valid() && StoreInv(View()) && View().Private(e)
      modifies this, entries, info.Keys
      ensures Valid() && entries == old(entries)
      ensures status == Apply(old(View()), Replace(e)).status && Performs(old(View()), Replace(e), View())
    {
      PrivateHasNoSlot(e);
      status := ReplaceEntry(e);
      ReplacedPerforms(old(View()), e, status, View());
    }

    /** The body of replaceNode. */
    method ReplaceEntry(e: Entry) returns (status: Status)
      requires Valid() && e in info && !info[e].freed && e !in contents.ids
      requires forall id :: id in contents.nodes ==> contents.nodes[id] in info && !info[contents.nodes[id]].freed
      modifies `contents, `count, `info, entries, info.Keys
      ensures Valid() && Replaced(old(View()), e, status, View())
    {
      var slot := Find(e.node.id);
      status := BadNodeIdUnknown;
      if slot != -1 {
        status := ReplaceAt(slot, e, entries[slot].entry, e.node.id);
      }
    }

    /** The id is stored: put the copy in, or throw it away when it is stale. */
    method ReplaceAt(slot: nat, e: Entry, prev: Entry, ghost id: NodeId) returns (status: Status)
      requires Valid() && At(contents, slot, id) && contents.nodes[id] == prev && prev in info && !info[prev].freed
      requires e in info && !info[e].freed && e !in contents.ids && info[e].node.id == id
      modifies `contents, `count, `info, entries, e`freed, prev`deleted, prev`freed
      ensures Valid() && Replaced(old(View()), e, status, View())
    {
      if prev != e.orig {
        DropStale(e, prev, id);
        status := BadInternalError;
      } else {
        PutCopy(slot, e, prev, id);
        status := Good;
      }
    }

    method DropStale(e: Entry, ghost prev: Entry, ghost id: NodeId)
      requires Valid() && e in info && !info[e].freed && info[e].node.id == id && e.orig != prev
      requires id in contents.nodes && contents.nodes[id] == prev
      modifies e`freed, `info
      ensures Valid() && Replaced(old(View()), e, BadInternalError, View())
    {
      ghost var s := View();
      IsStale(e, prev);
      FreeEntry(e);
      StaleIsReplaced(s, e, prev, info);
    }

    lemma IsStale(e: Entry, prev: Entry)
      requires Valid() && e in info && e.orig != prev
      ensures info[e].orig != Some(prev)
    {
      assert info[e] == e.Describe();
    }

    method PutCopy(slot: nat, e: Entry, prev: Entry, ghost id: NodeId)
      requires Valid() && At(contents, slot, id) && contents.nodes[id] == prev && prev in info && !info[prev].freed
      requires e in info && e !in contents.ids && info[e].node.id == id && e.orig == prev
      modifies entries, `contents, `count, `info, prev`deleted, prev`freed
      ensures Valid() && Replaced(old(View()), e, Good, View())
    {
      ghost var s := View();
      assert s.info[e].orig == NonNull(e.orig);
      Exchange(slot, e, prev, id);
      GoodIsReplaced(s, e, prev, View());
    }

    /** A new version in the slot of the old one, which is retired. */
    method Exchange(slot: nat, e: Entry, prev: Entry, ghost id: NodeId)
      requires Valid() && At(contents, slot, id) && contents.nodes[id] == prev && prev in info && !info[prev].freed
      requires e in info && e !in contents.ids && info[e].node.id == id
      modifies entries, `contents, `count, `info, prev`deleted, prev`freed
      ensures Valid() && contents.nodes == old(contents.nodes)[id := e] && info == Retired(old(info), prev)
    {
      SwapSlot(slot, e, id);
      Retire(prev);
    }

    // ---------------------------------------------------------------- inserting

    /** The slot for a node: its own id if it has one, or a fresh one; -1 if the id is taken. */
    method ChooseSlot(e: Entry) returns (slot: int)
      requires Valid() && e in info && e !in contents.ids
      modifies e`node
      ensures ValidBut(e)
      ensures slot == -1 <==> e.node.id in contents.nodes
      ensures slot != -1 ==> 0 <= slot < |contents.table| && Usable(contents.table, hash, e.node.id, slot)
      ensures Settled(contents.nodes.Keys, count, size, old(e.node.id), e.node.id)
    {
      IsTagged();
      Measures(contents);
      if IsZero(e.node.id) {
        slot := FreshLoop(entries, hash, count, e, e.node.id.namespace, contents.table, contents.ids);
      } else {
        slot := FindFreeSlot(entries, hash, e.node.id, contents.table, contents.ids);
      }
      ChosenIsSettled(contents.table, contents.nodes, contents.ids, old(e.node.id), e.node.id);
    }

    /** Choose an id and a slot, and note the id. */
    method Choose(e: Entry) returns (slot: int)
      requires Valid() && e in info && e !in contents.ids
      modifies e`node, `info
      ensures Valid() && e in info && info == Named(old(info), e, e.node.id)
      ensures slot == -1 <==> e.node.id in contents.nodes
      ensures slot != -1 ==> 0 <= slot < |contents.table| && Usable(contents.table, hash, e.node.id, slot)
      ensures Settled(contents.nodes.Keys, count, size, old(e.node.id), e.node.id)
    {
      slot := ChooseSlot(e);
      Note(e);
    }

    /** Everything is as described, up to the id of one entry that is in no slot. */
    ghost predicate ValidBut(e: Entry)
      reads this, entries, info.Keys
    {
      && TableIsPrime() && ShapeOf(contents) == Shape(hash, size, sizePrimeIndex, count)
      && entries[..] == contents.cells && Known(contents.ids, info) && e in info && e !in contents.ids
      && (forall x :: x in info && x != e ==> info[x] == x.Describe())
      && e.Describe() == info[e].(node := info[e].node.(id := e.node.id))
    }

    method Note(e: Entry)
      requires ValidBut(e)
      modifies `info
      ensures Valid() && e in old(info) && info == Named(old(info), e, e.node.id)
    {
      info := info[e := e.Describe()];
    }

    /** insertNode after the load test: into the slot that was chosen, or thrown away if
        there is none. */
    method InsertWithRoom(e: Entry) returns (status: Status)
      requires Valid() && e in info && e !in contents.ids && !info[e].freed
      requires count < MAX_COUNT && 4 * count < 3 * size
      modifies entries, `contents, `count, `info, e`node, e`freed
      ensures Valid()
      ensures Settled(old(contents.nodes).Keys, old(count), size, old(e.node.id), e.node.id)
      ensures Inserted(old(View()), e, e.node.id, status, View())
    {
      var slot := Choose(e);
      status := Settle(slot, e, old(View()));
    }

    method Settle(slot: int, e: Entry, ghost s: Store<Entry>) returns (status: Status)
      requires Valid() && count < MAX_COUNT && 4 * count < 3 * size && e in info && e !in contents.ids
      requires slot == -1 <==> e.node.id in contents.nodes
      requires slot != -1 ==> 0 <= slot < |contents.table| && Usable(contents.table, hash, e.node.id, slot)
      requires e in s.info && !s.info[e].freed && View() == Store(s.nodes, Named(s.info, e, e.node.id))
      modifies entries, `contents, `count, `info, e`freed
      ensures Valid() && Inserted(s, e, e.node.id, status, View())
    {
      if slot == -1 {
        FreeEntry(e);
        status := BadNodeIdExists;
      } else {
        FillSlot(slot, e, e.node.id);
        status := Good;
      }
      InsertedInSteps(s, e, e.node.id, View());
    }

    method InsertEntry(e: Entry, memory: bool) returns (status: Status)
      requires Valid() && e in info && e !in contents.ids && !info[e].freed && count < MAX_COUNT
      modifies this, entries, e`node, e`freed
      ensures Valid() && (entries == old(entries) || fresh(entries))
      ensures status == BadInternalError <==> 3 * old(size) <= 4 * old(count) && !memory
      ensures status == BadInternalError ==> View() == old(View())
      ensures status != BadInternalError ==>
        && Settled(old(contents.nodes).Keys, old(count), size, old(e.node.id), e.node.id)
        && Inserted(old(View()), e, e.node.id, status, View())
    {
      var ok := GrowIfFull(memory);
      status := BadInternalError;
      if ok {
        status := InsertWithRoom(e);
      }
    }

    /** UA_NodeMap_insertNode: refines the insertion of the model; a node with a null id gets
        the first unused candidate. Without memory for a table that has to grow the call is
        refused and nothing changes, the node is not deleted. */
    method InsertNode(e: Entry, memory: bool) returns (status: Status, id: NodeId)
      requires Valid() && StoreInv(View()) && View().Private(e) && count < MAX_COUNT
      modifies this, entries, info.Keys
      ensures Valid() && (entries == old(entries) || fresh(entries))
      ensures status == BadInternalError <==> 3 * old(size) <= 4 * old(count) && !memory
      ensures status != BadInternalError ==>
        GivenOrFresh(old(contents.nodes).Keys, old(count), size, old(e.node.id), id)
      ensures var op := if status == BadInternalError then Refused(e) else Insert(e, id);
        status == Apply(old(View()), op).status && Performs(old(View()), op, View())
    {
      PrivateHasNoSlot(e);
      status := InsertEntry(e, memory);
      id := e.node.id;
      if status != BadInternalError {
        SettledMeans(old(contents.nodes).Keys, old(count), size, old(e.node.id), id);
        InsertUpdates(old(View()), e, id, View());
      }
    }
  }
}
