/** Searching and rehashing the slot array of the nodestore: the loops of findFreeSlot,
    findOccupiedSlot and expand in plugins/ua_nodestore_default.c. */
module HashSlots {
  import opened NumberTheory
  import opened ProbeTable
  import opened StoreModel

  // --------------------------------------------------------------- table sizes

  const PRIMES: seq<nat> := [
    7,         13,         31,         61,         127,         251,
    509,       1021,       2039,       4093,       8191,        16381,
    32749,     65521,      131071,     262139,     524287,      1048573,
    2097143,   4194301,    8388593,    16777213,   33554393,    67108859,
    134217689, 268435399,  536870909,  1073741789, 2147483647,  4294967291]

  /** Taken as given: the numbers in the table are prime. */
  ghost predicate TableIsPrime() {
    forall i :: 0 <= i < |PRIMES| ==> IsPrime(PRIMES[i])
  }

  lemma {:induction false} PrimesSorted(i: nat, j: nat)
    requires i < j < 30
    ensures PRIMES[i] < PRIMES[j]
    decreases j - i
  {
    if i + 1 < j {
      PrimesSorted(i, i + 1);
      PrimesSorted(i + 1, j);
    }
  }

  /** How far the sizes are below the powers of two from 8 on. */
  const GAPS: seq<nat> := [1, 3, 1, 3, 1, 5, 3, 3, 9, 3, 1, 3, 19, 15, 1, 5, 1, 3, 9, 3, 15, 3, 39, 5, 39, 57, 3, 35, 1, 5]

  function PowerOfTwo(i: nat): int {
    if i == 0 then 1 else 2 * PowerOfTwo(i - 1)
  }

  /** Each size is a little below a power of two, so sizes about double. */
  lemma {:induction false} SizesDouble(i: nat)
    requires i < 30
    ensures PRIMES[i] + GAPS[i] == PowerOfTwo(i + 3)
  {
    if i > 0 {
      SizesDouble(i - 1);
      NextSize(i - 1);
    } else {
      FirstSize();
    }
  }

  lemma FirstSize()
    ensures PRIMES[0] + GAPS[0] == 8 == PowerOfTwo(3)
  {
    assert PowerOfTwo(1) == 2 && PowerOfTwo(2) == 4;
  }

  lemma NextSize(i: nat)
    requires i < 29
    ensures PRIMES[i + 1] + GAPS[i + 1] == 2 * (PRIMES[i] + GAPS[i])
  {
  }

  /** The least size for twice a count is at most eight times the count, from 127 on. */
  lemma LeastSizeIsUsed(i: nat, count: nat)
    requires 4 <= i < 30 && PRIMES[i - 1] < 2 * count
    ensures PRIMES[i] <= 8 * count
  {
    NextSize(i - 1);
    SmallGaps(i - 1);
    LargeSizes(i - 1);
  }

  lemma SmallGaps(i: nat)
    requires i < 30
    ensures GAPS[i] <= 57
  {
  }

  lemma LargeSizes(i: nat)
    requires 3 <= i < 30
    ensures PRIMES[i] >= 61
  {
    if i > 3 {
      PrimesSorted(3, i);
    }
  }

  /** The position of the least table prime that is not below n. */
  method HigherPrimeIndex(n: nat) returns (low: nat)
    ensures low <= 30
    ensures forall i :: 0 <= i < low ==> PRIMES[i] < n
    ensures forall i :: low <= i < 30 ==> n <= PRIMES[i]
  {
    low := 0;
    var high := |PRIMES|;
    while low != high
      invariant 0 <= low <= high <= 30
      invariant forall i :: 0 <= i < low ==> PRIMES[i] < n
      invariant forall i :: high <= i < 30 ==> n <= PRIMES[i]
    {
      var mid := low + (high - low) / 2;
      if n > PRIMES[mid] {
        forall i | 0 <= i < mid
          ensures PRIMES[i] < n
        {
          PrimesSorted(i, mid);
        }
        low := mid + 1;
      } else {
        forall i | mid < i < 30
          ensures n <= PRIMES[i]
        {
          PrimesSorted(mid, i);
        }
        high := mid;
      }
    }
  }

  // ------------------------------------------------------------------- entries

  function NonNull(e: Entry?): Option<Entry> {
    if e == null then None else (var x: Entry := e; Some(x))
  }

  /** One version of a node. freed is set where the C code releases the memory. */
  class Entry {
    var orig: Entry?
    var refCount: nat
    var deleted: bool
    var node: Node
    ghost var freed: bool

    constructor (n: Node, o: Entry?)
      ensures node == n && orig == o && refCount == 0 && !deleted && !freed
    {
      node, orig, refCount, deleted, freed := n, o, 0, false, false;
    }

    ghost function Describe(): Info<Entry>
      reads this
    {
      Info(node, NonNull(orig), refCount, deleted, freed)
    }
  }

  /** A slot pointer: null, the tombstone, or an entry. */
  datatype Slot = Null | Tomb | Full(entry: Entry)

  type Hash = NodeId -> nat

  /** The ids of the entries in the store, which do not change while they are there. */
  type Ids = map<Entry, NodeId>

  ghost predicate Tagged(ids: Ids)
    reads ids.Keys`node
  {
    forall e :: e in ids ==> e.node.id == ids[e]
  }

  /** The slots hold what the table says. */
  ghost predicate Mirrors(cells: seq<Slot>, t: Table<NodeId>, ids: Ids) {
    && |cells| == |t|
    && forall i :: 0 <= i < |t| ==>
      match cells[i]
      case Null => t[i] == Empty
      case Tomb => t[i] == Tombstone
      case Full(e) => e in ids && t[i] == Key(ids[e])
  }

  /** A slot where id may be put: free, and on id's probe path with nothing empty before. */
  ghost predicate Usable(t: Table<NodeId>, hash: Hash, id: NodeId, slot: nat) {
    && |t| > 2 && slot < |t| && !t[slot].Key?
    && exists i: nat :: i < |t| && Probe(hash(id), |t|, i) == slot && PathTo(t, hash(id), i)
  }

  /** A search for id that ended without finding it has seen enough. */
  ghost predicate Exhausted(t: Table<NodeId>, id: NodeId, h: nat, i: nat) {
    && |t| > 2 && Missed(t, id, h, i)
    && (i == |t| || (i < |t| && t[Probe(h, |t|, i)] == Empty))
  }

  /** The start comes up again after exactly one round. */
  lemma RoundTrip(h: nat, n: nat, i: nat)
    requires n > 2 && IsPrime(n) && 0 < i <= n
    ensures Probe(h, n, i) == Start(h, n) <==> i == n
  {
    if i < n {
      ProbesDistinct(h, n, 0, i);
    } else {
      ProbesReturn(h, n);
    }
  }

  lemma MissedOneMore(t: Table<NodeId>, id: NodeId, h: nat, i: nat)
    requires |t| > 2 && Missed(t, id, h, i)
    requires t[Probe(h, |t|, i)] != Empty && t[Probe(h, |t|, i)] != Key(id)
    ensures Missed(t, id, h, i + 1)
  {
  }

  /** The loop of findOccupiedSlot. */
  method SearchLoop(entries: array<Slot>, h: nat, id: NodeId, ghost t: Table<NodeId>, ghost ids: Ids)
    returns (slot: int, ghost i: nat)
    requires Tagged(ids) && Mirrors(entries[..], t, ids) && |t| > 2 && IsPrime(|t|)
    ensures slot == -1 ==> Exhausted(t, id, h, i)
    ensures slot != -1 ==> 0 <= slot < entries.Length && t[slot] == Key(id)
  {
    var size := entries.Length;
    var idx := h % size;
    var startIdx := idx;
    var hash2 := 1 + h % (size - 2);
    var entry := entries[idx];
    i := 0;
    while true
      invariant i < size && idx == Probe(h, size, i) && Missed(t, id, h, i)
      decreases size - i
    {
      entry := entries[idx];
      if entry.Full? && entry.entry.node.id == id {
        return idx, i;
      }
      idx := idx + hash2;
      if idx >= size {
        idx := idx - size;
      }
      RoundTrip(h, size, i + 1);
      if entry.Null? {
        return -1, i;
      }
      MissedOneMore(t, id, h, i);
      i := i + 1;
      if idx == startIdx {
        return -1, i;
      }
    }
  }

  /** findOccupiedSlot: the slot that holds id, or -1. */
  method FindOccupiedSlot(entries: array<Slot>, hash: Hash, id: NodeId, ghost t: Table<NodeId>, ghost ids: Ids)
    returns (slot: int)
    requires TableInv(t, hash) && Tagged(ids) && Mirrors(entries[..], t, ids)
    ensures slot == -1 <==> !Stored(t, id)
    ensures slot != -1 ==> 0 <= slot < entries.Length && t[slot] == Key(id)
  {
    ghost var i;
    slot, i := SearchLoop(entries, hash(id), id, t, ids);
    if slot == -1 {
      SearchMayStop(t, hash, id, i);
    }
  }

  /** slot is the first free slot among the first i probes, the one of probe at; -1 if none. */
  ghost predicate FirstFree(t: Table<NodeId>, h: nat, i: nat, slot: int, at: nat) {
    && |t| > 2
    && if slot == -1 then forall m: nat :: m < i ==> t[Probe(h, |t|, m)].Key?
       else 0 <= slot < |t| && !t[slot].Key? && at < |t| && Probe(h, |t|, at) == slot && PathTo(t, h, at)
  }

  lemma FirstFreeStep(t: Table<NodeId>, h: nat, i: nat, slot: int, at: nat)
    requires FirstFree(t, h, i, slot, at) && i < |t| && PathTo(t, h, i)
    ensures var j := Probe(h, |t|, i);
      FirstFree(t, h, i + 1, if slot == -1 && !t[j].Key? then j else slot, if slot == -1 && !t[j].Key? then i else at)
  {
  }

  /** The loop of findFreeSlot: remembers the first free slot and goes on until it is sure
      that id is not there. */
  method FreeLoop(entries: array<Slot>, h: nat, id: NodeId, ghost t: Table<NodeId>, ghost ids: Ids)
    returns (found: bool, slot: int, ghost i: nat, ghost at: nat)
    requires Tagged(ids) && Mirrors(entries[..], t, ids) && |t| > 2 && IsPrime(|t|)
    ensures found ==> slot == -1 && Stored(t, id)
    ensures !found ==> Exhausted(t, id, h, i) && FirstFree(t, h, if i < |t| then i + 1 else i, slot, at)
  {
    var size := entries.Length;
    var idx := h % size;
    var startIdx := idx;
    var hash2 := 1 + h % (size - 2);
    var entry := entries[idx];
    slot, i, at := -1, 0, 0;
    while true
      invariant i < size && idx == Probe(h, size, i) && Missed(t, id, h, i)
      invariant FirstFree(t, h, i, slot, at)
      decreases size - i
    {
      entry := entries[idx];
      if entry.Full? && entry.entry.node.id == id {
        assert t[idx] == Key(id);
        return true, -1, i, 0;
      }
      FirstFreeStep(t, h, i, slot, at);
      if slot == -1 && !entry.Full? {
        slot, at := idx, i;
      }
      idx := idx + hash2;
      if idx >= size {
        idx := idx - size;
      }
      RoundTrip(h, size, i + 1);
      if entry.Null? {
        return false, slot, i, at;
      }
      MissedOneMore(t, id, h, i);
      i := i + 1;
      if idx == startIdx {
        return false, slot, i, at;
      }
    }
  }

  /** findFreeSlot: the first free slot of the probe path, or -1 when id is stored or every
      slot is taken. */
  method FindFreeSlot(entries: array<Slot>, hash: Hash, id: NodeId, ghost t: Table<NodeId>, ghost ids: Ids)
    returns (slot: int)
    requires TableInv(t, hash) && Tagged(ids) && Mirrors(entries[..], t, ids)
    ensures slot == -1 <==> Stored(t, id) || !HasRoom(t)
    ensures slot != -1 ==> 0 <= slot && Usable(t, hash, id, slot)
  {
    var found;
    ghost var i, at;
    found, slot, i, at := FreeLoop(entries, hash(id), id, t, ids);
    if !found {
      SearchMayStop(t, hash, id, i);
      if slot == -1 {
        assert i == |t|;
        FullRound(t, hash(id));
      }
    }
  }

  // ----------------------------------------------------------------- rehashing

  /** Putting id into a usable slot stores it and disturbs nothing. */
  lemma PutKeeps(t: Table<NodeId>, hash: Hash, id: NodeId, slot: nat)
    requires TableInv(t, hash) && !Stored(t, id) && Usable(t, hash, id, slot)
    ensures TableInv(t[slot := Key(id)], hash)
    ensures Live(t[slot := Key(id)]) == Live(t) + 1
    ensures forall k :: Stored(t[slot := Key(id)], k) <==> k == id || Stored(t, k)
  {
    var i: nat :| i < |t| && Probe(hash(id), |t|, i) == slot && PathTo(t, hash(id), i);
    FillKeepsInv(t, hash, id, i);
    LiveUpdate(t, slot, Key(id));
    StoredUpdate(t, slot, Key(id));
  }

  /** Which keys are stored after changing a slot that held none. */
  lemma StoredUpdate(t: Table<NodeId>, slot: nat, c: Cell<NodeId>)
    requires slot < |t| && !t[slot].Key?
    ensures forall k :: Stored(t[slot := c], k) <==> c == Key(k) || Stored(t, k)
  {
    var u := t[slot := c];
    forall k
      ensures Stored(u, k) <==> c == Key(k) || Stored(t, k)
    {
      if c == Key(k) {
        assert u[slot] == Key(k);
      }
      if Stored(t, k) {
        var j :| 0 <= j < |t| && t[j] == Key(k);
        assert u[j] == Key(k);
      }
      if Stored(u, k) && c != Key(k) {
        var j :| 0 <= j < |u| && u[j] == Key(k);
        assert t[j] == Key(k);
      }
    }
  }

  lemma EmptyTable(t: Table<NodeId>, hash: Hash)
    requires |t| > 2 && IsPrime(|t|) && forall i :: 0 <= i < |t| ==> t[i] == Empty
    ensures TableInv(t, hash) && Live(t) == 0 && forall k :: !Stored(t, k)
  {
    NoneLive(t);
  }

  /** Every entry is the stored version of its id. */
  ghost predicate Names(cells: seq<Slot>, nodes: map<NodeId, Entry>, ids: Ids) {
    forall i :: 0 <= i < |cells| && cells[i].Full? ==>
      var e := cells[i].entry; e in ids && ids[e] in nodes && nodes[ids[e]] == e
  }

  lemma StoredSnoc(t: Table<NodeId>, i: nat)
    requires i < |t|
    ensures forall k :: Stored(t[..i + 1], k) <==> t[i] == Key(k) || Stored(t[..i], k)
  {
    forall k
      ensures Stored(t[..i + 1], k) <==> t[i] == Key(k) || Stored(t[..i], k)
    {
      if Stored(t[..i], k) {
        var j :| 0 <= j < i && t[..i][j] == Key(k);
        assert t[..i + 1][j] == Key(k);
      }
      if t[i] == Key(k) {
        assert t[..i + 1][i] == Key(k);
      }
      if Stored(t[..i + 1], k) && t[i] != Key(k) {
        var j :| 0 <= j < i + 1 && t[..i + 1][j] == Key(k);
        assert t[..i][j] == Key(k);
      }
    }
  }

  lemma RestNotLive(t: Table<NodeId>, i: nat)
    requires i <= |t| && Live(t[..i]) == Live(t)
    ensures forall k :: Stored(t[..i], k) <==> Stored(t, k)
  {
    LivePrefix(t, i);
    forall k
      ensures Stored(t[..i], k) <==> Stored(t, k)
    {
      if Stored(t, k) {
        var j :| 0 <= j < |t| && t[j] == Key(k);
        assert t[..i][j] == Key(k);
      }
      if Stored(t[..i], k) {
        var j :| 0 <= j < i && t[..i][j] == Key(k);
        assert t[j] == Key(k);
      }
    }
  }

  /** Slots, table and the map of stored versions belong together. */
  ghost predicate Holds(cells: seq<Slot>, t: Table<NodeId>, hash: Hash, nodes: map<NodeId, Entry>, ids: Ids) {
    TableInv(t, hash) && Mirrors(cells, t, ids) && Names(cells, nodes, ids)
  }

  /** One entry moves into the new array; the assertion that a slot is found never fails. */
  method MoveEntry(nentries: array<Slot>, hash: Hash, e: Entry, ghost t: Table<NodeId>, ghost nodes: map<NodeId, Entry>, ghost ids: Ids)
    returns (ghost t': Table<NodeId>)
    requires Tagged(ids) && Holds(nentries[..], t, hash, nodes, ids)
    requires e in ids && ids[e] in nodes && nodes[ids[e]] == e && !Stored(t, ids[e]) && Live(t) < |t|
    modifies nentries
    ensures Holds(nentries[..], t', hash, nodes, ids) && |t'| == |t|
    ensures Live(t') == Live(t) + 1
    ensures forall k :: Stored(t', k) <==> k == ids[e] || Stored(t, k)
  {
    RoomLeft(t);
    var slot := FindFreeSlot(nentries, hash, e.node.id, t, ids);
    assert slot != -1;
    nentries[slot] := Full(e);
    t' := t[slot := Key(e.node.id)];
    PutKeeps(t, hash, e.node.id, slot);
  }

  /** The loop of expand: exactly the live entries are in the new array, no tombstones. */
  method Rehash(oentries: array<Slot>, hash: Hash, count: nat, nsize: nat,
                ghost ot: Table<NodeId>, ghost ids: Ids, ghost nodes: map<NodeId, Entry>)
    returns (nentries: array<Slot>, ghost nt: Table<NodeId>)
    requires Tagged(ids) && Holds(oentries[..], ot, hash, nodes, ids)
    requires count == Live(ot) && nsize > 2 && IsPrime(nsize) && count <= nsize
    ensures fresh(nentries) && |nt| == nsize
    ensures Holds(nentries[..], nt, hash, nodes, ids)
    ensures Live(nt) == count && forall k :: Stored(nt, k) <==> Stored(ot, k)
  {
    var osize := oentries.Length;
    nentries := new Slot[nsize](_ => Null);
    nt := seq(nsize, _ => Empty);
    EmptyTable(nt, hash);
    var i, j := 0, 0;
    assert ot[..0] == [];
    while i < osize && j < count
      invariant 0 <= i <= osize && j == Live(ot[..i]) == Live(nt) && fresh(nentries)
      invariant |nt| == nsize && Holds(nentries[..], nt, hash, nodes, ids)
      invariant forall k :: Stored(nt, k) <==> Stored(ot[..i], k)
    {
      StoredSnoc(ot, i);
      assert ot[..i + 1][..i] == ot[..i];
      if oentries[i].Full? {
        NotBefore(ot, i);
        nt := MoveEntry(nentries, hash, oentries[i].entry, nt, nodes, ids);
        j := j + 1;
      }
      i := i + 1;
    }
    assert i == osize ==> ot[..i] == ot;
    LivePrefix(ot, i);
    RestNotLive(ot, i);
  }

  lemma NotBefore(t: Table<NodeId>, i: nat)
    requires i < |t| && t[i].Key?
    requires NoDuplicates(t)
    ensures !Stored(t[..i], t[i].id)
  {
    forall j | 0 <= j < i
      ensures t[..i][j] != Key(t[i].id)
    {
      assert Apart(t, j, i);
    }
  }

  // -------------------------------------------------------------- slot changes

  /** The stored versions are exactly those in the table, under their own ids. */
  ghost predicate Bound(t: Table<NodeId>, nodes: map<NodeId, Entry>, ids: Ids) {
    && (forall id :: id in nodes <==> Stored(t, id))
    && (forall e :: e in ids ==> ids[e] in nodes && nodes[ids[e]] == e)
  }

  /** What a hash map in memory stands for: hash function, position of its size in the table
      of sizes, slots, table of ids, the stored version of each id and the id of each stored
      version. */
  datatype Contents = Contents(hash: Hash, index: nat, cells: seq<Slot>, table: Table<NodeId>,
                               nodes: map<NodeId, Entry>, ids: Ids)

  ghost predicate Sound(c: Contents) {
    Holds(c.cells, c.table, c.hash, c.nodes, c.ids) && Bound(c.table, c.nodes, c.ids)
  }

  /** Slot holds the stored version of id. */
  ghost predicate At(c: Contents, slot: nat, id: NodeId) {
    && slot < |c.cells| && slot < |c.table| && c.table[slot] == Key(id)
    && id in c.nodes && c.cells[slot] == Full(c.nodes[id])
  }

  /** A tombstone takes the place of the entry of id. */
  ghost function Buried(c: Contents, slot: nat, id: NodeId): Contents
    requires At(c, slot, id)
  {
    c.(cells := c.cells[slot := Tomb], table := c.table[slot := Tombstone], nodes := c.nodes - {id}, ids := c.ids - {c.nodes[id]})
  }

  /** Another version takes the place of the entry of id. */
  ghost function Swapped(c: Contents, slot: nat, id: NodeId, e: Entry): Contents
    requires At(c, slot, id)
  {
    c.(cells := c.cells[slot := Full(e)], nodes := c.nodes[id := e], ids := (c.ids - {c.nodes[id]})[e := id])
  }

  /** An entry goes into a free slot. */
  ghost function Filled(c: Contents, slot: nat, id: NodeId, e: Entry): Contents
    requires slot < |c.cells| && slot < |c.table|
  {
    c.(cells := c.cells[slot := Full(e)], table := c.table[slot := Key(id)], nodes := c.nodes[id := e], ids := c.ids[e := id])
  }

  /** Which keys are stored when one is replaced by a tombstone. */
  lemma BuriedKeys(t: Table<NodeId>, slot: nat, id: NodeId)
    requires NoDuplicates(t) && slot < |t| && t[slot] == Key(id)
    ensures forall k :: Stored(t[slot := Tombstone], k) <==> k != id && Stored(t, k)
  {
    var u := t[slot := Tombstone];
    forall k
      ensures Stored(u, k) <==> k != id && Stored(t, k)
    {
      if Stored(u, k) {
        var j :| 0 <= j < |u| && u[j] == Key(k);
        assert t[j] == Key(k) && (j < slot ==> Apart(t, j, slot)) && (slot < j ==> Apart(t, slot, j));
      }
      if k != id && Stored(t, k) {
        var j :| 0 <= j < |t| && t[j] == Key(k);
        assert u[j] == Key(k);
      }
    }
  }

  /** The other slots hold other ids. */
  lemma OtherSlots(cells: seq<Slot>, t: Table<NodeId>, ids: Ids, slot: nat, id: NodeId)
    requires NoDuplicates(t) && Mirrors(cells, t, ids) && slot < |t| && t[slot] == Key(id)
    ensures forall j :: 0 <= j < |t| && j != slot && cells[j].Full? ==> ids[cells[j].entry] != id
  {
    forall j | 0 <= j < |t| && j != slot && cells[j].Full?
      ensures ids[cells[j].entry] != id
    {
      assert if j < slot then Apart(t, j, slot) else Apart(t, slot, j);
    }
  }

  lemma BuriedSound(c: Contents, slot: nat, id: NodeId)
    requires Sound(c) && At(c, slot, id)
    ensures Sound(Buried(c, slot, id)) && Live(Buried(c, slot, id).table) == Live(c.table) - 1
  {
    BuryKeepsInv(c.table, c.hash, slot);
    LiveUpdate(c.table, slot, Tombstone);
    BuriedKeys(c.table, slot, id);
    OtherSlots(c.cells, c.table, c.ids, slot, id);
  }

  lemma SwappedSound(c: Contents, slot: nat, id: NodeId, e: Entry)
    requires Sound(c) && At(c, slot, id) && e !in c.ids
    ensures Sound(Swapped(c, slot, id, e))
  {
    OtherSlots(c.cells, c.table, c.ids, slot, id);
  }

  lemma FilledSound(c: Contents, slot: nat, id: NodeId, e: Entry)
    requires Sound(c) && Usable(c.table, c.hash, id, slot) && id !in c.nodes && e !in c.ids
    ensures Sound(Filled(c, slot, id, e)) && Live(Filled(c, slot, id, e).table) == Live(c.table) + 1
  {
    PutKeeps(c.table, c.hash, id, slot);
    FilledMirrors(c.cells, c.table, c.ids, slot, id, e);
    FilledNames(c.cells, c.nodes, c.ids, slot, id, e);
    FilledBound(c.table, c.table[slot := Key(id)], c.nodes, c.ids, id, e);
  }

  lemma FilledMirrors(cells: seq<Slot>, t: Table<NodeId>, ids: Ids, slot: nat, id: NodeId, e: Entry)
    requires Mirrors(cells, t, ids) && slot < |t| && e !in ids
    ensures Mirrors(cells[slot := Full(e)], t[slot := Key(id)], ids[e := id])
  {
  }

  lemma FilledNames(cells: seq<Slot>, nodes: map<NodeId, Entry>, ids: Ids, slot: nat, id: NodeId, e: Entry)
    requires Names(cells, nodes, ids) && slot < |cells| && id !in nodes && e !in ids
    ensures Names(cells[slot := Full(e)], nodes[id := e], ids[e := id])
  {
  }

  lemma FilledBound(t: Table<NodeId>, u: Table<NodeId>, nodes: map<NodeId, Entry>, ids: Ids, id: NodeId, e: Entry)
    requires Bound(t, nodes, ids) && id !in nodes && e !in ids
    requires forall k :: Stored(u, k) <==> k == id || Stored(t, k)
    ensures Bound(u, nodes[id := e], ids[e := id])
  {
  }

  lemma RehashedSound(c: Contents, d: Contents)
    requires Sound(c) && d.nodes == c.nodes && d.ids == c.ids && Holds(d.cells, d.table, d.hash, d.nodes, d.ids)
    requires forall k :: Stored(d.table, k) <==> Stored(c.table, k)
    ensures Sound(d)
  {
  }
}
