/** Open addressing with double hashing, as a value: the invariant behind the nodestore's
    hash map (plugins/ua_nodestore_default.c). */
module ProbeTable {
  import opened NumberTheory

  datatype Cell<K> = Empty | Tombstone | Key(id: K)

  type Table<K> = seq<Cell<K>>

  // ------------------------------------------------------------ probe sequences

  /** mod and mod2 */
  function Start(h: nat, n: nat): nat
    requires n > 2
  {
    h % n
  }

  function Stride(h: nat, n: nat): (s: nat)
    requires n > 2
    ensures 1 <= s < n - 1
  {
    1 + h % (n - 2)
  }

  /** Slot of the i-th probe: one stride further each time, wrapping around. */
  function Probe(h: nat, n: nat, i: nat): (j: nat)
    requires n > 2
    ensures j < n
  {
    if i == 0 then Start(h, n)
    else
      var y := Probe(h, n, i - 1) + Stride(h, n);
      if y >= n then y - n else y
  }

  lemma {:induction false} ProbeClosedForm(h: nat, n: nat, i: nat)
    requires n > 2
    ensures Probe(h, n, i) == (h + i * Stride(h, n)) % n
  {
    if i > 0 {
      ProbeClosedForm(h, n, i - 1);
      var s := Stride(h, n);
      assert h + i * s == h + (i - 1) * s + s;
      ModStep(h + (i - 1) * s, s, n);
    }
  }

  /** The probes of double hashing, written out. */
  lemma ProbeIsDoubleHashing(h: nat, n: nat, i: nat)
    requires n > 2
    ensures Probe(h, n, i) == (h + i * (1 + h % (n - 2))) % n
  {
    ProbeClosedForm(h, n, i);
  }

  lemma ProbesDistinct(h: nat, n: nat, i: nat, j: nat)
    requires n > 2 && IsPrime(n) && i < j < i + n
    ensures Probe(h, n, i) != Probe(h, n, j)
  {
    ProbeClosedForm(h, n, i);
    ProbeClosedForm(h, n, j);
    ProgressionInjective(n, h, Stride(h, n), i, j);
  }

  lemma ProbesReturn(h: nat, n: nat)
    requires n > 2
    ensures Probe(h, n, n) == Probe(h, n, 0)
  {
    ProbeClosedForm(h, n, n);
    ProgressionPeriod(n, h, Stride(h, n));
  }

  /** For a prime size every slot is visited before the start comes up again. */
  lemma EverySlotProbed(h: nat, n: nat, j: nat)
    requires n > 2 && IsPrime(n) && j < n
    ensures exists i: nat :: i < n && Probe(h, n, i) == j
  {
    var f := (i: int) => if i < 0 then 0 else Probe(h, n, i) as int;
    forall a, b | 0 <= a < b < n
      ensures f(a) != f(b)
    {
      ProbesDistinct(h, n, a, b);
    }
    InjectiveIsOnto(f, n, j);
    var i :| 0 <= i < n && f(i) == j;
    assert Probe(h, n, i) == j;
  }

  // -------------------------------------------------------------- the invariant

  /** The i-th probe for k is the first one that could end a search: nothing empty before. */
  ghost predicate PathTo<K>(t: Table<K>, h: nat, i: nat)
    requires |t| > 2
  {
    forall m: nat :: m < i ==> t[Probe(h, |t|, m)] != Empty
  }

  /** The key in slot j lies on its own probe path with no empty slot before it. */
  ghost predicate Reachable<K>(t: Table<K>, h: nat, j: nat)
    requires |t| > 2
  {
    exists i: nat :: i < |t| && Probe(h, |t|, i) == j && PathTo(t, h, i)
  }

  ghost predicate KeyReachable<K>(t: Table<K>, hash: K -> nat, j: nat)
    requires j < |t| && |t| > 2
  {
    t[j].Key? ==> Reachable(t, hash(t[j].id), j)
  }

  ghost predicate Apart<K>(t: Table<K>, i: nat, j: nat)
    requires i < |t| && j < |t|
  {
    t[i].Key? && t[j].Key? ==> t[i].id != t[j].id
  }

  ghost predicate NoDuplicates<K>(t: Table<K>) {
    forall i: nat, j: nat {:trigger Apart(t, i, j)} :: i < j < |t| ==> Apart(t, i, j)
  }

  /** Every stored key can be found and no key is stored twice. */
  ghost predicate TableInv<K>(t: Table<K>, hash: K -> nat) {
    && |t| > 2 && IsPrime(|t|)
    && (forall j: nat {:trigger KeyReachable(t, hash, j)} :: j < |t| ==> KeyReachable(t, hash, j))
    && NoDuplicates(t)
  }

  ghost predicate Stored<K>(t: Table<K>, k: K) {
    exists j :: 0 <= j < |t| && t[j] == Key(k)
  }

  ghost predicate HasRoom<K>(t: Table<K>) {
    exists j :: 0 <= j < |t| && !t[j].Key?
  }

  /** The first i probes for k found neither k nor an empty slot. */
  ghost predicate Missed<K>(t: Table<K>, k: K, h: nat, i: nat)
    requires |t| > 2
  {
    PathTo(t, h, i) && forall m: nat :: m < i ==> t[Probe(h, |t|, m)] != Key(k)
  }

  /** A search may stop at an empty slot, or when the start comes up again. */
  lemma SearchMayStop<K>(t: Table<K>, hash: K -> nat, k: K, i: nat)
    requires TableInv(t, hash) && Missed(t, k, hash(k), i)
    requires i == |t| || (i < |t| && t[Probe(hash(k), |t|, i)] == Empty)
    ensures !Stored(t, k)
  {
    forall j | 0 <= j < |t|
      ensures t[j] != Key(k)
    {
      assert KeyReachable(t, hash, j);
    }
  }

  /** After a full round without an empty slot every slot holds another key, if none was free. */
  lemma FullRound<K>(t: Table<K>, h: nat)
    requires |t| > 2 && IsPrime(|t|)
    requires forall m: nat :: m < |t| ==> t[Probe(h, |t|, m)].Key?
    ensures !HasRoom(t)
  {
    forall j | 0 <= j < |t|
      ensures t[j].Key?
    {
      EverySlotProbed(h, |t|, j);
    }
  }

  // ------------------------------------------------------------------ updates

  /** Filling the first free slot of a key's probe path. */
  lemma FillKeepsInv<K>(t: Table<K>, hash: K -> nat, k: K, i: nat)
    requires TableInv(t, hash) && !Stored(t, k) && i < |t|
    requires PathTo(t, hash(k), i) && !t[Probe(hash(k), |t|, i)].Key?
    ensures TableInv(t[Probe(hash(k), |t|, i) := Key(k)], hash)
  {
    var n, s := |t|, Probe(hash(k), |t|, i);
    var u := t[s := Key(k)];
    forall j: nat | j < n
      ensures KeyReachable(u, hash, j)
    {
      assert KeyReachable(t, hash, j);
      if j == s {
        assert PathTo(u, hash(k), i);
      } else if u[j].Key? {
        var h := hash(u[j].id);
        var m: nat :| m < n && Probe(h, n, m) == j && PathTo(t, h, m);
        assert PathTo(u, h, m);
      }
    }
    forall a: nat, b: nat | a < b < n
      ensures Apart(u, a, b)
    {
      assert Apart(t, a, b);
    }
  }

  /** A tombstone instead of a key keeps every other key reachable. */
  lemma BuryKeepsInv<K>(t: Table<K>, hash: K -> nat, s: nat)
    requires TableInv(t, hash) && s < |t| && t[s].Key?
    ensures TableInv(t[s := Tombstone], hash)
  {
    var u := t[s := Tombstone];
    forall j: nat | j < |t|
      ensures KeyReachable(u, hash, j)
    {
      assert KeyReachable(t, hash, j);
      if u[j].Key? {
        var h := hash(u[j].id);
        var m: nat :| m < |t| && Probe(h, |t|, m) == j && PathTo(t, h, m);
        assert PathTo(u, h, m);
      }
    }
    forall a: nat, b: nat | a < b < |t|
      ensures Apart(u, a, b)
    {
      assert Apart(t, a, b);
    }
  }

  // ------------------------------------------------------------------ counting

  function Live<K>(t: Table<K>): (c: nat)
    ensures c <= |t|
  {
    if t == [] then 0 else Live(t[..|t| - 1]) + (if t[|t| - 1].Key? then 1 else 0)
  }

  lemma {:induction false} LiveUpdate<K>(t: Table<K>, j: nat, c: Cell<K>)
    requires j < |t|
    ensures Live(t[j := c]) == Live(t) - (if t[j].Key? then 1 else 0) + (if c.Key? then 1 else 0)
  {
    var u := t[j := c];
    var init := t[..|t| - 1];
    if j == |t| - 1 {
      assert u[..|t| - 1] == init;
    } else {
      LiveUpdate(init, j, c);
      assert u[..|t| - 1] == init[j := c];
    }
  }

  lemma {:induction false} LivePrefix<K>(t: Table<K>, i: nat)
    requires i <= |t|
    ensures Live(t[..i]) <= Live(t)
    ensures Live(t[..i]) == Live(t) ==> forall j :: i <= j < |t| ==> !t[j].Key?
    decreases |t| - i
  {
    if i == |t| {
      assert t[..i] == t;
    } else {
      LivePrefix(t, i + 1);
      assert t[..i + 1][..i] == t[..i];
    }
  }

  lemma {:induction false} NoneLive<K>(t: Table<K>)
    requires forall j :: 0 <= j < |t| ==> !t[j].Key?
    ensures Live(t) == 0
  {
    if t != [] {
      NoneLive(t[..|t| - 1]);
    }
  }

  /** Pigeonhole: fewer keys than slots leave a slot that holds none. */
  lemma {:induction false} RoomLeft<K>(t: Table<K>)
    requires Live(t) < |t|
    ensures HasRoom(t)
  {
    var last := |t| - 1;
    if t[last].Key? {
      RoomLeft(t[..last]);
      var j :| 0 <= j < last && !t[..last][j].Key?;
      assert !t[j].Key?;
    }
  }

  /** The keys of a table, as a set. */
  ghost function Keys<K>(t: Table<K>): set<K> {
    if t == [] then {} else Keys(t[..|t| - 1]) + (if t[|t| - 1].Key? then {t[|t| - 1].id} else {})
  }

  lemma {:induction false} KeysMembers<K>(t: Table<K>, k: K)
    ensures k in Keys(t) <==> Stored(t, k)
  {
    if t != [] {
      var init := t[..|t| - 1];
      KeysMembers(init, k);
      if Stored(t, k) {
        var j :| 0 <= j < |t| && t[j] == Key(k);
        assert j < |init| ==> init[j] == Key(k);
      }
      if Stored(init, k) {
        var j :| 0 <= j < |init| && init[j] == Key(k);
        assert t[j] == Key(k);
      }
    }
  }

  lemma {:induction false} KeysCount<K>(t: Table<K>)
    requires NoDuplicates(t)
    ensures |Keys(t)| == Live(t)
  {
    if t != [] {
      var last := |t| - 1;
      var init, c := t[..last], t[last];
      forall i: nat, j: nat | i < j < last
        ensures Apart(init, i, j)
      {
        assert Apart(t, i, j);
      }
      KeysCount(init);
      if c.Key? {
        KeysMembers(init, c.id);
        forall j | 0 <= j < last
          ensures init[j] != Key(c.id)
        {
          assert Apart(t, j, last);
        }
      }
    }
  }
}
