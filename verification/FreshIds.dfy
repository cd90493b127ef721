/** The numeric ids that insertNode tries for a node with the null id
    (plugins/ua_nodestore_default.c). */
module FreshIds {
  import opened NumberTheory
  import opened ProbeTable
  import opened StoreModel

  const UINT32_MAX: nat := 4294967295

  /** Sizes for which the start value is above the size and below the 32-bit range. */
  predicate SmallSize(size: nat) {
    7 <= size <= 1073741789
  }

  function StartId(size: nat): nat {
    (50000 + size + 1) % UINT32_MAX
  }

  /** The k-th id that is tried. */
  function Candidate(size: nat, inc: nat, k: nat): nat
    requires inc < size
  {
    if k == 0 then StartId(size)
    else var y := Candidate(size, inc, k - 1) + inc; if y >= size then y - size else y
  }

  /** All ids after the first are smaller: the start is never revisited. */
  lemma {:induction false} BelowStart(size: nat, inc: nat, k: nat)
    requires SmallSize(size) && inc < size && k > 0
    ensures Candidate(size, inc, k) < StartId(size)
  {
    if k > 1 {
      BelowStart(size, inc, k - 1);
    }
  }

  lemma {:induction false} StaysSmall(size: nat, inc: nat, i: nat, j: nat)
    requires SmallSize(size) && inc < size && i <= j && Candidate(size, inc, i) < size
    ensures Candidate(size, inc, j) < size
    decreases j
  {
    if i < j {
      StaysSmall(size, inc, i, j - 1);
    }
  }

  /** While the ids are not below size they fall. */
  lemma {:induction false} Falling(size: nat, inc: nat, i: nat, j: nat)
    requires SmallSize(size) && 0 < inc < size && i < j && Candidate(size, inc, j) >= size
    ensures Candidate(size, inc, i) > Candidate(size, inc, j)
    decreases j
  {
    assert Candidate(size, inc, j - 1) >= size;
    if i < j - 1 {
      Falling(size, inc, i, j - 1);
    }
  }

  lemma {:induction false} Congruent(size: nat, inc: nat, k: nat)
    requires SmallSize(size) && inc < size
    ensures Candidate(size, inc, k) % size == (StartId(size) + k * inc) % size
  {
    if k > 0 {
      Congruent(size, inc, k - 1);
      OneMore(k, inc);
      SameStep(Candidate(size, inc, k - 1), StartId(size) + (k - 1) * inc, inc, size);
    }
  }

  lemma OneMore(k: nat, inc: nat)
    requires k > 0
    ensures k * inc == (k - 1) * inc + inc && (k - 1) * inc >= 0
  {
  }

  lemma SameStep(c: nat, x: nat, s: nat, m: nat)
    requires m > 0 && s < m && c % m == x % m
    ensures (c + s) % m == (x + s) % m
    ensures c + s >= m ==> (c + s - m) % m == (x + s) % m
  {
    ModStep(c, s, m);
    ModStep(x, s, m);
    ModShift(c + s, m, -1);
  }

  /** The ids tried within one round are pairwise different. */
  lemma CandidatesDistinct(size: nat, inc: nat, i: nat, j: nat)
    requires SmallSize(size) && IsPrime(size) && 0 < inc < size && i < j < i + size
    ensures Candidate(size, inc, i) != Candidate(size, inc, j)
  {
    var a, b := Candidate(size, inc, i), Candidate(size, inc, j);
    if b >= size {
      Falling(size, inc, i, j);
    } else if a < size {
      Congruent(size, inc, i);
      Congruent(size, inc, j);
      ProgressionInjective(size, StartId(size), inc, i, j);
    }
  }

  /** The first k ids tried in a namespace. */
  ghost function Tried(ns: nat, size: nat, inc: nat, k: nat): set<NodeId>
    requires inc < size
  {
    if k == 0 then {} else Tried(ns, size, inc, k - 1) + {Numeric(ns, Candidate(size, inc, k - 1))}
  }

  lemma {:induction false} TriedMembers(ns: nat, size: nat, inc: nat, k: nat, id: NodeId)
    requires inc < size && id in Tried(ns, size, inc, k)
    ensures exists i: nat :: i < k && id == Numeric(ns, Candidate(size, inc, i))
  {
    if id in Tried(ns, size, inc, k - 1) {
      TriedMembers(ns, size, inc, k - 1, id);
    }
  }

  lemma {:induction false} TriedCount(ns: nat, size: nat, inc: nat, k: nat)
    requires SmallSize(size) && IsPrime(size) && 0 < inc < size && k <= size
    ensures |Tried(ns, size, inc, k)| == k
  {
    if k > 0 {
      TriedCount(ns, size, inc, k - 1);
      var id := Numeric(ns, Candidate(size, inc, k - 1));
      if id in Tried(ns, size, inc, k - 1) {
        TriedMembers(ns, size, inc, k - 1, id);
        var i: nat :| i < k - 1 && id == Numeric(ns, Candidate(size, inc, i));
        CandidatesDistinct(size, inc, i, k - 1);
      }
    }
  }

  /** Every one of the first k ids is stored. */
  ghost predicate AllTaken(t: Table<NodeId>, ns: nat, size: nat, inc: nat, k: nat)
    requires inc < size
  {
    forall i: nat :: i < k ==> Stored(t, Numeric(ns, Candidate(size, inc, i)))
  }

  lemma SubsetSize(a: set<NodeId>, b: set<NodeId>)
    requires a <= b
    ensures |a| <= |b|
  {
    assert b == a + (b - a);
    assert |b| == |a| + |b - a|;
  }

  /** No more ids can be taken than there are nodes. */
  lemma TakenBound(t: Table<NodeId>, hash: NodeId -> nat, ns: nat, inc: nat, k: nat)
    requires TableInv(t, hash) && SmallSize(|t|) && 0 < inc < |t| && k <= |t|
    requires AllTaken(t, ns, |t|, inc, k)
    ensures k <= Live(t)
  {
    TriedCount(ns, |t|, inc, k);
    KeysCount(t);
    forall id | id in Tried(ns, |t|, inc, k)
      ensures id in Keys(t)
    {
      TriedMembers(ns, |t|, inc, k, id);
      KeysMembers(t, id);
    }
    SubsetSize(Tried(ns, |t|, inc, k), Keys(t));
  }

  /** id is the first candidate that is not stored; at most one more is tried than nodes exist. */
  ghost predicate IsFresh(t: Table<NodeId>, ns: nat, inc: nat, id: NodeId) {
    && inc < |t| && !Stored(t, id)
    && exists k: nat :: k <= Live(t) && id == Numeric(ns, Candidate(|t|, inc, k)) && AllTaken(t, ns, |t|, inc, k)
  }
}
