/** The PCG32 generator of deps/pcg_basic.c: a 64-bit linear congruential state with an
    output permutation. State arithmetic is modulo 2^64. */
module Pcg {
  import opened NumberTheory

  const MULT: int := 6364136223846793005
  const TWO64: int := 0x1_0000_0000_0000_0000

  type Word = x: int | 0 <= x < TWO64

  // ------------------------------------------------------------------ the generator

  function Next(state: Word, inc: Word): (r: Word) {
    (state * MULT + inc) % TWO64
  }

  /** State after n calls. */
  function StateAfter(n: nat, state: Word, inc: Word): (r: Word) {
    if n == 0 then state else Next(StateAfter(n - 1, state, inc), inc)
  }

  /** The rotation, as written: both shifts stay below the width, also for rot == 0. */
  function Rotate(x: bv32, rot: bv32): (r: bv32)
    requires rot < 32
    ensures rot == 0 ==> r == x
    ensures rot != 0 ==> (r << rot) | (r >> (32 - rot)) == x
  {
    (x >> rot) | (x << ((!rot + 1) & 31))
  }

  /** The word that is rotated, as written: the upper half is cut off by the cast. */
  function XorShifted(w: bv64): bv32 {
    ((((w >> 18) ^ w) >> 27) & 0xFFFF_FFFF) as bv32
  }

  function Top5(w: bv64): (r: bv32)
    ensures r < 32
  {
    (w >> 59) as bv32
  }

  /** The output of a state: rotated to the right by its top five bits. */
  function Output(w: Word): bv32 {
    Rotate(XorShifted(w as bv64), Top5(w as bv64))
  }

  /** The rotation count is the state divided by 2^59. */
  lemma TopFiveBits(w: bv64)
    ensures Top5(w) as bv64 == w / 0x800_0000_0000_0000
  {
  }

  /** The rotated word is bits 27 to 58 of the state, xor-ed with the bits 18 places above
      them; no other bit of the state gets into it. */
  lemma XorShiftedFields(w: bv64)
    ensures XorShifted(w) == ((w >> 27) & 0xFFFF_FFFF) as bv32 ^ ((w >> 45) & 0xFFFF_FFFF) as bv32
  {
  }

  class Pcg32 {
    var state: Word
    var inc: Word

    constructor (s: Word, i: Word)
      ensures state == s && inc == i
    {
      state, inc := s, i;
    }

    /** One draw: the state moves by one congruential step and the stream selector stays. */
    method Random() returns (out: bv32)
      modifies this
      ensures state == (old(state) * 6364136223846793005 + inc) % 0x1_0000_0000_0000_0000 && inc == old(inc)
      ensures state == Next(old(state), inc) && out == Output(old(state))
    {
      var oldstate := state;
      state := (oldstate * MULT + inc) % TWO64;
      out := Output(oldstate);
    }

    /** Seeding makes the increment odd, whatever the sequence number. */
    method Seed(initialState: Word, initseq: Word)
      modifies this
      ensures inc % 2 == 1
      ensures inc == (2 * initseq + 1) % TWO64
      ensures state == Next((Next(0, inc) + initialState) % TWO64, inc)
    {
      state := 0;
      inc := (initseq * 2) % TWO64 + 1;
      var _ := Random();
      state := (state + initialState) % TWO64;
      var _ := Random();
    }
  }

  // ------------------------------------------------------- the state has full period

  function Pow2(k: nat): (r: int)
    ensures r >= 1
  {
    if k == 0 then 1 else 2 * Pow2(k - 1)
  }

  /** The recurrence over the integers, without reduction. */
  function Iter(n: nat, x: int, c: int): int {
    if n == 0 then x else Iter(n - 1, x, c) * MULT + c
  }

  lemma {:induction false} IterAdd(m: nat, n: nat, x: int, c: int)
    ensures Iter(m + n, x, c) == Iter(m, Iter(n, x, c), c)
  {
    if m > 0 {
      IterAdd(m - 1, n, x, c);
    }
  }

  /** 2^k steps multiply by 1 + 4 * 2^k * Slope(k) and add 2^k * Offset(k). */
  function Slope(k: nat): int {
    if k == 0 then (MULT - 1) / 4
    else var m := Slope(k - 1); m + 2 * Pow2(k - 1) * m * m
  }

  function Offset(k: nat, c: int): int {
    if k == 0 then c else Offset(k - 1, c) * (1 + 2 * Pow2(k - 1) * Slope(k - 1))
  }

  /** The distance covered by 2^k steps from x, in units of 2^k. */
  function Stride(k: nat, x: int, c: int): int {
    Offset(k, c) + 4 * Slope(k) * x
  }

  lemma {:induction false} OffsetOdd(k: nat, c: int)
    requires c % 2 == 1
    ensures Offset(k, c) % 2 == 1
  {
    if k > 0 {
      OffsetOdd(k - 1, c);
      OddProduct(Offset(k - 1, c), Pow2(k - 1) * Slope(k - 1));
      assert 2 * (Pow2(k - 1) * Slope(k - 1)) == 2 * Pow2(k - 1) * Slope(k - 1);
    }
  }

  lemma OddProduct(a: int, b: int)
    requires a % 2 == 1
    ensures (a * (1 + 2 * b)) % 2 == 1
  {
    assert a * (1 + 2 * b) == a + 2 * (a * b);
  }

  lemma EvenShift(o: int, s: int, x: int)
    requires o % 2 == 1
    ensures (o + 4 * s * x) % 2 == 1
  {
    assert 4 * s * x == 2 * (2 * (s * x));
  }

  lemma StrideOdd(k: nat, x: int, c: int)
    requires c % 2 == 1
    ensures Stride(k, x, c) % 2 == 1
  {
    OffsetOdd(k, c);
    EvenShift(Offset(k, c), Slope(k), x);
  }

  lemma {:induction false} PowerOfTwoSteps(k: nat, x: int, c: int)
    ensures Iter(Pow2(k), x, c) == x + Pow2(k) * Stride(k, x, c)
  {
    if k == 0 {
      assert Iter(1, x, c) == Iter(0, x, c) * MULT + c;
      assert MULT == 1 + 4 * Slope(0);
    } else {
      var P, S, O := Pow2(k - 1), Slope(k - 1), Offset(k - 1, c);
      var d := Stride(k - 1, x, c);
      var y := x + P * d;
      PowerOfTwoSteps(k - 1, x, c);
      PowerOfTwoSteps(k - 1, y, c);
      IterAdd(P, P, x, c);
      DoubleStride(P, S, O, x);
    }
  }

  lemma StrideFactor(S: int, O: int, x: int, u: int)
    ensures O * (1 + 2 * u) + 4 * (S + 2 * u * S) * x == (O + 4 * S * x) * (1 + 2 * u)
  {
    assert 4 * (S + 2 * u * S) * x == (4 * S * x) * (1 + 2 * u) by {
      assert 4 * (S + 2 * u * S) * x == 4 * S * x + 8 * u * S * x;
      assert (4 * S * x) * (2 * u) == 8 * u * S * x;
    }
  }

  /** The algebra of one doubling. */
  lemma DoubleStride(P: int, S: int, O: int, x: int)
    ensures var d := O + 4 * S * x;
            var y := x + P * d;
            y + P * (O + 4 * S * y)
            == x + (2 * P) * (O * (1 + 2 * P * S) + 4 * (S + 2 * P * S * S) * x)
  {
    var d := O + 4 * S * x;
    var y := x + P * d;
    var u := P * S;
    assert 4 * S * y == 4 * S * x + 4 * u * d by {
      assert S * (P * d) == (P * S) * d;
    }
    assert 2 * P * S == 2 * u && 2 * P * S * S == 2 * u * S;
    StrideFactor(S, O, x, u);
    assert O + 4 * S * y == d + 4 * (u * d);
    TwoMoves(P, x, d, u);
  }

  lemma TwoMoves(P: int, x: int, d: int, u: int)
    ensures x + P * d + P * (d + 4 * (u * d)) == x + (2 * P) * (d * (1 + 2 * u))
  {
    var v := u * d;
    assert d * (1 + 2 * u) == d + 2 * v;
    assert P * (d + 4 * v) == P * d + 4 * (P * v);
    assert (2 * P) * (d + 2 * v) == 2 * (P * d) + 4 * (P * v);
  }

  /** y is x moved by a multiple of P of the parity of j. */
  ghost predicate Moved(x: int, y: int, P: int, j: int) {
    exists e :: y == x + Scaled(P, e) && e % 2 == j % 2
  }

  function Scaled(P: int, e: int): int { P * e }

  lemma MovedOnce(x: int, y: int, z: int, P: int, j: int)
    requires Moved(x, y, P, j) && Moved(y, z, P, 1)
    ensures Moved(x, z, P, j + 1)
  {
    var e :| y == x + Scaled(P, e) && e % 2 == j % 2;
    var d :| z == y + Scaled(P, d) && d % 2 == 1;
    ScaledSum(P, e, d);
    ParitySum(e, d, j);
  }

  lemma ScaledSum(P: int, e: int, d: int)
    ensures Scaled(P, e) + Scaled(P, d) == Scaled(P, e + d)
  {
  }

  lemma ParitySum(e: int, d: int, j: int)
    requires e % 2 == j % 2 && d % 2 == 1
    ensures (e + d) % 2 == (j + 1) % 2
  {
  }

  lemma OneBlock(k: nat, x: int, c: int)
    requires c % 2 == 1
    ensures Moved(x, Iter(Pow2(k), x, c), Pow2(k), 1)
  {
    PowerOfTwoSteps(k, x, c);
    StrideOdd(k, x, c);
    assert Iter(Pow2(k), x, c) == x + Scaled(Pow2(k), Stride(k, x, c));
  }

  /** j blocks of 2^k steps move by 2^k times a number of the parity of j. */
  lemma {:induction false} BlockSteps(k: nat, j: nat, x: int, c: int)
    requires c % 2 == 1
    ensures Scaled(Pow2(k), j) >= 0 && Moved(x, Iter(Scaled(Pow2(k), j), x, c), Pow2(k), j)
  {
    var P := Pow2(k);
    assert Scaled(P, 0) == 0;
    if j == 0 {
      assert x == x + Scaled(P, 0);
    } else {
      BlockSteps(k, j - 1, x, c);
      var n := Scaled(P, j - 1);
      assert Scaled(P, j) == P + n;
      IterAdd(P, n, x, c);
      OneBlock(k, Iter(n, x, c), c);
      MovedOnce(x, Iter(n, x, c), Iter(P + n, x, c), P, j - 1);
    }
  }

  /** Every positive number is a power of two times an odd number. */
  lemma {:induction false} OddPart(n: nat) returns (k: nat, m: nat)
    requires n > 0
    ensures n == Pow2(k) * m && m % 2 == 1
  {
    if n % 2 == 1 {
      k, m := 0, n;
    } else {
      k, m := OddPart(n / 2);
      assert Pow2(k + 1) == 2 * Pow2(k);
      assert n == 2 * (Pow2(k) * m) == Pow2(k + 1) * m;
      k := k + 1;
    }
  }

  lemma {:induction false} Pow2Monotone(i: nat, j: nat)
    requires i <= j
    ensures Pow2(i) <= Pow2(j)
    decreases j - i
  {
    if i < j {
      Pow2Monotone(i + 1, j);
    }
  }

  lemma {:induction false} Pow2Add(i: nat, j: nat)
    ensures Pow2(i + j) == Pow2(i) * Pow2(j)
  {
    if i > 0 {
      Pow2Add(i - 1, j);
      assert Pow2(i + j) == 2 * Pow2(i + j - 1);
      assert 2 * (Pow2(i - 1) * Pow2(j)) == (2 * Pow2(i - 1)) * Pow2(j);
    }
  }

  lemma Pow2_64()
    ensures Pow2(64) == TWO64
  {
    assert Pow2(8) == 256;
    Pow2Add(8, 8);
    Pow2Add(16, 16);
    Pow2Add(32, 32);
  }

  /** An odd multiple of 2^k is not a multiple of 2^64 when k < 64. */
  lemma OddMultiple(k: nat, e: int)
    requires k < 64 && e % 2 == 1
    ensures (Pow2(k) * e) % TWO64 != 0
  {
    Pow2_64();
    Pow2Add(k, 64 - k);
    Pow2Add(1, 63 - k);
    OddTimes(Pow2(k), Pow2(63 - k), e);
  }

  lemma OddTimes(P: int, Q: int, e: int)
    requires P >= 1 && Q >= 1 && P * (2 * Q) >= 1 && e % 2 == 1
    ensures (P * e) % (P * (2 * Q)) != 0
  {
    if (P * e) % (P * (2 * Q)) == 0 {
      var q := MultipleOf(P * e, P * (2 * Q));
      Reorder(q, P, Q);
      CancelFactor(P, e, 2 * (Q * q));
    }
  }

  lemma Reorder(q: int, P: int, Q: int)
    ensures q * (P * (2 * Q)) == P * (2 * (Q * q))
  {
    var u := Q * q;
    assert q * (P * (2 * Q)) == P * (q * (2 * Q));
    assert q * (2 * Q) == 2 * u;
  }

  lemma CancelFactor(p: int, a: int, b: int)
    requires p > 0 && p * a == p * b
    ensures a == b
  {
    assert p * (a - b) == 0;
  }

  /** Fewer than 2^64 steps never return to the same state. */
  lemma NoEarlyReturn(n: nat, x: int, c: int)
    requires c % 2 == 1 && 0 < n < TWO64
    ensures (Iter(n, x, c) - x) % TWO64 != 0
  {
    var k, m := OddPart(n);
    Pow2_64();
    assert k < 64 by {
      assert Pow2(k) * m >= Pow2(k);
      if k >= 64 {
        Pow2Monotone(64, k);
      }
    }
    BlockSteps(k, m, x, c);
    var e :| Iter(n, x, c) == x + Scaled(Pow2(k), e) && e % 2 == m % 2;
    OddMultiple(k, e);
  }

  /** The generator's state is the unreduced recurrence, reduced. */
  lemma {:induction false} StateIsIter(n: nat, s: Word, inc: Word)
    ensures StateAfter(n, s, inc) == Iter(n, s, inc) % TWO64
  {
    if n > 0 {
      StateIsIter(n - 1, s, inc);
      var y := Iter(n - 1, s, inc);
      var q := y / TWO64;
      assert y * MULT + inc == (y % TWO64) * MULT + inc + (q * MULT) * TWO64;
      ModShift((y % TWO64) * MULT + inc, TWO64, q * MULT);
    }
  }

  lemma EqualStatesDiffer(a: int, b: int)
    requires a % TWO64 == b % TWO64
    ensures (a - b) % TWO64 == 0
  {
    DivModUnique(a - b, TWO64, a / TWO64 - b / TWO64, 0);
  }

  /** The first 2^64 states from any start are pairwise different. */
  lemma StatesDistinct(i: nat, j: nat, s: Word, inc: Word)
    requires inc % 2 == 1 && i < j < TWO64
    ensures StateAfter(i, s, inc) != StateAfter(j, s, inc)
  {
    StateIsIter(i, s, inc);
    StateIsIter(j, s, inc);
    IterAdd(j - i, i, s, inc);
    NoEarlyReturn(j - i, Iter(i, s, inc), inc);
    if StateAfter(i, s, inc) == StateAfter(j, s, inc) {
      EqualStatesDiffer(Iter(j, s, inc), Iter(i, s, inc));
    }
  }

  lemma MovedByModulus(x: int, y: int, m: int)
    requires m > 0 && Moved(x, y, m, 1)
    ensures y % m == x % m
  {
    var d :| y == x + Scaled(m, d);
    ModShift(x, m, d);
    assert d * m == Scaled(m, d);
  }

  /** After 2^64 draws the state is the start again. */
  lemma ReturnsAfterPeriod(k: nat, s: Word, inc: Word)
    requires inc % 2 == 1 && Pow2(k) == TWO64
    ensures StateAfter(Pow2(k), s, inc) == s
  {
    BlockReturns(k, s, inc);
    StateIsIter(Pow2(k), s, inc);
    SmallRemainder(Iter(Pow2(k), s, inc), Pow2(k), s);
  }

  lemma SmallRemainder(y: int, p: int, s: Word)
    requires p == TWO64 && y % p == s % p
    ensures y % TWO64 == s
  {
  }

  /** 2^k steps come back to the same number modulo 2^k. */
  lemma BlockReturns(k: nat, x: int, c: int)
    requires c % 2 == 1
    ensures Iter(Pow2(k), x, c) % Pow2(k) == x % Pow2(k)
  {
    OneBlock(k, x, c);
    MovedByModulus(x, Iter(Pow2(k), x, c), Pow2(k));
  }

  /** The period is exactly 2^64: the state comes back after 2^64 draws and not before. */
  lemma FullPeriod(period: nat, s: Word, inc: Word)
    requires inc % 2 == 1 && period == TWO64
    ensures StateAfter(period, s, inc) == s
    ensures forall n: nat :: 0 < n < period ==> StateAfter(n, s, inc) != s
  {
    Pow2_64();
    ReturnsAfterPeriod(64, s, inc);
    forall n: nat | 0 < n < period
      ensures StateAfter(n, s, inc) != s
    {
      StatesDistinct(0, n, s, inc);
    }
  }

  /** From any state the generator passes through every one of the 2^64 states. */
  lemma EveryStateReached(s: Word, inc: Word, target: Word)
    requires inc % 2 == 1
    ensures exists n: nat :: n < TWO64 && StateAfter(n, s, inc) == target
  {
    var f := i => if i < 0 then 0 else StateAfter(i, s, inc);
    forall i, j | 0 <= i < j < TWO64
      ensures f(i) != f(j)
    {
      StatesDistinct(i, j, s, inc);
    }
    InjectiveIsOnto(f, TWO64, target);
    var n :| 0 <= n < TWO64 && f(n) == target;
    assert StateAfter(n, s, inc) == target;
  }
}
