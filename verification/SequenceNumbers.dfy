/** The receive-side check of symmetric sequence numbers (src/ua_securechannel.c). */
module SequenceNumbers {
  import opened Bytes

  const ROLLOVER_FROM: int := 4294966271
  const ROLLOVER_TO: int := 1024

  /** Is s accepted when r was the last number accepted? */
  predicate Accepts(r: uint32, s: uint32) {
    || s == (r + 1) % TWO32
    || ((r + 1) % TWO32 > ROLLOVER_FROM && s < ROLLOVER_TO)
  }

  /** Consecutive accepted numbers; a[0] is the number accepted before the run. */
  ghost predicate AcceptedRun(a: seq<uint32>) {
    forall i :: 0 <= i < |a| - 1 ==> Accepts(a[i], a[i + 1])
  }

  /** How far an accepted number is ahead, with wrap-around. */
  function Advance(r: uint32, s: uint32): int {
    if s > r then s - r else s - r + TWO32
  }

  /** The last number of a run, counted without wrap-around. */
  function Unwrapped(a: seq<uint32>): int
    requires |a| > 0
  {
    if |a| == 1 then a[0]
    else Unwrapped(a[..|a| - 1]) + Advance(a[|a| - 2], a[|a| - 1])
  }

  /** A run gains more than one per chunk only when it crosses a multiple of 2^32, and then
      at most 2047 more. */
  lemma {:induction false} RunGain(a: seq<uint32>) returns (wraps: nat)
    requires |a| > 0 && AcceptedRun(a)
    ensures Unwrapped(a) == wraps * TWO32 + a[|a| - 1]
    ensures Unwrapped(a) - a[0] <= (|a| - 1) + 2047 * wraps
    ensures |a| > 1 ==> Unwrapped(a) > a[0]
  {
    if |a| == 1 {
      wraps := 0;
    } else {
      var b := a[..|a| - 1];
      wraps := RunGain(b);
      var r, s := a[|a| - 2], a[|a| - 1];
      assert Accepts(r, s) && b[|b| - 1] == r;
      if s <= r {
        wraps := wraps + 1;
      }
    }
  }

  /** No replay: a number accepted once is accepted again only after at least
      2^32 - 2047 = 4294965249 chunks. */
  lemma NoEarlyReplay(a: seq<uint32>, i: nat, j: nat)
    requires AcceptedRun(a) && i < j < |a| && a[i] == a[j]
    ensures j - i >= 4294965249
  {
    var b := a[i..j + 1];
    forall k | 0 <= k < |b| - 1
      ensures Accepts(b[k], b[k + 1])
    {
      assert b[k] == a[i + k] && b[k + 1] == a[i + k + 1];
    }
    var wraps := RunGain(b);
    assert wraps * TWO32 <= (j - i) + 2047 * wraps;
    assert wraps >= 1;
  }

  /** The distance is reached: counting up from 1024 and rolling over as early and as far
      as allowed. */
  lemma ReplayBoundIsTight() returns (a: seq<uint32>)
    ensures AcceptedRun(a) && |a| == 4294965250 && a[0] == a[4294965249]
  {
    a := seq(4294965250, i requires 0 <= i < 4294965250 =>
      if i < 4294965248 then 1024 + i else i - 4294965248 + 1023);
    forall i | 0 <= i < |a| - 1
      ensures Accepts(a[i], a[i + 1])
    {
      if i == 4294965247 {
        assert a[i] == ROLLOVER_FROM && a[i + 1] == 1023;
      }
    }
  }

  /** Out of order, exactly the numbers up to 1023 are accepted, and only behind one of the
      last numbers before the wrap. */
  lemma RollOverWindow(r: uint32, s: uint32)
    ensures Accepts(r, s) <==>
      || s == r + 1
      || (r == 4294967295 && s == 0)
      || (4294966271 <= r <= 4294967294 && s <= 1023)
  {
  }

  /** A sender that counts by one modulo 2^32 is never rejected. */
  lemma CountingSenderAccepted(start: uint32, k: nat)
    ensures Accepts((start + k) % TWO32, (start + k + 1) % TWO32)
  {
    assert ((start + k) % TWO32 + 1) % TWO32 == (start + k + 1) % TWO32;
  }
}
