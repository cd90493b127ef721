/** Modular arithmetic behind the probe sequences of the nodestore hash map. */
module NumberTheory {

  ghost predicate Divides(d: int, n: int)
    requires d != 0
  {
    n % d == 0
  }

  ghost predicate IsPrime(p: int) {
    p >= 2 && forall d :: 2 <= d < p ==> !Divides(d, p)
  }

  /** Quotient and remainder are unique. */
  lemma DivModUnique(x: int, m: int, q: int, r: int)
    requires m > 0 && 0 <= r < m && x == q * m + r
    ensures x / m == q && x % m == r
  {
    var k := x / m - q;
    assert k * m == r - x % m by {
      assert x == m * (x / m) + x % m;
      assert k * m == m * (x / m) - q * m;
    }
    assert k >= 1 ==> k * m >= m;
    assert k <= -1 ==> k * m <= -m;
  }

  /** Adding a multiple of the modulus changes nothing. */
  lemma ModShift(x: int, m: int, k: int)
    requires m > 0
    ensures (x + k * m) % m == x % m
  {
    assert x + k * m == (x / m + k) * m + x % m;
    DivModUnique(x + k * m, m, x / m + k, x % m);
  }

  lemma MulMonotone(a: int, b: int, c: nat)
    requires a <= b
    ensures a * c <= b * c
  {
    assert (b - a) * c >= 0;
  }

  lemma DivMonotone(x: nat, y: nat, m: nat)
    requires x <= y && m > 0
    ensures x / m <= y / m
  {
    if y / m < x / m {
      MulMonotone(y / m + 1, x / m, m);
    }
  }

  /** The quotient of an exact division. */
  lemma MultipleOf(x: int, m: int) returns (k: int)
    requires m > 0 && x % m == 0
    ensures x == k * m
  {
    k := x / m;
  }

  /** One wrap-around step of an index below m, as the probe loops do it. */
  lemma ModStep(x: int, s: int, m: int)
    requires m > 0 && 0 <= s < m
    ensures var y := x % m + s; (x + s) % m == (if y >= m then y - m else y)
  {
    var y := x % m + s;
    var q := x / m;
    if y >= m {
      assert x + s == (q + 1) * m + (y - m);
      DivModUnique(x + s, m, q + 1, y - m);
    } else {
      assert x + s == q * m + y;
      DivModUnique(x + s, m, q, y);
    }
  }

  lemma Descent(p: int, a: int, b: int, q: int, r: int, k: int)
    requires p == q * a + r && a * b == k * p
    ensures r * b == (b - q * k) * p
  {
    var c := k * p;
    assert p * b == q * a * b + r * b;
    assert q * a * b == q * c by {
      assert q * a * b == q * (a * b);
    }
    assert (b - q * k) * p == p * b - q * c by {
      assert q * k * p == q * c;
    }
  }

  /** Euclid's lemma for factors below the prime, by descent on a: dividing p by a
      leaves a smaller factor with the same property. */
  lemma {:induction false} NoZeroDivisors(p: int, a: int, b: int)
    requires IsPrime(p) && 0 < a < p && 0 < b < p
    ensures (a * b) % p != 0
    decreases a
  {
    if a == 1 {
      DivModUnique(b, p, 0, b);
    } else {
      var q, r := p / a, p % a;
      assert !Divides(a, p);
      assert 0 < r < a;
      NoZeroDivisors(p, r, b);
      if (a * b) % p == 0 {
        var k := MultipleOf(a * b, p);
        Descent(p, a, b, q, r, k);
        DivModUnique(r * b, p, b - q * k, 0);
      }
    }
  }

  /** Two points of an arithmetic progression with step s modulo a prime coincide only
      when they are a whole number of rounds apart. */
  lemma ProgressionInjective(p: int, x: int, s: int, i: int, j: int)
    requires IsPrime(p) && 0 < s < p && 0 <= i < j < i + p
    ensures (x + i * s) % p != (x + j * s) % p
  {
    NoZeroDivisors(p, j - i, s);
    if (x + i * s) % p == (x + j * s) % p {
      var k := (x + j * s) / p - (x + i * s) / p;
      assert (j - i) * s == k * p by {
        assert (j - i) * s == (x + j * s) - (x + i * s);
        assert x + j * s == p * ((x + j * s) / p) + (x + j * s) % p;
        assert x + i * s == p * ((x + i * s) / p) + (x + i * s) % p;
      }
      DivModUnique((j - i) * s, p, k, 0);
    }
  }

  /** After p steps the progression is back at its start. */
  lemma ProgressionPeriod(p: int, x: int, s: int)
    requires p > 0
    ensures (x + p * s) % p == x % p
  {
    ModShift(x, p, s);
  }

  // ------------------------------------------------------------- pigeonhole

  ghost function Below(n: nat): (r: set<int>) {
    if n == 0 then {} else Below(n - 1) + {n - 1}
  }

  lemma {:induction false} BelowMembers(n: nat, x: int)
    ensures x in Below(n) <==> 0 <= x < n
  {
    if n > 0 {
      BelowMembers(n - 1, x);
    }
  }

  lemma {:induction false} BelowSize(n: nat)
    ensures |Below(n)| == n
  {
    if n > 0 {
      BelowSize(n - 1);
      BelowMembers(n - 1, n - 1);
    }
  }

  /** f maps the numbers below n into themselves, no two to the same. */
  ghost predicate InjectiveBelow(f: int -> int, n: nat) {
    && (forall i :: 0 <= i < n ==> 0 <= f(i))
    && (forall i, j :: 0 <= i < j < n ==> f(i) != f(j))
  }

  ghost function Image(f: int -> int, n: nat): set<int> {
    if n == 0 then {} else Image(f, n - 1) + {f(n - 1)}
  }

  lemma {:induction false} ImageMembers(f: int -> int, n: nat, y: int)
    ensures y in Image(f, n) <==> exists i :: 0 <= i < n && f(i) == y
  {
    if n > 0 {
      ImageMembers(f, n - 1, y);
    }
  }

  lemma {:induction false} ImageSize(f: int -> int, n: nat)
    requires InjectiveBelow(f, n)
    ensures |Image(f, n)| == n
  {
    if n > 0 {
      ImageSize(f, n - 1);
      ImageMembers(f, n - 1, f(n - 1));
    }
  }

  lemma SubsetOfSameSize(a: set<int>, b: set<int>)
    requires a <= b && |a| == |b|
    ensures a == b
  {
    assert |b - a| == |b| - |a|;
    assert b == a + (b - a);
  }

  /** An injective map of a finite range into itself reaches every number of the range. */
  lemma InjectiveIsOnto(f: int -> int, n: nat, y: int)
    requires InjectiveBelow(f, n) && (forall i :: 0 <= i < n ==> f(i) < n) && 0 <= y < n
    ensures exists i :: 0 <= i < n && f(i) == y
  {
    ImageSize(f, n);
    BelowSize(n);
    forall x | x in Image(f, n)
      ensures x in Below(n)
    {
      ImageMembers(f, n, x);
      BelowMembers(n, x);
    }
    SubsetOfSameSize(Image(f, n), Below(n));
    BelowMembers(n, y);
    ImageMembers(f, n, y);
  }
}
