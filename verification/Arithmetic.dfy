/** Facts about products and remainders that the solver does not find on its own. */
module Arithmetic {
  lemma MulMono(x: nat, y: nat, z: nat)
    requires x <= y
    ensures x * z <= y * z
  {
  }

  lemma ModAdd(p: nat, k: int, x: int)
    requires p > 0
    ensures (p * k + x) % p == x % p
  {
    var q := x / p;
    assert p * k + x == p * (k + q) + x % p;
    ModUnique(p, k + q, x % p, p * k + x);
  }

  lemma Multiples(p: nat, d: int)
    ensures d >= 1 ==> p * d >= p
    ensures d <= -1 ==> p * d + p <= 0
  {
    if d >= 1 {
      MulMono(1, d, p);
    } else if d <= -1 {
      var e: nat := -d;
      MulMono(1, e, p);
      assert p * d == -(e * p);
    }
  }

  lemma ModUnique(p: nat, q: int, r: int, x: int)
    requires p > 0 && 0 <= r < p && x == p * q + r
    ensures x % p == r && x / p == q
  {
    assert p * (x / p - q) == r - x % p;
    Multiples(p, x / p - q);
  }

  lemma ModMul(p: nat, a: nat, x: nat)
    requires p > 0
    ensures (a * (x % p)) % p == (a * x) % p
  {
    var q := x / p;
    assert a * x == a * (p * q + x % p) == a * (p * q) + a * (x % p);
    assert a * (p * q) == p * (a * q);
    ModAdd(p, a * q, a * (x % p));
  }

  /** Remainder modulo an even number. */
  lemma HalfMod(x: nat, t: nat)
    requires t > 0
    ensures x % (2 * t) == x % 2 + 2 * ((x / 2) % t)
  {
    var q, r := (x / 2) / t, (x / 2) % t;
    assert x == (2 * t) * q + (2 * r + x % 2) by {
      assert x / 2 == t * q + r;
    }
    ModUnique(2 * t, q, 2 * r + x % 2, x);
  }

  /** a % b by repeated subtraction: for divisors that are not constants this keeps nonlinear
      arithmetic out of the proofs that only pass the remainder on. */
  function Rem(a: nat, b: nat): (r: nat)
    requires b > 0
    ensures r < b
  {
    if a < b then a else Rem(a - b, b)
  }

  lemma {:induction false} RemIsMod(a: nat, b: nat)
    requires b > 0
    ensures Rem(a, b) == a % b
  {
    if a >= b {
      RemIsMod(a - b, b);
      ModAdd(b, 1, a - b);
    }
  }

  /** The numbers from lo up to but not including hi. */
  function Interval(lo: nat, hi: nat): (s: set<nat>)
    requires lo <= hi
    ensures forall x: nat :: x in s <==> lo <= x < hi
    ensures |s| == hi - lo
  {
    if lo == hi then {} else Interval(lo, hi - 1) + {hi - 1}
  }
}
