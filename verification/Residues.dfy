/** Powers modulo m: orders, and primes that are too large for trial division. */
module Residues {
  import opened Arithmetic
  import opened Lehmer
  import opened Primes

  // ---------- products and powers modulo m ----------

  lemma MulMod(x: nat, y: nat, m: nat)
    requires m > 0
    ensures (x * y) % m == ((x % m) * (y % m)) % m
  {
    ModMul(m, x, y);
    ModMul(m, y % m, x);
    assert x * (y % m) == (y % m) * x && (y % m) * (x % m) == (x % m) * (y % m);
  }

  lemma {:induction false} PowAdd(a: nat, j: nat, k: nat)
    ensures Pow(a, j + k) == Pow(a, j) * Pow(a, k)
  {
    if j > 0 {
      PowAdd(a, j - 1, k);
      assert a * (Pow(a, j - 1) * Pow(a, k)) == (a * Pow(a, j - 1)) * Pow(a, k);
    }
  }

  lemma {:induction false} PowPow(a: nat, j: nat, k: nat)
    ensures Pow(a, j * k) == Pow(Pow(a, j), k)
  {
    if k == 0 {
      assert j * k == 0;
    } else {
      PowPow(a, j, k - 1);
      assert j * k == j + j * (k - 1);
      PowAdd(a, j, j * (k - 1));
    }
  }

  lemma {:induction false} PowBase(x: nat, k: nat, m: nat)
    requires m > 0
    ensures Pow(x % m, k) % m == Pow(x, k) % m
  {
    if k > 0 {
      PowBase(x, k - 1, m);
      MulMod(x, Pow(x, k - 1), m);
      MulMod(x % m, Pow(x % m, k - 1), m);
      assert (x % m) % m == x % m by { ModUnique(m, 0, x % m, x % m); }
    }
  }

  /** Powers by squaring. */
  function PowMod(a: nat, k: nat, m: nat): (r: nat)
    requires m > 0
    ensures r < m
  {
    if k == 0 then 1 % m
    else
      var h := PowMod(a, k / 2, m);
      if k % 2 == 0 then (h * h) % m else (((h * h) % m) * a) % m
  }

  lemma {:induction false} PowModIs(a: nat, k: nat, m: nat)
    requires m > 0
    ensures PowMod(a, k, m) == Pow(a, k) % m
  {
    if k > 0 {
      var j := k / 2;
      PowModIs(a, j, m);
      PowAdd(a, j, j);
      MulMod(Pow(a, j), Pow(a, j), m);
      if k % 2 == 1 {
        PowAdd(a, 2 * j, 1);
        assert Pow(a, 1) == a;
        ModMul(m, a, Pow(a, 2 * j));
        assert a * (Pow(a, 2 * j) % m) == (Pow(a, 2 * j) % m) * a;
      }
    }
  }

  // ---------- exponents with power 1 ----------

  predicate IsOne(a: nat, k: nat, m: nat)
    requires m > 0
  {
    Pow(a, k) % m == 1
  }

  lemma OneShift(a: nat, j: nat, k: nat, m: nat)
    requires m > 1 && IsOne(a, j, m)
    ensures IsOne(a, j + k, m) <==> IsOne(a, k, m)
  {
    PowAdd(a, j, k);
    MulMod(Pow(a, j), Pow(a, k), m);
    ModUnique(m, 0, Pow(a, k) % m, Pow(a, k) % m);
  }

  lemma {:induction false} OneMultiple(a: nat, k: nat, t: nat, m: nat)
    requires m > 1 && IsOne(a, k, m)
    ensures IsOne(a, k * t, m)
  {
    if t == 0 {
      assert Pow(a, k * t) == 1;
    } else {
      OneMultiple(a, k, t - 1, m);
      assert k * t == k + k * (t - 1);
      OneShift(a, k, k * (t - 1), m);
    }
  }

  /** The exponents with power 1 are closed under common divisors. */
  lemma {:induction false} OneGcd(a: nat, j: nat, k: nat, m: nat) returns (g: nat)
    requires m > 1 && j > 0 && IsOne(a, j, m) && IsOne(a, k, m)
    ensures g > 0 && Divides(g, j) && Divides(g, k) && IsOne(a, g, m)
    decreases k
  {
    hide IsOne, Divides;
    if k == 0 {
      g := j;
      Multiple(j, 1);
      Multiple(j, 0);
    } else {
      var q, r := j / k, j % k;
      OneMultiple(a, k, q, m);
      OneShift(a, k * q, r, m);
      g := OneGcd(a, k, r, m);
      DividesSum(g, k, q, r, j);
    }
  }

  /** Different values of a set are no more than the set has. */
  lemma {:induction false} Pigeonhole(f: seq<nat>, s: set<nat>)
    requires forall i :: 0 <= i < |f| ==> f[i] in s
    requires forall i, j :: 0 <= i < j < |f| ==> f[i] != f[j]
    ensures |f| <= |s|
    decreases |f|
  {
    if f != [] {
      var n := |f| - 1;
      Pigeonhole(f[..n], s - {f[n]});
    }
  }

  /** If some power is 1 modulo s, one with an exponent below s is. */
  lemma SmallOrder(b: nat, s: nat, k: nat) returns (d: nat)
    requires s > 1 && k > 0 && IsOne(b, k, s)
    ensures 0 < d < s && IsOne(b, d, s)
  {
    hide IsOne;
    var f := seq(s, (i: nat) => Pow(b, i) % s);
    forall i | 0 <= i < s ensures f[i] in Interval(1, s) { PowerNotZero(b, s, k, i); }
    if forall i, j :: 0 <= i < j < |f| ==> f[i] != f[j] { Pigeonhole(f, Interval(1, s)); }
    var i, j :| 0 <= i < j < s && f[i] == f[j];
    d := j - i;
    SamePowers(b, s, k, i, d);
  }

  lemma PowerNotZero(b: nat, s: nat, k: nat, i: nat)
    requires s > 1 && k > 0 && IsOne(b, k, s)
    ensures Pow(b, i) % s != 0
  {
    var j := k * i - i;
    assert k * i >= i by { MulMono(1, k, i); }
    OneMultiple(b, k, i, s);
    PowAdd(b, i, j);
    MulMod(Pow(b, i), Pow(b, j), s);
  }

  lemma SamePowers(b: nat, s: nat, k: nat, i: nat, d: nat)
    requires s > 1 && k > 0 && IsOne(b, k, s) && Pow(b, i) % s == Pow(b, i + d) % s
    ensures IsOne(b, d, s)
  {
    var j := k * i - i;
    assert k * i >= i by { MulMono(1, k, i); }
    OneMultiple(b, k, i, s);
    PowAdd(b, j, i);
    PowAdd(b, j, i + d);
    MulMod(Pow(b, j), Pow(b, i), s);
    MulMod(Pow(b, j), Pow(b, i + d), s);
    OneShift(b, k * i, d, s);
  }

  // ---------- primes ----------

  /** A number that a prime does not divide, but that divides a multiple of the prime, divides the cofactor. */
  lemma EuclidPrime(g: nat, f: nat, c: nat)
    requires IsPrime(f) && g > 0 && !Divides(f, g) && Divides(g, f * c)
    ensures Divides(g, c)
  {
    hide Divides, IsPrime;
    PrimeAtLeastTwo(f);
    var d, x, y := Bezout(f, g);
    if d != 1 { Quotients(d, f); }
    var t := Quotient(g, f * c);
    Regroup(c, f, g, x, y, t);
    Divisor(g, x * t + y * c, c);
  }

  lemma Regroup(c: int, f: int, g: int, x: int, y: int, t: int)
    requires x * f + y * g == 1 && f * c == g * t
    ensures c == g * (x * t + y * c)
  {
    assert c == (x * f + y * g) * c;
    assert (x * f + y * g) * c == x * (f * c) + y * (g * c);
    assert x * (g * t) == g * (x * t) && y * (g * c) == g * (y * c);
  }

  lemma EuclidBelow(g: nat, f: nat, c: nat)
    requires IsPrime(f) && 0 < g < f && Divides(g, f * c)
    ensures Divides(g, c)
  {
    ModUnique(f, 0, g, g);
    EuclidPrime(g, f, c);
  }

  lemma Divisor(g: nat, z: int, c: nat)
    requires g > 0 && c == g * z
    ensures Divides(g, c)
  {
    ModUnique(g, z, 0, c);
  }

  lemma NoCommon(d: nat, f: nat, g: nat)
    requires IsPrime(f) && 0 < g < f && d > 0 && Divides(d, f) && Divides(d, g)
    ensures d == 1
  {
    if d != 1 {
      Quotients(d, f);
      ModUnique(f, 0, g, g);
    }
  }

  lemma ModOfMod(x: nat, n: nat, s: nat)
    requires n > 0 && s > 0 && Divides(s, n)
    ensures (x % n) % s == x % s
  {
    var t := Quotient(s, n);
    var q := x / n;
    assert x == s * (t * q) + x % n by { assert n * q == s * (t * q); }
    ModAdd(s, t * q, x % n);
  }

  /** A number is prime if no divisor up to the square root exists; here none does because the order of b
      modulo such a divisor would be too small for it.  n - 1 has the large prime factor f, and b^(n - 1) is 1
      modulo n while b^c - 1 has the inverse u. */
  lemma LargePrime(n: nat, f: nat, c: nat, b: nat, u: nat)
    requires IsPrime(f) && c > 0 && n == f * c + 1 && f * f > n
    requires PowMod(b, n - 1, n) == 1 && (u * (PowMod(b, c, n) + n - 1)) % n == 1
    ensures IsPrime(n)
  {
    hide Divides, PowMod;
    PowModIs(b, n - 1, n);
    PowModIs(b, c, n);
    IsqrtBelow(n, f);
    forall s: nat | 2 <= s < n ensures !Divides(s, n) {
      if Divides(s, n) {
        var t := SmallDivisor(s, n, Isqrt(n));
        NoSmallDivisor(n, f, c, b, u, t);
      }
    }
  }

  /** The same where two prime factors of n - 1 are large together. */
  lemma LargePrimeTwo(n: nat, f: nat, c: nat, f2: nat, c2: nat, b: nat, u: nat, u2: nat)
    requires IsPrime(f) && c > 0 && n == f * c + 1 && IsPrime(f2) && c2 > 0 && n == f2 * c2 + 1
    requires f < f2 && (f * f2) * (f * f2) > n
    requires PowMod(b, n - 1, n) == 1
    requires (u * (PowMod(b, c, n) + n - 1)) % n == 1 && (u2 * (PowMod(b, c2, n) + n - 1)) % n == 1
    ensures IsPrime(n)
  {
    hide Divides, PowMod;
    PowModIs(b, n - 1, n);
    PowModIs(b, c, n);
    PowModIs(b, c2, n);
    IsqrtBelow(n, f * f2);
    forall s: nat | 2 <= s < n ensures !Divides(s, n) {
      if Divides(s, n) {
        var t := SmallDivisor(s, n, Isqrt(n));
        NoSmallDivisorTwo(n, f, c, f2, c2, b, u, u2, t);
      }
    }
  }

  /** An exponent with power 1 modulo a divisor of n is a multiple of f. */
  lemma FactorOfExponent(n: nat, f: nat, c: nat, b: nat, u: nat, s: nat, g: nat)
    requires IsPrime(f) && c > 0 && n == f * c + 1 && s >= 2 && Divides(s, n)
    requires (u * (Pow(b, c) % n + n - 1)) % n == 1
    requires g > 0 && Divides(g, n - 1) && IsOne(b, g, s)
    ensures Divides(f, g)
  {
    hide Divides, IsPrime;
    if !Divides(f, g) {
      EuclidPrime(g, f, c);
      var t := Quotient(g, c);
      OneMultiple(b, g, t, s);
      NotOne(n, s, b, c, u);
    }
  }

  /** A small exponent that divides n - 1. */
  lemma SmallExponent(n: nat, b: nat, s: nat) returns (g: nat)
    requires n > 1 && s >= 2 && Divides(s, n) && Pow(b, n - 1) % n == 1
    ensures 0 < g < s && Divides(g, n - 1) && IsOne(b, g, s)
  {
    hide Divides;
    ModOfMod(Pow(b, n - 1), n, s);
    ModUnique(s, 0, 1, 1);
    var d := SmallOrder(b, s, n - 1);
    g := OneGcd(b, d, n - 1, s);
    DivisorAtMost(g, d);
  }

  lemma NoSmallDivisor(n: nat, f: nat, c: nat, b: nat, u: nat, s: nat)
    requires IsPrime(f) && c > 0 && n == f * c + 1 && 2 <= s < f
    requires Pow(b, n - 1) % n == 1 && (u * (Pow(b, c) % n + n - 1)) % n == 1
    ensures !Divides(s, n)
  {
    hide Divides, IsPrime;
    if Divides(s, n) {
      var g := SmallExponent(n, b, s);
      FactorOfExponent(n, f, c, b, u, s, g);
      DivisorAtMost(f, g);
    }
  }

  lemma NoSmallDivisorTwo(n: nat, f: nat, c: nat, f2: nat, c2: nat, b: nat, u: nat, u2: nat, s: nat)
    requires IsPrime(f) && c > 0 && n == f * c + 1 && IsPrime(f2) && c2 > 0 && n == f2 * c2 + 1
    requires f < f2 && 2 <= s < f * f2 && Pow(b, n - 1) % n == 1
    requires (u * (Pow(b, c) % n + n - 1)) % n == 1 && (u2 * (Pow(b, c2) % n + n - 1)) % n == 1
    ensures !Divides(s, n)
  {
    hide Divides, IsPrime;
    if Divides(s, n) {
      var g := SmallExponent(n, b, s);
      FactorOfExponent(n, f, c, b, u, s, g);
      FactorOfExponent(n, f2, c2, b, u2, s, g);
      BothDivide(f, f2, g);
      DivisorAtMost(f * f2, g);
    }
  }

  lemma NotDivided(f: nat, f2: nat)
    requires IsPrime(f) && IsPrime(f2) && f < f2
    ensures !Divides(f, f2)
  {
  }

  lemma BothDivide(f: nat, f2: nat, g: nat)
    requires IsPrime(f) && IsPrime(f2) && f < f2 && Divides(f, g) && Divides(f2, g)
    ensures f * f2 > 0 && Divides(f * f2, g)
  {
    hide Divides;
    var t := Quotient(f, g);
    NotDivided(f, f2);
    EuclidPrime(f2, f, t);
    var r := Quotient(f2, t);
    assert g == (f * f2) * r;
    Divisor(f * f2, r, g);
  }

  lemma DivisorAtMost(g: nat, d: nat)
    requires g > 0 && d > 0 && Divides(g, d)
    ensures g <= d
  {
    if g > d { ModUnique(g, 0, d, d); }
  }

  lemma OneBelow(y: nat, n: nat, s: nat)
    requires s >= 2 && Divides(s, n) && y % s == 1
    ensures (y + n - 1) % s == 0
  {
    var t := Quotient(s, n);
    var z := y / s;
    assert y + n - 1 == s * (z + t);
    ModUnique(s, z + t, 0, y + n - 1);
  }

  lemma NoInverse(u: nat, z: nat, n: nat, s: nat)
    requires n > 0 && s >= 2 && Divides(s, n) && z % s == 0
    ensures (u * z) % n != 1
  {
    ModOfMod(u * z, n, s);
    ModMul(s, u, z);
    assert u * (z % s) == 0;
    ModUnique(s, 0, 1, 1);
  }

  lemma NotOne(n: nat, s: nat, b: nat, c: nat, u: nat)
    requires n > 0 && s >= 2 && Divides(s, n) && (u * (Pow(b, c) % n + n - 1)) % n == 1
    ensures !IsOne(b, c, s)
  {
    hide Divides, Pow;
    var y := Pow(b, c) % n;
    ModOfMod(Pow(b, c), n, s);
    if y % s == 1 {
      OneBelow(y, n, s);
      NoInverse(u, y + n - 1, n, s);
    }
  }
}
