/** Trial division and the search for stride primes. */
module Primes {
  import opened Arithmetic
  import opened Widths

  const TWO_60: nat := 0x1000_0000_0000_0000
  const GIVE_UP: nat := 18446744073709551557
  const FLOOR: nat := 1009
  const TRIES: nat := 2000

  predicate Divides(d: nat, n: nat)
    requires d > 0
  {
    n % d == 0
  }

  ghost predicate IsPrime(n: nat) {
    n >= 2 && forall d: nat | 2 <= d < n :: !Divides(d, n)
  }

  lemma PrimeAtLeastTwo(p: nat)
    requires IsPrime(p)
    ensures p >= 2
  {
  }

  /** The integer square root. */
  function Isqrt(n: nat): (r: nat)
    ensures r * r <= n < (r + 1) * (r + 1)
  {
    if n == 0 then 0
    else
      var r := Isqrt(n - 1);
      if (r + 1) * (r + 1) <= n then r + 1 else r
  }

  /** What is assumed of 1.0 + sqrt(n) truncated: it may be one more or one less than the exact value. */
  predicate BoundOK(n: nat, max: nat) { Isqrt(n) <= max <= Isqrt(n) + 2 }

  // ---------- divisors ----------

  lemma Quotient(d: nat, n: nat) returns (q: nat)
    requires d > 0 && Divides(d, n)
    ensures n == d * q
  {
    q := n / d;
  }

  lemma Multiple(d: nat, q: nat)
    requires d > 0
    ensures Divides(d, d * q)
  {
    ModUnique(d, q, 0, d * q);
  }

  lemma DividesChain(c: nat, d: nat, n: nat)
    requires c > 0 && d > 0 && Divides(c, d) && Divides(d, n)
    ensures Divides(c, n)
  {
    var e := Quotient(c, d);
    var q := Quotient(d, n);
    assert n == c * (e * q);
    Multiple(c, e * q);
  }

  /** A proper divisor at or below the square root exists if there is a proper divisor at all. */
  lemma SmallDivisor(d: nat, n: nat, r: nat) returns (c: nat)
    requires 2 <= d < n && Divides(d, n) && n < (r + 1) * (r + 1)
    ensures 2 <= c <= r && c < n && Divides(c, n)
  {
    var q := Quotient(d, n);
    if d <= r {
      c := d;
    } else {
      c := q;
      Multiple(q, d);
      Cofactor(d, q, n, r);
    }
  }

  lemma Cofactor(d: nat, q: nat, n: nat, r: nat)
    requires n == d * q && r < d < n < (r + 1) * (r + 1) && d >= 2
    ensures 2 <= q <= r && q < n
  {
    ProductAtLeast(d, q, r + 1, r + 1);
    ProductAtLeast(d, q, 2, n);
    ProductAtMost(d, q);
  }

  lemma ProductAtLeast(d: nat, q: nat, a: nat, b: nat)
    ensures d >= a && q >= b ==> d * q >= a * b
  {
    if d >= a && q >= b {
      MulMono(a, d, b);
      MulMono(b, q, d);
    }
  }

  lemma ProductAtMost(d: nat, q: nat)
    ensures q <= 1 ==> d * q <= d
  {
  }

  /** No divisor from 2 up to but not including i. */
  ghost predicate NoneBelow(n: nat, i: nat) {
    forall d: nat | 2 <= d < i :: !Divides(d, n)
  }

  /** With no divisor up to the square root a number is prime. */
  lemma NoneMeansPrime(n: nat, i: nat)
    requires n >= 2 && NoneBelow(n, i) && Isqrt(n) < i
    ensures IsPrime(n)
  {
    hide Divides;
    forall d: nat | 2 <= d < n ensures !Divides(d, n) {
      if Divides(d, n) {
        var c := SmallDivisor(d, n, Isqrt(n));
      }
    }
  }

  lemma SixMod(d: nat)
    ensures d % 6 != 1 && d % 6 != 5 ==> d % 2 == 0 || d % 3 == 0
  {
    var q, r := d / 6, d % 6;
    ModUnique(2, 3 * q + r / 2, r % 2, d);
    ModUnique(3, 2 * q + r / 3, r % 3, d);
  }

  /** Numbers that are 0, 2, 3 or 4 modulo 6 divide nothing that is coprime to 6. */
  lemma NotCoprime(d: nat, n: nat)
    requires d > 0 && !Divides(2, n) && !Divides(3, n)
    requires d % 6 != 1 && d % 6 != 5
    ensures !Divides(d, n)
  {
    SixMod(d);
    if Divides(d, n) {
      if d % 2 == 0 { DividesChain(2, d, n); } else { DividesChain(3, d, n); }
    }
  }

  lemma NextSix(n: nat, i: nat)
    requires !Divides(2, n) && !Divides(3, n) && i % 6 == 5 && NoneBelow(n, i)
    requires !Divides(i, n) && !Divides(i + 2, n)
    ensures NoneBelow(n, i + 6)
  {
    hide Divides;
    NotCoprime(i + 1, n);
    NotCoprime(i + 3, n);
    NotCoprime(i + 4, n);
    NotCoprime(i + 5, n);
  }

  /** The divisors tried never reach n itself. */
  lemma TriedBelow(n: nat, i: nat, max: nat)
    requires n > 3 && 5 <= i <= max && BoundOK(n, max)
    ensures i + 2 < n
  {
    var r := Isqrt(n);
    if r >= 3 { MulMono(3, r, r); }
  }

  /** stress_prime64_check, given the truncated 1.0 + sqrt(n). */
  method Prime64Check(n: nat, max: nat) returns (prime: bool)
    requires BoundOK(n, max)
    ensures prime <==> IsPrime(n)
  {
    if n <= 3 {
      if n == 3 { assert !Divides(2, 3); }
      return n >= 2;
    }
    if n % 2 == 0 || n % 3 == 0 {
      assert Divides(2, n) || Divides(3, n);
      return false;
    }
    hide Isqrt;
    assert !Divides(2, n) && !Divides(3, n);
    assert NoneBelow(n, 5) by { NotCoprime(4, n); }
    var i := 5;
    while i <= max
      invariant i >= 5 && i % 6 == 5 && NoneBelow(n, i)
    {
      TriedBelow(n, i, max);
      if n % i == 0 || n % (i + 2) == 0 {
        assert Divides(i, n) || Divides(i + 2, n);
        return false;
      }
      NextSix(n, i);
      i := i + 6;
    }
    NoneMeansPrime(n, i);
    return true;
  }

  // ---------- the search ----------

  /** (n & 0x0ffffffffffffffe) + 1 */
  function OddOf(n: nat): (p: nat)
    ensures p % 2 == 1 && p <= TWO_60
  {
    ((n % TWO_60) / 2) * 2 + 1
  }

  /** The low 60 bits, made odd: n | 1 if there are no others, and never more than one away. */
  lemma OddIsNear(n: nat)
    ensures OddOf(n) % 2 == 1 && OddOf(n) - 1 <= n % 0x1000_0000_0000_0000 <= OddOf(n)
  {
  }

  function Start(p: nat, n: nat): (s: nat)
    ensures s >= p && s >= OddOf(n)
  {
    if p < OddOf(n) then OddOf(n) else p
  }

  /** The k-th number tried after p, in 64 bits. */
  function Candidate(p: nat, k: nat): nat { (p + 2 * k) % TWO_64 }

  ghost predicate Good(n: nat, p: nat) { p > 0 && !Divides(p, n) && IsPrime(p) }

  ghost predicate NoneGood(n: nat, p: nat, k: nat) {
    forall m: nat | 1 <= m <= k :: !Good(n, Candidate(p, m))
  }

  /** The k-th candidate is the first that is prime and does not divide n. */
  ghost predicate FirstGood(n: nat, p: nat, k: nat) {
    k >= 1 && NoneGood(n, p, k - 1) && Good(n, Candidate(p, k))
  }

  ghost predicate BoundsOK(bound: nat -> nat) { forall m: nat :: BoundOK(m, bound(m)) }

  /** i < 2000, while the run goes on. */
  function Limit(going: nat): nat { if going < TRIES then going else TRIES }

  lemma CandidateStep(p: nat, k: nat)
    ensures (Candidate(p, k) + 2) % TWO_64 == Candidate(p, k + 1)
    ensures p % 2 == 1 ==> Candidate(p, k) % 2 == 1
  {
    var q := (p + 2 * k) / TWO_64;
    assert p + 2 * (k + 1) == TWO_64 * q + (Candidate(p, k) + 2);
    ModAdd(TWO_64, q, Candidate(p, k) + 2);
  }

  lemma GoodMeans(n: nat, p: nat)
    requires p > 0
    ensures Good(n, p) <==> n % p != 0 && IsPrime(p)
  {
  }

  /** Some try up to the limit is the first good one, and is the result. */
  ghost predicate Finds(n: nat, start: nat, limit: nat, p: nat) {
    exists k: nat :: k <= limit && FirstGood(n, start, k) && p == Candidate(start, k)
  }

  /** What a search may return: the first good number, or the fallback if there is none. */
  ghost predicate Outcome(n: nat, start: nat, limit: nat, fallback: nat, p: nat) {
    Finds(n, start, limit, p) || (NoneGood(n, start, limit) && p == fallback)
  }

  lemma CandidateZero(p: nat)
    requires p < TWO_64
    ensures Candidate(p, 0) == p
  {
  }

  /** The loop of both searches; going is the number of times the continue flag is still found set. */
  method Search(n: nat, start: nat, going: nat, bound: nat -> nat) returns (found: bool, p: nat)
    requires BoundsOK(bound) && start % 2 == 1 && start < TWO_64
    ensures p % 2 == 1 && p < TWO_64
    ensures found ==> Finds(n, start, Limit(going), p)
    ensures !found ==> NoneGood(n, start, Limit(going))
  {
    hide Good, IsPrime, Divides, BoundOK, Candidate;
    p := start;
    var i := 0;
    CandidateZero(start);
    while i < Limit(going)
      invariant 0 <= i <= Limit(going) && p % 2 == 1 && p < TWO_64
      invariant p == Candidate(start, i) && NoneGood(n, start, i)
    {
      CandidateStep(start, i);
      p := (p + 2) % TWO_64;
      GoodMeans(n, p);
      if n % p != 0 {
        var prime := Prime64Check(p, bound(p));
        if prime {
          assert FirstGood(n, start, i + 1);
          return true, p;
        }
      }
      i := i + 1;
    }
    found := false;
  }

  /** stress_prime64_get */
  method Prime64Get(n: nat, going: nat, bound: nat -> nat) returns (p: nat)
    requires BoundsOK(bound)
    ensures Outcome(n, Start(1009, n), Limit(going), 18446744073709551557, p)
  {
    p := FLOOR;
    var oddN := OddOf(n);
    if p < oddN {
      p := oddN;
    }
    var found, q := Search(n, p, going, bound);
    return if found then q else GIVE_UP;
  }

  /** The static p of stress_prime64_next_get. */
  class StridePrimes {
    var p: nat

    ghost predicate Valid()
      reads this
    {
      3 <= p < TWO_64 && p % 2 == 1
    }

    constructor ()
      ensures Valid() && p == 1009
    {
      p := FLOOR;
    }

    /** stress_prime64_next_get */
    method Prime64NextGet(n: nat, going: nat, bound: nat -> nat) returns (r: nat)
      requires Valid() && BoundsOK(bound)
      modifies this
      ensures Valid() && r == p
      ensures Outcome(n, Start(old(p), n), Limit(going), 1009, r)
    {
      hide OddOf;
      var oddN := OddOf(n);
      if p < oddN {
        p := oddN;
      }
      var found, q := Search(n, p, going, bound);
      p := q;
      if !found {
        p := FLOOR;
      } else {
        FoundIsOdd(q);
      }
      r := p;
    }
  }

  // ---------- what the searches deliver ----------

  /** n < 2^60: the lowest 60 bits are the whole number, and the search starts at n or n + 1. */
  lemma StartBelow60(n: nat)
    requires n < TWO_60
    ensures OddOf(n) == if n % 2 == 1 then n else n + 1
  {
  }

  lemma NoWrap(p: nat, k: nat)
    requires p + 2 * k < TWO_64
    ensures Candidate(p, k) == p + 2 * k
  {
  }

  lemma GoodAbove(n: nat, p: nat)
    requires 1 <= n < p
    ensures Good(n, p) <==> IsPrime(p)
  {
    ModUnique(p, 0, n, n);
  }

  lemma EvenNotPrime(q: nat)
    requires q > 2 && q % 2 == 0
    ensures !IsPrime(q)
  {
    assert Divides(2, q);
  }

  ghost predicate NoPrimeBetween(s: nat, t: nat) {
    forall q: nat | s < q < t :: !IsPrime(q)
  }

  lemma NoneGoodAbove(n: nat, s: nat, k: nat)
    requires 1 <= n <= s && 1 < s && s % 2 == 1 && s + 2 * k < TWO_64 && NoneGood(n, s, k)
    ensures NoPrimeBetween(s, s + 2 * k + 2)
  {
    hide Good, IsPrime, Candidate;
    forall q: nat | s < q < s + 2 * k + 2 ensures !IsPrime(q) {
      if q % 2 == 0 {
        EvenNotPrime(q);
      } else {
        var m := (q - s) / 2;
        NoWrap(s, m);
        GoodAbove(n, q);
        assert !Good(n, Candidate(s, m));
      }
    }
  }

  /** For 1 <= n < 2^60 the result is the least prime above max(1009, n | 1), or the give-up constant
      when none of the numbers tried is prime: the 2000 odd ones that follow, and if the run goes on to its
      end there is then no prime within 4000. */
  lemma LeastPrime(n: nat, going: nat, p: nat)
    requires 1 <= n < 0x1000_0000_0000_0000
    ensures Outcome(n, Start(FLOOR, n), Limit(going), GIVE_UP, p) ==>
              var s := if n > 1009 then n + 1 - n % 2 else 1009;
              var limit := if going < 2000 then going else 2000;
              || (s < p <= s + 2 * limit && IsPrime(p) && NoPrimeBetween(s, p))
              || (p == 18446744073709551557 && NoPrimeBetween(s, s + 2 * limit + 2))
    ensures going >= 2000 && Outcome(n, Start(FLOOR, n), Limit(going), GIVE_UP, p) ==>
              var s := if n > 1009 then n + 1 - n % 2 else 1009;
              || (s < p <= s + 4000 && IsPrime(p) && NoPrimeBetween(s, p))
              || (p == 18446744073709551557 && NoPrimeBetween(s, s + 4002))
  {
    hide OddOf, Good, IsPrime, Candidate, NoPrimeBetween;
    StartBelow60(n);
    var s, limit := Start(FLOOR, n), Limit(going);
    if Finds(n, s, limit, p) {
      var k: nat :| k <= limit && FirstGood(n, s, k) && p == Candidate(s, k);
      NoWrap(s, k);
      GoodAbove(n, p);
      NoneGoodAbove(n, s, k - 1);
    } else if NoneGood(n, s, limit) {
      NoneGoodAbove(n, s, limit);
    }
  }

  /** n == 0 is never served, by either search: it is a multiple of everything. */
  lemma ZeroGivesUp(start: nat, limit: nat, fallback: nat, p: nat)
    requires Outcome(0, start, limit, fallback, p)
    ensures p == fallback
  {
    if Finds(0, start, limit, p) {
      Multiple(p, 0);
    }
  }

  /** A number that was found lies above n, as the comment promises, exactly for n < 2^60: the mask of
      the search drops the top four bits. */
  lemma AboveExactly(n: nat, limit: nat, p: nat)
    requires limit <= TRIES && Finds(n, Start(FLOOR, n), limit, p)
    ensures p > n <==> n < 0x1000_0000_0000_0000
  {
    hide OddOf, Good, Candidate;
    var s := Start(FLOOR, n);
    var k: nat :| k <= limit && FirstGood(n, s, k) && p == Candidate(s, k);
    NoWrap(s, k);
    if n < TWO_60 { StartBelow60(n); } else { StartFrom60(n); }
  }

  /** n >= 2^60: the search starts far below n. */
  lemma StartFrom60(n: nat)
    requires n >= TWO_60
    ensures Start(FLOOR, n) + 2 * TRIES < n
  {
    ModUnique(TWO_60, n / TWO_60, n % TWO_60, n);
    MulMono(1, n / TWO_60, TWO_60);
  }

  lemma Residue(d: nat)
    requires 2 <= d < 32
    ensures 1013 % d != 0
  {
    var q := if d < 8 then [506, 337, 253, 202, 168, 144][d - 2]
             else if d < 16 then [126, 112, 101, 92, 84, 77, 72, 67][d - 8]
             else if d < 24 then [63, 59, 56, 53, 50, 48, 46, 44][d - 16]
             else [42, 40, 38, 37, 36, 34, 33, 32][d - 24];
    ModUnique(d, q, 1013 - d * q, 1013);
  }

  lemma Prime1013()
    ensures IsPrime(1013) && !IsPrime(1011)
  {
    assert Divides(3, 1011);
    forall d: nat | 2 <= d < 32 ensures !Divides(d, 1013) {
      Residue(d);
    }
    IsqrtBelow(1013, 32);
    NoneMeansPrime(1013, 32);
  }

  lemma IsqrtBelow(n: nat, r: nat)
    requires n < r * r
    ensures Isqrt(n) < r
  {
    if Isqrt(n) >= r { MulMono(r, Isqrt(n), Isqrt(n)); MulMono(r, Isqrt(n), r); }
  }

  /** For n = 2^60 stress_prime64_get returns 1013, and so does the first call of stress_prime64_next_get. */
  lemma BelowAt60()
    ensures Finds(0x1000_0000_0000_0000, Start(FLOOR, 0x1000_0000_0000_0000), 2000, 1013)
  {
    hide IsPrime, Candidate;
    NoWrap(FLOOR, 1);
    NoWrap(FLOOR, 2);
    Prime1013();
    assert !Good(TWO_60, Candidate(FLOOR, 1));
    assert Good(TWO_60, 1013) by { ModUnique(1013, 1138125868318703, 837, TWO_60); }
    assert FirstGood(TWO_60, Start(FLOOR, TWO_60), 2);
  }

  lemma FoundIsOdd(q: nat)
    requires q % 2 == 1 && IsPrime(q)
    ensures q >= 3
  {
  }

  // ---------- striding ----------

  /** Bezout's identity by Euclid's algorithm. */
  lemma {:induction false} Bezout(x: nat, y: nat) returns (g: nat, a: int, b: int)
    requires x > 0
    ensures g > 0 && Divides(g, x) && Divides(g, y) && g == a * x + b * y
    decreases y
  {
    if y == 0 {
      g, a, b := x, 1, 0;
      Multiple(g, 1);
      Multiple(g, 0);
    } else {
      var q, r := x / y, x % y;
      var c, d;
      g, c, d := Bezout(y, r);
      a, b := d, c - d * q;
      Combine(c, d, q, r, x, y);
      DividesSum(g, y, q, r, x);
    }
  }

  lemma Combine(c: int, d: int, q: int, r: int, x: int, y: int)
    requires x == y * q + r
    ensures c * y + d * r == d * x + (c - d * q) * y
  {
    assert d * x == d * (y * q) + d * r;
    assert (c - d * q) * y == c * y - (d * q) * y;
    assert d * (y * q) == (d * q) * y;
  }

  lemma DividesSum(g: nat, y: nat, q: nat, r: nat, x: nat)
    requires g > 0 && Divides(g, y) && Divides(g, r) && x == y * q + r
    ensures Divides(g, x)
  {
    var s := Quotient(g, y);
    var t := Quotient(g, r);
    assert x == g * (s * q + t) by { assert (g * s) * q == g * (s * q); }
    Multiple(g, s * q + t);
  }

  /** A prime that does not divide n has an inverse modulo n. */
  lemma Inverse(n: nat, p: nat) returns (a: nat)
    requires n > 0 && Good(n, p)
    ensures (a * p) % n == 1 % n
  {
    var g, c, d := Bezout(n, p);
    if g != 1 {
      Quotients(g, p);
      DividesChain(g, g, n);
    }
    a := d % n;
    var q := d / n;
    assert a * p == d * p - n * q * p by { assert (d - n * q) * p == d * p - n * q * p; }
    assert a * p == n * (-c - q * p) + 1 by { assert n * (-c - q * p) == -(c * n) - n * q * p; }
    ModAdd(n, -c - q * p, 1);
  }

  lemma Quotients(g: nat, p: nat)
    requires g > 0 && Divides(g, p) && IsPrime(p) && g != 1
    ensures g == p
  {
    var q := Quotient(g, p);
    ProductAtMost(q, g);
    if g > p { ProductAtLeast(g, q, p + 1, 1); }
  }

  function Stride(n: nat, p: nat, i: nat): (j: nat)
    requires n > 0
    ensures j < n
  {
    (i * p) % n
  }

  lemma Undo(n: nat, p: nat, a: nat, i: nat)
    requires n > 0 && (a * p) % n == 1 % n && i < n
    ensures Stride(n, a, Stride(n, p, i)) == i
  {
    calc {
      (((i * p) % n) * a) % n;
      (a * ((i * p) % n)) % n;
      { ModMul(n, a, i * p); }
      (a * (i * p)) % n;
      { assert a * (i * p) == i * (a * p); }
      (i * (a * p)) % n;
      { ModMul(n, i, a * p); ModMul(n, i, 1); }
      (i * 1) % n;
      { ModUnique(n, 0, i, i); }
      i;
    }
  }

  /** Striding by a found prime visits every one of 0 .. n - 1 exactly once. */
  lemma StridePermutes(n: nat, p: nat, t: nat) returns (i: nat)
    requires Good(n, p) && t < n
    ensures i < n
    ensures forall j: nat | j < n :: Stride(n, p, j) == t <==> j == i
  {
    hide Good, Stride;
    var a := Inverse(n, p);
    i := Stride(n, a, t);
    assert (p * a) % n == 1 % n by { assert p * a == a * p; }
    Undo(n, a, p, t);
    forall j: nat | j < n ensures Stride(n, p, j) == t <==> j == i {
      Undo(n, p, a, j);
    }
  }
}
