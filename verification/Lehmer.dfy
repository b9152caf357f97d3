/** One half of a multiply-with-carry generator: the low 16 bits times a, plus the carry in the high
    bits.  It is a Lehmer generator in disguise: a step multiplies by a modulo a * 2^16 - 1. */
module Lehmer {
  import opened Arithmetic
  import opened Widths

  function Step(a: nat, x: nat): nat { a * (x % TWO_16) + x / TWO_16 }

  function Iterate(a: nat, x: nat, n: nat): nat {
    if n == 0 then x else Step(a, Iterate(a, x, n - 1))
  }

  function Pow(a: nat, n: nat): nat { if n == 0 then 1 else a * Pow(a, n - 1) }

  function Modulus(a: nat): (p: nat)
    requires a > 0
    ensures p > 0
  {
    a * TWO_16 - 1
  }

  /** The 32-bit arithmetic of the code never overflows. */
  lemma StepFits(a: nat, x: u32)
    requires a < TWO_16
    ensures Step(a, x) < TWO_32
  {
    var r, q := x % TWO_16, x / TWO_16;
    assert a * r <= (TWO_16 - 1) * (TWO_16 - 1) by {
      MulMono(a, TWO_16 - 1, r);
      MulMono(r, TWO_16 - 1, TWO_16 - 1);
    }
  }

  /** a * x and the next value differ by a multiple of the modulus. */
  lemma StepIsMultiplication(a: nat, x: nat)
    requires a > 0
    ensures a * x == Modulus(a) * (x / TWO_16) + Step(a, x)
  {
    var r, q := x % TWO_16, x / TWO_16;
    assert x == TWO_16 * q + r;
    assert a * x == a * (TWO_16 * q) + a * r;
    assert a * (TWO_16 * q) == (a * TWO_16) * q;
    assert Modulus(a) * q == (a * TWO_16) * q - q;
  }

  lemma NextResidue(a: nat, x: nat)
    requires a > 0
    ensures Step(a, x) % Modulus(a) == (a * (x % Modulus(a))) % Modulus(a)
  {
    var p := Modulus(a);
    StepIsMultiplication(a, x);
    ModAdd(p, x / TWO_16, Step(a, x));
    ModMul(p, a, x);
  }

  /** After n steps the value is congruent to a^n times the seed. */
  lemma {:induction false} ClosedForm(a: nat, x: nat, n: nat)
    requires a > 0
    ensures Iterate(a, x, n) % Modulus(a) == (Pow(a, n) * x) % Modulus(a)
  {
    var p := Modulus(a);
    if n > 0 {
      var y := Iterate(a, x, n - 1);
      ClosedForm(a, x, n - 1);
      calc {
        Iterate(a, x, n) % p;
        Step(a, y) % p;
        { NextResidue(a, y); }
        (a * (y % p)) % p;
        (a * ((Pow(a, n - 1) * x) % p)) % p;
        { ModMul(p, a, Pow(a, n - 1) * x); }
        (a * (Pow(a, n - 1) * x)) % p;
        { assert a * (Pow(a, n - 1) * x) == (a * Pow(a, n - 1)) * x; }
        (Pow(a, n) * x) % p;
      }
    }
  }

  /** A half becomes zero only if it was zero. */
  lemma ZeroOnlyFromZero(a: nat, x: nat)
    requires a > 0
    ensures Step(a, x) == 0 <==> x == 0
  {
    var r := x % TWO_16;
    if r > 0 { MulMono(1, r, a); }
  }

  /** How far a value and its successor are below the modulus, digit by digit. */
  lemma Gaps(a: nat, x: nat)
    requires a > 0
    ensures var r, q := x % TWO_16, x / TWO_16;
            && Modulus(a) - x == TWO_16 * (a - 1 - q) + (TWO_16 - 1 - r)
            && Modulus(a) - Step(a, x) == a * (TWO_16 - 1 - r) + (a - 1 - q)
  {
    var r := x % TWO_16;
    assert a * (TWO_16 - 1 - r) == a * TWO_16 - a - a * r;
  }

  /** The values strictly between 0 and the modulus are closed under steps: no carry is ever lost. */
  lemma StepStays(a: nat, x: nat)
    requires 0 < a && 0 < x < Modulus(a)
    ensures 0 < Step(a, x) < Modulus(a)
  {
    var r, q := x % TWO_16, x / TWO_16;
    Gaps(a, x);
    assert q <= a - 1;
    if r < TWO_16 - 1 { MulMono(1, TWO_16 - 1 - r, a); }
    ZeroOnlyFromZero(a, x);
  }

  /** On them the sequence is exactly the Lehmer sequence, not only modulo p. */
  lemma {:induction false} ExactForm(a: nat, x: nat, n: nat)
    requires 0 < a && 0 < x < Modulus(a)
    ensures 0 < Iterate(a, x, n) < Modulus(a)
    ensures Iterate(a, x, n) == (Pow(a, n) * x) % Modulus(a)
  {
    var k := 0;
    while k < n
      invariant k <= n && 0 < Iterate(a, x, k) < Modulus(a)
    {
      StepStays(a, Iterate(a, x, k));
      k := k + 1;
    }
    ClosedForm(a, x, n);
    ModUnique(Modulus(a), 0, Iterate(a, x, n), Iterate(a, x, n));
  }

  lemma Cancels(b: nat, m: nat, r: nat, q: nat, u: nat, v: nat)
    requires b * r == m * q && u * b == 1 + m * v
    ensures r == m * (u * q - v * r)
  {
    assert u * (b * r) == u * (m * q) == m * (u * q);
    assert u * (b * r) == (u * b) * r == r + m * v * r;
    assert m * v * r == m * (v * r);
  }

  /** A step leaves a value as it is exactly for 0 and for the modulus, if a - 1 has an inverse u
      modulo 2^16 - 1. */
  lemma FixedPoints(a: nat, x: nat, u: nat, v: nat)
    requires a > 1 && u * (a - 1) == 1 + (TWO_16 - 1) * v
    ensures Step(a, x) == x <==> x == 0 || x == Modulus(a)
  {
    var r, q := x % TWO_16, x / TWO_16;
    Gaps(a, x);
    if Step(a, x) == x {
      assert (a - 1) * r == (TWO_16 - 1) * q;
      Cancels(a - 1, TWO_16 - 1, r, q, u, v);
      Multiples(TWO_16 - 1, u * q - v * r);
      assert r == 0 || r == TWO_16 - 1;
    }
    if x == Modulus(a) {
      ModUnique(TWO_16, a - 1, TWO_16 - 1, x);
    }
  }

  /** 2^16 undoes the multiplication by a. */
  lemma PreviousResidue(a: nat, x: nat)
    requires a > 0
    ensures (TWO_16 * (Step(a, x) % Modulus(a))) % Modulus(a) == x % Modulus(a)
  {
    var p, y := Modulus(a), Step(a, x);
    assert TWO_16 * y == p * (x - TWO_16 * (x / TWO_16)) + x by {
      StepIsMultiplication(a, x);
      assert TWO_16 * (a * x) == (a * TWO_16) * x;
    }
    ModAdd(p, x - TWO_16 * (x / TWO_16), x);
    ModMul(p, TWO_16, y);
  }

  /** Multiples of the modulus stay multiples, and only they become multiples. */
  lemma StuckExactly(a: nat, x: nat)
    requires a > 0
    ensures Rem(Step(a, x), Modulus(a)) == 0 <==> Rem(x, Modulus(a)) == 0
  {
    RemIsMod(Step(a, x), Modulus(a));
    RemIsMod(x, Modulus(a));
    NextResidue(a, x);
    PreviousResidue(a, x);
    BothZero(Modulus(a), a, x % Modulus(a), Step(a, x) % Modulus(a));
  }

  lemma BothZero(p: nat, a: nat, u: nat, v: nat)
    requires p > 0 && v == (a * u) % p && u == (TWO_16 * v) % p
    ensures v == 0 <==> u == 0
  {
    if u == 0 { assert a * u == 0; }
  }
}
