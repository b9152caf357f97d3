/** Why a word of any weight is found for every seed that is not stuck.

    The w half runs through the powers of 18000 modulo the prime P.  (P - 1) / 2 is prime as well, so nearly
    P / 2 different values come before one repeats, and those that name one of only 31 bits are fewer. */
module BitgenOrbit {
  import opened Arithmetic
  import opened Bitgen
  import opened BitgenHamming
  import opened Lehmer
  import opened LargePrimes
  import opened Mwc
  import opened Primes
  import opened RangeReduction
  import opened Residues
  import opened Widths
  import opened Words

  // ---------- the w half comes down to the cycle ----------

  /** The only values that a step does not take below the modulus are a little above it ... */
  lemma StepAbove(x: u32)
    ensures Step(A_W, x) >= P ==> Step(A_W, x) <= P + 47536
    ensures P < x <= P + 47536 ==> 0 < Step(A_W, x) < P
  {
    if P < x <= P + 47536 {
      ModUnique(TWO_16, 18000, x - P - 1, x);
    }
  }

  /** ... so after two steps a value that is no multiple of the modulus is below it. */
  lemma BelowAfterTwo(s: Seeds)
    requires s.w % P != 0
    ensures 0 < After(s, 2).w < P
  {
    hide Step;
    FirstWords(s);
    MultiplesStay(s, 1);
    MultiplesStay(s, 2);
    StepAbove(s.w);
    StepAbove(After(s, 1).w);
    if 0 < After(s, 1).w < P { StepStays(A_W, After(s, 1).w); }
    ModUnique(P, 1, 0, P);
  }

  // ---------- no value comes back soon ----------

  lemma {:induction false} AfterAdds(s: Seeds, i: nat, k: nat)
    ensures After(s, i + k) == After(After(s, i), k)
  {
    hide Advance;
    if k > 0 { AfterAdds(s, i, k - 1); }
  }

  /** A number below a prime has an inverse modulo it. */
  lemma InverseBelow(p: nat, v: nat) returns (e: nat)
    requires IsPrime(p) && 0 < v < p
    ensures (e * v) % p == 1
  {
    hide IsPrime;
    var g, c, d := Bezout(p, v);
    NoCommon(g, p, v);
    e := d % p;
    var t := d / p;
    assert e * v == p * (-c - t * v) + 1 by {
      assert (d - p * t) * v == d * v - p * t * v;
      assert p * (-c - t * v) == -(c * p) - p * t * v;
    }
    ModUnique(p, -c - t * v, 1, e * v);
  }

  lemma Cancel(p: nat, x: nat, v: nat)
    requires IsPrime(p) && 0 < v < p && (x * v) % p == v
    ensures x % p == 1
  {
    hide IsPrime;
    var e := InverseBelow(p, v);
    ModMul(p, e, x * v);
    ModMul(p, x, e * v);
    assert e * (x * v) == x * (e * v);
    assert x * 1 == x;
  }

  /** 18000 has no small exponent with power 1. */
  lemma NoSmallExponent(k: nat)
    requires 0 < k < Q
    ensures !IsOne(18000, k, P)
  {
    hide IsOne, PowMod, IsPrime, Primes.Divides;
    if IsOne(18000, k, P) {
      PrimeQ();
      LastPowerP();
      PowModIsOne(P - 1);
      var g := OneGcd(18000, k, P - 1, P);
      DivisorAtMost(g, k);
      EuclidBelow(g, Q, 2);
      DivisorAtMost(g, 2);
      SmallPowers(g);
    }
  }

  lemma PowModIsOne(k: nat)
    ensures IsOne(18000, k, P) <==> PowMod(18000, k, P) == 1
  {
    PowModIs(18000, k, P);
  }

  lemma SmallPowers(g: nat)
    requires 1 <= g <= 2
    ensures !IsOne(18000, g, P)
  {
    assert Pow(18000, 1) == 18000;
    assert Pow(18000, 2) == 18000 * Pow(18000, 1);
    ModUnique(P, 0, Pow(18000, g), Pow(18000, g));
  }

  lemma NoReturn(s: Seeds, i: nat, j: nat)
    requires s.w % P != 0 && 2 <= i < j < i + Q
    ensures After(s, i).w != After(s, j).w
  {
    hide Advance, Pow, IsPrime;
    BelowAfterTwo(s);
    AfterAdds(s, 2, i - 2);
    AfterAdds(s, i, j - i);
    var t := After(s, i);
    StreamStays(After(s, 2), i - 2);
    StreamExactForm(t, j - i);
    if After(s, j).w == t.w {
      PrimeP();
      Cancel(P, Pow(18000, j - i), t.w);
      NoSmallExponent(j - i);
    }
  }

  lemma StreamStays(s: Seeds, n: nat)
    requires 0 < s.w < P
    ensures 0 < After(s, n).w < P
  {
    AfterIterates(s, n);
    ExactForm(A_W, s.w, n);
  }

  // ---------- the values that name a bit of a set ----------

  const SHARE: nat := 18432000

  /** The values up to P whose low six bits name one of the first h bits, and it is set in b. */
  function Naming(b: Word, h: nat): set<nat>
    requires |b| == 64 && h <= 64
  {
    set x: nat | 0 <= x < SHARE * 64 && x % 64 < h && b[x % 64]
  }

  lemma {:induction false} NamingCount(b: Word, h: nat)
    requires |b| == 64 && h <= 64
    ensures |Naming(b, h)| == SHARE * Weight(b[..h])
  {
    if h == 0 {
      assert Naming(b, h) == {};
    } else {
      NamingCount(b, h - 1);
      assert b[..h][..h - 1] == b[..h - 1];
      RemaindersAreFair(64, SHARE, h - 1);
      var same := Class(SHARE * 64, 64, h - 1);
      if b[h - 1] {
        assert Naming(b, h) == Naming(b, h - 1) + same;
        assert Naming(b, h - 1) !! same;
      } else {
        assert Naming(b, h) == Naming(b, h - 1);
      }
    }
  }

  lemma {:induction false} NamedHas(s: Seeds, n: nat, j: nat)
    requires 1 <= j <= n
    ensures Named(s, n)[After(s, j).w % 64]
    decreases n
  {
    hide StartOf;
    if j == n {
      NamedByW(After(s, n));
    } else {
      NamedHas(s, n - 1, j);
    }
  }

  /** The number of words that always suffice. */
  const ENOUGH: nat := 571392002

  /** 32 bits are named: with 31, all the values would be among too few. */
  lemma EnoughWords(s: Seeds)
    requires s.w % P != 0
    ensures Weight(Named(s, ENOUGH)) >= 32
  {
    hide Named, After, Weight, Naming;
    var b := Named(s, ENOUGH);
    var n := ENOUGH - 1;
    var f := seq(n, (i: nat) => After(s, i + 2).w);
    var t := Naming(b, 64);
    NamingCount(b, 64);
    assert b[..64] == b;
    forall i | 0 <= i < n ensures f[i] in t { ValueNames(s, i); }
    forall i, j | 0 <= i < j < n ensures f[i] != f[j] { NoReturn(s, i + 2, j + 2); }
    Pigeonhole(f, t);
  }

  lemma ValueNames(s: Seeds, i: nat)
    requires s.w % P != 0 && i < ENOUGH - 1
    ensures After(s, i + 2).w in Naming(Named(s, ENOUGH), 64)
  {
    hide Named, After;
    BelowAfterTwo(s);
    AfterAdds(s, 2, i);
    StreamStays(After(s, 2), i);
    NamedHas(s, ENOUGH, i + 2);
  }

  /** The search for a word returns exactly if the w half is no multiple of its modulus or at most one bit is
      asked for; and then within 571392002 draws. */
  lemma ReturnsExactly(s: Seeds, target: nat)
    ensures Returns(s, target) <==> s.w % P != 0 || target % 64 <= 1
    ensures Returns(s, target) ==> Weight(Named(s, ENOUGH)) >= WeightOf(target)
  {
    hide Named, Weight;
    if s.w % P != 0 {
      EnoughWords(s);
    } else {
      StuckReturnsExactly(s, target);
      if target % 64 <= 1 { OneNamed(s); }
    }
  }

  lemma OneNamed(s: Seeds)
    requires s.w % P == 0
    ensures Weight(Named(s, ENOUGH)) == 1
  {
    hide Named, Weight;
    StuckNames(s, ENOUGH);
    OneBitWeighsOne(After(s, 1).w % 64);
  }

  /** stress_bitgen_hamming64 itself, which ends wherever it can. */
  method Hamming64(bg: Bitgen, target: nat) returns (v: Word)
    requires bg.w % P != 0 || target % 64 <= 1
    modifies bg`z, bg`w
    ensures |v| == 64 && Weight(v) == WeightOf(target)
    ensures exists n: nat :: DrawnExactly(old(bg.Stream()), n, ENOUGH, v) && bg.Stream() == After(old(bg.Stream()), n)
  {
    ReturnsExactly(bg.Stream(), target);
    var r := bg.Hamming64(target, ENOUGH);
    v := r.value;
  }
}
