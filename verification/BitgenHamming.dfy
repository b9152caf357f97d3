/** When the search for a word of a given weight never ends. */
module BitgenHamming {
  import opened Arithmetic
  import opened Bitgen
  import opened LargePrimes
  import opened Lehmer
  import opened Mwc
  import opened Widths
  import opened Words

  /** The bit a word names is decided by the w half alone. */
  lemma NamedByW(s: Seeds)
    ensures StartOf(Output(s)) == s.w % 64
  {
    var x := (s.z % TWO_16) * TWO_16 + s.w;
    assert x == 64 * (1024 * (s.z % TWO_16)) + s.w;
    ModAdd(64, 1024 * (s.z % TWO_16), s.w);
    LowBits(x);
  }

  lemma LowBits(x: nat)
    ensures (x % TWO_32) % 64 == x % 64
  {
    var q := x / TWO_32;
    assert x == 64 * (67108864 * q) + x % TWO_32;
    ModAdd(64, 67108864 * q, x % TWO_32);
  }

  /** A w half that is a multiple of its modulus never changes again after one step. */
  lemma {:induction false} StuckFromOne(s: Seeds, n: nat)
    requires s.w % P == 0 && n > 0
    ensures After(s, n).w == After(s, 1).w
  {
    hide Step;
    FirstWords(s);
    MultipleAfterOneStep(A_W, s.w);
    if n > 1 {
      StuckFromOne(s, n - 1);
      FixedPoints(A_W, After(s, n - 1).w, 18704, 5137);
    }
  }

  /** ... so that all its words name the same bit. */
  lemma {:induction false} StuckNames(s: Seeds, n: nat)
    requires s.w % P == 0 && n > 0
    ensures Named(s, n) == Bit(After(s, 1).w % 64, 64)
  {
    hide StartOf;
    StuckFromOne(s, n);
    NamedByW(After(s, n));
    if n > 1 { StuckNames(s, n - 1); }
  }

  lemma OneBitWeighsOne(b: nat)
    requires b < 64
    ensures Weight(Bit(b, 64)) == 1
  {
    WeightZero(Zero(64));
    WeightGrows(Zero(64), Bit(b, 64), b);
    assert Bit(b, 64) == Zero(64)[b := true];
  }

  /** Whether some number of words suffices for the weight asked for. */
  ghost predicate Returns(s: Seeds, target: nat) {
    exists n: nat :: Weight(Named(s, n)) >= WeightOf(target)
  }

  /** Once the w half is a multiple of its modulus, the search returns exactly for weights 0 and 1. */
  lemma StuckReturnsExactly(s: Seeds, target: nat)
    requires s.w % P == 0
    ensures Returns(s, target) <==> target % 64 <= 1
  {
    var b := After(s, 1).w % 64;
    OneBitWeighsOne(b);
    StuckNames(s, 1);
    assert Weight(Named(s, 1)) == 1;
    forall n: nat ensures Weight(Named(s, n)) <= 1 {
      if n > 0 { StuckNames(s, n); } else { NamedGrows(s, 0, 1); }
    }
  }

  /** The seeds that put a handle there: every multiple of the modulus, except that w == 0 is replaced
      when z is 0 as well. The guard in the code tests only for both halves being zero. */
  lemma StuckSeeds(cfg: Config, w: u32, z: u32)
    requires cfg.Valid()
    ensures Seeded(cfg, w, z).seeds.w % P == 0 <==> w % P == 0 && (w != 0 || z != 0)
  {
    hide After, WordAt, ChooseWidth, ChooseDensity;
    MultiplesStay(StartSeeds(w, z), 10);
  }

  /** A handle seeded with w == 0 and z != 0 never delivers a word of weight 2 or more. */
  lemma ZeroWNeverReturns(cfg: Config, z: u32, target: nat)
    requires cfg.Valid() && z != 0 && target % 64 >= 2
    ensures !Returns(Seeded(cfg, 0, z).seeds, target)
  {
    StuckSeeds(cfg, 0, z);
    StuckReturnsExactly(Seeded(cfg, 0, z).seeds, target);
  }
}
