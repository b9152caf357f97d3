/** What the random words of a bit-pattern handle decide: how often each choice is made, what the five
    densities mean, and which word decides what. */
module BitgenChoices {
  import opened Arithmetic
  import opened Bitgen
  import opened Mwc
  import opened RangeReduction
  import opened Widths
  import opened Words

  // ---------- the densities ----------

  /** The random words that set a band bit. */
  function Setting(d: nat): set<nat> { set r: nat | r < 0x1_0000_0000 && BandBit(d, r) }

  lemma QuarterSet()
    ensures |Setting(1)| == 0x4000_0000
  {
    RemaindersAreFair(4, 0x4000_0000, 0);
    assert Setting(1) == Class(0x1_0000_0000, 4, 0);
  }

  lemma HalfSet()
    ensures |Setting(2)| == 0x8000_0000
  {
    RemaindersAreFair(2, 0x8000_0000, 0);
    assert Setting(2) == Class(0x1_0000_0000, 2, 0);
  }

  /** Density 3 sets a bit exactly where density 1 leaves it clear; the word 0 sets it at one quarter and
      at a half and not at three quarters. */
  lemma ThreeIsNotOne(r: u32)
    ensures BandBit(3, r) <==> !BandBit(1, r)
    ensures BandBit(1, 0) && BandBit(2, 0) && !BandBit(3, 0)
  {
  }

  lemma SetsApart(part: set<nat>, rest: set<nat>, n: nat)
    requires forall x: nat :: x in part || x in rest <==> x < n
    requires part !! rest
    ensures |rest| == n - |part|
  {
    assert part + rest == Interval(0, n);
  }

  lemma ThreeQuartersSet()
    ensures |Setting(3)| == 0xc000_0000
  {
    QuarterSet();
    Complementary();
    hide Setting;
    SetsApart(Setting(1), Setting(3), 0x1_0000_0000);
  }

  lemma Complementary()
    ensures Setting(1) !! Setting(3)
    ensures forall r: nat :: r in Setting(1) || r in Setting(3) <==> r < 0x1_0000_0000
  {
    hide BandBit;
    forall r: u32 ensures BandBit(3, r) <==> !BandBit(1, r) { ThreeIsNotOne(r); }
  }

  /** Density d stands for d quarters: so many of the 2^32 words set the bit. */
  lemma DensityIsQuarters(d: nat)
    requires d <= 4
    ensures |Setting(d)| == d * 0x4000_0000
  {
    match d
    case 0 => assert Setting(0) == {};
    case 1 => QuarterSet();
    case 2 => HalfSet();
    case 3 => ThreeQuartersSet();
    case 4 => assert Setting(4) == Interval(0, 0x1_0000_0000);
  }

  /** Bit i of the band stands at position lo + i of the word, is decided by word 2 + i of the handle's
      stream alone, and is set by d quarters of the values of that word. */
  lemma BandBitShare(h: Handle, v: Word, i: nat)
    requires |v| == 64 && WordOf(h, v) && i < h.width && h.lo < 64 && h.density <= 4
    ensures v[(h.lo + i) % 64] <==> WordAt(h.seeds, 2 + i) in Setting(h.density)
    ensures |Setting(h.density)| == h.density * 0x4000_0000
  {
    hide BandBit, WordAt;
    DensityIsQuarters(h.density);
    assert v[Position(h.lo, i)] == BandBit(h.density, WordAt(h.seeds, 2 + i));
  }

  // ---------- the bits around the window ----------

  function Half(x: nat, k: nat): nat { if k == 0 then x else Half(x, k - 1) / 2 }

  lemma {:induction false} HalfShift(x: nat, k: nat)
    ensures Half(x, k + 1) == Half(x / 2, k)
  {
    if k > 0 { HalfShift(x, k - 1); }
  }

  lemma {:induction false} OfNatAt(x: nat, width: nat, p: nat)
    requires p < width
    ensures OfNat(x, width)[p] <==> Half(x, p) % 2 == 1
  {
    if p > 0 {
      OfNatAt(x / 2, width - 1, p - 1);
      HalfShift(x, p - 1);
    }
  }

  /** Halving a joined word: the low part goes first. */
  lemma {:induction false} HalfLow(high: nat, low: nat, n: nat, k: nat)
    requires low < Pow2(n) && k <= n
    ensures Half(high * Pow2(n) + low, k) == high * Pow2(n - k) + Half(low, k)
    ensures Half(low, k) < Pow2(n - k)
  {
    if k > 0 {
      HalfLow(high, low, n, k - 1);
      HalfOnce(high, Pow2(n - k), Half(low, k - 1));
    }
  }

  lemma HalfOnce(high: nat, p: nat, y: nat)
    ensures (high * (2 * p) + y) / 2 == high * p + y / 2
  {
    assert high * (2 * p) == 2 * (high * p);
  }

  lemma {:induction false} HalfHigh(high: nat, low: nat, n: nat, k: nat)
    requires low < Pow2(n) && k >= n
    ensures Half(high * Pow2(n) + low, k) == Half(high, k - n)
  {
    if k > n {
      HalfHigh(high, low, n, k - 1);
    } else {
      HalfLow(high, low, n, n);
      assert high * Pow2(0) == high;
    }
  }

  lemma JoinBits(high: u32, low: u32, p: nat)
    requires p < 64
    ensures p < 32 ==> (OfNat(Join(high, low), 64)[p] <==> Half(low, p) % 2 == 1)
    ensures p >= 32 ==> (OfNat(Join(high, low), 64)[p] <==> Half(high, p - 32) % 2 == 1)
  {
    hide OfNat, Half, Pow2;
    OfNatAt(Join(high, low), 64, p);
    assert Pow2(32) == TWO_32 by { Pow2OfBits(Bits32); }
    if p < 32 {
      HalfLow(high, low, 32, p);
      EvenPart(high, 32 - p, Half(low, p));
    } else {
      HalfHigh(high, low, 32, p);
    }
  }

  lemma EvenPart(high: nat, n: nat, y: nat)
    requires n > 0
    ensures (high * Pow2(n) + y) % 2 == y % 2
  {
    var e := high * Pow2(n - 1);
    assert high * Pow2(n) == 2 * e;
  }

  /** Outside its window a word is random: its upper half is word 0 of the handle's stream, its lower half
      word 1. */
  lemma RawBits(h: Handle, v: Word, p: nat)
    requires |v| == 64 && WordOf(h, v) && p < 64
    requires !(h.lo <= p < h.lo + h.width || p + 64 < h.lo + h.width)
    ensures p < 32 ==> (v[p] <==> Half(WordAt(h.seeds, 1), p) % 2 == 1)
    ensures p >= 32 ==> (v[p] <==> Half(WordAt(h.seeds, 0), p - 32) % 2 == 1)
  {
    hide OfNat, Half, WordAt, Join;
    JoinBits(WordAt(h.seeds, 0), WordAt(h.seeds, 1), p);
  }

  /** The third mode is uniform: words 0 and 1, with word 2 mixed into the lower half. */
  lemma UniformBits(h: Handle, v: Word, p: nat)
    requires h.edge < EDGE_DICT_SIZE && |v| == 64 && MixedWord(h, v) && p < 64
    requires (h.mix + 1) % 0x1_0000_0000 % 3 == 2
    ensures p >= 32 ==> (v[p] <==> Half(WordAt(h.seeds, 0), p - 32) % 2 == 1)
    ensures p < 32 ==> (v[p] <==> (Half(WordAt(h.seeds, 1), p) % 2 == 1) != (Half(WordAt(h.seeds, 2), p) % 2 == 1))
  {
    hide OfNat, Half, WordAt, WordOf, Join;
    JoinBits(WordAt(h.seeds, 0), WordAt(h.seeds, 1), p);
    JoinBits(0, WordAt(h.seeds, 2), p);
    assert Join(0, WordAt(h.seeds, 2)) == WordAt(h.seeds, 2) by { JoinParts(0, WordAt(h.seeds, 2)); }
    HalfZero(p - if p < 32 then 0 else 32);
  }

  lemma {:induction false} HalfZero(k: nat)
    ensures Half(0, k) == 0
  {
    if k > 0 { HalfZero(k - 1); }
  }

  // ---------- the other choices ----------

  /** The words that roll a width, and that choose a step, a start and a boundary value. */
  function Rolling(cfg: Config, width: nat): set<nat>
    requires cfg.Valid()
  {
    set r: nat | r < 0x1_0000_0000 && ChooseWidth(cfg, r) == width
  }

  function Stepping(step: nat): set<nat> { set r: nat | r < 0x1_0000_0000 && ChooseStep(r) == step }
  function Starting(lo: nat): set<nat> { set r: nat | r < 0x1_0000_0000 && StartOf(r) == lo }
  function Edging(edge: nat): set<nat> { set r: nat | r < 0x1_0000_0000 && EdgeOf(r) == edge }

  /** A width is rolled by every span-th word, the least by word 0, so that no two widths differ by more
      than one word. */
  lemma WidthShare(cfg: Config, width: nat)
    requires cfg.Valid() && cfg.widthMin <= width <= cfg.widthMax
    ensures var span := cfg.widthMax - cfg.widthMin + 1;
            && Rolling(cfg, width) == Class(0x1_0000_0000, span, width - cfg.widthMin)
            && |Rolling(cfg, width)| == 0x1_0000_0000 / span + if width - cfg.widthMin < 0x1_0000_0000 % span then 1 else 0
  {
    var span, v := cfg.widthMax - cfg.widthMin + 1, width - cfg.widthMin;
    RemainderShare(0x1_0000_0000, span, v);
    forall r: nat | r < 0x1_0000_0000 ensures r in Rolling(cfg, width) <==> r in Class(0x1_0000_0000, span, v) {
      RemIsMod(r, span);
    }
    assert Rolling(cfg, width) == Class(0x1_0000_0000, span, v);
  }

  /** Steps from 1 to 7, starts from 0 to 63 and the 57 boundary values, each from every seventh, 64th and
      57th word. */
  lemma OtherShares(step: nat, lo: nat, edge: nat)
    requires 1 <= step <= 7 && lo < 64 && edge < 57
    ensures |Stepping(step)| == 613566756 + if step <= 4 then 1 else 0
    ensures |Starting(lo)| == 0x400_0000
    ensures |Edging(edge)| == 75350303 + if edge < 25 then 1 else 0
    ensures step - 1 in Stepping(step) && lo in Starting(lo) && edge in Edging(edge)
  {
    RemainderShare(0x1_0000_0000, 7, step - 1);
    assert Stepping(step) == Class(0x1_0000_0000, 7, step - 1);
    RemainderShare(0x1_0000_0000, 64, lo);
    assert Starting(lo) == Class(0x1_0000_0000, 64, lo);
    RemainderShare(0x1_0000_0000, 57, edge);
    assert Edging(edge) == Class(0x1_0000_0000, 57, edge);
  }

  /** The allowed densities below d are as many as the set bits of the mask below bit d. */
  lemma {:induction false} AllowedCount(mask: Word, n: nat)
    requires n <= |mask|
    ensures |Allowed(mask, n)| == Weight(mask[..n])
  {
    if n > 0 {
      AllowedCount(mask, n - 1);
      assert mask[..n][..n - 1] == mask[..n - 1];
    }
  }

  /** Entry k of the list of allowed densities has exactly k allowed densities below it. */
  lemma {:induction false} AllowedRank(mask: Word, n: nat, k: nat)
    requires n <= |mask| && k < |Allowed(mask, n)|
    ensures var d := Allowed(mask, n)[k]; d < n && mask[d] && Weight(mask[..d]) == k
  {
    AllowedCount(mask, n - 1);
    if k < |Allowed(mask, n - 1)| {
      AllowedRank(mask, n - 1, k);
    }
  }

  /** With m of the five densities allowed a word r chooses the one that has r mod m allowed ones below it;
      with none allowed all five are. */
  lemma DensityRank(mask: Word, r: u32)
    requires |mask| == 32
    ensures var d := ChooseDensity(mask, r); var m := Weight(mask[..5]);
            && d <= 4
            && (m == 0 ==> d == r % 5)
            && (m > 0 ==> mask[d] && Weight(mask[..d]) == Rem(r, m))
  {
    AllowedCount(mask, 5);
    var allowed := Allowed(mask, 5);
    if allowed != [] {
      AllowedRank(mask, 5, Rem(r, |allowed|));
    }
  }

  // ---------- a known handle ----------

  /** All five densities. */
  function AllDensities(): (mask: Word)
    ensures |mask| == 32
  {
    seq(32, i => i < 5)
  }

  function Defaults(): (cfg: Config)
    ensures cfg.Valid()
  {
    Config(6, 20, AllDensities())
  }

  lemma KnownStream()
    ensures var s := Seeds(2, 1);
            && After(s, 10) == Seeds(2015869298, 896228511)
            && WordAt(s, 4) == 2305076030 && WordAt(s, 5) == 3880432749 && WordAt(s, 6) == 263216920
            && WordAt(s, 7) == 3187702030 && WordAt(s, 8) == 4131373694 && WordAt(s, 9) == 4007484575
  {
    var s := Seeds(2, 1);
    assert After(s, 0) == s;
    assert After(s, 1) == Seeds(73938, 18000);
    assert After(s, 2) == Seeds(310613539, 324000000);
    assert After(s, 3) == Seeds(1420908254, 999940943);
    assert After(s, 4) == Seeds(822138303, 1047453257);
    assert After(s, 5) == Seeds(2022919255, 1024305982);
    assert After(s, 6) == Seeds(722516034, 789099629);
    assert After(s, 7) == Seeds(1743838754, 831414040);
    assert After(s, 8) == Seeds(2102305762, 438204686);
    assert After(s, 9) == Seeds(1551029504, 557826686);
    assert After(s, 10) == Seeds(2015869298, 896228511);
  }

  /** The handle of the seed with low half 1 and high half 2, at the default configuration: four words are
      thrown away, and six decide the fields. */
  lemma KnownHandle(w: u32, z: u32)
    requires w == 1 && z == 2
    ensures Seeded(Defaults(), w, z)
         == Handle(Seeds(2015869298, 896228511), 62, 15, 2, 0, 0, 14, 4007484575)
  {
    hide After, WordAt;
    var cfg := Defaults();
    KnownStream();
    KnownRolls(cfg);
  }

  lemma KnownRolls(cfg: Config)
    requires cfg.Valid() && cfg.widthMin == 6 && cfg.widthMax == 20 && cfg.densityMask == AllDensities()
    ensures ChooseWidth(cfg, 3880432749) == 15 && ChooseDensity(cfg.densityMask, 3187702030) == 0
  {
    RemIsMod(3880432749, 15);
    RemIsMod(3187702030, 5);
    AllAllowed(5);
  }

  lemma {:induction false} AllAllowed(n: nat)
    requires n <= 5
    ensures Allowed(AllDensities(), n) == seq(n, i => i)
  {
    if n > 0 { AllAllowed(n - 1); }
  }

  /** The all-zero seed is replaced, and no other. */
  lemma ZeroSeed(cfg: Config, w: u32, z: u32)
    requires cfg.Valid()
    ensures Seeded(cfg, 0, 0) == Seeded(cfg, 0x13572468, 0)
    ensures w != 0 || z != 0 ==> Seeded(cfg, w, z) == Settled(cfg, Seeds(z, w), 4)
  {
    hide Settled;
  }
}
