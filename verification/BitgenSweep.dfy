/** Whole sweeps of the bit window: where it starts, how often, and which bits it reaches. */
module BitgenSweep {
  import opened Arithmetic
  import opened Bitgen
  import opened Mwc
  import opened Words

  /** The handle after k words. */
  function FillMany(cfg: Config, h: Handle, k: nat): Handle
    requires cfg.Valid()
  {
    if k == 0 then h else Fill(cfg, FillMany(cfg, h, k - 1))
  }

  /** Over any run the cursor stays in range and width and density stay within the configured choices. */
  lemma {:induction false} RunIsOK(cfg: Config, h: Handle, k: nat)
    requires HandleOK(cfg, h)
    ensures HandleOK(cfg, FillMany(cfg, h, k))
  {
    if k > 0 {
      RunIsOK(cfg, h, k - 1);
      FillIsOK(cfg, FillMany(cfg, h, k - 1));
    }
  }

  /** The number of words already served of the sweep, and of those still to come. */
  function Served(h: Handle): nat { h.lo * h.step + h.count }

  function Remaining(h: Handle): int { 64 * h.step - Served(h) }

  predicate SameShape(g: Handle, h: Handle) {
    g.width == h.width && g.step == h.step && g.density == h.density && g.edge == h.edge && g.mix == h.mix
  }

  lemma ServedBound(h: Handle)
    requires h.lo < 64 && h.count < h.step
    ensures Served(h) < 64 * h.step
    ensures Served(h) == 64 * h.step - 1 <==> h.lo == 63 && h.count == h.step - 1
  {
    MulMono(h.lo, 63, h.step);
    if h.lo < 63 { MulMono(h.lo, 62, h.step); }
  }

  /** One word either moves the sweep on by one, or ends it. */
  lemma FillServes(cfg: Config, h: Handle)
    requires HandleOK(cfg, h)
    ensures Remaining(h) > 1 ==> SameShape(Fill(cfg, h), h) && Served(Fill(cfg, h)) == Served(h) + 1
    ensures Remaining(h) == 1 ==> Fill(cfg, h).lo == 0 && Fill(cfg, h).count == 0
  {
    hide ChooseWidth, ChooseDensity, ChooseStep, WordAt, After, DensityOK;
    ServedBound(h);
    assert (h.lo + 1) * h.step == h.lo * h.step + h.step;
  }

  /** Until the sweep ends the shape of the window does not change, and the words are served in order. */
  lemma {:induction false} SweepRuns(cfg: Config, h: Handle, k: nat)
    requires HandleOK(cfg, h) && k < Remaining(h)
    ensures HandleOK(cfg, FillMany(cfg, h, k))
    ensures SameShape(FillMany(cfg, h, k), h)
    ensures Served(FillMany(cfg, h, k)) == Served(h) + k
  {
    hide Fill, HandleOK, Served;
    RunIsOK(cfg, h, k);
    if k > 0 {
      var g := FillMany(cfg, h, k - 1);
      RunIsOK(cfg, h, k - 1);
      SweepRuns(cfg, h, k - 1);
      FillServes(cfg, g);
    }
  }

  /** When the remaining words are served, the window is back at bit 0, and the next three words have
      chosen its width, density and step. */
  lemma SweepEnds(cfg: Config, h: Handle)
    requires HandleOK(cfg, h)
    ensures Remaining(h) > 0
    ensures var f := FillMany(cfg, h, Remaining(h) - 1); var n := 2 + if 1 <= f.density <= 3 then f.width else 0;
            FillMany(cfg, h, Remaining(h)) == f.(seeds := After(f.seeds, n + 3), lo := 0, count := 0,
                                                width := ChooseWidth(cfg, WordAt(f.seeds, n)),
                                                density := ChooseDensity(cfg.densityMask, WordAt(f.seeds, n + 1)),
                                                step := ChooseStep(WordAt(f.seeds, n + 2)))
    ensures HandleOK(cfg, FillMany(cfg, h, Remaining(h)))
  {
    hide ChooseWidth, ChooseDensity, ChooseStep, WordAt, After, DensityOK;
    ServedBound(h);
    SweepRuns(cfg, h, Remaining(h) - 1);
    var f := FillMany(cfg, h, Remaining(h) - 1);
    ServedBound(f);
    RunIsOK(cfg, h, Remaining(h));
  }

  /** From the start of a sweep the k-th word has the window at bit k / step, for the (k % step)-th time. */
  lemma SweepSchedule(cfg: Config, h: Handle, k: nat)
    requires HandleOK(cfg, h) && h.lo == 0 && h.count == 0 && k < 64 * h.step
    ensures FillMany(cfg, h, k).lo == k / h.step
    ensures FillMany(cfg, h, k).count == k % h.step
    ensures SameShape(FillMany(cfg, h, k), h)
  {
    SweepRuns(cfg, h, k);
    var g := FillMany(cfg, h, k);
    ModUnique(h.step, g.lo, g.count, k);
  }

  // ---------- how often each start is used, and each bit is reached ----------

  /** How many of the first k words have their window start in a set of starts. */
  function StartsIn(cfg: Config, h: Handle, k: nat, starts: Word): nat
    requires HandleOK(cfg, h) && |starts| == 64
  {
    if k == 0 then 0
    else
      RunIsOK(cfg, h, k - 1);
      StartsIn(cfg, h, k - 1, starts) + if starts[FillMany(cfg, h, k - 1).lo] then 1 else 0
  }

  /** The count that Served words of a sweep have reached. */
  function Tally(lo: nat, count: nat, step: nat, starts: Word): nat
    requires lo < |starts|
  {
    step * Weight(starts[..lo]) + if starts[lo] then count else 0
  }

  lemma TallyStep(lo: nat, count: nat, step: nat, starts: Word)
    requires lo < |starts| && count + 1 <= step
    ensures Tally(lo, count, step, starts) + (if starts[lo] then 1 else 0)
         == if count + 1 < step then Tally(lo, count + 1, step, starts) else step * Weight(starts[..lo + 1])
  {
    assert starts[..lo + 1][..lo] == starts[..lo];
    var t := Weight(starts[..lo]);
    assert step * (t + 1) == step * t + step;
  }

  lemma {:induction false} StartsTally(cfg: Config, h: Handle, k: nat, starts: Word)
    requires HandleOK(cfg, h) && h.lo == 0 && h.count == 0 && k < 64 * h.step && |starts| == 64
    ensures var g := FillMany(cfg, h, k);
            HandleOK(cfg, g) && StartsIn(cfg, h, k, starts) == Tally(g.lo, g.count, h.step, starts)
  {
    hide DensityOK, ChooseWidth, ChooseDensity, ChooseStep, WordAt, After, Tally;
    RunIsOK(cfg, h, k);
    if k == 0 {
      TallyZero(h.step, starts);
    } else {
      var f := FillMany(cfg, h, k - 1);
      StartsTally(cfg, h, k - 1, starts);
      SweepRuns(cfg, h, k - 1);
      ServedBound(f);
      TallyStep(f.lo, f.count, h.step, starts);
      if f.count + 1 == f.step { TallyStart(f.lo + 1, h.step, starts); }
    }
  }

  lemma TallyStart(lo: nat, step: nat, starts: Word)
    requires lo < |starts|
    ensures Tally(lo, 0, step, starts) == step * Weight(starts[..lo])
  {
  }

  lemma TallyZero(step: nat, starts: Word)
    requires 0 < |starts|
    ensures Tally(0, 0, step, starts) == 0
  {
  }

  /** In one sweep every start of the set is used exactly step times. */
  lemma SweepIsFair(cfg: Config, h: Handle, starts: Word)
    requires HandleOK(cfg, h) && h.lo == 0 && h.count == 0 && |starts| == 64
    ensures StartsIn(cfg, h, 64 * h.step, starts) == h.step * Weight(starts)
  {
    hide DensityOK, ChooseWidth, ChooseDensity, ChooseStep, WordAt, After, Fill, Tally;
    var k := 64 * h.step - 1;
    StartsTally(cfg, h, k, starts);
    SweepRuns(cfg, h, k);
    var g := FillMany(cfg, h, k);
    ServedBound(g);
    TallyStep(63, h.step - 1, h.step, starts);
    assert starts[..64] == starts;
  }

  /** Each of the 64 starts is used exactly step times in a sweep. */
  lemma EachStartServed(cfg: Config, h: Handle, p: nat)
    requires HandleOK(cfg, h) && h.lo == 0 && h.count == 0 && p < 64
    ensures StartsIn(cfg, h, 64 * h.step, Bit(p, 64)) == h.step
  {
    SweepIsFair(cfg, h, Bit(p, 64));
    WeightZero(Zero(64));
    WeightGrows(Zero(64), Bit(p, 64), p);
  }

  /** The starts from which a window of the width reaches bit p. */
  function Reaching(width: nat, p: nat): (starts: Word)
    ensures |starts| == 64
    ensures forall lo :: 0 <= lo < 64 ==> starts[lo] == InWindow(lo, width, p)
  {
    seq(64, lo requires 0 <= lo => InWindow(lo, width, p))
  }

  function Max(a: int, b: int): int { if a < b then b else a }

  /** Starts p - width + 1 .. p reach bit p directly, starts from p + 65 - width on by wrapping around. */
  lemma {:induction false} ReachingWeight(width: nat, p: nat, n: nat)
    requires 1 <= width <= 64 && p < 64 && n <= 64
    ensures Weight(Reaching(width, p)[..n])
         == Max(0, (if n < p + 1 then n else p + 1) - Max(0, p - width + 1)) + Max(0, n - (p + 65 - width))
  {
    var starts := Reaching(width, p);
    if n > 0 {
      ReachingWeight(width, p, n - 1);
      assert starts[..n][..n - 1] == starts[..n - 1];
    }
  }

  /** In one sweep every bit of the word lies in the window exactly width * step times, at whatever
      width, because the window wraps around. */
  lemma EachBitReached(cfg: Config, h: Handle, p: nat)
    requires HandleOK(cfg, h) && h.lo == 0 && h.count == 0 && p < 64
    ensures StartsIn(cfg, h, 64 * h.step, Reaching(h.width, p)) == h.step * h.width
  {
    SweepIsFair(cfg, h, Reaching(h.width, p));
    ReachingWeight(h.width, p, 64);
    assert Reaching(h.width, p)[..64] == Reaching(h.width, p);
  }

  /** Throughout a sweep at density 0 the window is all zeros, at density 4 all ones. */
  lemma SolidSweep(cfg: Config, h: Handle, k: nat, v: Word, i: nat)
    requires HandleOK(cfg, h) && k < Remaining(h)
    requires |v| == 64 && WordOf(FillMany(cfg, h, k), v) && i < h.width
    ensures h.density == 0 ==> !v[Position(FillMany(cfg, h, k).lo, i)]
    ensures h.density == 4 ==> v[Position(FillMany(cfg, h, k).lo, i)]
  {
    SweepRuns(cfg, h, k);
  }
}
