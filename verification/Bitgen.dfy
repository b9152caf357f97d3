/** The bit-pattern generator: a window of bits that walks through random words. */
module Bitgen {
  import opened Arithmetic
  import opened Lehmer
  import opened Mwc
  import opened Widths
  import opened Words
  import opened Wrappers

  /** The calibration knobs, as the option parser leaves them. */
  datatype Config = Config(widthMin: nat, widthMax: nat, densityMask: Word) {
    predicate Valid() { 1 <= widthMin <= widthMax <= 64 && |densityMask| == 32 }
  }

  const DENSITY_MAX: nat := 4

  /** The densities whose bit is set in the mask, in increasing order. */
  function Allowed(mask: Word, n: nat): seq<nat>
    requires n <= |mask|
  {
    if n == 0 then [] else Allowed(mask, n - 1) + (if mask[n - 1] then [n - 1] else [])
  }

  /** The density chosen by a random word; an empty mask means all densities. */
  function ChooseDensity(mask: Word, r: u32): nat
    requires |mask| == 32
  {
    var allowed := Allowed(mask, DENSITY_MAX + 1);
    if allowed == [] then r % 5 else allowed[Rem(r, |allowed|)]
  }

  /** A density the configuration may choose. */
  predicate DensityOK(cfg: Config, d: nat)
    requires cfg.Valid()
  {
    d <= DENSITY_MAX && (cfg.densityMask[d] || Allowed(cfg.densityMask, DENSITY_MAX + 1) == [])
  }

  lemma {:induction false} AllowedMeans(mask: Word, n: nat, d: nat)
    requires n <= |mask|
    ensures d in Allowed(mask, n) <==> d < n && mask[d]
  {
    if n > 0 { AllowedMeans(mask, n - 1, d); }
  }

  lemma ChosenIsOK(cfg: Config, r: u32)
    requires cfg.Valid()
    ensures DensityOK(cfg, ChooseDensity(cfg.densityMask, r))
  {
    var allowed := Allowed(cfg.densityMask, DENSITY_MAX + 1);
    if allowed != [] {
      AllowedMeans(cfg.densityMask, DENSITY_MAX + 1, allowed[Rem(r, |allowed|)]);
    }
  }

  function ChooseWidth(cfg: Config, r: u32): (width: nat)
    requires cfg.Valid()
    ensures cfg.widthMin <= width <= cfg.widthMax
  {
    cfg.widthMin + Rem(r, cfg.widthMax - cfg.widthMin + 1)
  }

  function ChooseStep(r: u32): (step: nat)
    ensures 1 <= step <= 7
  {
    1 + r % 7
  }

  /** r & 63, the window start, and the start that follows. */
  function StartOf(r: u32): (lo: nat)
    ensures lo < 64
  {
    r % 64
  }

  function NextStart(lo: nat): (next: nat)
    ensures next < 64
    ensures lo < 63 ==> next == lo + 1
    ensures lo == 63 ==> next == 0
  {
    (lo + 1) % 64
  }

  function EdgeOf(r: u32): (edge: nat)
    ensures edge < EDGE_DICT_SIZE
  {
    r % EDGE_DICT_SIZE
  }

  // ---------- the handle ----------

  datatype Handle = Handle(
    seeds: Seeds, lo: nat, width: nat, step: nat, count: nat, density: nat, edge: nat, mix: u32)

  ghost predicate HandleOK(cfg: Config, h: Handle) {
    && cfg.Valid()
    && h.lo < 64
    && cfg.widthMin <= h.width <= cfg.widthMax
    && 1 <= h.step <= 7
    && h.count < h.step
    && DensityOK(cfg, h.density)
    && h.edge < EDGE_DICT_SIZE
  }

  const EDGE_DICT_SIZE: nat := 57

  /** The handle drawn from words n .. n + 5 of a stream. */
  function Settled(cfg: Config, s: Seeds, n: nat): Handle
    requires cfg.Valid()
  {
    Handle(After(s, n + 6), StartOf(WordAt(s, n)), ChooseWidth(cfg, WordAt(s, n + 1)), ChooseStep(WordAt(s, n + 2)), 0,
           ChooseDensity(cfg.densityMask, WordAt(s, n + 3)), EdgeOf(WordAt(s, n + 4)), WordAt(s, n + 5))
  }

  /** stress_bitgen_seed: four words are thrown away first. */
  function Seeded(cfg: Config, w: u32, z: u32): Handle
    requires cfg.Valid()
  {
    Settled(cfg, StartSeeds(w, z), 4)
  }

  function StartSeeds(w: u32, z: u32): Seeds {
    Seeds(z, if w == 0 && z == 0 then 0x13572468 else w)
  }

  lemma SettledIsOK(cfg: Config, s: Seeds, n: nat)
    requires cfg.Valid()
    ensures HandleOK(cfg, Settled(cfg, s, n))
  {
    ChosenIsOK(cfg, WordAt(s, n + 3));
  }

  // ---------- one word of the band walk ----------

  /** Whether a band bit of a partial density is set, given its random word. */
  predicate BandBit(density: nat, r: u32) {
    match density
    case 1 => r % 4 == 0
    case 2 => r % 2 == 0
    case 3 => r % 4 != 0
    case _ => density == 4
  }

  predicate Partial(density: nat) { 1 <= density <= 3 }

  /** The words drawn before the cursor moves. */
  function FillDraws(h: Handle): nat { 2 + if Partial(h.density) then h.width else 0 }

  /** bg_mwc64: words n and n + 1 of the stream. */
  function DoubleAt(s: Seeds, n: nat): (r: nat)
    ensures r < TWO_32 * TWO_32
  {
    Join(WordAt(s, n), WordAt(s, n + 1))
  }

  /** The cursor after one word, when n words of the stream from s have been drawn. */
  function Moved(cfg: Config, h: Handle, s: Seeds, n: nat): Handle
    requires cfg.Valid()
  {
    if h.count + 1 < h.step then h.(seeds := After(s, n), count := h.count + 1)
    else if NextStart(h.lo) != 0 then h.(seeds := After(s, n), count := 0, lo := NextStart(h.lo))
    else h.(seeds := After(s, n + 3), count := 0, lo := 0,
            width := ChooseWidth(cfg, WordAt(s, n)),
            density := ChooseDensity(cfg.densityMask, WordAt(s, n + 1)),
            step := ChooseStep(WordAt(s, n + 2)))
  }

  /** The handle after one word. */
  function Fill(cfg: Config, h: Handle): Handle
    requires cfg.Valid()
  {
    Moved(cfg, h, h.seeds, FillDraws(h))
  }

  lemma FillIsOK(cfg: Config, h: Handle)
    requires HandleOK(cfg, h)
    ensures HandleOK(cfg, Fill(cfg, h))
  {
    ChosenIsOK(cfg, WordAt(h.seeds, FillDraws(h) + 1));
  }

  /** Position p lies in the window of width positions from lo, which wraps around at 64. */
  predicate InWindow(lo: nat, width: nat, p: nat) {
    lo <= p < lo + width || p + 64 < lo + width
  }

  /** The place of position p in the window. */
  function WindowIndex(lo: nat, p: nat): nat
    requires lo <= 64
  {
    if lo <= p then p - lo else p + 64 - lo
  }

  /** The place of band bit i in the word. */
  function Position(lo: nat, i: nat): (p: nat)
    ensures p < 64
  {
    (lo + i) % 64
  }

  /** What a word must look like: band bit i at position (lo + i) mod 64, raw bits elsewhere. */
  ghost predicate Filled(v: Word, raw: Word, band: Word, lo: nat, width: nat)
    requires |v| == |raw| == |band| == 64 && lo < 64 && width <= 64
  {
    && (forall i :: 0 <= i < width ==> v[Position(lo, i)] == band[i])
    && (forall p :: 0 <= p < 64 && !InWindow(lo, width, p) ==> v[p] == raw[p])
  }

  /** (width >= 64) ? ~0 : (1 << width) - 1 */
  function LowMask(width: nat): (m: Word)
    requires width <= 64
    ensures |m| == 64 && IsMask(m, width)
  {
    seq(64, i => i < width)
  }

  /** The band moved to the window; the part above bit 63 wraps around. */
  function MovedBand(band: Word, lo: nat, width: nat): (w: Word)
    requires |band| == 64 && lo < 64
    ensures |w| == 64
  {
    if lo + width > 64 then Or(Shl(band, lo), Shr(band, 64 - lo)) else Shl(band, lo)
  }

  /** The word with the window cleared, and then its low tail if the window wraps. */
  function Cleared(raw: Word, lo: nat, width: nat): (w: Word)
    requires |raw| == 64 && lo < 64 && width <= 64
    ensures |w| == 64
  {
    var v := And(raw, Not(Shl(LowMask(width), lo)));
    if lo + width > 64 then And(v, Not(Shr(LowMask(width), 64 - lo))) else v
  }

  lemma MovedBandAt(band: Word, lo: nat, width: nat, p: nat)
    requires |band| == 64 && lo < 64 && width <= 64 && p < 64
    requires forall i :: width <= i < 64 ==> !band[i]
    ensures MovedBand(band, lo, width)[p] == (InWindow(lo, width, p) && band[WindowIndex(lo, p)])
  {
    var high, low := Shl(band, lo), Shr(band, 64 - lo);
    assert high[p] == (p >= lo && band[p - lo]);
    assert low[p] == (p + (64 - lo) < 64 && band[p + (64 - lo)]);
  }

  lemma ClearedAt(raw: Word, lo: nat, width: nat, p: nat)
    requires |raw| == 64 && lo < 64 && width <= 64 && p < 64
    ensures Cleared(raw, lo, width)[p] == (raw[p] && !InWindow(lo, width, p))
  {
    var high, low := Shl(LowMask(width), lo), Shr(LowMask(width), 64 - lo);
    assert high[p] == (p >= lo && p - lo < width);
    assert low[p] == (p + (64 - lo) < width);
  }

  /** Wrapped or not, the window holds exactly the band and everything else is left alone. */
  lemma PlaceFills(raw: Word, band: Word, lo: nat, width: nat)
    requires |raw| == |band| == 64 && lo < 64 && width <= 64
    requires forall i :: width <= i < 64 ==> !band[i]
    ensures Filled(Or(Cleared(raw, lo, width), MovedBand(band, lo, width)), raw, band, lo, width)
  {
    var v := Or(Cleared(raw, lo, width), MovedBand(band, lo, width));
    forall p | 0 <= p < 64
      ensures v[p] == if InWindow(lo, width, p) then band[WindowIndex(lo, p)] else raw[p]
    {
      MovedBandAt(band, lo, width, p);
      ClearedAt(raw, lo, width, p);
    }
    forall i | 0 <= i < width ensures v[Position(lo, i)] == band[i] {
      ModUnique(64, if lo + i < 64 then 0 else 1, if lo + i < 64 then lo + i else lo + i - 64, lo + i);
      assert InWindow(lo, width, Position(lo, i)) && WindowIndex(lo, Position(lo, i)) == i;
    }
  }

  // ---------- words of a given weight ----------

  /** The bits named by the first n words of the stream (each word names bit r & 63). */
  function Named(s: Seeds, n: nat): (w: Word)
    ensures |w| == 64
  {
    if n == 0 then Zero(64) else Named(s, n - 1)[StartOf(WordAt(s, n - 1)) := true]
  }

  lemma {:induction false} NamedGrows(s: Seeds, m: nat, n: nat)
    requires m <= n
    ensures Weight(Named(s, m)) <= Weight(Named(s, n))
    decreases n
  {
    hide StartOf, WordAt;
    if m < n {
      NamedGrows(s, m, n - 1);
      var v, b := Named(s, n - 1), StartOf(WordAt(s, n - 1));
      if v[b] {
        assert v[b := true] == v;
      } else {
        WeightGrows(v, v[b := true], b);
      }
    }
  }

  /** A word is the bits named by n words, and n is the least number of words that names so many. */
  ghost predicate DrawnExactly(s: Seeds, n: nat, budget: nat, w: Word) {
    n <= budget && w == Named(s, n) && (n > 0 ==> Named(s, n - 1) != w)
  }

  /** The weight asked for: target & 63, capped at 32. */
  function WeightOf(target: nat): (k: nat)
    ensures k <= 32
  {
    if target % 64 > 32 then 32 else target % 64
  }

  // ---------- boundary values ----------

  function EdgeRow0(i: nat): nat {
    match i
    case 0 => 0x0000000000000000
    case 1 => 0x0000000000000001
    case 2 => 0x0000000000000002
    case 3 => 0x0000000000000003
    case 4 => 0x7fffffffffffffff
    case 5 => 0x8000000000000000
    case 6 => 0x8000000000000001
    case 7 => 0xfffffffffffffffe
    case 8 => 0xffffffffffffffff
    case 9 => 0x00000000000000ff
    case 10 => 0x0000000000000100
    case 11 => 0x0000000000000101
    case 12 => 0x000000000000ffff
    case 13 => 0x0000000000010000
    case 14 => 0x0000000000010001
    case 15 => 0x00000000ffffffff
    case 16 => 0x0000000100000000
    case 17 => 0x0000000100000001
    case 18 => 0x0000ffffffffffff
    case _ => 0x0001000000000000
  }

  function EdgeRow1(i: nat): nat {
    match i
    case 20 => 0x0001000000000001
    case 21 => 0x00ffffffffffffff
    case 22 => 0x0100000000000000
    case 23 => 0x0100000000000001
    case 24 => 0x7fefffffffffffff
    case 25 => 0x0010000000000000
    case 26 => 0x0000000000000001
    case 27 => 0x7ff0000000000000
    case 28 => 0x7ff8000000000000
    case 29 => 0x7feffffffffffffe
    case 30 => 0x0010000000000001
    case 31 => 0x4197d78400000000
    case 32 => 0x4197d783ffffffff
    case 33 => 0x4340000000000000
    case 34 => 0x433fffffffffffff
    case 35 => 0x47efffffe0000000
    case 36 => 0x36a0000000000000
    case 37 => 0x00ff00ff00ff00ff
    case 38 => 0xff00ff00ff00ff00
    case _ => 0x0f0f0f0f0f0f0f0f
  }

  function EdgeRow2(i: nat): nat {
    match i
    case 40 => 0xf0f0f0f0f0f0f0f0
    case 41 => 0x00000000ffffffff
    case 42 => 0x0000000000000400
    case 43 => 0x0000000000000800
    case 44 => 0x0000000000001000
    case 45 => 0x0000000000010000
    case 46 => 0x0000000000100000
    case 47 => 0x0000000001000000
    case 48 => 0x0000000010000000
    case 49 => 0x0000000100000000
    case 50 => 0x0000001000000000
    case 51 => 0x0000010000000000
    case 52 => 0x0000100000000000
    case 53 => 0x0001000000000000
    case 54 => 0x0010000000000000
    case 55 => 0x0100000000000000
    case _ => 0x1000000000000000
  }

  /** The boundary dictionary. */
  function EdgeValue(i: nat): (v: nat)
    requires i < EDGE_DICT_SIZE
    ensures v < TWO_64
  {
    if i < 20 then EdgeRow0(i) else if i < 40 then EdgeRow1(i) else EdgeRow2(i)
  }

  /** The entry after entry i, cyclically. */
  function NextEdge(i: nat): (next: nat)
    requires i < EDGE_DICT_SIZE
    ensures next < EDGE_DICT_SIZE
  {
    if i + 1 >= EDGE_DICT_SIZE then 0 else i + 1
  }

  /** A dictionary value moved by a random word: up or down by 1 .. 4, in 64 bits. */
  function Jittered(v: nat, r: u32): (j: nat)
    requires v < TWO_64
    ensures j < TWO_64
  {
    var delta := 1 + r % 4;
    if (r / 4) % 2 == 1 then (v + delta) % TWO_64 else (v + TWO_64 - delta) % TWO_64
  }

  /** The handle after one boundary value. */
  function EdgeMoved(h: Handle): Handle
    requires h.edge < EDGE_DICT_SIZE
  {
    h.(seeds := After(h.seeds, 1), edge := NextEdge(h.edge))
  }

  // ---------- mixed words ----------

  /** ++mix in 32 bits, and the mode it selects. */
  function NextMix(mix: u32): u32 { (mix + 1) % TWO_32 }

  function Mode(mix: u32): (m: nat)
    ensures m < 3
  {
    mix % 3
  }

  /** The handle after one mixed word. */
  function Mixed(cfg: Config, h: Handle): Handle
    requires HandleOK(cfg, h)
  {
    var g := h.(mix := NextMix(h.mix));
    if Mode(g.mix) == 0 then Fill(cfg, g)
    else if Mode(g.mix) == 1 then EdgeMoved(g)
    else g.(seeds := After(g.seeds, 3))
  }

  /** What a mixed word is, for the handle it is drawn from. */
  ghost predicate MixedWord(h: Handle, v: Word)
    requires h.edge < EDGE_DICT_SIZE && |v| == 64
  {
    var g := h.(mix := NextMix(h.mix));
    if Mode(g.mix) == 0 then WordOf(g, v)
    else if Mode(g.mix) == 1 then v == OfNat(Jittered(EdgeValue(g.edge), WordAt(g.seeds, 0)), 64)
    else v == Xor(OfNat(DoubleAt(g.seeds, 0), 64), OfNat(WordAt(g.seeds, 2), 64))
  }

  lemma MixedIsOK(cfg: Config, h: Handle)
    requires HandleOK(cfg, h)
    ensures HandleOK(cfg, Mixed(cfg, h))
  {
    hide Moved, ChooseWidth, ChooseDensity, ChooseStep, WordAt, After, DensityOK;
    FillIsOK(cfg, h.(mix := NextMix(h.mix)));
  }

  /** The handle after n mixed words. */
  function MixedMany(cfg: Config, h: Handle, n: nat): (g: Handle)
    requires HandleOK(cfg, h)
    ensures HandleOK(cfg, g)
  {
    if n == 0 then h
    else
      MixedIsOK(cfg, MixedMany(cfg, h, n - 1));
      Mixed(cfg, MixedMany(cfg, h, n - 1))
  }

  /** The words begun by len bytes, eight to the word. */
  function Begun(len: nat): nat { (len + 7) / 8 }

  lemma NothingDrawn(s: Seeds)
    ensures After(s, 0) == s
  {
  }

  // ---------- the code ----------

  class Bitgen {
    const cfg: Config
    var w: u32
    var z: u32
    var bandLo: nat
    var bandWidth: nat
    var bandStep: nat
    var bandCount: nat
    var density: nat
    var edgeIdx: nat
    var mix: u32

    function View(): Handle
      reads this
    {
      Handle(Seeds(z, w), bandLo, bandWidth, bandStep, bandCount, density, edgeIdx, mix)
    }

    ghost predicate Valid()
      reads this
    {
      HandleOK(cfg, View())
    }

    function Stream(): Seeds
      reads `z, `w
    {
      Seeds(z, w)
    }

    /** stress_bitgen_seed: the low half of the seed is w, the high half z. */
    constructor (cfg: Config, w: u32, z: u32)
      requires cfg.Valid()
      ensures Valid() && this.cfg == cfg && View() == Seeded(cfg, w, z)
    {
      this.cfg := cfg;
      this.w := w;
      this.z := z;
      bandLo, bandWidth, bandStep, bandCount, density, edgeIdx, mix := 0, 0, 0, 0, 0, 0, 0;
      new;
      if this.w == 0 && this.z == 0 {
        this.w := 0x13572468;
      }
      ghost var s := StartSeeds(w, z);
      var r := Draw64(s, 0);
      r := Draw64(s, 2);
      Settle(s, 4);
      SettledIsOK(cfg, s, 4);
    }

    /** The rest of stress_bitgen_seed: every field from its own word. */
    method Settle(ghost s: Seeds, ghost n: nat)
      requires cfg.Valid() && Stream() == After(s, n)
      modifies this
      ensures View() == Settled(cfg, s, n)
    {
      hide StartOf, ChooseWidth, ChooseStep, ChooseDensity, EdgeOf, WordAt, After;
      var lo := Draw(s, n);
      var width := WidthRoll(s, n + 1);
      var step := Draw(s, n + 2);
      var dens := DensityRoll(s, n + 3);
      var edge := Draw(s, n + 4);
      var mix0 := Draw(s, n + 5);
      bandLo, bandWidth, bandStep, bandCount := StartOf(lo), width, ChooseStep(step), 0;
      density, edgeIdx, mix := dens, EdgeOf(edge), mix0;
    }

    /** bg_mwc32: the handle's own stream advances as the global one would. */
    method Mwc32() returns (r: u32)
      modifies `z, `w
      ensures Stream() == Advance(old(Stream())) && r == Output(Stream())
    {
      StepFits(A_Z, z);
      StepFits(A_W, w);
      z := 36969 * (z % TWO_16) + z / TWO_16;
      w := 18000 * (w % TWO_16) + w / TWO_16;
      r := ((z % TWO_16) * TWO_16 + w) % TWO_32;
    }

    /** bg_mwc32 as word n of the stream from s, and bg_mwc64 as words n and n + 1. */
    method Draw(ghost s: Seeds, ghost n: nat) returns (r: u32)
      requires Stream() == After(s, n)
      modifies `z, `w
      ensures Stream() == After(s, n + 1) && r == WordAt(s, n)
    {
      r := Mwc32();
    }

    method Draw64(ghost s: Seeds, ghost n: nat) returns (r: nat)
      requires Stream() == After(s, n)
      modifies `z, `w
      ensures Stream() == After(s, n + 2) && r == DoubleAt(s, n)
    {
      var high := Draw(s, n);
      var low := Draw(s, n + 1);
      r := Join(high, low);
    }

    /** density_roll */
    method DensityRoll(ghost s: Seeds, ghost n: nat) returns (d: nat)
      requires cfg.Valid() && Stream() == After(s, n)
      modifies `z, `w
      ensures Stream() == After(s, n + 1)
      ensures d == ChooseDensity(cfg.densityMask, WordAt(s, n)) && DensityOK(cfg, d)
    {
      ChosenIsOK(cfg, WordAt(s, n));
      var allowed: seq<nat> := [];
      var i := 0;
      while i <= DENSITY_MAX
        invariant 0 <= i <= DENSITY_MAX + 1 && allowed == Allowed(cfg.densityMask, i)
      {
        if cfg.densityMask[i] {
          allowed := allowed + [i];
        }
        i := i + 1;
      }
      var r := Draw(s, n);
      if |allowed| == 0 {
        return r % (DENSITY_MAX + 1);
      }
      RemIsMod(r, |allowed|);
      return allowed[r % |allowed|];
    }

    /** band_width_roll */
    method WidthRoll(ghost s: Seeds, ghost n: nat) returns (width: nat)
      requires cfg.Valid() && Stream() == After(s, n)
      modifies `z, `w
      ensures Stream() == After(s, n + 1)
      ensures width == ChooseWidth(cfg, WordAt(s, n))
    {
      var span := cfg.widthMax - cfg.widthMin + 1;
      var r := Draw(s, n);
      RemIsMod(r, span);
      width := cfg.widthMin + r % span;
    }

    /** The loop of band_fill: width band bits, each with its own random word if the density is partial. */
    method Band(ghost s: Seeds, ghost n: nat) returns (band: Word)
      requires Valid() && Stream() == After(s, n)
      modifies `z, `w
      ensures Stream() == After(s, n + if Partial(density) then bandWidth else 0)
      ensures |band| == 64 && forall i :: bandWidth <= i < 64 ==> !band[i]
      ensures forall i :: 0 <= i < bandWidth ==> band[i] == BandBit(density, WordAt(s, n + i))
    {
      hide WordAt, After, DensityOK;
      band := Zero(64);
      var i := 0;
      while i < bandWidth
        invariant 0 <= i <= bandWidth && |band| == 64
        invariant Stream() == After(s, n + if Partial(density) then i else 0)
        invariant forall j :: i <= j < 64 ==> !band[j]
        invariant forall j :: 0 <= j < i ==> band[j] == BandBit(density, WordAt(s, n + j))
      {
        var ones := density == 4;
        if Partial(density) {
          var r := Draw(s, n + i);
          ones := BandBit(density, r);
        }
        if ones {
          band := Or(band, Bit(i, 64));
        }
        i := i + 1;
      }
    }

    /** band_fill: the word, then the cursor. */
    method BandFill() returns (v: Word)
      requires Valid()
      modifies this
      ensures Valid() && View() == Fill(cfg, old(View()))
      ensures |v| == 64 && WordOf(old(View()), v)
    {
      ghost var h := View();
      v := FillWord();
      MoveCursor(h.seeds, FillDraws(h));
      FillIsOK(cfg, h);
    }

    method FillWord() returns (v: Word)
      requires Valid()
      modifies `z, `w
      ensures Stream() == After(old(Stream()), FillDraws(old(View())))
      ensures |v| == 64 && WordOf(old(View()), v)
    {
      hide BandBit, WordAt, DoubleAt, InWindow, Position, OfNat, After, Cleared, MovedBand, DensityOK;
      ghost var s := Stream();
      NothingDrawn(s);
      var word := Draw64(s, 0);
      var raw := OfNat(word, 64);
      var band := Band(s, 2);
      PlaceFills(raw, band, bandLo, bandWidth);
      v := Or(Cleared(raw, bandLo, bandWidth), MovedBand(band, bandLo, bandWidth));
    }

    /** The window moves every step calls; when it is back at 0 everything but the start is rolled anew. */
    method MoveCursor(ghost s: Seeds, ghost n: nat)
      requires Valid() && Stream() == After(s, n)
      modifies this
      ensures View() == Moved(cfg, old(View()), s, n)
    {
      hide ChooseWidth, ChooseStep, ChooseDensity, WordAt, After, NextStart;
      bandCount := bandCount + 1;
      if bandCount >= bandStep {
        bandCount := 0;
        bandLo := NextStart(bandLo);
        if bandLo == 0 {
          bandWidth := WidthRoll(s, n);
          density := DensityRoll(s, n + 1);
          var r := Draw(s, n + 2);
          bandStep := ChooseStep(r);
        }
      }
    }

    /** stress_bitgen_hamming64 with a bound on the words drawn: None when they do not suffice. The
        weight counts down as bits are set, so their sum stays what was asked for. */
    method Hamming64(target: nat, budget: nat) returns (v: Option<Word>)
      modifies `z, `w
      ensures v.Some? ==> |v.value| == 64 && Weight(v.value) == if target % 64 > 32 then 32 else target % 64
      ensures v.Some? ==> exists n: nat :: DrawnExactly(old(Stream()), n, budget, v.value) && Stream() == After(old(Stream()), n)
      ensures v.Some? <==> Weight(Named(old(Stream()), budget)) >= WeightOf(target)
      ensures v.None? ==> Stream() == After(old(Stream()), budget)
    {
      hide WordAt, After, StartOf;
      ghost var s := Stream();
      NothingDrawn(s);
      var weight := WeightOf(target);
      var word := Zero(64);
      WeightZero(word);
      var n := 0;
      ghost var last := 0;
      while weight > 0
        invariant n <= budget && Stream() == After(s, n)
        invariant word == Named(s, n) && Weight(word) + weight == WeightOf(target)
        invariant n > 0 ==> Named(s, n - 1) != word
        decreases weight
      {
        var bit := 0;
        var found := false;
        while !found
          invariant n <= budget && Stream() == After(s, n)
          invariant bit < 64 && (found ==> !word[bit] && n > 0 && word == Named(s, n - 1) && Named(s, n) == word[bit := true])
          invariant !found ==> word == Named(s, n)
          decreases !found, budget - n
        {
          if n == budget {
            return None;
          }
          var r := Draw(s, n);
          n := n + 1;
          bit := StartOf(r);
          found := !word[bit];
          if !found { assert word[bit := true] == word; }
        }
        WeightGrows(word, word[bit := true], bit);
        word := word[bit := true];
        weight := weight - 1;
      }
      assert DrawnExactly(s, n, budget, word);
      NamedGrows(s, n, budget);
      v := Some(word);
    }

    /** stress_bitgen_edge64 */
    method Edge64() returns (v: nat)
      requires edgeIdx < EDGE_DICT_SIZE
      modifies `z, `w, `edgeIdx
      ensures View() == EdgeMoved(old(View()))
      ensures v == Jittered(EdgeValue(old(edgeIdx)), WordAt(old(Stream()), 0))
    {
      hide WordAt, EdgeValue;
      NothingDrawn(Stream());
      v := EdgeValue(edgeIdx);
      edgeIdx := edgeIdx + 1;
      if edgeIdx >= EDGE_DICT_SIZE {
        edgeIdx := 0;
      }
      var r := Draw(old(Stream()), 0);
      var delta := 1 + r % 4;
      if (r / 4) % 2 == 1 {
        v := (v + delta) % TWO_64;
      } else {
        v := (v + TWO_64 - delta) % TWO_64;
      }
    }

    /** stress_bitgen_u64 */
    method U64() returns (v: Word)
      requires Valid()
      modifies this
      ensures Valid() && View() == Mixed(cfg, old(View()))
      ensures |v| == 64 && MixedWord(old(View()), v)
    {
      hide WordAt, EdgeValue, Jittered, DensityOK, WordOf, Fill, OfNat;
      ghost var h := View();
      ghost var s := Stream();
      NothingDrawn(s);
      MixedIsOK(cfg, h);
      mix := NextMix(mix);
      if Mode(mix) == 0 {
        v := BandFill();
      } else if Mode(mix) == 1 {
        var e := Edge64();
        v := OfNat(e, 64);
      } else {
        var double := Draw64(s, 0);
        var single := Draw(s, 2);
        v := Xor(OfNat(double, 64), OfNat(single, 64));
      }
    }

    /** stress_bitgen_skip: one word for every 8 bytes begun. */
    method Skip(len: nat)
      requires Valid()
      modifies this
      ensures Valid() && View() == MixedMany(cfg, old(View()), (len + 7) / 8)
    {
      hide Mixed, HandleOK;
      var words := Begun(len);
      var i := 0;
      while i < words
        invariant 0 <= i <= words && Valid()
        invariant View() == MixedMany(cfg, old(View()), i)
      {
        var v := U64();
        i := i + 1;
      }
    }
  }

  /** The word band_fill returns for a handle: band bit i at position (lo + i) mod 64, and the raw
      random word everywhere else. */
  ghost predicate WordOf(h: Handle, v: Word)
    requires |v| == 64
  {
    var raw := OfNat(DoubleAt(h.seeds, 0), 64);
    && (forall i :: 0 <= i < h.width ==> v[Position(h.lo, i)] == BandBit(h.density, WordAt(h.seeds, 2 + i)))
    && (forall p :: 0 <= p < 64 && !InWindow(h.lo, h.width, p) ==> v[p] == raw[p])
  }
}
