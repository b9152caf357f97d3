/** Reducing a random word to 0 .. max-1: by multiply and shift, and by mask and reject. */
module RangeReduction {
  import opened Arithmetic
  import opened Widths
  import opened Words
  import opened Wrappers
  import M = Mwc

  // ---------- multiply and shift ----------

  /** (x * max) >> k for n = 2^k source words; n may be any positive number here. */
  function Scale(x: nat, max: nat, n: nat): nat
    requires n > 0
  {
    x * max / n
  }

  /** The source words that are reduced to v. */
  function Sources(v: nat, max: nat, n: nat): set<nat>
    requires n > 0
  {
    set x: nat | 0 <= x < n && Scale(x, max, n) == v
  }

  /** The least x with x * max >= v * n. */
  function First(v: nat, max: nat, n: nat): nat
    requires max > 0
  {
    (v * n + max - 1) / max
  }

  lemma FirstIsLeast(v: nat, max: nat, n: nat, x: nat)
    requires max > 0
    ensures x >= First(v, max, n) <==> x * max >= v * n
  {
    var f := First(v, max, n);
    assert max * f + (v * n + max - 1) % max == v * n + max - 1;
    if x >= f { MulMono(f, x, max); }
    if x + 1 <= f { MulMono(x + 1, f, max); }
  }

  lemma ScaleIs(v: nat, max: nat, n: nat, x: nat)
    requires max > 0 && n > 0
    ensures Scale(x, max, n) == v <==> First(v, max, n) <= x < First(v + 1, max, n)
  {
    FirstIsLeast(v, max, n, x);
    FirstIsLeast(v + 1, max, n, x);
    ScaleIsPart(x, max, n, v);
  }

  /** Consecutive starts are floor(n / max) or that plus one apart; exactly n / max if max divides n. */
  lemma Spread(v: nat, max: nat, n: nat)
    requires max > 0
    ensures var d := First(v + 1, max, n) - First(v, max, n);
            d == n / max || (d == n / max + 1 && n % max != 0)
  {
    var q, r := n / max, n % max;
    var s := (v * n + max - 1) / max;
    var t := (v * n + max - 1) % max;
    assert (v + 1) * n + max - 1 == (v * n + max - 1) + n;
    assert (v + 1) * n + max - 1 == max * (s + q) + (t + r);
    if t + r < max {
      ModUnique(max, s + q, t + r, (v + 1) * n + max - 1);
    } else {
      assert max * (s + q + 1) == max * (s + q) + max;
      ModUnique(max, s + q + 1, t + r - max, (v + 1) * n + max - 1);
    }
  }

  /** The reduction is fair: the result is below max, and every value below max comes from
      floor(n / max) or ceil(n / max) of the n source words. */
  lemma ScaleIsFair(max: nat, n: nat, v: nat)
    requires 0 < max && 0 < n && v < max
    ensures |Sources(v, max, n)| == n / max || (|Sources(v, max, n)| == n / max + 1 && n % max != 0)
  {
    var lo, hi := First(v, max, n), First(v + 1, max, n);
    Spread(v, max, n);
    FirstIsLeast(v + 1, max, n, n);
    assert n * max >= (v + 1) * n by { MulMono(v + 1, max, n); }
    forall x: nat ensures x in Sources(v, max, n) <==> x in Interval(lo, hi) {
      ScaleIs(v, max, n, x);
    }
    assert Sources(v, max, n) == Interval(lo, hi);
  }

  /** The result is v exactly when the word lies in the v-th of max equal parts of the n words, in order. */
  lemma ScaleIsPart(x: nat, max: nat, n: nat, v: nat)
    requires n > 0
    ensures Scale(x, max, n) == v <==> v * n <= x * max < (v + 1) * n
  {
    assert (v + 1) * n == v * n + n;
    var q := x * max / n;
    assert x * max == n * q + x * max % n;
    if v * n <= x * max < (v + 1) * n { ModUnique(n, v, x * max - v * n, x * max); }
  }

  lemma ScaleBelow(x: nat, max: nat, n: nat)
    requires x < n
    ensures max > 0 ==> Scale(x, max, n) < max
    ensures max == 0 ==> Scale(x, max, n) == 0
  {
    if max > 0 {
      MulMono(x + 1, n, max);
      var q := x * max / n;
      assert n * q <= x * max;
      if q >= max { MulMono(max, q, n); }
    }
  }

  /** When there are at least max source words, the results are exactly 0 .. max - 1. */
  lemma ScaleRange(max: nat, n: nat, v: nat)
    requires 1 <= max <= n
    ensures (exists x: nat :: x < n && Scale(x, max, n) == v) <==> v < max
  {
    forall x: nat | x < n && Scale(x, max, n) == v ensures v < max { ScaleBelow(x, max, n); }
    if v < max {
      ScaleIsFair(max, n, v);
      AtLeastOne(max, n);
      var x :| x in Sources(v, max, n);
      assert Scale(x, max, n) == v;
    }
  }

  lemma AtLeastOne(max: nat, n: nat)
    requires 1 <= max <= n
    ensures n / max >= 1
  {
  }

  method Mwc8Modn(g: M.Mwc, max: nat) returns (r: nat)
    requires max < 0x100
    modifies g
    ensures g.View() == M.Next(old(g.View()), M.W8) && r == Scale(M.Value(old(g.View()), M.W8), max, 0x100)
    ensures if max == 0 then r == 0 else r < max
  {
    var x := g.Mwc8();
    ScaleBelow(x, max, 0x100);
    r := x * max / 0x100;
  }

  method Mwc16Modn(g: M.Mwc, max: nat) returns (r: nat)
    requires max < TWO_16
    modifies g
    ensures g.View() == M.Next(old(g.View()), M.W16) && r == Scale(M.Value(old(g.View()), M.W16), max, TWO_16)
    ensures if max == 0 then r == 0 else r < max
  {
    var x := g.Mwc16();
    ScaleBelow(x, max, TWO_16);
    r := x * max / TWO_16;
  }

  method Mwc32Modn(g: M.Mwc, max: nat) returns (r: nat)
    requires max < TWO_32
    modifies g
    ensures g.View() == M.Next(old(g.View()), M.W32) && r == Scale(M.Value(old(g.View()), M.W32), max, TWO_32)
    ensures if max == 0 then r == 0 else r < max
  {
    var x := g.Mwc32();
    ScaleBelow(x, max, TWO_32);
    r := x * max / TWO_32;
  }

  method Mwc64Modn(g: M.Mwc, max: nat) returns (r: nat)
    requires max < TWO_64
    modifies g
    ensures var s := old(g.View()).seeds;
            && g.View() == old(g.View()).(seeds := M.After(s, 2))
            && r == Scale(M.Join(M.WordAt(s, 0), M.WordAt(s, 1)), max, TWO_64)
    ensures if max == 0 then r == 0 else r < max
  {
    var x := g.Mwc64();
    ScaleBelow(x, max, TWO_64);
    r := x * max / (TWO_64);
  }

  // ---------- mask and reject ----------

  /** Some bit of v is set in the window of n positions from i up. */
  predicate SetWithin(v: Word, i: nat, n: nat) {
    exists j :: i <= j < i + n && j < |v| && v[j]
  }

  /** Bit i of m says whether v has a bit in the n positions from i up. */
  ghost predicate Smeared(m: Word, v: Word, n: nat) {
    |m| == |v| && forall i :: 0 <= i < |v| ==> m[i] == SetWithin(v, i, n)
  }

  /** v |= v >> n doubles the window. */
  lemma SmearDoubles(m: Word, v: Word, n: nat)
    requires Smeared(m, v, n)
    ensures Smeared(Or(m, Shr(m, n)), v, 2 * n)
  {
    var w := Or(m, Shr(m, n));
    forall i | 0 <= i < |v| ensures w[i] == SetWithin(v, i, 2 * n) {
      if SetWithin(v, i, 2 * n) {
        var j :| i <= j < i + 2 * n && j < |v| && v[j];
        if j < i + n { assert SetWithin(v, i, n); } else { assert SetWithin(v, i + n, n); }
      }
      if SetWithin(v, i, n) { var j :| i <= j < i + n && j < |v| && v[j]; }
      if i + n < |v| && SetWithin(v, i + n, n) {
        var j :| i + n <= j < i + n + n && j < |v| && v[j];
      }
    }
  }

  /** stress_mwc8mask, 16mask, 32mask and 64mask: v |= v >> 1, v >> 2, v >> 4, ... up to half the width. */
  method Mask(val: Word) returns (v: Word)
    requires |val| in {8, 16, 32, 64}
    ensures exists h :: IsMask(v, h) && |v| == |val| && IsLeastMask(h, Value(val))
  {
    v := val;
    assert Smeared(v, val, 1);
    var n := 1;
    while n < |val|
      invariant n in {1, 2, 4, 8, 16, 32, 64} && n <= |val|
      invariant Smeared(v, val, n)
    {
      SmearDoubles(v, val, n);
      v := Or(v, Shr(v, n));
      n := 2 * n;
    }
    SmearedIsMask(v, val, n);
  }

  /** 2^h - 1 is the least number of that form that is at least x. */
  predicate IsLeastMask(h: nat, x: nat) {
    x <= Pow2(h) - 1 && (h > 0 ==> Pow2(h - 1) - 1 < x)
  }

  /** The position after the highest bit set. */
  function Height(v: Word): (h: nat)
    ensures h <= |v|
    ensures h > 0 ==> v[h - 1]
    ensures forall i :: h <= i < |v| ==> !v[i]
  {
    if v == [] then 0
    else if v[|v| - 1] then |v|
    else Height(v[..|v| - 1])
  }

  lemma SmearedIsMask(m: Word, v: Word, n: nat)
    requires Smeared(m, v, n) && n >= |v|
    ensures IsMask(m, Height(v)) && IsLeastMask(Height(v), Value(v))
  {
    var h := Height(v);
    forall i | 0 <= i < |m| ensures m[i] == (i < h) {
      if i < h { assert v[h - 1]; assert SetWithin(v, i, n); }
    }
    ValueBelow(v, h);
    if h > 0 { ValueAbove(v, h - 1); }
  }

  /** The four functions differ only in the width of their draws. */
  datatype Size = Bits8 | Bits16 | Bits32 | Bits64

  function BitsOf(z: Size): nat {
    match z case Bits8 => 8 case Bits16 => 16 case Bits32 => 32 case Bits64 => 64
  }

  /** The state after one draw of stress_mwc8, 16, 32 or 64, and the value of the draw. */
  function NextDraw(s: M.State, z: Size): M.State {
    match z
    case Bits8 => M.Next(s, M.W8)
    case Bits16 => M.Next(s, M.W16)
    case Bits32 => M.Next(s, M.W32)
    case Bits64 => s.(seeds := M.After(s.seeds, 2))
  }

  function DrawValue(s: M.State, z: Size): nat {
    match z
    case Bits8 => M.Value(s, M.W8)
    case Bits16 => M.Value(s, M.W16)
    case Bits32 => M.Value(s, M.W32)
    case Bits64 => M.Join(M.WordAt(s.seeds, 0), M.WordAt(s.seeds, 1))
  }

  function StateAfter(s: M.State, z: Size, n: nat): M.State {
    if n == 0 then s else NextDraw(StateAfter(s, z, n - 1), z)
  }

  /** Draw n, counted from 0, of the generator in state s. */
  function DrawAt(s: M.State, z: Size, n: nat): nat { DrawValue(StateAfter(s, z, n), z) }

  // ---------- the draws that are reduced ----------

  lemma DrawBegins(s: M.State, z: Size)
    ensures StateAfter(s, z, 0) == s
  {
  }

  lemma NextWord(seeds: M.Seeds, q: nat)
    ensures M.After(seeds, 0) == seeds
    ensures M.After(seeds, q + 1) == M.Advance(M.After(seeds, q))
    ensures M.WordAt(seeds, q) == M.Output(M.Advance(M.After(seeds, q)))
  {
  }

  /** Draws of 8 bits from a flushed state: the four bytes of each word, lowest first. */
  lemma {:induction false} BytesOfWords(seeds: M.Seeds, q: nat)
    ensures var s := M.Flushed(seeds); var x := M.WordAt(seeds, q);
            && DrawAt(s, Bits8, 4 * q) == x % 256 && DrawAt(s, Bits8, 4 * q + 1) == x / 256 % 256
            && DrawAt(s, Bits8, 4 * q + 2) == x / 256 / 256 % 256 && DrawAt(s, Bits8, 4 * q + 3) == x / 256 / 256 / 256 % 256
    ensures var t := StateAfter(M.Flushed(seeds), Bits8, 4 * q + 4);
            t.seeds == M.After(seeds, q + 1) && t.c8.left == 0
  {
    hide M.Advance, M.Output;
    var s := M.Flushed(seeds);
    if q == 0 { DrawBegins(s, Bits8); } else { BytesOfWords(seeds, q - 1); }
    assert StateAfter(s, Bits8, 4 * q).c8.left == 0;
    var a := StateAfter(s, Bits8, 4 * q);
    NextWord(seeds, q);
    var b, c, d := NextDraw(a, Bits8), NextDraw(NextDraw(a, Bits8), Bits8), NextDraw(NextDraw(NextDraw(a, Bits8), Bits8), Bits8);
    assert StateAfter(s, Bits8, 4 * q + 1) == b;
    assert StateAfter(s, Bits8, 4 * q + 2) == c;
    assert StateAfter(s, Bits8, 4 * q + 3) == d;
    assert StateAfter(s, Bits8, 4 * q + 4) == NextDraw(d, Bits8);
  }

  /** Draws of 16 bits: the two halves of each word, lower first. */
  lemma {:induction false} HalvesOfWords(seeds: M.Seeds, q: nat)
    ensures var s := M.Flushed(seeds); var x := M.WordAt(seeds, q);
            DrawAt(s, Bits16, 2 * q) == x % 0x1_0000 && DrawAt(s, Bits16, 2 * q + 1) == x / 0x1_0000
    ensures var t := StateAfter(M.Flushed(seeds), Bits16, 2 * q + 2);
            t.seeds == M.After(seeds, q + 1) && t.c16.left == 0
  {
    hide M.Advance, M.Output;
    var s := M.Flushed(seeds);
    if q == 0 { DrawBegins(s, Bits16); } else { HalvesOfWords(seeds, q - 1); }
    var a := StateAfter(s, Bits16, 2 * q);
    NextWord(seeds, q);
    var b := NextDraw(a, Bits16);
    assert StateAfter(s, Bits16, 2 * q + 1) == b;
    assert StateAfter(s, Bits16, 2 * q + 2) == NextDraw(b, Bits16);
  }

  /** Draws of 32 bits are the words, and of 64 bits pairs of words, the upper half first. */
  lemma {:induction false} WholeWords(seeds: M.Seeds, n: nat)
    ensures DrawAt(M.Flushed(seeds), Bits32, n) == M.WordAt(seeds, n)
    ensures DrawAt(M.Flushed(seeds), Bits64, n) == M.WordAt(seeds, 2 * n) * 0x1_0000_0000 + M.WordAt(seeds, 2 * n + 1)
    ensures StateAfter(M.Flushed(seeds), Bits32, n) == M.Flushed(M.After(seeds, n))
    ensures StateAfter(M.Flushed(seeds), Bits64, n) == M.Flushed(M.After(seeds, 2 * n))
  {
    hide M.Advance, M.Output;
    if n > 0 {
      WholeWords(seeds, n - 1);
      TwoMore(seeds, 2 * (n - 1));
    }
    TwoMore(seeds, n);
    TwoMore(seeds, 2 * n);
  }

  lemma TwoMore(seeds: M.Seeds, n: nat)
    ensures M.After(M.After(seeds, n), 1) == M.After(seeds, n + 1)
    ensures M.After(M.After(seeds, n), 2) == M.After(seeds, n + 2)
    ensures M.WordAt(M.After(seeds, n), 0) == M.WordAt(seeds, n)
    ensures M.WordAt(M.After(seeds, n), 1) == M.WordAt(seeds, n + 1)
  {
    hide M.Advance, M.Output;
    var s := M.After(seeds, n);
    assert M.After(s, 0) == s;
    assert M.After(s, 1) == M.Advance(s);
    assert M.After(s, 2) == M.Advance(M.After(s, 1));
    assert M.After(seeds, n + 1) == M.Advance(s);
    assert M.After(seeds, n + 2) == M.Advance(M.After(seeds, n + 1));
  }

  lemma Pow2OfBits(z: Size)
    ensures Pow2(BitsOf(z)) == match z case Bits8 => 0x100 case Bits16 => TWO_16 case Bits32 => TWO_32 case Bits64 => TWO_64
  {
    assert Pow2(8) == 0x100;
    Pow2Sum(8, 8);
    Pow2Sum(16, 16);
    Pow2Sum(32, 32);
  }

  lemma DrawFits(s: M.State, z: Size)
    ensures DrawValue(s, z) < Pow2(BitsOf(z))
  {
    hide Pow2;
    Pow2OfBits(z);
  }

  method Draw(g: M.Mwc, z: Size) returns (x: nat)
    modifies g
    ensures g.View() == NextDraw(old(g.View()), z) && x == DrawValue(old(g.View()), z)
  {
    match z
    case Bits8 => x := g.Mwc8();
    case Bits16 => x := g.Mwc16();
    case Bits32 => x := g.Mwc32();
    case Bits64 => x := g.Mwc64();
  }

  ghost predicate Rejected(s: M.State, z: Size, n: nat, m: nat, max: nat)
    requires m > 0
  {
    forall j: nat | j < n :: DrawAt(s, z, j) % m >= max
  }

  /** How the loop goes from state s to state t: with 2^h - 1 the least mask, the result is draw n - 1
      masked, all draws before it are rejected, and no further one is made; or the whole budget is. */
  ghost predicate MaskAndReject(s: M.State, z: Size, max: nat, budget: nat, r: Option<nat>, t: M.State, h: nat, n: nat) {
    && IsLeastMask(h, max) && n <= budget && t == StateAfter(s, z, n)
    && match r
       case None => n == budget && Rejected(s, z, n, Pow2(h), max)
       case Some(v) => n > 0 && Rejected(s, z, n - 1, Pow2(h), max) && v == DrawAt(s, z, n - 1) % Pow2(h) && v < max
  }

  /** stress_mwc8modn, 16modn, 32modn and 64modn with a bound on the draws: None when they do not suffice. */
  method MaskModn(g: M.Mwc, z: Size, max: Word, budget: nat) returns (r: Option<nat>)
    requires |max| == BitsOf(z)
    modifies g
    ensures Value(max) < 2 ==> r == Some(0) && g.View() == old(g.View())
    ensures Value(max) >= 2 ==>
              exists h, n :: MaskAndReject(old(g.View()), z, Value(max), budget, r, g.View(), h, n)
  {
    hide NextDraw, DrawValue, Pow2, IsLeastMask, Words.Value, And, OfNat;
    if Value(max) < 2 {
      return Some(0);
    }
    ghost var s := g.View();
    var mask := Mask(max);
    ghost var h :| IsMask(mask, h) && |mask| == |max| && IsLeastMask(h, Value(max));
    var n := 0;
    while n < budget
      invariant 0 <= n <= budget && g.View() == StateAfter(s, z, n)
      invariant Rejected(s, z, n, Pow2(h), Value(max))
    {
      var x := Draw(g, z);
      n := n + 1;
      DrawFits(StateAfter(s, z, n - 1), z);
      OfNatValue(x, BitsOf(z));
      AndMask(OfNat(x, BitsOf(z)), mask, h);
      var val := Value(And(OfNat(x, BitsOf(z)), mask));
      if val < Value(max) {
        assert MaskAndReject(s, z, Value(max), budget, Some(val), g.View(), h, n);
        return Some(val);
      }
    }
    assert MaskAndReject(s, z, Value(max), budget, None, g.View(), h, n);
    return None;
  }

  /** The source words below n with remainder v modulo m. */
  function Class(n: nat, m: nat, v: nat): set<nat>
    requires m > 0
  {
    set x: nat | 0 <= x < n && x % m == v
  }

  /** m words more hold each remainder once more. */
  lemma MoreWords(m: nat, k: nat, v: nat)
    requires v < m
    ensures Class(k * m + m, m, v) == Class(k * m, m, v) + {k * m + v}
    ensures |Class(k * m + m, m, v)| == |Class(k * m, m, v)| + 1
  {
    var n := k * m;
    ModUnique(m, k, v, n + v);
    forall x: nat | n <= x < n + m ensures x % m == v <==> x == n + v { ModUnique(m, k, x - n, x); }
  }

  lemma NoWords(m: nat, v: nat)
    requires v < m
    ensures |Class(0 * m, m, v)| == 0
  {
    assert Class(0 * m, m, v) == {};
  }

  lemma NextMultiple(m: nat, k: nat)
    requires k > 0
    ensures k * m == (k - 1) * m + m
  {
  }

  /** Of k * m words each remainder modulo m has exactly k. */
  lemma {:induction false} RemaindersAreFair(m: nat, k: nat, v: nat)
    requires v < m
    ensures |Class(k * m, m, v)| == k
  {
    hide Class;
    if k == 0 {
      NoWords(m, v);
    } else {
      RemaindersAreFair(m, k - 1, v);
      NextMultiple(m, k);
      MoreWords(m, k - 1, v);
    }
  }

  /** Of any n words a remainder has n / m, or one more if it is among the first n % m. */
  lemma RemainderShare(n: nat, m: nat, v: nat)
    requires v < m
    ensures |Class(n, m, v)| == n / m + if v < n % m then 1 else 0
  {
    var k, r := n / m, n % m;
    RemaindersAreFair(m, k, v);
    var most := Class(k * m, m, v);
    assert n == k * m + r;
    forall x: nat ensures x in Class(n, m, v) <==> x in most || (v < r && x == k * m + v) {
      if k * m <= x < n { ModUnique(m, k, x - k * m, x); }
      if v < r { ModUnique(m, k, v, k * m + v); }
    }
    assert Class(n, m, v) == most + if v < r then {k * m + v} else {};
  }

  /** Every accepted value is the masked value of the same number of source words, and the mask wastes
      less than half of them. */
  lemma RejectIsFair(width: nat, h: nat, max: nat, v: nat)
    requires h <= width && IsLeastMask(h, max) && v < max
    ensures |Class(Pow2(width), Pow2(h), v)| == Pow2(width - h)
    ensures 2 * max >= Pow2(h)
  {
    Pow2Sum(width - h, h);
    RemaindersAreFair(Pow2(h), Pow2(width - h), v);
  }

  lemma {:induction false} Pow2Sum(m: nat, n: nat)
    ensures Pow2(m) * Pow2(n) == Pow2(m + n)
  {
    if m > 0 {
      Pow2Sum(m - 1, n);
      DoubleFactor(Pow2(m - 1), Pow2(n));
    }
  }

  lemma DoubleFactor(a: nat, b: nat)
    ensures (2 * a) * b == 2 * (a * b)
  {
  }
}
