/** Boundary values, the rotation of the modes, and skipping. */
module BitgenModes {
  import opened Arithmetic
  import opened Bitgen
  import opened Mwc
  import opened Widths
  import opened Words

  // ---------- boundary values ----------

  /** The neighbour of a value that the three low bits of a word select. */
  function Neighbour(v: nat, a: nat): (x: int)
    requires v < TWO_64 && a < 8
  {
    if a >= 4 then (if v + (a - 3) < TWO_64 then v + (a - 3) else v + (a - 3) - TWO_64)
    else if v >= a + 1 then v - (a + 1) else v + TWO_64 - (a + 1)
  }

  lemma JitteredIs(v: nat, r: u32)
    requires v < TWO_64
    ensures Jittered(v, r) == Neighbour(v, r % 8)
  {
    SplitEight(r);
    WrapsTo(v, 1 + r % 4);
  }

  /** The eight neighbours of a value: the jitter is decided by three bits and is never zero. */
  lemma EightNeighbours(v: nat, r: u32, t: u32)
    requires v < TWO_64
    ensures Jittered(v, r) != v
    ensures Jittered(v, r) == Jittered(v, t) <==> r % 8 == t % 8
  {
    hide Jittered;
    JitteredIs(v, r);
    JitteredIs(v, t);
  }

  /** Words 8q to 8q + 3 go 1 to 4 down, words 8q + 4 to 8q + 7 go 1 to 4 up. */
  lemma JitterDirection(v: nat, q: nat, d: nat)
    requires v < TWO_64 && d < 4 && 8 * q + 7 < TWO_32
    ensures v >= d + 1 ==> Jittered(v, 8 * q + d) == v - (d + 1)
    ensures v + d + 1 < TWO_64 ==> Jittered(v, 8 * q + 4 + d) == v + (d + 1)
  {
    hide Jittered;
    ModUnique(8, q, d, 8 * q + d);
    ModUnique(8, q, 4 + d, 8 * q + 4 + d);
    JitteredIs(v, 8 * q + d);
    JitteredIs(v, 8 * q + 4 + d);
  }

  lemma SplitEight(r: nat)
    ensures r % 8 == 4 * ((r / 4) % 2) + r % 4
  {
  }

  lemma WrapsTo(v: nat, d: nat)
    requires v < TWO_64 && 1 <= d <= 4
    ensures (v + d) % TWO_64 == if v + d < TWO_64 then v + d else v + d - TWO_64
    ensures (v + TWO_64 - d) % TWO_64 == if v < d then v + TWO_64 - d else v - d
  {
  }

  /** What a boundary draw can return: exactly the values at distance 1 to 4 from some entry. */
  ghost predicate Sampled(x: nat) {
    exists i: nat, r: u32 :: i < EDGE_DICT_SIZE && Jittered(EdgeValue(i), r) == x
  }

  predicate Near(x: nat, v: nat) {
    1 <= x - v <= 4 || 1 <= v - x <= 4 || 1 <= x + TWO_64 - v <= 4 || 1 <= v + TWO_64 - x <= 4
  }

  lemma JitteredIsNear(v: nat, r: u32)
    requires v < TWO_64
    ensures Near(Jittered(v, r), v)
  {
    WrapsTo(v, 1 + r % 4);
  }

  lemma NearIsJittered(x: nat, v: nat) returns (r: u32)
    requires x < TWO_64 && v < TWO_64 && Near(x, v)
    ensures Jittered(v, r) == x
  {
    if 1 <= x - v <= 4 || 1 <= x + TWO_64 - v <= 4 {
      var d := if x > v then x - v else x + TWO_64 - v;
      WrapsTo(v, d);
      r := 4 + (d - 1);
    } else {
      var d := if v > x then v - x else v + TWO_64 - x;
      WrapsTo(v, d);
      r := d - 1;
    }
  }

  lemma SampledExactly(x: nat)
    requires x < TWO_64
    ensures Sampled(x) <==> exists i: nat :: i < EDGE_DICT_SIZE && Near(x, EdgeValue(i))
  {
    forall i: nat, r: u32 | i < EDGE_DICT_SIZE && Jittered(EdgeValue(i), r) == x
      ensures Near(x, EdgeValue(i))
    {
      JitteredIsNear(EdgeValue(i), r);
    }
    forall i: nat | i < EDGE_DICT_SIZE && Near(x, EdgeValue(i)) ensures Sampled(x) {
      var r := NearIsJittered(x, EdgeValue(i));
    }
  }

  /** The comment promises the boundary itself, but a boundary without a close neighbour in the
      dictionary is never returned: the quiet NaN is one. */
  lemma QuietNanNeverSampled()
    ensures EdgeValue(28) == 0x7ff8000000000000 && !Sampled(EdgeValue(28))
  {
    forall i: nat | i < EDGE_DICT_SIZE ensures !Near(0x7ff8000000000000, EdgeValue(i)) {
    }
    SampledExactly(0x7ff8000000000000);
  }

  function EdgeMany(h: Handle, n: nat): (g: Handle)
    requires h.edge < EDGE_DICT_SIZE
    ensures g.edge < EDGE_DICT_SIZE
  {
    if n == 0 then h else EdgeMoved(EdgeMany(h, n - 1))
  }

  lemma {:induction false} EdgeCursor(h: Handle, n: nat)
    requires h.edge < EDGE_DICT_SIZE && n <= EDGE_DICT_SIZE
    ensures EdgeMany(h, n).edge == if h.edge + n < EDGE_DICT_SIZE then h.edge + n else h.edge + n - EDGE_DICT_SIZE
  {
    hide After;
    if n > 0 { EdgeCursor(h, n - 1); }
  }

  /** In a round of 57 boundary draws every entry is used exactly once, and then the round repeats. */
  lemma EdgeRound(h: Handle, i: nat) returns (n: nat)
    requires h.edge < EDGE_DICT_SIZE && i < EDGE_DICT_SIZE
    ensures EdgeMany(h, EDGE_DICT_SIZE).edge == h.edge
    ensures n < EDGE_DICT_SIZE
    ensures forall m: nat | m < EDGE_DICT_SIZE :: EdgeMany(h, m).edge == i <==> m == n
  {
    n := if i >= h.edge then i - h.edge else i + EDGE_DICT_SIZE - h.edge;
    EdgeCursor(h, EDGE_DICT_SIZE);
    forall m: nat | m < EDGE_DICT_SIZE ensures EdgeMany(h, m).edge == i <==> m == n {
      EdgeCursor(h, m);
    }
  }

  // ---------- the dictionary ----------

  lemma Pow2Is(k: nat)
    requires k < 64
    ensures Pow2(k + 8) == 256 * Pow2(k)
  {
    assert Pow2(k + 8) == 2 * Pow2(k + 7) == 4 * Pow2(k + 6) == 8 * Pow2(k + 5) == 16 * Pow2(k + 4);
    assert Pow2(k + 4) == 2 * Pow2(k + 3) == 4 * Pow2(k + 2) == 8 * Pow2(k + 1);
  }

  lemma Powers()
    ensures Pow2(8) == 0x100 && Pow2(16) == 0x1_0000 && Pow2(24) == 0x100_0000 && Pow2(32) == 0x1_0000_0000
    ensures Pow2(40) == 0x100_0000_0000 && Pow2(48) == 0x1_0000_0000_0000 && Pow2(56) == 0x100_0000_0000_0000
  {
    Pow2Is(0);
    Pow2Is(8);
    Pow2Is(16);
    Pow2Is(24);
    Pow2Is(32);
    Pow2Is(40);
    Pow2Is(48);
  }

  /** Entries 9 to 23 are 2^k - 1, 2^k and 2^k + 1 for k = 8, 16, 32, 48 and 56. */
  lemma CarryBoundaries(j: nat)
    requires j < 5
    ensures var k := if j < 2 then 8 * (j + 1) else if j == 2 then 32 else 8 * (j + 3);
            EdgeValue(9 + 3 * j) + 1 == EdgeValue(10 + 3 * j) == Pow2(k) == EdgeValue(11 + 3 * j) - 1
  {
    hide Pow2;
    Powers();
  }

  /** Entries 45 to 56 are the powers 2^16, 2^20 and so on up to 2^60, and 42 to 44 are 2^10 to 2^12. */
  lemma SpreadPowers(i: nat)
    requires 42 <= i < 57
    ensures EdgeValue(i) == Pow2(if i < 45 then i - 32 else 4 * i - 164)
  {
    if i < 45 {
      assert Pow2(10) == 1024;
    } else {
      SpreadPower(i);
      hide EdgeValue;
      if i > 45 { SpreadPowers(i - 1); }
    }
  }

  lemma SpreadPower(i: nat)
    requires 45 <= i < 57
    ensures EdgeValue(45) == Pow2(16)
    ensures i > 45 ==> EdgeValue(i) == 16 * EdgeValue(i - 1)
    ensures i > 45 ==> Pow2(4 * i - 164) == 16 * Pow2(4 * (i - 1) - 164)
  {
    Powers();
    var k := 4 * i - 164;
    if i > 45 {
      assert Pow2(k) == 2 * Pow2(k - 1) == 4 * Pow2(k - 2) == 8 * Pow2(k - 3) == 16 * Pow2(k - 4);
    }
  }

  /** The bounds of the signed and unsigned 64-bit integers, and the byte and nibble patterns that are
      each other's complement. */
  lemma IntegerBounds()
    ensures forall i :: 0 <= i < 4 ==> EdgeValue(i) == i
    ensures EdgeValue(4) + 1 == EdgeValue(5) == EdgeValue(6) - 1
    ensures 2 * EdgeValue(5) == TWO_64 && EdgeValue(7) + 2 == TWO_64 && EdgeValue(8) + 1 == TWO_64
    ensures EdgeValue(37) + EdgeValue(38) == TWO_64 - 1 && EdgeValue(38) == 256 * EdgeValue(37)
    ensures EdgeValue(39) + EdgeValue(40) == TWO_64 - 1 && EdgeValue(40) == 16 * EdgeValue(39)
    ensures EdgeValue(41) == EdgeValue(15)
  {
  }

  /** A double from its exponent field and its 52 bits of mantissa. */
  function Double(exponent: nat, mantissa: nat): nat { exponent * 0x10_0000_0000_0000 + mantissa }

  /** The encodings of doubles: the largest and the smallest normal one, the smallest subnormal, infinity
      and quiet NaN, 10^8 and 2^53 with the double below each, and the largest and the smallest float. */
  lemma DoubleBounds()
    ensures EdgeValue(24) == Double(2046, 0xf_ffff_ffff_ffff) && EdgeValue(29) == EdgeValue(24) - 1
    ensures EdgeValue(25) == Double(1, 0) && EdgeValue(30) == EdgeValue(25) + 1 && EdgeValue(26) == Double(0, 1)
    ensures EdgeValue(27) == Double(2047, 0) && EdgeValue(28) == Double(2047, 0x8_0000_0000_0000)
    ensures EdgeValue(31) == Double(1049, 0x7_d784_0000_0000) && EdgeValue(32) == EdgeValue(31) - 1
    ensures EdgeValue(33) == Double(1023 + 53, 0) && EdgeValue(34) == EdgeValue(33) - 1
    ensures EdgeValue(35) == Double(1023 + 127, 0xf_ffff_e000_0000) && EdgeValue(36) == Double(1023 - 149, 0)
  {
  }

  // ---------- the rotation of the modes ----------

  /** Three mixed words in a row use each mode once, except where the 32-bit counter wraps around. */
  lemma ThreeInARow(mix: u32)
    ensures var a := NextMix(mix); var b := NextMix(a); var c := NextMix(b);
            {Mode(a), Mode(b), Mode(c)} == {0, 1, 2} <==> mix != TWO_32 - 3 && mix != TWO_32 - 2
  {
    var a := NextMix(mix);
    var b := NextMix(a);
    var c := NextMix(b);
    var modes := {Mode(a), Mode(b), Mode(c)};
    if mix == TWO_32 - 3 || mix == TWO_32 - 2 {
      assert 1 !in modes || 2 !in modes;
      assert 1 in {0, 1, 2} && 2 in {0, 1, 2};
    } else {
      assert Mode(a) != Mode(b) && Mode(b) != Mode(c) && Mode(a) != Mode(c);
    }
  }

  /** What a mixed word moves: the window alone, the boundary cursor alone by one entry, or neither. */
  lemma WhatMoves(cfg: Config, h: Handle)
    requires HandleOK(cfg, h)
    ensures var m := (h.mix + 1) % 0x1_0000_0000; var g := Mixed(cfg, h);
            && g.mix == m
            && (m % 3 == 0 ==> g == Fill(cfg, h.(mix := m)) && g.edge == h.edge)
            && (m % 3 == 1 ==> g == h.(mix := m, seeds := After(h.seeds, 1), edge := if h.edge == 56 then 0 else h.edge + 1))
            && (m % 3 == 2 ==> g == h.(mix := m, seeds := After(h.seeds, 3)))
  {
    hide After, WordAt, ChooseWidth, ChooseDensity, ChooseStep, DensityOK;
  }

  lemma EdgeMoves(cfg: Config, h: Handle)
    requires HandleOK(cfg, h) && h.mix + 1 < 0x1_0000_0000
    ensures Mixed(cfg, h).mix == h.mix + 1
    ensures Mixed(cfg, h).edge == if (h.mix + 1) % 3 != 1 then h.edge else if h.edge == 56 then 0 else h.edge + 1
  {
    hide Mixed, Fill, HandleOK, After;
    WhatMoves(cfg, h);
  }

  lemma ThreeMove(cfg: Config, h: Handle)
    requires HandleOK(cfg, h) && h.mix + 3 < 0x1_0000_0000
    ensures MixedMany(cfg, h, 3).mix == h.mix + 3
    ensures MixedMany(cfg, h, 3).edge == if h.edge == 56 then 0 else h.edge + 1
  {
    hide Mixed, HandleOK;
    assert MixedMany(cfg, h, 0) == h;
    EdgeMoves(cfg, h);
    EdgeMoves(cfg, MixedMany(cfg, h, 1));
    EdgeMoves(cfg, MixedMany(cfg, h, 2));
  }

  /** A third of the mixed words are boundary values: while the counter does not wrap around, 3n words move
      the boundary cursor by n entries. */
  lemma {:induction false} ThirdIsEdges(cfg: Config, h: Handle, n: nat)
    requires HandleOK(cfg, h) && h.mix + 3 * n < 0x1_0000_0000
    ensures MixedMany(cfg, h, 3 * n).mix == h.mix + 3 * n
    ensures MixedMany(cfg, h, 3 * n).edge == (h.edge + n) % 57
  {
    hide Mixed, HandleOK, MixedMany;
    if n == 0 {
      NoneSkipped(cfg, h);
    } else {
      ThirdIsEdges(cfg, h, n - 1);
      MixedManyAdds(cfg, h, 3 * (n - 1), 3);
      ThreeMove(cfg, MixedMany(cfg, h, 3 * (n - 1)));
      CountNext(h.edge + n - 1, 57);
    }
  }

  lemma NoneSkipped(cfg: Config, h: Handle)
    requires HandleOK(cfg, h)
    ensures MixedMany(cfg, h, 0) == h && h.edge < 57
  {
  }

  // ---------- skipping ----------

  lemma {:induction false} MixedManyAdds(cfg: Config, h: Handle, a: nat, b: nat)
    requires HandleOK(cfg, h)
    ensures MixedMany(cfg, h, a + b) == MixedMany(cfg, MixedMany(cfg, h, a), b)
    decreases b
  {
    hide Mixed, HandleOK;
    if b > 0 { MixedManyAdds(cfg, h, a, b - 1); }
  }

  lemma BegunIs(q: nat, r: nat)
    requires r <= 16
    ensures Begun(8 * q + r) == q + if r == 0 then 0 else if r <= 8 then 1 else 2
  {
    var more := if r == 0 then 0 else if r <= 8 then 1 else 2;
    ModUnique(8, q + more, r + 7 - 8 * more, 8 * q + r + 7);
  }

  lemma BegunAdds(a: nat, b: nat)
    ensures a % 8 == 0 || b % 8 == 0 || a % 8 + b % 8 > 8 ==> Begun(a) + Begun(b) == Begun(a + b)
    ensures !(a % 8 == 0 || b % 8 == 0 || a % 8 + b % 8 > 8) ==> Begun(a) + Begun(b) == Begun(a + b) + 1
  {
    hide Begun;
    BegunIs(a / 8, a % 8);
    BegunIs(b / 8, b % 8);
    BegunIs(a / 8 + b / 8, a % 8 + b % 8);
    assert 8 * (a / 8 + b / 8) + (a % 8 + b % 8) == a + b;
  }

  /** Skipping a bytes and then b is skipping a + b, unless the second skip goes on inside a word that
      the first has begun; then it draws one word more. */
  lemma SkipsAdd(cfg: Config, h: Handle, a: nat, b: nat)
    requires HandleOK(cfg, h)
    ensures a % 8 == 0 || b % 8 == 0 || a % 8 + b % 8 > 8 ==>
              MixedMany(cfg, MixedMany(cfg, h, Begun(a)), Begun(b)) == MixedMany(cfg, h, Begun(a + b))
    ensures !(a % 8 == 0 || b % 8 == 0 || a % 8 + b % 8 > 8) ==>
              MixedMany(cfg, MixedMany(cfg, h, Begun(a)), Begun(b)) == Mixed(cfg, MixedMany(cfg, h, Begun(a + b)))
  {
    hide Mixed, HandleOK, Begun;
    BegunAdds(a, b);
    MixedManyAdds(cfg, h, Begun(a), Begun(b));
  }
}
