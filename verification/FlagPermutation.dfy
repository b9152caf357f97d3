/** The enumeration of all settings of a set of flags. */
module FlagPermutation {
  import opened Words

  const STRESS_MAX_PERMUTATIONS: nat := 20

  /** The number of flags that are permuted. */
  function Permuted(flags: Word): (k: nat)
    ensures k <= STRESS_MAX_PERMUTATIONS && k <= |flags|
  {
    if Weight(flags) > STRESS_MAX_PERMUTATIONS then STRESS_MAX_PERMUTATIONS else Weight(flags)
  }

  /** The bits of j dealt out, lowest first, to the set bits of the flags. */
  function Scatter(flags: Word, j: nat): (m: Word)
    ensures |m| == |flags|
  {
    if flags == [] then []
    else if flags[0] then [j % 2 == 1] + Scatter(flags[1..], j / 2)
    else [false] + Scatter(flags[1..], j)
  }

  /** The bits of a mask collected from the set bits of the flags. */
  function Gather(flags: Word, m: Word): (j: nat)
    requires |m| == |flags|
  {
    if flags == [] then 0
    else if flags[0] then (if m[0] then 1 else 0) + 2 * Gather(flags[1..], m[1..])
    else Gather(flags[1..], m[1..])
  }

  predicate SubMask(m: Word, flags: Word) {
    |m| == |flags| && forall i :: 0 <= i < |m| && m[i] ==> flags[i]
  }

  /** The lowest c set bits of the flags. */
  function Lowest(flags: Word, c: nat): (g: Word)
    ensures |g| == |flags|
  {
    if flags == [] then []
    else if flags[0] && c > 0 then [true] + Lowest(flags[1..], c - 1)
    else [false] + Lowest(flags[1..], c)
  }

  // ---------- weights counted from the low end ----------

  lemma {:induction false} WeightFromLow(w: Word)
    requires w != []
    ensures Weight(w) == (if w[0] then 1 else 0) + Weight(w[1..])
    decreases |w|
  {
    var n := |w| - 1;
    if n > 0 {
      assert w[..n][1..] == w[1..][..n - 1];
      WeightFromLow(w[..n]);
    }
  }

  lemma {:induction false} WeightRest(w: Word, k: nat)
    requires k <= |w| && forall i :: k <= i < |w| ==> !w[i]
    ensures Weight(w) == Weight(w[..k])
    decreases |w|
  {
    if k == |w| {
      assert w[..k] == w;
    } else {
      assert w[..|w| - 1][..k] == w[..k];
      WeightRest(w[..|w| - 1], k);
    }
  }

  // ---------- what the listing holds ----------

  lemma {:induction false} ScatterIsSubMask(flags: Word, j: nat)
    ensures SubMask(Scatter(flags, j), flags)
  {
    if flags != [] { ScatterIsSubMask(flags[1..], if flags[0] then j / 2 else j); }
  }

  /** Larger counters give larger masks. */
  lemma {:induction false} ScatterIncreases(flags: Word, i: nat, j: nat)
    requires i < j < Pow2(Weight(flags))
    ensures Value(Scatter(flags, i)) < Value(Scatter(flags, j))
    decreases |flags|
  {
    if flags != [] {
      WeightFromLow(flags);
      if !flags[0] {
        ScatterIncreases(flags[1..], i, j);
      } else if i / 2 < j / 2 {
        ScatterIncreases(flags[1..], i / 2, j / 2);
      }
    }
  }

  /** Gathering undoes scattering, and scattering undoes gathering on the sub-masks. */
  lemma {:induction false} GatherScatter(flags: Word, j: nat)
    requires j < Pow2(Weight(flags))
    ensures Gather(flags, Scatter(flags, j)) == j
    decreases |flags|
  {
    if flags != [] {
      WeightFromLow(flags);
      GatherScatter(flags[1..], if flags[0] then j / 2 else j);
    }
  }

  lemma SubMaskTail(m: Word, flags: Word)
    requires SubMask(m, flags) && flags != []
    ensures SubMask(m[1..], flags[1..]) && (m[0] ==> flags[0])
  {
    forall i | 0 <= i < |m[1..]| && m[1..][i] ensures flags[1..][i] { assert m[i + 1]; }
  }

  lemma {:induction false} GatherBound(flags: Word, m: Word)
    requires |m| == |flags|
    ensures Gather(flags, m) < Pow2(Weight(flags))
    decreases |flags|
  {
    if flags != [] {
      WeightFromLow(flags);
      GatherBound(flags[1..], m[1..]);
    }
  }

  lemma {:induction false} ScatterGather(flags: Word, m: Word)
    requires SubMask(m, flags) && |m| == |flags|
    ensures Scatter(flags, Gather(flags, m)) == m
    decreases |flags|
  {
    hide SubMask;
    if flags != [] {
      SubMaskTail(m, flags);
      ScatterGather(flags[1..], m[1..]);
      assert m == [m[0]] + m[1..];
    }
  }

  lemma SubMaskLength(m: Word, flags: Word)
    requires SubMask(m, flags)
    ensures |m| == |flags|
  {
  }

  // ---------- the cap ----------

  lemma {:induction false} LowestWeight(flags: Word, c: nat)
    ensures Weight(Lowest(flags, c)) == if Weight(flags) < c then Weight(flags) else c
    ensures Weight(flags) <= c <==> Lowest(flags, c) == flags
    ensures SubMask(Lowest(flags, c), flags)
    decreases |flags|
  {
    if flags != [] {
      WeightFromLow(flags);
      WeightFromLow(Lowest(flags, c));
      LowestWeight(flags[1..], if flags[0] && c > 0 then c - 1 else c);
    }
  }

  /** Every bit kept is lower than every bit dropped. */
  lemma {:induction false} LowestIsLowest(flags: Word, c: nat, i: nat, k: nat)
    requires i < |flags| && k < |flags|
    requires Lowest(flags, c)[i] && flags[k] && !Lowest(flags, c)[k]
    ensures i < k
    decreases |flags|
  {
    var d := if flags[0] && c > 0 then c - 1 else c;
    if k == 0 {
      NothingLeft(flags, i);
    } else if i > 0 {
      LowestIsLowest(flags[1..], d, i - 1, k - 1);
    }
  }

  lemma {:induction false} NothingLeft(flags: Word, i: nat)
    requires i < |flags|
    ensures !Lowest(flags, 0)[i]
  {
    if i > 0 { NothingLeft(flags[1..], i - 1); }
  }

  /** Counters of c bits reach only the lowest c flags. */
  lemma {:induction false} ScatterLowest(flags: Word, c: nat, j: nat)
    requires j < Pow2(c)
    ensures Scatter(flags, j) == Scatter(Lowest(flags, c), j)
    decreases |flags|
  {
    if flags != [] {
      if flags[0] && c == 0 {
        assert j == 0;
        ScatterLowest(flags[1..], 0, 0);
      } else if flags[0] {
        ScatterLowest(flags[1..], c - 1, j / 2);
      } else {
        ScatterLowest(flags[1..], c, j);
      }
    }
  }

  // ---------- the listing ----------

  ghost predicate Listing(flags: Word, list: seq<Word>) {
    |list| == Pow2(Permuted(flags)) && forall j :: 0 <= j < |list| ==> list[j] == Scatter(flags, j)
  }

  /** The listing is strictly increasing and holds exactly the sub-masks of the lowest 20 flags. */
  lemma ListsSubMasks(flags: Word, list: seq<Word>)
    requires Listing(flags, list)
    ensures forall i, j :: 0 <= i < j < |list| ==> Value(list[i]) < Value(list[j])
    ensures forall m :: m in list <==> SubMask(m, Lowest(flags, 20))
  {
    hide Scatter, Gather, Lowest, SubMask, Weight, Pow2;
    var g := Lowest(flags, STRESS_MAX_PERMUTATIONS);
    LowestWeight(flags, STRESS_MAX_PERMUTATIONS);
    Pow2Monotone(Permuted(flags), STRESS_MAX_PERMUTATIONS);
    forall j: nat | j < |list| ensures list[j] == Scatter(g, j) {
      ScatterLowest(flags, STRESS_MAX_PERMUTATIONS, j);
    }
    forall i: nat, j: nat | i < j < |list| ensures Value(list[i]) < Value(list[j]) {
      ScatterIncreases(g, i, j);
    }
    forall m ensures m in list <==> SubMask(m, g) {
      if m in list {
        var j :| 0 <= j < |list| && list[j] == m;
        ScatterIsSubMask(g, j);
      }
      if SubMask(m, g) {
        SubMaskLength(m, g);
        GatherBound(g, m);
        ScatterGather(g, m);
        assert list[Gather(g, m)] == m;
      }
    }
  }

  /** All settings of the flags are listed exactly when no more than 20 flags are set. */
  lemma ListsAllExactly(flags: Word, list: seq<Word>)
    requires Listing(flags, list)
    ensures (forall m :: SubMask(m, flags) ==> m in list) <==> Weight(flags) <= 20
  {
    hide Scatter, Lowest, Weight, Listing;
    var g := Lowest(flags, STRESS_MAX_PERMUTATIONS);
    ListsSubMasks(flags, list);
    LowestWeight(flags, STRESS_MAX_PERMUTATIONS);
    assert SubMask(flags, flags);
    if flags in list {
      assert forall i :: 0 <= i < |g| ==> g[i] == flags[i];
    }
  }

  /** 21 flags. */
  function TwentyOne(): (flags: Word)
    ensures |flags| == 32
  {
    seq(32, i => i < 21)
  }

  /** With 21 flags set, the highest of them alone is a setting that is not listed. */
  lemma MissingSetting(list: seq<Word>)
    requires Listing(TwentyOne(), list)
    ensures SubMask(Bit(20, 32), TwentyOne()) && Bit(20, 32) !in list
  {
    hide Scatter, Lowest, Weight, Listing;
    var flags := TwentyOne();
    var g := Lowest(flags, STRESS_MAX_PERMUTATIONS);
    TwentyOneWeight(21);
    assert flags[..32] == flags;
    WeightRest(flags, 21);
    LowestWeight(flags, STRESS_MAX_PERMUTATIONS);
    ListsSubMasks(flags, list);
    if g[20] {
      var k :| 0 <= k < 32 && g[k] != flags[k];
      LowestIsLowest(flags, STRESS_MAX_PERMUTATIONS, 20, k);
    }
    assert Bit(20, 32)[20];
  }

  lemma {:induction false} TwentyOneWeight(n: nat)
    requires n <= 21
    ensures Weight(TwentyOne()[..n]) == n
  {
    if n > 0 {
      assert TwentyOne()[..n][..n - 1] == TwentyOne()[..n - 1];
      TwentyOneWeight(n - 1);
    }
  }

  /** It starts with no flags and ends with all that are permuted. */
  lemma ListEnds(flags: Word, list: seq<Word>)
    requires Listing(flags, list)
    ensures |list| > 0 && list[0] == Zero(|flags|)
    ensures list[|list| - 1] == Lowest(flags, 20)
  {
    hide Scatter, Lowest, Weight, Pow2;
    var g := Lowest(flags, STRESS_MAX_PERMUTATIONS);
    ScatterZero(flags);
    LowestWeight(flags, STRESS_MAX_PERMUTATIONS);
    Pow2Monotone(Permuted(flags), STRESS_MAX_PERMUTATIONS);
    ScatterLowest(flags, STRESS_MAX_PERMUTATIONS, |list| - 1);
    ScatterFull(g);
  }

  lemma {:induction false} ScatterZero(flags: Word)
    ensures Scatter(flags, 0) == Zero(|flags|)
  {
    if flags != [] { ScatterZero(flags[1..]); }
  }

  lemma EmptyWeight()
    ensures Weight([]) == 0
  {
  }

  lemma {:induction false} ScatterFull(flags: Word)
    ensures Scatter(flags, Pow2(Weight(flags)) - 1) == flags
  {
    hide Weight;
    if flags != [] {
      WeightFromLow(flags);
      ScatterFull(flags[1..]);
      var p := Pow2(Weight(flags[1..]));
      assert (2 * p - 1) / 2 == p - 1 && (2 * p - 1) % 2 == 1;
      assert flags == [flags[0]] + flags[1..];
    } else {
      EmptyWeight();
    }
  }

  // ---------- the loops ----------

  lemma {:induction false} OfNatBit(j: nat, width: nat, m: nat)
    requires m < width
    ensures OfNat(j, width)[m] == NatBit(j, m)
  {
    if m > 0 { OfNatBit(j / 2, width - 1, m - 1); }
  }

  predicate NatBit(j: nat, m: nat) {
    if m == 0 then j % 2 == 1 else NatBit(j / 2, m - 1)
  }

  /** Bit b of a mask is bit m of the counter, m being the number of flags below b. */
  lemma {:induction false} ScatterAt(flags: Word, j: nat, b: nat)
    requires b < |flags|
    ensures Scatter(flags, j)[b] == (flags[b] && NatBit(j, Weight(flags[..b])))
    decreases |flags|
  {
    if b > 0 {
      assert flags[..b][1..] == flags[1..][..b - 1];
      WeightFromLow(flags[..b]);
      ScatterAt(flags[1..], if flags[0] then j / 2 else j, b - 1);
    }
  }

  /** The word while the inner loop has reached bit i. */
  ghost predicate Dealt(flags: Word, j: nat, i: nat, w: Word)
    requires i <= |flags|
  {
    && |w| == |flags|
    && (forall b :: 0 <= b < i ==> w[b] == Scatter(flags, j)[b])
    && (forall b :: i <= b < |w| ==> !w[b])
  }

  /** One round of the inner loop. */
  lemma DealOne(flags: Word, j: nat, i: nat, w: Word, jMask: Word)
    requires |flags| == 32 && i < 32 && Dealt(flags, j, i, w)
    requires jMask == Bit(Weight(flags[..i]), 32)
    ensures var hit := flags[i] && And(OfNat(j, 32), jMask) != Zero(32);
            Dealt(flags, j, i + 1, if hit then Or(w, Bit(i, 32)) else w)
    ensures (if flags[i] then Shl(jMask, 1) else jMask) == Bit(Weight(flags[..i + 1]), 32)
  {
    hide Scatter, NatBit, OfNat;
    var m := Weight(flags[..i]);
    ScatterAt(flags, j, i);
    OfNatBit(j, 32, m);
    assert And(OfNat(j, 32), jMask)[m] == NatBit(j, m);
    if !NatBit(j, m) { assert And(OfNat(j, 32), jMask) == Zero(32); }
    assert flags[..i + 1][..i] == flags[..i];
  }

  /** stress_flag_permutation. The caller may pass no place for the list, and the allocation may fail. */
  method FlagPermutations(flags: Word, wanted: bool, allocates: bool) returns (n: nat, perms: array?<Word>)
    requires |flags| == 32
    ensures !(wanted && allocates) ==> n == 0 && perms == null
    ensures wanted && allocates ==> perms != null && fresh(perms) && n == perms.Length && Listing(flags, perms[..])
  {
    if !wanted {
      return 0, null;
    }
    var nBits := CountFlags(flags);
    if nBits > STRESS_MAX_PERMUTATIONS {
      nBits := STRESS_MAX_PERMUTATIONS;
    }
    var nFlags := Pow2(nBits);
    if !allocates {
      return 0, null;
    }
    var zero := Zero(32);
    var list := new Word[nFlags](_ => zero);
    var j := 0;
    while j < nFlags
      invariant 0 <= j <= nFlags
      invariant forall k :: 0 <= k < j ==> list[k] == Scatter(flags, k)
      invariant forall k :: j <= k < nFlags ==> list[k] == zero
    {
      Deal(flags, list, j);
      j := j + 1;
    }
    return nFlags, list;
  }

  lemma ShiftedOut(flags: Word, k: nat)
    requires k <= |flags|
    ensures Shr(flags, k) == Zero(|flags|) ==> Weight(flags) == Weight(flags[..k])
    ensures k == |flags| ==> Shr(flags, k) == Zero(|flags|)
  {
    if Shr(flags, k) == Zero(|flags|) {
      forall i | k <= i < |flags| ensures !flags[i] { assert Shr(flags, k)[i - k] == flags[i]; }
      WeightRest(flags, k);
    }
  }

  lemma ShiftOne(flags: Word, k: nat)
    requires k < |flags|
    ensures Shr(flags, k)[0] == flags[k] && Shr(Shr(flags, k), 1) == Shr(flags, k + 1)
    ensures Weight(flags[..k + 1]) == Weight(flags[..k]) + if flags[k] then 1 else 0
  {
    assert flags[..k + 1][..k] == flags[..k];
  }

  /** The loop over the shifted flags. */
  method CountFlags(flags: Word) returns (nBits: nat)
    requires |flags| == 32
    ensures nBits == Weight(flags)
  {
    hide Shr, Weight;
    nBits := 0;
    var flagBits := flags;
    ghost var k := 0;
    NothingShifted(flags);
    ShiftedOut(flags, k);
    while flagBits != Zero(32)
      invariant 0 <= k <= 32 && flagBits == Shr(flags, k) && nBits == Weight(flags[..k])
      invariant k == 32 ==> flagBits == Zero(32)
      invariant flagBits == Zero(32) ==> Weight(flags) == Weight(flags[..k])
      decreases 32 - k
    {
      ShiftOne(flags, k);
      nBits := nBits + if flagBits[0] then 1 else 0;
      flagBits := Shr(flagBits, 1);
      k := k + 1;
      ShiftedOut(flags, k);
    }
  }

  lemma NothingShifted(flags: Word)
    ensures Shr(flags, 0) == flags && Weight(flags[..0]) == 0
  {
  }

  /** The inner loop: entry j of the list. */
  method Deal(flags: Word, list: array<Word>, j: nat)
    requires |flags| == 32 && j < list.Length && list[j] == Zero(32)
    modifies list
    ensures list[j] == Scatter(flags, j)
    ensures forall k :: 0 <= k < list.Length && k != j ==> list[k] == old(list[k])
  {
    hide Scatter, NatBit;
    var jWord := OfNat(j, 32);
    var jMask := Bit(0, 32);
    var i := 0;
    while i < 32
      invariant 0 <= i <= 32
      invariant Dealt(flags, j, i, list[j]) && jMask == Bit(Weight(flags[..i]), 32)
      invariant forall k :: 0 <= k < list.Length && k != j ==> list[k] == old(list[k])
    {
      DealOne(flags, j, i, list[j], jMask);
      if flags[i] {
        if And(jWord, jMask) != Zero(32) {
          list[j] := Or(list[j], Bit(i, 32));
        }
        jMask := Shl(jMask, 1);
      }
      i := i + 1;
    }
  }
}
