/** Fixed-width machine words as their bits, least significant first. */
module Words {
  import opened Arithmetic

  type Word = seq<bool>

  function Pow2(n: nat): (p: nat)
    ensures p > 0
  {
    if n == 0 then 1 else 2 * Pow2(n - 1)
  }

  function Value(w: Word): nat {
    if w == [] then 0 else (if w[0] then 1 else 0) + 2 * Value(w[1..])
  }

  function OfNat(x: nat, width: nat): (w: Word)
    ensures |w| == width
  {
    if width == 0 then [] else [x % 2 == 1] + OfNat(x / 2, width - 1)
  }

  function Zero(width: nat): (w: Word)
    ensures |w| == width && forall i :: 0 <= i < width ==> !w[i]
  {
    seq(width, _ => false)
  }

  function Not(a: Word): (w: Word)
    ensures |w| == |a| && forall i :: 0 <= i < |a| ==> w[i] == !a[i]
  {
    seq(|a|, i requires 0 <= i < |a| => !a[i])
  }

  function And(a: Word, b: Word): (w: Word)
    requires |a| == |b|
    ensures |w| == |a| && forall i :: 0 <= i < |a| ==> w[i] == (a[i] && b[i])
  {
    seq(|a|, i requires 0 <= i < |a| => a[i] && b[i])
  }

  function Or(a: Word, b: Word): (w: Word)
    requires |a| == |b|
    ensures |w| == |a| && forall i :: 0 <= i < |a| ==> w[i] == (a[i] || b[i])
  {
    seq(|a|, i requires 0 <= i < |a| => a[i] || b[i])
  }

  function Shl(a: Word, k: nat): (w: Word)
    ensures |w| == |a| && forall i :: 0 <= i < |a| ==> w[i] == (i >= k && a[i - k])
  {
    seq(|a|, i requires 0 <= i < |a| => i >= k && a[i - k])
  }

  function Shr(a: Word, k: nat): (w: Word)
    ensures |w| == |a| && forall i :: 0 <= i < |a| ==> w[i] == (i + k < |a| && a[i + k])
  {
    seq(|a|, i requires 0 <= i < |a| => i + k < |a| && a[i + k])
  }

  /** 1 << k */
  function Bit(k: nat, width: nat): (w: Word)
    ensures |w| == width && forall i :: 0 <= i < width ==> w[i] == (i == k)
  {
    seq(width, i => i == k)
  }

  function Xor(a: Word, b: Word): (w: Word)
    requires |a| == |b|
    ensures |w| == |a| && forall i :: 0 <= i < |a| ==> w[i] == (a[i] != b[i])
  {
    seq(|a|, i requires 0 <= i < |a| => a[i] != b[i])
  }

  /** The number of set bits. */
  function Weight(w: Word): (n: nat)
    ensures n <= |w|
  {
    if w == [] then 0 else Weight(w[..|w| - 1]) + if w[|w| - 1] then 1 else 0
  }

  lemma {:induction false} WeightGrows(v: Word, w: Word, k: nat)
    requires |v| == |w| && k < |w| && !v[k] && w == v[k := true]
    ensures Weight(w) == Weight(v) + 1
    decreases |w|
  {
    var n := |w| - 1;
    if k == n {
      assert w[..n] == v[..n];
    } else {
      assert w[..n] == v[..n][k := true];
      WeightGrows(v[..n], w[..n], k);
    }
  }

  lemma {:induction false} WeightZero(w: Word)
    requires forall i :: 0 <= i < |w| ==> !w[i]
    ensures Weight(w) == 0
  {
    if w != [] { WeightZero(w[..|w| - 1]); }
  }

  // ---------- values ----------

  lemma {:induction false} ValueBound(w: Word)
    ensures Value(w) < Pow2(|w|)
  {
    if w != [] { ValueBound(w[1..]); }
  }

  lemma {:induction false} Pow2Monotone(m: nat, n: nat)
    requires m <= n
    ensures Pow2(m) <= Pow2(n)
    decreases n
  {
    if m < n { Pow2Monotone(m, n - 1); }
  }

  /** h low bits set and no others. */
  predicate IsMask(m: Word, h: nat) {
    h <= |m| && forall i :: 0 <= i < |m| ==> m[i] == (i < h)
  }

  lemma {:induction false} MaskValue(m: Word, h: nat)
    requires IsMask(m, h)
    ensures Value(m) == Pow2(h) - 1
    decreases |m|
  {
    if m != [] {
      MaskValue(m[1..], if h == 0 then 0 else h - 1);
      if h == 0 { assert !m[0]; } else { assert m[0]; }
    }
  }

  lemma ConsMod(b: nat, x: nat, t: nat)
    requires b < 2 && t > 0
    ensures (b + 2 * x) % (2 * t) == b + 2 * (x % t)
  {
    HalfMod(b + 2 * x, t);
  }

  /** Masking is taking the remainder. */
  lemma {:induction false} AndMask(w: Word, m: Word, h: nat)
    requires |w| == |m| && IsMask(m, h)
    ensures Value(And(w, m)) == Value(w) % Pow2(h)
    decreases |w|
  {
    if w == [] {
      assert Pow2(h) == 1;
    } else {
      var k := if h == 0 then 0 else h - 1;
      assert And(w, m)[1..] == And(w[1..], m[1..]);
      AndMask(w[1..], m[1..], k);
      if h > 0 { ConsMod(if w[0] then 1 else 0, Value(w[1..]), Pow2(k)); }
    }
  }

  /** A word is at least any power of two it has the bit of, and below any it has no bit from. */
  lemma {:induction false} ValueAbove(w: Word, i: nat)
    requires i < |w| && w[i]
    ensures Value(w) >= Pow2(i)
    decreases i
  {
    if i > 0 { ValueAbove(w[1..], i - 1); }
  }

  lemma {:induction false} ValueBelow(w: Word, h: nat)
    requires h <= |w| && forall i :: h <= i < |w| ==> !w[i]
    ensures Value(w) < Pow2(h)
    decreases |w|
  {
    if w != [] {
      if h == 0 {
        assert !w[0];
        assert forall i :: 0 <= i < |w[1..]| ==> w[1..][i] == w[i + 1];
        ValueBelow(w[1..], 0);
      } else {
        assert forall i :: 0 <= i < |w[1..]| ==> w[1..][i] == w[i + 1];
        ValueBelow(w[1..], h - 1);
      }
    }
  }

  lemma {:induction false} OfNatValue(x: nat, width: nat)
    requires x < Pow2(width)
    ensures Value(OfNat(x, width)) == x
  {
    if width > 0 { OfNatValue(x / 2, width - 1); }
  }
}
